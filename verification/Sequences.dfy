/** Sequences taken apart at their last element. */
module Sequences {

  function Front<T>(s: seq<T>): (f: seq<T>)
    requires s != []
    ensures |f| == |s| - 1
  {
    s[..|s| - 1]
  }

  function Last<T>(s: seq<T>): T
    requires s != []
  {
    s[|s| - 1]
  }

  lemma FrontLast<T>(s: seq<T>)
    requires s != []
    ensures s == Front(s) + [Last(s)]
  {}

  lemma FrontOfAppend<T>(s: seq<T>, x: T)
    ensures Front(s + [x]) == s && Last(s + [x]) == x
  {}

  lemma FrontOfPrefix<T>(s: seq<T>, i: nat)
    requires i < |s|
    ensures Front(s[..i + 1]) == s[..i] && Last(s[..i + 1]) == s[i]
  {}

  // ---------------------------------------------------------------- counting

  function Elements(a: seq<nat>): set<nat> {
    if a == [] then {} else Elements(Front(a)) + {Last(a)}
  }

  lemma {:induction false} ElementsIn(a: seq<nat>, x: nat)
    ensures x in Elements(a) <==> x in a
  {
    if a != [] {
      FrontLast(a);
      ElementsIn(Front(a), x);
    }
  }

  lemma {:induction false} SizeOfElements(a: seq<nat>)
    ensures |Elements(a)| <= |a|
    ensures (forall i, j :: 0 <= i < j < |a| ==> a[i] != a[j]) ==> |Elements(a)| == |a|
  {
    if a != [] {
      SizeOfElements(Front(a));
      ElementsIn(Front(a), Last(a));
      if Last(a) in Front(a) {
        var i :| 0 <= i < |Front(a)| && Front(a)[i] == Last(a);
        assert a[i] == a[|a| - 1];
      }
    }
  }

  /** Different numbers that all occur in b are at most as many as b has entries. */
  lemma DistinctInto(a: seq<nat>, b: seq<nat>)
    requires forall i, j :: 0 <= i < j < |a| ==> a[i] != a[j]
    requires forall i :: 0 <= i < |a| ==> a[i] in b
    ensures |a| <= |b|
  {
    hide Elements;
    SizeOfElements(a);
    SizeOfElements(b);
    forall x | x in Elements(a) ensures x in Elements(b) {
      ElementsIn(a, x);
      ElementsIn(b, x);
    }
    assert Elements(b) == Elements(a) + (Elements(b) - Elements(a));
  }
}

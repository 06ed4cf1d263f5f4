/** The blocks that spread a message over several Reed-Solomon codewords and put it back together. Path j of an
    interleaved sequence consists of the symbols j, j + depth, j + 2 depth and so on. */
module RsInterleave {
  import opened Arithmetic
  import opened ExclusiveOr
  import opened GaloisField
  import opened Options
  import opened Locators
  import opened RsDecode
  import opened RsErrors
  import opened RsEncode
  import opened RsInit
  import opened RsOutcome
  import opened Sequences
  import opened Words

  function At(s: seq<nat>, i: nat): nat { if i < |s| then s[i] else 0 }

  /** The first n symbols of path j at interleave depth m. */
  function Path(s: seq<nat>, m: nat, j: nat, n: nat): (p: seq<nat>)
    ensures |p| == n
  {
    seq(n, k requires 0 <= k < n => At(s, j + k * m))
  }

  /** A shortened block, filled up with leading zeros. */
  function Padded(nn: nat, p: seq<nat>): seq<nat> {
    if |p| <= nn then seq(nn - |p|, _ => 0) + p else p
  }

  function Resize(s: seq<nat>, n: nat): (r: seq<nat>)
    ensures |r| == n
  {
    if n <= |s| then s[..n] else s + seq(n - |s|, _ => 0)
  }

  // ---------------------------------------------------------------- indices of an interleaved sequence

  lemma IndexBelow(m: nat, n: nat, j: nat, k: nat)
    requires j < m && k < n
    ensures j + k * m < n * m
  {
    var d := n - k;
    assert d * m == n * m - k * m;
    MulAtLeast(d, m);
  }

  /** Different path positions are different places of the sequence. */
  lemma IndexUnique(m: nat, j: nat, k: nat, j': nat, k': nat)
    requires j < m && j' < m && j + k * m == j' + k' * m
    ensures j == j' && k == k'
  {
    DivModUnique(j + k * m, m, k, j);
    DivModUnique(j + k * m, m, k', j');
  }

  lemma PathAt(s: seq<nat>, m: nat, j: nat, n: nat, k: nat)
    requires k < n && j < m && n * m <= |s|
    ensures j + k * m < |s| && Path(s, m, j, n)[k] == s[j + k * m]
  {
    IndexBelow(m, n, j, k);
  }

  /** The paths determine the sequence. */
  lemma PathsDetermine(s: seq<nat>, t: seq<nat>, m: nat, n: nat)
    requires m >= 1 && |s| == n * m <= |t|
    requires forall j :: 0 <= j < m ==> Path(s, m, j, n) == Path(t, m, j, n)
    ensures s == t[..|s|]
  {
    hide Path;
    forall i | 0 <= i < |s| ensures s[i] == t[i] {
      var j, k := Position(i, m, n);
      PathAt(s, m, j, n, k);
      PathAt(t, m, j, n, k);
      assert Path(s, m, j, n) == Path(t, m, j, n);
    }
  }

  /** Every place of the sequence is on some path. */
  lemma Position(i: nat, m: nat, n: nat) returns (j: nat, k: nat)
    requires m >= 1 && i < n * m
    ensures i == j + k * m && j < m && k < n
  {
    j, k := i % m, i / m;
    var d := k - n;
    assert d * m == k * m - n * m;
    MulAtLeast(d, m);
  }

  // ---------------------------------------------------------------- moving one path

  /** The codeword buffer receives path j behind pad zeros. */
  method LoadPath(codeword: array<nat>, msg: seq<nat>, m: nat, j: nat, pad: nat, n: nat)
    requires j < m && n * m <= |msg| && pad + n <= codeword.Length
    modifies codeword
    ensures forall i :: 0 <= i < pad ==> codeword[i] == 0
    ensures codeword[pad..pad + n] == Path(msg, m, j, n)
  {
    hide *;
    for i := 0 to pad
      invariant forall k :: 0 <= k < i ==> codeword[k] == 0
    {
      codeword[i] := 0;
    }
    for k := 0 to n
      invariant forall i :: 0 <= i < pad ==> codeword[i] == 0
      invariant forall i :: pad <= i < pad + k ==> codeword[i] == Path(msg, m, j, n)[i - pad]
    {
      PathAt(msg, m, j, n, k);
      codeword[pad + k] := msg[j + k * m];
    }
  }

  /** Path j of the output frame receives n symbols of the codeword; the other paths stay. */
  method StorePath(frame: seq<nat>, codeword: array<nat>, pad: nat, m: nat, j: nat, n: nat) returns (out: seq<nat>)
    requires j < m && n * m <= |frame| && pad + n <= codeword.Length
    ensures |out| == |frame| && Path(out, m, j, n) == codeword[pad..pad + n]
    ensures forall i :: 0 <= i < m && i != j ==> Path(out, m, i, n) == Path(frame, m, i, n)
  {
    hide *;
    out := frame;
    for k := 0 to n
      invariant |out| == |frame|
      invariant forall i :: 0 <= i < k ==> Path(out, m, j, n)[i] == codeword[pad + i]
      invariant forall i :: 0 <= i < m && i != j ==> Path(out, m, i, n) == Path(frame, m, i, n)
    {
      IndexBelow(m, n, j, k);
      ghost var before := out;
      out := out[j + k * m := codeword[pad + k]];
      forall i | 0 <= i < m ensures Path(out, m, i, n) == if i == j then Path(before, m, j, n)[k := codeword[pad + k]]
                                                         else Path(before, m, i, n) {
        WritePath(before, m, j, n, k, codeword[pad + k], i);
      }
    }
    assert codeword[pad..pad + n] == Path(out, m, j, n);
  }

  lemma WritePath(s: seq<nat>, m: nat, j: nat, n: nat, k: nat, v: nat, i: nat)
    requires j < m && i < m && k < n && n * m <= |s| && j + k * m < |s|
    ensures Path(s[j + k * m := v], m, i, n) == if i == j then Path(s, m, j, n)[k := v] else Path(s, m, i, n)
  {
    hide Path;
    var t := s[j + k * m := v];
    forall r | 0 <= r < n ensures Path(t, m, i, n)[r] == if i == j && r == k then v else Path(s, m, i, n)[r] {
      PathAt(t, m, i, n, r);
      PathAt(s, m, i, n, r);
      if j + k * m == i + r * m { IndexUnique(m, j, k, i, r); }
    }
  }

  // ---------------------------------------------------------------- what the two blocks promise

  /** Every path of the frame, filled up with leading zeros, is a codeword. */
  ghost predicate AllCodewords(rs: Rs, f: Field, m: nat, frame: seq<nat>, n: nat) {
    forall j :: 0 <= j < m ==> IsCodeword(rs, f, Padded(rs.nn, Path(frame, m, j, n)))
  }

  /** The frame starts with the message and all its paths are codewords. */
  ghost predicate Encoded(rs: Rs, f: Field, m: nat, msg: seq<nat>, frame: seq<nat>) {
    && m >= 1 && |frame| == |msg| + m * rs.nroots && frame[..|msg|] == msg
    && AllCodewords(rs, f, m, frame, |msg| / m + rs.nroots)
  }

  /** The frame sent consists of codewords, and on every path at most nroots / 2 symbols arrived wrong. */
  ghost predicate Repairable(rs: Rs, f: Field, m: nat, n: nat, received: seq<nat>, sent: seq<nat>) {
    && |sent| == |received| == n * m && AllCodewords(rs, f, m, sent, n)
    && forall j :: 0 <= j < m ==> 2 * Differences(Path(received, m, j, n), Path(sent, m, j, n)) <= rs.nroots
  }

  /** The wrong symbols on the first j paths. */
  function WrongOn(m: nat, n: nat, received: seq<nat>, sent: seq<nat>, j: nat): nat {
    if j == 0 then 0
    else WrongOn(m, n, received, sent, j - 1) + Differences(Path(received, m, j - 1, n), Path(sent, m, j - 1, n))
  }

  lemma PathPrefix(s: seq<nat>, m: nat, j: nat, n: nat, k: nat)
    requires k <= n
    ensures Path(s, m, j, n)[..k] == Path(s, m, j, k)
  {}

  lemma PathIn(f: Field, s: seq<nat>, m: nat, j: nat, n: nat)
    requires AllIn(f, s)
    ensures AllIn(f, Path(s, m, j, n))
  {
    forall k | 0 <= k < n ensures In(f, At(s, j + k * m)) {}
  }

  lemma BlockIn(f: Field, w: seq<nat>, pad: nat, p: seq<nat>)
    requires pad + |p| <= |w| && AllIn(f, p)
    requires (forall i :: 0 <= i < pad ==> w[i] == 0) && w[pad..pad + |p|] == p
    ensures AllIn(f, w[..pad + |p|])
  {
    hide NN;
    forall i | 0 <= i < pad + |p| ensures In(f, w[i]) {
      if i < pad { ZeroIn(f); } else { assert w[i] == p[i - pad]; }
    }
  }

  lemma PaddedBlock(w: seq<nat>, pad: nat)
    requires pad <= |w| && forall i :: 0 <= i < pad ==> w[i] == 0
    ensures Padded(|w|, w[pad..]) == w
  {}

  /** A division that comes out even. */
  lemma Rows(size: nat, m: nat)
    requires m >= 1 && size % m == 0
    ensures size == size / m * m
  {}

  lemma RowsPlus(size: nat, m: nat, k: nat)
    requires m >= 1 && size % m == 0
    ensures size + m * k == (size / m + k) * m
    ensures (size + m * k) % m == 0 && (size + m * k) / m == size / m + k
  {
    assert (size / m + k) * m == size / m * m + k * m;
    DivModUnique(size + m * k, m, size / m + k, 0);
  }

  /** encode_rs_impl: the message handler and the buffers it keeps between messages. */
  class EncoderBlock {
    const rs: Rs
    const interleave: nat
    ghost const field: Field
    const codeword: array<nat>
    var outputFrame: seq<nat>

    ghost predicate Ready() {
      && RsInit.Valid(rs, field) && rs.pad == 0 && rs.nroots >= 1 && interleave >= 1 && codeword.Length == rs.nn
    }

    constructor (rs: Rs, interleave: nat, ghost field: Field)
      requires RsInit.Valid(rs, field) && rs.pad == 0 && rs.nroots >= 1 && interleave >= 1
      ensures Ready() && this.rs == rs && this.interleave == interleave && this.field == field && fresh(codeword)
    {
      this.rs, this.interleave, this.field := rs, interleave, field;
      codeword := new nat[rs.nn];
      outputFrame := [];
    }

    /** One path: its data symbols followed by their parity. */
    method EncodePath(msg: seq<nat>, j: nat, kk: nat)
      requires Ready() && AllIn(field, msg) && j < interleave && kk * interleave <= |msg| && kk + rs.nroots <= rs.nn
      modifies codeword
      ensures IsCodeword(rs, field, Padded(rs.nn, codeword[rs.nn - rs.nroots - kk..]))
      ensures codeword[rs.nn - rs.nroots - kk..rs.nn - rs.nroots] == Path(msg, interleave, j, kk)
    {
      hide *;
      ReadyParts(this);
      var k := rs.nn - rs.nroots;
      var pad := k - kk;
      LoadPath(codeword, msg, interleave, j, pad, kk);
      PathIn(field, msg, interleave, j, kk);
      BlockIn(field, codeword[..], pad, Path(msg, interleave, j, kk));
      ghost var data := codeword[..k];
      assert codeword[..][..k] == data == codeword[0..k];
      EncodeRs(rs, codeword, 0, k, field);
      assert codeword[0..k] == data;
      assert codeword[0..k] + codeword[k..k + rs.nroots] == codeword[..];
      assert forall i :: 0 <= i < pad ==> codeword[..][i] == data[i];
      PaddedBlock(codeword[..], pad);
      assert codeword[..][pad..] == codeword[pad..];
      assert codeword[pad..k] == data[pad..];
    }

    /** A message is refused if the depth does not divide its size or its paths do not fit the code; otherwise the
        frame published starts with the message, and every path of it is a codeword. */
    method HandleMessage(msg: seq<nat>) returns (r: Option<seq<nat>>)
      requires Ready() && AllIn(field, msg)
      modifies this`outputFrame, codeword
      ensures r.Some? <==> |msg| % interleave == 0 && |msg| / interleave + rs.nroots <= rs.nn
      ensures r.Some? ==> Encoded(rs, field, interleave, msg, r.value)
    {
      hide *;
      ReadyParts(this);
      var m := interleave;
      if |msg| % m != 0 {
        return None;
      }
      var kk := |msg| / m;
      if kk + rs.nroots > codeword.Length {
        return None;
      }
      outputFrame := Resize(outputFrame, |msg| + m * rs.nroots);
      var pad := codeword.Length - kk - rs.nroots;
      var n := kk + rs.nroots;
      Rows(|msg|, m);
      RowsPlus(|msg|, m, rs.nroots);
      for j := 0 to m
        invariant |outputFrame| == n * m
        invariant forall i :: 0 <= i < j ==> IsCodeword(rs, field, Padded(rs.nn, Path(outputFrame, m, i, n)))
        invariant forall i :: 0 <= i < j ==> Path(outputFrame, m, i, n)[..kk] == Path(msg, m, i, kk)
      {
        EncodePath(msg, j, kk);
        outputFrame := StorePath(outputFrame, codeword, pad, m, j, n);
        assert codeword[pad..pad + n] == codeword[pad..];
        assert codeword[pad..pad + n][..kk] == codeword[pad..pad + kk];
      }
      forall j | 0 <= j < m ensures Path(msg, m, j, kk) == Path(outputFrame, m, j, kk) {
        PathPrefix(outputFrame, m, j, n, kk);
      }
      PathsDetermine(msg, outputFrame, m, kk);
      EncodedFrom(rs, field, m, msg, outputFrame, n);
      r := Some(outputFrame);
    }
  }

  lemma ReadyParts(e: EncoderBlock)
    requires e.Ready()
    ensures RsInit.Valid(e.rs, e.field) && e.rs.pad == 0 && e.rs.nroots >= 1 && e.interleave >= 1
    ensures e.codeword.Length == e.rs.nn && DataLength(e.rs) == e.rs.nn - e.rs.nroots > 0
  {
    PositiveLength(e.rs, e.field);
  }

  lemma EncodedFrom(rs: Rs, f: Field, m: nat, msg: seq<nat>, frame: seq<nat>, n: nat)
    requires m >= 1 && |frame| == |msg| + m * rs.nroots && frame[..|msg|] == msg && n == |msg| / m + rs.nroots
    requires forall i :: 0 <= i < m ==> IsCodeword(rs, f, Padded(rs.nn, Path(frame, m, i, n)))
    ensures Encoded(rs, f, m, msg, frame)
  {
    hide Path, IsCodeword, Padded;
  }

  // ---------------------------------------------------------------- decoding

  lemma {:induction false} DifferencesBehind(z: seq<nat>, w: seq<nat>, c: seq<nat>)
    requires |w| == |c|
    ensures Differences(z + w, z + c) == Differences(w, c)
  {
    if z == [] {
      assert z + w == w && z + c == c;
    } else {
      DifferencesBehind(z[1..], w, c);
      assert (z + w)[1..] == z[1..] + w && (z + c)[1..] == z[1..] + c;
    }
  }

  /** A repairable frame has correctable paths. */
  lemma PathIsCorrectable(rs: Rs, f: Field, m: nat, n: nat, received: seq<nat>, sent: seq<nat>, j: nat)
    requires Repairable(rs, f, m, n, received, sent) && j < m && n <= rs.nn
    ensures var w, c := Padded(rs.nn, Path(received, m, j, n)), Padded(rs.nn, Path(sent, m, j, n));
            && Correctable(rs, f, w, c)
            && Differences(w, c) == Differences(Path(received, m, j, n), Path(sent, m, j, n))
  {
    hide IsCodeword, Path, Differences;
    DifferencesBehind(seq(rs.nn - n, _ => 0), Path(received, m, j, n), Path(sent, m, j, n));
  }

  /** What the decoder has done with the first j paths of n symbols, kk of them data. */
  ghost predicate Decoded(m: nat, n: nat, kk: nat, received: seq<nat>, sent: seq<nat>, frame: seq<nat>, errors: int, j: nat) {
    && errors == WrongOn(m, n, received, sent, j)
    && forall i :: 0 <= i < j ==> Path(frame, m, i, kk) == Path(sent, m, i, kk)
  }

  lemma DecodedStep(m: nat, n: nat, kk: nat, received: seq<nat>, sent: seq<nat>, frame: seq<nat>, frame': seq<nat>,
                    errors: int, more: int, j: nat)
    requires Decoded(m, n, kk, received, sent, frame, errors, j) && j < m
    requires more == Differences(Path(received, m, j, n), Path(sent, m, j, n))
    requires Path(frame', m, j, kk) == Path(sent, m, j, kk)
    requires forall i :: 0 <= i < m && i != j ==> Path(frame', m, i, kk) == Path(frame, m, i, kk)
    ensures Decoded(m, n, kk, received, sent, frame', errors + more, j + 1)
  {
    hide Path, Differences;
  }

  lemma DecodedStart(m: nat, n: nat, kk: nat, received: seq<nat>, sent: seq<nat>, frame: seq<nat>)
    ensures Decoded(m, n, kk, received, sent, frame, 0, 0)
  {}

  lemma DecodedAll(rs: Rs, f: Field, m: nat, n: nat, kk: nat, received: seq<nat>, sent: seq<nat>, frame: seq<nat>, errors: int)
    requires Decoded(m, n, kk, received, sent, frame, errors, m) && m >= 1 && kk + rs.nroots == n
    requires |frame| == kk * m && Repairable(rs, f, m, n, received, sent)
    ensures Restored(m, n, kk, received, sent, Some(Published(frame, errors)))
  {
    hide Path, Differences, WrongOn, AllCodewords;
    assert n * m == kk * m + rs.nroots * m;
    PathsDetermine(frame, sent, m, kk);
  }

  /** The message the decoder block publishes: the frame and the metadata entry rs_errors. */
  datatype Published = Published(frame: seq<nat>, rsErrors: int)

  /** The data symbols of the frame sent are published, with the number of wrong symbols. */
  ghost predicate Restored(m: nat, n: nat, kk: nat, received: seq<nat>, sent: seq<nat>, r: Option<Published>) {
    && r.Some? && |r.value.frame| == kk * m <= |sent| && r.value.frame == sent[..kk * m]
    && r.value.rsErrors == WrongOn(m, n, received, sent, m)
  }

  /** The sizes the decoder block accepts: n symbols on each of m paths, kk >= 1 of them data. */
  ghost predicate Fits(rs: Rs, m: nat, n: nat, kk: nat, size: nat) {
    size == n * m && kk >= 1 && kk + rs.nroots == n <= rs.nn
  }

  /** What the decoder has made of one path: the block, the number returned and the positions found. */
  datatype PathResult = PathResult(block: seq<nat>, count: int, pos: seq<nat>)

  ghost predicate IsResult(rs: Rs, f: Field, m: nat, n: nat, received: seq<nat>, j: nat, x: PathResult) {
    |x.block| == rs.nn && Outcome(rs, f, Padded(rs.nn, Path(received, m, j, n)), x.block, x.count, x.pos)
  }

  function Total(results: seq<PathResult>): int {
    if results == [] then 0 else Total(Front(results)) + Last(results).count
  }

  /** The first paths of the frame hold the data symbols of the blocks decoded, none of which was given up, and errors is
      the sum of the numbers returned. */
  ghost predicate Explains(rs: Rs, f: Field, m: nat, n: nat, kk: nat, received: seq<nat>, frame: seq<nat>, errors: int,
                           results: seq<PathResult>) {
    && kk <= n <= rs.nn && errors == Total(results)
    && forall j :: 0 <= j < |results| ==>
         && IsResult(rs, f, m, n, received, j, results[j]) && results[j].count >= 0
         && Path(frame, m, j, kk) == results[j].block[rs.nn - n..rs.nn - n + kk]
  }

  lemma ExplainsStep(rs: Rs, f: Field, m: nat, n: nat, kk: nat, received: seq<nat>, frame: seq<nat>, frame': seq<nat>,
                     errors: int, results: seq<PathResult>, x: PathResult)
    requires Explains(rs, f, m, n, kk, received, frame, errors, results) && |results| < m
    requires IsResult(rs, f, m, n, received, |results|, x) && x.count >= 0
    requires Path(frame', m, |results|, kk) == x.block[rs.nn - n..rs.nn - n + kk]
    requires forall i :: 0 <= i < m && i != |results| ==> Path(frame', m, i, kk) == Path(frame, m, i, kk)
    ensures Explains(rs, f, m, n, kk, received, frame', errors + x.count, results + [x])
  {
    hide Path, Outcome;
    FrontOfAppend(results, x);
  }

  lemma ExplainsStart(rs: Rs, f: Field, m: nat, n: nat, kk: nat, received: seq<nat>, frame: seq<nat>)
    requires kk <= n <= rs.nn
    ensures Explains(rs, f, m, n, kk, received, frame, 0, [])
  {}

  /** Some path was given up. */
  ghost predicate GaveUp(rs: Rs, f: Field, m: nat, n: nat, received: seq<nat>) {
    exists j: nat, x: PathResult :: j < m && IsResult(rs, f, m, n, received, j, x) && x.count < 0
  }

  /** A whole frame published from a message of acceptable size. */
  ghost predicate Explained(rs: Rs, f: Field, m: nat, n: nat, kk: nat, received: seq<nat>, p: Published,
                            results: seq<PathResult>) {
    && Fits(rs, m, n, kk, |received|) && |p.frame| == kk * m && |results| == m
    && Explains(rs, f, m, n, kk, received, p.frame, p.rsErrors, results)
  }

  lemma ExplainedFrom(rs: Rs, f: Field, m: nat, n: nat, kk: nat, received: seq<nat>, p: Published, results: seq<PathResult>)
    requires Fits(rs, m, n, kk, |received|) && |p.frame| == kk * m && |results| == m
    requires Explains(rs, f, m, n, kk, received, p.frame, p.rsErrors, results)
    ensures Explained(rs, f, m, n, kk, received, p, results)
  {
    hide Explains;
  }

  /** decode_rs_impl: the message handler and the buffers it keeps between messages. */
  class DecoderBlock {
    const rs: Rs
    const interleave: nat
    ghost const field: Field
    const codeword: array<nat>
    var outputFrame: seq<nat>

    ghost predicate Ready() {
      RsInit.Valid(rs, field) && rs.pad == 0 && interleave >= 1 && codeword.Length == rs.nn
    }

    constructor (rs: Rs, interleave: nat, ghost field: Field)
      requires RsInit.Valid(rs, field) && rs.pad == 0 && interleave >= 1
      ensures Ready() && this.rs == rs && this.interleave == interleave && this.field == field && fresh(codeword)
    {
      this.rs, this.interleave, this.field := rs, interleave, field;
      codeword := new nat[rs.nn];
      outputFrame := [];
    }

    /** One path through the decoder. */
    method DecodePath(msg: seq<nat>, j: nat, n: nat) returns (count: int, ghost x: PathResult)
      requires Ready() && AllIn(field, msg) && j < interleave && n * interleave <= |msg| && n <= rs.nn
      modifies codeword
      ensures IsResult(rs, field, interleave, n, msg, j, x) && x.block == codeword[..] && x.count == count
      ensures forall sent :: Repairable(rs, field, interleave, n, msg, sent) ==>
                && count == Differences(Path(msg, interleave, j, n), Path(sent, interleave, j, n))
                && codeword[rs.nn - n..] == Path(sent, interleave, j, n)
    {
      hide *;
      DecoderParts(this);
      LoadPath(codeword, msg, interleave, j, rs.nn - n, n);
      PathIn(field, msg, interleave, j, n);
      BlockIn(field, codeword[..], rs.nn - n, Path(msg, interleave, j, n));
      assert codeword[..][..rs.nn] == codeword[..] && codeword[rs.nn - n..] == codeword[rs.nn - n..rs.nn];
      PaddedBlock(codeword[..], rs.nn - n);
      assert codeword[..][rs.nn - n..] == codeword[rs.nn - n..];
      assert codeword[..] == Padded(rs.nn, Path(msg, interleave, j, n));
      var pos;
      count, pos := DecodeRs(rs, codeword, field);
      x := PathResult(codeword[..], count, pos);
      ResultOf(rs, field, interleave, n, msg, j, x);
      forall sent | Repairable(rs, field, interleave, n, msg, sent)
        ensures count == Differences(Path(msg, interleave, j, n), Path(sent, interleave, j, n))
        ensures codeword[rs.nn - n..] == Path(sent, interleave, j, n)
      {
        PathIsCorrectable(rs, field, interleave, n, msg, sent, j);
        PaddedTail(rs.nn, Path(sent, interleave, j, n));
        assert codeword[..][rs.nn - n..] == codeword[rs.nn - n..];
      }
    }

    /** All paths, one after the other; a path that cannot be decoded ends the attempt. */
    method DecodePaths(msg: seq<nat>, n: nat, kk: nat) returns (ok: bool, errors: int, ghost results: seq<PathResult>)
      requires Ready() && AllIn(field, msg) && |msg| == n * interleave && n <= rs.nn && kk + rs.nroots == n
      requires |outputFrame| == kk * interleave
      modifies this`outputFrame, codeword
      ensures forall sent :: Repairable(rs, field, interleave, n, msg, sent) ==>
                ok && Restored(interleave, n, kk, msg, sent, Some(Published(outputFrame, errors)))
      ensures |outputFrame| == kk * interleave
      ensures ok ==> |results| == interleave
                     && Explains(rs, field, interleave, n, kk, msg, outputFrame, errors, results)
      ensures !ok ==> GaveUp(rs, field, interleave, n, msg)
    {
      hide *;
      DecoderParts(this);
      errors, results := 0, [];
      var m := interleave;
      var pad := codeword.Length - n;
      forall sent | Repairable(rs, field, m, n, msg, sent) ensures Decoded(m, n, kk, msg, sent, outputFrame, 0, 0) {
        DecodedStart(m, n, kk, msg, sent, outputFrame);
      }
      ExplainsStart(rs, field, m, n, kk, msg, outputFrame);
      for j := 0 to m
        invariant |outputFrame| == kk * m
        invariant forall sent :: Repairable(rs, field, m, n, msg, sent) ==> Decoded(m, n, kk, msg, sent, outputFrame, errors, j)
        invariant |results| == j && Explains(rs, field, m, n, kk, msg, outputFrame, errors, results)
      {
        var res;
        ghost var x;
        res, x := DecodePath(msg, j, n);
        if res < 0 {
          ok := false;
          GivesUp(rs, field, m, n, msg, j, x);
          return;
        }
        ghost var before, wrong := outputFrame, errors;
        errors := errors + res;
        outputFrame := StorePath(outputFrame, codeword, pad, m, j, kk);
        ghost var tail := codeword[pad..];
        assert codeword[pad..pad + kk] == tail[..kk];
        assert codeword[pad..pad + kk] == x.block[rs.nn - n..rs.nn - n + kk];
        ExplainsStep(rs, field, m, n, kk, msg, before, outputFrame, wrong, results, x);
        results := results + [x];
        forall sent | Repairable(rs, field, m, n, msg, sent)
          ensures Decoded(m, n, kk, msg, sent, outputFrame, errors, j + 1)
        {
          PathPrefix(sent, m, j, n, kk);
          DecodedStep(m, n, kk, msg, sent, before, outputFrame, wrong, res, j);
        }
      }
      ok := true;
      forall sent | Repairable(rs, field, m, n, msg, sent)
        ensures Restored(m, n, kk, msg, sent, Some(Published(outputFrame, errors)))
      {
        DecodedAll(rs, field, m, n, kk, msg, sent, outputFrame, errors);
      }
    }

    /** A message of the wrong size is refused, and so is one with a path that the decoder gives up. Otherwise the data
        symbols of the blocks decoded are published, with the sum of the numbers returned. A message that is a frame of
        codewords with at most nroots / 2 wrong symbols on every path yields the data symbols of that frame. */
    method HandleMessage(msg: seq<nat>) returns (r: Option<Published>)
      requires Ready() && AllIn(field, msg)
      modifies this`outputFrame, codeword
      ensures r.Some? ==> exists n, kk, results :: Explained(rs, field, interleave, n, kk, msg, r.value, results)
      ensures r.None? ==> forall n, kk :: Fits(rs, interleave, n, kk, |msg|) ==> GaveUp(rs, field, interleave, n, msg)
      ensures forall n, kk, sent :: Fits(rs, interleave, n, kk, |msg|) && Repairable(rs, field, interleave, n, msg, sent) ==>
                Restored(interleave, n, kk, msg, sent, r)
    {
      hide *;
      DecoderParts(this);
      var m := interleave;
      SizeFits(rs, m, |msg|);
      if |msg| % m != 0 {
        return None;
      }
      var n := |msg| / m;
      if n <= rs.nroots || n > codeword.Length {
        return None;
      }
      Rows(|msg|, m);
      var kk := n - rs.nroots;
      assert |msg| - m * rs.nroots == kk * m;
      outputFrame := Resize(outputFrame, |msg| - m * rs.nroots);
      var ok, errors;
      ghost var results;
      ok, errors, results := DecodePaths(msg, n, kk);
      r := if ok then Some(Published(outputFrame, errors)) else None;
      if ok { ExplainedFrom(rs, field, m, n, kk, msg, r.value, results); }
    }
  }

  lemma ResultOf(rs: Rs, f: Field, m: nat, n: nat, received: seq<nat>, j: nat, x: PathResult)
    requires |x.block| == rs.nn && Outcome(rs, f, Padded(rs.nn, Path(received, m, j, n)), x.block, x.count, x.pos)
    ensures IsResult(rs, f, m, n, received, j, x)
  {}

  lemma GivesUp(rs: Rs, f: Field, m: nat, n: nat, received: seq<nat>, j: nat, x: PathResult)
    requires j < m && IsResult(rs, f, m, n, received, j, x) && x.count < 0
    ensures GaveUp(rs, f, m, n, received)
  {
    hide IsResult;
  }

  /** The size tests of the message handler. */
  lemma SizeFits(rs: Rs, m: nat, size: nat)
    requires m >= 1
    ensures forall n: nat, kk: nat :: Fits(rs, m, n, kk, size) ==>
              size % m == 0 && n == size / m && rs.nroots < n <= rs.nn && kk == n - rs.nroots
    ensures size % m == 0 && rs.nroots < size / m <= rs.nn ==> Fits(rs, m, size / m, size / m - rs.nroots, size)
  {
    forall n: nat, kk: nat | Fits(rs, m, n, kk, size)
      ensures size % m == 0 && n == size / m
    {
      DivModUnique(size, m, n, 0);
    }
    if size % m == 0 { Rows(size, m); }
  }

  lemma DecoderParts(d: DecoderBlock)
    requires d.Ready()
    ensures RsInit.Valid(d.rs, d.field) && d.rs.pad == 0 && d.interleave >= 1 && d.codeword.Length == d.rs.nn
  {}

  lemma PaddedTail(nn: nat, p: seq<nat>)
    requires |p| <= nn
    ensures |Padded(nn, p)| == nn && Padded(nn, p)[nn - |p|..] == p
  {}

  // ---------------------------------------------------------------- when a published frame can be trusted

  /** A path's result that the number returned vouches for: few errors, and a codeword with the leading zeros in place. */
  ghost predicate Trusted(rs: Rs, f: Field, n: nat, x: PathResult) {
    && 2 * x.count <= rs.nroots && IsCodeword(rs, f, x.block)
    && n <= rs.nn == |x.block| && forall i :: 0 <= i < rs.nn - n ==> x.block[i] == 0
  }

  /** The blocks of the paths woven into a frame. */
  function Woven(nn: nat, m: nat, n: nat, results: seq<PathResult>): (s: seq<nat>)
    requires m >= 1 && |results| == m && n <= nn && forall j :: 0 <= j < m ==> |results[j].block| == nn
    ensures |s| == n * m
  {
    seq(n * m, i requires 0 <= i < n * m =>
      Inside(i, m, n);
      results[i % m].block[nn - n + i / m])
  }

  lemma Inside(i: nat, m: nat, n: nat)
    requires m >= 1 && i < n * m
    ensures i % m < m && i / m < n
  {
    var j, k := Position(i, m, n);
    DivModUnique(i, m, k, j);
  }

  lemma PathOfWoven(nn: nat, m: nat, n: nat, results: seq<PathResult>, j: nat)
    requires m >= 1 && |results| == m && n <= nn && j < m && forall j :: 0 <= j < m ==> |results[j].block| == nn
    ensures Path(Woven(nn, m, n, results), m, j, n) == results[j].block[nn - n..]
  {
    hide Path;
    var s := Woven(nn, m, n, results);
    forall k | 0 <= k < n ensures Path(s, m, j, n)[k] == results[j].block[nn - n..][k] {
      PathAt(s, m, j, n, k);
      DivModUnique(j + k * m, m, k, j);
    }
  }

  lemma ZerosInFront(nn: nat, n: nat, w: seq<nat>)
    requires n <= nn == |w| && forall i :: 0 <= i < nn - n ==> w[i] == 0
    ensures Padded(nn, w[nn - n..]) == w
  {}

  lemma PaddedIn(f: Field, nn: nat, p: seq<nat>)
    requires AllIn(f, p) && |p| <= nn
    ensures AllIn(f, Padded(nn, p))
  {
    ZeroIn(f);
  }

  /** A trusted block is near the path received. */
  lemma TrustedIsNear(rs: Rs, f: Field, m: nat, n: nat, received: seq<nat>, j: nat, x: PathResult)
    requires RsInit.Valid(rs, f) && rs.pad == 0 && AllIn(f, received) && n <= rs.nn
    requires IsResult(rs, f, m, n, received, j, x) && x.count >= 0 && Trusted(rs, f, n, x)
    ensures n <= |x.block| == rs.nn && 2 * Differences(Path(received, m, j, n), x.block[rs.nn - n..]) <= rs.nroots
  {
    hide Path, Outcome, Differences, IsCodeword, RsInit.Valid, LinearComplexity;
    var p, q, z := Path(received, m, j, n), x.block[rs.nn - n..], seq(rs.nn - n, _ => 0);
    PathIn(f, received, m, j, n);
    PaddedIn(f, rs.nn, p);
    CodewordIffComplexity(rs, f, Padded(rs.nn, p), x.block, x.count, x.pos);
    assert x.block == z + q;
    DifferencesBehind(z, p, q);
  }

  /** A trustworthy frame of codewords within reach makes every path's result trusted. */
  lemma ReachableIsTrusted(rs: Rs, f: Field, m: nat, n: nat, received: seq<nat>, sent: seq<nat>, j: nat, x: PathResult)
    requires RsInit.Valid(rs, f) && rs.pad == 0 && AllIn(f, received) && n <= rs.nn && j < m
    requires IsResult(rs, f, m, n, received, j, x) && Repairable(rs, f, m, n, received, sent)
    ensures Trusted(rs, f, n, x)
  {
    hide Path, Outcome, Differences, IsCodeword, RsInit.Valid, AllCodewords;
    var p, c := Path(received, m, j, n), Padded(rs.nn, Path(sent, m, j, n));
    PathIn(f, received, m, j, n);
    PaddedIn(f, rs.nn, p);
    PathIsCorrectable(rs, f, m, n, received, sent, j);
    OutcomeCorrects(rs, f, Padded(rs.nn, p), x.block, x.count, x.pos, c);
    CorrectableParts(rs, f, Padded(rs.nn, p), c);
  }

  /** A frame of codewords is within reach of the frame received if and only if every path's result is trusted. */
  lemma TrustedIffReachable(rs: Rs, f: Field, m: nat, n: nat, kk: nat, received: seq<nat>, p: Published,
                            results: seq<PathResult>)
    requires RsInit.Valid(rs, f) && rs.pad == 0 && m >= 1 && AllIn(f, received)
    requires Explained(rs, f, m, n, kk, received, p, results)
    ensures (exists sent :: Repairable(rs, f, m, n, received, sent)) <==>
              forall j :: 0 <= j < |results| ==> Trusted(rs, f, n, results[j])
  {
    hide Path, Trusted, Outcome, Repairable, RsInit.Valid, Padded, IsCodeword, AllIn, Differences;
    forall sent, j | Repairable(rs, f, m, n, received, sent) && 0 <= j < |results| ensures Trusted(rs, f, n, results[j]) {
      ReachableIsTrusted(rs, f, m, n, received, sent, j, results[j]);
    }
    if forall j :: 0 <= j < |results| ==> Trusted(rs, f, n, results[j]) {
      var sent := Woven(rs.nn, m, n, results);
      forall j | 0 <= j < m
        ensures IsCodeword(rs, f, Padded(rs.nn, Path(sent, m, j, n)))
        ensures 2 * Differences(Path(received, m, j, n), Path(sent, m, j, n)) <= rs.nroots
      {
        PathOfWoven(rs.nn, m, n, results, j);
        TrustedIsNear(rs, f, m, n, received, j, results[j]);
        TrustedParts(rs, f, n, results[j]);
        ZerosInFront(rs.nn, n, results[j].block);
      }
      RepairableFrom(rs, f, m, n, received, sent);
    }
  }

  lemma TrustedParts(rs: Rs, f: Field, n: nat, x: PathResult)
    requires Trusted(rs, f, n, x)
    ensures IsCodeword(rs, f, x.block) && n <= rs.nn == |x.block| && forall i :: 0 <= i < rs.nn - n ==> x.block[i] == 0
  {
    hide IsCodeword;
  }

  /** Published with rs_errors 0 are the data symbols received. That they are those of codewords is not said: where the
      syndromes of a path end early the decoder reports no errors for a word that is not a codeword. */
  lemma NoErrorsReported(rs: Rs, f: Field, m: nat, n: nat, kk: nat, received: seq<nat>, p: Published, results: seq<PathResult>)
    requires RsInit.Valid(rs, f) && rs.pad == 0 && m >= 1 && AllIn(f, received)
    requires Explained(rs, f, m, n, kk, received, p, results) && p.rsErrors == 0
    ensures kk * m <= |received| && p.frame == received[..kk * m]
    ensures forall j, el :: 0 <= j < m && EndsEarly(Syndromes(rs, f, Padded(rs.nn, Path(received, m, j, n))), el) ==>
              !IsCodeword(rs, f, results[j].block)
  {
    hide Path, Outcome, RsInit.Valid, Padded, IsCodeword, AllIn, Differences, EndsEarly;
    CountsAreZero(results);
    assert n * m == kk * m + rs.nroots * m;
    forall j | 0 <= j < m ensures Path(p.frame, m, j, kk) == Path(received, m, j, kk) {
      UnchangedPath(rs, f, m, n, received, j, results[j]);
      PathPrefix(received, m, j, n, kk);
      assert results[j].block[rs.nn - n..][..kk] == results[j].block[rs.nn - n..rs.nn - n + kk];
    }
    PathsDetermine(p.frame, received, m, kk);
    forall j, el | 0 <= j < m && EndsEarly(Syndromes(rs, f, Padded(rs.nn, Path(received, m, j, n))), el)
      ensures !IsCodeword(rs, f, results[j].block)
    {
      PathIn(f, received, m, j, n);
      PaddedIn(f, rs.nn, Path(received, m, j, n));
      PaddedTail(rs.nn, Path(received, m, j, n));
      var x := results[j];
      SilentFailure(rs, f, Padded(rs.nn, Path(received, m, j, n)), x.block, x.count, x.pos, el);
    }
  }

  lemma {:induction false} CountsAreZero(results: seq<PathResult>)
    requires forall j :: 0 <= j < |results| ==> results[j].count >= 0
    ensures Total(results) >= 0
    ensures Total(results) == 0 ==> forall j :: 0 <= j < |results| ==> results[j].count == 0
  {
    if results != [] { CountsAreZero(Front(results)); }
  }

  lemma UnchangedPath(rs: Rs, f: Field, m: nat, n: nat, received: seq<nat>, j: nat, x: PathResult)
    requires RsInit.Valid(rs, f) && rs.pad == 0 && AllIn(f, received) && n <= rs.nn
    requires IsResult(rs, f, m, n, received, j, x) && x.count == 0
    ensures n <= |x.block| == rs.nn && x.block[rs.nn - n..] == Path(received, m, j, n)
  {
    hide Path, Outcome, Differences, IsCodeword, RsInit.Valid, LinearComplexity, Padded;
    var p := Path(received, m, j, n);
    PathIn(f, received, m, j, n);
    PaddedIn(f, rs.nn, p);
    PaddedTail(rs.nn, p);
    CodewordIffComplexity(rs, f, Padded(rs.nn, p), x.block, x.count, x.pos);
    NoDifferences(Padded(rs.nn, p), x.block);
  }

  // ---------------------------------------------------------------- from end to end

  lemma {:induction false} DifferencesConcat(a: seq<nat>, b: seq<nat>, c: seq<nat>, d: seq<nat>)
    requires |a| == |b| && |c| == |d|
    ensures Differences(a + c, b + d) == Differences(a, b) + Differences(c, d)
  {
    if a == [] {
      assert a + c == c && b + d == d;
    } else {
      DifferencesConcat(a[1..], b[1..], c, d);
      assert (a + c)[1..] == a[1..] + c && (b + d)[1..] == b[1..] + d;
    }
  }

  lemma PathTail(s: seq<nat>, m: nat, j: nat, n: nat)
    requires j < m && n >= 1 && n * m <= |s| && m <= |s|
    ensures Path(s, m, j, n) == [s[j]] + Path(s[m..], m, j, n - 1)
  {
    hide Path;
    var p := [s[j]] + Path(s[m..], m, j, n - 1);
    assert (n - 1) * m == n * m - m;
    forall k | 0 <= k < n ensures Path(s, m, j, n)[k] == p[k] {
      PathAt(s, m, j, n, k);
      if k > 0 {
        PathAt(s[m..], m, j, n - 1, k - 1);
        assert (k - 1) * m == k * m - m;
      }
    }
  }

  /** Splitting off the first row. */
  lemma {:induction false} WrongOnRow(m: nat, n: nat, s: seq<nat>, t: seq<nat>, j: nat)
    requires j <= m && n >= 1 && |s| == |t| == n * m && m <= |s|
    ensures WrongOn(m, n, s, t, j) == Differences(s[..j], t[..j]) + WrongOn(m, n - 1, s[m..], t[m..], j)
  {
    hide Path;
    if j > 0 {
      var i: nat := j - 1;
      WrongOnRow(m, n, s, t, i);
      PathTail(s, m, i, n);
      PathTail(t, m, i, n);
      DifferencesConcat([s[i]], [t[i]], Path(s[m..], m, i, n - 1), Path(t[m..], m, i, n - 1));
      assert s[..j] == s[..i] + [s[i]] && t[..j] == t[..i] + [t[i]];
      DifferencesConcat(s[..i], t[..i], [s[i]], [t[i]]);
    }
  }

  lemma {:induction false} NothingWrong(m: nat, s: seq<nat>, t: seq<nat>, j: nat)
    ensures WrongOn(m, 0, s, t, j) == 0
  {
    if j > 0 { NothingWrong(m, s, t, j - 1); }
  }

  /** rs_errors counts the places where the frame received differs from the frame sent. */
  lemma {:induction false} WrongOnAllPaths(m: nat, n: nat, s: seq<nat>, t: seq<nat>)
    requires m >= 1 && |s| == |t| == n * m
    ensures WrongOn(m, n, s, t, m) == Differences(s, t)
    decreases n
  {
    hide WrongOn;
    if n == 0 {
      NothingWrong(m, s, t, m);
      assert s == [] && t == [];
    } else {
      assert (n - 1) * m == n * m - m;
      MulAtLeast(n, m);
      WrongOnRow(m, n, s, t, m);
      WrongOnAllPaths(m, n - 1, s[m..], t[m..]);
      assert s == s[..m] + s[m..] && t == t[..m] + t[m..];
      DifferencesConcat(s[..m], t[..m], s[m..], t[m..]);
    }
  }

  /** Two codewords with the same data symbols are equal: the parity is determined. */
  lemma ParityIsUnique(rs: Rs, f: Field, c: seq<nat>, d: seq<nat>, k: nat)
    requires Valid(rs, f) && |c| == |d| == rs.nn == k + rs.nroots && IsCodeword(rs, f, c) && IsCodeword(rs, f, d)
    requires c[..k] == d[..k]
    ensures c == d
  {
    hide *;
    PrimInverts(rs, f);
    CodewordIn(rs, f, c);
    CodewordIn(rs, f, d);
    SumIn(f, c, d);
    forall i | 0 <= i < rs.nroots ensures Eval(f, Sum(c, d), Alpha(f, RootIndex(rs.fcr, rs.prim, i))) == 0 {
      ErrorSyndrome(rs, f, c, d, i);
      CodewordVanishes(rs, f, c, i);
    }
    assert c == c[..k] + c[k..] && d == d[..k] + d[k..];
    DifferencesConcat(c[..k], d[..k], c[k..], d[k..]);
    SameHasNoDifferences(c[..k]);
    FewDifferences(c[k..], d[k..]);
    DifferencesAreSupport(c, d);
    SumLength(c, d);
    MinimumDistance(f, rs.fcr, rs.prim, rs.iprim, Sum(c, d), rs.nroots);
    NoDifferences(c, d);
  }

  lemma CodewordIn(rs: Rs, f: Field, c: seq<nat>)
    requires IsCodeword(rs, f, c)
    ensures AllIn(f, c)
  {}

  lemma CodewordVanishes(rs: Rs, f: Field, c: seq<nat>, i: nat)
    requires IsCodeword(rs, f, c) && i < rs.nroots
    ensures |Syndromes(rs, f, c)| > i && Syndromes(rs, f, c)[i] == 0
  {
    hide Eval, Root;
  }

  lemma {:induction false} SameHasNoDifferences(w: seq<nat>)
    ensures Differences(w, w) == 0
  {
    if w != [] { SameHasNoDifferences(w[1..]); }
  }

  lemma {:induction false} FewDifferences(w: seq<nat>, c: seq<nat>)
    ensures Differences(w, c) <= |w|
  {
    if w != [] && c != [] { FewDifferences(w[1..], c[1..]); }
  }

  /** A frame of codewords that arrives with at most nroots / 2 wrong symbols on every path is repairable, and what the
      decoder block restores from it is the message, with the number of wrong symbols. */
  lemma RestoredIsMessage(rs: Rs, f: Field, m: nat, msg: seq<nat>, sent: seq<nat>, received: seq<nat>, n: nat, kk: nat)
    requires Encoded(rs, f, m, msg, sent) && |received| == |sent| && |msg| == kk * m && n == kk + rs.nroots
    requires forall j :: 0 <= j < m ==> 2 * Differences(Path(received, m, j, n), Path(sent, m, j, n)) <= rs.nroots
    ensures Repairable(rs, f, m, n, received, sent)
    ensures forall r :: Restored(m, n, kk, received, sent, r) ==>
              r == Some(Published(msg, Differences(received, sent)))
  {
    hide *;
    EncodedStarts(rs, f, m, msg, sent);
    assert n * m == kk * m + rs.nroots * m;
    DivModUnique(|msg|, m, kk, 0);
    EncodedParts(rs, f, m, msg, sent, n);
    RepairableFrom(rs, f, m, n, received, sent);
    WrongOnAllPaths(m, n, received, sent);
    forall r | Restored(m, n, kk, received, sent, r) ensures r == Some(Published(msg, Differences(received, sent))) {
      RestoredParts(m, n, kk, received, sent, r);
    }
  }

  lemma EncodedStarts(rs: Rs, f: Field, m: nat, msg: seq<nat>, frame: seq<nat>)
    requires Encoded(rs, f, m, msg, frame)
    ensures m >= 1 && |frame| == |msg| + m * rs.nroots && frame[..|msg|] == msg
  {
    hide AllCodewords;
  }

  lemma RepairableFrom(rs: Rs, f: Field, m: nat, n: nat, received: seq<nat>, sent: seq<nat>)
    requires |sent| == |received| == n * m && AllCodewords(rs, f, m, sent, n)
    requires forall j :: 0 <= j < m ==> 2 * Differences(Path(received, m, j, n), Path(sent, m, j, n)) <= rs.nroots
    ensures Repairable(rs, f, m, n, received, sent)
  {
    hide AllCodewords, Path, Differences;
  }

  lemma RestoredParts(m: nat, n: nat, kk: nat, received: seq<nat>, sent: seq<nat>, r: Option<Published>)
    requires Restored(m, n, kk, received, sent, r)
    ensures r.Some? && |r.value.frame| == kk * m <= |sent| && r.value.frame == sent[..kk * m]
    ensures r.value.rsErrors == WrongOn(m, n, received, sent, m)
  {
    hide WrongOn;
  }

  /** Noise that changes at most nroots / 2 symbols of every path. */
  ghost predicate Bearable(rs: Rs, f: Field, m: nat, n: nat, noise: seq<nat>) {
    AllIn(f, noise) && forall j :: 0 <= j < m ==> 2 * |Support(Path(noise, m, j, n))| <= rs.nroots
  }

  lemma NoiseOnPath(s: seq<nat>, noise: seq<nat>, m: nat, j: nat, n: nat)
    requires |noise| == |s|
    ensures |Sum(s, noise)| == |s|
    ensures Differences(Path(Sum(s, noise), m, j, n), Path(s, m, j, n)) == |Support(Path(noise, m, j, n))|
  {
    hide Xor, Sum, Differences, Support;
    SumLength(s, noise);
    var p, q := Path(Sum(s, noise), m, j, n), Path(s, m, j, n);
    DifferencesAreSupport(p, q);
    SumLength(p, q);
    forall k | 0 <= k < n ensures Sum(p, q)[k] == Path(noise, m, j, n)[k] {
      SumAt(p, q, k);
      SumTwice(s, noise, j + k * m);
    }
    assert Sum(p, q) == Path(noise, m, j, n);
  }

  lemma SumTwice(s: seq<nat>, noise: seq<nat>, i: nat)
    requires |noise| == |s|
    ensures Xor(At(Sum(s, noise), i), At(s, i)) == At(noise, i)
  {
    hide Xor, Sum;
    SumLength(s, noise);
    XorZero(0);
    if i < |s| {
      SumAt(s, noise, i);
      XorCommutes(s[i], noise[i]);
      XorCancel(s[i], noise[i]);
    }
  }

  lemma NoiseInAll(s: seq<nat>, noise: seq<nat>)
    requires |noise| == |s|
    ensures |Sum(s, noise)| == |s| && Differences(Sum(s, noise), s) == |Support(noise)|
  {
    hide Xor, Sum, Differences, Support;
    NoiseOnPath(s, noise, 1, 0, |s|);
    assert Path(Sum(s, noise), 1, 0, |s|) == Sum(s, noise) && Path(s, 1, 0, |s|) == s && Path(noise, 1, 0, |s|) == noise;
  }

  lemma NoiseIsBearable(rs: Rs, f: Field, m: nat, n: nat, sent: seq<nat>, noise: seq<nat>)
    requires Bearable(rs, f, m, n, noise) && |noise| == |sent|
    ensures forall j :: 0 <= j < m ==> 2 * Differences(Path(Sum(sent, noise), m, j, n), Path(sent, m, j, n)) <= rs.nroots
  {
    hide Sum, Differences, Path, Support, Xor, In;
    forall j | 0 <= j < m ensures 2 * Differences(Path(Sum(sent, noise), m, j, n), Path(sent, m, j, n)) <= rs.nroots {
      NoiseOnPath(sent, noise, m, j, n);
    }
  }

  /** Encoding, any noise that the code can correct, and decoding: the message is published again, with the number of
      symbols that the noise has changed. */
  method RoundTrip(encoder: EncoderBlock, decoder: DecoderBlock, msg: seq<nat>, noise: seq<nat>,
                   ghost n: nat, ghost kk: nat) returns (r: Option<Published>)
    requires encoder.Ready() && decoder.Ready() && encoder.codeword != decoder.codeword
    requires encoder.rs == decoder.rs && encoder.field == decoder.field && encoder.interleave == decoder.interleave
    requires AllIn(encoder.field, msg) && |msg| == kk * encoder.interleave
    requires Fits(encoder.rs, encoder.interleave, n, kk, |noise|)
    requires Bearable(encoder.rs, encoder.field, encoder.interleave, n, noise)
    modifies encoder`outputFrame, encoder.codeword, decoder`outputFrame, decoder.codeword
    ensures r == Some(Published(msg, |Support(noise)|))
  {
    hide *;
    ghost var m, rs, f := encoder.interleave, encoder.rs, encoder.field;
    ReadyParts(encoder);
    FittingSize(rs, m, n, kk, |msg|, |noise|);
    var sent := encoder.HandleMessage(msg);
    EncodedParts(rs, f, m, msg, sent.value, n);
    FrameIn(rs, f, m, sent.value, n);
    BearableIn(rs, f, m, n, noise);
    SumIn(f, sent.value, noise);
    var received := Sum(sent.value, noise);
    NoiseInAll(sent.value, noise);
    NoiseIsBearable(rs, f, m, n, sent.value, noise);
    RestoredIsMessage(rs, f, m, msg, sent.value, received, n, kk);
    r := decoder.HandleMessage(received);
  }

  lemma FittingSize(rs: Rs, m: nat, n: nat, kk: nat, size: nat, whole: nat)
    requires m >= 1 && size == kk * m && Fits(rs, m, n, kk, whole)
    ensures size % m == 0 && size / m == kk && n == kk + rs.nroots <= rs.nn && whole == size + m * rs.nroots == n * m
  {
    DivModUnique(size, m, kk, 0);
    assert n * m == kk * m + rs.nroots * m;
  }

  lemma EncodedParts(rs: Rs, f: Field, m: nat, msg: seq<nat>, frame: seq<nat>, n: nat)
    requires Encoded(rs, f, m, msg, frame) && n == |msg| / m + rs.nroots
    ensures |frame| == |msg| + m * rs.nroots && AllCodewords(rs, f, m, frame, n)
  {
    hide AllCodewords;
  }

  lemma BearableIn(rs: Rs, f: Field, m: nat, n: nat, noise: seq<nat>)
    requires Bearable(rs, f, m, n, noise)
    ensures AllIn(f, noise)
  {
    hide AllIn;
  }

  lemma PathSymbolIn(rs: Rs, f: Field, p: seq<nat>, k: nat)
    requires IsCodeword(rs, f, Padded(rs.nn, p)) && |p| <= rs.nn && k < |p|
    ensures In(f, p[k])
  {
    hide *;
    var w := Padded(rs.nn, p);
    CodewordIn(rs, f, w);
    PaddedTail(rs.nn, p);
    assert w[rs.nn - |p|..][k] == p[k];
    InAt(f, w, rs.nn - |p| + k);
  }

  /** The symbols of a frame of codewords are field elements. */
  lemma FrameIn(rs: Rs, f: Field, m: nat, frame: seq<nat>, n: nat)
    requires AllCodewords(rs, f, m, frame, n) && m >= 1 && |frame| == n * m && n <= rs.nn
    ensures AllIn(f, frame)
  {
    hide Path, IsCodeword, In, Padded;
    forall i | 0 <= i < |frame| ensures In(f, frame[i]) {
      var j, k := Position(i, m, n);
      PathAt(frame, m, j, n, k);
      PathSymbolIn(rs, f, Path(frame, m, j, n), k);
    }
  }
}

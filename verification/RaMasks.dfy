/** The feedback masks of the repeat-accumulate code: every one of them makes its register run through all states. The
    numbers given to Climb are powers of x modulo the polynomial of a mask, one for every leading part of the binary form
    of the exponent. */
module RaMasks {
  import opened Arithmetic
  import opened Bits
  import opened Divisibility
  import opened ExclusiveOr
  import opened GaloisField
  import opened Periods
  import opened PrimitivePolynomials
  import opened RaLfsr

  const MASKS: seq<seq<nat>> := [
    [0x12, 0x17, 0x1B, 0x1E], [0x21, 0x2D, 0x30, 0x39], [0x41, 0x53, 0x69, 0x7B], [0x8E, 0xAF, 0xC3, 0xE7],
    [0x108, 0x13B, 0x168, 0x1DC], [0x204, 0x2E3, 0x369, 0x3AA], [0x415, 0x4BF, 0x553, 0x62B],
    [0x83E, 0x939, 0xAF5, 0xD70], [0x1013, 0x109D, 0x117D, 0x1271]]

  /** Every mask of the table has the top bit that its row stands for. */
  lemma MasksHaveTopBit(row: nat, k: nat)
    requires row < 9 && k < 4
    ensures |MASKS[row]| == 4 && Pow2(row + 4) <= MASKS[row][k] < Pow2(row + 5)
  {
    assert Pow2(4) == 16 && Pow2(5) == 32 && Pow2(6) == 64;
    assert Pow2(7) == 128 && Pow2(8) == 256 && Pow2(9) == 512;
    assert Pow2(10) == 1024 && Pow2(11) == 2048 && Pow2(12) == 4096 && Pow2(13) == 8192;
  }

  // ---------------------------------------------------------------- the masks

  lemma Mask12()
    ensures Primitive(FieldParams(5, 0x25))
  {
    hide Alpha, Pow2, IsTop, Primitive;
    var f := FieldParams(5, 0x25);
    Powers();
    Tops();
    assert Alpha(f, 31) == 1 by {
      Climb(f, 0x10, 0x25, 31, 1, 1, 1, 1, 1, 1, 1, 1, 2, 8, 20, 31, 1);
    }
    Degree5(f);
  }

  lemma Mask17()
    ensures Primitive(FieldParams(5, 0x2F))
  {
    hide Alpha, Pow2, IsTop, Primitive;
    var f := FieldParams(5, 0x2F);
    Powers();
    Tops();
    assert Alpha(f, 31) == 1 by {
      Climb(f, 0x10, 0x2F, 31, 1, 1, 1, 1, 1, 1, 1, 1, 2, 8, 19, 24, 1);
    }
    Degree5(f);
  }

  lemma Mask1B()
    ensures Primitive(FieldParams(5, 0x37))
  {
    hide Alpha, Pow2, IsTop, Primitive;
    var f := FieldParams(5, 0x37);
    Powers();
    Tops();
    assert Alpha(f, 31) == 1 by {
      Climb(f, 0x10, 0x37, 31, 1, 1, 1, 1, 1, 1, 1, 1, 2, 8, 5, 21, 1);
    }
    Degree5(f);
  }

  lemma Mask1E()
    ensures Primitive(FieldParams(5, 0x3D))
  {
    hide Alpha, Pow2, IsTop, Primitive;
    var f := FieldParams(5, 0x3D);
    Powers();
    Tops();
    assert Alpha(f, 31) == 1 by {
      Climb(f, 0x10, 0x3D, 31, 1, 1, 1, 1, 1, 1, 1, 1, 2, 8, 14, 27, 1);
    }
    Degree5(f);
  }

  lemma Mask21()
    ensures Primitive(FieldParams(6, 0x43))
  {
    hide Alpha, Pow2, IsTop, Primitive;
    var f := FieldParams(6, 0x43);
    Powers();
    Tops();
    assert Alpha(f, 63) == 1 by {
      Climb(f, 0x20, 0x43, 63, 1, 1, 1, 1, 1, 1, 1, 2, 8, 6, 40, 37, 1);
    }
    assert Alpha(f, 21) == 59 by {
      Climb(f, 0x20, 0x43, 21, 1, 1, 1, 1, 1, 1, 1, 1, 2, 4, 32, 48, 59);
    }
    assert Alpha(f, 9) == 24 by {
      Climb(f, 0x20, 0x43, 9, 1, 1, 1, 1, 1, 1, 1, 1, 1, 2, 4, 16, 24);
    }
    Degree6(f);
  }

  lemma Mask2D()
    ensures Primitive(FieldParams(6, 0x5B))
  {
    hide Alpha, Pow2, IsTop, Primitive;
    var f := FieldParams(6, 0x5B);
    Powers();
    Tops();
    assert Alpha(f, 63) == 1 by {
      Climb(f, 0x20, 0x5B, 63, 1, 1, 1, 1, 1, 1, 1, 2, 8, 54, 36, 25, 1);
    }
    assert Alpha(f, 21) == 14 by {
      Climb(f, 0x20, 0x5B, 21, 1, 1, 1, 1, 1, 1, 1, 1, 2, 4, 32, 49, 14);
    }
    assert Alpha(f, 9) == 53 by {
      Climb(f, 0x20, 0x5B, 9, 1, 1, 1, 1, 1, 1, 1, 1, 1, 2, 4, 16, 53);
    }
    Degree6(f);
  }

  lemma Mask30()
    ensures Primitive(FieldParams(6, 0x61))
  {
    hide Alpha, Pow2, IsTop, Primitive;
    var f := FieldParams(6, 0x61);
    Powers();
    Tops();
    assert Alpha(f, 63) == 1 by {
      Climb(f, 0x20, 0x61, 63, 1, 1, 1, 1, 1, 1, 1, 2, 8, 35, 21, 13, 1);
    }
    assert Alpha(f, 21) == 57 by {
      Climb(f, 0x20, 0x61, 21, 1, 1, 1, 1, 1, 1, 1, 1, 2, 4, 32, 63, 57);
    }
    assert Alpha(f, 9) == 47 by {
      Climb(f, 0x20, 0x61, 9, 1, 1, 1, 1, 1, 1, 1, 1, 1, 2, 4, 16, 47);
    }
    Degree6(f);
  }

  lemma Mask39()
    ensures Primitive(FieldParams(6, 0x73))
  {
    hide Alpha, Pow2, IsTop, Primitive;
    var f := FieldParams(6, 0x73);
    Powers();
    Tops();
    assert Alpha(f, 63) == 1 by {
      Climb(f, 0x20, 0x73, 63, 1, 1, 1, 1, 1, 1, 1, 2, 8, 21, 5, 34, 1);
    }
    assert Alpha(f, 21) == 25 by {
      Climb(f, 0x20, 0x73, 21, 1, 1, 1, 1, 1, 1, 1, 1, 2, 4, 32, 61, 25);
    }
    assert Alpha(f, 9) == 39 by {
      Climb(f, 0x20, 0x73, 9, 1, 1, 1, 1, 1, 1, 1, 1, 1, 2, 4, 16, 39);
    }
    Degree6(f);
  }

  lemma Mask41()
    ensures Primitive(FieldParams(7, 0x83))
  {
    hide Alpha, Pow2, IsTop, Primitive;
    var f := FieldParams(7, 0x83);
    Powers();
    Tops();
    assert Alpha(f, 127) == 1 by {
      Climb(f, 0x40, 0x83, 127, 1, 1, 1, 1, 1, 1, 2, 8, 3, 10, 11, 9, 1);
    }
    Degree7(f);
  }

  lemma Mask53()
    ensures Primitive(FieldParams(7, 0xA7))
  {
    hide Alpha, Pow2, IsTop, Primitive;
    var f := FieldParams(7, 0xA7);
    Powers();
    Tops();
    assert Alpha(f, 127) == 1 by {
      Climb(f, 0x40, 0xA7, 127, 1, 1, 1, 1, 1, 1, 2, 8, 39, 97, 43, 102, 1);
    }
    Degree7(f);
  }

  lemma Mask69()
    ensures Primitive(FieldParams(7, 0xD3))
  {
    hide Alpha, Pow2, IsTop, Primitive;
    var f := FieldParams(7, 0xD3);
    Powers();
    Tops();
    assert Alpha(f, 127) == 1 by {
      Climb(f, 0x40, 0xD3, 127, 1, 1, 1, 1, 1, 1, 2, 8, 83, 60, 125, 112, 1);
    }
    Degree7(f);
  }

  lemma Mask7B()
    ensures Primitive(FieldParams(7, 0xF7))
  {
    hide Alpha, Pow2, IsTop, Primitive;
    var f := FieldParams(7, 0xF7);
    Powers();
    Tops();
    assert Alpha(f, 127) == 1 by {
      Climb(f, 0x40, 0xF7, 127, 1, 1, 1, 1, 1, 1, 2, 8, 119, 44, 104, 67, 1);
    }
    Degree7(f);
  }

  lemma Mask8E()
    ensures Primitive(FieldParams(8, 0x11D))
  {
    hide Alpha, Pow2, IsTop, Primitive;
    var f := FieldParams(8, 0x11D);
    Powers();
    Tops();
    assert Alpha(f, 255) == 1 by {
      Climb(f, 0x80, 0x11D, 255, 1, 1, 1, 1, 1, 2, 8, 128, 38, 192, 161, 204, 1);
    }
    assert Alpha(f, 85) == 214 by {
      Climb(f, 0x80, 0x11D, 85, 1, 1, 1, 1, 1, 1, 2, 4, 32, 116, 117, 181, 214);
    }
    assert Alpha(f, 51) == 10 by {
      Climb(f, 0x80, 0x11D, 51, 1, 1, 1, 1, 1, 1, 1, 2, 8, 64, 205, 3, 10);
    }
    assert Alpha(f, 15) == 38 by {
      Climb(f, 0x80, 0x11D, 15, 1, 1, 1, 1, 1, 1, 1, 1, 1, 2, 8, 128, 38);
    }
    Degree8(f);
  }

  lemma MaskAF()
    ensures Primitive(FieldParams(8, 0x15F))
  {
    hide Alpha, Pow2, IsTop, Primitive;
    var f := FieldParams(8, 0x15F);
    Powers();
    Tops();
    assert Alpha(f, 255) == 1 by {
      Climb(f, 0x80, 0x15F, 255, 1, 1, 1, 1, 1, 2, 8, 128, 67, 77, 229, 96, 1);
    }
    assert Alpha(f, 85) == 26 by {
      Climb(f, 0x80, 0x15F, 85, 1, 1, 1, 1, 1, 1, 2, 4, 32, 35, 76, 220, 26);
    }
    assert Alpha(f, 51) == 72 by {
      Climb(f, 0x80, 0x15F, 51, 1, 1, 1, 1, 1, 1, 1, 2, 8, 64, 140, 227, 72);
    }
    assert Alpha(f, 15) == 67 by {
      Climb(f, 0x80, 0x15F, 15, 1, 1, 1, 1, 1, 1, 1, 1, 1, 2, 8, 128, 67);
    }
    Degree8(f);
  }

  lemma MaskC3()
    ensures Primitive(FieldParams(8, 0x187))
  {
    hide Alpha, Pow2, IsTop, Primitive;
    var f := FieldParams(8, 0x187);
    Powers();
    Tops();
    assert Alpha(f, 255) == 1 by {
      Climb(f, 0x80, 0x187, 255, 1, 1, 1, 1, 1, 2, 8, 128, 244, 205, 107, 26, 1);
    }
    assert Alpha(f, 85) == 170 by {
      Climb(f, 0x80, 0x187, 85, 1, 1, 1, 1, 1, 1, 2, 4, 32, 149, 95, 15, 170);
    }
    assert Alpha(f, 51) == 108 by {
      Climb(f, 0x80, 0x187, 51, 1, 1, 1, 1, 1, 1, 1, 2, 8, 64, 221, 226, 108);
    }
    assert Alpha(f, 15) == 244 by {
      Climb(f, 0x80, 0x187, 15, 1, 1, 1, 1, 1, 1, 1, 1, 1, 2, 8, 128, 244);
    }
    Degree8(f);
  }

  lemma MaskE7()
    ensures Primitive(FieldParams(8, 0x1CF))
  {
    hide Alpha, Pow2, IsTop, Primitive;
    var f := FieldParams(8, 0x1CF);
    Powers();
    Tops();
    assert Alpha(f, 255) == 1 by {
      Climb(f, 0x80, 0x1CF, 255, 1, 1, 1, 1, 1, 2, 8, 128, 59, 80, 44, 43, 1);
    }
    assert Alpha(f, 85) == 61 by {
      Climb(f, 0x80, 0x1CF, 85, 1, 1, 1, 1, 1, 1, 2, 4, 32, 162, 184, 215, 61);
    }
    assert Alpha(f, 51) == 72 by {
      Climb(f, 0x80, 0x1CF, 51, 1, 1, 1, 1, 1, 1, 1, 2, 8, 64, 217, 149, 72);
    }
    assert Alpha(f, 15) == 59 by {
      Climb(f, 0x80, 0x1CF, 15, 1, 1, 1, 1, 1, 1, 1, 1, 1, 2, 8, 128, 59);
    }
    Degree8(f);
  }

  lemma Mask108()
    ensures Primitive(FieldParams(9, 0x211))
  {
    hide Alpha, Pow2, IsTop, Primitive;
    var f := FieldParams(9, 0x211);
    Powers();
    Tops();
    assert Alpha(f, 511) == 1 by {
      Climb(f, 0x100, 0x211, 511, 1, 1, 1, 1, 2, 8, 128, 98, 348, 41, 198, 346, 1);
    }
    assert Alpha(f, 73) == 336 by {
      Climb(f, 0x100, 0x211, 73, 1, 1, 1, 1, 1, 1, 2, 4, 16, 17, 257, 197, 336);
    }
    assert Alpha(f, 7) == 128 by {
      Climb(f, 0x100, 0x211, 7, 1, 1, 1, 1, 1, 1, 1, 1, 1, 1, 2, 8, 128);
    }
    Degree9(f);
  }

  lemma Mask13B()
    ensures Primitive(FieldParams(9, 0x277))
  {
    hide Alpha, Pow2, IsTop, Primitive;
    var f := FieldParams(9, 0x277);
    Powers();
    Tops();
    assert Alpha(f, 511) == 1 by {
      Climb(f, 0x100, 0x277, 511, 1, 1, 1, 1, 2, 8, 128, 317, 275, 103, 31, 221, 1);
    }
    assert Alpha(f, 73) == 461 by {
      Climb(f, 0x100, 0x277, 73, 1, 1, 1, 1, 1, 1, 2, 4, 16, 119, 52, 510, 461);
    }
    assert Alpha(f, 7) == 128 by {
      Climb(f, 0x100, 0x277, 7, 1, 1, 1, 1, 1, 1, 1, 1, 1, 1, 2, 8, 128);
    }
    Degree9(f);
  }

  lemma Mask168()
    ensures Primitive(FieldParams(9, 0x2D1))
  {
    hide Alpha, Pow2, IsTop, Primitive;
    var f := FieldParams(9, 0x2D1);
    Powers();
    Tops();
    assert Alpha(f, 511) == 1 by {
      Climb(f, 0x100, 0x2D1, 511, 1, 1, 1, 1, 2, 8, 128, 318, 182, 82, 510, 175, 1);
    }
    assert Alpha(f, 73) == 423 by {
      Climb(f, 0x100, 0x2D1, 73, 1, 1, 1, 1, 1, 1, 2, 4, 16, 209, 101, 72, 423);
    }
    assert Alpha(f, 7) == 128 by {
      Climb(f, 0x100, 0x2D1, 7, 1, 1, 1, 1, 1, 1, 1, 1, 1, 1, 2, 8, 128);
    }
    Degree9(f);
  }

  lemma Mask1DC()
    ensures Primitive(FieldParams(9, 0x3B9))
  {
    hide Alpha, Pow2, IsTop, Primitive;
    var f := FieldParams(9, 0x3B9);
    Powers();
    Tops();
    assert Alpha(f, 511) == 1 by {
      Climb(f, 0x100, 0x3B9, 511, 1, 1, 1, 1, 2, 8, 128, 99, 182, 100, 156, 378, 1);
    }
    assert Alpha(f, 73) == 48 by {
      Climb(f, 0x100, 0x3B9, 73, 1, 1, 1, 1, 1, 1, 2, 4, 16, 441, 161, 295, 48);
    }
    assert Alpha(f, 7) == 128 by {
      Climb(f, 0x100, 0x3B9, 7, 1, 1, 1, 1, 1, 1, 1, 1, 1, 1, 2, 8, 128);
    }
    Degree9(f);
  }

  lemma Mask204()
    ensures Primitive(FieldParams(10, 0x409))
  {
    hide Alpha, Pow2, IsTop, Primitive;
    var f := FieldParams(10, 0x409);
    Powers();
    Tops();
    assert Alpha(f, 1023) == 1 by {
      Climb(f, 0x200, 0x409, 1023, 1, 1, 1, 2, 8, 128, 288, 155, 938, 791, 135, 266, 1);
    }
    assert Alpha(f, 341) == 237 by {
      Climb(f, 0x200, 0x409, 341, 1, 1, 1, 1, 2, 4, 32, 9, 130, 148, 768, 850, 237);
    }
    assert Alpha(f, 93) == 713 by {
      Climb(f, 0x200, 0x409, 93, 1, 1, 1, 1, 1, 1, 2, 4, 32, 18, 520, 338, 713);
    }
    assert Alpha(f, 33) == 620 by {
      Climb(f, 0x200, 0x409, 33, 1, 1, 1, 1, 1, 1, 1, 2, 4, 16, 256, 576, 620);
    }
    Degree10(f);
  }

  lemma Mask2E3()
    ensures Primitive(FieldParams(10, 0x5C7))
  {
    hide Alpha, Pow2, IsTop, Primitive;
    var f := FieldParams(10, 0x5C7);
    Powers();
    Tops();
    assert Alpha(f, 1023) == 1 by {
      Climb(f, 0x200, 0x5C7, 1023, 1, 1, 1, 2, 8, 128, 452, 834, 636, 397, 945, 589, 1);
    }
    assert Alpha(f, 341) == 327 by {
      Climb(f, 0x200, 0x5C7, 341, 1, 1, 1, 1, 2, 4, 32, 455, 840, 378, 928, 708, 327);
    }
    assert Alpha(f, 93) == 234 by {
      Climb(f, 0x200, 0x5C7, 93, 1, 1, 1, 1, 1, 1, 2, 4, 32, 910, 873, 188, 234);
    }
    assert Alpha(f, 33) == 833 by {
      Climb(f, 0x200, 0x5C7, 33, 1, 1, 1, 1, 1, 1, 1, 2, 4, 16, 256, 904, 833);
    }
    Degree10(f);
  }

  lemma Mask369()
    ensures Primitive(FieldParams(10, 0x6D3))
  {
    hide Alpha, Pow2, IsTop, Primitive;
    var f := FieldParams(10, 0x6D3);
    Powers();
    Tops();
    assert Alpha(f, 1023) == 1 by {
      Climb(f, 0x200, 0x6D3, 1023, 1, 1, 1, 2, 8, 128, 456, 201, 312, 6, 40, 1013, 1);
    }
    assert Alpha(f, 341) == 419 by {
      Climb(f, 0x200, 0x6D3, 341, 1, 1, 1, 1, 2, 4, 32, 723, 687, 388, 27, 325, 419);
    }
    assert Alpha(f, 93) == 76 by {
      Climb(f, 0x200, 0x6D3, 93, 1, 1, 1, 1, 1, 1, 2, 4, 32, 885, 457, 780, 76);
    }
    assert Alpha(f, 33) == 804 by {
      Climb(f, 0x200, 0x6D3, 33, 1, 1, 1, 1, 1, 1, 1, 2, 4, 16, 256, 912, 804);
    }
    Degree10(f);
  }

  lemma Mask3AA()
    ensures Primitive(FieldParams(10, 0x755))
  {
    hide Alpha, Pow2, IsTop, Primitive;
    var f := FieldParams(10, 0x755);
    Powers();
    Tops();
    assert Alpha(f, 1023) == 1 by {
      Climb(f, 0x200, 0x755, 1023, 1, 1, 1, 2, 8, 128, 676, 109, 500, 701, 751, 78, 1);
    }
    assert Alpha(f, 341) == 877 by {
      Climb(f, 0x200, 0x755, 341, 1, 1, 1, 1, 2, 4, 32, 853, 754, 374, 17, 257, 877);
    }
    assert Alpha(f, 93) == 766 by {
      Climb(f, 0x200, 0x755, 93, 1, 1, 1, 1, 1, 1, 2, 4, 32, 511, 567, 971, 766);
    }
    assert Alpha(f, 33) == 436 by {
      Climb(f, 0x200, 0x755, 33, 1, 1, 1, 1, 1, 1, 1, 2, 4, 16, 256, 541, 436);
    }
    Degree10(f);
  }

  lemma Mask415()
    ensures Primitive(FieldParams(11, 0x82B))
  {
    hide Alpha, Pow2, IsTop, Primitive;
    var f := FieldParams(11, 0x82B);
    Powers();
    Tops();
    assert Alpha(f, 2047) == 1 by {
      Climb(f, 0x400, 0x82B, 2047, 1, 1, 2, 8, 128, 688, 796, 972, 976, 368, 108, 39, 1);
    }
    assert Alpha(f, 89) == 1909 by {
      Climb(f, 0x400, 0x82B, 89, 1, 1, 1, 1, 1, 1, 2, 4, 32, 43, 1093, 1865, 1909);
    }
    assert Alpha(f, 23) == 161 by {
      Climb(f, 0x400, 0x82B, 23, 1, 1, 1, 1, 1, 1, 1, 1, 2, 4, 32, 43, 161);
    }
    Degree11(f);
  }

  lemma Mask4BF()
    ensures Primitive(FieldParams(11, 0x97F))
  {
    hide Alpha, Pow2, IsTop, Primitive;
    var f := FieldParams(11, 0x97F);
    Powers();
    Tops();
    assert Alpha(f, 2047) == 1 by {
      Climb(f, 0x400, 0x97F, 2047, 1, 1, 2, 8, 128, 1294, 1034, 748, 436, 151, 1828, 1380, 1);
    }
    assert Alpha(f, 89) == 1612 by {
      Climb(f, 0x400, 0x97F, 89, 1, 1, 1, 1, 1, 1, 2, 4, 32, 383, 1224, 267, 1612);
    }
    assert Alpha(f, 23) == 239 by {
      Climb(f, 0x400, 0x97F, 23, 1, 1, 1, 1, 1, 1, 1, 1, 2, 4, 32, 383, 239);
    }
    Degree11(f);
  }

  lemma Mask553()
    ensures Primitive(FieldParams(11, 0xAA7))
  {
    hide Alpha, Pow2, IsTop, Primitive;
    var f := FieldParams(11, 0xAA7);
    Powers();
    Tops();
    assert Alpha(f, 2047) == 1 by {
      Climb(f, 0x400, 0xAA7, 2047, 1, 1, 2, 8, 128, 236, 720, 1712, 254, 216, 599, 1654, 1);
    }
    assert Alpha(f, 89) == 92 by {
      Climb(f, 0x400, 0xAA7, 89, 1, 1, 1, 1, 1, 1, 2, 4, 32, 679, 771, 1725, 92);
    }
    assert Alpha(f, 23) == 1542 by {
      Climb(f, 0x400, 0xAA7, 23, 1, 1, 1, 1, 1, 1, 1, 1, 2, 4, 32, 679, 1542);
    }
    Degree11(f);
  }

  lemma Mask62B()
    ensures Primitive(FieldParams(11, 0xC57))
  {
    hide Alpha, Pow2, IsTop, Primitive;
    var f := FieldParams(11, 0xC57);
    Powers();
    Tops();
    assert Alpha(f, 2047) == 1 by {
      Climb(f, 0x400, 0xC57, 2047, 1, 1, 2, 8, 128, 621, 549, 1792, 1813, 1335, 541, 471, 1);
    }
    assert Alpha(f, 89) == 409 by {
      Climb(f, 0x400, 0xC57, 89, 1, 1, 1, 1, 1, 1, 2, 4, 32, 1111, 774, 863, 409);
    }
    assert Alpha(f, 23) == 1548 by {
      Climb(f, 0x400, 0xC57, 23, 1, 1, 1, 1, 1, 1, 1, 1, 2, 4, 32, 1111, 1548);
    }
    Degree11(f);
  }

  lemma Mask83E()
    ensures Primitive(FieldParams(12, 0x107D))
  {
    hide Alpha, Pow2, IsTop, Primitive;
    var f := FieldParams(12, 0x107D);
    Powers();
    Tops();
    assert Alpha(f, 4095) == 1 by {
      Climb(f, 0x800, 0x107D, 4095, 1, 2, 8, 128, 1000, 2613, 1715, 3966, 504, 1586, 3220, 3013, 1);
    }
    assert Alpha(f, 1365) == 3157 by {
      Climb(f, 0x800, 0x107D, 1365, 1, 1, 2, 4, 32, 1024, 2203, 506, 1594, 1546, 1556, 606, 3157);
    }
    assert Alpha(f, 819) == 3243 by {
      Climb(f, 0x800, 0x107D, 819, 1, 1, 1, 2, 8, 64, 125, 2648, 3819, 1993, 1366, 1513, 3243);
    }
    assert Alpha(f, 585) == 3429 by {
      Climb(f, 0x800, 0x107D, 585, 1, 1, 1, 2, 4, 16, 512, 3901, 132, 968, 2340, 651, 3429);
    }
    assert Alpha(f, 315) == 2628 by {
      Climb(f, 0x800, 0x107D, 315, 1, 1, 1, 1, 2, 4, 16, 512, 3591, 1056, 2163, 2150, 2628);
    }
    Degree12(f);
  }

  lemma Mask939()
    ensures Primitive(FieldParams(12, 0x1273))
  {
    hide Alpha, Pow2, IsTop, Primitive;
    var f := FieldParams(12, 0x1273);
    Powers();
    Tops();
    assert Alpha(f, 4095) == 1 by {
      Climb(f, 0x800, 0x1273, 4095, 1, 2, 8, 128, 491, 2603, 94, 1614, 3348, 1026, 1425, 476, 1);
    }
    assert Alpha(f, 1365) == 1450 by {
      Climb(f, 0x800, 0x1273, 1365, 1, 1, 2, 4, 32, 1024, 1433, 174, 2371, 2706, 2871, 681, 1450);
    }
    assert Alpha(f, 819) == 1071 by {
      Climb(f, 0x800, 0x1273, 819, 1, 1, 1, 2, 8, 64, 627, 559, 1129, 3527, 2235, 3958, 1071);
    }
    assert Alpha(f, 585) == 3543 by {
      Climb(f, 0x800, 0x1273, 585, 1, 1, 1, 2, 4, 16, 512, 3928, 3962, 1167, 620, 2427, 3543);
    }
    assert Alpha(f, 315) == 1290 by {
      Climb(f, 0x800, 0x1273, 315, 1, 1, 1, 1, 2, 4, 16, 512, 3267, 1161, 632, 677, 1290);
    }
    Degree12(f);
  }

  lemma MaskAF5()
    ensures Primitive(FieldParams(12, 0x15EB))
  {
    hide Alpha, Pow2, IsTop, Primitive;
    var f := FieldParams(12, 0x15EB);
    Powers();
    Tops();
    assert Alpha(f, 4095) == 1 by {
      Climb(f, 0x800, 0x15EB, 4095, 1, 2, 8, 128, 1166, 1388, 1519, 363, 1167, 1390, 1511, 491, 1);
    }
    assert Alpha(f, 1365) == 2443 by {
      Climb(f, 0x800, 0x15EB, 1365, 1, 1, 2, 4, 32, 1024, 330, 3251, 2790, 3722, 2755, 2715, 2443);
    }
    assert Alpha(f, 819) == 1157 by {
      Climb(f, 0x800, 0x15EB, 819, 1, 1, 1, 2, 8, 64, 1515, 331, 3215, 35, 1029, 360, 1157);
    }
    assert Alpha(f, 585) == 2319 by {
      Climb(f, 0x800, 0x15EB, 585, 1, 1, 1, 2, 4, 16, 512, 4006, 728, 1919, 1697, 2373, 2319);
    }
    assert Alpha(f, 315) == 226 by {
      Climb(f, 0x800, 0x15EB, 315, 1, 1, 1, 1, 2, 4, 16, 512, 2727, 811, 767, 3925, 226);
    }
    Degree12(f);
  }

  lemma MaskD70()
    ensures Primitive(FieldParams(12, 0x1AE1))
  {
    hide Alpha, Pow2, IsTop, Primitive;
    var f := FieldParams(12, 0x1AE1);
    Powers();
    Tops();
    assert Alpha(f, 4095) == 1 by {
      Climb(f, 0x800, 0x1AE1, 4095, 1, 2, 8, 128, 2382, 5, 34, 2056, 1301, 4068, 337, 1850, 1);
    }
    assert Alpha(f, 1365) == 163 by {
      Climb(f, 0x800, 0x1AE1, 1365, 1, 1, 2, 4, 32, 1024, 2013, 1827, 643, 2677, 2011, 1847, 163);
    }
    assert Alpha(f, 819) == 758 by {
      Climb(f, 0x800, 0x1AE1, 819, 1, 1, 1, 2, 8, 64, 2785, 3253, 292, 3181, 3988, 1138, 758);
    }
    assert Alpha(f, 585) == 1135 by {
      Climb(f, 0x800, 0x1AE1, 585, 1, 1, 1, 2, 4, 16, 512, 3799, 160, 334, 712, 209, 1135);
    }
    assert Alpha(f, 315) == 2376 by {
      Climb(f, 0x800, 0x1AE1, 315, 1, 1, 1, 1, 2, 4, 16, 512, 1871, 1280, 1763, 3829, 2376);
    }
    Degree12(f);
  }

  lemma Mask1013()
    ensures Primitive(FieldParams(13, 0x2027))
  {
    hide Alpha, Pow2, IsTop, Primitive;
    var f := FieldParams(13, 0x2027);
    Powers();
    Tops();
    assert Alpha(f, 8191) == 1 by {
      Climb(f, 0x1000, 0x2027, 8191, 2, 8, 128, 156, 572, 864, 919, 2310, 7876, 249, 2617, 8158, 1);
    }
    Degree13(f);
  }

  lemma Mask109D()
    ensures Primitive(FieldParams(13, 0x213B))
  {
    hide Alpha, Pow2, IsTop, Primitive;
    var f := FieldParams(13, 0x213B);
    Powers();
    Tops();
    assert Alpha(f, 8191) == 1 by {
      Climb(f, 0x1000, 0x213B, 8191, 2, 8, 128, 1260, 7828, 688, 602, 3845, 317, 6418, 2705, 1954, 1);
    }
    Degree13(f);
  }

  lemma Mask117D()
    ensures Primitive(FieldParams(13, 0x22FB))
  {
    hide Alpha, Pow2, IsTop, Primitive;
    var f := FieldParams(13, 0x22FB);
    Powers();
    Tops();
    assert Alpha(f, 8191) == 1 by {
      Climb(f, 0x1000, 0x22FB, 8191, 2, 8, 128, 3052, 5774, 4694, 875, 4333, 5594, 2065, 4007, 3669, 1);
    }
    Degree13(f);
  }

  lemma Mask1271()
    ensures Primitive(FieldParams(13, 0x24E3))
  {
    hide Alpha, Pow2, IsTop, Primitive;
    var f := FieldParams(13, 0x24E3);
    Powers();
    Tops();
    assert Alpha(f, 8191) == 1 by {
      Climb(f, 0x1000, 0x24E3, 8191, 2, 8, 128, 5004, 2122, 1209, 2891, 7317, 113, 3809, 4642, 5272, 1);
    }
    Degree13(f);
  }

  // ---------------------------------------------------------------- the registers of the table

  lemma MaskIsPrimitive(row: nat, k: nat)
    requires row < 9 && k < 4
    ensures |MASKS[row]| == 4 && Primitive(FieldParams(row + 5, 2 * MASKS[row][k] + 1))
  {
    hide Primitive;
    match row {
      case 0 => Mask12(); Mask17(); Mask1B(); Mask1E();
      case 1 => Mask21(); Mask2D(); Mask30(); Mask39();
      case 2 => Mask41(); Mask53(); Mask69(); Mask7B();
      case 3 => Mask8E(); MaskAF(); MaskC3(); MaskE7();
      case 4 => Mask108(); Mask13B(); Mask168(); Mask1DC();
      case 5 => Mask204(); Mask2E3(); Mask369(); Mask3AA();
      case 6 => Mask415(); Mask4BF(); Mask553(); Mask62B();
      case 7 => Mask83E(); Mask939(); MaskAF5(); MaskD70();
      case 8 => Mask1013(); Mask109D(); Mask117D(); Mask1271();
    }
  }

  /** The polynomial of a register: its top coefficient belongs to the bit that falls out. */
  function Polynomial(l: Register): FieldParams { FieldParams(l.highbit + 1, 2 * l.mask + 1) }

  /** A step back multiplies by x. */
  lemma UpIsShift(l: Lfsr, s: nat)
    requires InRegister(l, s)
    ensures Up(l, s) == Shift(l.highbit + 1, 2 * l.mask + 1, s)
  {
    hide Xor, Bit, High, Shift;
    ShiftByCases(Polynomial(l), s);
    BitOfHigh(s, l.highbit);
    TopBitSet(s, l.highbit);
  }

  lemma {:induction false} StepsLowerPowers(l: Lfsr, i: nat, n: nat)
    requires Primitive(Polynomial(l)) && n <= i
    ensures Steps(l, Alpha(Polynomial(l), i), n) == Alpha(Polynomial(l), i - n)
    decreases n
  {
    hide Alpha, Up, Down, Shift, Primitive, Sound;
    if n > 0 {
      var f: Field, k: nat := Polynomial(l), i - n;
      StepsLowerPowers(l, i, n - 1);
      AlphaNext(f, k);
      PowerInRegister(l, k);
      UpIsShift(l, Alpha(f, k));
      DownAfterUp(l, Alpha(f, k));
    }
  }

  lemma PowerInRegister(l: Lfsr, i: nat)
    requires Primitive(Polynomial(l))
    ensures InRegister(l, Alpha(Polynomial(l), i))
  {
    hide Alpha;
    AlphaIn(Polynomial(l), i);
    AlphaNonzero(Polynomial(l), i);
  }

  /** If x is primitive modulo the polynomial of a register its raw step runs through all states in a single cycle. */
  lemma PrimitiveIsSingleCycle(l: Lfsr)
    requires Primitive(Polynomial(l))
    ensures SingleCycle(l)
  {
    hide Alpha, Steps, Primitive, Sound;
    var f: Field := Polynomial(l);
    forall s, t | InRegister(l, s) && InRegister(l, t) ensures Reaches(l, s, t) {
      LogExists(f, s);
      LogExists(f, t);
      var i :| 0 <= i < NN(f) && Alpha(f, i) == s;
      var j :| 0 <= j < NN(f) && Alpha(f, j) == t;
      var e: nat := if i >= j then i else NN(f) + i;
      AlphaTurn(f, i);
      StepsLowerPowers(l, e, e - j);
      assert Steps(l, s, e - j) == t;
    }
  }

  /** A register with one of the masks of the table. */
  ghost predicate FromTable(l: Register, k: nat) {
    k < 4 && 4 <= l.highbit <= 12 && |MASKS[l.highbit - 4]| == 4 && l.mask == MASKS[l.highbit - 4][k]
  }

  /** All registers of the table run through all their states. */
  lemma TableIsSingleCycle(l: Lfsr, k: nat)
    requires FromTable(l, k)
    ensures SingleCycle(l)
  {
    hide Primitive, SingleCycle;
    MaskIsPrimitive(l.highbit - 4, k);
    PrimitiveIsSingleCycle(l);
  }
}

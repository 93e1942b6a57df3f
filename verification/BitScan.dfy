/** Finding set bits by repeated shifting, and what the lowest differing bit of two words says about their bytes. */
module BitScan {
  import opened Words

  predicate LowestSet(n: bv32, r: bv32) {
    r < 32 && (n >> r) & 1 == 1 && n & ((1 << r) - 1) == 0
  }

  /** Half-way through the scan, with the bits of the answer from `shift` down still open: `n` is `n0` moved up
      until bit `rc` of it is the top bit, and every set bit is among the top ones. */
  predicate Scanning(n0: bv32, i: int, shift: bv32, n: bv32, rc: bv32) {
    && n != 0 && rc <= 31 && n == n0 << (31 - rc)
    && ((i == 4 && shift == 16 && rc == 31)
        || (i == 3 && shift == 8 && rc >= 15 && n << 16 == 0)
        || (i == 2 && shift == 4 && rc >= 7 && n << 8 == 0)
        || (i == 1 && shift == 2 && rc >= 3 && n << 4 == 0)
        || (i == 0 && shift == 1 && rc >= 1 && n << 2 == 0)
        || (i == -1 && shift == 0 && n << 1 == 0))
  }

  function Shl(n: bv32, shift: bv32): bv32 {
    if shift < 32 then n << shift else 0
  }

  function Minus(rc: bv32, shift: bv32): bv32 {
    rc - shift
  }

  function Half(shift: bv32): bv32 {
    shift >> 1
  }

  lemma MoveBy16(n0: bv32, n: bv32, rc: bv32)
    requires Scanning(n0, 4, 16, n, rc) && Shl(n, 16) != 0
    ensures Scanning(n0, 3, Half(16), Shl(n, 16), Minus(rc, 16))
  {
  }

  lemma StayBy16(n0: bv32, n: bv32, rc: bv32)
    requires Scanning(n0, 4, 16, n, rc) && Shl(n, 16) == 0
    ensures Scanning(n0, 3, Half(16), n, rc)
  {
  }

  lemma ShiftJoins8(n: bv32, a: bv32)
    requires a <= 23
    ensures (n << a) << 8 == n << (a + 8)
  {
  }

  lemma MoveBy8(n0: bv32, n: bv32, rc: bv32)
    requires Scanning(n0, 3, 8, n, rc) && Shl(n, 8) != 0
    ensures Scanning(n0, 2, Half(8), Shl(n, 8), Minus(rc, 8))
  {
    ShiftJoins8(n0, 31 - rc);
  }

  lemma StayBy8(n0: bv32, n: bv32, rc: bv32)
    requires Scanning(n0, 3, 8, n, rc) && Shl(n, 8) == 0
    ensures Scanning(n0, 2, Half(8), n, rc)
  {
  }

  lemma MoveBy4(n0: bv32, n: bv32, rc: bv32)
    requires Scanning(n0, 2, 4, n, rc) && Shl(n, 4) != 0
    ensures Scanning(n0, 1, Half(4), Shl(n, 4), Minus(rc, 4))
  {
  }

  lemma StayBy4(n0: bv32, n: bv32, rc: bv32)
    requires Scanning(n0, 2, 4, n, rc) && Shl(n, 4) == 0
    ensures Scanning(n0, 1, Half(4), n, rc)
  {
  }

  lemma MoveBy2(n0: bv32, n: bv32, rc: bv32)
    requires Scanning(n0, 1, 2, n, rc) && Shl(n, 2) != 0
    ensures Scanning(n0, 0, Half(2), Shl(n, 2), Minus(rc, 2))
  {
  }

  lemma StayBy2(n0: bv32, n: bv32, rc: bv32)
    requires Scanning(n0, 1, 2, n, rc) && Shl(n, 2) == 0
    ensures Scanning(n0, 0, Half(2), n, rc)
  {
  }

  lemma MoveBy1(n0: bv32, n: bv32, rc: bv32)
    requires Scanning(n0, 0, 1, n, rc) && Shl(n, 1) != 0
    ensures Scanning(n0, -1, Half(1), Shl(n, 1), Minus(rc, 1))
  {
  }

  lemma StayBy1(n0: bv32, n: bv32, rc: bv32)
    requires Scanning(n0, 0, 1, n, rc) && Shl(n, 1) == 0
    ensures Scanning(n0, -1, Half(1), n, rc)
  {
  }

  lemma ScanStart(n0: bv32)
    requires n0 != 0
    ensures Scanning(n0, 4, 16, n0, 31)
  {
  }

  lemma ScanShift(n0: bv32, i: int, shift: bv32, n: bv32, rc: bv32)
    requires Scanning(n0, i, shift, n, rc)
    ensures -1 <= i <= 4
    ensures i == 4 ==> shift == 16
    ensures i == 3 ==> shift == 8
    ensures i == 2 ==> shift == 4
    ensures i == 1 ==> shift == 2
    ensures i == 0 ==> shift == 1
  {
  }

  lemma TopIsSet(n: bv32, a: bv32)
    requires a <= 31 && (n << a) << 1 == 0 && n << a != 0
    ensures (n >> (31 - a)) & 1 == 1
  {
  }

  lemma NoneBelow(n: bv32, a: bv32)
    requires a <= 31 && (n << a) << 1 == 0 && n << a != 0
    ensures n & ((1 << (31 - a)) - 1) == 0
  {
  }

  /** When only the top bit is left, it was the lowest set. */
  lemma ScanEnd(n0: bv32, shift: bv32, n: bv32, rc: bv32)
    requires Scanning(n0, -1, shift, n, rc)
    ensures LowestSet(n0, rc)
  {
    TopIsSet(n0, 31 - rc);
    NoneBelow(n0, 31 - rc);
  }

  lemma ScanMoves(n0: bv32, i: int, shift: bv32, n: bv32, rc: bv32)
    requires i >= 0 && Scanning(n0, i, shift, n, rc) && Shl(n, shift) != 0
    ensures Scanning(n0, i - 1, Half(shift), Shl(n, shift), Minus(rc, shift))
  {
    hide Scanning, Shl, Minus, Half;
    ScanShift(n0, i, shift, n, rc);
    if i == 4 {
      MoveBy16(n0, n, rc);
    } else if i == 3 {
      MoveBy8(n0, n, rc);
    } else if i == 2 {
      MoveBy4(n0, n, rc);
    } else if i == 1 {
      MoveBy2(n0, n, rc);
    } else {
      MoveBy1(n0, n, rc);
    }
  }

  lemma ScanStays(n0: bv32, i: int, shift: bv32, n: bv32, rc: bv32)
    requires i >= 0 && Scanning(n0, i, shift, n, rc) && Shl(n, shift) == 0
    ensures Scanning(n0, i - 1, Half(shift), n, rc)
  {
    hide Scanning, Shl, Half;
    ScanShift(n0, i, shift, n, rc);
    if i == 4 {
      StayBy16(n0, n, rc);
    } else if i == 3 {
      StayBy8(n0, n, rc);
    } else if i == 2 {
      StayBy4(n0, n, rc);
    } else if i == 1 {
      StayBy2(n0, n, rc);
    } else {
      StayBy1(n0, n, rc);
    }
  }

  /** Bits::FindLSBSetNonZero. */
  method FindLSBSetNonZero(n0: bv32) returns (rc: bv32)
    requires n0 != 0
    ensures LowestSet(n0, rc)
  {
    hide LowestSet, Scanning, Shl, Minus, Half;
    ScanStart(n0);
    var n := n0;
    rc := 31;
    var i, shift: bv32 := 4, 16;
    while i >= 0
      invariant -1 <= i && Scanning(n0, i, shift, n, rc)
    {
      var x := Shl(n, shift);
      if x != 0 {
        ScanMoves(n0, i, shift, n, rc);
        n := x;
        rc := Minus(rc, shift);
      } else {
        ScanStays(n0, i, shift, n, rc);
      }
      shift := Half(shift);
      i := i - 1;
    }
    ScanEnd(n0, shift, n, rc);
  }

  function Low(n: bv64): bv32 {
    (n & 0xffff_ffff) as bv32
  }

  function High(n: bv64): bv32 {
    (n >> 32) as bv32
  }

  /** Bits::FindLSBSetNonZero64. */
  method FindLSBSetNonZero64(n: bv64) returns (rc: bv32)
    requires n != 0
    ensures if Low(n) != 0 then LowestSet(Low(n), rc) else rc >= 32 && LowestSet(High(n), rc - 32)
  {
    var bottom := Low(n);
    if bottom == 0 {
      rc := FindLSBSetNonZero(High(n));
      rc := 32 + rc;
    } else {
      rc := FindLSBSetNonZero(bottom);
    }
  }

  predicate Zero(x: bv32, mask: bv32) {
    x & mask == 0
  }

  /** The byte that bit `r` is in. */
  function ByteOf(r: bv32): nat {
    (r >> 3) as nat
  }

  /** The lowest set bit of a word is in its lowest byte that is not zero. */
  lemma LowestByte(x: bv32, r: bv32)
    requires LowestSet(x, r)
    ensures r >> 3 <= 3
    ensures r >> 3 == 0 ==> !Zero(x, 0xff)
    ensures r >> 3 == 1 ==> Zero(x, 0xff) && !Zero(x, 0xff00)
    ensures r >> 3 == 2 ==> Zero(x, 0xff) && Zero(x, 0xff00) && !Zero(x, 0xff_0000)
    ensures r >> 3 == 3 ==> Zero(x, 0xff) && Zero(x, 0xff00) && Zero(x, 0xff_0000) && !Zero(x, 0xff00_0000)
  {
  }

  lemma ByteOfCases(r: bv32)
    requires r >> 3 <= 3
    ensures ByteOf(r) <= 3
    ensures ByteOf(r) == 0 <==> r >> 3 == 0
    ensures ByteOf(r) == 1 <==> r >> 3 == 1
    ensures ByteOf(r) == 2 <==> r >> 3 == 2
    ensures ByteOf(r) == 3 <==> r >> 3 == 3
  {
  }

  /** The bits in which two words differ. */
  function Diff32(a: bv32, b: bv32): bv32 {
    a ^ b
  }

  function Diff64(a: bv64, b: bv64): bv64 {
    a ^ b
  }

  lemma XorSame32(a: bv32)
    ensures a ^ a == 0
  {
  }

  lemma XorZero32(a: bv32, b: bv32)
    requires a ^ b == 0
    ensures a == b
  {
  }

  lemma NoDiff32(a: bv32, b: bv32)
    ensures Diff32(a, b) == 0 <==> a == b
  {
    if a == b {
      XorSame32(a);
    } else if Diff32(a, b) == 0 {
      XorZero32(a, b);
    }
  }

  lemma XorSame64(a: bv64)
    ensures a ^ a == 0
  {
  }

  lemma XorZero64(a: bv64, b: bv64)
    requires a ^ b == 0
    ensures a == b
  {
  }

  lemma NoDiff64(a: bv64, b: bv64)
    ensures Diff64(a, b) == 0 <==> a == b
  {
    if a == b {
      XorSame64(a);
    } else if Diff64(a, b) == 0 {
      XorZero64(a, b);
    }
  }

  function Xor32(a0: bv8, a1: bv8, a2: bv8, a3: bv8, b0: bv8, b1: bv8, b2: bv8, b3: bv8): bv32 {
    Diff32(Word32(a0, a1, a2, a3), Word32(b0, b1, b2, b3))
  }

  lemma Byte0Differs(a0: bv8, a1: bv8, a2: bv8, a3: bv8, b0: bv8, b1: bv8, b2: bv8, b3: bv8)
    ensures Zero(Xor32(a0, a1, a2, a3, b0, b1, b2, b3), 0xff) <==> a0 == b0
  {
  }

  lemma Byte1Differs(a0: bv8, a1: bv8, a2: bv8, a3: bv8, b0: bv8, b1: bv8, b2: bv8, b3: bv8)
    ensures Zero(Xor32(a0, a1, a2, a3, b0, b1, b2, b3), 0xff00) <==> a1 == b1
  {
  }

  lemma Byte2Differs(a0: bv8, a1: bv8, a2: bv8, a3: bv8, b0: bv8, b1: bv8, b2: bv8, b3: bv8)
    ensures Zero(Xor32(a0, a1, a2, a3, b0, b1, b2, b3), 0xff_0000) <==> a2 == b2
  {
  }

  lemma Byte3Differs(a0: bv8, a1: bv8, a2: bv8, a3: bv8, b0: bv8, b1: bv8, b2: bv8, b3: bv8)
    ensures Zero(Xor32(a0, a1, a2, a3, b0, b1, b2, b3), 0xff00_0000) <==> a3 == b3
  {
  }

  /** Where two words first differ is where their bytes do. */
  lemma FirstDifference(a0: bv8, a1: bv8, a2: bv8, a3: bv8, b0: bv8, b1: bv8, b2: bv8, b3: bv8, r: bv32)
    requires LowestSet(Xor32(a0, a1, a2, a3, b0, b1, b2, b3), r)
    ensures ByteOf(r) <= 3
    ensures ByteOf(r) == 0 ==> a0 != b0
    ensures ByteOf(r) == 1 ==> a0 == b0 && a1 != b1
    ensures ByteOf(r) == 2 ==> a0 == b0 && a1 == b1 && a2 != b2
    ensures ByteOf(r) == 3 ==> a0 == b0 && a1 == b1 && a2 == b2 && a3 != b3
  {
    hide LowestSet, Xor32, Zero, ByteOf;
    LowestByte(Xor32(a0, a1, a2, a3, b0, b1, b2, b3), r);
    ByteOfCases(r);
    Byte0Differs(a0, a1, a2, a3, b0, b1, b2, b3);
    Byte1Differs(a0, a1, a2, a3, b0, b1, b2, b3);
    Byte2Differs(a0, a1, a2, a3, b0, b1, b2, b3);
    Byte3Differs(a0, a1, a2, a3, b0, b1, b2, b3);
  }

  lemma SameWord(a0: bv8, a1: bv8, a2: bv8, a3: bv8, b0: bv8, b1: bv8, b2: bv8, b3: bv8)
    requires Word32(a0, a1, a2, a3) == Word32(b0, b1, b2, b3)
    ensures a0 == b0 && a1 == b1 && a2 == b2 && a3 == b3
  {
  }

  lemma LowHalf(a0: bv8, a1: bv8, a2: bv8, a3: bv8, a4: bv8, a5: bv8, a6: bv8, a7: bv8,
                b0: bv8, b1: bv8, b2: bv8, b3: bv8, b4: bv8, b5: bv8, b6: bv8, b7: bv8)
    ensures Low(Word64(a0, a1, a2, a3, a4, a5, a6, a7) ^ Word64(b0, b1, b2, b3, b4, b5, b6, b7))
            == Word32(a0, a1, a2, a3) ^ Word32(b0, b1, b2, b3)
  {
  }

  lemma HighHalf(a0: bv8, a1: bv8, a2: bv8, a3: bv8, a4: bv8, a5: bv8, a6: bv8, a7: bv8,
                 b0: bv8, b1: bv8, b2: bv8, b3: bv8, b4: bv8, b5: bv8, b6: bv8, b7: bv8)
    ensures High(Word64(a0, a1, a2, a3, a4, a5, a6, a7) ^ Word64(b0, b1, b2, b3, b4, b5, b6, b7))
            == Word32(a4, a5, a6, a7) ^ Word32(b4, b5, b6, b7)
  {
  }

  lemma HalvesDiffer(a0: bv8, a1: bv8, a2: bv8, a3: bv8, a4: bv8, a5: bv8, a6: bv8, a7: bv8,
                     b0: bv8, b1: bv8, b2: bv8, b3: bv8, b4: bv8, b5: bv8, b6: bv8, b7: bv8)
    ensures var x := Diff64(Word64(a0, a1, a2, a3, a4, a5, a6, a7), Word64(b0, b1, b2, b3, b4, b5, b6, b7));
      && Low(x) == Diff32(Word32(a0, a1, a2, a3), Word32(b0, b1, b2, b3))
      && High(x) == Diff32(Word32(a4, a5, a6, a7), Word32(b4, b5, b6, b7))
  {
    hide Low, High, Word32, Word64;
    LowHalf(a0, a1, a2, a3, a4, a5, a6, a7, b0, b1, b2, b3, b4, b5, b6, b7);
    HighHalf(a0, a1, a2, a3, a4, a5, a6, a7, b0, b1, b2, b3, b4, b5, b6, b7);
  }

  lemma BothHalves(x: bv64)
    ensures x == 0 <==> Low(x) == 0 && High(x) == 0
  {
  }
}

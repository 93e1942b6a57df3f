/** The length of a match, a word at a time: both versions of FindMatchLength against the longest common prefix. */
module FindMatch {
  import opened Bytes
  import opened Words
  import opened BitScan

  predicate Same(data: seq<byte>, i: nat, j: nat, n: nat) {
    i + n <= |data| && j + n <= |data| && data[i..i + n] == data[j..j + n]
  }

  /** `n` bytes from `s1` and from `s2` agree, and no more of them do before `limit`. */
  predicate IsMatchLength(data: seq<byte>, s1: nat, s2: nat, limit: nat, n: nat) {
    && s1 <= s2 && s2 + n <= limit <= |data|
    && Same(data, s1, s2, n)
    && (s2 + n < limit ==> data[s1 + n] != data[s2 + n])
  }

  /** It is the largest number of agreeing bytes. */
  lemma MatchIsLongest(data: seq<byte>, s1: nat, s2: nat, limit: nat, n: nat, m: nat)
    requires IsMatchLength(data, s1, s2, limit, n)
    requires s2 + m <= limit && Same(data, s1, s2, m)
    ensures m <= n
  {
    SameAt(data, s1, s2, m);
  }

  lemma MatchIsSame(data: seq<byte>, s1: nat, s2: nat, limit: nat, n: nat)
    requires IsMatchLength(data, s1, s2, limit, n)
    ensures s2 + n <= limit <= |data| && Same(data, s1, s2, n)
  {
  }

  /** The first bytes of a match were known to agree. */
  lemma MatchGoesOn(data: seq<byte>, s1: nat, s2: nat, limit: nat, n: nat, m: nat)
    requires Same(data, s1, s2, n) && IsMatchLength(data, s1 + n, s2 + n, limit, m)
    ensures IsMatchLength(data, s1, s2, limit, n + m)
  {
    SameMore(data, s1, s2, n, m);
  }

  lemma SameAt(data: seq<byte>, i: nat, j: nat, n: nat)
    requires Same(data, i, j, n)
    ensures forall k: nat {:trigger data[j + k]} :: k < n ==> data[i + k] == data[j + k]
  {
    assert forall k: nat {:trigger data[j + k]} :: k < n ==>
      data[i + k] == data[i..i + n][k] && data[j + k] == data[j..j + n][k];
  }

  lemma SameNone(data: seq<byte>, i: nat, j: nat)
    requires i <= |data| && j <= |data|
    ensures Same(data, i, j, 0)
  {
  }

  lemma SameOne(data: seq<byte>, i: nat, j: nat)
    requires i < |data| && j < |data| && data[i] == data[j]
    ensures Same(data, i, j, 1)
  {
  }

  lemma SameMore(data: seq<byte>, i: nat, j: nat, n: nat, m: nat)
    requires Same(data, i, j, n) && Same(data, i + n, j + n, m)
    ensures Same(data, i, j, n + m)
  {
    assert data[i..i + n + m] == data[i..i + n] + data[i + n..i + n + m];
    assert data[j..j + n + m] == data[j..j + n] + data[j + n..j + n + m];
  }

  // ---------------------------------------------------------------- words of the input

  function Word32At(data: seq<byte>, i: nat): bv32
    requires i + 4 <= |data|
  {
    Word32(ToBits(data[i]), ToBits(data[i + 1]), ToBits(data[i + 2]), ToBits(data[i + 3]))
  }

  function Word64At(data: seq<byte>, i: nat): bv64
    requires i + 8 <= |data|
  {
    Word64(ToBits(data[i]), ToBits(data[i + 1]), ToBits(data[i + 2]), ToBits(data[i + 3]),
           ToBits(data[i + 4]), ToBits(data[i + 5]), ToBits(data[i + 6]), ToBits(data[i + 7]))
  }

  lemma ByteFromBits(a: byte, b: byte)
    ensures ToBits(a) == ToBits(b) <==> a == b
  {
    FromToBits(a);
    FromToBits(b);
  }

  lemma SameWord32At(data: seq<byte>, i: nat, j: nat)
    requires i + 4 <= |data| && j + 4 <= |data| && Word32At(data, i) == Word32At(data, j)
    ensures Same(data, i, j, 4)
  {
    hide ToBits, Word32;
    SameWord(ToBits(data[i]), ToBits(data[i + 1]), ToBits(data[i + 2]), ToBits(data[i + 3]),
             ToBits(data[j]), ToBits(data[j + 1]), ToBits(data[j + 2]), ToBits(data[j + 3]));
    ByteFromBits(data[i], data[j]);
    ByteFromBits(data[i + 1], data[j + 1]);
    ByteFromBits(data[i + 2], data[j + 2]);
    ByteFromBits(data[i + 3], data[j + 3]);
  }

  /** The first of four bytes to differ. */
  lemma FirstOfFour(data: seq<byte>, i: nat, j: nat, n: nat)
    requires i + 4 <= |data| && j + 4 <= |data| && n < 4 && data[i + n] != data[j + n]
    requires n > 0 ==> data[i] == data[j]
    requires n > 1 ==> data[i + 1] == data[j + 1]
    requires n > 2 ==> data[i + 2] == data[j + 2]
    ensures Same(data, i, j, n)
  {
    assert data[i..i + n] == data[j..j + n];
  }

  /** How far two different words agree, by the lowest bit in which they differ. */
  lemma FirstDifference32At(data: seq<byte>, i: nat, j: nat, r: bv32)
    requires i + 4 <= |data| && j + 4 <= |data| && LowestSet(Diff32(Word32At(data, i), Word32At(data, j)), r)
    ensures ByteOf(r) < 4
    ensures Same(data, i, j, ByteOf(r)) && data[i + ByteOf(r)] != data[j + ByteOf(r)]
  {
    hide ToBits, Word32, LowestSet, ByteOf, Diff32, Same;
    FirstDifference(ToBits(data[i]), ToBits(data[i + 1]), ToBits(data[i + 2]), ToBits(data[i + 3]),
                    ToBits(data[j]), ToBits(data[j + 1]), ToBits(data[j + 2]), ToBits(data[j + 3]), r);
    ByteFromBits(data[i], data[j]);
    ByteFromBits(data[i + 1], data[j + 1]);
    ByteFromBits(data[i + 2], data[j + 2]);
    ByteFromBits(data[i + 3], data[j + 3]);
    FirstOfFour(data, i, j, ByteOf(r));
  }

  lemma HalvesAt(data: seq<byte>, i: nat, j: nat)
    requires i + 8 <= |data| && j + 8 <= |data|
    ensures var x := Diff64(Word64At(data, i), Word64At(data, j));
      && Low(x) == Diff32(Word32At(data, i), Word32At(data, j))
      && High(x) == Diff32(Word32At(data, i + 4), Word32At(data, j + 4))
  {
    hide ToBits, Word32, Word64, Low, High, Diff32, Diff64;
    HalvesDiffer(ToBits(data[i]), ToBits(data[i + 1]), ToBits(data[i + 2]), ToBits(data[i + 3]),
                 ToBits(data[i + 4]), ToBits(data[i + 5]), ToBits(data[i + 6]), ToBits(data[i + 7]),
                 ToBits(data[j]), ToBits(data[j + 1]), ToBits(data[j + 2]), ToBits(data[j + 3]),
                 ToBits(data[j + 4]), ToBits(data[j + 5]), ToBits(data[j + 6]), ToBits(data[j + 7]));
  }

  lemma SameWord64At(data: seq<byte>, i: nat, j: nat)
    requires i + 8 <= |data| && j + 8 <= |data| && Word64At(data, i) == Word64At(data, j)
    ensures Same(data, i, j, 8)
  {
    hide Word32At, Word64At, Low, High, Diff32, Diff64;
    NoDiff64(Word64At(data, i), Word64At(data, j));
    BothHalves(Diff64(Word64At(data, i), Word64At(data, j)));
    HalvesAt(data, i, j);
    NoDiff32(Word32At(data, i), Word32At(data, j));
    NoDiff32(Word32At(data, i + 4), Word32At(data, j + 4));
    SameWord32At(data, i, j);
    SameWord32At(data, i + 4, j + 4);
    SameMore(data, i, j, 4, 4);
  }

  /** The answer of FindLSBSetNonZero64 for the difference of two words. */
  predicate LowestSet64(n: bv64, r: bv32) {
    if Low(n) != 0 then LowestSet(Low(n), r) else r >= 32 && LowestSet(High(n), r - 32)
  }

  lemma HighByte(r: bv32)
    requires r >= 32 && r - 32 < 32
    ensures ByteOf(r) == 4 + ByteOf(r - 32)
  {
    ByteOfCases(r - 32);
    assert r >> 3 == 4 + ((r - 32) >> 3);
  }

  /** How far two different double words agree. */
  lemma FirstDifference64At(data: seq<byte>, i: nat, j: nat, r: bv32)
    requires i + 8 <= |data| && j + 8 <= |data| && LowestSet64(Diff64(Word64At(data, i), Word64At(data, j)), r)
    ensures ByteOf(r) < 8
    ensures Same(data, i, j, ByteOf(r)) && data[i + ByteOf(r)] != data[j + ByteOf(r)]
  {
    hide Word32At, Word64At, Low, High, Diff32, Diff64, LowestSet, ByteOf;
    HalvesAt(data, i, j);
    if Low(Diff64(Word64At(data, i), Word64At(data, j))) != 0 {
      FirstDifference32At(data, i, j, r);
    } else {
      NoDiff32(Word32At(data, i), Word32At(data, j));
      SameWord32At(data, i, j);
      FirstDifference32At(data, i + 4, j + 4, r - 32);
      LowestIsBit(High(Diff64(Word64At(data, i), Word64At(data, j))), r - 32);
      HighByte(r);
      SameMore(data, i, j, 4, ByteOf(r - 32));
    }
  }

  lemma LowestIsBit(n: bv32, r: bv32)
    requires LowestSet(n, r)
    ensures r < 32
  {
  }

  // ---------------------------------------------------------------- the two versions

  /** UNALIGNED_LOAD64 of bytes that all lie before `bound`. */
  method Load64(data: seq<byte>, i: nat, ghost bound: nat) returns (w: bv64)
    requires i + 8 <= bound <= |data|
    ensures w == Word64At(data, i)
  {
    w := Word64At(data, i);
  }

  method Load32(data: seq<byte>, i: nat, ghost bound: nat) returns (w: bv32)
    requires i + 4 <= bound <= |data|
    ensures w == Word32At(data, i)
  {
    w := Word32At(data, i);
  }

  /** The number of whole bytes in which two different double words agree. */
  method MatchingBytes64(data: seq<byte>, i: nat, j: nat, a: bv64, b: bv64) returns (n: nat)
    requires i + 8 <= |data| && j + 8 <= |data| && a == Word64At(data, i) && b == Word64At(data, j) && a != b
    ensures n < 8 && Same(data, i, j, n) && data[i + n] != data[j + n]
  {
    hide Word64At, Diff64, LowestSet, Low, High, ByteOf;
    NoDiff64(a, b);
    var r := FindLSBSetNonZero64(Diff64(a, b));
    FirstDifference64At(data, i, j, r);
    n := ByteOf(r);
  }

  method MatchingBytes32(data: seq<byte>, i: nat, j: nat, a: bv32, b: bv32) returns (n: nat)
    requires i + 4 <= |data| && j + 4 <= |data| && a == Word32At(data, i) && b == Word32At(data, j) && a != b
    ensures n < 4 && Same(data, i, j, n) && data[i + n] != data[j + n]
  {
    hide Word32At, Diff32, LowestSet, ByteOf;
    NoDiff32(a, b);
    var r := FindLSBSetNonZero(Diff32(a, b));
    FirstDifference32At(data, i, j, r);
    n := ByteOf(r);
  }

  /** The last loop of FindMatchLength, a byte at a time. */
  method MatchTail(data: seq<byte>, s1: nat, start: nat, limit: nat, matched0: nat) returns (matched: nat)
    requires s1 <= start && start + matched0 <= limit <= |data| && Same(data, s1, start, matched0)
    ensures IsMatchLength(data, s1, start, limit, matched)
  {
    hide Same;
    matched := matched0;
    var s2 := start + matched;
    while s2 < limit && data[s1 + matched] == data[s2]
      invariant s2 == start + matched && s2 <= limit && Same(data, s1, start, matched)
    {
      SameOne(data, s1 + matched, s2);
      SameMore(data, s1, start, matched, 1);
      s2 := s2 + 1;
      matched := matched + 1;
    }
  }

  /** FindMatchLength for 64-bit processors. Nothing at or past `limit`, nor as far past `s1`, is read. */
  method FindMatchLength64(data: seq<byte>, s1: nat, start: nat, limit: nat) returns (matched: nat, short: bool)
    requires s1 <= start <= limit <= |data|
    ensures IsMatchLength(data, s1, start, limit, matched) && short == (matched < 8)
  {
    hide Word64At, Same;
    matched := 0;
    var s2 := start;
    SameNone(data, s1, s2);
    if s2 + 8 <= limit {
      var a1 := Load64(data, s1, s1 + (limit - start));
      var a2 := Load64(data, s2, limit);
      if a1 != a2 {
        var n := MatchingBytes64(data, s1, s2, a1, a2);
        return n, true;
      } else {
        SameWord64At(data, s1, s2);
        matched := 8;
        s2 := s2 + 8;
      }
    }
    while s2 + 8 <= limit
      invariant s2 == start + matched && s2 <= limit && Same(data, s1, start, matched)
      invariant s2 + 8 <= limit ==> matched >= 8
    {
      var a2 := Load64(data, s2, limit);
      var a1 := Load64(data, s1 + matched, s1 + (limit - start));
      if a2 == a1 {
        SameWord64At(data, s1 + matched, s2);
        SameMore(data, s1, start, matched, 8);
        s2 := s2 + 8;
        matched := matched + 8;
      } else {
        var n := MatchingBytes64(data, s1 + matched, s2, a1, a2);
        SameMore(data, s1, start, matched, n);
        assert matched + n >= 8;
        return matched + n, false;
      }
    }
    matched := MatchTail(data, s1, start, limit, matched);
    return matched, matched < 8;
  }

  /** FindMatchLength for other processors. */
  method FindMatchLength32(data: seq<byte>, s1: nat, start: nat, limit: nat) returns (matched: nat, short: bool)
    requires s1 <= start <= limit <= |data|
    ensures IsMatchLength(data, s1, start, limit, matched) && short == (matched < 8)
  {
    hide Word32At, Same;
    matched := 0;
    var s2 := start;
    SameNone(data, s1, s2);
    while s2 + 4 <= limit && Word32At(data, s2) == Word32At(data, s1 + matched)
      invariant s2 == start + matched && s2 <= limit && Same(data, s1, start, matched)
    {
      SameWord32At(data, s1 + matched, s2);
      SameMore(data, s1, start, matched, 4);
      s2 := s2 + 4;
      matched := matched + 4;
    }
    if s2 + 4 <= limit {
      var a2 := Load32(data, s2, limit);
      var a1 := Load32(data, s1 + matched, s1 + (limit - start));
      var n := MatchingBytes32(data, s1 + matched, s2, a1, a2);
      SameMore(data, s1, start, matched, n);
      matched := matched + n;
    } else {
      matched := MatchTail(data, s1, start, limit, matched);
    }
    return matched, matched < 8;
  }
}

/** Wrapping 32-bit arithmetic and the serial comparison of section 3.2 of RFC 1982 (SERIAL_BITS = 32).

    Sequence numbers are handled at a Width: `Bits32` is what the program does, `Unbounded` is the
    same program with sequence numbers that never wrap. */
module Serial {

  const TWO31: int := 0x8000_0000
  const TWO32: int := 0x1_0000_0000

  function U32(x: int): (r: int)
    ensures 0 <= r < TWO32
    ensures 0 <= x < TWO32 ==> r == x
  {
    x % TWO32
  }

  /** The value of a 32-bit word read as a two's complement number. */
  function I32(x: int): (r: int)
    ensures -TWO31 <= r < TWO31
    ensures -TWO31 <= x < TWO31 ==> r == x
  {
    var u := x % TWO32;
    if u < TWO31 then u else u - TWO32
  }

  function TimeDiff(later: int, earlier: int): int {
    I32(later - earlier)
  }

  /** Only the residue of a number matters to a signed 32-bit reading of it. */
  lemma I32Congruent(x: int, k: int)
    ensures I32(x + k * TWO32) == I32(x)
    ensures U32(x + k * TWO32) == U32(x)
  {
  }

  lemma U32Split(x: int) returns (k: int)
    ensures x == U32(x) + k * TWO32
  {
    k := x / TWO32;
  }

  lemma I32Split(x: int) returns (k: int)
    ensures x == I32(x) + k * TWO32
  {
    k := x / TWO32;
    if x - k * TWO32 >= TWO31 {
      k := k + 1;
    }
  }

  /** The wrapped difference of wrapped numbers is the wrapped difference of the numbers themselves. */
  lemma TimeDiffOfWrapped(a: int, b: int)
    ensures TimeDiff(U32(a), U32(b)) == I32(a - b)
  {
    var i := U32Split(a);
    var j := U32Split(b);
    assert U32(a) - U32(b) == (a - b) + (j - i) * TWO32;
    I32Congruent(a - b, j - i);
  }

  datatype Width = Unbounded | Bits32

  function Wrap(w: Width, x: int): int {
    if w.Bits32? then U32(x) else x
  }

  function SnDiff(w: Width, later: int, earlier: int): int {
    if w.Bits32? then TimeDiff(later, earlier) else later - earlier
  }

  /** Numbers less than half the ring apart compare alike at both widths, and equal images are equal numbers. */
  lemma SnDiffWraps(a: int, b: int)
    requires -TWO31 <= a - b < TWO31
    ensures SnDiff(Bits32, U32(a), U32(b)) == SnDiff(Unbounded, a, b)
    ensures U32(a) == U32(b) <==> a == b
  {
    TimeDiffOfWrapped(a, b);
    if U32(a) == U32(b) {
      var i := U32Split(a);
      var j := U32Split(b);
      assert a - b == (i - j) * TWO32;
    }
  }

  lemma WrapAdds(a: int, b: int)
    ensures U32(U32(a) + b) == U32(a + b)
  {
    var i := U32Split(a);
    I32Congruent(U32(a) + b, i);
  }
}

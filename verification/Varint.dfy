/** The variable-length number in front of a compressed stream: seven bits a byte, least significant first. */
module Varint {
  import opened Bytes
  import opened Options
  import opened Serial

  const MAX32: nat := 5

  function Digits(v: nat): (s: seq<byte>)
    ensures s != []
  {
    if v < 128 then [v] else [v % 128 + 128] + Digits(v / 128)
  }

  /** The number at the front of `s` and what follows it, when at most `left` bytes may be read; the last of
      five has room for four bits only. */
  function Read(s: seq<byte>, left: nat): Option<(nat, seq<byte>)>
    decreases left
  {
    if left == 0 || s == [] then None
    else
      var val := s[0] % 128;
      if left == 1 && val >= 16 then None
      else if s[0] < 128 then Some((val, s[1..]))
      else
        match Read(s[1..], left - 1)
        case None => None
        case Some(r) => Some((val + 128 * r.0, r.1))
  }

  /** The numbers `left` bytes can hold. */
  function Bound(left: nat): (b: nat)
    ensures left > 0 ==> b >= 16
  {
    if left == 0 then 0 else if left == 1 then 16 else 128 * Bound(left - 1)
  }

  lemma BoundOfFive()
    ensures Bound(5) == TWO32
  {
    assert Bound(3) == 262144;
  }

  /** Reading undoes writing, whatever follows. */
  lemma {:induction false} ReadOfDigits(v: nat, rest: seq<byte>, left: nat)
    requires v < Bound(left)
    ensures Read(Digits(v) + rest, left) == Some((v, rest)) && |Digits(v)| <= left
    decreases left
  {
    var s := Digits(v) + rest;
    if v < 128 {
      assert s[1..] == rest;
    } else {
      assert s[1..] == Digits(v / 128) + rest;
      ReadOfDigits(v / 128, rest, left - 1);
    }
  }

  /** What is read fits a word. */
  lemma {:induction false} ReadBound(s: seq<byte>, left: nat)
    requires Read(s, left).Some?
    ensures Read(s, left).value.0 < Bound(left) && |Read(s, left).value.1| < |s|
    decreases left
  {
    if s[0] >= 128 {
      ReadBound(s[1..], left - 1);
    }
  }

  lemma ShiftTwice(v: nat)
    ensures v / 0x80 / 0x80 == v / 0x4000
  {
  }

  lemma ShiftThrice(v: nat)
    ensures v / 0x4000 / 0x80 == v / 0x20_0000
  {
  }

  lemma ShiftAgain(v: nat)
    ensures v / 0x20_0000 / 0x80 == v / 0x1000_0000
  {
  }

  lemma DigitsMore(v: nat)
    requires v >= 128
    ensures Digits(v) == [v % 128 + 128] + Digits(v / 128)
  {
  }

  /** Varint::Encode32; the bytes written. */
  method Encode32(v: nat) returns (s: seq<byte>)
    requires v < TWO32
    ensures s == Digits(v)
  {
    ShiftTwice(v);
    ShiftThrice(v);
    ShiftAgain(v);
    if v < 0x80 {
      return [v];
    }
    DigitsMore(v);
    if v < 0x4000 {
      return [v % 128 + 128, v / 0x80];
    }
    DigitsMore(v / 0x80);
    if v < 0x20_0000 {
      return [v % 128 + 128, v / 0x80 % 128 + 128, v / 0x4000];
    }
    DigitsMore(v / 0x4000);
    if v < 0x1000_0000 {
      return [v % 128 + 128, v / 0x80 % 128 + 128, v / 0x4000 % 128 + 128, v / 0x20_0000];
    }
    DigitsMore(v / 0x20_0000);
    return [v % 128 + 128, v / 0x80 % 128 + 128, v / 0x4000 % 128 + 128, v / 0x20_0000 % 128 + 128, v / 0x1000_0000];
  }

  /** Varint::Parse32WithLimit; never looks past the end of `s`. */
  method Parse32(s: seq<byte>) returns (r: Option<(nat, nat)>)
    ensures match Read(s, MAX32)
      case None => r == None
      case Some(v) => r.Some? && r.value.0 == v.0 && r.value.1 <= |s| && s[r.value.1..] == v.1
  {
    if |s| == 0 {
      return None;
    }
    var b: nat := s[0];
    var result: nat := b % 128;
    if b < 128 {
      return Some((result, 1));
    }
    if |s| == 1 {
      return None;
    }
    b := s[1];
    result := result + b % 128 * 0x80;
    if b < 128 {
      return Some((result, 2));
    }
    if |s| == 2 {
      return None;
    }
    b := s[2];
    result := result + b % 128 * 0x4000;
    if b < 128 {
      return Some((result, 3));
    }
    if |s| == 3 {
      return None;
    }
    b := s[3];
    result := result + b % 128 * 0x20_0000;
    if b < 128 {
      return Some((result, 4));
    }
    if |s| == 4 {
      return None;
    }
    b := s[4];
    result := result + b % 128 * 0x1000_0000;
    if b < 16 {
      return Some((result, 5));
    }
    return None;
  }
}

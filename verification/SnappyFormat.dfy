/** The compressed format: a stream of tags, each a literal or a copy of earlier output, and the meaning of a
    stream as the bytes it stands for. The reference against which both directions of the codec are proved. */
module SnappyFormat {
  import opened Bytes
  import opened Options
  import opened Sequences
  import opened Serial

  // ---------------------------------------------------------------- tags

  /** Inputs are compressed, and scattered output is kept, in blocks of this size. */
  const BLOCK_SIZE: nat := 65536

  /** The longest tag; a fast append leaves room for one in the input. */
  const MAX_TAG: nat := 5

  datatype Element = Literal(len: nat) | Copy(offset: nat, len: nat)

  /** How many bytes of the tag follow its first. */
  function TagLength(c: byte): (n: nat)
    ensures n <= 4
  {
    TagBytes(c)
  }

  function TagBytes(c: int): int {
    if c % 4 == 0 then (if c / 4 < 60 then 0 else c / 4 - 59)
    else if c % 4 == 1 then 1
    else if c % 4 == 2 then 2
    else 4
  }

  /** What a tag says, when the bytes after its first hold the number `trailer`. A literal length is a 32-bit
      word, so the longest one wraps to an empty literal. */
  function ElementOf(c: byte, trailer: nat): (e: Element)
    ensures e.Copy? ==> 1 <= e.len <= 64
  {
    if c % 4 == 0 then Literal(if c / 4 < 60 then c / 4 + 1 else U32(trailer + 1))
    else if c % 4 == 1 then Copy(c / 32 * 256 + trailer, c / 4 % 8 + 4)
    else Copy(trailer, c / 4 + 1)
  }

  /** Copying `len` bytes one by one from `offset` back; the copy may run into what it writes. */
  function Repeat(out: seq<byte>, offset: nat, len: nat): (r: seq<byte>)
    requires 1 <= offset <= |out|
    ensures |r| == |out| + len
    decreases len
  {
    if len == 0 then out else Repeat(out + [out[|out| - offset]], offset, len - 1)
  }

  /** The bytes `s` stands for after `out`, if it is a whole number of good tags and the total stays in `limit`. */
  function Decode(s: seq<byte>, out: seq<byte>, limit: int): (r: Option<seq<byte>>)
    decreases |s|
  {
    if s == [] then Some(out)
    else
      var n := TagLength(s[0]);
      if |s| < 1 + n then None
      else
        var rest := s[1 + n..];
        match ElementOf(s[0], FromLE(s[1..1 + n]))
        case Literal(len) =>
          if len > |rest| || |out| + len > limit then None else Decode(rest[len..], out + rest[..len], limit)
        case Copy(offset, len) =>
          if offset == 0 || offset > |out| || |out| + len > limit then None
          else Decode(rest, Repeat(out, offset, len), limit)
  }

  // ---------------------------------------------------------------- copies

  /** A copy is the one continuation in which every new byte equals the byte `offset` before it. */
  lemma {:induction false} RepeatIsPeriodic(out: seq<byte>, offset: nat, len: nat)
    requires 1 <= offset <= |out|
    ensures var r := Repeat(out, offset, len);
      out <= r && forall i :: |out| <= i < |r| ==> r[i] == r[i - offset]
    decreases len
  {
    if len > 0 {
      var more := out + [out[|out| - offset]];
      RepeatIsPeriodic(more, offset, len - 1);
      var r := Repeat(more, offset, len - 1);
      assert r[|out|] == more[|out|] && r[|out| - offset] == more[|out| - offset];
    }
  }

  lemma {:induction false} PeriodicIsRepeat(out: seq<byte>, offset: nat, r: seq<byte>)
    requires 1 <= offset <= |out| <= |r| && out <= r
    requires forall i :: |out| <= i < |r| ==> r[i] == r[i - offset]
    ensures r == Repeat(out, offset, |r| - |out|)
    decreases |r| - |out|
  {
    if |r| > |out| {
      var more := out + [out[|out| - offset]];
      assert r[|out|] == r[|out| - offset] == out[|out| - offset];
      assert more <= r;
      PeriodicIsRepeat(more, offset, r);
    }
  }

  /** Splitting a copy in two changes nothing. */
  lemma {:induction false} RepeatTwice(out: seq<byte>, offset: nat, a: nat, b: nat)
    requires 1 <= offset <= |out|
    ensures Repeat(Repeat(out, offset, a), offset, b) == Repeat(out, offset, a + b)
    decreases a
  {
    if a > 0 {
      RepeatTwice(out + [out[|out| - offset]], offset, a - 1, b);
    }
  }

  lemma RepeatInContext(before: seq<byte>, out: seq<byte>, offset: nat, len: nat)
    requires 1 <= offset <= |out|
    ensures Repeat(before + out, offset, len) == before + Repeat(out, offset, len)
  {
    RepeatIsPeriodic(out, offset, len);
    var r := before + Repeat(out, offset, len);
    assert forall i :: |before + out| <= i < |r| ==> r[i] == r[i - offset];
    PeriodicIsRepeat(before + out, offset, r);
  }

  // ---------------------------------------------------------------- the described format

  /** What the format description says of a tag: a literal length of up to 2^32, which does not wrap. */
  function DescribedElement(c: byte, trailer: nat): Element {
    if c % 4 == 0 && c / 4 >= 60 then Literal(trailer + 1) else ElementOf(c, trailer)
  }

  /** The tags on which decoder and description differ. */
  predicate Wraps(c: byte, trailer: nat) {
    c % 4 == 0 && c / 4 >= 60 && trailer == TWO32 - 1
  }

  /** They differ on the longest literal length, which the decoder takes for an empty literal, and on no other. */
  lemma ElementsDiffer(c: byte, trailer: nat)
    requires trailer < TWO32
    ensures ElementOf(c, trailer) == DescribedElement(c, trailer) <==> !Wraps(c, trailer)
    ensures Wraps(c, trailer) ==> ElementOf(c, trailer) == Literal(0) && DescribedElement(c, trailer) == Literal(TWO32)
  {
  }

  /** The meaning of a stream by the format description. */
  function Described(s: seq<byte>, out: seq<byte>, limit: int): Option<seq<byte>>
    decreases |s|
  {
    if s == [] then Some(out)
    else
      var n := TagLength(s[0]);
      if |s| < 1 + n then None
      else
        var rest := s[1 + n..];
        match DescribedElement(s[0], FromLE(s[1..1 + n]))
        case Literal(len) =>
          if len > |rest| || |out| + len > limit then None else Described(rest[len..], out + rest[..len], limit)
        case Copy(offset, len) =>
          if offset == 0 || offset > |out| || |out| + len > limit then None
          else Described(rest, Repeat(out, offset, len), limit)
  }

  /** The decoder reaches a tag that wraps. */
  predicate MeetsWrap(s: seq<byte>, out: seq<byte>, limit: int)
    decreases |s|
  {
    s != [] &&
    var n := TagLength(s[0]);
    n < |s| &&
    var rest, trailer := s[1 + n..], FromLE(s[1..1 + n]);
    Wraps(s[0], trailer) ||
    match ElementOf(s[0], trailer)
    case Literal(len) => len <= |rest| && |out| + len <= limit && MeetsWrap(rest[len..], out + rest[..len], limit)
    case Copy(offset, len) =>
      1 <= offset <= |out| && |out| + len <= limit && MeetsWrap(rest, Repeat(out, offset, len), limit)
  }

  /** For any output shorter than 2^32, as every announced length is, a stream means what the decoder makes of it,
      unless the decoder meets a tag that wraps: then it means nothing, though the decoder may accept it. */
  lemma {:induction false} DecodeIsDescribed(s: seq<byte>, out: seq<byte>, limit: int)
    requires limit < TWO32
    ensures Described(s, out, limit) == if MeetsWrap(s, out, limit) then None else Decode(s, out, limit)
    decreases |s|
  {
    hide FromLE, TagLength, Repeat;
    if s != [] && |s| >= 1 + TagLength(s[0]) {
      var n := TagLength(s[0]);
      var rest, trailer := s[1 + n..], FromLE(s[1..1 + n]);
      FromLEFits(s[1..1 + n]);
      ElementsDiffer(s[0], trailer);
      if !Wraps(s[0], trailer) {
        match ElementOf(s[0], trailer)
        case Literal(len) =>
          if len <= |rest| && |out| + len <= limit {
            DecodeIsDescribed(rest[len..], out + rest[..len], limit);
          }
        case Copy(offset, len) =>
          if 1 <= offset <= |out| && |out| + len <= limit {
            DecodeIsDescribed(rest, Repeat(out, offset, len), limit);
          }
      }
    }
  }

  /** A stream on which they differ: five bytes that announce a literal of 2^32, and hold nothing of it. */
  lemma WrapIsAccepted()
    ensures ElementOf(252, 0xffff_ffff) == Literal(0) && DescribedElement(252, 0xffff_ffff) == Literal(TWO32)
    ensures var s := [252, 255, 255, 255, 255]; Decode(s, [], 0) == Some([]) && Described(s, [], 0) == None
  {
    var s: seq<byte> := [252, 255, 255, 255, 255];
    assert s[1..5] == [255, 255, 255, 255];
    assert FromLE([255, 255]) == 0xffff by {
      assert FromLE([255]) == 255;
    }
    assert FromLE([255, 255, 255]) == 0xff_ffff;
    assert FromLE([255, 255, 255, 255]) == 0xffff_ffff;
    var rest := s[5..];
    assert TagLength(252) == 4 && rest == [] && rest[0..] == [] && [] + rest[..0] == [];
    assert Decode(s, [], 0) == Decode(rest[0..], [] + rest[..0], 0);
  }

  // ---------------------------------------------------------------- streams

  /** One tag and what it takes, at the front of a longer stream. */
  lemma DescribedLiteral(tag: seq<byte>, data: seq<byte>, rest: seq<byte>, out: seq<byte>, limit: int)
    requires tag != [] && |tag| == 1 + TagLength(tag[0]) && |out| + |data| <= limit
    requires DescribedElement(tag[0], FromLE(tag[1..])) == Literal(|data|)
    ensures Described(tag + data + rest, out, limit) == Described(rest, out + data, limit)
  {
    var s := tag + data + rest;
    assert s[1..1 + TagLength(s[0])] == tag[1..];
    assert s[|tag|..] == data + rest;
    assert (data + rest)[..|data|] == data && (data + rest)[|data|..] == rest;
  }

  lemma DescribedCopy(tag: seq<byte>, offset: nat, len: nat, rest: seq<byte>, out: seq<byte>, limit: int)
    requires tag != [] && |tag| == 1 + TagLength(tag[0]) && |out| + len <= limit && 1 <= offset <= |out|
    requires DescribedElement(tag[0], FromLE(tag[1..])) == Copy(offset, len)
    ensures Described(tag + rest, out, limit) == Described(rest, Repeat(out, offset, len), limit)
  {
    var s := tag + rest;
    assert s[1..1 + TagLength(s[0])] == tag[1..];
    assert s[|tag|..] == rest;
  }

  /** A stream that decodes can be followed by another. */
  lemma {:induction false} DescribedConcat(a: seq<byte>, b: seq<byte>, out: seq<byte>, limit: int)
    requires Described(a, out, limit).Some?
    ensures Described(a + b, out, limit) == Described(b, Described(a, out, limit).value, limit)
    decreases |a|
  {
    hide FromLE, DescribedElement, TagLength, Repeat;
    if a == [] {
      assert a + b == b;
    } else {
      var n := TagLength(a[0]);
      var rest := a[1 + n..];
      assert (a + b)[1..1 + n] == a[1..1 + n] && (a + b)[1 + n..] == rest + b;
      match DescribedElement(a[0], FromLE(a[1..1 + n]))
      case Literal(len) =>
        assert (rest + b)[..len] == rest[..len] && (rest + b)[len..] == rest[len..] + b;
        DescribedConcat(rest[len..], b, out + rest[..len], limit);
      case Copy(offset, len) =>
        DescribedConcat(rest, b, Repeat(out, offset, len), limit);
    }
  }

  /** What decodes on its own decodes to the same bytes after any others, and under any larger limit. */
  lemma {:induction false} DescribedInContext(a: seq<byte>, before: seq<byte>, out: seq<byte>, limit: int, limit': int)
    requires Described(a, out, limit).Some? && |before| + limit <= limit'
    ensures Described(a, before + out, limit') == Some(before + Described(a, out, limit).value)
    decreases |a|
  {
    hide FromLE, DescribedElement, TagLength, Repeat;
    if a != [] {
      var n := TagLength(a[0]);
      var rest := a[1 + n..];
      match DescribedElement(a[0], FromLE(a[1..1 + n]))
      case Literal(len) =>
        DescribedInContext(rest[len..], before, out + rest[..len], limit, limit');
        ConcatAssoc(before, out, rest[..len]);
      case Copy(offset, len) =>
        RepeatInContext(before, out, offset, len);
        DescribedInContext(rest, before, Repeat(out, offset, len), limit, limit');
    }
  }

  // ---------------------------------------------------------------- the table

  /** For each first byte, in rows of sixteen: the length in the low byte, then the high bits of a short offset,
      then how many bytes follow. */
  const CHAR_TABLE: seq<seq<nat>> := [
    [0x0001, 0x0804, 0x1001, 0x2001, 0x0002, 0x0805, 0x1002, 0x2002,
     0x0003, 0x0806, 0x1003, 0x2003, 0x0004, 0x0807, 0x1004, 0x2004],
    [0x0005, 0x0808, 0x1005, 0x2005, 0x0006, 0x0809, 0x1006, 0x2006,
     0x0007, 0x080a, 0x1007, 0x2007, 0x0008, 0x080b, 0x1008, 0x2008],
    [0x0009, 0x0904, 0x1009, 0x2009, 0x000a, 0x0905, 0x100a, 0x200a,
     0x000b, 0x0906, 0x100b, 0x200b, 0x000c, 0x0907, 0x100c, 0x200c],
    [0x000d, 0x0908, 0x100d, 0x200d, 0x000e, 0x0909, 0x100e, 0x200e,
     0x000f, 0x090a, 0x100f, 0x200f, 0x0010, 0x090b, 0x1010, 0x2010],
    [0x0011, 0x0a04, 0x1011, 0x2011, 0x0012, 0x0a05, 0x1012, 0x2012,
     0x0013, 0x0a06, 0x1013, 0x2013, 0x0014, 0x0a07, 0x1014, 0x2014],
    [0x0015, 0x0a08, 0x1015, 0x2015, 0x0016, 0x0a09, 0x1016, 0x2016,
     0x0017, 0x0a0a, 0x1017, 0x2017, 0x0018, 0x0a0b, 0x1018, 0x2018],
    [0x0019, 0x0b04, 0x1019, 0x2019, 0x001a, 0x0b05, 0x101a, 0x201a,
     0x001b, 0x0b06, 0x101b, 0x201b, 0x001c, 0x0b07, 0x101c, 0x201c],
    [0x001d, 0x0b08, 0x101d, 0x201d, 0x001e, 0x0b09, 0x101e, 0x201e,
     0x001f, 0x0b0a, 0x101f, 0x201f, 0x0020, 0x0b0b, 0x1020, 0x2020],
    [0x0021, 0x0c04, 0x1021, 0x2021, 0x0022, 0x0c05, 0x1022, 0x2022,
     0x0023, 0x0c06, 0x1023, 0x2023, 0x0024, 0x0c07, 0x1024, 0x2024],
    [0x0025, 0x0c08, 0x1025, 0x2025, 0x0026, 0x0c09, 0x1026, 0x2026,
     0x0027, 0x0c0a, 0x1027, 0x2027, 0x0028, 0x0c0b, 0x1028, 0x2028],
    [0x0029, 0x0d04, 0x1029, 0x2029, 0x002a, 0x0d05, 0x102a, 0x202a,
     0x002b, 0x0d06, 0x102b, 0x202b, 0x002c, 0x0d07, 0x102c, 0x202c],
    [0x002d, 0x0d08, 0x102d, 0x202d, 0x002e, 0x0d09, 0x102e, 0x202e,
     0x002f, 0x0d0a, 0x102f, 0x202f, 0x0030, 0x0d0b, 0x1030, 0x2030],
    [0x0031, 0x0e04, 0x1031, 0x2031, 0x0032, 0x0e05, 0x1032, 0x2032,
     0x0033, 0x0e06, 0x1033, 0x2033, 0x0034, 0x0e07, 0x1034, 0x2034],
    [0x0035, 0x0e08, 0x1035, 0x2035, 0x0036, 0x0e09, 0x1036, 0x2036,
     0x0037, 0x0e0a, 0x1037, 0x2037, 0x0038, 0x0e0b, 0x1038, 0x2038],
    [0x0039, 0x0f04, 0x1039, 0x2039, 0x003a, 0x0f05, 0x103a, 0x203a,
     0x003b, 0x0f06, 0x103b, 0x203b, 0x003c, 0x0f07, 0x103c, 0x203c],
    [0x0801, 0x0f08, 0x103d, 0x203d, 0x1001, 0x0f09, 0x103e, 0x203e,
     0x1801, 0x0f0a, 0x103f, 0x203f, 0x2001, 0x0f0b, 0x1040, 0x2040]
  ]

  /** A table entry in terms of the format; for literals with length bytes the length field is 1. */
  function Entry(c: int): int {
    TagBytes(c) * 2048
    + (if c % 4 == 0 then (if c / 4 < 60 then c / 4 + 1 else 1)
       else if c % 4 == 1 then c / 32 * 256 + c / 4 % 8 + 4
       else c / 4 + 1)
  }

  predicate RowAgrees(row: seq<nat>, c: int) {
    && |row| == 16
    && row[0] == Entry(c) && row[1] == Entry(c + 1) && row[2] == Entry(c + 2) && row[3] == Entry(c + 3)
    && row[4] == Entry(c + 4) && row[5] == Entry(c + 5) && row[6] == Entry(c + 6) && row[7] == Entry(c + 7)
    && row[8] == Entry(c + 8) && row[9] == Entry(c + 9) && row[10] == Entry(c + 10) && row[11] == Entry(c + 11)
    && row[12] == Entry(c + 12) && row[13] == Entry(c + 13) && row[14] == Entry(c + 14) && row[15] == Entry(c + 15)
  }

  lemma Rows0To1()
    ensures |CHAR_TABLE| == 16 && forall r :: 0 <= r <= 1 ==> RowAgrees(CHAR_TABLE[r], 16 * r)
  {
    assert RowAgrees(CHAR_TABLE[0], 0);
    assert RowAgrees(CHAR_TABLE[1], 16);
  }

  lemma Rows2To3()
    ensures |CHAR_TABLE| == 16 && forall r :: 2 <= r <= 3 ==> RowAgrees(CHAR_TABLE[r], 16 * r)
  {
    assert RowAgrees(CHAR_TABLE[2], 32);
    assert RowAgrees(CHAR_TABLE[3], 48);
  }

  lemma Rows4To5()
    ensures |CHAR_TABLE| == 16 && forall r :: 4 <= r <= 5 ==> RowAgrees(CHAR_TABLE[r], 16 * r)
  {
    assert RowAgrees(CHAR_TABLE[4], 64);
    assert RowAgrees(CHAR_TABLE[5], 80);
  }

  lemma Rows6To7()
    ensures |CHAR_TABLE| == 16 && forall r :: 6 <= r <= 7 ==> RowAgrees(CHAR_TABLE[r], 16 * r)
  {
    assert RowAgrees(CHAR_TABLE[6], 96);
    assert RowAgrees(CHAR_TABLE[7], 112);
  }

  lemma Rows8To9()
    ensures |CHAR_TABLE| == 16 && forall r :: 8 <= r <= 9 ==> RowAgrees(CHAR_TABLE[r], 16 * r)
  {
    assert RowAgrees(CHAR_TABLE[8], 128);
    assert RowAgrees(CHAR_TABLE[9], 144);
  }

  lemma Rows10To11()
    ensures |CHAR_TABLE| == 16 && forall r :: 10 <= r <= 11 ==> RowAgrees(CHAR_TABLE[r], 16 * r)
  {
    assert RowAgrees(CHAR_TABLE[10], 160);
    assert RowAgrees(CHAR_TABLE[11], 176);
  }

  lemma Rows12To13()
    ensures |CHAR_TABLE| == 16 && forall r :: 12 <= r <= 13 ==> RowAgrees(CHAR_TABLE[r], 16 * r)
  {
    assert RowAgrees(CHAR_TABLE[12], 192);
    assert RowAgrees(CHAR_TABLE[13], 208);
  }

  lemma Rows14To15()
    ensures |CHAR_TABLE| == 16 && forall r :: 14 <= r <= 15 ==> RowAgrees(CHAR_TABLE[r], 16 * r)
  {
    assert RowAgrees(CHAR_TABLE[14], 224);
    assert RowAgrees(CHAR_TABLE[15], 240);
  }

  lemma AllRows(r: int)
    requires 0 <= r < 16
    ensures |CHAR_TABLE| == 16 && RowAgrees(CHAR_TABLE[r], 16 * r)
  {
    hide CHAR_TABLE, RowAgrees;
    Rows0To1();
    Rows2To3();
    Rows4To5();
    Rows6To7();
    Rows8To9();
    Rows10To11();
    Rows12To13();
    Rows14To15();
  }

  /** char_table[c]. */
  function CharTable(c: byte): (e: nat)
    ensures e == Entry(c)
  {
    hide CHAR_TABLE, Entry;
    AllRows(c / 16);
    CHAR_TABLE[c / 16][c % 16]
  }

  lemma FieldsApart(e: nat, extra: nat, high: nat, len: nat)
    requires e == extra * 2048 + high * 256 + len && high < 8 && len < 256
    ensures e / 2048 == extra && e / 256 % 8 == high && e % 256 == len
  {
  }

  /** The three fields of an entry are the parts of the tag the decoder needs. */
  lemma EntryFields(c: byte, trailer: nat)
    ensures CharTable(c) / 2048 == TagLength(c)
    ensures c % 4 != 0 ==>
      ElementOf(c, trailer) == Copy(CharTable(c) / 256 % 8 * 256 + trailer, CharTable(c) % 256)
  {
    hide CharTable;
    var high := if c % 4 == 1 then c / 32 else 0;
    var len := if c % 4 == 0 then (if c / 4 < 60 then c / 4 + 1 else 1)
               else if c % 4 == 1 then c / 4 % 8 + 4
               else c / 4 + 1;
    FieldsApart(CharTable(c), TagLength(c), high, len);
  }
}

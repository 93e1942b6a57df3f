/** The nibble swap of the stream codec: eight and four bytes at a time, and byte by byte. */
module NibbleCodec {
  import opened Bytes
  import opened Memory
  import opened Sequences
  import opened Words

  // ---------------------------------------------------------------- one byte

  function SwapBits(v: bv8): bv8 {
    (v << 4) | (v >> 4)
  }

  /** A byte with its two halves exchanged. */
  function Swap(b: byte): byte {
    FromBits(SwapBits(ToBits(b)))
  }

  lemma SwapTwice(b: byte)
    ensures Swap(Swap(b)) == b
  {
    FromToBits(b);
    ToFromBits(SwapBits(ToBits(b)));
    assert SwapBits(SwapBits(ToBits(b))) == ToBits(b);
  }

  // ---------------------------------------------------------------- words

  function Swap64(w: bv64): bv64 {
    ((w & 0xf0f0f0f0f0f0f0f0) >> 4) | ((w & 0x0f0f0f0f0f0f0f0f) << 4)
  }

  lemma Swap64IsBytewise(b0: bv8, b1: bv8, b2: bv8, b3: bv8, b4: bv8, b5: bv8, b6: bv8, b7: bv8)
    ensures var w := Swap64(Word64(b0, b1, b2, b3, b4, b5, b6, b7));
      && Low64(w) == SwapBits(b0) && Low64(w >> 8) == SwapBits(b1)
      && Low64(w >> 16) == SwapBits(b2) && Low64(w >> 24) == SwapBits(b3)
      && Low64(w >> 32) == SwapBits(b4) && Low64(w >> 40) == SwapBits(b5)
      && Low64(w >> 48) == SwapBits(b6) && Low64(w >> 56) == SwapBits(b7)
  {
  }

  function Swap32(w: bv32): bv32 {
    ((w & 0xf0f0f0f0) >> 4) | ((w & 0x0f0f0f0f) << 4)
  }

  lemma Swap32IsBytewise(b0: bv8, b1: bv8, b2: bv8, b3: bv8)
    ensures var w := Swap32(Word32(b0, b1, b2, b3));
      && Low32(w) == SwapBits(b0) && Low32(w >> 8) == SwapBits(b1)
      && Low32(w >> 16) == SwapBits(b2) && Low32(w >> 24) == SwapBits(b3)
  {
  }

  // ---------------------------------------------------------------- buffers

  function SwapAll(s: seq<byte>): (r: seq<byte>)
    ensures |r| == |s| && forall i :: 0 <= i < |s| ==> r[i] == Swap(s[i])
  {
    seq(|s|, i requires 0 <= i < |s| => Swap(s[i]))
  }

  /** Eight bytes as one little-endian word, its nibbles swapped, and the bytes of the result. */
  method SwapWord64(b0: bv8, b1: bv8, b2: bv8, b3: bv8, b4: bv8, b5: bv8, b6: bv8, b7: bv8)
    returns (r0: bv8, r1: bv8, r2: bv8, r3: bv8, r4: bv8, r5: bv8, r6: bv8, r7: bv8)
    ensures r0 == SwapBits(b0) && r1 == SwapBits(b1) && r2 == SwapBits(b2) && r3 == SwapBits(b3)
    ensures r4 == SwapBits(b4) && r5 == SwapBits(b5) && r6 == SwapBits(b6) && r7 == SwapBits(b7)
  {
    var w := Swap64(Word64(b0, b1, b2, b3, b4, b5, b6, b7));
    Swap64IsBytewise(b0, b1, b2, b3, b4, b5, b6, b7);
    r0, r1, r2, r3 := Low64(w), Low64(w >> 8), Low64(w >> 16), Low64(w >> 24);
    r4, r5, r6, r7 := Low64(w >> 32), Low64(w >> 40), Low64(w >> 48), Low64(w >> 56);
  }

  method SwapWord32(b0: bv8, b1: bv8, b2: bv8, b3: bv8) returns (r0: bv8, r1: bv8, r2: bv8, r3: bv8)
    ensures r0 == SwapBits(b0) && r1 == SwapBits(b1) && r2 == SwapBits(b2) && r3 == SwapBits(b3)
  {
    var w := Swap32(Word32(b0, b1, b2, b3));
    Swap32IsBytewise(b0, b1, b2, b3);
    r0, r1, r2, r3 := Low32(w), Low32(w >> 8), Low32(w >> 16), Low32(w >> 24);
  }

  method SwapEight(s: seq<byte>) returns (r: seq<byte>)
    requires |s| == 8
    ensures r == SwapAll(s)
  {
    hide ToBits, FromBits, SwapBits;
    var r0, r1, r2, r3, r4, r5, r6, r7 :=
      SwapWord64(ToBits(s[0]), ToBits(s[1]), ToBits(s[2]), ToBits(s[3]),
                 ToBits(s[4]), ToBits(s[5]), ToBits(s[6]), ToBits(s[7]));
    r := [FromBits(r0), FromBits(r1), FromBits(r2), FromBits(r3),
          FromBits(r4), FromBits(r5), FromBits(r6), FromBits(r7)];
  }

  method SwapFour(s: seq<byte>) returns (r: seq<byte>)
    requires |s| == 4
    ensures r == SwapAll(s)
  {
    hide ToBits, FromBits, SwapBits;
    var r0, r1, r2, r3 := SwapWord32(ToBits(s[0]), ToBits(s[1]), ToBits(s[2]), ToBits(s[3]));
    r := [FromBits(r0), FromBits(r1), FromBits(r2), FromBits(r3)];
  }

  /** fast_codec::encode on the first `size` bytes: words first, single bytes last. Decoding is the same. */
  method Encode(buffer: array<byte>, size: nat)
    requires size <= buffer.Length
    modifies buffer
    ensures buffer[..size] == SwapAll(old(buffer[..size])) && buffer[size..] == old(buffer[size..])
  {
    hide Swap;
    var i := 0;
    while i + 8 < size
      invariant 0 <= i <= size
      invariant forall j :: 0 <= j < buffer.Length ==>
        buffer[j] == if j < i then Swap(old(buffer[j])) else old(buffer[j])
    {
      var swapped := SwapEight(buffer[i..i + 8]);
      Store(buffer, i, swapped);
      i := i + 8;
    }
    while i + 4 < size
      invariant 0 <= i <= size
      invariant forall j :: 0 <= j < buffer.Length ==>
        buffer[j] == if j < i then Swap(old(buffer[j])) else old(buffer[j])
    {
      var swapped := SwapFour(buffer[i..i + 4]);
      Store(buffer, i, swapped);
      i := i + 4;
    }
    while i < size
      invariant 0 <= i <= size
      invariant forall j :: 0 <= j < buffer.Length ==>
        buffer[j] == if j < i then Swap(old(buffer[j])) else old(buffer[j])
    {
      buffer[i] := SwapByte(buffer[i]);
      i := i + 1;
    }
  }

  method SwapByte(b: byte) returns (r: byte)
    ensures r == Swap(b)
  {
    var ch := ToBits(b);
    ch := (ch << 4) | (ch >> 4);
    r := FromBits(ch);
  }

  // ---------------------------------------------------------------- streams

  function SwapEach(chunks: seq<seq<byte>>): (r: seq<seq<byte>>)
    ensures |r| == |chunks| && forall i :: 0 <= i < |r| ==> r[i] == SwapAll(chunks[i])
  {
    seq(|chunks|, i requires 0 <= i < |chunks| => SwapAll(chunks[i]))
  }

  /** Coding chunk by chunk is coding the stream: where it is cut does not matter. */
  lemma {:induction false} SwapOfFlattened(chunks: seq<seq<byte>>)
    ensures Flatten(SwapEach(chunks)) == SwapAll(Flatten(chunks))
  {
    if chunks != [] {
      var rest := chunks[1..];
      SwapOfFlattened(rest);
      assert SwapEach(chunks)[1..] == SwapEach(rest);
      assert SwapAll(chunks[0] + Flatten(rest)) == SwapAll(chunks[0]) + SwapAll(Flatten(rest));
    }
  }

  lemma SwapAllTwice(s: seq<byte>)
    ensures SwapAll(SwapAll(s)) == s
  {
    forall i | 0 <= i < |s| ensures SwapAll(SwapAll(s))[i] == s[i] {
      SwapTwice(s[i]);
    }
  }

  /** A stream coded in one set of chunks and decoded in another comes back. */
  lemma DecodeUndoesEncode(sent: seq<seq<byte>>, received: seq<seq<byte>>)
    requires Flatten(received) <= Flatten(SwapEach(sent))
    ensures Flatten(SwapEach(received)) <= Flatten(sent)
  {
    var plain, coded, got := Flatten(sent), Flatten(SwapEach(sent)), Flatten(received);
    SwapOfFlattened(sent);
    SwapOfFlattened(received);
    forall i | 0 <= i < |got| ensures Swap(got[i]) == plain[i] {
      assert got[i] == coded[i];
      SwapTwice(plain[i]);
    }
  }
}

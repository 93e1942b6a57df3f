/** The decompressor: tags stitched together from whatever chunks the source hands out, and a writer fed with them. */
module Decompressor {
  import opened Bytes
  import opened Memory
  import opened Options
  import opened Sequences
  import opened Serial
  import opened SnappyFormat
  import opened Writers
  import opened Source
  import Varint

  // ---------------------------------------------------------------- low bytes

  /** The low `n` bytes of a word. */
  function ExtractLowBytes(v: nat, n: nat): nat {
    if n == 0 then 0 else v % 256 + 256 * ExtractLowBytes(v / 256, n - 1)
  }

  /** However many bytes are loaded, only the low ones matter. */
  lemma {:induction false} LowBytesOf(s: seq<byte>, n: nat)
    requires n <= |s|
    ensures ExtractLowBytes(FromLE(s), n) == FromLE(s[..n])
  {
    if n > 0 {
      FirstAndRest(s[0], FromLE(s[1..]));
      LowBytesOf(s[1..], n - 1);
      assert s[1..][..n - 1] == s[..n][1..];
    }
  }

  lemma FirstAndRest(low: byte, high: nat)
    ensures (low + 256 * high) % 256 == low && (low + 256 * high) / 256 == high
  {
  }

  // ---------------------------------------------------------------- one tag

  lemma DecodeTag(s: seq<byte>, out: seq<byte>, limit: int)
    requires s != []
    ensures |s| < 1 + TagLength(s[0]) ==> Decode(s, out, limit) == None
    ensures |s| >= 1 + TagLength(s[0]) ==>
      var n := TagLength(s[0]); var rest := s[1 + n..];
      Decode(s, out, limit) ==
      match ElementOf(s[0], FromLE(s[1..1 + n]))
      case Literal(len) =>
        if len > |rest| || |out| + len > limit then None else Decode(rest[len..], out + rest[..len], limit)
      case Copy(offset, len) =>
        if offset == 0 || offset > |out| || |out| + len > limit then None
        else Decode(rest, Repeat(out, offset, len), limit)
  {
  }

  /** The same, in terms of what follows the first byte of the tag. */
  lemma DecodeElement(s: seq<byte>, out: seq<byte>, limit: int)
    requires s != [] && |s| >= 1 + TagLength(s[0])
    ensures var n, rest := TagLength(s[0]), s[1..];
      var e := ElementOf(s[0], FromLE(rest[..n]));
      && (e.Literal? <==> s[0] % 4 == 0)
      && Decode(s, out, limit) ==
         if e.Literal? then
           if n + e.len > |rest| || |out| + e.len > limit then None
           else Decode(rest[n + e.len..], out + rest[n..n + e.len], limit)
         else
           if e.offset == 0 || e.offset > |out| || |out| + e.len > limit then None
           else Decode(rest[n..], Repeat(out, e.offset, e.len), limit)
  {
    hide Decode, FromLE, Repeat;
    var n, rest := TagLength(s[0]), s[1..];
    DecodeTag(s, out, limit);
    assert rest[..n] == s[1..1 + n] && rest[n..] == s[1 + n..];
    var e := ElementOf(s[0], FromLE(rest[..n]));
    if e.Literal? && n + e.len <= |rest| {
      assert rest[n..][..e.len] == rest[n..n + e.len] && rest[n..][e.len..] == rest[n + e.len..];
    }
  }

  class Decompressor {
    const reader: Source
    const scratch: array<byte>
    var buf: seq<byte>
    var ip: nat
    var ipLimit: nat
    var peeked: nat
    var eof: bool

    /** `buf` is what the input pointer points into: the chunk peeked last, or the scratch bytes. */
    ghost predicate Valid()
      reads this, reader
    {
      && reader.Valid() && scratch.Length == MAX_TAG
      && ip <= ipLimit <= |buf|
      && (peeked == 0 || (reader.chunks != [] && peeked == |reader.chunks[0]|))
    }

    lemma PeekedFits()
      requires Valid()
      ensures peeked <= |reader.Rest()|
    {
    }

    /** All input still to come. */
    ghost function Rest(): seq<byte>
      requires Valid()
      reads this, reader
    {
      PeekedFits();
      buf[ip..ipLimit] + reader.Rest()[peeked..]
    }

    /** A whole tag is at hand, and five bytes can be read from where it starts. */
    ghost predicate Ready()
      reads this
    {
      ip < ipLimit <= |buf| && ip + 1 + TagLength(buf[ip]) <= ipLimit && ip + MAX_TAG <= |buf|
    }

    ghost function Repr(): set<object> {
      {this, reader, scratch}
    }

    constructor (reader: Source)
      requires reader.Valid()
      ensures Valid() && Rest() == reader.Rest() && !eof && this.reader == reader && fresh(scratch)
      ensures buf == [] && peeked == 0
    {
      this.reader := reader;
      scratch := new byte[MAX_TAG];
      buf, ip, ipLimit, peeked, eof := [], 0, 0, 0, false;
    }

    /** Points at the next chunk, once the bytes at hand are used up. */
    method Fetch()
      requires Valid() && ip == ipLimit
      modifies this`buf, this`ip, this`ipLimit, this`peeked, reader
      ensures Valid() && Rest() == old(Rest()) && ip == 0 && ipLimit == |buf| == peeked
      ensures buf == [] <==> Rest() == []
    {
      reader.Skip(peeked);
      var chunk := reader.Peek();
      PrefixAndRest(chunk, reader.Rest());
      buf, ip, ipLimit, peeked := chunk, 0, |chunk|, |chunk|;
    }

    static lemma PrefixAndRest(chunk: seq<byte>, rest: seq<byte>)
      requires chunk <= rest
      ensures chunk[0..|chunk|] + rest[|chunk|..] == rest
    {
    }

    /** Adds to the `nbuf` scratch bytes what the next chunk has of those still needed. */
    method Draw(nbuf: nat, needed: nat) returns (n: nat)
      requires reader.Valid() && nbuf < needed <= MAX_TAG == scratch.Length
      modifies reader, scratch
      ensures reader.Valid() && nbuf + n <= needed
      ensures n == 0 <==> old(reader.Rest()) == []
      ensures scratch[..nbuf + n] + reader.Rest() == old(scratch[..nbuf] + reader.Rest())
    {
      var src := reader.Peek();
      ghost var rest, was := reader.Rest(), scratch[..nbuf];
      n := if needed - nbuf < |src| then needed - nbuf else |src|;
      assert src[..n] == rest[..n];
      Store(scratch, nbuf, src[..n]);
      reader.Skip(n);
      assert scratch[..nbuf + n] == was + rest[..n];
      ConcatAssoc(was, rest[..n], rest[n..]);
      assert rest[..n] + rest[n..] == rest;
    }

    /** Draws until `needed` bytes are there. */
    method Fill(nbuf0: nat, needed: nat) returns (ok: bool)
      requires reader.Valid() && nbuf0 <= needed <= MAX_TAG == scratch.Length
      modifies reader, scratch
      ensures ok <==> needed - nbuf0 <= |old(reader.Rest())|
      ensures ok ==> reader.Valid() && scratch[..needed] + reader.Rest() == old(scratch[..nbuf0] + reader.Rest())
    {
      hide Flatten;
      var nbuf := nbuf0;
      ghost var all := scratch[..nbuf] + reader.Rest();
      while nbuf < needed
        invariant reader.Valid() && nbuf0 <= nbuf <= needed && scratch[..nbuf] + reader.Rest() == all
      {
        var n := Draw(nbuf, needed);
        if n == 0 {
          return false;
        }
        nbuf := nbuf + n;
      }
      return true;
    }

    /** Stitches a tag together in the scratch bytes, from the few at hand and the chunks that follow. */
    method Stitch(needed: nat) returns (ok: bool)
      requires Valid() && ipLimit - ip < needed <= MAX_TAG
      modifies this`buf, this`ip, this`ipLimit, this`peeked, reader, scratch
      ensures ok <==> needed <= |old(Rest())|
      ensures ok ==> Valid() && Rest() == old(Rest()) && ip == 0 && ipLimit == needed && |buf| == MAX_TAG
    {
      var nbuf := ipLimit - ip;
      ghost var tail := buf[ip..ipLimit];
      Store(scratch, 0, buf[ip..ipLimit]);
      assert scratch[..nbuf] == tail;
      reader.Skip(peeked);
      peeked := 0;
      ok := Fill(nbuf, needed);
      if ok {
        buf, ip, ipLimit := scratch[..], 0, needed;
        assert buf[..needed] == scratch[..needed];
      }
    }

    /** Keeps a short tail of the input in the scratch bytes, so that a word can be read from anywhere in it. */
    method KeepTail()
      requires Valid() && ipLimit - ip < MAX_TAG
      modifies this`buf, this`ip, this`ipLimit, this`peeked, reader, scratch
      ensures Valid() && Rest() == old(Rest()) && ip == 0 && ipLimit == old(ipLimit - ip) && |buf| == MAX_TAG
    {
      var nbuf := ipLimit - ip;
      ghost var tail := buf[ip..ipLimit];
      Store(scratch, 0, buf[ip..ipLimit]);
      reader.Skip(peeked);
      peeked := 0;
      buf, ip, ipLimit := scratch[..], 0, nbuf;
      assert buf[..nbuf] == tail;
    }

    /** RefillTag: false at the end of the input, with `eof` set, and inside a truncated tag, without. */
    method RefillTag() returns (ok: bool)
      requires Valid() && !eof
      modifies this, reader, scratch
      ensures ok <==> old(Rest()) != [] && 1 + TagLength(old(Rest())[0]) <= |old(Rest())|
      ensures ok ==> Valid() && Rest() == old(Rest()) && Ready()
      ensures eof <==> old(Rest()) == []
    {
      if ip == ipLimit {
        Fetch();
        eof := |buf| == 0;
        if eof {
          return false;
        }
      }
      var c := buf[ip];
      assert Rest()[0] == c;
      EntryFields(c, 0);
      var needed := CharTable(c) / 2048 + 1;
      var nbuf := ipLimit - ip;
      if nbuf < needed {
        ok := Stitch(needed);
        if ok {
          assert Rest()[0] == buf[0];
        }
      } else {
        if nbuf < MAX_TAG {
          KeepTail();
          assert Rest()[0] == buf[0];
        }
        ok := true;
      }
    }

    method MaybeRefill() returns (ok: bool)
      requires Valid() && !eof
      modifies this, reader, scratch
      ensures ok <==> old(Rest()) != [] && 1 + TagLength(old(Rest())[0]) <= |old(Rest())|
      ensures ok ==> Valid() && Rest() == old(Rest()) && Ready()
      ensures eof <==> old(Rest()) == []
    {
      if ipLimit - ip < MAX_TAG {
        ok := RefillTag();
      } else {
        assert Rest()[0] == buf[ip];
        ok := true;
      }
    }

    // ------------------------------------------------------------- literals

    /** The input and the writer share nothing. */
    ghost predicate Apart(w: Writer)
      reads w.Anchor()
    {
      Repr() !! w.Repr()
    }

    /** Passes `n` of the bytes at hand to the writer. */
    method PassOn(w: Writer, n: nat) returns (ok: bool)
      requires Valid() && w.Valid() && Apart(w) && ip + n <= ipLimit
      modifies this`ip, w.Repr()
      ensures ok <==> |old(w.Out())| + n <= w.Limit()
      ensures ok ==> Valid() && w.Valid() && n <= |old(Rest())|
      ensures ok ==> Rest() == old(Rest())[n..] && w.Out() == old(w.Out()) + old(Rest())[..n]
      ensures w.Limit() == old(w.Limit()) && fresh(w.Repr() - old(w.Repr()))
    {
      ghost var rest := Rest();
      assert rest[..n] == buf[ip..ip + n];
      ok := w.Append(buf[ip..ip + n]);
      assert reader.chunks == old(reader.chunks);
      if ok {
        Advance(n, w);
      }
    }

    /** Fetch; the writer does not notice. */
    method FetchBeside(ghost w: Writer)
      requires Valid() && ip == ipLimit && w.Valid() && Apart(w)
      modifies this`buf, this`ip, this`ipLimit, this`peeked, reader
      ensures Valid() && Rest() == old(Rest()) && ip == 0 && ipLimit == |buf|
      ensures buf == [] <==> Rest() == []
      ensures w.Valid() && Apart(w) && w.Repr() == old(w.Repr())
      ensures w.Out() == old(w.Out()) && w.Limit() == old(w.Limit())
    {
      Fetch();
    }

    /** Passes on all the bytes at hand and fetches more; fails when they do not fit or there are no more. */
    method PassChunk(w: Writer) returns (ok: bool)
      requires Valid() && w.Valid() && Apart(w)
      modifies this`buf, this`ip, this`ipLimit, this`peeked, reader, w.Repr()
      ensures ok ==> Valid() && w.Valid() && ip < ipLimit
      ensures var n := old(ipLimit - ip);
        && n <= |old(Rest())|
        && (ok <==> |old(w.Out())| + n <= w.Limit() && n < |old(Rest())|)
        && (ok ==> Rest() == old(Rest())[n..] && w.Out() == old(w.Out()) + old(Rest())[..n])
      ensures w.Limit() == old(w.Limit()) && fresh(w.Repr() - old(w.Repr()))
    {
      ok := PassOn(w, ipLimit - ip);
      if ok {
        FetchBeside(w);
        ok := |buf| != 0;
      }
    }

    /** The literal loop of DecompressAllTags: chunk after chunk, until the literal is complete. */
    method AppendLiteral(w: Writer, len: nat) returns (ok: bool)
      requires Valid() && w.Valid() && Apart(w)
      modifies this`buf, this`ip, this`ipLimit, this`peeked, reader, w.Repr()
      ensures ok <==> len <= |old(Rest())| && |old(w.Out())| + len <= w.Limit()
      ensures ok ==> Valid() && w.Valid()
      ensures ok ==> Rest() == old(Rest())[len..] && w.Out() == old(w.Out()) + old(Rest())[..len]
      ensures w.Limit() == old(w.Limit()) && fresh(w.Repr() - old(w.Repr()))
    {
      hide Valid, Rest, Writer.Valid, Writer.Out, Writer.Limit;
      ghost var rest, out := Rest(), w.Out();
      var left := len;
      InBounds();
      assert rest[0..] == rest && out + rest[..0] == out;
      while ipLimit - ip < left
        invariant Valid() && w.Valid() && Apart(w) && ip <= ipLimit && 0 <= left <= len && len - left <= |rest|
        invariant Rest() == rest[len - left..] && w.Out() == out + rest[..len - left]
        invariant w.Limit() == old(w.Limit()) && fresh(w.Repr() - old(w.Repr()))
        decreases left, ip == ipLimit
      {
        var avail := ipLimit - ip;
        InBounds();
        ok := PassChunk(w);
        if !ok {
          return false;
        }
        Sliced(out, rest, len - left, avail);
        left := left - avail;
      }
      InBounds();
      ok := PassOn(w, left);
      if ok {
        Sliced(out, rest, len - left, left);
      }
    }

    lemma InBounds()
      requires Valid()
      ensures ip <= ipLimit <= |buf| && ipLimit - ip <= |Rest()|
    {
    }

    static lemma Sliced(out: seq<byte>, rest: seq<byte>, k: nat, n: nat)
      requires k + n <= |rest|
      ensures rest[k..][n..] == rest[k + n..] && out + rest[..k] + rest[k..][..n] == out + rest[..k + n]
    {
      assert rest[..k + n] == rest[..k] + rest[k..][..n];
    }

    // ------------------------------------------------------------- tags

    /** The `n` bytes of the tag that follow its first, out of the four loaded from there. */
    function Trailer(n: nat): (v: nat)
      requires Valid() && ip + n <= ipLimit && n <= 4 && ip + 4 <= |buf|
      reads this, reader
      ensures n <= |Rest()| && v == FromLE(Rest()[..n])
    {
      LowBytesOf(buf[ip..ip + 4], n);
      assert buf[ip..ipLimit] <= Rest() && buf[ip..ip + n] == buf[ip..ipLimit][..n];
      assert buf[ip..ip + 4][..n] == buf[ip..ip + n] == Rest()[..n];
      ExtractLowBytes(FromLE(buf[ip..ip + 4]), n)
    }

    /** Moves past `n` of the bytes at hand; the writer does not notice. */
    method Advance(n: nat, ghost w: Writer)
      requires Valid() && ip + n <= ipLimit && w.Valid() && Apart(w)
      modifies this`ip
      ensures Valid() && ip == old(ip) + n && n <= |old(Rest())| && Rest() == old(Rest())[n..]
      ensures w.Valid() && Apart(w) && w.Repr() == old(w.Repr())
      ensures w.Out() == old(w.Out()) && w.Limit() == old(w.Limit())
    {
      ghost var rest := Rest();
      ip := ip + n;
      assert Rest() == rest[n..];
    }

    /** A literal whose first tag byte `c` has been read, the general way. */
    method SlowLiteral(w: Writer, c: byte) returns (ok: bool)
      requires Valid() && w.Valid() && Apart(w) && c % 4 == 0
      requires ip + TagLength(c) <= ipLimit && ip + 4 <= |buf|
      modifies this`buf, this`ip, this`ipLimit, this`peeked, reader, w.Repr()
      ensures ok ==> Valid() && w.Valid()
      ensures var rest, n := old(Rest()), TagLength(c);
        && n <= |rest|
        && var len := ElementOf(c, FromLE(rest[..n])).len;
        && (ok <==> n + len <= |rest| && |old(w.Out())| + len <= w.Limit())
        && (ok ==> Rest() == rest[n + len..] && w.Out() == old(w.Out()) + rest[n..n + len])
      ensures w.Limit() == old(w.Limit()) && fresh(w.Repr() - old(w.Repr()))
    {
      hide Writer.Valid, Writer.Out, Writer.Limit, Valid, Rest, FromLE, U32;
      ghost var rest, n := Rest(), TagLength(c);
      var len: nat := c / 4 + 1;
      InBounds();
      if len >= 61 {
        var lengthLength := len - 60;
        var v := Trailer(lengthLength);
        len := U32(v + 1);
        Advance(lengthLength, w);
      } else {
        assert rest[0..] == rest;
      }
      ok := AppendLiteral(w, len);
      if n + len <= |rest| {
        assert rest[n..][..len] == rest[n..n + len] && rest[n..][len..] == rest[n + len..];
      }
    }

    /** A literal whose first tag byte `c` has been read. After the fast path five bytes are still at hand. */
    method TakeLiteral(w: Writer, c: byte) returns (ok: bool, fast: bool)
      requires Valid() && w.Valid() && Apart(w) && c % 4 == 0
      requires ip + TagLength(c) <= ipLimit && ip + 4 <= |buf|
      modifies this`buf, this`ip, this`ipLimit, this`peeked, reader, w.Repr()
      ensures ok ==> Valid() && w.Valid()
      ensures var rest, n := old(Rest()), TagLength(c);
        && n <= |rest|
        && var len := ElementOf(c, FromLE(rest[..n])).len;
        && (ok <==> n + len <= |rest| && |old(w.Out())| + len <= w.Limit())
        && (ok ==> Rest() == rest[n + len..] && w.Out() == old(w.Out()) + rest[n..n + len])
      ensures fast ==> ok && ipLimit - ip >= MAX_TAG
      ensures w.Limit() == old(w.Limit()) && fresh(w.Repr() - old(w.Repr()))
    {
      hide Writer.Valid, Writer.Out, Writer.Limit, Valid, Rest, FromLE, ElementOf, TagLength;
      InBounds();
      var len: nat := c / 4 + 1;
      fast := TryFast(w, len);
      if fast {
        ShortLiteral(c, Rest()[..0]);
        Advance(len, w);
        return true, true;
      }
      ok := SlowLiteral(w, c);
    }

    static lemma ShortLiteral(c: byte, s: seq<byte>)
      requires c % 4 == 0 && c / 4 < 60
      ensures TagLength(c) == 0 && ElementOf(c, FromLE(s)).len == c / 4 + 1
    {
    }

    /** Offers the writer `len` bytes of those at hand, and leaves the input as it is. */
    method TryFast(w: Writer, len: nat) returns (ok: bool)
      requires Valid() && w.Valid() && Apart(w)
      modifies w.Repr()
      ensures Valid() && w.Valid() && Apart(w) && Rest() == old(Rest())
      ensures buf == old(buf) && ip == old(ip) && ipLimit == old(ipLimit)
      ensures ok ==> len + MAX_TAG <= ipLimit - ip && len < 61 && |old(w.Out())| + len <= w.Limit()
      ensures ok ==> len <= |Rest()| && w.Out() == old(w.Out()) + Rest()[..len]
      ensures !ok ==> w.Out() == old(w.Out())
      ensures w.Limit() == old(w.Limit()) && fresh(w.Repr() - old(w.Repr()))
    {
      hide Writer.Valid, Writer.Out, Writer.Limit;
      assert buf[ip..ipLimit] <= Rest();
      ok := w.TryFastAppend(buf[ip..ipLimit], len);
      if ok {
        assert buf[ip..ipLimit][..len] == Rest()[..len];
      }
    }

    /** A copy whose first tag byte `c` has been read. */
    method TakeCopy(w: Writer, c: byte) returns (ok: bool)
      requires Valid() && w.Valid() && Apart(w) && c % 4 != 0
      requires ip + TagLength(c) <= ipLimit && ip + 4 <= |buf|
      modifies this`ip, w.Repr()
      ensures ok ==> Valid() && w.Valid()
      ensures var rest, n := old(Rest()), TagLength(c);
        && n <= |rest|
        && var e := ElementOf(c, FromLE(rest[..n]));
        && e.Copy?
        && (ok <==> 1 <= e.offset <= |old(w.Out())| && |old(w.Out())| + e.len <= w.Limit())
        && (ok ==> Rest() == rest[n..] && w.Out() == Repeat(old(w.Out()), e.offset, e.len))
      ensures w.Limit() == old(w.Limit()) && fresh(w.Repr() - old(w.Repr()))
    {
      hide Writer.Valid, Writer.Out, Writer.Limit, Valid, Rest, FromLE, Repeat, ElementOf, TagLength, Entry;
      var entry := CharTable(c);
      EntryFields(c, 0);
      var trailer := Trailer(entry / 2048);
      EntryFields(c, trailer);
      var length := entry % 256;
      Advance(entry / 2048, w);
      var copyOffset := entry / 256 % 8 * 256;
      ok := w.AppendFromSelf(copyOffset + trailer, length);
    }

    /** What is left of the stream after one tag, when that tag is good. */
    method TakeTag(w: Writer) returns (ok: bool, fast: bool)
      requires Valid() && Ready() && !eof && w.Valid() && Apart(w)
      modifies this, reader, w.Repr()
      ensures ok ==> Valid() && w.Valid() && |Rest()| < |old(Rest())|
      ensures ok ==> Decode(Rest(), w.Out(), w.Limit()) == old(Decode(Rest(), w.Out(), w.Limit()))
      ensures !ok ==> old(Decode(Rest(), w.Out(), w.Limit())) == None
      ensures fast ==> ok && ipLimit - ip >= MAX_TAG
      ensures !eof && w.Limit() == old(w.Limit()) && fresh(w.Repr() - old(w.Repr()))
    {
      hide Writer.Valid, Writer.Out, Writer.Limit, Decode, FromLE, Repeat, TagLength, Valid, Rest;
      ghost var s := Rest();
      FirstByte();
      DecodeElement(s, w.Out(), w.Limit());
      hide ElementOf;
      var c := buf[ip];
      Advance(1, w);
      if c % 4 == 0 {
        ok, fast := TakeLiteral(w, c);
      } else {
        ok := TakeCopy(w, c);
        fast := false;
      }
    }

    /** Makes sure of the next tag; at the end of the input what was written is all there is. */
    method NextTag(ghost w: Writer) returns (ok: bool)
      requires Valid() && !eof && w.Valid() && Apart(w)
      modifies this, reader, scratch
      ensures w.Valid() && Apart(w) && w.Repr() == old(w.Repr())
      ensures w.Out() == old(w.Out()) && w.Limit() == old(w.Limit())
      ensures ok ==> Valid() && Rest() == old(Rest()) && Ready() && !eof
      ensures !ok ==> old(Decode(Rest(), w.Out(), w.Limit())) == if eof then Some(w.Out()) else None
    {
      hide Valid, Rest, Ready;
      DecodeTag0(Rest(), w.Out(), w.Limit());
      ok := MaybeRefill();
    }

    lemma FirstByte()
      requires Valid() && Ready()
      ensures Rest() != [] && Rest()[0] == buf[ip] && ip < ipLimit <= |buf| && 1 + TagLength(buf[ip]) <= |Rest()|
      ensures ip + 1 + TagLength(buf[ip]) <= ipLimit && ip + MAX_TAG <= |buf|
    {
    }

    static lemma DecodeTag0(s: seq<byte>, out: seq<byte>, limit: int)
      ensures s == [] ==> Decode(s, out, limit) == Some(out)
      ensures s != [] && |s| < 1 + TagLength(s[0]) ==> Decode(s, out, limit) == None
    {
    }

    lemma FastIsReady()
      requires Valid() && ipLimit - ip >= MAX_TAG
      ensures Ready()
    {
    }

    /** DecompressAllTags: `eof` at the end tells whether the whole input was good. */
    method DecompressAllTags(w: Writer)
      requires Valid() && !eof && w.Valid() && Apart(w)
      modifies this, reader, scratch, w.Repr()
      ensures var d := old(Decode(Rest(), w.Out(), w.Limit()));
        (eof <==> d.Some?) && (eof ==> w.Valid() && w.Out() == d.value)
      ensures w.Limit() == old(w.Limit())
    {
      hide Writer.Valid, Writer.Out, Writer.Limit, Decode, Valid, Rest, Ready;
      ghost var d, limit := Decode(Rest(), w.Out(), w.Limit()), w.Limit();
      var ok := NextTag(w);
      while ok
        invariant w.Limit() == limit && fresh(w.Repr() - old(w.Repr())) && Apart(w)
        invariant ok ==> Valid() && Ready() && !eof && w.Valid() && Decode(Rest(), w.Out(), limit) == d
        invariant !ok ==> (eof <==> d.Some?) && (eof ==> w.Valid() && w.Out() == d.value)
        decreases ok, if ok then |Rest()| else 0
      {
        var fast;
        ok, fast := TakeTag(w);
        if fast {
          FastIsReady();
        } else if ok {
          ok := NextTag(w);
        }
      }
    }

    // ------------------------------------------------------------- the length in front

    /** The bits that a left shift by `shift` pushes out of a word, if they are in the low byte. */
    static function Mask(shift: nat): nat
      requires shift < 32
    {
      if shift < 25 then 0x00
      else if shift == 25 then 0x80
      else if shift == 26 then 0xc0
      else if shift == 27 then 0xe0
      else if shift == 28 then 0xf0
      else if shift == 29 then 0xf8
      else if shift == 30 then 0xfc
      else 0xfe
    }

    /** Whether any of those bits is set: they are the high ones, so the value is then at least the lowest. */
    static predicate LeftShiftOverflows(value: byte, shift: nat)
      requires shift < 32
    {
      Mask(shift) != 0 && value >= 0x100 - Mask(shift)
    }

    /** The weight of the next seven bits, when `left` more bytes may be read. */
    static function Unit(left: nat): nat {
      if left >= 5 then 1
      else if left == 4 then 0x80
      else if left == 3 then 0x4000
      else if left == 2 then 0x20_0000
      else if left == 1 then 0x1000_0000
      else 0x8_0000_0000
    }

    static lemma OverflowsExactly(value: byte, left: nat)
      requires 1 <= left <= 5 && value < 128
      ensures LeftShiftOverflows(value, 7 * (5 - left)) <==> value * Unit(left) >= TWO32
      ensures LeftShiftOverflows(value, 7 * (5 - left)) <==> left == 1 && value >= 16
    {
    }

    static lemma OneIsUnit()
      ensures Unit(5) == 1
    {
    }

    static lemma NextUnit(left: nat)
      requires 1 <= left <= 5
      ensures Unit(left - 1) == 128 * Unit(left)
    {
    }

    static lemma ReadNothing(left: nat)
      ensures Varint.Read([], left) == None
    {
    }

    static lemma ReadNoMore(s: seq<byte>)
      ensures Varint.Read(s, 0) == None
    {
    }

    static lemma ReadStep(s: seq<byte>, left: nat)
      requires s != [] && 1 <= left <= 5
      ensures LeftShiftOverflows(s[0] % 128, 7 * (5 - left)) ==> Varint.Read(s, left) == None
      ensures !LeftShiftOverflows(s[0] % 128, 7 * (5 - left)) ==>
        Varint.Read(s, left) ==
        if s[0] < 128 then Some((s[0] % 128, s[1..]))
        else match Varint.Read(s[1..], left - 1) case None => None case Some(p) => Some((s[0] % 128 + 128 * p.0, p.1))
    {
      OverflowsExactly(s[0] % 128, left);
    }

    /** `a + u * v` for the number `v` still to be read. */
    static function Plus(a: nat, u: nat, r: Option<(nat, seq<byte>)>): Option<(nat, seq<byte>)> {
      match r
      case None => None
      case Some(p) => Some((a + u * p.0, p.1))
    }

    static lemma PlusNothing(r: Option<(nat, seq<byte>)>)
      ensures Plus(0, 1, r) == r
      ensures forall a: nat, u: nat :: Plus(a, u, None) == None
    {
    }

    static lemma PlusLast(a: nat, u: nat, val: nat, s: seq<byte>)
      ensures Plus(a, u, Some((val, s))) == Some((a + val * u, s))
    {
    }

    static lemma PlusMore(a: nat, u: nat, val: nat, r: Option<(nat, seq<byte>)>)
      ensures Plus(a + val * u, 128 * u, r)
              == Plus(a, u, match r case None => None case Some(p) => Some((val + 128 * p.0, p.1)))
    {
      if r.Some? {
        var v := r.value.0;
        assert u * (val + 128 * v) == val * u + 128 * u * v;
      }
    }

    /** The next byte of the source, if there is one. */
    method NextByte() returns (c: Option<byte>)
      requires Valid() && buf == [] && peeked == 0
      modifies reader
      ensures Valid()
      ensures if old(reader.Rest()) == [] then c == None && reader.Rest() == []
              else c == Some(old(reader.Rest())[0]) && reader.Rest() == old(reader.Rest())[1..]
    {
      var chunk := reader.Peek();
      if |chunk| == 0 {
        return None;
      }
      c := Some(chunk[0]);
      assert reader.Rest()[0] == chunk[0];
      reader.Skip(1);
    }

    /** ReadUncompressedLength. */
    method ReadUncompressedLength() returns (r: Option<nat>)
      requires Valid() && buf == [] && peeked == 0
      modifies reader
      ensures Valid() && buf == [] && peeked == 0 && Rest() == reader.Rest()
      ensures match old(Varint.Read(reader.Rest(), Varint.MAX32))
        case None => r == None
        case Some(p) => r == Some(p.0) && reader.Rest() == p.1
    {
      hide Unit, Shifted, Varint.Read, LeftShiftOverflows, Plus, Flatten;
      PlusNothing(Varint.Read(reader.Rest(), 5));
      var result: nat, shift: nat := 0, 0;
      OneIsUnit();
      ghost var whole := Varint.Read(reader.Rest(), 5);
      ghost var left := 5;
      while true
        invariant Valid() && buf == [] && peeked == 0
        invariant 0 <= left <= 5 && shift == 7 * (5 - left)
        invariant Plus(result, Unit(left), Varint.Read(reader.Rest(), left)) == whole
        decreases left
      {
        if shift >= 32 {
          ReadNoMore(reader.Rest());
          return None;
        }
        ghost var rest := reader.Rest();
        var byte := NextByte();
        if byte.None? {
          ReadNothing(left);
          return None;
        }
        var c := byte.value;
        var val := c % 128;
        ReadStep(rest, left);
        if LeftShiftOverflows(val, shift) {
          return None;
        }
        ShiftedIsUnit(val, left);
        if c >= 128 {
          NextUnit(left);
          PlusMore(result, Unit(left), val, Varint.Read(rest[1..], left - 1));
        }
        PlusLast(result, Unit(left), val, rest[1..]);
        result := result + Shifted(val, shift);
        if c < 128 {
          break;
        }
        shift := shift + 7;
        left := left - 1;
      }
      return Some(result);
    }

    /** `val << shift`, for a shift by whole groups of seven bits. */
    static function Shifted(val: nat, shift: nat): nat {
      if shift < 7 then val else 128 * Shifted(val, shift - 7)
    }

    static lemma ShiftedIsUnit(val: nat, left: nat)
      requires 1 <= left <= 5
      ensures Shifted(val, 7 * (5 - left)) == val * Unit(left)
    {
      assert Shifted(val, 7) == 128 * Shifted(val, 0);
      assert Shifted(val, 14) == 128 * Shifted(val, 7);
      assert Shifted(val, 21) == 128 * Shifted(val, 14);
      assert Shifted(val, 28) == 128 * Shifted(val, 21);
    }
  }
}

/** Compressing and uncompressing whole inputs, whatever the chunks they come in and the writer they go to. */
module Snappy {
  import opened Bytes
  import opened Compressor
  import opened Decompressor
  import opened Emit
  import opened Memory
  import opened Options
  import opened Sequences
  import opened Serial
  import opened Search
  import opened SnappyFormat
  import opened Source
  import opened Writers
  import opened ArrayWriter
  import opened ScatteredWriter
  import opened IOVecWriter
  import opened Validator
  import Varint

  /** The bytes a compressed stream stands for, if it is one: a length, and tags that produce just that many. */
  function Uncompressed(s: seq<byte>): Option<seq<byte>> {
    match Varint.Read(s, Varint.MAX32)
    case None => None
    case Some(p) =>
      match Decode(p.1, [], p.0)
      case None => None
      case Some(out) => if |out| == p.0 then Some(out) else None
  }

  /** The bytes it stands for by the format description. */
  function DescribedBytes(s: seq<byte>): Option<seq<byte>> {
    match Varint.Read(s, Varint.MAX32)
    case None => None
    case Some(p) =>
      match Described(p.1, [], p.0)
      case None => None
      case Some(out) => if |out| == p.0 then Some(out) else None
  }

  /** A stream with a tag that the decoder takes for an empty literal. */
  predicate HasWrap(s: seq<byte>) {
    match Varint.Read(s, Varint.MAX32)
    case None => false
    case Some(p) => MeetsWrap(p.1, [], p.0)
  }

  /** Code and description differ on the streams that the code accepts and that have such a tag; those are no streams
      of the description. Everything else they take or refuse alike, with the same bytes. */
  lemma UncompressedIsDescribed(s: seq<byte>)
    ensures DescribedBytes(s) == if HasWrap(s) then None else Uncompressed(s)
    ensures DescribedBytes(s) != Uncompressed(s) <==> HasWrap(s) && Uncompressed(s).Some?
  {
    match Varint.Read(s, Varint.MAX32)
    case None =>
    case Some(p) =>
      Varint.ReadBound(s, Varint.MAX32);
      Varint.BoundOfFive();
      DecodeIsDescribed(p.1, [], p.0);
  }

  /** One on which they differ: length 0, then the tag. */
  lemma WrapIsUncompressed()
    ensures var s := [0, 252, 255, 255, 255, 255]; Uncompressed(s) == Some([]) && DescribedBytes(s) == None
  {
    hide Decode, Described;
    WrapIsAccepted();
    var s: seq<byte> := [0, 252, 255, 255, 255, 255];
    assert s[1..] == [252, 255, 255, 255, 255];
    assert Varint.Read(s, Varint.MAX32) == Some((0, s[1..]));
  }

  // ---------------------------------------------------------------- uncompressing

  /** The writer can take what the stream says it holds. */
  ghost predicate RoomFor(w: Writer, s: seq<byte>)
    reads w.Anchor(), w.Repr()
  {
    match Varint.Read(s, Varint.MAX32)
    case None => true
    case Some(p) => w.Accepts(p.0)
  }

  /** InternalUncompressAllTags, for a stream whose length has been read. */
  method UncompressAllTags(d: Decompressor, w: Writer, len: nat) returns (ok: bool)
    requires d.Valid() && !d.eof && d.Apart(w) && w.Accepts(len)
    modifies d.Repr(), w.Repr()
    ensures var out := old(Decode(d.Rest(), [], len));
      && (ok <==> out.Some? && |out.value| == len)
      && (ok ==> w.Valid() && w.Out() == out.value)
  {
    hide Decode, Writer.Valid, Writer.Out, Writer.Limit, Writer.Accepts;
    ghost var rest := d.Rest();
    w.SetExpectedLength(len);
    assert d.Valid() && d.Rest() == rest;
    d.DecompressAllTags(w);
    ok := d.eof && w.CheckLength();
  }

  /** A decompressor for what follows the length. */
  method Begin(reader: Source) returns (d: Decompressor, len: Option<nat>)
    requires reader.Valid()
    modifies reader
    ensures fresh(d) && fresh(d.scratch) && d.reader == reader
    ensures match old(Varint.Read(reader.Rest(), Varint.MAX32))
      case None => len == None
      case Some(p) => len == Some(p.0) && d.Valid() && !d.eof && d.Rest() == p.1
  {
    hide Varint.Read;
    d := new Decompressor(reader);
    len := d.ReadUncompressedLength();
  }

  /** Starts on a stream: its length, and the rest of it still to come. The writer is not touched. */
  method Open(reader: Source, ghost w: Writer) returns (d: Decompressor, len: Option<nat>)
    requires reader.Valid() && reader !in w.Repr() && RoomFor(w, reader.Rest())
    modifies reader
    ensures match old(Varint.Read(reader.Rest(), Varint.MAX32))
      case None => len == None
      case Some(p) =>
        && len == Some(p.0) && d.Valid() && !d.eof && d.Rest() == p.1
        && w.Accepts(p.0) && d.Apart(w) && d.reader == reader && fresh(d) && fresh(d.scratch)
    ensures w.Repr() == old(w.Repr())
  {
    hide Varint.Read, FromLE, Repeat;
    d, len := Begin(reader);
  }

  /** InternalUncompress. The verdict and the output depend on the bytes alone: not on how the source cuts them up,
      and not on which writer takes them. */
  method InternalUncompress(reader: Source, w: Writer) returns (ok: bool)
    requires reader.Valid() && reader !in w.Repr() && RoomFor(w, reader.Rest())
    modifies reader, w.Repr()
    ensures ok <==> old(Uncompressed(reader.Rest())).Some?
    ensures ok ==> w.Valid() && w.Out() == old(Uncompressed(reader.Rest())).value
  {
    hide Decode, Varint.Read, Writer.Valid, Writer.Out, Writer.Accepts, Writer.Limit;
    var d, len := Open(reader, w);
    if len.None? {
      return false;
    }
    ok := UncompressAllTags(d, w, len.value);
  }

  // ---------------------------------------------------------------- the four destinations

  predicate Chunks(chunks: seq<seq<byte>>) {
    forall i :: 0 <= i < |chunks| ==> chunks[i] != []
  }

  /** RawUncompress into an array just large enough. */
  method UncompressToArray(chunks: seq<seq<byte>>) returns (r: Option<seq<byte>>)
    requires Chunks(chunks)
    ensures r == Uncompressed(Flatten(chunks))
  {
    hide Decode, Varint.Read;
    var reader := new Source(chunks);
    var head := Varint.Parse32(Flatten(chunks));
    if head.None? {
      return None;
    }
    var dst := new byte[head.value.0];
    var writer := new ArrayWriter(dst, 0);
    var w := ToArray(writer);
    var ok := InternalUncompress(reader, w);
    if !ok {
      return None;
    }
    assert dst[..] == dst[0..writer.op];
    return Some(dst[..]);
  }

  /** Uncompress, block by block into a sink. */
  method UncompressToSink(chunks: seq<seq<byte>>) returns (r: Option<seq<byte>>)
    requires Chunks(chunks)
    ensures r == Uncompressed(Flatten(chunks))
  {
    hide Decode, Varint.Read;
    var reader := new Source(chunks);
    var writer := new ScatteredWriter();
    var ok := InternalUncompress(reader, ToBlocks(writer));
    if !ok {
      return None;
    }
    var sink := writer.Flush();
    return Some(sink);
  }

  /** IsValidCompressed. */
  method IsValidCompressed(chunks: seq<seq<byte>>) returns (ok: bool)
    requires Chunks(chunks)
    ensures ok <==> Uncompressed(Flatten(chunks)).Some?
  {
    hide Decode, Varint.Read;
    var reader := new Source(chunks);
    var writer := new Validator();
    ok := InternalUncompress(reader, CheckOnly(writer));
  }

  function Total(sizes: seq<nat>): nat {
    if sizes == [] then 0 else Total(sizes[..|sizes| - 1]) + sizes[|sizes| - 1]
  }

  /** Buffers of the given sizes. */
  method Buffers(sizes: seq<nat>) returns (iov: seq<array<byte>>)
    ensures |iov| == |sizes| && forall i, j :: 0 <= i < j < |iov| ==> iov[i] != iov[j]
    ensures Start(iov, |iov|) == Total(sizes) && forall i :: 0 <= i < |iov| ==> fresh(iov[i])
  {
    iov := [];
    for k := 0 to |sizes|
      invariant |iov| == k && forall i, j :: 0 <= i < j < |iov| ==> iov[i] != iov[j]
      invariant Start(iov, |iov|) == Total(sizes[..k]) && forall i :: 0 <= i < |iov| ==> fresh(iov[i])
    {
      var b := new byte[sizes[k]];
      StartOfMore(iov, b, k);
      assert sizes[..k + 1][..k] == sizes[..k];
      iov := iov + [b];
    }
    assert sizes[..|sizes|] == sizes;
  }

  lemma {:induction false} StartOfMore(iov: seq<array<byte>>, b: array<byte>, j: nat)
    requires j <= |iov|
    ensures Start(iov + [b], j) == Start(iov, j)
    decreases j
  {
    if j > 0 {
      StartOfMore(iov, b, j - 1);
    }
  }

  /** RawUncompressToIOVec, into buffers of the given sizes. */
  method UncompressToBuffers(chunks: seq<seq<byte>>, sizes: seq<nat>) returns (r: Option<seq<byte>>)
    requires Chunks(chunks)
    requires var head := Varint.Read(Flatten(chunks), Varint.MAX32); head.Some? ==> head.value.0 <= Total(sizes)
    ensures r == Uncompressed(Flatten(chunks))
  {
    hide Decode, Varint.Read;
    var reader := new Source(chunks);
    var iov := Buffers(sizes);
    var writer := new IOVecWriter(iov);
    var ok := InternalUncompress(reader, ToBuffers(writer));
    if !ok {
      return None;
    }
    var s := writer.Collect();
    return Some(s);
  }

  /** The four destinations agree on every input, well-formed or not, and whatever chunks it comes to each in: they
      accept the same streams, and the three that keep the bytes end up with the same ones. */
  method Agree(a: seq<seq<byte>>, b: seq<seq<byte>>, c: seq<seq<byte>>, d: seq<seq<byte>>, sizes: seq<nat>)
    returns (flat: Option<seq<byte>>, sink: Option<seq<byte>>, buffers: Option<seq<byte>>, valid: bool)
    requires Chunks(a) && Chunks(b) && Chunks(c) && Chunks(d)
    requires Flatten(a) == Flatten(b) == Flatten(c) == Flatten(d)
    requires var head := Varint.Read(Flatten(a), Varint.MAX32); head.Some? ==> head.value.0 <= Total(sizes)
    ensures flat == sink == buffers && (valid <==> flat.Some?)
  {
    flat := UncompressToArray(a);
    sink := UncompressToSink(b);
    buffers := UncompressToBuffers(c, sizes);
    valid := IsValidCompressed(d);
  }

  // ---------------------------------------------------------------- compressing

  /** How the code hashes four bytes into a table of two to the `bits` entries. */
  function SnappyHash(b: seq<byte>, bits: nat): nat
    requires bits <= 32
  {
    ShiftRight(U32(FromLE(b) * 0x1e35_a7bd), 32 - bits)
  }

  function ShiftRight(v: nat, n: nat): nat {
    Quotient(v, Pow2(n))
  }

  function Quotient(v: nat, p: nat): nat
    requires p > 0
  {
    v / p
  }

  lemma TimesMonotone(a: nat, b: nat, p: nat)
    requires a <= b
    ensures a * p <= b * p
  {
  }

  lemma QuotientBelow(v: nat, p: nat, q: nat)
    requires p > 0 && v < p * q
    ensures Quotient(v, p) < q
  {
    var x := v / p;
    assert x * p <= v;
    if x >= q {
      TimesMonotone(q, x, p);
      assert false;
    }
  }

  /** Any function into the table will do; this one is. */
  lemma SnappyHashIntoTable(b: seq<byte>, bits: nat)
    requires bits <= 32
    ensures SnappyHash(b, bits) < Pow2(bits)
  {
    Pow2Adds(32 - bits, bits);
    Pow2Values();
    QuotientBelow(U32(FromLE(b) * 0x1e35_a7bd), Pow2(32 - bits), Pow2(bits));
  }

  lemma Pow2Values()
    ensures Pow2(8) == 256 && Pow2(14) == 16384 && Pow2(32) == TWO32
  {
    assert Pow2(4) == 16;
    Pow2Adds(4, 4);
    assert Pow2(6) == 64;
    Pow2Adds(8, 6);
    Pow2Adds(8, 8);
    Pow2Adds(16, 16);
  }

  /** CalculateTableSize, by its logarithm. */
  method TableBits(n: nat) returns (bits: nat)
    requires n < TWO32
    ensures 8 <= bits <= 14
    ensures n <= 16384 ==> n <= Pow2(bits)
    ensures bits == 8 || (bits == 14 && n > 16384) || Pow2(bits) < 2 * n
    ensures n < 256 ==> bits == 8
    ensures n > 16384 ==> bits == 14
  {
    if n > 16384 {
      return 14;
    }
    if n < 256 {
      return 8;
    }
    var log := Log2FloorNonZero(n - 1);
    Pow2Values();
    assert Pow2(log + 1) == 2 * Pow2(log);
    Pow2Order(log + 1, 14);
    Pow2Order(8, log + 1);
    return log + 1;
  }

  lemma Pow2Order(a: nat, b: nat)
    ensures Pow2(a) < 2 * Pow2(b) ==> a <= b
  {
    if a > b {
      Pow2Monotone(b + 1, a);
    }
  }

  /** The next `n` bytes of the source as one piece: pointed at where they are, or put together in a scratch buffer.
      In the first case they are still to be skipped. */
  method NextFragment(reader: Source, n: nat) returns (fragment: seq<byte>, pending: nat)
    requires reader.Valid() && 0 < n <= |reader.Rest()|
    modifies reader
    ensures reader.Valid() && fragment == old(reader.Rest())[..n]
    ensures pending <= (if reader.chunks == [] then 0 else |reader.chunks[0]|)
    ensures pending <= |reader.Rest()| && reader.Rest()[pending..] == old(reader.Rest())[n..]
  {
    var chunk := reader.Peek();
    if |chunk| >= n {
      return chunk[..n], n;
    }
    ghost var rest := reader.Rest();
    fragment := chunk;
    reader.Skip(|chunk|);
    while |fragment| < n
      invariant reader.Valid() && |fragment| <= n && fragment + reader.Rest() == rest
      decreases n - |fragment|
    {
      chunk := reader.Peek();
      ghost var was := reader.Rest();
      var k := if |chunk| <= n - |fragment| then |chunk| else n - |fragment|;
      assert was[..k] == chunk[..k] && was == was[..k] + was[k..];
      ConcatAssoc(fragment, was[..k], was[k..]);
      fragment := fragment + chunk[..k];
      reader.Skip(k);
    }
    assert fragment == rest[..n] && reader.Rest() == rest[n..];
    pending := 0;
    assert reader.Rest()[0..] == reader.Rest();
  }

  /** Any hash functions into tables of every size used. */
  ghost predicate IntoTables(hash: (seq<byte>, nat) -> nat) {
    forall b, bits :: 8 <= bits <= 14 ==> hash(b, bits) < Pow2(bits)
  }

  /** The input repeats itself every `period` bytes, in windows that the hash functions tell apart. */
  ghost predicate Patterned(all: seq<byte>, period: nat, hash: (seq<byte>, nat) -> nat) {
    && Periodic(all, period)
    && forall bits :: 8 <= bits <= 14 ==> ApartAt(all, period, hash, bits)
  }

  ghost predicate ApartAt(all: seq<byte>, period: nat, hash: (seq<byte>, nat) -> nat, bits: nat) {
    forall i: nat, j: nat :: i < j < i + period && j + 4 <= |all| ==>
      hash(Window(all, i), bits) != hash(Window(all, j), bits)
  }

  /** What a block of such input takes besides its copies. */
  const PER_BLOCK: nat := 50

  function Blocks(total: nat): nat {
    (total + BLOCK_SIZE - 1) / BLOCK_SIZE
  }

  /** About three bytes for every 64. */
  predicate Small(written: nat, total: nat) {
    64 * written <= 3 * total + 64 * (5 + PER_BLOCK * Blocks(total))
  }

  /** A run of one byte is such input, whatever the hash functions. */
  lemma RunIsPatterned(all: seq<byte>, b: byte, hash: (seq<byte>, nat) -> nat)
    requires forall i :: 0 <= i < |all| ==> all[i] == b
    ensures Patterned(all, 1, hash)
  {
    RunIsPeriodic(all, b, s => 0);
  }

  lemma WindowOfPart(all: seq<byte>, from: nat, n: nat, i: nat)
    requires i + 4 <= n && from + n <= |all|
    ensures Window(all[from..from + n], i) == Window(all, from + i)
  {
    var part, a, b := all[from..from + n], Window(all[from..from + n], i), Window(all, from + i);
    forall k | 0 <= k < 4 ensures a[k] == b[k] {
      assert a[k] == part[i + k] && b[k] == all[from + i + k];
    }
    assert a == b;
  }

  lemma PartIsPatterned(all: seq<byte>, from: nat, n: nat, period: nat, hash: (seq<byte>, nat) -> nat)
    requires from + n <= |all|
    ensures Patterned(all, period, hash) ==> Patterned(all[from..from + n], period, hash)
  {
    var part := all[from..from + n];
    if Patterned(all, period, hash) {
      forall i: nat | i + 4 <= n ensures Window(part, i) == Window(all, from + i) {
        WindowOfPart(all, from, n, i);
      }
      forall bits | 8 <= bits <= 14 ensures ApartAt(part, period, hash, bits) {
        assert ApartAt(all, period, hash, bits);
      }
    }
  }

  lemma PatternedIsRegular(block: seq<byte>, period: nat, hash: (seq<byte>, nat) -> nat, bits: nat,
                           h: seq<byte> -> nat)
    requires Patterned(block, period, hash) && 8 <= bits <= 14 && period + 16 <= |block|
    requires forall b :: h(b) == hash(b, bits)
    ensures Regular(block, period, h)
  {
    assert ApartAt(block, period, hash, bits);
  }

  /** One literal and the copies after it, or a short literal. */
  lemma PatternedCost(block: seq<byte>, period: nat, hash: (seq<byte>, nat) -> nat, bits: nat, h: seq<byte> -> nat,
                      taken: nat)
    requires Patterned(block, period, hash) && 8 <= bits <= 14 && forall b :: h(b) == hash(b, bits)
    requires taken <= Room(|block|)
    requires Regular(block, period, h) ==> taken <= 1 + period + 3 * Pieces(|block| - period)
    ensures 64 * taken <= 3 * |block| + 64 * PER_BLOCK
  {
    hide Regular;
    if period + 16 <= |block| {
      PatternedIsRegular(block, period, hash, bits, h);
    }
  }

  /** Compresses the next block into `dest` from `at` on. */
  method CompressBlock(reader: Source, n: nat, dest: array<byte>, at: nat, hash: (seq<byte>, nat) -> nat, wide: bool,
                       ghost period: nat) returns (end: nat)
    requires reader.Valid() && 0 < n <= BLOCK_SIZE && n <= |reader.Rest()|
    requires at + Room(n) <= dest.Length && IntoTables(hash)
    modifies reader, dest
    ensures reader.Valid() && reader.Rest() == old(reader.Rest())[n..]
    ensures at <= end <= at + Room(n) && Described(dest[at..end], [], n) == Some(old(reader.Rest())[..n])
    ensures Patterned(old(reader.Rest())[..n], period, hash) ==> 64 * (end - at) <= 3 * n + 64 * PER_BLOCK
    ensures forall i :: 0 <= i < at ==> dest[i] == old(dest[i])
  {
    hide Described, Room, Pieces, Patterned, Regular;
    var fragment, pending := NextFragment(reader, n);
    var bits := TableBits(n);
    var table := new uint16[Pow2(bits)](i => 0);
    var h := b => hash(b, bits);
    end := CompressFragment(fragment, dest, at, table, h, wide, period);
    if Patterned(fragment, period, hash) {
      PatternedCost(fragment, period, hash, bits, h, end - at);
    }
    reader.Skip(pending);
  }

  /** What `k` full blocks and the length in front of them take at most. */
  function Taken(k: nat): nat {
    5 + 66547 * k
  }

  lemma BlockFits(total: nat, k: nat, n: nat)
    requires n <= BLOCK_SIZE && BLOCK_SIZE * k + n <= total
    ensures Taken(k) + Room(n) <= MaxCompressedLength(total)
    ensures n == BLOCK_SIZE ==> Taken(k) + Room(n) == Taken(k + 1)
  {
  }

  /** A block decodes to its own bytes after whatever came before it. */
  lemma OneMoreBlock(a: seq<byte>, b: seq<byte>, before: seq<byte>, block: seq<byte>, limit: nat)
    requires Described(a, [], limit) == Some(before) && Described(b, [], |block|) == Some(block)
    requires |before| + |block| <= limit
    ensures Described(a + b, [], limit) == Some(before + block)
  {
    hide Described;
    DescribedConcat(a, b, [], limit);
    DescribedInContext(b, before, [], |block|, limit);
    assert before + [] == before;
  }

  /** From `head` to `at`, the destination stands for the first `p` bytes of the input. */
  ghost predicate Stands(dest: array<byte>, head: nat, at: nat, all: seq<byte>, p: nat)
    reads dest
  {
    head <= at <= dest.Length && p <= |all| && Described(dest[head..at], [], |all|) == Some(all[..p])
  }

  /** Adds the next block, of `n` bytes. */
  method AddBlock(reader: Source, n: nat, dest: array<byte>, ghost head: nat, at: nat, ghost all: seq<byte>,
                  ghost p: nat, hash: (seq<byte>, nat) -> nat, wide: bool, ghost period: nat) returns (end: nat)
    requires reader.Valid() && 0 < n <= BLOCK_SIZE && p + n <= |all| && reader.Rest() == all[p..]
    requires at + Room(n) <= dest.Length && IntoTables(hash) && Stands(dest, head, at, all, p)
    modifies reader, dest
    ensures reader.Valid() && reader.Rest() == all[p + n..]
    ensures Patterned(all, period, hash) ==> 64 * (end - at) <= 3 * n + 64 * PER_BLOCK
    ensures at <= end <= at + Room(n) && Stands(dest, head, end, all, p + n) && dest[..head] == old(dest[..head])
  {
    hide Described, Room, Patterned;
    ghost var body := dest[head..at];
    end := CompressBlock(reader, n, dest, at, hash, wide, period);
    PartIsPatterned(all, p, n, period, hash);
    assert dest[head..end] == body + dest[at..end];
    assert all[p..][..n] == all[p..p + n] && all[p..][n..] == all[p + n..];
    OneMoreBlock(body, dest[at..end], all[..p], all[p..p + n], |all|);
    assert all[..p] + all[p..p + n] == all[..p + n];
  }

  /** Compress: the length, then block after block. Whatever the chunks the input comes in and whatever the hash
      function, the result means the input by the format description, and with every store made on the way stays
      within MaxCompressedLength. Input that repeats itself soon becomes small. */
  method Compress(reader: Source, dest: array<byte>, hash: (seq<byte>, nat) -> nat, wide: bool, ghost period: nat)
    returns (written: nat)
    requires reader.Valid() && |reader.Rest()| < TWO32 && IntoTables(hash)
    requires dest.Length >= MaxCompressedLength(|reader.Rest()|)
    modifies reader, dest
    ensures written <= MaxCompressedLength(|old(reader.Rest())|)
    ensures Patterned(old(reader.Rest()), period, hash) ==> Small(written, |old(reader.Rest())|)
    ensures DescribedBytes(dest[..written]) == Some(old(reader.Rest()))
  {
    hide Stands, Described, Room, Varint.Digits, Varint.Read, DescribedBytes, Taken, MaxCompressedLength,
         Patterned;
    ghost var all := reader.Rest();
    var total := reader.Available();
    var left := total;
    var ulength := Varint.Encode32(total);
    LengthFits(total);
    Store(dest, 0, ulength);
    written := |ulength|;
    ghost var head, k := written, 0;
    assert dest[..head] == ulength && all[0..] == all;
    StandsForNothing(dest, head, all);
    while left > 0
      invariant reader.Valid() && 0 <= left <= total && reader.Rest() == all[total - left..]
      invariant Stands(dest, head, written, all, total - left) && dest[..head] == ulength
      invariant left > 0 ==> total - left == BLOCK_SIZE * k && written <= Taken(k)
      invariant written <= MaxCompressedLength(total) <= dest.Length
      invariant left == 0 ==> k == Blocks(total)
      invariant Patterned(all, period, hash) ==> 64 * written <= 3 * (total - left) + 64 * (5 + PER_BLOCK * k)
    {
      var n := if left <= BLOCK_SIZE then left else BLOCK_SIZE;
      BlockFits(total, k, n);
      written := AddBlock(reader, n, dest, head, written, all, total - left, hash, wide, period);
      left, k := left - n, k + 1;
    }
    StandsForAll(dest, head, written, all);
  }

  /** The length in front fits, and reads back. */
  lemma LengthFits(total: nat)
    requires total < TWO32
    ensures |Varint.Digits(total)| <= 5 == Taken(0) <= MaxCompressedLength(total)
  {
    Varint.BoundOfFive();
    Varint.ReadOfDigits(total, [], 5);
  }

  lemma StandsForNothing(dest: array<byte>, head: nat, all: seq<byte>)
    requires head <= dest.Length
    ensures Stands(dest, head, head, all, 0)
  {
    assert dest[head..head] == [] && all[..0] == [];
  }

  lemma StandsForAll(dest: array<byte>, head: nat, at: nat, all: seq<byte>)
    requires Stands(dest, head, at, all, |all|) && |all| < TWO32 && dest[..head] == Varint.Digits(|all|)
    ensures DescribedBytes(dest[..at]) == Some(all)
  {
    hide Described, Varint.Digits, Varint.Read;
    Varint.BoundOfFive();
    Varint.ReadOfDigits(|all|, dest[head..at], 5);
    assert all[..|all|] == all;
    assert dest[..at] == dest[..head] + dest[head..at];
  }

  /** Compressing and uncompressing gives back every input shorter than 2^32 bytes, and the compressed form is never
      longer than promised. */
  method RoundTrip(input: seq<seq<byte>>, hash: (seq<byte>, nat) -> nat, wide: bool, ghost period: nat)
    returns (compressed: seq<byte>, output: Option<seq<byte>>)
    requires Chunks(input) && |Flatten(input)| < TWO32 && IntoTables(hash)
    ensures output == Some(Flatten(input)) == DescribedBytes(compressed)
    ensures |compressed| <= 32 + |Flatten(input)| + |Flatten(input)| / 6
    ensures Patterned(Flatten(input), period, hash) ==> Small(|compressed|, |Flatten(input)|)
  {
    var reader := new Source(input);
    var n := reader.Available();
    var dest := new byte[MaxCompressedLength(n)];
    var written := Compress(reader, dest, hash, wide, period);
    compressed := dest[..written];
    UncompressedIsDescribed(compressed);
    var chunks := if compressed == [] then [] else [compressed];
    FlattenOne(compressed);
    output := UncompressToArray(chunks);
  }
}

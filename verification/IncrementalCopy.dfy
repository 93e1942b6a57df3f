/** Copying from earlier in the same buffer: eight bytes at a time, into whatever slop there is, with the effect of
    copying byte by byte. */
module IncrementalCopy {
  import opened Bytes
  import opened Memory
  import opened SnappyFormat

  /** The byte at distance `j` into endless repetition of `base`. */
  function TileAt(base: seq<byte>, j: nat): byte
    requires base != []
    decreases j
  {
    if j < |base| then base[j] else TileAt(base, j - |base|)
  }

  lemma {:induction false} TileShift(base: seq<byte>, j: nat, k: nat)
    requires base != []
    ensures TileAt(base, j + k * |base|) == TileAt(base, j)
    decreases k
  {
    if k > 0 {
      assert j + k * |base| == j + (k - 1) * |base| + |base| && (k - 1) * |base| >= 0;
      TileShift(base, j, k - 1);
    }
  }

  /** From `src` up to `to` the buffer repeats `base`. */
  ghost predicate Tiled(buf: array<byte>, src: nat, to: int, base: seq<byte>)
    reads buf
  {
    base != [] && src <= to <= buf.Length && forall i :: src <= i < to ==> buf[i] == TileAt(base, i - src)
  }

  /** UnalignedCopy64: reads all eight bytes before it writes any. */
  method UnalignedCopy64(buf: array<byte>, src: nat, dst: nat)
    requires src + 8 <= buf.Length && dst + 8 <= buf.Length
    modifies buf
    ensures forall i :: 0 <= i < buf.Length ==>
      buf[i] == if dst <= i < dst + 8 then old(buf[src + (i - dst)]) else old(buf[i])
  {
    Store(buf, dst, buf[src..src + 8]);
  }

  /** Eight bytes copied over a whole number of periods: as many of them as the distance continue the tiling. */
  method CopyOn(buf: array<byte>, src: nat, op: nat, ghost start: nat, ghost base: seq<byte>, ghost k: nat)
    requires start <= src < op && op + 8 <= buf.Length && Tiled(buf, start, op, base) && op - src == k * |base|
    modifies buf
    ensures Tiled(buf, start, if op - src < 8 then op + (op - src) else op + 8, base)
    ensures forall i :: 0 <= i < buf.Length && !(op <= i < op + 8) ==> buf[i] == old(buf[i])
  {
    UnalignedCopy64(buf, src, op);
    ghost var to := if op - src < 8 then op + (op - src) else op + 8;
    forall i | start <= i < to ensures buf[i] == TileAt(base, i - start) {
      if i >= op {
        TileShift(base, i - (op - src) - start, k);
      }
    }
  }

  /** IncrementalCopySlow; does nothing from `opLimit` on. */
  method CopySlow(buf: array<byte>, src0: nat, op0: nat, opLimit: nat, ghost start: nat, ghost base: seq<byte>,
                  ghost k: nat)
    requires start <= src0 < op0 && opLimit <= buf.Length && op0 - src0 == k * |base|
    requires Tiled(buf, start, if op0 <= opLimit then op0 else opLimit, base)
    modifies buf
    ensures Tiled(buf, start, opLimit, base)
    ensures forall i :: 0 <= i < buf.Length && !(op0 <= i < opLimit) ==> buf[i] == old(buf[i])
  {
    var src, op := src0, op0;
    while op < opLimit
      invariant op - src == op0 - src0 && op0 <= op && op <= (if op0 <= opLimit then opLimit else op0)
      invariant Tiled(buf, start, if op <= opLimit then op else opLimit, base)
      invariant forall i :: 0 <= i < buf.Length && !(op0 <= i < op) ==> buf[i] == old(buf[i])
    {
      TileShift(base, src - start, k);
      buf[op] := buf[src];
      op, src := op + 1, src + 1;
    }
  }

  /** How far doubling a pattern moves on before it is at least eight bytes long. */
  function Gain(pattern: nat): (g: nat)
    requires pattern > 0
    ensures pattern >= 8 ==> g == 0
    decreases 8 - pattern
  {
    if pattern >= 8 then 0 else pattern + Gain(2 * pattern)
  }

  /** Doubling the pattern until it is at least eight bytes long, with eleven bytes of room to do it in. */
  method Widen(buf: array<byte>, src: nat, op0: nat, ghost base: seq<byte>) returns (op: nat, ghost k: nat)
    requires src < op0 && op0 + 11 <= buf.Length
    requires op0 - src == |base| < 8 && Tiled(buf, src, op0, base)
    modifies buf
    ensures op - src == k * |base| && op - src >= 8 && op0 <= op <= op0 + 9
    ensures op == op0 + Gain(op0 - src)
    ensures Tiled(buf, src, op, base)
    ensures forall i :: 0 <= i < buf.Length && !(op0 <= i < op0 + 11) ==> buf[i] == old(buf[i])
  {
    hide Tiled;
    var patternSize := op0 - src;
    op, k := op0, 1;
    while patternSize < 8
      invariant op - src == patternSize && Tiled(buf, src, op, base)
      invariant patternSize == k * |base|
      invariant (k == 1 && patternSize == |base|) || (k == 2 && patternSize == 2 * |base|)
             || (k == 4 && patternSize == 4 * |base|) || (k == 8 && patternSize == 8 * |base|)
      invariant patternSize - |base| <= 9 && op + Gain(patternSize) == op0 + Gain(|base|)
      invariant forall i :: 0 <= i < buf.Length && !(op0 <= i < op0 + 11) ==> buf[i] == old(buf[i])
    {
      CopyOn(buf, src, op, src, base, k);
      op := op + patternSize;
      patternSize := patternSize * 2;
      k := 2 * k;
    }
  }

  /** Whether the copy reaches `opLimit`: with slop enough for whole blocks, just four of them are copied. */
  predicate Reaches(op: nat, opLimit: nat, bufLimit: nat) {
    opLimit <= op + 64 || bufLimit < opLimit + 16
  }

  /** The last part of IncrementalCopy, once the source is at least eight bytes back: whole blocks where the slop
      after `opLimit` allows, and single bytes at the end. */
  method CopyWide(buf: array<byte>, src0: nat, op0: nat, opLimit: nat, bufLimit: nat, ghost start: nat,
                  ghost base: seq<byte>, ghost k: nat)
    requires start <= src0 && src0 + 8 <= op0 <= opLimit <= bufLimit <= buf.Length
    requires op0 - src0 == k * |base| && Tiled(buf, start, op0, base)
    modifies buf
    ensures Reaches(op0, opLimit, bufLimit) ==> Tiled(buf, start, opLimit, base)
    ensures !Reaches(op0, opLimit, bufLimit) ==> forall i :: op0 + 64 <= i < buf.Length ==> buf[i] == old(buf[i])
    ensures forall i :: 0 <= i < buf.Length && !(op0 <= i < bufLimit) ==> buf[i] == old(buf[i])
  {
    var src, op := src0, op0;
    if opLimit + 16 <= bufLimit {
      CopyBlock(buf, src, op, start, base, k);
      if op + 16 < opLimit {
        CopyBlock(buf, src + 16, op + 16, start, base, k);
      }
      if op + 32 < opLimit {
        CopyBlock(buf, src + 32, op + 32, start, base, k);
      }
      if op + 48 < opLimit {
        CopyBlock(buf, src + 48, op + 48, start, base, k);
      }
      return;
    }
    while op + 16 < bufLimit
      invariant op - src == op0 - src0 && op0 <= op <= bufLimit && Tiled(buf, start, op, base)
      invariant forall i :: 0 <= i < buf.Length && !(op0 <= i < bufLimit) ==> buf[i] == old(buf[i])
    {
      CopyBlock(buf, src, op, start, base, k);
      op, src := op + 16, src + 16;
    }
    if op >= opLimit {
      return;
    }
    if op + 8 <= bufLimit {
      CopyOn(buf, src, op, start, base, k);
      op, src := op + 8, src + 8;
    }
    CopySlow(buf, src, op, opLimit, start, base, k);
  }

  /** Two copies of eight bytes. */
  method CopyBlock(buf: array<byte>, src: nat, op: nat, ghost start: nat, ghost base: seq<byte>, ghost k: nat)
    requires start <= src && src + 8 <= op && op + 16 <= buf.Length && Tiled(buf, start, op, base)
    requires op - src == k * |base|
    modifies buf
    ensures Tiled(buf, start, op + 16, base)
    ensures forall i :: 0 <= i < buf.Length && !(op <= i < op + 16) ==> buf[i] == old(buf[i])
  {
    CopyOn(buf, src, op, start, base, k);
    CopyOn(buf, src + 8, op + 8, start, base, k);
  }

  lemma TiledShorter(buf: array<byte>, start: nat, to: int, shorter: int, base: seq<byte>)
    requires Tiled(buf, start, to, base) && start <= shorter <= to
    ensures Tiled(buf, start, shorter, base)
  {
  }

  /** A tiling is what copying byte by byte produces. */
  lemma TiledIsRepeat(buf: array<byte>, out: nat, src: nat, op: nat, opLimit: nat)
    requires out <= src < op <= opLimit <= buf.Length && Tiled(buf, src, opLimit, buf[src..op])
    ensures buf[out..opLimit] == Repeat(buf[out..op], op - src, opLimit - op)
  {
    var r, s, base := buf[out..opLimit], buf[out..op], buf[src..op];
    forall i | |s| <= i < |r| ensures r[i] == r[i - (op - src)] {
      var j := out + i - src;
      assert r[i] == TileAt(base, j) == TileAt(base, j - |base|);
    }
    PeriodicIsRepeat(s, op - src, r);
  }

  /** Whether IncrementalCopy completes: always for lengths up to 64, the only ones tags can ask for. */
  predicate Completes(offset: nat, len: nat, slop: nat)
    requires offset > 0
  {
    (offset < 8 && slop < 11) || len <= Gain(offset) || Reaches(Gain(offset), len, slop)
  }

  /** One that does not: 80 bytes from 8 back, with 16 bytes of slop. */
  lemma LongCopyStops()
    ensures !Completes(8, 80, 96)
  {
    assert Gain(8) == 0;
  }

  /** IncrementalCopy. Whatever the slop between `opLimit` and `bufLimit`, the bytes up to `opLimit` are those of
      copying one by one if the copy completes, and nothing from `bufLimit` on is stored to. If it does not, whatever
      lies more than 64 bytes past the widened pattern stays as it was. */
  method CopyBack(buf: array<byte>, src: nat, op0: nat, opLimit: nat, bufLimit: nat, ghost out: nat)
    requires out <= src < op0 <= opLimit <= bufLimit <= buf.Length
    modifies buf
    ensures opLimit - op0 <= 64 ==> Completes(op0 - src, opLimit - op0, bufLimit - op0)
    ensures Completes(op0 - src, opLimit - op0, bufLimit - op0) ==>
      buf[out..opLimit] == Repeat(old(buf[out..op0]), op0 - src, opLimit - op0)
    ensures !Completes(op0 - src, opLimit - op0, bufLimit - op0) ==>
      forall i :: op0 + Gain(op0 - src) + 64 <= i < buf.Length ==> buf[i] == old(buf[i])
    ensures forall i :: 0 <= i < buf.Length && !(op0 <= i < bufLimit) ==> buf[i] == old(buf[i])
  {
    ghost var base := buf[src..op0];
    ghost var before := buf[out..op0];
    assert Tiled(buf, src, op0, base);
    var op := op0;
    ghost var k := 1;
    if op0 - src < 8 {
      if op + 11 <= bufLimit {
        op, k := Widen(buf, src, op, base);
        if op < opLimit {
          CopyWide(buf, src, op, opLimit, bufLimit, src, base, k);
        }
      } else {
        CopySlow(buf, src, op, opLimit, src, base, 1);
      }
    } else {
      CopyWide(buf, src, op, opLimit, bufLimit, src, base, 1);
    }
    if Completes(op0 - src, opLimit - op0, bufLimit - op0) {
      TiledShorter(buf, src, if op < opLimit then opLimit else op, opLimit, base);
      assert buf[out..op0] == before && buf[src..op0] == base;
      TiledIsRepeat(buf, out, src, op0, opLimit);
    }
  }
}

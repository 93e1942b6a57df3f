/** The writer that decompresses into blocks it allocates as it goes. */
module ScatteredWriter {
  import opened Bytes
  import opened Memory
  import opened Sequences
  import IncrementalCopy
  import opened SnappyFormat

  class ScatteredWriter {
    var blocks: seq<array<byte>>
    var expected: nat
    var fullSize: nat
    var ptr: nat
    ghost var out: seq<byte>

    ghost function Repr(): (r: set<object>)
      reads this`blocks
      ensures this in r && forall i :: 0 <= i < |blocks| ==> blocks[i] in r
    {
      {this} + set i | 0 <= i < |blocks| :: blocks[i] as object
    }

    /** The whole block `b` was written from position `at` on. */
    static ghost predicate Holds(b: array<byte>, out: seq<byte>, at: nat)
      reads b
    {
      b.Length == BLOCK_SIZE && at + BLOCK_SIZE <= |out| && b[..] == out[at..at + BLOCK_SIZE]
    }

    static lemma HoldsMore(b: array<byte>, out: seq<byte>, more: seq<byte>, at: nat)
      requires Holds(b, out, at)
      ensures Holds(b, out + more, at)
    {
      assert (out + more)[at..at + BLOCK_SIZE] == out[at..at + BLOCK_SIZE];
    }

    /** Full blocks, and a last one that is no larger than what is still expected. */
    ghost predicate Valid()
      reads this, blocks
    {
      && (forall i, j :: 0 <= i < j < |blocks| ==> blocks[i] != blocks[j])
      && (forall i :: 0 <= i < |blocks| - 1 ==> Holds(blocks[i], out, i * BLOCK_SIZE))
      && (blocks == [] ==> fullSize == 0 && ptr == 0)
      && (blocks != [] ==>
            && fullSize == (|blocks| - 1) * BLOCK_SIZE
            && Last().Length <= BLOCK_SIZE && (Last().Length < BLOCK_SIZE ==> fullSize + Last().Length == expected)
            && ptr <= Last().Length && fullSize + Last().Length <= expected)
      && |out| == fullSize + ptr
      && (blocks != [] ==> Last()[..ptr] == out[fullSize..])
    }

    function Last(): array<byte>
      requires blocks != []
      reads this`blocks
    {
      blocks[|blocks| - 1]
    }

    /** op_limit_ - op_base_ of the current block. */
    function Room(): nat
      reads this`blocks
    {
      if blocks == [] then 0 else Last().Length
    }

    constructor ()
      ensures Valid() && out == [] && blocks == [] && fresh(Repr())
    {
      blocks, expected, fullSize, ptr, out := [], 0, 0, 0, [];
    }

    method SetExpectedLength(len: nat)
      requires Valid() && blocks == []
      modifies this`expected
      ensures Valid() && expected == len
    {
      expected := len;
    }

    predicate CheckLength()
      requires Valid()
      reads this, blocks
      ensures CheckLength() <==> |out| == expected
    {
      fullSize + ptr == expected
    }

    /** Stores `ip` in the current block, which has room for it, and keeps `len` bytes of it. */
    method Put(ip: seq<byte>, len: nat)
      requires Valid() && ptr + |ip| <= Room() && len <= |ip|
      modifies this`ptr, this`out, if blocks == [] then {} else {Last()}
      ensures Valid() && ptr == old(ptr) + len && out == old(out) + ip[..len]
    {
      if |ip| > 0 {
        ghost var before := Last()[..ptr];
        Store(Last(), ptr, ip);
        assert Last()[..ptr] == before;
        assert Last()[..ptr + len] == before + ip[..len];
        forall i | 0 <= i < |blocks| - 1 ensures Holds(blocks[i], out + ip[..len], i * BLOCK_SIZE) {
          assert blocks[i] != Last();
          HoldsMore(blocks[i], out, ip[..len], i * BLOCK_SIZE);
        }
        assert (out + ip[..len])[fullSize..] == out[fullSize..] + ip[..len];
      } else {
        assert out + ip[..len] == out;
      }
      out := out + ip[..len];
      ptr := ptr + len;
    }

    method Append(ip: seq<byte>) returns (ok: bool)
      requires Valid()
      modifies this, blocks
      ensures ok <==> |old(out)| + |ip| <= expected
      ensures ok ==> Valid() && out == old(out) + ip
      ensures expected == old(expected)
      ensures forall i :: 0 <= i < |blocks| ==> blocks[i] in old(blocks) || fresh(blocks[i])
    {
      if |ip| <= Room() - ptr {
        Put(ip, |ip|);
        assert ip[..|ip|] == ip;
        return true;
      }
      ok := SlowAppend(ip);
    }

    /** Starts the next block, once the current one is full. */
    method NextBlock()
      requires Valid() && ptr == Room() && |out| < expected
      modifies this`blocks, this`fullSize, this`ptr
      ensures Valid() && ptr == 0 && Room() > 0
      ensures |blocks| == |old(blocks)| + 1 && blocks[..|old(blocks)|] == old(blocks) && fresh(Last())
    {
      if blocks != [] {
        assert Last()[..] == Last()[..ptr];
        assert Holds(Last(), out, fullSize);
      }
      fullSize := fullSize + ptr;
      var size := if BLOCK_SIZE <= expected - fullSize then BLOCK_SIZE else expected - fullSize;
      var block := new byte[size];
      blocks := blocks + [block];
      ptr := 0;
    }

    /** Fills what is left of the current block; the rest of the bytes remain. */
    method FillBlock(ip: seq<byte>) returns (rest: seq<byte>)
      requires Valid() && |ip| >= Room() - ptr
      modifies this`ptr, this`out, if blocks == [] then {} else {Last()}
      ensures Valid() && ptr == Room() && rest == ip[Room() - old(ptr)..] && out + rest == old(out) + ip
      ensures |out| == fullSize + ptr
    {
      var avail := Room() - ptr;
      ghost var was := out;
      Put(ip[..avail], avail);
      rest := ip[avail..];
      assert ip[..avail][..avail] == ip[..avail] && ip[..avail] + rest == ip;
      ConcatAssoc(was, ip[..avail], rest);
    }

    /** One turn of the loop of SlowAppend: fills the current block and starts the next, if the rest is expected. */
    method Spill(ip: seq<byte>) returns (ok: bool, rest: seq<byte>)
      requires Valid() && |ip| > Room() - ptr && ptr <= Room()
      modifies this`blocks, this`fullSize, this`ptr, this`out, blocks
      ensures ok <==> |old(out)| + |ip| <= expected
      ensures ok ==> Valid() && ptr == 0 < Room() && out + rest == old(out) + ip
      ensures |rest| == |ip| - (old(Room()) - old(ptr)) && |old(blocks)| <= |blocks|
      ensures forall i :: 0 <= i < |blocks| ==> blocks[i] in old(blocks) || fresh(blocks[i])
    {
      hide Valid;
      ghost var was := out + ip;
      rest := FillBlock(ip);
      assert |out| + |rest| == |was|;
      if fullSize + ptr + |rest| > expected {
        return false, rest;
      }
      NextBlock();
      return true, rest;
    }

    method SlowAppend(ip0: seq<byte>) returns (ok: bool)
      requires Valid() && |ip0| > Room() - ptr
      modifies this, blocks
      ensures ok <==> |old(out)| + |ip0| <= expected
      ensures ok ==> Valid() && out == old(out) + ip0
      ensures expected == old(expected)
      ensures forall i :: 0 <= i < |blocks| ==> blocks[i] in old(blocks) || fresh(blocks[i])
    {
      assert ptr <= Room();
      hide Valid;
      var ip := ip0;
      while |ip| > Room() - ptr
        invariant Valid() && expected == old(expected) && ptr <= Room()
        invariant forall i :: 0 <= i < |blocks| ==> blocks[i] in old(blocks) || fresh(blocks[i])
        invariant out + ip == old(out) + ip0
        invariant |ip| > Room() - ptr || |old(out)| + |ip0| <= expected
        decreases |ip|, if ptr == Room() then 1 else 0
      {
        assert |out| + |ip| == |old(out)| + |ip0|;
        ok, ip := Spill(ip);
        if !ok {
          return;
        }
      }
      Put(ip, |ip|);
      assert ip[..|ip|] == ip;
      return true;
    }

    method TryFastAppend(ip: seq<byte>, len: nat) returns (ok: bool)
      requires Valid()
      modifies this`ptr, this`out, blocks
      ensures ok ==> len + MAX_TAG <= |ip| && len < 61 && |old(out)| + len <= expected
      ensures Valid() && out == if ok then old(out) + ip[..len] else old(out)
    {
      if len <= 16 && |ip| >= 16 + MAX_TAG && Room() - ptr >= 16 {
        Put(ip[..16], len);
        assert ip[..16][..len] == ip[..len];
        return true;
      }
      return false;
    }

    method AppendFromSelf(offset: nat, len: nat) returns (ok: bool)
      requires Valid() && len <= 64
      modifies this, blocks
      ensures ok <==> 1 <= offset <= |old(out)| && |old(out)| + len <= expected
      ensures ok ==> Valid() && out == Repeat(old(out), offset, len)
      ensures expected == old(expected)
      ensures forall i :: 0 <= i < |blocks| ==> blocks[i] in old(blocks) || fresh(blocks[i])
    {
      if 1 <= offset <= ptr && ptr + len <= Room() {
        CopyInBlock(offset, len);
        return true;
      }
      ok := SlowAppendFromSelf(offset, len);
    }

    /** Source and destination in the current block. */
    method CopyInBlock(offset: nat, len: nat)
      requires Valid() && len <= 64 && 1 <= offset <= ptr && ptr + len <= Room()
      modifies this`ptr, this`out, Last()
      ensures Valid() && out == Repeat(old(out), offset, len)
    {
      hide Repeat, IncrementalCopy.Completes;
      ghost var block := Last()[..ptr];
      ghost var before := out[..fullSize];
      assert out == before + block;
      IncrementalCopy.CopyBack(Last(), ptr - offset, ptr, ptr + len, Room(), 0);
      RepeatInContext(before, block, offset, len);
      out := Repeat(out, offset, len);
      ptr := ptr + len;
    }

    /** The byte at position `src`, whichever block it is in. */
    function ByteAt(src: nat): byte
      requires Valid() && src < |out|
      reads this, blocks
      ensures ByteAt(src) == out[src]
    {
      var j, k := src / BLOCK_SIZE, src % BLOCK_SIZE;
      assert src == j * BLOCK_SIZE + k;
      if j < |blocks| - 1 then
        assert Holds(blocks[j], out, j * BLOCK_SIZE);
        assert blocks[j][..][k] == out[j * BLOCK_SIZE..j * BLOCK_SIZE + BLOCK_SIZE][k];
        blocks[j][k]
      else
        assert Last()[..ptr][k] == out[fullSize..][k];
        blocks[j][k]
    }

    /** One byte at a time, wherever it is; this crosses blocks in both directions. */
    method SlowAppendFromSelf(offset: nat, len: nat) returns (ok: bool)
      requires Valid() && len <= 64
      modifies this, blocks
      ensures ok <==> 1 <= offset <= |old(out)| && |old(out)| + len <= expected
      ensures ok ==> Valid() && out == Repeat(old(out), offset, len)
      ensures expected == old(expected)
      ensures forall i :: 0 <= i < |blocks| ==> blocks[i] in old(blocks) || fresh(blocks[i])
    {
      hide Valid;
      var cur := Size();
      if offset == 0 || cur < offset {
        return false;
      }
      if expected - cur < len {
        return false;
      }
      var src, left := cur - offset, len;
      while left > 0
        invariant Valid() && expected == old(expected) && src + offset == |out| == cur + len - left
        invariant forall i :: 0 <= i < |blocks| ==> blocks[i] in old(blocks) || fresh(blocks[i])
        invariant 0 <= left <= len && out == Repeat(old(out), offset, len - left)
      {
        var c := ByteAt(src);
        RepeatTwice(old(out), offset, len - left, 1);
        assert Repeat(out, offset, 1) == Repeat(out + [c], offset, 0);
        var appended := Append([c]);
        src, left := src + 1, left - 1;
      }
      return true;
    }

    /** The number of bytes produced so far. */
    method Size() returns (n: nat)
      requires Valid()
      ensures n == |out|
    {
      n := fullSize + ptr;
    }

    /** The allocator's Flush: block after block goes to the sink, each as far as it was written. */
    method Flush() returns (sink: seq<byte>)
      requires Valid()
      ensures sink == out
    {
      sink := [];
      var size := fullSize + ptr;
      for i := 0 to |blocks|
        invariant sink == out[..if i < |blocks| then i * BLOCK_SIZE else |out|]
      {
        var blockSize := if blocks[i].Length <= size - |sink| then blocks[i].Length else size - |sink|;
        assert i < |blocks| - 1 ==> Holds(blocks[i], out, i * BLOCK_SIZE);
        sink := sink + blocks[i][..blockSize];
      }
      assert out[..|out|] == out;
    }
  }
}

/** The writer that decompresses into a list of buffers of any sizes. */
module IOVecWriter {
  import opened Bytes
  import opened Memory
  import opened Sequences
  import IncrementalCopy
  import opened SnappyFormat

  /** The position of the first byte of buffer `j`. */
  ghost function Start(iov: seq<array<byte>>, j: nat): (n: nat)
    requires j <= |iov|
  {
    if j == 0 then 0 else Start(iov, j - 1) + iov[j - 1].Length
  }

  lemma {:induction false} StartMonotone(iov: seq<array<byte>>, i: nat, j: nat)
    requires i <= j <= |iov|
    ensures Start(iov, i) <= Start(iov, j)
    decreases j
  {
    if i < j {
      StartMonotone(iov, i, j - 1);
    }
  }

  /** A copy no longer than its offset only reads what was there before. */
  lemma ShortRepeat(out: seq<byte>, offset: nat, n: nat)
    requires 1 <= offset <= |out| && n <= offset
    ensures Repeat(out, offset, n) == out + out[|out| - offset..|out| - offset + n]
  {
    PeriodicIsRepeat(out, offset, out + out[|out| - offset..|out| - offset + n]);
  }

  lemma SliceOf(buffer: seq<byte>, out: seq<byte>, at: nat, from: nat, n: nat)
    requires from + n <= |buffer| && at + |buffer| <= |out| && buffer == out[at..at + |buffer|]
    ensures buffer[from..from + n] == out[at + from..at + from + n]
  {
    var a, b := buffer[from..from + n], out[at + from..at + from + n];
    forall k | 0 <= k < n ensures a[k] == b[k] {
      assert buffer[from + k] == out[at..at + |buffer|][from + k];
    }
  }

  lemma NoRepeat(out: seq<byte>, offset: nat)
    requires 1 <= offset <= |out|
    ensures Repeat(out, offset, 0) == out
  {
  }

  class IOVecWriter {
    const iov: seq<array<byte>>
    var curr: nat
    var off: nat
    var remaining: nat
    var totalWritten: nat
    var outputLimit: nat
    ghost var out: seq<byte>

    ghost function Repr(): (r: set<object>)
      ensures this in r && forall i :: 0 <= i < |iov| ==> iov[i] in r
    {
      {this} + set i | 0 <= i < |iov| :: iov[i] as object
    }

    /** Buffer `j` holds the output from its position on. */
    ghost predicate Holds(j: nat)
      requires j < |iov|
      reads iov, this`out
    {
      Start(iov, j) + iov[j].Length <= |out| && iov[j][..] == out[Start(iov, j)..Start(iov, j) + iov[j].Length]
    }

    ghost predicate Valid()
      reads this, iov
    {
      && (forall i, j :: 0 <= i < j < |iov| ==> iov[i] != iov[j])
      && |out| == totalWritten
      && (iov == [] ==> curr == 0 && off == 0 && remaining == 0 && out == [])
      && (iov != [] ==>
            && curr < |iov| && off + remaining == iov[curr].Length
            && |out| == Start(iov, curr) + off && iov[curr][..off] == out[Start(iov, curr)..]
            && forall j :: 0 <= j < curr ==> Holds(j))
    }

    /** The buffers together are as large as what is expected. */
    ghost predicate Roomy()
      reads this`outputLimit
    {
      outputLimit <= Start(iov, |iov|)
    }

    constructor (iov: seq<array<byte>>)
      requires forall i, j :: 0 <= i < j < |iov| ==> iov[i] != iov[j]
      ensures Valid() && out == [] && this.iov == iov
    {
      this.iov := iov;
      curr, off, totalWritten, outputLimit, out := 0, 0, 0, 0, [];
      remaining := if |iov| > 0 then iov[0].Length else 0;
    }

    method SetExpectedLength(len: nat)
      requires Valid() && len <= Start(iov, |iov|)
      modifies this`outputLimit
      ensures Valid() && Roomy() && outputLimit == len
    {
      outputLimit := len;
    }

    predicate CheckLength()
      requires Valid()
      reads this, iov
      ensures CheckLength() <==> |out| == outputLimit
    {
      totalWritten == outputLimit
    }

    /** Stores `ip` where the current buffer has room for it, and keeps `len` bytes of it. */
    method Put(ip: seq<byte>, len: nat)
      requires Valid() && iov != [] && |ip| <= remaining && len <= |ip|
      modifies this`off, this`remaining, this`totalWritten, this`out, iov[curr]
      ensures Valid() && out == old(out) + ip[..len] && off == old(off) + len
    {
      Store(iov[curr], off, ip);
      off, remaining, totalWritten := off + len, remaining - len, totalWritten + len;
      out := out + ip[..len];
      forall j | 0 <= j < curr ensures Holds(j) {
        assert old(Holds(j));
      }
    }

    /** Goes to the next buffer, if there is one, once the current one is full. */
    method NextBuffer() returns (ok: bool)
      requires Valid() && remaining == 0
      modifies this`curr, this`off, this`remaining
      ensures Valid() && ok == (old(curr) + 1 < |iov|) && curr == old(curr) + (if ok then 1 else 0)
    {
      if curr + 1 >= |iov| {
        return false;
      }
      assert iov[curr][..off] == iov[curr][..];
      assert Holds(curr);
      curr := curr + 1;
      off, remaining := 0, iov[curr].Length;
      return true;
    }

    /** With room for `n` more bytes, a full buffer is not the last. */
    lemma NotTheLast(n: nat)
      requires Valid() && Roomy() && n > 0 && |out| + n <= outputLimit && remaining == 0
      ensures curr + 1 < |iov|
    {
    }

    method AppendNoCheck(ip0: seq<byte>) returns (ok: bool)
      requires Valid() && Roomy() && |out| + |ip0| <= outputLimit
      modifies this`curr, this`off, this`remaining, this`totalWritten, this`out, iov
      ensures ok && Valid() && out == old(out) + ip0 && old(curr) <= curr
    {
      var ip := ip0;
      while |ip| > 0
        invariant Valid() && Roomy() && old(curr) <= curr && out + ip == old(out) + ip0
        decreases |ip|, |iov| - curr
      {
        if remaining == 0 {
          NotTheLast(|ip|);
          var more := NextBuffer();
          if !more {
            return false;
          }
        }
        var n := if |ip| <= remaining then |ip| else remaining;
        ghost var was := out;
        Put(ip[..n], n);
        assert ip[..n][..n] + ip[n..] == ip;
        ConcatAssoc(was, ip[..n], ip[n..]);
        ip := ip[n..];
      }
      return true;
    }

    method Append(ip: seq<byte>) returns (ok: bool)
      requires Valid() && Roomy()
      modifies this`curr, this`off, this`remaining, this`totalWritten, this`out, iov
      ensures ok <==> |old(out)| + |ip| <= outputLimit
      ensures ok ==> Valid() && out == old(out) + ip
    {
      if totalWritten + |ip| > outputLimit {
        return false;
      }
      ok := AppendNoCheck(ip);
    }

    method TryFastAppend(ip: seq<byte>, len: nat) returns (ok: bool)
      requires Valid() && Roomy()
      modifies this`off, this`remaining, this`totalWritten, this`out, iov
      ensures ok ==> len + MAX_TAG <= |ip| && len < 61 && |old(out)| + len <= outputLimit
      ensures Valid() && out == if ok then old(out) + ip[..len] else old(out)
    {
      if len <= 16 && |ip| >= 16 + MAX_TAG && outputLimit - totalWritten >= 16 && remaining >= 16 {
        Put(ip[..16], len);
        assert ip[..16][..len] == ip[..len];
        return true;
      }
      return false;
    }

    /** The buffer and the place in it that are `offset0` bytes back. */
    method Locate(offset0: nat) returns (from: nat, fromOff: nat)
      requires Valid() && 1 <= offset0 <= |out|
      ensures from <= curr < |iov| && fromOff <= iov[from].Length && Start(iov, from) + fromOff == |out| - offset0
    {
      from, fromOff := curr, off;
      var offset := offset0;
      while offset > 0
        invariant from <= curr < |iov| && fromOff <= iov[from].Length && offset > 0
        invariant Start(iov, from) + fromOff - offset == |out| - offset0
        decreases from
      {
        if fromOff >= offset {
          fromOff := fromOff - offset;
          break;
        }
        offset := offset - fromOff;
        from := from - 1;
        fromOff := iov[from].Length;
      }
    }

    /** Copies from an earlier buffer, all of it written. */
    method CopyEarlier(from: nat, fromOff: nat, n: nat, ghost offset: nat)
      requires Valid() && Roomy() && from < curr < |iov| && fromOff + n <= iov[from].Length
      requires 1 <= offset && Start(iov, from) + fromOff == |out| - offset && |out| + n <= outputLimit
      modifies this`curr, this`off, this`remaining, this`totalWritten, this`out, iov
      ensures Valid() && out == Repeat(old(out), offset, n) && old(curr) <= curr < |iov|
    {
      assert Holds(from);
      StartMonotone(iov, from + 1, curr);
      ghost var at := Start(iov, from);
      SliceOf(iov[from][..], out, at, fromOff, n);
      assert iov[from][..][fromOff..fromOff + n] == iov[from][fromOff..fromOff + n];
      ShortRepeat(out, offset, n);
      var ok := AppendNoCheck(iov[from][fromOff..fromOff + n]);
    }

    /** Copies within the current buffer. */
    method CopyHere(fromOff: nat, n: nat, ghost offset: nat)
      requires Valid() && curr < |iov| && n <= remaining && n <= 64
      requires 1 <= offset && fromOff + offset == off
      modifies this`off, this`remaining, this`totalWritten, this`out, iov[curr]
      ensures Valid() && out == Repeat(old(out), offset, n) && off == old(off) + n
    {
      hide Repeat, Start, IncrementalCopy.Completes;
      ghost var at, here := Start(iov, curr), iov[curr][..off];
      ghost var was := out;
      assert out == out[..at] + here;
      IncrementalCopy.CopyBack(iov[curr], fromOff, off, off + n, off + remaining, 0);
      RepeatInContext(out[..at], here, offset, n);
      RepeatIsPeriodic(here, offset, n);
      out := Repeat(out, offset, n);
      assert was <= out && out[at..] == Repeat(here, offset, n);
      off, remaining, totalWritten := off + n, remaining - n, totalWritten + n;
      forall j | 0 <= j < curr ensures Holds(j) {
        assert old(Holds(j));
      }
    }

    /** One turn of the copy loop: as much as the two buffers at hand allow, or on to the next buffer. */
    method CopySome(from0: nat, fromOff0: nat, len: nat, ghost offset: nat)
      returns (from: nat, fromOff: nat, n: nat)
      requires Valid() && Roomy() && from0 <= curr < |iov| && fromOff0 <= iov[from0].Length && 1 <= offset
      requires Start(iov, from0) + fromOff0 == |out| - offset && 0 < len <= 64 && |out| + len <= outputLimit
      modifies this`curr, this`off, this`remaining, this`totalWritten, this`out, iov
      ensures Valid() && Roomy() && n <= len && out == Repeat(old(out), offset, n) && |out| == |old(out)| + n
      ensures from0 <= from <= curr < |iov| && fromOff <= iov[from].Length && old(curr) <= curr
      ensures n < len ==> Start(iov, from) + fromOff == |out| - offset
      ensures n > 0 || from > from0 || curr > old(curr)
    {
      from, fromOff := from0, fromOff0;
      if from != curr {
        n := if iov[from].Length - fromOff <= len then iov[from].Length - fromOff else len;
        CopyEarlier(from, fromOff, n, offset);
        if len - n > 0 {
          from, fromOff := from + 1, 0;
        }
      } else {
        n := remaining;
        if n == 0 {
          NotTheLast(len);
          var more := NextBuffer();
          return;
        }
        if n > len {
          n := len;
        }
        CopyHere(fromOff, n, offset);
        fromOff := fromOff + n;
      }
    }

    method AppendFromSelf(offset: nat, len0: nat) returns (ok: bool)
      requires Valid() && Roomy() && len0 <= 64
      modifies this`curr, this`off, this`remaining, this`totalWritten, this`out, iov
      ensures ok <==> 1 <= offset <= |old(out)| && |old(out)| + len0 <= outputLimit
      ensures ok ==> Valid() && out == Repeat(old(out), offset, len0)
    {
      if offset == 0 || totalWritten < offset {
        return false;
      }
      if len0 > outputLimit - totalWritten {
        return false;
      }
      hide Valid;
      CopyAll(offset, len0);
      return true;
    }

    /** Finds where to copy from, and copies. */
    method CopyAll(offset: nat, len0: nat)
      requires Valid() && Roomy() && len0 <= 64 && 1 <= offset <= |out| && |out| + len0 <= outputLimit
      modifies this`curr, this`off, this`remaining, this`totalWritten, this`out, iov
      ensures Valid() && out == Repeat(old(out), offset, len0)
    {
      hide *;
      NoRepeat(out, offset);
      var from: nat, fromOff: nat := Locate(offset);
      var len := len0;
      while len > 0
        invariant Valid() && Roomy() && 0 <= len <= len0 && |out| + len == |old(out)| + len0
        invariant out == Repeat(old(out), offset, len0 - len)
        invariant from <= curr < |iov| && fromOff <= iov[from].Length
        invariant len > 0 ==> Start(iov, from) + fromOff == |out| - offset
        decreases len, |iov| - from, |iov| - curr
      {
        var n: nat;
        from, fromOff, n := CopySome(from, fromOff, len, offset);
        RepeatTwice(old(out), offset, len0 - len, n);
        len := len - n;
      }
    }

    /** What the buffers hold, one after another, as far as they were written. */
    ghost function Contents(j: nat): (s: seq<byte>)
      requires j <= |iov|
      reads iov
      ensures |s| == Start(iov, j)
    {
      if j == 0 then [] else Contents(j - 1) + iov[j - 1][..]
    }

    lemma {:induction false} ContentsAreOutput(j: nat)
      requires Valid() && j <= curr && j <= |iov|
      ensures Start(iov, j) <= |out| && Contents(j) == out[..Start(iov, j)]
    {
      StartMonotone(iov, j, curr);
      if j > 0 {
        ContentsAreOutput(j - 1);
        assert Holds(j - 1);
      }
    }

    lemma {:induction false} ContentsGrow(i: nat, j: nat)
      requires i <= j <= |iov|
      ensures Contents(i) <= Contents(j)
      decreases j
    {
      if i < j {
        ContentsGrow(i, j - 1);
      }
    }

    /** The buffers, read in order, hold the output. */
    lemma BuffersHold()
      requires Valid()
      ensures out <= Contents(|iov|)
    {
      if iov != [] {
        ContentsAreOutput(curr);
        ContentsGrow(curr + 1, |iov|);
        assert Contents(curr) + iov[curr][..off] == out;
        assert Contents(curr) + iov[curr][..off] <= Contents(curr + 1);
      }
    }

    /** Everything written, read back from the buffers. */
    method Collect() returns (s: seq<byte>)
      requires Valid()
      ensures s == out
    {
      BuffersHold();
      ContentsGrow(0, |iov|);
      s := Gather(totalWritten);
    }

    /** The first `n` bytes of the buffers, read in order. */
    method Gather(n: nat) returns (s: seq<byte>)
      requires n <= Start(iov, |iov|)
      ensures s == Contents(|iov|)[..n]
    {
      s := [];
      for j := 0 to |iov|
        invariant s == Contents(j)
      {
        s := s + iov[j][..];
      }
      s := s[..n];
    }
  }
}

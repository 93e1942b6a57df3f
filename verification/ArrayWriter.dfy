/** The writer that decompresses into a flat array. */
module ArrayWriter {
  import opened Bytes
  import opened Memory
  import IncrementalCopy
  import opened SnappyFormat

  class ArrayWriter {
    const dst: array<byte>
    const base: nat
    var op: nat
    var opLimit: nat
    ghost var out: seq<byte>

    ghost predicate Valid()
      reads this, dst
    {
      base <= op <= opLimit <= dst.Length && dst[base..op] == out
    }

    ghost function Limit(): int
      reads this
    {
      opLimit - base
    }

    constructor (dst: array<byte>, base: nat)
      requires base <= dst.Length
      ensures Valid() && out == [] && this.dst == dst && this.base == base && op == base
    {
      this.dst, this.base := dst, base;
      op, opLimit, out := base, base, [];
    }

    method SetExpectedLength(len: nat)
      requires Valid() && op + len <= dst.Length
      modifies this`opLimit
      ensures Valid() && Limit() == |out| + len
    {
      opLimit := op + len;
    }

    predicate CheckLength()
      requires Valid()
      reads this, dst
      ensures CheckLength() <==> |out| == Limit()
    {
      op == opLimit
    }

    method Append(ip: seq<byte>) returns (ok: bool)
      requires Valid()
      modifies this`op, this`out, dst
      ensures ok <==> |old(out)| + |ip| <= Limit()
      ensures ok ==> Valid() && out == old(out) + ip
    {
      if opLimit - op < |ip| {
        return false;
      }
      Store(dst, op, ip);
      op, out := op + |ip|, out + ip;
      return true;
    }

    /** Sixteen bytes are stored, whatever `len`, if there is room for them; `ip` is all the input at hand. */
    method TryFastAppend(ip: seq<byte>, len: nat) returns (ok: bool)
      requires Valid()
      modifies this`op, this`out, dst
      ensures ok ==> len + MAX_TAG <= |ip| && len < 61 && |old(out)| + len <= Limit()
      ensures Valid() && out == if ok then old(out) + ip[..len] else old(out)
    {
      if len <= 16 && |ip| >= 16 + MAX_TAG && opLimit - op >= 16 {
        Store(dst, op, ip[..16]);
        op, out := op + len, out + ip[..len];
        return true;
      }
      return false;
    }

    method AppendFromSelf(offset: nat, len: nat) returns (ok: bool)
      requires Valid() && len <= 64
      modifies this`op, this`out, dst
      ensures ok <==> 1 <= offset <= |old(out)| && |old(out)| + len <= Limit()
      ensures ok ==> Valid() && out == Repeat(old(out), offset, len)
    {
      var opEnd := op + len;
      if offset == 0 || op - base < offset || opEnd > opLimit {
        return false;
      }
      IncrementalCopy.CopyBack(dst, op - offset, op, opEnd, opLimit, base);
      op, out := opEnd, Repeat(out, offset, len);
      return true;
    }
  }
}

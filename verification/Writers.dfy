/** The four writers behind one contract. A write succeeds exactly when it stays within the expected length, and a
    back-reference exactly when it also points into what was written; what is then written is the same for all. */
module Writers {
  import opened Bytes
  import opened SnappyFormat
  import opened ArrayWriter
  import opened ScatteredWriter
  import opened IOVecWriter
  import opened Validator

  datatype Writer =
    | ToArray(array: ArrayWriter)
    | ToBlocks(blocks: ScatteredWriter)
    | ToBuffers(buffers: IOVecWriter)
    | CheckOnly(check: Validator)
  {
    ghost function Anchor(): set<object> {
      match this
      case ToArray(a) => {a}
      case ToBlocks(b) => {b}
      case ToBuffers(v) => {v}
      case CheckOnly(c) => {c}
    }

    ghost function Repr(): set<object>
      reads Anchor()
    {
      match this
      case ToArray(a) => {a, a.dst}
      case ToBlocks(b) => b.Repr()
      case ToBuffers(v) => v.Repr()
      case CheckOnly(c) => {c}
    }

    ghost predicate Valid()
      reads Anchor(), Repr()
    {
      match this
      case ToArray(a) => a.Valid()
      case ToBlocks(b) => b.Valid()
      case ToBuffers(v) => v.Valid() && v.Roomy()
      case CheckOnly(c) => c.Valid()
    }

    /** What has been written. */
    ghost function Out(): seq<byte>
      reads Anchor()
    {
      match this
      case ToArray(a) => a.out
      case ToBlocks(b) => b.out
      case ToBuffers(v) => v.out
      case CheckOnly(c) => c.out
    }

    ghost function Limit(): int
      reads Anchor()
    {
      match this
      case ToArray(a) => a.Limit()
      case ToBlocks(b) => b.expected
      case ToBuffers(v) => v.outputLimit
      case CheckOnly(c) => c.expected
    }

    /** Whether the writer can be told to expect `len` bytes: nothing written yet, and room where it is given. */
    ghost predicate Accepts(len: nat)
      reads Anchor(), Repr()
    {
      Out() == [] &&
      match this
      case ToArray(a) => a.Valid() && a.op + len <= a.dst.Length
      case ToBlocks(b) => b.Valid() && b.blocks == []
      case ToBuffers(v) => v.Valid() && len <= Start(v.iov, |v.iov|)
      case CheckOnly(c) => c.Valid()
    }

    method SetExpectedLength(len: nat)
      requires Accepts(len)
      modifies Repr()
      ensures Valid() && Out() == [] && Limit() == len && Repr() == old(Repr())
    {
      match this
      case ToArray(a) => a.SetExpectedLength(len);
      case ToBlocks(b) => b.SetExpectedLength(len);
      case ToBuffers(v) => v.SetExpectedLength(len);
      case CheckOnly(c) => c.SetExpectedLength(len);
    }

    predicate CheckLength()
      requires Valid()
      reads Anchor(), Repr()
      ensures CheckLength() <==> |Out()| == Limit()
    {
      match this
      case ToArray(a) => a.CheckLength()
      case ToBlocks(b) => b.CheckLength()
      case ToBuffers(v) => v.CheckLength()
      case CheckOnly(c) => c.CheckLength()
    }

    method Append(ip: seq<byte>) returns (ok: bool)
      requires Valid()
      modifies Repr()
      ensures ok <==> |old(Out())| + |ip| <= Limit()
      ensures ok ==> Valid() && Out() == old(Out()) + ip
      ensures Limit() == old(Limit()) && fresh(Repr() - old(Repr()))
    {
      match this
      case ToArray(a) => ok := a.Append(ip);
      case ToBlocks(b) => ok := b.Append(ip);
      case ToBuffers(v) => ok := v.Append(ip);
      case CheckOnly(c) => ok := c.Append(ip);
    }

    /** May decline; `ip` is all the input at hand, of which `len` bytes are wanted. */
    method TryFastAppend(ip: seq<byte>, len: nat) returns (ok: bool)
      requires Valid()
      modifies Repr()
      ensures ok ==> len + MAX_TAG <= |ip| && len < 61 && |old(Out())| + len <= Limit()
      ensures Valid() && Out() == if ok then old(Out()) + ip[..len] else old(Out())
      ensures Limit() == old(Limit()) && fresh(Repr() - old(Repr()))
    {
      match this
      case ToArray(a) => ok := a.TryFastAppend(ip, len);
      case ToBlocks(b) => ok := b.TryFastAppend(ip, len);
      case ToBuffers(v) => ok := v.TryFastAppend(ip, len);
      case CheckOnly(c) => ok := false;
    }

    method AppendFromSelf(offset: nat, len: nat) returns (ok: bool)
      requires Valid() && len <= 64
      modifies Repr()
      ensures ok <==> 1 <= offset <= |old(Out())| && |old(Out())| + len <= Limit()
      ensures ok ==> Valid() && Out() == Repeat(old(Out()), offset, len)
      ensures Limit() == old(Limit()) && fresh(Repr() - old(Repr()))
    {
      match this
      case ToArray(a) => ok := a.AppendFromSelf(offset, len);
      case ToBlocks(b) => ok := b.AppendFromSelf(offset, len);
      case ToBuffers(v) => ok := v.AppendFromSelf(offset, len);
      case CheckOnly(c) => ok := c.AppendFromSelf(offset, len);
    }
  }
}

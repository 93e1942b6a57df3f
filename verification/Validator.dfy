/** The writer that keeps nothing and only checks; what it would have written is known to the proof alone. */
module Validator {
  import opened Bytes
  import opened SnappyFormat

  class Validator {
    var expected: nat
    var produced: nat
    ghost var out: seq<byte>

    ghost predicate Valid()
      reads this
    {
      produced == |out| <= expected
    }

    constructor ()
      ensures Valid() && out == [] && expected == 0
    {
      expected, produced, out := 0, 0, [];
    }

    method SetExpectedLength(len: nat)
      requires Valid() && out == []
      modifies this`expected
      ensures Valid() && expected == len
    {
      expected := len;
    }

    predicate CheckLength()
      requires Valid()
      reads this
      ensures CheckLength() <==> |out| == expected
    {
      expected == produced
    }

    method Append(ip: seq<byte>) returns (ok: bool)
      requires Valid()
      modifies this`produced, this`out
      ensures ok <==> |old(out)| + |ip| <= expected
      ensures ok ==> Valid() && out == old(out) + ip
    {
      produced, out := produced + |ip|, out + ip;
      return produced <= expected;
    }

    method AppendFromSelf(offset: nat, len: nat) returns (ok: bool)
      requires Valid()
      modifies this`produced, this`out
      ensures ok <==> 1 <= offset <= |old(out)| && |old(out)| + len <= expected
      ensures ok ==> Valid() && out == Repeat(old(out), offset, len)
    {
      if offset == 0 || produced < offset {
        return false;
      }
      produced, out := produced + len, Repeat(out, offset, len);
      return produced <= expected;
    }
  }
}

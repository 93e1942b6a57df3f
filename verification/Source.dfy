/** A source of bytes that hands them out in chunks. */
module Source {
  import opened Bytes
  import opened Sequences

  class Source {
    var chunks: seq<seq<byte>>

    /** Only the end of the input looks empty. */
    ghost predicate Valid()
      reads this
    {
      forall i :: 0 <= i < |chunks| ==> chunks[i] != []
    }

    ghost function Rest(): seq<byte>
      reads this
    {
      Flatten(chunks)
    }

    constructor (chunks: seq<seq<byte>>)
      requires forall i :: 0 <= i < |chunks| ==> chunks[i] != []
      ensures Valid() && Rest() == Flatten(chunks)
    {
      this.chunks := chunks;
    }

    /** ByteArraySource: all of `data` in one chunk. */
    constructor Flat(data: seq<byte>)
      ensures Valid() && Rest() == data
    {
      chunks := if data == [] then [] else [data];
      new;
      FlattenOne(data);
    }

    method Available() returns (n: nat)
      ensures n == |Rest()|
    {
      n := 0;
      ghost var done: seq<seq<byte>> := [];
      assert chunks[..0] == [];
      for i := 0 to |chunks|
        invariant n == |Flatten(chunks[..i])|
      {
        n := n + |chunks[i]|;
        assert chunks[..i + 1] == chunks[..i] + [chunks[i]];
        FlattenConcat(chunks[..i], [chunks[i]]);
        FlattenOne(chunks[i]);
      }
      assert chunks[..|chunks|] == chunks;
    }

    /** The bytes that can be looked at without being consumed. */
    method Peek() returns (chunk: seq<byte>)
      requires Valid()
      ensures chunk <= Rest() && (chunk == [] <==> Rest() == [])
      ensures chunk == if chunks == [] then [] else chunks[0]
    {
      chunk := if chunks == [] then [] else chunks[0];
    }

    /** Consumes `n` of the bytes Peek shows. */
    method Skip(n: nat)
      requires Valid() && n <= (if chunks == [] then 0 else |chunks[0]|)
      modifies this
      ensures Valid() && n <= |old(Rest())| && Rest() == old(Rest())[n..]
    {
      if n > 0 {
        var head := chunks[0];
        assert head + Flatten(chunks[1..]) == Flatten(chunks);
        if n == |head| {
          chunks := chunks[1..];
        } else {
          chunks := [head[n..]] + chunks[1..];
          assert chunks[1..] == old(chunks)[1..];
        }
      }
    }
  }
}

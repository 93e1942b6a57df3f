/** Copying into byte arrays. */
module Memory {
  import opened Bytes

  /** memcpy of bytes read beforehand: overwrites the bytes from `i` on with `s`. */
  method Store(buffer: array<byte>, i: nat, s: seq<byte>)
    requires i + |s| <= buffer.Length
    modifies buffer
    ensures buffer[i..i + |s|] == s
    ensures forall j :: 0 <= j < buffer.Length ==>
      buffer[j] == if i <= j < i + |s| then s[j - i] else old(buffer[j])
  {
    for k := 0 to |s|
      invariant forall j :: 0 <= j < buffer.Length ==>
        buffer[j] == if i <= j < i + k then s[j - i] else old(buffer[j])
    {
      buffer[i + k] := s[k];
    }
  }
}

/** Bytes as bits, and little-endian words made of them. */
module Words {
  import opened Bytes

  function ToBits(b: byte): bv8 {
    b as bv8
  }

  function FromBits(v: bv8): byte {
    v as int
  }

  lemma ToFromBits(v: bv8)
    ensures ToBits(FromBits(v)) == v
  {
  }

  /** Counting up to `b` in bits. */
  lemma BitsOf(b: byte) returns (v: bv8)
    ensures FromBits(v) == b
  {
    var k := 0;
    v := 0;
    while k < b
      invariant 0 <= k <= b && v as int == k
    {
      k := k + 1;
      v := v + 1;
    }
  }

  lemma FromToBits(b: byte)
    ensures FromBits(ToBits(b)) == b
  {
    var v := BitsOf(b);
    ToFromBits(v);
  }

  function Word64(b0: bv8, b1: bv8, b2: bv8, b3: bv8, b4: bv8, b5: bv8, b6: bv8, b7: bv8): bv64 {
    (b0 as bv64) | ((b1 as bv64) << 8) | ((b2 as bv64) << 16) | ((b3 as bv64) << 24)
    | ((b4 as bv64) << 32) | ((b5 as bv64) << 40) | ((b6 as bv64) << 48) | ((b7 as bv64) << 56)
  }

  function Low64(w: bv64): bv8 {
    (w & 0xff) as bv8
  }

  function Word32(b0: bv8, b1: bv8, b2: bv8, b3: bv8): bv32 {
    (b0 as bv32) | ((b1 as bv32) << 8) | ((b2 as bv32) << 16) | ((b3 as bv32) << 24)
  }

  function Low32(w: bv32): bv8 {
    (w & 0xff) as bv8
  }
}

// Shared vocabulary: bytes are bit-vectors, as the arithmetic on them is.

module Bytes {
  type byte = bv8

  datatype Option<+T> = None | Some(value: T)

  lemma Increment(b: byte)
    requires b < 255
    ensures (b + 1) as int == b as int + 1
  {
  }

  lemma {:induction false} ByteFor(n: nat) returns (b: byte)
    requires n < 256
    ensures b as int == n
  {
    if n == 0 {
      b := 0;
    } else {
      b := ByteFor(n - 1);
      assert b != 255;
      Increment(b);
      b := b + 1;
    }
  }

  // A length below 256 survives being written as one byte.
  lemma NumberRoundTrip(n: nat)
    requires n < 256
    ensures (n as byte) as int == n
  {
    var b := ByteFor(n);
    assert n as byte == b;
  }
}

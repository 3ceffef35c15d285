/** Conversions between table indices and the byte values that hold them. */
module ByteConversion {
  /** A table index survives the trip into a byte and back. */
  lemma IntBv8RoundTrip(i: nat)
    requires i < 64
    ensures (i as bv8) as int == i
  {
  }

  /** A byte survives the trip into an integer and back. */
  lemma Bv8IntRoundTrip(x: bv8)
    ensures (x as int) as bv8 == x
  {
  }
}

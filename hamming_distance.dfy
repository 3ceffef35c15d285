/** Bit-level Hamming distance between byte buffers: the behaviour the key-length
    scan relies on from its external Hamming-distance crate. */
module HammingDistance {
  import opened Wrappers

  /** Why a distance could not be computed. */
  datatype HammingError = LengthMismatch(left: nat, right: nat)

  /** Number of set bits in one byte. */
  function Popcount(x: bv8): (r: nat)
    ensures r <= 8
    ensures r == 0 <==> x == 0
  {
    (if x & 0x01 != 0 then 1 else 0) + (if x & 0x02 != 0 then 1 else 0) +
    (if x & 0x04 != 0 then 1 else 0) + (if x & 0x08 != 0 then 1 else 0) +
    (if x & 0x10 != 0 then 1 else 0) + (if x & 0x20 != 0 then 1 else 0) +
    (if x & 0x40 != 0 then 1 else 0) + (if x & 0x80 != 0 then 1 else 0)
  }

  /** Total number of differing bits of two equal-length buffers:
      the sum over positions of Popcount(a[i] ^ b[i]). */
  function BitDistance(a: seq<bv8>, b: seq<bv8>): (r: nat)
    requires |a| == |b|
    ensures r <= 8 * |a|
    ensures r == 0 <==> a == b
  {
    if |a| == 0 then 0
    else
      assert a == [a[0]] + a[1..] && b == [b[0]] + b[1..];
      Popcount(a[0] ^ b[0]) + BitDistance(a[1..], b[1..])
  }

  /** `bitwise_hamming_distance`: fails when the lengths differ. */
  function BitwiseHammingDistance(a: seq<bv8>, b: seq<bv8>): (r: Result<nat, HammingError>)
    ensures r.Err? <==> |a| != |b|
    ensures r.Err? ==> r.error == LengthMismatch(|a|, |b|)
    ensures r.Ok? ==> r.value <= 8 * |a|
  {
    if |a| != |b| then Err(LengthMismatch(|a|, |b|)) else Ok(BitDistance(a, b))
  }

  /** The distance does not depend on the order of its arguments. */
  lemma {:induction false} BitDistanceSymmetric(a: seq<bv8>, b: seq<bv8>)
    requires |a| == |b|
    ensures BitDistance(a, b) == BitDistance(b, a)
  {
    if |a| > 0 {
      assert a[0] ^ b[0] == b[0] ^ a[0];
      BitDistanceSymmetric(a[1..], b[1..]);
    }
  }

  /** The two examples of the distance on single bytes: 0x01 and 0x03 differ in
      one bit, 0x01 and 0xFF in seven. */
  lemma SingleByteExamples()
    ensures BitwiseHammingDistance([0x01], [0x03]) == Ok(1)
    ensures BitwiseHammingDistance([0x01], [0xFF]) == Ok(7)
  {
    assert [0x01 as bv8][1..] == [];
  }
}

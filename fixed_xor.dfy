/** `FixedXor::fixed_xor` for byte vectors: elementwise XOR of two buffers of
    equal length. */
module FixedXor {
  import opened Wrappers

  /** The source's "Input vectors do not have equal length" error. */
  datatype XorError = UnequalLengths

  /** XOR of `self` and `other`, position by position; an error, and no partial
      result, when their lengths differ. */
  function FixedXor(self: seq<bv8>, other: seq<bv8>): (r: Result<seq<bv8>, XorError>)
    ensures r.Err? <==> |self| != |other|
    ensures r.Ok? ==> |r.value| == |self| == |other|
    ensures r.Ok? ==> forall i :: 0 <= i < |self| ==> r.value[i] == self[i] ^ other[i]
  {
    if |self| != |other| then Err(UnequalLengths)
    else Ok(seq(|self|, i requires 0 <= i < |self| => self[i] ^ other[i]))
  }

  /** `a.fixed_xor(b) == b.fixed_xor(a)`, including the error case. */
  lemma Commutative(a: seq<bv8>, b: seq<bv8>)
    ensures FixedXor(a, b) == FixedXor(b, a)
  {
    if |a| == |b| {
      var ab, ba := FixedXor(a, b).value, FixedXor(b, a).value;
      forall i | 0 <= i < |a| ensures ab[i] == ba[i] {
        assert a[i] ^ b[i] == b[i] ^ a[i];
      }
      assert ab == ba;
    }
  }

  /** XOR-ing the result with `other` once more gives back `self`. */
  lemma Involution(self: seq<bv8>, other: seq<bv8>)
    requires |self| == |other|
    ensures FixedXor(FixedXor(self, other).value, other) == Ok(self)
  {
    var once := FixedXor(self, other).value;
    var twice := FixedXor(once, other).value;
    forall i | 0 <= i < |self| ensures twice[i] == self[i] {
      assert (self[i] ^ other[i]) ^ other[i] == self[i];
    }
    assert twice == self;
  }

  /** The repository's test: 1c0111001f010100061a024b53535009181c XOR
      686974207468652062756c6c277320657965 is 746865206b696420646f6e277420706c6179. */
  lemma TestVector()
    ensures FixedXor(
      [0x1c, 0x01, 0x11, 0x00, 0x1f, 0x01, 0x01, 0x00, 0x06, 0x1a, 0x02, 0x4b, 0x53, 0x53, 0x50, 0x09, 0x18, 0x1c],
      [0x68, 0x69, 0x74, 0x20, 0x74, 0x68, 0x65, 0x20, 0x62, 0x75, 0x6c, 0x6c, 0x27, 0x73, 0x20, 0x65, 0x79, 0x65])
      == Ok([0x74, 0x68, 0x65, 0x20, 0x6b, 0x69, 0x64, 0x20, 0x64, 0x6f, 0x6e, 0x27, 0x74, 0x20, 0x70, 0x6c, 0x61, 0x79])
  {
    var a: seq<bv8> := [0x1c, 0x01, 0x11, 0x00, 0x1f, 0x01, 0x01, 0x00, 0x06, 0x1a, 0x02, 0x4b, 0x53, 0x53, 0x50, 0x09, 0x18, 0x1c];
    var b: seq<bv8> := [0x68, 0x69, 0x74, 0x20, 0x74, 0x68, 0x65, 0x20, 0x62, 0x75, 0x6c, 0x6c, 0x27, 0x73, 0x20, 0x65, 0x79, 0x65];
    var c: seq<bv8> := [0x74, 0x68, 0x65, 0x20, 0x6b, 0x69, 0x64, 0x20, 0x64, 0x6f, 0x6e, 0x27, 0x74, 0x20, 0x70, 0x6c, 0x61, 0x79];
    var r := FixedXor(a, b).value;
    forall i | 0 <= i < |c| ensures r[i] == c[i] {
      XorByte(a, b, c, i);
    }
    assert r == c;
  }

  /** One byte of the test vector. */
  lemma XorByte(a: seq<bv8>, b: seq<bv8>, c: seq<bv8>, i: nat)
    requires a == [0x1c, 0x01, 0x11, 0x00, 0x1f, 0x01, 0x01, 0x00, 0x06, 0x1a, 0x02, 0x4b, 0x53, 0x53, 0x50, 0x09, 0x18, 0x1c]
    requires b == [0x68, 0x69, 0x74, 0x20, 0x74, 0x68, 0x65, 0x20, 0x62, 0x75, 0x6c, 0x6c, 0x27, 0x73, 0x20, 0x65, 0x79, 0x65]
    requires c == [0x74, 0x68, 0x65, 0x20, 0x6b, 0x69, 0x64, 0x20, 0x64, 0x6f, 0x6e, 0x27, 0x74, 0x20, 0x70, 0x6c, 0x61, 0x79]
    requires i < 18
    ensures a[i] ^ b[i] == c[i]
  {
    if i < 9 {
      if i < 3 { } else if i < 6 { } else { }
    } else {
      if i < 12 { } else if i < 15 { } else { }
    }
  }
}

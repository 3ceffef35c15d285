/** `RepeatingXorEncodable::repeating_xor_encode` for strings: every byte of the
    input is XOR-ed with the next byte of the key, the key being cycled. Both
    strings are taken as their byte sequences. */
module RepeatingXor {
  import opened Wrappers
  import FixedXor
  import HammingDistance

  /** The key byte that meets input position `i`. */
  function KeyByteAt(key: seq<bv8>, i: nat): bv8
    requires |key| > 0
  {
    key[i % |key|]
  }

  /** Repeating-key XOR of `input` under `key`.  An empty key is only allowed on
      an empty input (the cycled iterator of an empty key yields nothing, and
      the source's `unwrap` panics on the first input byte). */
  function RepeatingXor(input: seq<bv8>, key: seq<bv8>): (r: seq<bv8>)
    requires |input| == 0 || |key| > 0
  {
    seq(|input|, i requires 0 <= i < |input| => input[i] ^ KeyByteAt(key, i))
  }

  /** The loop of `repeating_xor_encode`: `cycle` is the position of the cycled
      key iterator, advanced once per input byte and wrapped at the key's end. */
  method RepeatingXorEncode(input: seq<bv8>, key: seq<bv8>) returns (out: seq<bv8>)
    requires |input| == 0 || |key| > 0
    ensures |out| == |input|
    ensures forall i :: 0 <= i < |input| ==> out[i] == input[i] ^ key[i % |key|]
    ensures out == RepeatingXor(input, key)
  {
    out := [];
    var cycle := 0;
    for i := 0 to |input|
      invariant |out| == i
      invariant |key| > 0 ==> cycle == i % |key|
      invariant forall j :: 0 <= j < i ==> out[j] == input[j] ^ key[j % |key|]
    {
      out := out + [input[i] ^ key[cycle]];
      CycleStep(i, |key|);
      cycle := if cycle + 1 == |key| then 0 else cycle + 1;
    }
    assert out == RepeatingXor(input, key);
  }

  /** Advancing the cycled iterator: the next position modulo `n`. */
  lemma CycleStep(i: nat, n: nat)
    requires n > 0
    ensures (i + 1) % n == if i % n + 1 == n then 0 else i % n + 1
  {
    var q, r := i / n, i % n;
    assert i == q * n + r;
    if r + 1 == n {
      assert i + 1 == (q + 1) * n + 0;
      ModUnique(i + 1, n, q + 1, 0);
    } else {
      ModUnique(i + 1, n, q, r + 1);
    }
  }

  /** The remainder is determined by any quotient-remainder decomposition. */
  lemma ModUnique(x: int, n: int, q: int, r: int)
    requires n > 0 && 0 <= r < n && x == q * n + r
    ensures x % n == r
  {
    var q', r' := x / n, x % n;
    assert x == q' * n + r';
    assert (q - q') * n == q * n - q' * n;
    assert (q - q') * n == r' - r;
    if q > q' {
      MulAtLeast(q - q', n);
    } else if q < q' {
      MulAtLeast(q' - q, n);
    }
  }

  lemma MulAtLeast(a: int, n: int)
    requires a >= 1 && n > 0
    ensures a * n >= n
  {
    assert a * n == (a - 1) * n + n;
    assert (a - 1) * n >= 0;
  }

  /** Encoding the encoded bytes again with the same key restores the input. */
  lemma EncodeTwiceRestores(input: seq<bv8>, key: seq<bv8>)
    requires |input| == 0 || |key| > 0
    ensures RepeatingXor(RepeatingXor(input, key), key) == input
  {
    var twice := RepeatingXor(RepeatingXor(input, key), key);
    forall i | 0 <= i < |input| ensures twice[i] == input[i] {
      var k := KeyByteAt(key, i);
      assert (input[i] ^ k) ^ k == input[i];
    }
    assert twice == input;
  }

  /** The empty input encodes to the empty output under any key, even an empty one. */
  lemma EmptyInput(key: seq<bv8>)
    ensures RepeatingXor([], key) == []
  {
  }

  /** A one-byte key XORs every input byte with that same byte. */
  lemma SingleByteKey(input: seq<bv8>, k: bv8)
    ensures var r := RepeatingXor(input, [k]);
      |r| == |input| && forall i :: 0 <= i < |input| ==> r[i] == input[i] ^ k
  {
  }

  /** With a key as long as the input, repeating-key XOR is the fixed XOR of the
      input and the key. */
  lemma FullLengthKeyIsFixedXor(input: seq<bv8>, key: seq<bv8>)
    requires |input| == |key| > 0
    ensures FixedXor.FixedXor(input, key) == Ok(RepeatingXor(input, key))
  {
    var r := RepeatingXor(input, key);
    var f := FixedXor.FixedXor(input, key).value;
    forall i | 0 <= i < |input| ensures f[i] == r[i] {
      assert i % |key| == i;
    }
    assert f == r;
  }

  /** The key cancels at the key's own length: the bit distance between the first
      two key-length blocks of the ciphertext equals that of the plaintext, which
      is why the key-length scan ranks the true key length low. */
  lemma {:induction false} KeyCancelsAtKeyLength(plain: seq<bv8>, key: seq<bv8>)
    requires 0 < |key| && 2 * |key| <= |plain|
    ensures var cipher, n := RepeatingXor(plain, key), |key|;
      HammingDistance.BitDistance(cipher[..n], cipher[n..2 * n]) ==
      HammingDistance.BitDistance(plain[..n], plain[n..2 * n])
  {
    var cipher, n := RepeatingXor(plain, key), |key|;
    var p, q, c, d := plain[..n], plain[n..2 * n], cipher[..n], cipher[n..2 * n];
    forall i | 0 <= i < n ensures c[i] == p[i] ^ key[i] && d[i] == q[i] ^ key[i] {
      KeyBlocks(plain, key, i);
    }
    BlockDistanceUnderKey(p, q, key, c, d);
  }

  /** Position `i` of the first two key-length blocks meets key byte `i`. */
  lemma KeyBlocks(plain: seq<bv8>, key: seq<bv8>, i: nat)
    requires 0 < |key| && 2 * |key| <= |plain| && i < |key|
    ensures var cipher := RepeatingXor(plain, key);
      cipher[i] == plain[i] ^ key[i] && cipher[|key| + i] == plain[|key| + i] ^ key[i]
  {
    ModUnique(i, |key|, 0, i);
    ModUnique(|key| + i, |key|, 1, i);
  }

  /** Helper of KeyCancelsAtKeyLength: XOR-ing the same byte into both
      operands at every position leaves the bit distance unchanged. */
  lemma {:induction false} BlockDistanceUnderKey(p: seq<bv8>, q: seq<bv8>, k: seq<bv8>, c: seq<bv8>, d: seq<bv8>)
    requires |p| == |q| == |k| == |c| == |d|
    requires forall i :: 0 <= i < |p| ==> c[i] == p[i] ^ k[i] && d[i] == q[i] ^ k[i]
    ensures HammingDistance.BitDistance(c, d) == HammingDistance.BitDistance(p, q)
  {
    if |p| > 0 {
      assert c[0] ^ d[0] == p[0] ^ q[0];
      BlockDistanceUnderKey(p[1..], q[1..], k[1..], c[1..], d[1..]);
    }
  }
}

/** The key-length scan used to break repeating-key XOR: for each candidate
    key length L it compares the first L bytes of a ciphertext with the next
    L bytes, normalises their bit-level Hamming distance by L, and returns
    the candidates ordered from most to least promising. */
module Utility {
  import opened Wrappers
  import opened HammingDistance

  /** Exclusive upper bound of the scanned key lengths (`1..40`). */
  const KeyLenBound: nat := 40

  /** One entry of the result: the normalised edit distance and the key length. */
  datatype Candidate = Candidate(distance: real, keyLen: nat)

  /** Why the scan fails: too few bytes to compare two blocks, or a failing
      Hamming-distance computation for some key length. */
  datatype ScanError = TooShort(len: nat) | HammingFailed(keyLen: nat, cause: HammingError)

  /** Number of key lengths scanned for `n` bytes: L runs from 1 while
      L <= n / 2, and never reaches the bound 40. */
  function CandidateCount(n: nat): (r: nat)
    ensures r < KeyLenBound && r <= n / 2
    ensures r == n / 2 || r == KeyLenBound - 1
  {
    if n / 2 < KeyLenBound - 1 then n / 2 else KeyLenBound - 1
  }

  /** The Hamming distance of bytes[..L] and bytes[L..2L], divided by L. */
  function NormalisedDistance(bytes: seq<bv8>, keyLen: nat): real
    requires 1 <= keyLen && 2 * keyLen <= |bytes|
  {
    BitDistance(bytes[..keyLen], bytes[keyLen..2 * keyLen]) as real / keyLen as real
  }

  /** The entries the loop pushes, for key lengths 1..k in order. */
  function Generated(bytes: seq<bv8>, k: nat): (r: seq<Candidate>)
    requires 2 * k <= |bytes|
    ensures |r| == k
  {
    seq(k, i requires 0 <= i < k => Candidate(NormalisedDistance(bytes, i + 1), i + 1))
  }

  // ---------------------------------------------------------------------------
  // The stable sort by distance
  // ---------------------------------------------------------------------------

  /** Inserts `c` before the first entry whose distance is not smaller. */
  function Insert(c: Candidate, s: seq<Candidate>): seq<Candidate>
  {
    if |s| == 0 then [c]
    else if c.distance <= s[0].distance then [c] + s
    else [s[0]] + Insert(c, s[1..])
  }

  /** `sort_by` on the distance: a stable sort, so entries with equal
      distances keep the order in which they were pushed. */
  function SortByDistance(s: seq<Candidate>): seq<Candidate>
  {
    if |s| == 0 then [] else Insert(s[0], SortByDistance(s[1..]))
  }

  /** `a` comes before `b`: a smaller distance, or the same distance and a
      shorter key. */
  predicate Before(a: Candidate, b: Candidate)
  {
    a.distance < b.distance || (a.distance == b.distance && a.keyLen < b.keyLen)
  }

  /** Each entry comes before every later one. */
  predicate Ordered(s: seq<Candidate>)
  {
    forall i, j :: 0 <= i < j < |s| ==> Before(s[i], s[j])
  }

  /** The key lengths strictly increase along `s`. */
  predicate IncreasingKeyLens(s: seq<Candidate>)
  {
    forall i, j :: 0 <= i < j < |s| ==> s[i].keyLen < s[j].keyLen
  }

  lemma {:induction false} InsertPermutation(c: Candidate, s: seq<Candidate>)
    ensures multiset(Insert(c, s)) == multiset(s) + multiset{c}
    decreases |s|
  {
    if |s| > 0 && c.distance > s[0].distance {
      InsertPermutation(c, s[1..]);
      assert s == [s[0]] + s[1..];
    }
  }

  lemma {:induction false} SortPermutation(s: seq<Candidate>)
    ensures multiset(SortByDistance(s)) == multiset(s)
    decreases |s|
  {
    if |s| > 0 {
      SortPermutation(s[1..]);
      InsertPermutation(s[0], SortByDistance(s[1..]));
      assert s == [s[0]] + s[1..];
    }
  }

  /** Inserting an entry whose key is shorter than all others keeps the order. */
  lemma {:induction false} InsertOrdered(c: Candidate, s: seq<Candidate>)
    requires Ordered(s)
    requires forall y :: y in s ==> c.keyLen < y.keyLen
    ensures Ordered(Insert(c, s))
    decreases |s|
  {
    if |s| > 0 {
      if c.distance <= s[0].distance {
        var r := [c] + s;
        forall i, j | 0 <= i < j < |r| ensures Before(r[i], r[j]) {
          if i == 0 {
            assert s[j - 1] in s;
            if j > 1 { assert Before(s[0], s[j - 1]); }
          } else {
            assert Before(s[i - 1], s[j - 1]);
          }
        }
      } else {
        var t := s[1..];
        forall y | y in t ensures c.keyLen < y.keyLen { assert y in s; }
        assert Ordered(t) by {
          forall i, j | 0 <= i < j < |t| ensures Before(t[i], t[j]) { assert Before(s[i + 1], s[j + 1]); }
        }
        InsertOrdered(c, t);
        var u := Insert(c, t);
        InsertPermutation(c, t);
        forall k | 0 <= k < |u| ensures Before(s[0], u[k]) {
          assert u[k] in multiset(u);
          if u[k] != c {
            assert u[k] in multiset(t);
            var m :| 0 <= m < |t| && t[m] == u[k];
            assert Before(s[0], s[m + 1]);
          }
        }
        var r := [s[0]] + u;
        forall i, j | 0 <= i < j < |r| ensures Before(r[i], r[j]) {
          if i > 0 { assert Before(u[i - 1], u[j - 1]); }
        }
      }
    }
  }

  /** Sorting entries pushed with increasing key lengths orders them by
      distance, ties by key length. */
  lemma {:induction false} SortOrdered(s: seq<Candidate>)
    requires IncreasingKeyLens(s)
    ensures Ordered(SortByDistance(s))
    decreases |s|
  {
    if |s| > 0 {
      var t := s[1..];
      assert IncreasingKeyLens(t) by {
        forall i, j | 0 <= i < j < |t| ensures t[i].keyLen < t[j].keyLen { assert s[i + 1].keyLen < s[j + 1].keyLen; }
      }
      SortOrdered(t);
      SortPermutation(t);
      forall y | y in SortByDistance(t) ensures s[0].keyLen < y.keyLen {
        assert y in multiset(SortByDistance(t));
        assert y in multiset(t);
        var m :| 0 <= m < |t| && t[m] == y;
        assert s[0].keyLen < s[m + 1].keyLen;
      }
      InsertOrdered(s[0], SortByDistance(t));
    }
  }

  // ---------------------------------------------------------------------------
  // The scan
  // ---------------------------------------------------------------------------

  /** What `find_normalized_edit_distances` returns. */
  function KeyLengthCandidates(bytes: seq<bv8>): Result<seq<Candidate>, ScanError>
  {
    if |bytes| < 2 then Err(TooShort(|bytes|))
    else Ok(SortByDistance(Generated(bytes, CandidateCount(|bytes|))))
  }

  /** `find_normalized_edit_distances`: rejects fewer than two bytes, pushes
      one entry per key length 1..39 while the length is at most half the
      input, and sorts the entries by distance. The branch that would return
      HammingFailed is proved unreachable: both slices have length L. */
  method FindNormalizedEditDistances(bytes: seq<bv8>) returns (r: Result<seq<Candidate>, ScanError>)
    ensures r == KeyLengthCandidates(bytes)
  {
    if |bytes| < 2 {
      return Err(TooShort(|bytes|));
    }
    var candidates: seq<Candidate> := [];
    var scanned := 0;
    for keyLen := 1 to KeyLenBound
      invariant scanned == keyLen - 1 && 2 * scanned <= |bytes|
      invariant candidates == Generated(bytes, scanned)
    {
      if keyLen > |bytes| / 2 {
        break;
      }
      var editDistance := BitwiseHammingDistance(bytes[..keyLen], bytes[keyLen..keyLen * 2]);
      match editDistance {
        case Ok(ed) =>
          candidates := candidates + [Candidate(ed as real / keyLen as real, keyLen)];
        case Err(e) =>
          assert false;
      }
      scanned := keyLen;
    }
    assert scanned == CandidateCount(|bytes|);
    candidates := SortByDistance(candidates);
    return Ok(candidates);
  }

  // ---------------------------------------------------------------------------
  // Properties of the scan
  // ---------------------------------------------------------------------------

  /** The scan fails exactly on inputs of fewer than two bytes, and reports the length. */
  lemma CandidatesOutcome(bytes: seq<bv8>)
    ensures KeyLengthCandidates(bytes).Err? <==> |bytes| < 2
    ensures KeyLengthCandidates(bytes).Err? ==> KeyLengthCandidates(bytes).error == TooShort(|bytes|)
  {
  }

  /** A count of differing bits divided by the block length. */
  lemma RatioBounds(ed: nat, len: nat)
    requires 1 <= len && ed <= 8 * len
    ensures 0.0 <= ed as real / len as real <= 8.0
    ensures ed as real / len as real == 0.0 <==> ed == 0
  {
    var d := ed as real / len as real;
    assert d * len as real == ed as real;
  }

  /** A normalised distance lies between 0 and 8, and is 0 exactly when the
      two blocks are equal. */
  lemma NormalisedDistanceBounds(bytes: seq<bv8>, keyLen: nat)
    requires 1 <= keyLen && 2 * keyLen <= |bytes|
    ensures 0.0 <= NormalisedDistance(bytes, keyLen) <= 8.0
    ensures NormalisedDistance(bytes, keyLen) == 0.0 <==> bytes[..keyLen] == bytes[keyLen..2 * keyLen]
  {
    RatioBounds(BitDistance(bytes[..keyLen], bytes[keyLen..2 * keyLen]), keyLen);
  }

  /** The entries of the result are those pushed, in another order. */
  lemma CandidatesPermutation(bytes: seq<bv8>)
    requires |bytes| >= 2
    ensures var r := KeyLengthCandidates(bytes).value;
      multiset(r) == multiset(Generated(bytes, CandidateCount(|bytes|))) &&
      |r| == CandidateCount(|bytes|) >= 1
  {
    var g := Generated(bytes, CandidateCount(|bytes|));
    SortPermutation(g);
    assert |SortByDistance(g)| == |g| by { assert |multiset(SortByDistance(g))| == |multiset(g)|; }
  }

  /** On success there is exactly one entry per key length 1..min(39, n/2),
      carrying the normalised distance for that length, and nothing else. */
  lemma CandidatesContents(bytes: seq<bv8>)
    requires |bytes| >= 2
    ensures var r := KeyLengthCandidates(bytes).value;
      var count := CandidateCount(|bytes|);
      (forall c :: c in r ==> 1 <= c.keyLen <= count && c.distance == NormalisedDistance(bytes, c.keyLen)) &&
      (forall len :: 1 <= len <= count ==> Candidate(NormalisedDistance(bytes, len), len) in r)
  {
    var count := CandidateCount(|bytes|);
    var g := Generated(bytes, count);
    var r := SortByDistance(g);
    CandidatesPermutation(bytes);
    forall c | c in r ensures 1 <= c.keyLen <= count && c.distance == NormalisedDistance(bytes, c.keyLen) {
      assert c in multiset(r);
      assert c in multiset(g);
      var i :| 0 <= i < |g| && g[i] == c;
    }
    forall len | 1 <= len <= count ensures Candidate(NormalisedDistance(bytes, len), len) in r {
      assert g[len - 1] in multiset(g);
      assert g[len - 1] in multiset(r);
    }
  }

  /** On success the entries are sorted by distance, and equal distances keep
      the increasing key-length order in which they were pushed. */
  lemma CandidatesSorted(bytes: seq<bv8>)
    requires |bytes| >= 2
    ensures var r := KeyLengthCandidates(bytes).value;
      (forall i, j :: 0 <= i < j < |r| ==> r[i].distance <= r[j].distance) &&
      (forall i, j :: 0 <= i < j < |r| && r[i].distance == r[j].distance ==> r[i].keyLen < r[j].keyLen)
  {
    var g := Generated(bytes, CandidateCount(|bytes|));
    assert IncreasingKeyLens(g);
    SortOrdered(g);
  }

  /** The best candidate heads the result: if the entry for `len` comes before
      the entries of all other key lengths, it is the first one. */
  lemma BestCandidate(bytes: seq<bv8>, len: nat)
    requires |bytes| >= 2 && 1 <= len <= CandidateCount(|bytes|)
    requires forall l :: 1 <= l <= CandidateCount(|bytes|) && l != len ==>
      Before(Candidate(NormalisedDistance(bytes, len), len), Candidate(NormalisedDistance(bytes, l), l))
    ensures var r := KeyLengthCandidates(bytes);
      r.Ok? && |r.value| > 0 && r.value[0] == Candidate(NormalisedDistance(bytes, len), len)
  {
    var r := KeyLengthCandidates(bytes).value;
    var best := Candidate(NormalisedDistance(bytes, len), len);
    CandidatesContents(bytes);
    CandidatesSorted(bytes);
    var k :| 0 <= k < |r| && r[k] == best;
    assert r[0] in r;
  }

  /** The test vectors: the best candidate of each input. [1, 2] is best at
      key length 1 with distance 2. */
  lemma TestVectorOne()
    ensures var r := KeyLengthCandidates([0x01, 0x02]); r.Ok? && |r.value| > 0 && r.value[0] == Candidate(2.0, 1)
  {
    var b: seq<bv8> := [0x01, 0x02];
    FirstBlocksDistance(b);
    BestCandidate(b, 1);
  }

  /** [1, 2, 1, 3] is best at key length 2 with distance 0.5. */
  lemma TestVectorTwo()
    ensures var r := KeyLengthCandidates([0x01, 0x02, 0x01, 0x03]); r.Ok? && |r.value| > 0 && r.value[0] == Candidate(0.5, 2)
  {
    var b: seq<bv8> := [0x01, 0x02, 0x01, 0x03];
    FirstBlocksDistance(b);
    assert b[..2] == [0x01, 0x02] && b[2..4] == [0x01, 0x03];
    assert BitDistance([0x01, 0x02], [0x01, 0x03]) == 1 by {
      assert [0x01 as bv8, 0x02][1..] == [0x02] && [0x01 as bv8, 0x03][1..] == [0x03];
      assert [0x02 as bv8][1..] == [];
    }
    assert CandidateCount(4) == 2;
    BestCandidate(b, 2);
  }

  /** [1, 2, 3, 1, 3, 3, 7] is best at key length 3 with distance 1/3. */
  lemma TestVectorThree()
    ensures var r := KeyLengthCandidates([0x01, 0x02, 0x03, 0x01, 0x03, 0x03, 0x07]);
      r.Ok? && |r.value| > 0 && r.value[0] == Candidate(1.0 / 3.0, 3)
  {
    var b: seq<bv8> := [0x01, 0x02, 0x03, 0x01, 0x03, 0x03, 0x07];
    FirstBlocksDistance(b);
    ThirdVectorDistances(b);
    ThirdVectorBest(b);
  }

  /** The ranking of the third test vector from its three distances. */
  lemma ThirdVectorBest(b: seq<bv8>)
    requires |b| == 7
    requires NormalisedDistance(b, 1) == 2.0 && NormalisedDistance(b, 2) == 1.5 &&
      NormalisedDistance(b, 3) == 1.0 / 3.0
    ensures var r := KeyLengthCandidates(b); r.Ok? && |r.value| > 0 && r.value[0] == Candidate(1.0 / 3.0, 3)
  {
    assert CandidateCount(7) == 3;
    var best := Candidate(1.0 / 3.0, 3);
    forall l | 1 <= l <= 3 && l != 3 ensures Before(best, Candidate(NormalisedDistance(b, l), l)) {
      assert l == 1 || l == 2;
    }
    BestCandidate(b, 3);
  }

  /** The distances of the third test vector at key lengths 2 and 3. */
  lemma ThirdVectorDistances(b: seq<bv8>)
    requires b == [0x01, 0x02, 0x03, 0x01, 0x03, 0x03, 0x07]
    ensures NormalisedDistance(b, 2) == 1.5 && NormalisedDistance(b, 3) == 1.0 / 3.0
  {
    assert b[..2] == [0x01, 0x02] && b[2..4] == [0x03, 0x01];
    assert b[..3] == [0x01, 0x02, 0x03] && b[3..6] == [0x01, 0x03, 0x03];
    assert BitDistance([0x01, 0x02], [0x03, 0x01]) == 3 by {
      assert [0x01 as bv8, 0x02][1..] == [0x02] && [0x03 as bv8, 0x01][1..] == [0x01];
      assert [0x02 as bv8][1..] == [];
    }
    assert BitDistance([0x01, 0x02, 0x03], [0x01, 0x03, 0x03]) == 1 by {
      assert [0x01 as bv8, 0x02, 0x03][1..] == [0x02, 0x03] && [0x01 as bv8, 0x03, 0x03][1..] == [0x03, 0x03];
      assert [0x02 as bv8, 0x03][1..] == [0x03] && [0x03 as bv8, 0x03][1..] == [0x03];
      assert [0x03 as bv8][1..] == [];
    }
  }

  /** [1, 2, 1, 2, 3, 3, 7, 8] is best at key length 2 with distance 0. */
  lemma TestVectorFour()
    ensures var r := KeyLengthCandidates([0x01, 0x02, 0x01, 0x02, 0x03, 0x03, 0x07, 0x08]);
      r.Ok? && |r.value| > 0 && r.value[0] == Candidate(0.0, 2)
  {
    var b: seq<bv8> := [0x01, 0x02, 0x01, 0x02, 0x03, 0x03, 0x07, 0x08];
    FirstBlocksDistance(b);
    FourthVectorDistanceTwo(b);
    FourthVectorDistanceThree(b);
    FourthVectorDistanceFour(b);
    FourthVectorBest(b);
  }

  /** The ranking of the fourth test vector from its four distances. */
  lemma FourthVectorBest(b: seq<bv8>)
    requires |b| == 8
    requires NormalisedDistance(b, 1) == 2.0 && NormalisedDistance(b, 2) == 0.0 &&
      NormalisedDistance(b, 3) == 4.0 / 3.0 && NormalisedDistance(b, 4) == 1.5
    ensures var r := KeyLengthCandidates(b); r.Ok? && |r.value| > 0 && r.value[0] == Candidate(0.0, 2)
  {
    assert CandidateCount(8) == 4;
    var best := Candidate(0.0, 2);
    forall l | 1 <= l <= 4 && l != 2 ensures Before(best, Candidate(NormalisedDistance(b, l), l)) {
      assert l == 1 || l == 3 || l == 4;
    }
    BestCandidate(b, 2);
  }

  /** The distance of the fourth test vector at key length 2: its first two
      blocks are equal, */
  lemma FourthVectorDistanceTwo(b: seq<bv8>)
    requires b == [0x01, 0x02, 0x01, 0x02, 0x03, 0x03, 0x07, 0x08]
    ensures NormalisedDistance(b, 2) == 0.0
  {
    assert b[..2] == b[2..4];
  }

  /** at key length 3, */
  lemma FourthVectorDistanceThree(b: seq<bv8>)
    requires b == [0x01, 0x02, 0x01, 0x02, 0x03, 0x03, 0x07, 0x08]
    ensures NormalisedDistance(b, 3) == 4.0 / 3.0
  {
    assert b[..3] == [0x01, 0x02, 0x01] && b[3..6] == [0x02, 0x03, 0x03];
    assert BitDistance([0x01, 0x02, 0x01], [0x02, 0x03, 0x03]) == 4 by {
      assert [0x01 as bv8, 0x02, 0x01][1..] == [0x02, 0x01] && [0x02 as bv8, 0x03, 0x03][1..] == [0x03, 0x03];
      assert [0x02 as bv8, 0x01][1..] == [0x01] && [0x03 as bv8, 0x03][1..] == [0x03];
      assert [0x01 as bv8][1..] == [] && [0x03 as bv8][1..] == [];
    }
  }

  /** and at key length 4. */
  lemma FourthVectorDistanceFour(b: seq<bv8>)
    requires b == [0x01, 0x02, 0x01, 0x02, 0x03, 0x03, 0x07, 0x08]
    ensures NormalisedDistance(b, 4) == 1.5
  {
    assert b[..4] == [0x01, 0x02, 0x01, 0x02] && b[4..8] == [0x03, 0x03, 0x07, 0x08];
    assert BitDistance([0x01, 0x02, 0x01, 0x02], [0x03, 0x03, 0x07, 0x08]) == 6 by {
      assert [0x01 as bv8, 0x02, 0x01, 0x02][1..] == [0x02, 0x01, 0x02];
      assert [0x03 as bv8, 0x03, 0x07, 0x08][1..] == [0x03, 0x07, 0x08];
      assert [0x02 as bv8, 0x01, 0x02][1..] == [0x01, 0x02] && [0x03 as bv8, 0x07, 0x08][1..] == [0x07, 0x08];
      assert [0x01 as bv8, 0x02][1..] == [0x02] && [0x07 as bv8, 0x08][1..] == [0x08];
      assert [0x02 as bv8][1..] == [] && [0x08 as bv8][1..] == [];
    }
  }

  /** Every test vector starts with 0x01, 0x02: distance 2 at key length 1. */
  lemma FirstBlocksDistance(b: seq<bv8>)
    requires |b| >= 2 && b[0] == 0x01 && b[1] == 0x02
    ensures NormalisedDistance(b, 1) == 2.0
  {
    assert b[..1] == [0x01] && b[1..2] == [0x02];
    assert BitDistance([0x01], [0x02]) == 2 by { assert [0x01 as bv8][1..] == []; }
  }
}

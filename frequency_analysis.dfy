/** `FrenquencyAnalysable::frequencies` for slices: a map from every distinct
    item of the input to its number of occurrences. */
module FrequencyAnalysis {

  /** The counting loop: each item either enters the map with count 1 or has
      its count incremented. */
  method Frequencies<T(==)>(items: seq<T>) returns (freqs: map<T, nat>)
    ensures forall x :: x in freqs <==> x in items
    ensures forall x :: x in freqs ==> freqs[x] == multiset(items)[x]
    ensures forall x :: x in freqs ==> freqs[x] >= 1
    ensures SumOfCounts(freqs) == |items|
  {
    freqs := map[];
    for i := 0 to |items|
      invariant forall x :: x in freqs <==> x in items[..i]
      invariant forall x :: x in freqs ==> freqs[x] == multiset(items[..i])[x]
    {
      assert items[..i + 1] == items[..i] + [items[i]];
      var item := items[i];
      if item !in freqs {
        freqs := freqs[item := 1];
      } else {
        freqs := freqs[item := freqs[item] + 1];
      }
    }
    assert items[..|items|] == items;
    SumOfCountsIsSize(freqs, multiset(items));
  }

  /** The sum of all counts stored in a frequency map. */
  ghost function SumOfCounts<T>(m: map<T, nat>): nat
    decreases |m|
  {
    if |m| == 0 then 0
    else
      var k := SomeKey(m);
      m[k] + SumOfCounts(m - {k})
  }

  /** An arbitrary key of a non-empty map. */
  ghost function SomeKey<T>(m: map<T, nat>): (k: T)
    requires |m| != 0
    ensures k in m
  {
    var k :| k in m; k
  }

  /** Removing any one key from a frequency map takes exactly its count off the sum. */
  lemma {:induction false} SumOfCountsRemove<T>(m: map<T, nat>, k: T)
    requires k in m
    ensures SumOfCounts(m) == m[k] + SumOfCounts(m - {k})
    decreases |m|
  {
    var j := SomeKey(m);
    if j != k {
      var mj, mk := m - {j}, m - {k};
      RemoveKeySize(m, j);
      RemoveKeySize(m, k);
      SumOfCountsRemove(mj, k);
      SumOfCountsRemove(mk, j);
      assert mj - {k} == mk - {j};
    }
  }

  lemma RemoveKeySize<T>(m: map<T, nat>, k: T)
    requires k in m
    ensures |m - {k}| == |m| - 1
  {
    assert (m - {k}).Keys == m.Keys - {k};
  }

  /** A map holding the multiplicity of every element of a multiset sums to its size. */
  lemma {:induction false} SumOfCountsIsSize<T>(m: map<T, nat>, ms: multiset<T>)
    requires forall x :: x in m <==> x in ms
    requires forall x :: x in m ==> m[x] == ms[x]
    ensures SumOfCounts(m) == |ms|
    decreases |m|
  {
    if |m| == 0 {
      assert ms == multiset{};
    } else {
      var k :| k in m;
      SumOfCountsRemove(m, k);
      var rest := ms[k := 0];
      MultisetRemoveAll(ms, k);
      RemoveKeySize(m, k);
      SumOfCountsIsSize(m - {k}, rest);
    }
  }

  /** Removing every copy of `k` from a multiset takes `ms[k]` off its size. */
  lemma {:induction false} MultisetRemoveAll<T>(ms: multiset<T>, k: T)
    ensures |ms| == ms[k] + |ms[k := 0]|
    decreases ms[k]
  {
    if ms[k] > 0 {
      var smaller := ms - multiset{k};
      assert smaller[k := 0] == ms[k := 0];
      assert |smaller| == |ms| - 1;
      MultisetRemoveAll(smaller, k);
    } else {
      assert ms[k := 0] == ms;
    }
  }

  /** The repository's test: in "hello" the letter 'l' is counted twice. */
  method CountLettersTest() returns (count: nat)
    ensures count == 2
  {
    var hello := ['h', 'e', 'l', 'l', 'o'];
    var freqs := Frequencies(hello);
    HelloCounts(hello);
    assert 'l' in freqs;
    assert freqs['l'] == 2;
    count := freqs['l'];
  }

  /** 'l' occurs in "hello", twice. */
  lemma HelloCounts(hello: seq<char>)
    requires hello == ['h', 'e', 'l', 'l', 'o']
    ensures 'l' in hello && multiset(hello)['l'] == 2
  {
    assert hello == ['h', 'e'] + ['l', 'l'] + ['o'];
    assert multiset(['l', 'l']) == multiset{'l', 'l'};
  }
}

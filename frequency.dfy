/** k-mer frequency table and its most frequent keys (problem2.py). */
module Frequency {
  import opened Wrappers
  import opened OrderedTable
  import opened ExactMatch
  import opened OccurrenceOrder

  /** The `count` dict after the first n iterations of pattern_frequency. */
  function FrequencyBelow(g: string, k: nat, n: nat): (t: Table)
    requires n <= WindowCount(|g|, k)
    ensures DistinctKeys(t)
  {
    if n == 0 then [] else Increment(FrequencyBelow(g, k, n - 1), g[n - 1..n - 1 + k])
  }

  /** Every key is a k-mer, each value is the number of windows so far equal
      to its key, a k-mer seen in no window so far is not a key, and the
      values add up to the number of windows. */
  ghost predicate CountsWindows(g: string, k: nat, n: nat, t: Table)
    requires n <= WindowCount(|g|, k)
  {
    && (forall j :: 0 <= j < |t| ==>
          |t[j].0| == k && t[j].1 == |PositionsBelow(g, t[j].0, n)| && t[j].1 >= 1)
    && (forall x :: |x| == k && x !in Keys(t) ==> PositionsBelow(g, x, n) == [])
    && Sum(t) == n
  }

  lemma {:induction false} FrequencyBelowSpec(g: string, k: nat, n: nat)
    requires n <= WindowCount(|g|, k)
    ensures CountsWindows(g, k, n, FrequencyBelow(g, k, n))
  {
    if n > 0 {
      FrequencyBelowSpec(g, k, n - 1);
      FrequencyStep(g, k, n);
    }
  }

  lemma FrequencyStep(g: string, k: nat, n: nat)
    requires 0 < n <= WindowCount(|g|, k)
    requires CountsWindows(g, k, n - 1, FrequencyBelow(g, k, n - 1))
    ensures CountsWindows(g, k, n, FrequencyBelow(g, k, n))
  {
    var t0, t := FrequencyBelow(g, k, n - 1), FrequencyBelow(g, k, n);
    var w := g[n - 1..n - 1 + k];
    SumIncrement(t0, w);
    forall j | 0 <= j < |t|
      ensures |t[j].0| == k && t[j].1 == |PositionsBelow(g, t[j].0, n)| && t[j].1 >= 1
    {
      FrequencyStepAt(g, k, n, j);
    }
    forall x | |x| == k && x !in Keys(t) ensures PositionsBelow(g, x, n) == [] {
      FrequencyStepAbsent(g, k, n, x);
    }
  }

  lemma FrequencyStepAbsent(g: string, k: nat, n: nat, x: string)
    requires 0 < n <= WindowCount(|g|, k) && |x| == k
    requires forall y :: |y| == k && y !in Keys(FrequencyBelow(g, k, n - 1)) ==>
      PositionsBelow(g, y, n - 1) == []
    requires x !in Keys(FrequencyBelow(g, k, n))
    ensures PositionsBelow(g, x, n) == []
  {
    var t0 := FrequencyBelow(g, k, n - 1);
    assert x !in Keys(t0) && x != g[n - 1..n - 1 + k];
    PositionsStep(g, x, n);
  }

  lemma FrequencyStepAt(g: string, k: nat, n: nat, j: nat)
    requires 0 < n <= WindowCount(|g|, k)
    requires CountsWindows(g, k, n - 1, FrequencyBelow(g, k, n - 1))
    requires j < |FrequencyBelow(g, k, n)|
    ensures |FrequencyBelow(g, k, n)[j].0| == k
    ensures FrequencyBelow(g, k, n)[j].1 == |PositionsBelow(g, FrequencyBelow(g, k, n)[j].0, n)|
    ensures FrequencyBelow(g, k, n)[j].1 >= 1
  {
    var t0, t := FrequencyBelow(g, k, n - 1), FrequencyBelow(g, k, n);
    var w := g[n - 1..n - 1 + k];
    var x := t[j].0;
    assert Keys(t)[j] == x;
    PositionsStep(g, x, n);
    if j < |t0| {
      assert Keys(t0)[j] == x;
    } else {
      assert x == w && w !in Keys(t0);
    }
  }

  /** The `count` dict meets its keys in order of first occurrence: every
      key occurs below offset n, and the keys are listed by their first
      offset in the genome. */
  lemma {:induction false} FrequencyBelowOrder(g: string, k: nat, n: nat)
    requires n <= WindowCount(|g|, k)
    ensures forall j :: 0 <= j < |FrequencyBelow(g, k, n)| ==> OccursBefore(g, FrequencyBelow(g, k, n)[j].0, n)
    ensures FirstOccurrenceOrder(g, FrequencyBelow(g, k, n))
  {
    if n > 0 {
      FrequencyBelowOrder(g, k, n - 1);
      var t0, c := FrequencyBelow(g, k, n - 1), g[n - 1..n - 1 + k];
      var t := Increment(t0, c);
      assert t == FrequencyBelow(g, k, n);
      if c !in Keys(t0) {
        FrequencyNewKey(g, k, n);
      }
      forall j | 0 <= j < |t| ensures OccursBefore(g, t[j].0, n) {
        if j < |t0| {
          assert t[j].0 == t0[j].0 && OccursBefore(g, t0[j].0, n - 1);
        }
      }
      forall j1, j2 | 0 <= j1 < j2 < |t|
        ensures ExactPositions(g, t[j1].0)[0] < ExactPositions(g, t[j2].0)[0]
      {
        assert t[j1].0 == t0[j1].0 && OccursBefore(g, t0[j1].0, n - 1);
        if j2 < |t0| {
          assert t[j2].0 == t0[j2].0;
        }
      }
    }
  }

  /** A k-mer the table has not met before first occurs where it is met. */
  lemma FrequencyNewKey(g: string, k: nat, n: nat)
    requires 0 < n <= WindowCount(|g|, k)
    requires g[n - 1..n - 1 + k] !in Keys(FrequencyBelow(g, k, n - 1))
    ensures ExactPositions(g, g[n - 1..n - 1 + k]) != []
    ensures ExactPositions(g, g[n - 1..n - 1 + k])[0] == n - 1
  {
    var c := g[n - 1..n - 1 + k];
    FrequencyAbsent(g, k, n - 1, c);
    assert OccursAt(g, c, n - 1);
    FirstOccurrenceAfter(g, c, n - 1);
  }

  lemma FrequencyAbsent(g: string, k: nat, n: nat, x: string)
    requires n <= WindowCount(|g|, k) && |x| == k && x !in Keys(FrequencyBelow(g, k, n))
    ensures PositionsBelow(g, x, n) == []
  {
    FrequencyBelowSpec(g, k, n);
  }

  lemma FirstOccurrenceAfter(g: string, x: string, n: nat)
    requires n <= WindowCount(|g|, |x|) && PositionsBelow(g, x, n) == [] && OccursAt(g, x, n)
    ensures ExactPositions(g, x) != [] && ExactPositions(g, x)[0] == n
  {
    FirstOccurrence(g, x, n);
    assert ExactPositions(g, x)[0] !in PositionsBelow(g, x, n);
  }

  /** The table pattern_frequency returns. */
  function FrequencyTable(g: string, k: nat): Table {
    FrequencyBelow(g, k, WindowCount(|g|, k))
  }

  /** pattern_frequency(genome, pattern_len): the keys are exactly the
      length-k strings that occur in the genome, each mapped to its number of
      (overlapping) occurrences; the values add up to the number of windows. */
  method PatternFrequency(genome: string, k: nat) returns (count: Table)
    ensures count == FrequencyTable(genome, k)
    ensures DistinctKeys(count)
    ensures forall x :: x in Keys(count) <==> |x| == k && ExactPositions(genome, x) != []
    ensures forall j :: 0 <= j < |count| ==>
      count[j].1 == |ExactPositions(genome, count[j].0)| && count[j].1 >= 1
    ensures Sum(count) == WindowCount(|genome|, k)
  {
    count := [];
    var i: nat := 0;
    while i < |genome| - (k - 1)
      invariant i <= WindowCount(|genome|, k)
      invariant count == FrequencyBelow(genome, k, i)
    {
      var pattern := genome[i..k + i];
      assert FrequencyBelow(genome, k, i + 1) == Increment(FrequencyBelow(genome, k, i), pattern);
      count := Increment(count, pattern);
      i := i + 1;
    }
    assert i == WindowCount(|genome|, k);
    FrequencyTableSpec(genome, k);
  }

  lemma FrequencyTableSpec(g: string, k: nat)
    ensures forall x :: x in Keys(FrequencyTable(g, k)) <==> |x| == k && ExactPositions(g, x) != []
    ensures forall j :: 0 <= j < |FrequencyTable(g, k)| ==>
      FrequencyTable(g, k)[j].1 == |ExactPositions(g, FrequencyTable(g, k)[j].0)| &&
      FrequencyTable(g, k)[j].1 >= 1
    ensures Sum(FrequencyTable(g, k)) == WindowCount(|g|, k)
  {
    var t := FrequencyTable(g, k);
    FrequencyBelowSpec(g, k, WindowCount(|g|, k));
    forall x ensures x in Keys(t) <==> |x| == k && ExactPositions(g, x) != [] {
      FrequencyTableKey(g, k, x);
    }
  }

  lemma FrequencyTableKey(g: string, k: nat, x: string)
    requires CountsWindows(g, k, WindowCount(|g|, k), FrequencyTable(g, k))
    ensures x in Keys(FrequencyTable(g, k)) <==> |x| == k && ExactPositions(g, x) != []
  {
    var t := FrequencyTable(g, k);
    if x in Keys(t) {
      var j :| 0 <= j < |t| && t[j].0 == x;
      assert |x| == k && |ExactPositions(g, x)| >= 1;
    }
  }

  /** The table is empty exactly when the pattern is longer than the genome. */
  lemma FrequencyTableEmpty(g: string, k: nat)
    ensures FrequencyTable(g, k) == [] <==> k > |g|
  {
    if k <= |g| {
      FrequencyTableSpec(g, k);
      assert 0 in ExactPositions(g, g[0..k]);
      assert g[0..k] in Keys(FrequencyTable(g, k));
    }
  }

  /** The keys of highest frequency: the k-mers of the genome that occur at
      least as often as any other string of length k, without duplicates. */
  lemma MostFrequentSpec(g: string, k: nat)
    requires k <= |g|
    ensures FrequencyTable(g, k) != []
    ensures forall x :: x in MaxKeysOf(FrequencyTable(g, k)) <==>
      |x| == k && ExactPositions(g, x) != [] &&
      forall y :: |y| == k ==> |ExactPositions(g, y)| <= |ExactPositions(g, x)|
    ensures forall a, b :: 0 <= a < b < |MaxKeysOf(FrequencyTable(g, k))| ==>
      MaxKeysOf(FrequencyTable(g, k))[a] != MaxKeysOf(FrequencyTable(g, k))[b]
  {
    var counts := FrequencyTable(g, k);
    FrequencyTableEmpty(g, k);
    FrequencyTableSpec(g, k);
    MaxKeysOfSpec(counts);
    forall x ensures x in MaxKeysOf(counts) <==>
      |x| == k && ExactPositions(g, x) != [] &&
      forall y :: |y| == k ==> |ExactPositions(g, y)| <= |ExactPositions(g, x)|
    {
      MostFrequentMember(g, k, counts, x);
    }
  }

  /** The keys of highest frequency come in the order in which they first
      occur in the genome. */
  lemma MostFrequentOrder(g: string, k: nat)
    requires k <= |g|
    ensures ByFirstOccurrence(g, MaxKeysOf(FrequencyTable(g, k)))
  {
    FrequencyTableEmpty(g, k);
    FrequencyTableSpec(g, k);
    FrequencyBelowOrder(g, k, WindowCount(|g|, k));
    MaxKeysOrdered(g, FrequencyTable(g, k));
  }

  /** problem2.py lines 80-88: the keys of highest frequency, or the failure
      of `max` when the genome is shorter than the pattern. */
  method MostFrequent(genome: string, k: nat) returns (r: Result<seq<string>>)
    ensures r.Failure? <==> k > |genome|
    ensures r.Success? ==> r.value == MaxKeysOf(FrequencyTable(genome, k))
    ensures r.Success? ==> forall x :: x in r.value <==>
      |x| == k && ExactPositions(genome, x) != [] &&
      forall y :: |y| == k ==> |ExactPositions(genome, y)| <= |ExactPositions(genome, x)|
    ensures r.Success? ==> forall a, b :: 0 <= a < b < |r.value| ==> r.value[a] != r.value[b]
    ensures r.Success? ==> ByFirstOccurrence(genome, r.value)
  {
    var counts := PatternFrequency(genome, k);
    FrequencyTableEmpty(genome, k);
    r := MaxKeys(counts);
    if r.Success? {
      MostFrequentSpec(genome, k);
      MostFrequentOrder(genome, k);
    }
  }

  lemma MostFrequentMember(genome: string, k: nat, counts: Table, x: string)
    requires DistinctKeys(counts)
    requires forall x :: x in Keys(counts) <==> |x| == k && ExactPositions(genome, x) != []
    requires forall j :: 0 <= j < |counts| ==> counts[j].1 == |ExactPositions(genome, counts[j].0)|
    ensures (x in Keys(counts) && forall j :: 0 <= j < |counts| ==> counts[j].1 <= Lookup(counts, x)) <==>
      (|x| == k && ExactPositions(genome, x) != [] &&
       forall y :: |y| == k ==> |ExactPositions(genome, y)| <= |ExactPositions(genome, x)|)
  {
    if x in Keys(counts) {
      assert Lookup(counts, x) == |ExactPositions(genome, x)|;
      if forall j :: 0 <= j < |counts| ==> counts[j].1 <= Lookup(counts, x) {
        forall y | |y| == k ensures |ExactPositions(genome, y)| <= |ExactPositions(genome, x)| {
          if y in Keys(counts) {
            var iy := IndexOf(counts, y);
            assert counts[iy].1 <= Lookup(counts, x);
          }
        }
      } else {
        var j :| 0 <= j < |counts| && counts[j].1 > Lookup(counts, x);
        assert Keys(counts)[j] == counts[j].0;
      }
    }
  }
}

/** Approximate most-frequent k-mer search, `approx_pattern`: forward only in
    problem9.py; forward plus reverse complement in problem10.py and
    Find_Replication_Origin.py (the two copies of the latter are the same). */
module MotifSearch {
  import opened Wrappers
  import opened OrderedTable
  import opened ExactMatch
  import opened ApproximateMatch
  import opened ReverseComplement
  import opened OccurrenceOrder

  /** Which strands a candidate is scored on. */
  datatype Strands = ForwardOnly | WithReverseComplement

  /** The precondition of reverse-complementing: no '%' in the genome. */
  predicate Admissible(g: string, strands: Strands) {
    strands == WithReverseComplement ==> '%' !in g
  }

  lemma SliceAdmissible(g: string, strands: Strands, a: nat, b: nat)
    requires Admissible(g, strands) && a <= b <= |g|
    ensures Admissible(g[a..b], strands)
  {
  }

  /** The value approx_pattern stores for candidate `c`: its approximate
      count, plus that of its reverse complement when both strands are
      scored. */
  function Score(g: string, c: string, m: int, strands: Strands): nat
    requires Admissible(c, strands)
  {
    ApproxCount(g, c, m) +
      (if strands == ForwardOnly then 0 else ApproxCount(g, RevComp(c), m))
  }

  /** Length of `range(len(genome) - pattern_len - 1)`: the last two k-mer
      start offsets are never candidates. */
  function CandidateCount(n: nat, k: nat): nat {
    if n >= k + 2 then n - k - 1 else 0
  }

  /** `counts_dict` after the first n iterations: a candidate is stored with
      its score the first time it is met and skipped afterwards. */
  function CandidateTable(g: string, k: nat, m: int, strands: Strands, n: nat): (t: Table)
    requires n <= CandidateCount(|g|, k) && Admissible(g, strands)
    ensures DistinctKeys(t)
  {
    if n == 0 then []
    else
      var t0 := CandidateTable(g, k, m, strands, n - 1);
      var c := g[n - 1..n - 1 + k];
      SliceAdmissible(g, strands, n - 1, n - 1 + k);
      if c in Keys(t0) then t0 else t0 + [(c, Score(g, c, m, strands))]
  }

  /** What approx_pattern returns, or the failure of `max` on an empty dict. */
  function ApproxPatternSpec(g: string, k: nat, m: int, strands: Strands): Result<seq<string>>
    requires Admissible(g, strands)
  {
    var n := CandidateCount(|g|, k);
    if n == 0 then Failure(EmptyMax) else Success(MaxKeysOf(CandidateTable(g, k, m, strands, n)))
  }

  /** Every entry is a length-k string met below offset n, stored with its
      score. */
  ghost predicate EntriesScored(g: string, k: nat, m: int, strands: Strands, n: nat, t: Table) {
    forall j :: 0 <= j < |t| ==>
      |t[j].0| == k && OccursBefore(g, t[j].0, n) &&
      Admissible(t[j].0, strands) && t[j].1 == Score(g, t[j].0, m, strands)
  }

  /** Every length-k string met below offset n is a key. */
  ghost predicate Complete(g: string, k: nat, n: nat, t: Table) {
    forall x :: |x| == k && OccursBefore(g, x, n) ==> x in Keys(t)
  }

  /** The table holds each candidate of the first n offsets once, with its
      score, and lists the candidates by first occurrence. */
  ghost predicate TableInvariant(g: string, k: nat, m: int, strands: Strands, n: nat, t: Table) {
    EntriesScored(g, k, m, strands, n, t) && Complete(g, k, n, t) && FirstOccurrenceOrder(g, t)
  }

  lemma {:induction false} CandidateTableSpec(g: string, k: nat, m: int, strands: Strands, n: nat)
    requires n <= CandidateCount(|g|, k) && Admissible(g, strands)
    ensures TableInvariant(g, k, m, strands, n, CandidateTable(g, k, m, strands, n))
  {
    if n > 0 {
      CandidateTableSpec(g, k, m, strands, n - 1);
      CandidateTableStep(g, k, m, strands, n);
    }
  }

  lemma CandidateTableStep(g: string, k: nat, m: int, strands: Strands, n: nat)
    requires 0 < n <= CandidateCount(|g|, k) && Admissible(g, strands)
    requires TableInvariant(g, k, m, strands, n - 1, CandidateTable(g, k, m, strands, n - 1))
    ensures TableInvariant(g, k, m, strands, n, CandidateTable(g, k, m, strands, n))
  {
    var t := CandidateTable(g, k, m, strands, n);
    forall j | 0 <= j < |t|
      ensures |t[j].0| == k && OccursBefore(g, t[j].0, n) &&
        Admissible(t[j].0, strands) && t[j].1 == Score(g, t[j].0, m, strands)
    {
      StepEntry(g, k, m, strands, n, j);
    }
    forall x | |x| == k && OccursBefore(g, x, n) ensures x in Keys(t) {
      StepComplete(g, k, m, strands, n, x);
    }
    forall j1, j2 | 0 <= j1 < j2 < |t|
      ensures ExactPositions(g, t[j1].0)[0] < ExactPositions(g, t[j2].0)[0]
    {
      StepOrder(g, k, m, strands, n, j1, j2);
    }
  }

  /** A candidate met for the first time at offset n - 1 first occurs there. */
  lemma NewCandidate(g: string, k: nat, m: int, strands: Strands, n: nat)
    requires 0 < n <= CandidateCount(|g|, k) && Admissible(g, strands)
    requires Complete(g, k, n - 1, CandidateTable(g, k, m, strands, n - 1))
    ensures var t0 := CandidateTable(g, k, m, strands, n - 1);
      var c := g[n - 1..n - 1 + k];
      && ExactPositions(g, c) != [] && ExactPositions(g, c)[0] <= n - 1
      && OccursBefore(g, c, n) && Admissible(c, strands)
      && (c !in Keys(t0) ==>
            && ExactPositions(g, c)[0] == n - 1
            && CandidateTable(g, k, m, strands, n) == t0 + [(c, Score(g, c, m, strands))])
      && (c in Keys(t0) ==> CandidateTable(g, k, m, strands, n) == t0)
  {
    var c := g[n - 1..n - 1 + k];
    assert OccursAt(g, c, n - 1);
    FirstOccurrence(g, c, n - 1);
  }

  lemma StepEntry(g: string, k: nat, m: int, strands: Strands, n: nat, j: nat)
    requires 0 < n <= CandidateCount(|g|, k) && Admissible(g, strands)
    requires Complete(g, k, n - 1, CandidateTable(g, k, m, strands, n - 1))
    requires EntriesScored(g, k, m, strands, n - 1, CandidateTable(g, k, m, strands, n - 1))
    requires j < |CandidateTable(g, k, m, strands, n)|
    ensures var e := CandidateTable(g, k, m, strands, n)[j];
      |e.0| == k && OccursBefore(g, e.0, n) && Admissible(e.0, strands) &&
      e.1 == Score(g, e.0, m, strands)
  {
    NewCandidate(g, k, m, strands, n);
  }

  lemma StepComplete(g: string, k: nat, m: int, strands: Strands, n: nat, x: string)
    requires 0 < n <= CandidateCount(|g|, k) && Admissible(g, strands)
    requires Complete(g, k, n - 1, CandidateTable(g, k, m, strands, n - 1))
    requires |x| == k && OccursBefore(g, x, n)
    ensures x in Keys(CandidateTable(g, k, m, strands, n))
  {
    var t0 := CandidateTable(g, k, m, strands, n - 1);
    var c := g[n - 1..n - 1 + k];
    NewCandidate(g, k, m, strands, n);
    KeysAppend(t0, (c, Score(g, c, m, strands)));
    if !OccursBefore(g, x, n - 1) {
      FirstOccurrenceAt(g, x, n);
      assert x == c;
    }
  }

  lemma StepOrder(g: string, k: nat, m: int, strands: Strands, n: nat, j1: nat, j2: nat)
    requires 0 < n <= CandidateCount(|g|, k) && Admissible(g, strands)
    requires TableInvariant(g, k, m, strands, n - 1, CandidateTable(g, k, m, strands, n - 1))
    requires j1 < j2 < |CandidateTable(g, k, m, strands, n)|
    ensures var t := CandidateTable(g, k, m, strands, n);
      ExactPositions(g, t[j1].0) != [] && ExactPositions(g, t[j2].0) != [] &&
      ExactPositions(g, t[j1].0)[0] < ExactPositions(g, t[j2].0)[0]
  {
    var t0 := CandidateTable(g, k, m, strands, n - 1);
    NewCandidate(g, k, m, strands, n);
    assert OccursBefore(g, t0[j1].0, n - 1);
  }

  /** The loop that fills `counts_dict`. */
  method CountCandidates(genome: string, k: nat, m: int, strands: Strands) returns (counts: Table)
    requires Admissible(genome, strands)
    ensures counts == CandidateTable(genome, k, m, strands, CandidateCount(|genome|, k))
  {
    counts := [];
    var i: nat := 0;
    while i < |genome| - k - 1
      invariant i <= CandidateCount(|genome|, k)
      invariant counts == CandidateTable(genome, k, m, strands, i)
    {
      var candidate := genome[i..k + i];
      SliceAdmissible(genome, strands, i, k + i);
      // counting how often the candidate occurs, allowing `m` mismatches
      var count := PatternMismatch(genome, candidate, m);
      if strands == WithReverseComplement {
        var reverseComp := RevComp(candidate);
        var reverseCount := PatternMismatch(genome, reverseComp, m);
        count := count + reverseCount;
      }
      assert count == Score(genome, candidate, m, strands);
      assert CandidateTable(genome, k, m, strands, i + 1) ==
        if candidate in Keys(counts) then counts else counts + [(candidate, count)];
      if candidate !in Keys(counts) {
        counts := counts + [(candidate, count)];
      }
      i := i + 1;
    }
    assert i == CandidateCount(|genome|, k);
  }

  /** `x` is stored by approx_pattern: a length-k string met at one of the
      candidate offsets (and free of '%' when reverse complements are used). */
  predicate IsCandidate(g: string, k: nat, strands: Strands, x: string) {
    |x| == k && OccursBefore(g, x, CandidateCount(|g|, k)) && Admissible(x, strands)
  }

  /** `x` is a candidate whose score no other candidate exceeds. */
  ghost predicate IsBest(g: string, k: nat, m: int, strands: Strands, x: string) {
    IsCandidate(g, k, strands, x) &&
    forall y :: IsCandidate(g, k, strands, y) ==> Score(g, y, m, strands) <= Score(g, x, m, strands)
  }

  /** The first window is always a candidate when there is any. */
  lemma CandidateTableNonEmpty(g: string, k: nat, m: int, strands: Strands)
    requires Admissible(g, strands) && CandidateCount(|g|, k) > 0
    ensures TableInvariant(g, k, m, strands, CandidateCount(|g|, k),
      CandidateTable(g, k, m, strands, CandidateCount(|g|, k)))
    ensures |CandidateTable(g, k, m, strands, CandidateCount(|g|, k))| > 0
  {
    var n := CandidateCount(|g|, k);
    CandidateTableSpec(g, k, m, strands, n);
    assert OccursAt(g, g[0..k], 0);
    FirstOccurrence(g, g[0..k], 0);
    assert g[0..k] in Keys(CandidateTable(g, k, m, strands, n));
  }

  /** The result is non-empty and duplicate-free. Less than two characters
      beyond the pattern length leave no candidate, and then `max` raises. */
  lemma ApproxPatternShape(g: string, k: nat, m: int, strands: Strands)
    requires Admissible(g, strands)
    ensures ApproxPatternSpec(g, k, m, strands).Failure? <==> |g| <= k + 1
    ensures ApproxPatternSpec(g, k, m, strands).Success? ==>
      var r := ApproxPatternSpec(g, k, m, strands).value;
      && |r| > 0
      && (forall a, b :: 0 <= a < b < |r| ==> r[a] != r[b])
  {
    var n := CandidateCount(|g|, k);
    if n > 0 {
      CandidateTableNonEmpty(g, k, m, strands);
      MaxKeysOfSpec(CandidateTable(g, k, m, strands, n));
    }
  }

  /** The result lists the best candidates in order of first occurrence. */
  lemma ApproxPatternOrder(g: string, k: nat, m: int, strands: Strands)
    requires Admissible(g, strands) && |g| > k + 1
    ensures ApproxPatternSpec(g, k, m, strands).Success?
    ensures ByFirstOccurrence(g, ApproxPatternSpec(g, k, m, strands).value)
  {
    var n := CandidateCount(|g|, k);
    CandidateTableNonEmpty(g, k, m, strands);
    MaxKeysOrdered(g, CandidateTable(g, k, m, strands, n));
  }

  /** The result holds exactly the best candidates. */
  lemma ApproxPatternMembers(g: string, k: nat, m: int, strands: Strands)
    requires Admissible(g, strands) && |g| > k + 1
    ensures ApproxPatternSpec(g, k, m, strands).Success?
    ensures forall x :: x in ApproxPatternSpec(g, k, m, strands).value <==> IsBest(g, k, m, strands, x)
  {
    var n := CandidateCount(|g|, k);
    var t := CandidateTable(g, k, m, strands, n);
    CandidateTableNonEmpty(g, k, m, strands);
    MaxKeysOfSpec(t);
    forall x ensures x in MaxKeysOf(t) <==> IsBest(g, k, m, strands, x) {
      MaxMember(g, k, m, strands, x);
    }
  }

  lemma MaxMember(g: string, k: nat, m: int, strands: Strands, x: string)
    requires Admissible(g, strands) && CandidateCount(|g|, k) > 0
    requires TableInvariant(g, k, m, strands, CandidateCount(|g|, k),
      CandidateTable(g, k, m, strands, CandidateCount(|g|, k)))
    ensures var t := CandidateTable(g, k, m, strands, CandidateCount(|g|, k));
      (x in Keys(t) && forall j :: 0 <= j < |t| ==> t[j].1 <= Lookup(t, x)) <==>
      IsBest(g, k, m, strands, x)
  {
    var t := CandidateTable(g, k, m, strands, CandidateCount(|g|, k));
    if x in Keys(t) && forall j :: 0 <= j < |t| ==> t[j].1 <= Lookup(t, x) {
      MaxMemberIsBest(g, k, m, strands, x);
    }
    if IsBest(g, k, m, strands, x) {
      BestIsMaxMember(g, k, m, strands, x);
    }
  }

  lemma MaxMemberIsBest(g: string, k: nat, m: int, strands: Strands, x: string)
    requires Admissible(g, strands) && CandidateCount(|g|, k) > 0
    requires TableInvariant(g, k, m, strands, CandidateCount(|g|, k),
      CandidateTable(g, k, m, strands, CandidateCount(|g|, k)))
    requires var t := CandidateTable(g, k, m, strands, CandidateCount(|g|, k));
      x in Keys(t) && forall j :: 0 <= j < |t| ==> t[j].1 <= Lookup(t, x)
    ensures IsBest(g, k, m, strands, x)
  {
    var t := CandidateTable(g, k, m, strands, CandidateCount(|g|, k));
    var ix := IndexOf(t, x);
    assert t[ix].1 == Score(g, x, m, strands);
    forall y | IsCandidate(g, k, strands, y)
      ensures Score(g, y, m, strands) <= Score(g, x, m, strands)
    {
      var iy := IndexOf(t, y);
      assert t[iy].1 <= Lookup(t, x);
    }
  }

  lemma BestIsMaxMember(g: string, k: nat, m: int, strands: Strands, x: string)
    requires Admissible(g, strands) && CandidateCount(|g|, k) > 0
    requires TableInvariant(g, k, m, strands, CandidateCount(|g|, k),
      CandidateTable(g, k, m, strands, CandidateCount(|g|, k)))
    requires IsBest(g, k, m, strands, x)
    ensures var t := CandidateTable(g, k, m, strands, CandidateCount(|g|, k));
      x in Keys(t) && forall j :: 0 <= j < |t| ==> t[j].1 <= Lookup(t, x)
  {
    var t := CandidateTable(g, k, m, strands, CandidateCount(|g|, k));
    assert x in Keys(t);
    var ix := IndexOf(t, x);
    forall j | 0 <= j < |t| ensures t[j].1 <= Lookup(t, x) {
      assert IsCandidate(g, k, strands, t[j].0);
    }
  }

  /** A candidate occurs in the genome, so with a non-negative mismatch bound
      it matches at least its own offset. */
  lemma CandidateScorePositive(g: string, k: nat, m: int, strands: Strands, x: string)
    requires IsCandidate(g, k, strands, x) && m >= 0
    ensures Score(g, x, m, strands) >= 1
  {
    var i := ExactPositions(g, x)[0];
    FirstOccurrence(g, x, i);
    SelfMatch(g, i, k, m);
  }

  /** With at least as many mismatches allowed as the pattern is long, every
      window matches: each strand contributes one count per window. */
  lemma LargeBoundScore(g: string, k: nat, m: int, strands: Strands, x: string)
    requires IsCandidate(g, k, strands, x) && m >= k
    ensures Score(g, x, m, strands) ==
      (if strands == ForwardOnly then 1 else 2) * WindowCount(|g|, k)
  {
    var i := ExactPositions(g, x)[0];
    FirstOccurrence(g, x, i);
    LargeBoundCountsAll(g, x, m);
    if strands == WithReverseComplement {
      LargeBoundCountsAll(g, RevComp(x), m);
    }
  }

  /** Hence, with such a bound, approx_pattern returns every candidate. */
  lemma LargeBoundAllBest(g: string, k: nat, m: int, strands: Strands)
    requires Admissible(g, strands) && |g| > k + 1 && m >= k
    ensures ApproxPatternSpec(g, k, m, strands).Success?
    ensures forall x :: x in ApproxPatternSpec(g, k, m, strands).value <==> IsCandidate(g, k, strands, x)
  {
    ApproxPatternMembers(g, k, m, strands);
    forall x ensures IsBest(g, k, m, strands, x) <==> IsCandidate(g, k, strands, x) {
      if IsCandidate(g, k, strands, x) {
        LargeBoundScore(g, k, m, strands, x);
        forall y | IsCandidate(g, k, strands, y)
          ensures Score(g, y, m, strands) <= Score(g, x, m, strands)
        {
          LargeBoundScore(g, k, m, strands, y);
        }
      }
    }
  }

  /** approx_pattern in problem9.py: candidates are scored on the forward
      strand only. */
  method ApproxPattern(genome: string, k: nat, m: int) returns (r: Result<seq<string>>)
    ensures r == ApproxPatternSpec(genome, k, m, ForwardOnly)
    ensures r.Failure? <==> |genome| <= k + 1
    ensures r.Success? ==> |r.value| > 0
    ensures r.Success? ==> forall x :: x in r.value <==> IsBest(genome, k, m, ForwardOnly, x)
    ensures r.Success? ==> ByFirstOccurrence(genome, r.value)
  {
    var counts := CountCandidates(genome, k, m, ForwardOnly);
    r := MaxKeys(counts);
    ApproxPatternShape(genome, k, m, ForwardOnly);
    if r.Success? {
      ApproxPatternMembers(genome, k, m, ForwardOnly);
      ApproxPatternOrder(genome, k, m, ForwardOnly);
    }
  }

  /** approx_pattern in problem10.py and Find_Replication_Origin.py: each
      candidate is scored by its own count plus that of its reverse
      complement. */
  method ApproxPatternWithRc(genome: string, k: nat, m: int) returns (r: Result<seq<string>>)
    requires '%' !in genome
    ensures r == ApproxPatternSpec(genome, k, m, WithReverseComplement)
    ensures r.Failure? <==> |genome| <= k + 1
    ensures r.Success? ==> |r.value| > 0
    ensures r.Success? ==> forall x :: x in r.value <==> IsBest(genome, k, m, WithReverseComplement, x)
    ensures r.Success? ==> ByFirstOccurrence(genome, r.value)
  {
    var counts := CountCandidates(genome, k, m, WithReverseComplement);
    r := MaxKeys(counts);
    ApproxPatternShape(genome, k, m, WithReverseComplement);
    if r.Success? {
      ApproxPatternMembers(genome, k, m, WithReverseComplement);
      ApproxPatternOrder(genome, k, m, WithReverseComplement);
    }
  }
}

/** Approximate occurrences: `pattern_mismatch` (word for word the same in
    Find_Replication_Origin.py, problem9.py and problem10.py). */
module ApproximateMatch {
  import opened ExactMatch

  /** Number of positions at which two equal-length strings differ. */
  function Hamming(a: string, b: string): (d: nat)
    requires |a| == |b|
    ensures d <= |a|
  {
    if a == [] then 0
    else Hamming(a[..|a| - 1], b[..|b| - 1]) + (if a[|a| - 1] != b[|b| - 1] then 1 else 0)
  }

  /** The offsets below `n` whose window is within `m` mismatches of `p`, in
      increasing order. */
  function ApproxBelow(g: string, p: string, m: int, n: nat): seq<nat>
    requires n <= WindowCount(|g|, |p|)
  {
    if n == 0 then []
    else
      var r0 := ApproxBelow(g, p, m, n - 1);
      if Hamming(g[n - 1..n - 1 + |p|], p) <= m then r0 + [n - 1] else r0
  }

  /** ApproxBelow lists exactly the offsets below n with at most m mismatches,
      each once and in increasing order. */
  lemma {:induction false} ApproxBelowSpec(g: string, p: string, m: int, n: nat)
    requires n <= WindowCount(|g|, |p|)
    ensures forall a :: 0 <= a < |ApproxBelow(g, p, m, n)| ==>
      ApproxBelow(g, p, m, n)[a] < n &&
      Hamming(g[ApproxBelow(g, p, m, n)[a]..ApproxBelow(g, p, m, n)[a] + |p|], p) <= m
    ensures forall i :: 0 <= i < n && Hamming(g[i..i + |p|], p) <= m ==> i in ApproxBelow(g, p, m, n)
    ensures forall a, b :: 0 <= a < b < |ApproxBelow(g, p, m, n)| ==>
      ApproxBelow(g, p, m, n)[a] < ApproxBelow(g, p, m, n)[b]
  {
    if n > 0 {
      ApproxBelowSpec(g, p, m, n - 1);
    }
  }

  /** The `pattern_index` list that pattern_mismatch builds. */
  function ApproxPositions(g: string, p: string, m: int): seq<nat> {
    ApproxBelow(g, p, m, WindowCount(|g|, |p|))
  }

  /** What pattern_mismatch returns: the length of that list. */
  function ApproxCount(g: string, p: string, m: int): nat {
    |ApproxPositions(g, p, m)|
  }

  /** pattern_mismatch(genome, pattern, mismatches). The outer loop drops the
      first character of `genome` on every step, so at step i the inner loop
      compares `genome[i + j]` with `pattern[j]`; it never reads out of range
      because at least |pattern| characters remain. */
  method PatternMismatch(genome: string, pattern: string, mismatches: int) returns (n: nat)
    ensures n == ApproxCount(genome, pattern, mismatches)
    ensures n <= WindowCount(|genome|, |pattern|)
  {
    var patternIndex: seq<nat> := [];
    var g := genome;
    var i: nat := 0;
    while i < |genome| - (|pattern| - 1)
      invariant i <= WindowCount(|genome|, |pattern|)
      invariant g == if i <= |genome| then genome[i..] else []
      invariant patternIndex == ApproxBelow(genome, pattern, mismatches, i)
    {
      var count := CountMismatches(g, pattern);
      assert g[..|pattern|] == genome[i..i + |pattern|];
      assert ApproxBelow(genome, pattern, mismatches, i + 1) == patternIndex +
        (if Hamming(genome[i..i + |pattern|], pattern) <= mismatches then [i] else []);
      if count <= mismatches {
        patternIndex := patternIndex + [i];
      }
      // Python's `genome[1:]` is "" on the empty string (only reached when
      // the pattern is empty)
      g := if g == [] then [] else g[1..];
      i := i + 1;
    }
    assert i == WindowCount(|genome|, |pattern|);
    n := |patternIndex|;
    ApproxBelowBound(genome, pattern, mismatches, i);
  }

  /** The inner loop of pattern_mismatch: the number of offsets j below
      |pattern| at which `g[j]` and `pattern[j]` differ. */
  method CountMismatches(g: string, pattern: string) returns (count: nat)
    requires |pattern| <= |g|
    ensures count == Hamming(g[..|pattern|], pattern)
  {
    var j: nat := 0;
    count := 0;
    while j < |pattern|
      invariant j <= |pattern|
      invariant count == Hamming(g[..j], pattern[..j])
    {
      assert g[..j + 1][..j] == g[..j] && pattern[..j + 1][..j] == pattern[..j];
      if g[j] != pattern[j] {
        count := count + 1;
      }
      j := j + 1;
    }
    assert pattern[..|pattern|] == pattern;
  }

  lemma {:induction false} ApproxBelowBound(g: string, p: string, m: int, n: nat)
    requires n <= WindowCount(|g|, |p|)
    ensures |ApproxBelow(g, p, m, n)| <= n
  {
    if n > 0 {
      ApproxBelowBound(g, p, m, n - 1);
    }
  }

  /** Hamming distance 0 means equality. */
  lemma {:induction false} HammingZero(a: string, b: string)
    requires |a| == |b|
    ensures Hamming(a, b) == 0 <==> a == b
  {
    if a != [] {
      HammingZero(a[..|a| - 1], b[..|b| - 1]);
      if a[..|a| - 1] == b[..|b| - 1] && a[|a| - 1] == b[|b| - 1] {
        assert a == a[..|a| - 1] + [a[|a| - 1]] && b == b[..|b| - 1] + [b[|b| - 1]];
      }
    }
  }

  lemma {:induction false} ZeroMismatchBelow(g: string, p: string, n: nat)
    requires n <= WindowCount(|g|, |p|)
    ensures ApproxBelow(g, p, 0, n) == PositionsBelow(g, p, n)
  {
    if n > 0 {
      ZeroMismatchBelow(g, p, n - 1);
      HammingZero(g[n - 1..n - 1 + |p|], p);
    }
  }

  /** With no mismatch allowed pattern_mismatch finds exactly the exact,
      overlapping occurrences (the offsets seq_position returns). */
  lemma ZeroMismatchIsExact(g: string, p: string)
    ensures ApproxPositions(g, p, 0) == ExactPositions(g, p)
    ensures ApproxCount(g, p, 0) == |ExactPositions(g, p)|
  {
    ZeroMismatchBelow(g, p, WindowCount(|g|, |p|));
  }

  lemma {:induction false} LargeBoundBelow(g: string, p: string, m: int, n: nat)
    requires n <= WindowCount(|g|, |p|) && m >= |p|
    ensures |ApproxBelow(g, p, m, n)| == n
  {
    if n > 0 {
      LargeBoundBelow(g, p, m, n - 1);
    }
  }

  /** When the bound is at least the pattern length every window counts. */
  lemma LargeBoundCountsAll(g: string, p: string, m: int)
    requires |p| <= |g| && m >= |p|
    ensures ApproxCount(g, p, m) == |g| - |p| + 1
  {
    LargeBoundBelow(g, p, m, WindowCount(|g|, |p|));
  }

  /** A pattern longer than the genome is never found. */
  lemma LongPatternNotFound(g: string, p: string, m: int)
    requires |p| > |g|
    ensures ApproxCount(g, p, m) == 0
  {
  }

  /** A window of the genome is found at least at its own offset. */
  lemma SelfMatch(g: string, i: nat, k: nat, m: int)
    requires i + k <= |g| && m >= 0
    ensures ApproxCount(g, g[i..i + k], m) >= 1
  {
    var p := g[i..i + k];
    HammingZero(p, p);
    ApproxBelowSpec(g, p, m, WindowCount(|g|, |p|));
    assert i in ApproxPositions(g, p, m);
  }
}

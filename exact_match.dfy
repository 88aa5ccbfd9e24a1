/** Exact, overlapping occurrences of a pattern: `seq_position` (problem4.py)
    and `pattern_count` (problem1.py). */
module ExactMatch {

  /** Number of offsets i with i + k <= n, the length of
      `range(n - (k - 1))` when this is not negative. */
  function WindowCount(n: nat, k: nat): nat {
    if k <= n then n - k + 1 else 0
  }

  /** `x` occurs in `g` starting at offset i. */
  predicate OccursAt(g: string, x: string, i: nat) {
    i + |x| <= |g| && g[i..i + |x|] == x
  }

  /** The offsets below `n` at which `p` occurs in `g`, ascending. */
  function PositionsBelow(g: string, p: string, n: nat): (r: seq<nat>)
    requires n <= WindowCount(|g|, |p|)
    ensures forall a :: 0 <= a < |r| ==> r[a] < n && g[r[a]..r[a] + |p|] == p
    ensures forall i :: 0 <= i < n && g[i..i + |p|] == p ==> i in r
    ensures forall a, b :: 0 <= a < b < |r| ==> r[a] < r[b]
  {
    if n == 0 then []
    else PositionsBelow(g, p, n - 1) + (if g[n - 1..n - 1 + |p|] == p then [n - 1] else [])
  }

  /** Every offset at which `p` occurs in `g`, overlapping ones included. */
  function ExactPositions(g: string, p: string): seq<nat> {
    PositionsBelow(g, p, WindowCount(|g|, |p|))
  }

  /** One more window adds one position exactly when it matches. */
  lemma PositionsStep(g: string, x: string, n: nat)
    requires 0 < n <= WindowCount(|g|, |x|)
    ensures |PositionsBelow(g, x, n)| ==
      |PositionsBelow(g, x, n - 1)| + (if g[n - 1..n - 1 + |x|] == x then 1 else 0)
  {
  }

  /** `x` occurs in `g` at some offset below `n`, read off its first
      occurrence. */
  predicate OccursBefore(g: string, x: string, n: nat) {
    ExactPositions(g, x) != [] && ExactPositions(g, x)[0] < n
  }

  /** OccursBefore means what its name says. */
  lemma OccursBeforeIff(g: string, x: string, n: nat)
    ensures OccursBefore(g, x, n) <==> exists i :: 0 <= i < n && OccursAt(g, x, i)
  {
    if exists i :: 0 <= i < n && OccursAt(g, x, i) {
      var i :| 0 <= i < n && OccursAt(g, x, i);
      FirstOccurrence(g, x, i);
    }
    if OccursBefore(g, x, n) {
      assert OccursAt(g, x, ExactPositions(g, x)[0]);
    }
  }

  /** No occurrence comes before the first entry of ExactPositions. */
  lemma FirstOccurrence(g: string, x: string, i: nat)
    requires OccursAt(g, x, i)
    ensures ExactPositions(g, x) != [] && ExactPositions(g, x)[0] <= i
    ensures OccursAt(g, x, ExactPositions(g, x)[0])
  {
    var r := ExactPositions(g, x);
    assert i in r;
    var a :| 0 <= a < |r| && r[a] == i;
    assert a == 0 || r[0] < r[a];
  }

  /** The first occurrence of `x` is at n - 1 when `x` occurs below n but
      not below n - 1. */
  lemma FirstOccurrenceAt(g: string, x: string, n: nat)
    requires 0 < n && OccursBefore(g, x, n) && !OccursBefore(g, x, n - 1)
    ensures OccursAt(g, x, n - 1)
  {
    var r := ExactPositions(g, x);
    assert r[0] == n - 1;
  }

  /** The offsets ExactPositions lists: every one is a match, every match is
      listed, in increasing order; none for a pattern longer than the
      genome, and every offset 0 .. |g| for the empty pattern. */
  lemma ExactPositionsSpec(g: string, p: string)
    ensures forall a :: 0 <= a < |ExactPositions(g, p)| ==>
      ExactPositions(g, p)[a] + |p| <= |g| &&
      g[ExactPositions(g, p)[a]..ExactPositions(g, p)[a] + |p|] == p
    ensures forall i :: 0 <= i && i + |p| <= |g| && g[i..i + |p|] == p ==> i in ExactPositions(g, p)
    ensures forall a, b :: 0 <= a < b < |ExactPositions(g, p)| ==> ExactPositions(g, p)[a] < ExactPositions(g, p)[b]
    ensures |p| > |g| ==> ExactPositions(g, p) == []
    ensures p == [] ==> ExactPositions(g, p) == seq(|g| + 1, i requires 0 <= i <= |g| => i)
  {
    if p == [] {
      EmptyPatternPositions(g, |g| + 1);
    }
  }

  /** seq_position(genome, specified_seq) */
  method SeqPosition(genome: string, specified: string) returns (pos: seq<nat>)
    ensures pos == ExactPositions(genome, specified)
  {
    pos := [];
    var i: nat := 0;
    while i < |genome| - (|specified| - 1)
      invariant i <= WindowCount(|genome|, |specified|)
      invariant pos == PositionsBelow(genome, specified, i)
    {
      assert PositionsBelow(genome, specified, i + 1) ==
        pos + if genome[i..i + |specified|] == specified then [i] else [];
      if genome[i..|specified| + i] == specified {
        pos := pos + [i];
      }
      i := i + 1;
    }
    assert i == WindowCount(|genome|, |specified|);
  }

  /** For the empty pattern every offset 0 .. |g| is a match. */
  lemma {:induction false} EmptyPatternPositions(g: string, n: nat)
    requires n <= |g| + 1
    ensures PositionsBelow(g, [], n) == seq(n, i requires 0 <= i < n => i)
  {
    if n > 0 {
      EmptyPatternPositions(g, n - 1);
    }
  }

  /** At most one match per offset. */
  lemma {:induction false} PositionsBelowBound(g: string, p: string, n: nat)
    requires n <= WindowCount(|g|, |p|)
    ensures |PositionsBelow(g, p, n)| <= n
  {
    if n > 0 {
      PositionsBelowBound(g, p, n - 1);
    }
  }

  /** pattern_count(genome, pattern): walks every i in range(len(genome)),
      stops at the first slice that Python clamps to fewer than |pattern|
      characters and counts the slices equal to the pattern. The break never
      fires for the empty pattern, so that count is |genome| where
      seq_position finds |genome| + 1 offsets. */
  method PatternCount(genome: string, pattern: string) returns (count: nat)
    ensures pattern != [] ==> count == |ExactPositions(genome, pattern)|
    ensures pattern == [] ==> count == |genome|
    ensures count <= WindowCount(|genome|, |pattern|)
    ensures |pattern| > |genome| ==> count == 0
    ensures pattern != [] && pattern == genome ==> count == 1
  {
    count := 0;
    var i: nat := 0;
    while i < |genome|
      invariant i <= |genome| && i <= WindowCount(|genome|, |pattern|)
      invariant count == |PositionsBelow(genome, pattern, i)|
    {
      // Python clamps the end of a slice to the length of the string
      var stop := if |pattern| + i <= |genome| then |pattern| + i else |genome|;
      if |genome[i..stop]| < |pattern| {
        break;
      }
      if genome[i..stop] == pattern {
        count := count + 1;
      }
      i := i + 1;
    }
    assert i == |genome| || i == WindowCount(|genome|, |pattern|);
    if pattern == [] {
      EmptyPatternPositions(genome, i);
    } else {
      assert i == WindowCount(|genome|, |pattern|);
    }
    PositionsBelowBound(genome, pattern, i);
  }
}

/** clump_finder in problem5.py: a sliding pass over the k-mers of the genome
    that keeps an insertion-ordered count table. When the offset reaches
    `window`, the first key with the largest count is recorded if that count
    reaches `occurances`, the earliest-inserted key is deleted, and `window`
    moves on by one. */
module Clump {
  import opened OrderedTable
  import opened ExactMatch

  /** The loop's variables `count`, `clumping_seqs` and `window`. */
  datatype ClumpState = ClumpState(count: Table, recorded: seq<string>, window: int)

  /** One iteration at offset i on window `x`: count it; at the window
      offset, record the first key of largest count if that count reaches
      `occ`, delete the earliest-inserted key and move the window on. */
  function Step(st: ClumpState, x: string, i: nat, occ: int): (r: ClumpState)
    requires DistinctKeys(st.count)
    ensures DistinctKeys(r.count)
  {
    var c := Increment(st.count, x);
    if i == st.window then
      var best := c[MaxIndex(c)];
      ClumpState(c[1..], if best.1 >= occ then st.recorded + [best.0] else st.recorded, st.window + 1)
    else
      ClumpState(c, st.recorded, st.window)
  }

  /** The state after the first n iterations of the loop, started with
      `window = w0`. */
  function ClumpRun(g: string, k: nat, w0: int, occ: int, n: nat): (st: ClumpState)
    requires n <= WindowCount(|g|, k)
    ensures DistinctKeys(st.count)
  {
    if n == 0 then ClumpState([], [], w0)
    else Step(ClumpRun(g, k, w0, occ, n - 1), g[n - 1..n - 1 + k], n - 1, occ)
  }

  /** Every key is a length-k string, counted at least once and at most as
      often as it occurs among the first n windows. */
  ghost predicate Counted(g: string, k: nat, n: nat, t: Table)
    requires n <= WindowCount(|g|, k)
  {
    forall j :: 0 <= j < |t| ==>
      |t[j].0| == k && 1 <= t[j].1 <= |PositionsBelow(g, t[j].0, n)|
  }

  /** Every recorded string is a length-k string occurring in the genome at
      least `occ` times. */
  ghost predicate Qualified(g: string, k: nat, occ: int, rec: seq<string>) {
    forall a :: 0 <= a < |rec| ==>
      |rec[a]| == k && ExactPositions(g, rec[a]) != [] && |ExactPositions(g, rec[a])| >= occ
  }

  /** At the window offset the step moves `window` on by one and records
      one key exactly when some count, after counting `x`, reaches `occ`;
      that key is the first in insertion order with the largest count. */
  lemma StepRecordsFirstMax(st: ClumpState, x: string, i: nat, occ: int)
    requires DistinctKeys(st.count) && i == st.window
    ensures var c, r := Increment(st.count, x), Step(st, x, i, occ);
      && r.window == st.window + 1
      && (r.recorded == st.recorded <==> forall j :: 0 <= j < |c| ==> c[j].1 < occ)
      && (r.recorded != st.recorded ==>
            && |r.recorded| == |st.recorded| + 1 && r.recorded[..|st.recorded|] == st.recorded
            && var y := r.recorded[|st.recorded|];
               && y in Keys(c)
               && (forall j :: 0 <= j < |c| ==> c[j].1 <= Lookup(c, y))
               && (forall j :: 0 <= j < IndexOf(c, y) ==> c[j].1 < Lookup(c, y)))
  {
    var c := Increment(st.count, x);
    var b := MaxIndex(c);
    LookupAt(c, b);
    assert IndexOf(c, c[b].0) == b;
    if c[b].1 >= occ {
      assert (st.recorded + [c[b].0])[..|st.recorded|] == st.recorded;
    }
  }

  /** Occurrences below n are among the occurrences below any larger bound. */
  lemma {:induction false} PositionsMonotone(g: string, x: string, n1: nat, n2: nat)
    requires n1 <= n2 <= WindowCount(|g|, |x|)
    ensures |PositionsBelow(g, x, n1)| <= |PositionsBelow(g, x, n2)|
  {
    if n1 < n2 {
      PositionsMonotone(g, x, n1, n2 - 1);
      PositionsStep(g, x, n2);
    }
  }

  /** The window advances with the offset once it has been reached, and
      stays put before that (or for good, when it starts negative). */
  lemma {:induction false} WindowSchedule(g: string, k: nat, w0: int, occ: int, n: nat)
    requires n <= WindowCount(|g|, k)
    ensures ClumpRun(g, k, w0, occ, n).window == if 0 <= w0 < n then n else w0
    ensures |ClumpRun(g, k, w0, occ, n).recorded| <= if 0 <= w0 < n then n - w0 else 0
  {
    if n > 0 {
      WindowSchedule(g, k, w0, occ, n - 1);
    }
  }

  lemma {:induction false} ClumpRunSpec(g: string, k: nat, w0: int, occ: int, n: nat)
    requires n <= WindowCount(|g|, k)
    ensures Counted(g, k, n, ClumpRun(g, k, w0, occ, n).count)
    ensures Qualified(g, k, occ, ClumpRun(g, k, w0, occ, n).recorded)
  {
    if n > 0 {
      ClumpRunSpec(g, k, w0, occ, n - 1);
      CountedStep(g, k, w0, occ, n);
      RecordedStep(g, k, w0, occ, n);
    }
  }

  /** Incrementing the count of the n-th window keeps the table counted. */
  lemma {:induction false} IncrementCounted(g: string, k: nat, n: nat, t: Table)
    requires 0 < n <= WindowCount(|g|, k) && DistinctKeys(t)
    requires Counted(g, k, n - 1, t)
    ensures Counted(g, k, n, Increment(t, g[n - 1..n - 1 + k]))
  {
    var c := Increment(t, g[n - 1..n - 1 + k]);
    forall j | 0 <= j < |c| ensures |c[j].0| == k && 1 <= c[j].1 <= |PositionsBelow(g, c[j].0, n)| {
      IncrementCountedAt(g, k, n, t, j);
    }
  }

  lemma IncrementCountedAt(g: string, k: nat, n: nat, t: Table, j: nat)
    requires 0 < n <= WindowCount(|g|, k) && DistinctKeys(t)
    requires Counted(g, k, n - 1, t)
    requires j < |Increment(t, g[n - 1..n - 1 + k])|
    ensures var c := Increment(t, g[n - 1..n - 1 + k]);
      |c[j].0| == k && 1 <= c[j].1 <= |PositionsBelow(g, c[j].0, n)|
  {
    var x := g[n - 1..n - 1 + k];
    var c := Increment(t, x);
    PositionsStep(g, c[j].0, n);
    if j < |t| {
      assert |t[j].0| == k && 1 <= t[j].1 <= |PositionsBelow(g, t[j].0, n - 1)|;
    } else {
      assert c[j] == (x, 1);
    }
  }

  lemma {:induction false} CountedStep(g: string, k: nat, w0: int, occ: int, n: nat)
    requires 0 < n <= WindowCount(|g|, k)
    requires Counted(g, k, n - 1, ClumpRun(g, k, w0, occ, n - 1).count)
    ensures Counted(g, k, n, ClumpRun(g, k, w0, occ, n).count)
  {
    var prev := ClumpRun(g, k, w0, occ, n - 1);
    var c := Increment(prev.count, g[n - 1..n - 1 + k]);
    IncrementCounted(g, k, n, prev.count);
    if n - 1 == prev.window {
      assert ClumpRun(g, k, w0, occ, n).count == c[1..];
      forall j | 0 <= j < |c| - 1
        ensures |c[1..][j].0| == k && 1 <= c[1..][j].1 <= |PositionsBelow(g, c[1..][j].0, n)|
      {
        assert c[1..][j] == c[j + 1];
      }
    }
  }

  lemma {:induction false} RecordedStep(g: string, k: nat, w0: int, occ: int, n: nat)
    requires 0 < n <= WindowCount(|g|, k)
    requires Counted(g, k, n - 1, ClumpRun(g, k, w0, occ, n - 1).count)
    requires Qualified(g, k, occ, ClumpRun(g, k, w0, occ, n - 1).recorded)
    ensures Qualified(g, k, occ, ClumpRun(g, k, w0, occ, n).recorded)
  {
    var prev := ClumpRun(g, k, w0, occ, n - 1);
    var c := Increment(prev.count, g[n - 1..n - 1 + k]);
    if n - 1 == prev.window {
      var best := c[MaxIndex(c)];
      if best.1 >= occ {
        IncrementCounted(g, k, n, prev.count);
        CountedEntryOccurs(g, k, n, c, MaxIndex(c));
        QualifiedAppend(g, k, occ, prev.recorded, best.0);
      }
    }
  }

  /** A key counted below n occurs in the genome at least as often as its
      count says. */
  lemma {:induction false} CountedEntryOccurs(g: string, k: nat, n: nat, t: Table, j: nat)
    requires n <= WindowCount(|g|, k) && Counted(g, k, n, t) && j < |t|
    ensures |t[j].0| == k && ExactPositions(g, t[j].0) != [] && |ExactPositions(g, t[j].0)| >= t[j].1
  {
    PositionsMonotone(g, t[j].0, n, WindowCount(|g|, k));
  }

  lemma {:induction false} QualifiedAppend(g: string, k: nat, occ: int, rec: seq<string>, x: string)
    requires Qualified(g, k, occ, rec)
    requires |x| == k && ExactPositions(g, x) != [] && |ExactPositions(g, x)| >= occ
    ensures Qualified(g, k, occ, rec + [x])
  {
    var r := rec + [x];
    forall a | 0 <= a < |r|
      ensures |r[a]| == k && ExactPositions(g, r[a]) != [] && |ExactPositions(g, r[a])| >= occ
    {
      if a < |rec| {
        assert r[a] == rec[a];
      }
    }
  }

  /** A firing deletes the whole entry of the earliest-inserted key, whatever
      its count. */
  lemma {:induction false} EvictsFirstKey(g: string, k: nat, w0: int, occ: int, n: nat)
    requires 0 < n <= WindowCount(|g|, k)
    requires n - 1 == ClumpRun(g, k, w0, occ, n - 1).window
    ensures var c := Increment(ClumpRun(g, k, w0, occ, n - 1).count, g[n - 1..n - 1 + k]);
      c[0].0 !in Keys(ClumpRun(g, k, w0, occ, n).count) &&
      forall j :: 1 <= j < |c| ==> c[j].0 in Keys(ClumpRun(g, k, w0, occ, n).count)
  {
    var c := Increment(ClumpRun(g, k, w0, occ, n - 1).count, g[n - 1..n - 1 + k]);
    var t := ClumpRun(g, k, w0, occ, n).count;
    assert t == c[1..];
    forall j | 1 <= j < |c| ensures c[j].0 in Keys(t) {
      assert Keys(t)[j - 1] == c[j].0;
    }
  }

  /** Recorded strings are never lost. */
  lemma {:induction false} RecordedStepGrows(g: string, k: nat, w0: int, occ: int, n: nat)
    requires 0 < n <= WindowCount(|g|, k)
    ensures ClumpRun(g, k, w0, occ, n - 1).recorded <= ClumpRun(g, k, w0, occ, n).recorded
  {
  }

  /** Every count in the table is at least 1. */
  predicate Positive(t: Table) {
    forall j :: 0 <= j < |t| ==> t[j].1 >= 1
  }

  lemma CountsPositive(g: string, k: nat, w0: int, occ: int, n: nat)
    requires n <= WindowCount(|g|, k)
    ensures Positive(ClumpRun(g, k, w0, occ, n).count)
  {
    ClumpRunSpec(g, k, w0, occ, n);
  }

  /** With `occurances <= 1`, a firing always records, since every count is
      at least 1. */
  lemma {:induction false} FiringRecords(g: string, k: nat, w0: int, occ: int, n: nat)
    requires occ <= 1 && 0 < n <= WindowCount(|g|, k)
    requires n - 1 == ClumpRun(g, k, w0, occ, n - 1).window
    requires Positive(ClumpRun(g, k, w0, occ, n - 1).count)
    ensures |ClumpRun(g, k, w0, occ, n).recorded| > 0
  {
    var prev := ClumpRun(g, k, w0, occ, n - 1);
    var c := Increment(prev.count, g[n - 1..n - 1 + k]);
    assert c[MaxIndex(c)].1 >= 1 by {
      var j := MaxIndex(c);
      if j < |prev.count| {
        assert c[j].1 >= prev.count[j].1;
      }
    }
  }

  lemma {:induction false} FirstFiringRecords(g: string, k: nat, w0: int, occ: int, n: nat)
    requires occ <= 1 && 0 <= w0 < n <= WindowCount(|g|, k)
    ensures |ClumpRun(g, k, w0, occ, n).recorded| > 0
  {
    if n - 1 == w0 {
      WindowSchedule(g, k, w0, occ, n - 1);
      CountsPositive(g, k, w0, occ, n - 1);
      FiringRecords(g, k, w0, occ, n);
    } else {
      FirstFiringRecords(g, k, w0, occ, n - 1);
      RecordedStepGrows(g, k, w0, occ, n);
    }
  }

  /** What clump_finder records over the whole genome. */
  lemma ClumpFinderSpec(g: string, k: nat, w0: int, occ: int)
    ensures Qualified(g, k, occ, ClumpRun(g, k, w0, occ, WindowCount(|g|, k)).recorded)
    ensures w0 < 0 || w0 > |g| - k ==> ClumpRun(g, k, w0, occ, WindowCount(|g|, k)).recorded == []
    ensures occ <= 1 && 0 <= w0 <= |g| - k ==> ClumpRun(g, k, w0, occ, WindowCount(|g|, k)).recorded != []
  {
    var n := WindowCount(|g|, k);
    ClumpRunSpec(g, k, w0, occ, n);
    WindowSchedule(g, k, w0, occ, n);
    if occ <= 1 && 0 <= w0 <= |g| - k {
      FirstFiringRecords(g, k, w0, occ, n);
    }
  }

  /** One pass of clump_finder's loop body at offset i. */
  method Advance(count: Table, recorded: seq<string>, w: int, pattern: string, i: nat, occurances: int)
    returns (newCount: Table, newRecorded: seq<string>, newWindow: int)
    requires DistinctKeys(count)
    ensures ClumpState(newCount, newRecorded, newWindow) ==
      Step(ClumpState(count, recorded, w), pattern, i, occurances)
  {
    newCount := Increment(count, pattern);
    newRecorded, newWindow := recorded, w;
    if i == w {
      var maxKey := newCount[MaxIndex(newCount)].0;
      LookupAt(newCount, MaxIndex(newCount));
      if Lookup(newCount, maxKey) >= occurances {
        newRecorded := recorded + [maxKey];
      }
      // the earliest-inserted key leaves the table
      newCount := newCount[1..];
      newWindow := w + 1;
    }
  }

  /** The sliding loop of clump_finder: the keys recorded, in firing order. */
  method SlideWindows(genome: string, k: nat, window: int, occurances: int) returns (recorded: seq<string>)
    ensures recorded == ClumpRun(genome, k, window, occurances, WindowCount(|genome|, k)).recorded
  {
    var count: Table := [];
    recorded := [];
    var w := window;
    var i: nat := 0;
    while i < |genome| - (k - 1)
      invariant i <= WindowCount(|genome|, k)
      invariant ClumpRun(genome, k, window, occurances, i) == ClumpState(count, recorded, w)
    {
      var pattern := genome[i..k + i];
      assert ClumpRun(genome, k, window, occurances, i + 1) ==
        Step(ClumpState(count, recorded, w), pattern, i, occurances);
      count, recorded, w := Advance(count, recorded, w, pattern, i, occurances);
      i := i + 1;
    }
    assert i == WindowCount(|genome|, k);
  }

  /** list(set(s)): each element of s once; the order of a Python set is not
      specified, and this one keeps first occurrences in order. */
  method Distinct(s: seq<string>) returns (r: seq<string>)
    ensures forall x :: x in r <==> x in s
    ensures forall a, b :: 0 <= a < b < |r| ==> r[a] != r[b]
    ensures r == [] <==> s == []
  {
    r := [];
    for j := 0 to |s|
      invariant forall x :: x in r <==> x in s[..j]
      invariant forall a, b :: 0 <= a < b < |r| ==> r[a] != r[b]
      invariant |r| <= j
    {
      if s[j] !in r {
        r := r + [s[j]];
      }
    }
    assert s[..|s|] == s;
    if s != [] {
      assert s[0] in r;
    }
  }

  /** clump_finder(genome, pattern_len, window, occurances). */
  method ClumpFinder(genome: string, k: nat, window: int, occurances: int) returns (clumpingSeqs: seq<string>)
    ensures forall x :: x in clumpingSeqs <==>
      x in ClumpRun(genome, k, window, occurances, WindowCount(|genome|, k)).recorded
    ensures forall a, b :: 0 <= a < b < |clumpingSeqs| ==> clumpingSeqs[a] != clumpingSeqs[b]
    ensures forall x :: x in clumpingSeqs ==>
      |x| == k && ExactPositions(genome, x) != [] && |ExactPositions(genome, x)| >= occurances
    ensures window < 0 || window > |genome| - k ==> clumpingSeqs == []
    ensures occurances <= 1 && 0 <= window <= |genome| - k ==> clumpingSeqs != []
  {
    var recorded := SlideWindows(genome, k, window, occurances);
    clumpingSeqs := Distinct(recorded);
    ClumpFinderSpec(genome, k, window, occurances);
  }
}

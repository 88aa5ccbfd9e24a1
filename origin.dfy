/** The bounding-box computation of Find_Replication_Origin.py: each
    minimum of the skew profile that leaves room for a window of `window`
    characters on either side is searched for the approximate most frequent
    k-mers (both strands), and the result is filed under "ori" + str(i). */
module Origin {
  import opened Wrappers
  import opened Decimal
  import opened Skew
  import opened MotifSearch

  /** `bounding_box`: labels with their k-mer lists, in insertion order. */
  type Boxes = seq<(string, seq<string>)>

  /** The same entries, each under the index i of its minimum instead of the
      label "ori" + str(i). */
  type Entries = seq<(nat, seq<string>)>

  function Labels(b: Boxes): (ls: seq<string>)
    ensures |ls| == |b| && forall a :: 0 <= a < |b| ==> ls[a] == b[a].0
  {
    seq(|b|, a requires 0 <= a < |b| => b[a].0)
  }

  /** `"ori" + str(i)`. */
  function OriLabel(i: nat): string {
    "ori" + DecimalString(i)
  }

  lemma OriLabelInjective(i: nat, j: nat)
    requires OriLabel(i) == OriLabel(j)
    ensures i == j
  {
    assert DecimalString(i) == OriLabel(i)[3..];
    assert DecimalString(j) == OriLabel(j)[3..];
    DecimalStringInjective(i, j);
  }

  lemma OriLabelDistinct(i: nat, j: nat)
    requires i != j
    ensures OriLabel(i) != OriLabel(j)
  {
    if OriLabel(i) == OriLabel(j) {
      OriLabelInjective(i, j);
    }
  }

  /** The window around minimum `p` is not skipped. */
  predicate InBounds(p: nat, w: int, n: nat) {
    0 <= p - w && p + w <= n
  }

  /** Where Python places a slice bound `i` in a string of length n: a
      negative bound counts from the end, and either kind is clamped to
      0..n. */
  function PyIndex(n: nat, i: int): (r: nat)
    ensures r <= n
    ensures 0 <= i <= n ==> r == i
    ensures i < 0 ==> r == if n + i < 0 then 0 else n + i
    ensures i > n ==> r == n
  {
    if i < 0 then (if n + i < 0 then 0 else n + i)
    else if i > n then n
    else i
  }

  /** Python's `s[a:b]`: the characters from the placed start up to the
      placed stop, or none when the stop does not lie beyond the start. */
  function PySlice(s: string, a: int, b: int): (r: string)
    ensures var lo, hi := PyIndex(|s|, a), PyIndex(|s|, b);
      && |r| == (if lo < hi then hi - lo else 0)
      && forall j :: 0 <= j < |r| ==> r[j] == s[lo + j]
  {
    var lo, hi := PyIndex(|s|, a), PyIndex(|s|, b);
    if lo < hi then s[lo..hi] else []
  }

  /** How many characters the kept window around `p` holds: `2 * w` for a
      window that is not negative. A negative `w` gives a start beyond the
      stop, so the slice is empty, unless the stop `p + w` is negative and
      therefore counts from the end of the genome. */
  function WindowLength(n: nat, p: nat, w: int): nat {
    if w >= 0 then 2 * w
    else if p + w < 0 then (if n + 2 * w > 0 then n + 2 * w else 0)
    else 0
  }

  /** `genome[p - w : p + w]` for a window that is not skipped: the
      WindowLength characters that start at offset p - w. */
  function Slice(g: string, p: nat, w: int): (s: string)
    requires InBounds(p, w, |g|)
    ensures |s| == WindowLength(|g|, p, w)
    ensures forall j :: 0 <= j < |s| ==> p - w + j < |g| && s[j] == g[p - w + j]
  {
    PySlice(g, p - w, p + w)
  }

  lemma SliceNoPercent(g: string, p: nat, w: int)
    requires '%' !in g && InBounds(p, w, |g|)
    ensures '%' !in Slice(g, p, w)
  {
    var s := Slice(g, p, w);
    forall j | 0 <= j < |s| ensures s[j] != '%' {
      assert s[j] == g[p - w + j];
    }
  }

  /** What approx_pattern returns on the window around minimum `p`. */
  function WindowResult(g: string, p: nat, k: nat, m: int, w: int): Result<seq<string>>
    requires '%' !in g && InBounds(p, w, |g|)
  {
    SliceNoPercent(g, p, w);
    ApproxPatternSpec(Slice(g, p, w), k, m, WithReverseComplement)
  }

  /** The result of each minimum's window; a skipped window's entry is never
      read. */
  function WindowResults(g: string, mins: seq<nat>, k: nat, m: int, w: int): (rs: seq<Result<seq<string>>>)
    requires '%' !in g
    ensures |rs| == |mins|
  {
    seq(|mins|, j requires 0 <= j < |mins| =>
      if InBounds(mins[j], w, |g|) then WindowResult(g, mins[j], k, m, w) else Failure(EmptyMax))
  }

  /** The entries filed for the first n minima, given each window's result
      `rs`, or the failure that stops the loop. */
  function EntriesUpTo(n0: nat, mins: seq<nat>, w: int, rs: seq<Result<seq<string>>>, n: nat): Result<Entries>
    requires n <= |mins| == |rs|
  {
    if n == 0 then Success([])
    else
      var prev := EntriesUpTo(n0, mins, w, rs, n - 1);
      if prev.Failure? || !InBounds(mins[n - 1], w, n0) then prev
      else if rs[n - 1].Failure? then Failure(rs[n - 1].error)
      else Success(prev.value + [(n - 1, rs[n - 1].value)])
  }

  /** Each entry filed under its label. */
  function Labelled(e: Entries): Boxes {
    seq(|e|, a requires 0 <= a < |e| => (OriLabel(e[a].0), e[a].1))
  }

  /** `bounding_box` at the end of the loop, given each window's result
      `rs`. */
  function BoxesOf(n0: nat, mins: seq<nat>, w: int, rs: seq<Result<seq<string>>>): Result<Boxes>
    requires |mins| == |rs|
  {
    var e := EntriesUpTo(n0, mins, w, rs, |mins|);
    if e.Failure? then Failure(e.error) else Success(Labelled(e.value))
  }

  /** `bounding_box` at the end of the loop over all minima `mins`. */
  function BoundingBox(g: string, mins: seq<nat>, k: nat, m: int, w: int): Result<Boxes>
    requires '%' !in g
  {
    BoxesOf(|g|, mins, w, WindowResults(g, mins, k, m, w))
  }

  /** `rs[j]` is what approx_pattern returns on the window of minimum j. */
  ghost predicate Searched(g: string, mins: seq<nat>, k: nat, m: int, w: int, rs: seq<Result<seq<string>>>, j: nat)
    requires '%' !in g && |rs| == |mins|
  {
    j < |mins| ==> rs[j] == WindowResults(g, mins, k, m, w)[j]
  }

  /** The loop stops for good at the first failing window. */
  lemma {:induction false} FailurePersists(n0: nat, mins: seq<nat>, w: int, rs: seq<Result<seq<string>>>, n1: nat, n2: nat)
    requires n1 <= n2 <= |mins| == |rs|
    ensures EntriesUpTo(n0, mins, w, rs, n1).Failure? ==> EntriesUpTo(n0, mins, w, rs, n2).Failure?
  {
    if n1 < n2 {
      FailurePersists(n0, mins, w, rs, n1, n2 - 1);
    }
  }

  /** A window fails exactly when it holds at most k + 1 characters, leaving
      approx_pattern no candidate. */
  lemma WindowFailure(g: string, p: nat, k: nat, m: int, w: int)
    requires '%' !in g && InBounds(p, w, |g|)
    ensures WindowResult(g, p, k, m, w).Failure? <==> WindowLength(|g|, p, w) <= k + 1
  {
    SliceNoPercent(g, p, w);
    ApproxPatternShape(Slice(g, p, w), k, m, WithReverseComplement);
  }

  /** The loop fails exactly when one of the first n windows is kept and
      fails. */
  lemma {:induction false} EntriesFailure(n0: nat, mins: seq<nat>, w: int, rs: seq<Result<seq<string>>>, n: nat)
    requires n <= |mins| == |rs|
    ensures EntriesUpTo(n0, mins, w, rs, n).Failure? <==>
      exists j :: 0 <= j < n && InBounds(mins[j], w, n0) && rs[j].Failure?
  {
    if n > 0 {
      EntriesFailure(n0, mins, w, rs, n - 1);
    }
  }

  /** The entries name, in ascending order, exactly those of the first n
      minima whose window is kept, each with that window's result. */
  ghost predicate Filed(n0: nat, mins: seq<nat>, w: int, rs: seq<Result<seq<string>>>, n: nat, e: Entries)
    requires n <= |mins| == |rs|
  {
    && (forall a :: 0 <= a < |e| ==>
          e[a].0 < n && InBounds(mins[e[a].0], w, n0) && rs[e[a].0] == Success(e[a].1))
    && (forall a1, a2 :: 0 <= a1 < a2 < |e| ==> e[a1].0 < e[a2].0)
    && (forall j :: 0 <= j < n && InBounds(mins[j], w, n0) ==> exists a :: 0 <= a < |e| && e[a].0 == j)
  }

  lemma {:induction false} EntriesSpec(n0: nat, mins: seq<nat>, w: int, rs: seq<Result<seq<string>>>, n: nat)
    requires n <= |mins| == |rs|
    ensures EntriesUpTo(n0, mins, w, rs, n).Success? ==>
      Filed(n0, mins, w, rs, n, EntriesUpTo(n0, mins, w, rs, n).value)
  {
    if n > 0 {
      EntriesSpec(n0, mins, w, rs, n - 1);
      if EntriesUpTo(n0, mins, w, rs, n).Success? {
        FiledStep(n0, mins, w, rs, n);
      }
    }
  }

  lemma FiledStep(n0: nat, mins: seq<nat>, w: int, rs: seq<Result<seq<string>>>, n: nat)
    requires 0 < n <= |mins| == |rs|
    requires EntriesUpTo(n0, mins, w, rs, n - 1).Success?
    requires Filed(n0, mins, w, rs, n - 1, EntriesUpTo(n0, mins, w, rs, n - 1).value)
    requires EntriesUpTo(n0, mins, w, rs, n).Success?
    ensures Filed(n0, mins, w, rs, n, EntriesUpTo(n0, mins, w, rs, n).value)
  {
    var e0 := EntriesUpTo(n0, mins, w, rs, n - 1).value;
    var e := EntriesUpTo(n0, mins, w, rs, n).value;
    if InBounds(mins[n - 1], w, n0) {
      assert e == e0 + [(n - 1, rs[n - 1].value)];
      forall a | 0 <= a < |e|
        ensures e[a].0 < n && InBounds(mins[e[a].0], w, n0) && rs[e[a].0] == Success(e[a].1)
      {
        if a < |e0| {
          assert e[a] == e0[a];
        }
      }
      forall a1, a2 | 0 <= a1 < a2 < |e| ensures e[a1].0 < e[a2].0 {
        assert e[a1] == e0[a1];
        if a2 < |e0| {
          assert e[a2] == e0[a2];
        }
      }
      forall j | 0 <= j < n && InBounds(mins[j], w, n0) ensures exists a :: 0 <= a < |e| && e[a].0 == j {
        if j == n - 1 {
          assert e[|e0|].0 == j;
        } else {
          var a :| 0 <= a < |e0| && e0[a].0 == j;
          assert e[a].0 == j;
        }
      }
    } else {
      assert e == e0;
      forall j | 0 <= j < n && InBounds(mins[j], w, n0) ensures exists a :: 0 <= a < |e| && e[a].0 == j {
        assert j < n - 1;
      }
    }
  }

  /** Distinct indices give distinct labels, so each label of the bounding
      box names exactly one entry. */
  lemma LabelledSpec(e: Entries)
    requires forall a1, a2 :: 0 <= a1 < a2 < |e| ==> e[a1].0 < e[a2].0
    ensures |Labelled(e)| == |e|
    ensures forall a :: 0 <= a < |e| ==> Labelled(e)[a].1 == e[a].1
    ensures forall a, j :: 0 <= a < |e| && Labelled(e)[a].0 == OriLabel(j) ==> e[a].0 == j
    ensures forall j :: OriLabel(j) in Labels(Labelled(e)) <==> exists a :: 0 <= a < |e| && e[a].0 == j
    ensures forall a1, a2 :: 0 <= a1 < a2 < |e| ==> Labelled(e)[a1].0 != Labelled(e)[a2].0
  {
    var b := Labelled(e);
    forall a, j | 0 <= a < |e| && b[a].0 == OriLabel(j) ensures e[a].0 == j {
      OriLabelInjective(e[a].0, j);
    }
    forall j ensures OriLabel(j) in Labels(b) <==> exists a :: 0 <= a < |e| && e[a].0 == j {
      if OriLabel(j) in Labels(b) {
        var a :| 0 <= a < |b| && Labels(b)[a] == OriLabel(j);
        assert e[a].0 == j;
      }
      if exists a :: 0 <= a < |e| && e[a].0 == j {
        var a :| 0 <= a < |e| && e[a].0 == j;
        assert Labels(b)[a] == OriLabel(j);
      }
    }
    forall a1, a2 | 0 <= a1 < a2 < |e| ensures b[a1].0 != b[a2].0 {
      OriLabelDistinct(e[a1].0, e[a2].0);
    }
  }

  /** The main block of Find_Replication_Origin.py from `skew = tally(genome)`
      to the filled `bounding_box`; a failure is the exception from `max`
      that aborts the script. */
  method LocateOrigins(genome: string, k: nat, m: int, window: int) returns (r: Result<Boxes>)
    requires '%' !in genome
    ensures r == BoundingBox(genome, MinList(SkewProfile(genome)), k, m, window)
  {
    var skew := Tally(genome);
    var minList := MinList(skew);
    ghost var rs := WindowResults(genome, minList, k, m, window);
    forall j: nat ensures Searched(genome, minList, k, m, window, rs, j) {
    }
    r := FileBoxes(genome, minList, k, m, window, rs);
  }

  /** The `for i in range(len(min_list))` loop that fills `bounding_box`;
      `rs` names the result of each window's search. */
  method FileBoxes(genome: string, minList: seq<nat>, k: nat, m: int, window: int,
                   ghost rs: seq<Result<seq<string>>>) returns (r: Result<Boxes>)
    requires '%' !in genome && |rs| == |minList|
    requires forall j: nat :: Searched(genome, minList, k, m, window, rs, j)
    ensures r == BoxesOf(|genome|, minList, window, rs)
  {
    var boundingBox: Boxes := [];
    ghost var entries: Entries := [];
    var i: nat := 0;
    while i < |minList|
      invariant i <= |minList|
      invariant EntriesUpTo(|genome|, minList, window, rs, i) == Success(entries)
      invariant boundingBox == Labelled(entries)
    {
      if minList[i] - window < 0 || minList[i] + window > |genome| {
        // window falls outside the genome: skipped
        assert EntriesUpTo(|genome|, minList, window, rs, i + 1) == Success(entries);
      } else {
        var start, stop := minList[i] - window, minList[i] + window;
        var genomeCopy := PySlice(genome, start, stop);
        var maxApproxSeq := SearchWindow(genome, minList, k, m, window, rs, i, genomeCopy);
        if maxApproxSeq.Failure? {
          assert EntriesUpTo(|genome|, minList, window, rs, i + 1).Failure?;
          FailurePersists(|genome|, minList, window, rs, i + 1, |minList|);
          return Failure(maxApproxSeq.error);
        }
        var found := maxApproxSeq.value;
        assert EntriesUpTo(|genome|, minList, window, rs, i + 1) == Success(entries + [(i, found)]);
        LabelledAppend(entries, i, found);
        boundingBox := boundingBox + [(OriLabel(i), found)];
        entries := entries + [(i, found)];
      }
      i := i + 1;
    }
    assert i == |minList|;
    r := Success(boundingBox);
  }

  /** `approx_pattern(genome_copy, pattern_len, mismatches)` on the slice
      the loop takes, which is the window of minimum i. */
  method SearchWindow(g: string, mins: seq<nat>, k: nat, m: int, w: int,
                      ghost rs: seq<Result<seq<string>>>, i: nat, s: string)
    returns (r: Result<seq<string>>)
    requires '%' !in g && i < |mins| == |rs| && InBounds(mins[i], w, |g|)
    requires forall j: nat :: Searched(g, mins, k, m, w, rs, j)
    requires s == PySlice(g, mins[i] - w, mins[i] + w)
    ensures r == rs[i]
  {
    assert Searched(g, mins, k, m, w, rs, i);
    SliceNoPercent(g, mins[i], w);
    r := ApproxPatternWithRc(s, k, m);
  }

  lemma LabelledAppend(e: Entries, i: nat, v: seq<string>)
    ensures Labelled(e + [(i, v)]) == Labelled(e) + [(OriLabel(i), v)]
  {
    assert Labelled(e + [(i, v)])[|e|] == (OriLabel(i), v);
  }

  /** What the bounding box holds. The script aborts exactly when a kept
      window is too short. Otherwise the label of minimum i is present
      exactly when its window lies inside the genome, every label is that
      of some minimum, no label repeats, and each label holds approx_pattern
      of its window. */
  lemma BoundingBoxSpec(g: string, mins: seq<nat>, k: nat, m: int, w: int)
    requires '%' !in g
    ensures BoundingBox(g, mins, k, m, w).Failure? <==>
      exists j :: 0 <= j < |mins| && InBounds(mins[j], w, |g|) && WindowLength(|g|, mins[j], w) <= k + 1
    ensures BoundingBox(g, mins, k, m, w).Success? ==>
      var b := BoundingBox(g, mins, k, m, w).value;
      && (forall j :: 0 <= j < |mins| ==> (OriLabel(j) in Labels(b) <==> InBounds(mins[j], w, |g|)))
      && (forall a :: 0 <= a < |b| ==> exists j :: 0 <= j < |mins| && b[a].0 == OriLabel(j))
      && (forall a, j :: 0 <= a < |b| && 0 <= j < |mins| && b[a].0 == OriLabel(j) ==>
            InBounds(mins[j], w, |g|) && WindowResult(g, mins[j], k, m, w) == Success(b[a].1))
      && (forall a1, a2 :: 0 <= a1 < a2 < |b| ==> b[a1].0 != b[a2].0)
  {
    var n := |mins|;
    var rs := WindowResults(g, mins, k, m, w);
    EntriesFailure(|g|, mins, w, rs, n);
    forall j | 0 <= j < n && InBounds(mins[j], w, |g|)
      ensures rs[j].Failure? <==> WindowLength(|g|, mins[j], w) <= k + 1
    {
      WindowFailure(g, mins[j], k, m, w);
    }
    EntriesSpec(|g|, mins, w, rs, n);
    var e := EntriesUpTo(|g|, mins, w, rs, n);
    if e.Success? {
      LabelledSpec(e.value);
      var b := Labelled(e.value);
      forall a | 0 <= a < |b| ensures exists j :: 0 <= j < n && b[a].0 == OriLabel(j) {
        assert b[a].0 == OriLabel(e.value[a].0);
      }
    }
  }

  /** For the minima of the genome's own skew profile, as the script uses:
      each minimum is a position of the genome at which the skew is
      minimal. */
  lemma LocateOriginsSpec(genome: string, k: nat, m: int, window: int)
    requires '%' !in genome
    ensures var mins := MinList(SkewProfile(genome));
      forall j :: 0 <= j < |mins| ==>
        (mins[j] <= |genome| && SkewProfile(genome)[mins[j]] == MinValue(SkewProfile(genome)))
    ensures var mins := MinList(SkewProfile(genome));
      BoundingBox(genome, mins, k, m, window).Failure? <==>
      exists j :: 0 <= j < |mins| && InBounds(mins[j], window, |genome|) &&
        WindowLength(|genome|, mins[j], window) <= k + 1
  {
    BoundingBoxSpec(genome, MinList(SkewProfile(genome)), k, m, window);
  }
}

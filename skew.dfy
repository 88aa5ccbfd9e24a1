/** GC-skew profile (`tally`) and the positions of its minimum. */
module Skew {

  /** How one character moves the running skew. */
  function Delta(c: char): int {
    if c == 'C' then -1 else if c == 'G' then 1 else 0
  }

  /** Number of occurrences of `c` in `s`. */
  function Occurrences(s: string, c: char): nat {
    if s == [] then 0 else Occurrences(s[..|s| - 1], c) + (if s[|s| - 1] == c then 1 else 0)
  }

  /** Running skew after reading all of `s`. */
  function SkewOf(s: string): int {
    if s == [] then 0 else SkewOf(s[..|s| - 1]) + Delta(s[|s| - 1])
  }

  /** The whole profile: entry i is the skew of the first i characters. */
  function SkewProfile(genome: string): (skew: seq<int>)
    ensures |skew| == |genome| + 1
  {
    seq(|genome| + 1, i requires 0 <= i <= |genome| => SkewOf(genome[..i]))
  }

  /** The skew is the number of G minus the number of C. */
  lemma {:induction false} SkewIsGMinusC(s: string)
    ensures SkewOf(s) == Occurrences(s, 'G') - Occurrences(s, 'C')
  {
    if s != [] {
      SkewIsGMinusC(s[..|s| - 1]);
    }
  }

  /** Each character moves the skew by at most one. */
  lemma {:induction false} SkewBounded(s: string)
    ensures -|s| <= SkewOf(s) <= |s|
  {
    if s != [] {
      SkewBounded(s[..|s| - 1]);
    }
  }

  /** tally(genome), Find_Replication_Origin.py, problem6.py and problem7.py:
      starts from [0] and appends `skew[i] + delta` once per character. */
  method Tally(genome: string) returns (skew: seq<int>)
    ensures skew == SkewProfile(genome)
    ensures |skew| == |genome| + 1 && skew[0] == 0
    ensures forall i :: 0 <= i < |genome| ==> skew[i + 1] == skew[i] + Delta(genome[i])
    ensures skew[|genome|] == Occurrences(genome, 'G') - Occurrences(genome, 'C')
    ensures forall i :: 0 <= i <= |genome| ==> -i <= skew[i] <= i
  {
    skew := [0];
    for i := 0 to |genome|
      invariant |skew| == i + 1
      invariant forall j :: 0 <= j <= i ==> skew[j] == SkewOf(genome[..j])
    {
      var count;
      if genome[i] == 'C' {
        count := skew[i] - 1;
      } else if genome[i] == 'G' {
        count := skew[i] + 1;
      } else {
        count := skew[i] + 0;
      }
      assert genome[..i + 1][..i] == genome[..i];
      skew := skew + [count];
    }
    assert genome[..|genome|] == genome;
    SkewIsGMinusC(genome);
    forall i | 0 <= i < |genome| ensures skew[i + 1] == skew[i] + Delta(genome[i]) {
      assert genome[..i + 1][..i] == genome[..i];
    }
    forall i | 0 <= i <= |genome| ensures -i <= skew[i] <= i {
      SkewBounded(genome[..i]);
    }
  }

  /** min(skew) */
  function MinValue(skew: seq<int>): (v: int)
    requires |skew| > 0
    ensures v in skew
    ensures forall j :: 0 <= j < |skew| ==> v <= skew[j]
  {
    if |skew| == 1 then skew[0]
    else
      var rest := MinValue(skew[1..]);
      if skew[0] <= rest then skew[0] else rest
  }

  /** The indices j with `from <= j < |s|` and `s[j] == v`, in ascending order. */
  function IndicesFrom(s: seq<int>, v: int, from: nat): (r: seq<nat>)
    requires from <= |s|
    ensures forall a :: 0 <= a < |r| ==> from <= r[a] < |s| && s[r[a]] == v
    ensures forall a, b :: 0 <= a < b < |r| ==> r[a] < r[b]
    ensures forall j :: from <= j < |s| && s[j] == v ==> j in r
    decreases |s| - from
  {
    if from == |s| then []
    else if s[from] == v then [from] + IndicesFrom(s, v, from + 1)
    else IndicesFrom(s, v, from + 1)
  }

  /** min_list = [i for i, x in enumerate(skew) if x == min_value] */
  function MinList(skew: seq<int>): (r: seq<nat>)
    requires |skew| > 0
    ensures forall a :: 0 <= a < |r| ==> r[a] < |skew| && skew[r[a]] == MinValue(skew)
    ensures forall j :: 0 <= j < |skew| && skew[j] == MinValue(skew) ==> j in r
    ensures forall a, b :: 0 <= a < b < |r| ==> r[a] < r[b]
    ensures |r| > 0 && skew[r[0]] == MinValue(skew)
  {
    var v := MinValue(skew);
    var j :| 0 <= j < |skew| && skew[j] == v;
    var r := IndicesFrom(skew, v, 0);
    assert j in r;
    r
  }

  /** On a skew profile the minimum is at most 0 (the profile starts at 0) and
      every minimum position is a prefix length in [0, |genome|]. */
  lemma SkewMinima(genome: string)
    ensures MinValue(SkewProfile(genome)) <= 0
    ensures forall a :: 0 <= a < |MinList(SkewProfile(genome))| ==>
      MinList(SkewProfile(genome))[a] <= |genome|
  {
    assert SkewProfile(genome)[0] == SkewOf([]) == 0;
  }
}

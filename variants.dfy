/** The one-mismatch variant generator of problem12.py: every copy of the
    pattern with one position overwritten by a different base. */
module Variants {
  import opened ApproximateMatch
  import opened ReverseComplement

  /** `bases`, in the order the inner loop tries them. */
  const Bases: string := "ACTG"

  /** Position of a base in `Bases`; 4 for any other character. */
  function BaseRank(c: char): (r: nat)
    ensures r <= 4 && (r < 4 <==> c in Bases) && (r < 4 ==> Bases[r] == c)
  {
    if c == 'A' then 0 else if c == 'C' then 1 else if c == 'T' then 2 else if c == 'G' then 3 else 4
  }

  /** The first position at which `x` differs from `p`. */
  function DiffPos(x: string, p: string): (r: nat)
    requires |x| == |p| && x != p
    ensures r < |p| && x[r] != p[r] && forall j :: 0 <= j < r ==> x[j] == p[j]
  {
    if x[0] != p[0] then 0
    else 1 + DiffPos(x[1..], p[1..])
  }

  /** `x` is `p` with exactly one position overwritten by a different base. */
  predicate IsVariant(p: string, x: string) {
    |x| == |p| && x != p &&
    x == p[DiffPos(x, p) := x[DiffPos(x, p)]] && x[DiffPos(x, p)] in Bases
  }

  /** Variant `x` comes before variant `y` in the generator's order: by the
      position that changed, then by the base written there. */
  predicate Precedes(p: string, x: string, y: string) {
    |x| == |p| && x != p && |y| == |p| && y != p &&
    (DiffPos(x, p) < DiffPos(y, p) ||
     (DiffPos(x, p) == DiffPos(y, p) && BaseRank(x[DiffPos(x, p)]) < BaseRank(y[DiffPos(y, p)])))
  }

  /** The strings the inner loop appends at position i once it has tried
      the bases `bs`. */
  function VariantsAt(p: string, i: nat, bs: string): seq<string>
    requires i < |p|
  {
    if bs == [] then []
    else
      var c := bs[|bs| - 1];
      VariantsAt(p, i, bs[..|bs| - 1]) + if c != p[i] then [p[i := c]] else []
  }

  /** `poss_patterns` after the first n iterations of the outer loop. */
  function VariantsBelow(p: string, n: nat): seq<string>
    requires n <= |p|
  {
    if n == 0 then [] else VariantsBelow(p, n - 1) + VariantsAt(p, n - 1, Bases)
  }

  /** What generator(pattern, mismatches) returns. */
  function AllVariants(p: string): seq<string> {
    VariantsBelow(p, |p|)
  }

  /** The number of positions below n whose character is not a base. */
  function NonBasesBelow(p: string, n: nat): nat
    requires n <= |p|
  {
    if n == 0 then 0 else NonBasesBelow(p, n - 1) + if p[n - 1] in Bases then 0 else 1
  }

  /** generator(pattern, mismatches). `pattern_copy` is a fresh mutable copy
      for each position; the inner loop overwrites its position i with each
      base in turn and appends the joined string whenever the base differs
      from the pattern's own character. `mismatches` is never read. */
  method Generator(pattern: string, mismatches: int) returns (possPatterns: seq<string>)
    ensures possPatterns == AllVariants(pattern)
  {
    var bases := Bases;
    possPatterns := [];
    for i := 0 to |pattern|
      invariant possPatterns == VariantsBelow(pattern, i)
    {
      var patternCopy := new char[|pattern|](j requires 0 <= j < |pattern| => pattern[j]);
      assert patternCopy[..] == pattern[i := patternCopy[i]];
      for b := 0 to |bases|
        invariant patternCopy[..] == pattern[i := patternCopy[i]]
        invariant possPatterns == VariantsBelow(pattern, i) + VariantsAt(pattern, i, bases[..b])
      {
        assert bases[..b + 1][..b] == bases[..b];
        if bases[b] != pattern[i] {
          patternCopy[i] := bases[b];
          var newPattern := patternCopy[..];
          possPatterns := possPatterns + [newPattern];
        }
      }
      assert bases[..|bases|] == bases;
    }
  }

  /** Overwriting one position changes the Hamming distance by one exactly
      when the new character differs. */
  lemma {:induction false} HammingUpdate(p: string, i: nat, c: char)
    requires i < |p|
    ensures Hamming(p[i := c], p) == if c == p[i] then 0 else 1
  {
    var x, n := p[i := c], |p|;
    if i == n - 1 {
      assert x[..n - 1] == p[..n - 1];
      HammingZero(p[..n - 1], p[..n - 1]);
    } else {
      assert x[..n - 1] == p[..n - 1][i := c];
      HammingUpdate(p[..n - 1], i, c);
    }
  }

  /** Two differing positions give a Hamming distance of at least two. */
  lemma {:induction false} TwoDiffs(a: string, b: string, i: nat, j: nat)
    requires |a| == |b| && i < j < |a| && a[i] != b[i] && a[j] != b[j]
    ensures Hamming(a, b) >= 2
  {
    var n := |a|;
    var a0, b0 := a[..n - 1], b[..n - 1];
    if j == n - 1 {
      assert a0[i] != b0[i];
      HammingZero(a0, b0);
    } else {
      TwoDiffs(a0, b0, i, j);
    }
  }

  /** Overwriting position i with a different character changes position i
      first. */
  lemma UpdateDiffPos(p: string, i: nat, c: char)
    requires i < |p| && c != p[i]
    ensures p[i := c] != p && DiffPos(p[i := c], p) == i
  {
    assert p[i := c][i] != p[i];
  }

  /** A variant is a string at Hamming distance exactly one from the pattern
      whose changed character is a base. */
  lemma VariantHamming(p: string, x: string)
    requires |x| == |p|
    ensures IsVariant(p, x) <==>
      Hamming(x, p) == 1 && forall i :: 0 <= i < |p| && x[i] != p[i] ==> x[i] in Bases
  {
    if IsVariant(p, x) {
      var d := DiffPos(x, p);
      HammingUpdate(p, d, x[d]);
      forall i | 0 <= i < |p| && x[i] != p[i] ensures x[i] in Bases {
        assert i == d;
      }
    }
    if Hamming(x, p) == 1 && forall i :: 0 <= i < |p| && x[i] != p[i] ==> x[i] in Bases {
      HammingZero(x, p);
      var d := DiffPos(x, p);
      forall j | 0 <= j < |p| && j != d ensures x[j] == p[j] {
        if x[j] != p[j] {
          TwoDiffs(x, p, d, j);
        }
      }
      assert x == p[d := x[d]];
    }
  }

  /** The inner loop at position i, having tried the first j bases, appends
      each of them that differs from the pattern's character, in the order
      of `bases`. */
  lemma {:induction false} VariantsAtSpec(p: string, i: nat, j: nat)
    requires i < |p| && j <= |Bases|
    ensures var va := VariantsAt(p, i, Bases[..j]);
      && (forall a :: 0 <= a < |va| ==>
            IsVariant(p, va[a]) && DiffPos(va[a], p) == i && BaseRank(va[a][i]) < j)
      && (forall c :: c in Bases[..j] && c != p[i] ==> p[i := c] in va)
      && (forall a, b :: 0 <= a < b < |va| ==> BaseRank(va[a][i]) < BaseRank(va[b][i]))
      && |va| == j - if p[i] in Bases[..j] then 1 else 0
  {
    if j > 0 {
      VariantsAtSpec(p, i, j - 1);
      var bs := Bases[..j];
      assert bs[..j - 1] == Bases[..j - 1];
      var c := Bases[j - 1];
      assert BaseRank(c) == j - 1;
      assert forall d :: d in bs <==> d in Bases[..j - 1] || d == c;
      if c != p[i] {
        UpdateDiffPos(p, i, c);
      }
    }
  }

  /** `poss_patterns` after n positions holds exactly the variants that
      change a position below n. */
  lemma {:induction false} VariantsBelowMembers(p: string, n: nat)
    requires n <= |p|
    ensures forall a :: 0 <= a < |VariantsBelow(p, n)| ==>
      IsVariant(p, VariantsBelow(p, n)[a]) && DiffPos(VariantsBelow(p, n)[a], p) < n
    ensures forall x :: IsVariant(p, x) && DiffPos(x, p) < n ==> x in VariantsBelow(p, n)
  {
    if n > 0 {
      VariantsBelowMembers(p, n - 1);
      VariantsAtSpec(p, n - 1, |Bases|);
      assert Bases[..|Bases|] == Bases;
      var r0, va := VariantsBelow(p, n - 1), VariantsAt(p, n - 1, Bases);
      assert VariantsBelow(p, n) == r0 + va;
      forall x | IsVariant(p, x) && DiffPos(x, p) < n ensures x in r0 + va {
        var d := DiffPos(x, p);
        if d == n - 1 {
          assert x == p[d := x[d]];
          assert x in va;
        } else {
          assert x in r0;
        }
      }
    }
  }

  /** `poss_patterns` is ordered by changed position, then by base. */
  lemma {:induction false} VariantsBelowOrdered(p: string, n: nat)
    requires n <= |p|
    ensures forall a, b :: 0 <= a < b < |VariantsBelow(p, n)| ==>
      Precedes(p, VariantsBelow(p, n)[a], VariantsBelow(p, n)[b])
  {
    if n > 0 {
      VariantsBelowMembers(p, n - 1);
      VariantsBelowOrdered(p, n - 1);
      VariantsAtSpec(p, n - 1, |Bases|);
      assert Bases[..|Bases|] == Bases;
      var r0, va := VariantsBelow(p, n - 1), VariantsAt(p, n - 1, Bases);
      var r := r0 + va;
      assert VariantsBelow(p, n) == r;
      forall a, b | 0 <= a < b < |r| ensures Precedes(p, r[a], r[b]) {
        if b < |r0| {
          assert r[a] == r0[a] && r[b] == r0[b];
        } else if a < |r0| {
          assert r[a] == r0[a] && r[b] == va[b - |r0|];
        } else {
          assert r[a] == va[a - |r0|] && r[b] == va[b - |r0|];
        }
      }
    }
  }

  /** Three strings per base position and four per other character. */
  lemma {:induction false} VariantsBelowCount(p: string, n: nat)
    requires n <= |p|
    ensures |VariantsBelow(p, n)| == 3 * n + NonBasesBelow(p, n)
  {
    if n > 0 {
      VariantsBelowCount(p, n - 1);
      VariantsAtSpec(p, n - 1, |Bases|);
      assert Bases[..|Bases|] == Bases;
    }
  }

  /** Every output string has the pattern's length and lies at Hamming
      distance one from it; conversely every such string whose changed
      character is a base is produced. */
  lemma AllVariantsMembers(p: string)
    ensures forall x :: x in AllVariants(p) <==> IsVariant(p, x)
    ensures forall x :: x in AllVariants(p) ==> |x| == |p| && Hamming(x, p) == 1
  {
    VariantsBelowMembers(p, |p|);
    forall x | x in AllVariants(p) ensures |x| == |p| && Hamming(x, p) == 1 {
      VariantHamming(p, x);
    }
  }

  /** The pattern itself is never produced. */
  lemma PatternNotProduced(p: string)
    ensures p !in AllVariants(p)
  {
    AllVariantsMembers(p);
  }

  /** Three strings per base position and four per any other character. */
  lemma AllVariantsCount(p: string)
    ensures |AllVariants(p)| == 3 * |p| + NonBasesBelow(p, |p|)
  {
    VariantsBelowCount(p, |p|);
  }

  lemma {:induction false} DnaHasNoNonBases(p: string, n: nat)
    requires n <= |p| && IsDna(p)
    ensures NonBasesBelow(p, n) == 0
  {
    if n > 0 {
      DnaHasNoNonBases(p, n - 1);
      assert IsBase(p[n - 1]);
    }
  }

  /** For a pattern over A, C, G, T the output has 3 * |pattern| strings. */
  lemma DnaVariantsCount(p: string)
    requires IsDna(p)
    ensures |AllVariants(p)| == 3 * |p|
  {
    AllVariantsCount(p);
    DnaHasNoNonBases(p, |p|);
  }

  /** The output is ordered by changed position, then by base in the order
      A, C, T, G, and so holds no string twice. */
  lemma AllVariantsOrdered(p: string)
    ensures forall a, b :: 0 <= a < b < |AllVariants(p)| ==> Precedes(p, AllVariants(p)[a], AllVariants(p)[b])
    ensures forall a, b :: 0 <= a < b < |AllVariants(p)| ==> AllVariants(p)[a] != AllVariants(p)[b]
  {
    VariantsBelowOrdered(p, |p|);
  }
}

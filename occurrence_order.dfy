/** Tables and lists ordered by the first occurrence of their strings in a
    genome: the order in which `counts_dict` and `count` meet their keys. */
module OccurrenceOrder {
  import opened OrderedTable
  import opened ExactMatch

  /** The keys occur in `g` and are listed by first occurrence. */
  ghost predicate FirstOccurrenceOrder(g: string, t: Table) {
    && (forall j :: 0 <= j < |t| ==> ExactPositions(g, t[j].0) != [])
    && (forall j1, j2 :: 0 <= j1 < j2 < |t| ==>
          ExactPositions(g, t[j1].0)[0] < ExactPositions(g, t[j2].0)[0])
  }

  /** `x` and `y` both occur in `g`, and `x` occurs first. */
  ghost predicate OccursFirst(g: string, x: string, y: string) {
    ExactPositions(g, x) != [] && ExactPositions(g, y) != [] &&
    ExactPositions(g, x)[0] < ExactPositions(g, y)[0]
  }

  /** Each string of `r` occurs in `g`, and `r` lists them by first occurrence. */
  ghost predicate ByFirstOccurrence(g: string, r: seq<string>) {
    forall a, b :: 0 <= a < b < |r| ==> OccursFirst(g, r[a], r[b])
  }

  /** Selecting the keys of maximal value keeps the table's order. */
  lemma MaxKeysOrdered(g: string, t: Table)
    requires FirstOccurrenceOrder(g, t) && DistinctKeys(t) && |t| > 0
    ensures ByFirstOccurrence(g, MaxKeysOf(t))
  {
    var r := MaxKeysOf(t);
    forall a, b | 0 <= a < b < |r| ensures OccursFirst(g, r[a], r[b]) {
      MaxKeysOrderedPair(g, t, a, b);
    }
  }

  lemma MaxKeysOrderedPair(g: string, t: Table, a: nat, b: nat)
    requires FirstOccurrenceOrder(g, t) && DistinctKeys(t) && |t| > 0 && a < b < |MaxKeysOf(t)|
    ensures OccursFirst(g, MaxKeysOf(t)[a], MaxKeysOf(t)[b])
  {
    var r := MaxKeysOf(t);
    KeysWithValueOrdered(t, t[MaxIndex(t)].1);
    TableOrderByIndex(g, t, r[a], r[b]);
  }

  lemma TableOrderByIndex(g: string, t: Table, x: string, y: string)
    requires FirstOccurrenceOrder(g, t)
    requires x in Keys(t) && y in Keys(t) && IndexOf(t, x) < IndexOf(t, y)
    ensures ExactPositions(g, x) != [] && ExactPositions(g, y) != []
    ensures ExactPositions(g, x)[0] < ExactPositions(g, y)[0]
  {
    var ix, iy := IndexOf(t, x), IndexOf(t, y);
  }
}

/** Python dictionaries from strings to integers, which iterate in insertion
    order, as sequences of (key, value) pairs with distinct keys. */
module OrderedTable {
  import opened Wrappers

  type Table = seq<(string, int)>

  function Keys(t: Table): (ks: seq<string>)
    ensures |ks| == |t| && forall i :: 0 <= i < |t| ==> ks[i] == t[i].0
  {
    seq(|t|, i requires 0 <= i < |t| => t[i].0)
  }

  /** What every Python dict satisfies. */
  predicate DistinctKeys(t: Table) {
    forall i, j :: 0 <= i < j < |t| ==> t[i].0 != t[j].0
  }

  /** Position of `key` in iteration order. */
  function IndexOf(t: Table, key: string): (r: nat)
    requires key in Keys(t)
    ensures r < |t| && t[r].0 == key
    ensures forall j :: 0 <= j < r ==> t[j].0 != key
  {
    var init := t[..|t| - 1];
    if key in Keys(init) then IndexOf(init, key) else |t| - 1
  }

  /** d[key] */
  function Lookup(t: Table, key: string): int
    requires key in Keys(t)
  {
    t[IndexOf(t, key)].1
  }

  /** A new key goes last in iteration order. */
  lemma KeysAppend(t: Table, e: (string, int))
    ensures Keys(t + [e]) == Keys(t) + [e.0]
  {
  }

  /** In a dict, the value stored at a position is the value of its key. */
  lemma LookupAt(t: Table, j: nat)
    requires DistinctKeys(t) && j < |t|
    ensures t[j].0 in Keys(t) && Lookup(t, t[j].0) == t[j].1
  {
    assert Keys(t)[j] == t[j].0;
  }

  /** `if key in d: d[key] = d[key] + 1 else: d[key] = 1` */
  function Increment(t: Table, key: string): (r: Table)
    requires DistinctKeys(t)
    ensures DistinctKeys(r)
    ensures |r| == if key in Keys(t) then |t| else |t| + 1
    ensures forall i :: 0 <= i < |t| ==>
      r[i].0 == t[i].0 && r[i].1 == t[i].1 + (if t[i].0 == key then 1 else 0)
    ensures key !in Keys(t) ==> r[|t|] == (key, 1)
  {
    if key in Keys(t) then
      var i := IndexOf(t, key);
      t[i := (key, t[i].1 + 1)]
    else
      t + [(key, 1)]
  }

  /** `sum(d.values())` */
  function Sum(t: Table): int {
    if t == [] then 0 else Sum(t[..|t| - 1]) + t[|t| - 1].1
  }

  lemma {:induction false} SumUpdate(t: Table, i: nat, e: (string, int))
    requires i < |t|
    ensures Sum(t[i := e]) == Sum(t) - t[i].1 + e.1
  {
    var u := t[i := e];
    if i < |t| - 1 {
      assert u[..|u| - 1] == t[..|t| - 1][i := e];
      SumUpdate(t[..|t| - 1], i, e);
    } else {
      assert u[..|u| - 1] == t[..|t| - 1];
    }
  }

  /** Incrementing adds one to the total. */
  lemma {:induction false} SumIncrement(t: Table, key: string)
    requires DistinctKeys(t)
    ensures Sum(Increment(t, key)) == Sum(t) + 1
  {
    if key in Keys(t) {
      var i := IndexOf(t, key);
      assert Increment(t, key) == t[i := (key, t[i].1 + 1)];
      SumUpdate(t, i, (key, t[i].1 + 1));
    } else {
      var u := t + [(key, 1)];
      assert Increment(t, key) == u;
      assert u[..|u| - 1] == t;
    }
  }

  /** Position of `max(d, key=d.get)`: Python keeps the first maximal key. */
  function MaxIndex(t: Table): (r: nat)
    requires |t| > 0
    ensures r < |t|
    ensures forall j :: 0 <= j < |t| ==> t[j].1 <= t[r].1
    ensures forall j :: 0 <= j < r ==> t[j].1 < t[r].1
  {
    if |t| == 1 then 0
    else
      var best := MaxIndex(t[..|t| - 1]);
      if t[|t| - 1].1 > t[best].1 then |t| - 1 else best
  }

  /** The keys whose value is `v`, in iteration order. */
  function KeysWithValue(t: Table, v: int): (r: seq<string>)
    ensures forall x :: x in r <==> exists j :: 0 <= j < |t| && t[j].0 == x && t[j].1 == v
  {
    if t == [] then []
    else
      var init := t[..|t| - 1];
      var rest := KeysWithValue(init, v);
      assert forall j :: 0 <= j < |init| ==> init[j] == t[j];
      rest + (if t[|t| - 1].1 == v then [t[|t| - 1].0] else [])
  }

  /** `max_key_list`, for a non-empty dict. */
  function MaxKeysOf(t: Table): seq<string>
    requires |t| > 0
  {
    KeysWithValue(t, t[MaxIndex(t)].1)
  }

  /** The selection at the end of approx_pattern and in problem2.py:
      `max_key = max(d, key=d.get)` (which raises on an empty dict), then every
      key whose value equals `d[max_key]`, in iteration order. */
  method MaxKeys(t: Table) returns (r: Result<seq<string>>)
    requires DistinctKeys(t)
    ensures r.Failure? <==> t == []
    ensures r.Success? ==> |t| > 0 && r.value == MaxKeysOf(t)
  {
    if t == [] {
      return Failure(EmptyMax);
    }
    var maxKey := t[MaxIndex(t)].0;
    var maxKeyList := [];
    for i := 0 to |t|
      invariant maxKeyList == KeysWithValue(t[..i], Lookup(t, maxKey))
    {
      assert t[..i + 1][..i] == t[..i];
      var (key, value) := t[i];
      if value == Lookup(t, maxKey) {
        maxKeyList := maxKeyList + [key];
      }
    }
    assert t[..|t|] == t;
    return Success(maxKeyList);
  }

  lemma {:induction false} KeysWithValueDistinct(t: Table, v: int)
    requires DistinctKeys(t)
    ensures forall a, b :: 0 <= a < b < |KeysWithValue(t, v)| ==>
      KeysWithValue(t, v)[a] != KeysWithValue(t, v)[b]
  {
    if t != [] {
      var init := t[..|t| - 1];
      KeysWithValueDistinct(init, v);
      assert t[|t| - 1].0 !in KeysWithValue(init, v);
    }
  }

  lemma {:induction false} KeysWithValueOrdered(t: Table, v: int)
    requires DistinctKeys(t)
    ensures forall x :: x in KeysWithValue(t, v) ==> x in Keys(t)
    ensures forall a, b :: 0 <= a < b < |KeysWithValue(t, v)| ==>
      IndexOf(t, KeysWithValue(t, v)[a]) < IndexOf(t, KeysWithValue(t, v)[b])
  {
    if t != [] {
      var init := t[..|t| - 1];
      KeysWithValueOrdered(init, v);
      var r, rest := KeysWithValue(t, v), KeysWithValue(init, v);
      forall a, b | 0 <= a < b < |r|
        ensures r[a] in Keys(t) && r[b] in Keys(t) && IndexOf(t, r[a]) < IndexOf(t, r[b])
      {
        assert r[a] in rest;
        assert r[a] in Keys(init);
        if b < |rest| {
          assert r[b] in Keys(init);
        } else {
          assert r[b] == t[|t| - 1].0;
        }
      }
    }
  }

  /** `max_key_list` is non-empty, has no duplicates, holds exactly the keys
      whose value is maximal and lists them in iteration order. */
  lemma MaxKeysOfSpec(t: Table)
    requires DistinctKeys(t) && |t| > 0
    ensures |MaxKeysOf(t)| > 0
    ensures forall a, b :: 0 <= a < b < |MaxKeysOf(t)| ==> MaxKeysOf(t)[a] != MaxKeysOf(t)[b]
    ensures forall x :: x in MaxKeysOf(t) <==>
      x in Keys(t) && forall j :: 0 <= j < |t| ==> t[j].1 <= Lookup(t, x)
    ensures forall a, b :: 0 <= a < b < |MaxKeysOf(t)| ==>
      IndexOf(t, MaxKeysOf(t)[a]) < IndexOf(t, MaxKeysOf(t)[b])
  {
    var m := MaxIndex(t);
    assert t[m].0 in MaxKeysOf(t);
    KeysWithValueDistinct(t, t[m].1);
    KeysWithValueOrdered(t, t[m].1);
    forall x ensures x in MaxKeysOf(t) <==>
      x in Keys(t) && forall j :: 0 <= j < |t| ==> t[j].1 <= Lookup(t, x)
    {
      if x in Keys(t) {
        var i := IndexOf(t, x);
        if forall j :: 0 <= j < |t| ==> t[j].1 <= Lookup(t, x) {
          assert t[m].1 <= t[i].1;
        }
      }
    }
  }
}

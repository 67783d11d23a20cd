/** LINQ's `GroupBy` over key/value pairs, as used by the plugin: groups appear in the order
    their keys first occur and each holds its values in order. Also the `Where(Count() == 1)`
    and `Select(First())` steps that follow it, and the theorem that the three together keep
    exactly the pairs whose key occurs once. */
module Grouping {
  import opened Seqs

  datatype Group<K, V> = Group(key: K, items: seq<V>)

  function Keys<K, V>(groups: seq<Group<K, V>>): (r: seq<K>)
    ensures |r| == |groups|
    ensures forall i :: 0 <= i < |r| ==> r[i] == groups[i].key
  {
    seq(|groups|, i requires 0 <= i < |groups| => groups[i].key)
  }

  function Values<K, V>(pairs: seq<(K, V)>): (r: seq<V>)
    ensures |r| == |pairs|
    ensures forall i :: 0 <= i < |r| ==> r[i] == pairs[i].1
  {
    seq(|pairs|, i requires 0 <= i < |pairs| => pairs[i].1)
  }

  /** The values filed under `k`, in order. */
  function ValuesWithKey<K(==), V>(pairs: seq<(K, V)>, k: K): seq<V>
  {
    if pairs == [] then []
    else
      var last := pairs[|pairs| - 1];
      ValuesWithKey(pairs[..|pairs| - 1], k) + (if last.0 == k then [last.1] else [])
  }

  /** How many pairs carry key `k`. */
  function KeyCount<K(==), V>(pairs: seq<(K, V)>, k: K): nat
  {
    |ValuesWithKey(pairs, k)|
  }

  lemma ValuesWithKeySnoc<K, V>(pairs: seq<(K, V)>, x: (K, V), k: K)
    ensures ValuesWithKey(pairs + [x], k) == ValuesWithKey(pairs, k) + (if x.0 == k then [x.1] else [])
    ensures KeyCount(pairs + [x], k) == KeyCount(pairs, k) + (if x.0 == k then 1 else 0)
  {
    assert (pairs + [x])[..|pairs|] == pairs;
  }

  /** Files `v` under `k`: at the end of `k`'s group if there is one, else in a new last group. */
  function AddToGroups<K(==), V>(groups: seq<Group<K, V>>, k: K, v: V): seq<Group<K, V>>
  {
    var keys := Keys(groups);
    if k in keys then
      var i := IndexOf(keys, k);
      groups[i := groups[i].(items := groups[i].items + [v])]
    else groups + [Group(k, [v])]
  }

  /** `GroupBy`, one pair at a time. */
  function GroupBy<K(==), V>(pairs: seq<(K, V)>): seq<Group<K, V>>
  {
    if pairs == [] then []
    else
      var last := pairs[|pairs| - 1];
      AddToGroups(GroupBy(pairs[..|pairs| - 1]), last.0, last.1)
  }

  /** Every key occurs in one group only; a group holds exactly the values filed under its key,
      so never none; and a key has a group exactly when some pair carries it. */
  lemma {:induction false} GroupBySpec<K, V>(pairs: seq<(K, V)>)
    ensures var groups := GroupBy(pairs);
      && Distinct(Keys(groups))
      && (forall i :: 0 <= i < |groups| ==>
            groups[i].items == ValuesWithKey(pairs, groups[i].key) && |groups[i].items| > 0)
      && (forall k :: k in Keys(groups) <==> KeyCount(pairs, k) > 0)
  {
    if pairs != [] {
      var p, x := pairs[..|pairs| - 1], pairs[|pairs| - 1];
      assert pairs == p + [x];
      GroupBySpec(p);
      var groups := GroupBy(p);
      var keys := Keys(groups);
      forall k ensures ValuesWithKey(pairs, k) == ValuesWithKey(p, k) + (if x.0 == k then [x.1] else [])
        ensures KeyCount(pairs, k) == KeyCount(p, k) + (if x.0 == k then 1 else 0)
      {
        ValuesWithKeySnoc(p, x, k);
      }
      if x.0 in keys {
        GroupByExisting(p, x, groups);
      } else {
        GroupByFresh(p, x, groups);
      }
    }
  }

  lemma GroupByExisting<K, V>(p: seq<(K, V)>, x: (K, V), groups: seq<Group<K, V>>)
    requires groups == GroupBy(p) && x.0 in Keys(groups)
    requires Distinct(Keys(groups))
    requires forall i :: 0 <= i < |groups| ==>
      groups[i].items == ValuesWithKey(p, groups[i].key) && |groups[i].items| > 0
    requires forall k :: k in Keys(groups) <==> KeyCount(p, k) > 0
    requires forall k :: ValuesWithKey(p + [x], k) == ValuesWithKey(p, k) + (if x.0 == k then [x.1] else [])
    requires forall k :: KeyCount(p + [x], k) == KeyCount(p, k) + (if x.0 == k then 1 else 0)
    ensures var r := AddToGroups(groups, x.0, x.1);
      && Distinct(Keys(r))
      && (forall i :: 0 <= i < |r| ==> r[i].items == ValuesWithKey(p + [x], r[i].key) && |r[i].items| > 0)
      && (forall k :: k in Keys(r) <==> KeyCount(p + [x], k) > 0)
  {
    var keys := Keys(groups);
    var i := IndexOf(keys, x.0);
    var r := AddToGroups(groups, x.0, x.1);
    assert r == groups[i := groups[i].(items := groups[i].items + [x.1])];
    assert Keys(r) == keys;
    forall j | 0 <= j < |r| ensures r[j].items == ValuesWithKey(p + [x], r[j].key) {
      if j != i {
        assert keys[j] != keys[i];
      }
    }
  }

  lemma GroupByFresh<K, V>(p: seq<(K, V)>, x: (K, V), groups: seq<Group<K, V>>)
    requires groups == GroupBy(p) && x.0 !in Keys(groups)
    requires Distinct(Keys(groups))
    requires forall i :: 0 <= i < |groups| ==>
      groups[i].items == ValuesWithKey(p, groups[i].key) && |groups[i].items| > 0
    requires forall k :: k in Keys(groups) <==> KeyCount(p, k) > 0
    requires forall k :: ValuesWithKey(p + [x], k) == ValuesWithKey(p, k) + (if x.0 == k then [x.1] else [])
    requires forall k :: KeyCount(p + [x], k) == KeyCount(p, k) + (if x.0 == k then 1 else 0)
    ensures var r := AddToGroups(groups, x.0, x.1);
      && Distinct(Keys(r))
      && (forall i :: 0 <= i < |r| ==> r[i].items == ValuesWithKey(p + [x], r[i].key) && |r[i].items| > 0)
      && (forall k :: k in Keys(r) <==> KeyCount(p + [x], k) > 0)
  {
    var keys := Keys(groups);
    var r := AddToGroups(groups, x.0, x.1);
    assert r == groups + [Group(x.0, [x.1])];
    assert Keys(r) == keys + [x.0];
    assert KeyCount(p, x.0) == 0;
    assert ValuesWithKey(p, x.0) == [];
    forall j | 0 <= j < |r| ensures r[j].items == ValuesWithKey(p + [x], r[j].key) {
      if j < |groups| {
        assert keys[j] != x.0;
      }
    }
  }

  /** `Where(group => group.Count() == 1)`. */
  predicate IsSingleGroup<K, V>(g: Group<K, V>) {
    |g.items| == 1
  }

  function SingleItemGroups<K, V>(groups: seq<Group<K, V>>): seq<Group<K, V>>
  {
    Filter(groups, IsSingleGroup)
  }

  /** `Select(group => group.First())`, keeping each group's key beside its first value. */
  function FirstEntries<K, V>(groups: seq<Group<K, V>>): (r: seq<(K, V)>)
    requires forall i :: 0 <= i < |groups| ==> |groups[i].items| > 0
    ensures |r| == |groups|
    ensures forall i :: 0 <= i < |r| ==> r[i] == (groups[i].key, groups[i].items[0])
  {
    seq(|groups|, i requires 0 <= i < |groups| => (groups[i].key, groups[i].items[0]))
  }

  /** The key and value of every group that holds a single value, in group order. */
  function SoleEntries<K, V>(groups: seq<Group<K, V>>): seq<(K, V)>
  {
    FirstEntries(SingleItemGroups(groups))
  }

  /** The pairs of `pairs` whose key occurs exactly once in `ctx`, in order. */
  function UniquelyKeyed<K(==), V>(pairs: seq<(K, V)>, ctx: seq<(K, V)>): seq<(K, V)>
  {
    Filter(pairs, (e: (K, V)) => KeyCount(ctx, e.0) == 1)
  }

  function WithoutKey<K(==), V>(pairs: seq<(K, V)>, k: K): seq<(K, V)>
  {
    Filter(pairs, (e: (K, V)) => e.0 != k)
  }

  /** The central fact about the plugin's selection: grouping, keeping the one-value groups
      and taking their first values yields exactly the pairs whose key no other pair carries,
      in the order of the input. */
  lemma {:induction false} GroupBySoleEntries<K, V>(pairs: seq<(K, V)>)
    ensures SoleEntries(GroupBy(pairs)) == UniquelyKeyed(pairs, pairs)
  {
    if pairs != [] {
      var p, x := pairs[..|pairs| - 1], pairs[|pairs| - 1];
      assert pairs == p + [x];
      GroupBySoleEntries(p);
      GroupBySpec(p);
      var groups := GroupBy(p);
      var keys := Keys(groups);
      var k := x.0;
      ValuesWithKeySnoc(p, x, k);
      FilterSnoc(p, x, (e: (K, V)) => KeyCount(pairs, e.0) == 1);
      if k in keys {
        var i := IndexOf(keys, k);
        assert GroupBy(pairs) == groups[i := groups[i].(items := groups[i].items + [x.1])];
        SoleEntriesUpdate(groups, i, x.1);
        UniquelyKeyedGrow(p, p, x);
      } else {
        assert GroupBy(pairs) == groups + [Group(k, [x.1])];
        SoleEntriesSnoc(groups, Group(k, [x.1]));
        UniquelyKeyedFresh(p, p, x);
      }
    }
  }

  lemma SoleEntriesSnoc<K, V>(groups: seq<Group<K, V>>, g: Group<K, V>)
    ensures SoleEntries(groups + [g])
         == SoleEntries(groups) + (if |g.items| == 1 then [(g.key, g.items[0])] else [])
  {
    FilterSnoc(groups, g, IsSingleGroup);
    if |g.items| == 1 {
      FirstEntriesSnoc(SingleItemGroups(groups), g);
    }
  }

  lemma FirstEntriesSnoc<K, V>(groups: seq<Group<K, V>>, g: Group<K, V>)
    requires forall i :: 0 <= i < |groups| ==> |groups[i].items| > 0
    requires |g.items| > 0
    ensures FirstEntries(groups + [g]) == FirstEntries(groups) + [(g.key, g.items[0])]
  {
    var r := FirstEntries(groups + [g]);
    var t := FirstEntries(groups) + [(g.key, g.items[0])];
    forall i | 0 <= i < |r| ensures r[i] == t[i] {
      if i < |groups| {
        assert (groups + [g])[i] == groups[i];
      }
    }
  }

  lemma {:induction false} SoleEntriesKeys<K, V>(groups: seq<Group<K, V>>, k: K)
    requires k !in Keys(groups)
    ensures forall j :: 0 <= j < |SoleEntries(groups)| ==> SoleEntries(groups)[j].0 != k
  {
    var single := SingleItemGroups(groups);
    forall j | 0 <= j < |single| ensures single[j].key != k {
      var m :| 0 <= m < |groups| && groups[m] == single[j];
      assert Keys(groups)[m] == groups[m].key;
    }
  }

  lemma {:induction false} WithoutAbsentKey<K, V>(pairs: seq<(K, V)>, k: K)
    requires forall j :: 0 <= j < |pairs| ==> pairs[j].0 != k
    ensures WithoutKey(pairs, k) == pairs
  {
    if pairs != [] {
      var p, x := pairs[..|pairs| - 1], pairs[|pairs| - 1];
      assert pairs == p + [x];
      WithoutAbsentKey(p, k);
      FilterSnoc(p, x, (e: (K, V)) => e.0 != k);
    }
  }

  /** Filing one more value in an existing group takes that group out of the single-value ones. */
  lemma {:induction false} SoleEntriesUpdate<K, V>(groups: seq<Group<K, V>>, i: int, v: V)
    requires Distinct(Keys(groups)) && 0 <= i < |groups| && |groups[i].items| > 0
    ensures SoleEntries(groups[i := groups[i].(items := groups[i].items + [v])])
         == WithoutKey(SoleEntries(groups), groups[i].key)
  {
    if i == |groups| - 1 {
      SoleEntriesUpdateLast(groups, v);
    } else {
      var init := groups[..|groups| - 1];
      assert Keys(init) == Keys(groups)[..|init|];
      assert Distinct(Keys(init));
      SoleEntriesUpdate(init, i, v);
      assert Keys(groups)[|groups| - 1] != Keys(groups)[i];
      SoleEntriesUpdateEarlier(groups, i, v);
    }
  }

  /** The case of an earlier group, given the fact for all groups but the last. */
  lemma SoleEntriesUpdateEarlier<K, V>(groups: seq<Group<K, V>>, i: int, v: V)
    requires 0 <= i < |groups| - 1 && |groups[i].items| > 0 && groups[|groups| - 1].key != groups[i].key
    requires var init := groups[..|groups| - 1];
      SoleEntries(init[i := init[i].(items := init[i].items + [v])]) == WithoutKey(SoleEntries(init), init[i].key)
    ensures SoleEntries(groups[i := groups[i].(items := groups[i].items + [v])])
         == WithoutKey(SoleEntries(groups), groups[i].key)
  {
    var k := groups[i].key;
    var init, last := groups[..|groups| - 1], groups[|groups| - 1];
    var ext := groups[i].(items := groups[i].items + [v]);
    var lastEntry := if |last.items| == 1 then [(last.key, last.items[0])] else [];
    assert init[i] == groups[i];
    SoleEntriesUpdateSnoc(groups, i, ext);
    assert SoleEntries(groups[i := ext]) == WithoutKey(SoleEntries(init), k) + lastEntry;
    WithoutKeyConcat(SoleEntries(init), lastEntry, k);
    assert (if lastEntry != [] && lastEntry[0].0 != k then lastEntry else []) == lastEntry;
    SoleEntriesLast(groups);
  }

  lemma SoleEntriesLast<K, V>(groups: seq<Group<K, V>>)
    requires |groups| > 0
    ensures var last := groups[|groups| - 1];
      SoleEntries(groups)
        == SoleEntries(groups[..|groups| - 1]) + (if |last.items| == 1 then [(last.key, last.items[0])] else [])
  {
    assert groups == groups[..|groups| - 1] + [groups[|groups| - 1]];
    SoleEntriesSnoc(groups[..|groups| - 1], groups[|groups| - 1]);
  }

  lemma SoleEntriesUpdateSnoc<K, V>(groups: seq<Group<K, V>>, i: int, g: Group<K, V>)
    requires 0 <= i < |groups| - 1
    ensures var init, last := groups[..|groups| - 1], groups[|groups| - 1];
      SoleEntries(groups[i := g])
        == SoleEntries(init[i := g]) + (if |last.items| == 1 then [(last.key, last.items[0])] else [])
  {
    var init, last := groups[..|groups| - 1], groups[|groups| - 1];
    assert groups[i := g] == init[i := g] + [last];
    SoleEntriesSnoc(init[i := g], last);
  }

  /** The case of the last group: no earlier group has its key. */
  lemma SoleEntriesUpdateLast<K, V>(groups: seq<Group<K, V>>, v: V)
    requires Distinct(Keys(groups)) && |groups| > 0 && |groups[|groups| - 1].items| > 0
    ensures var i := |groups| - 1;
      SoleEntries(groups[i := groups[i].(items := groups[i].items + [v])])
        == WithoutKey(SoleEntries(groups), groups[i].key)
  {
    var init, last := groups[..|groups| - 1], groups[|groups| - 1];
    var k := last.key;
    var ext := last.(items := last.items + [v]);
    assert groups == init + [last];
    SoleEntriesSnoc(init, last);
    var lastEntry := if |last.items| == 1 then [(last.key, last.items[0])] else [];
    assert groups[|groups| - 1 := ext] == init + [ext];
    SoleEntriesSnoc(init, ext);
    assert k !in Keys(init) by {
      forall j | 0 <= j < |init| ensures Keys(init)[j] != k {
        assert Keys(groups)[j] == Keys(init)[j];
      }
    }
    SoleEntriesKeys(init, k);
    WithoutAbsentKey(SoleEntries(init), k);
    WithoutKeyConcat(SoleEntries(init), lastEntry, k);
  }

  lemma WithoutKeyConcat<K, V>(a: seq<(K, V)>, b: seq<(K, V)>, k: K)
    requires |b| <= 1
    ensures WithoutKey(a + b, k) == WithoutKey(a, k) + (if b != [] && b[0].0 != k then b else [])
  {
    if b == [] {
      assert a + b == a;
    } else {
      assert b == [b[0]];
      FilterSnoc(a, b[0], (e: (K, V)) => e.0 != k);
    }
  }

  /** One more pair with an already present key drops that key from the uniquely keyed pairs. */
  lemma {:induction false} UniquelyKeyedGrow<K, V>(q: seq<(K, V)>, ctx: seq<(K, V)>, x: (K, V))
    requires KeyCount(ctx, x.0) > 0
    ensures UniquelyKeyed(q, ctx + [x]) == WithoutKey(UniquelyKeyed(q, ctx), x.0)
  {
    if q != [] {
      var init, e := q[..|q| - 1], q[|q| - 1];
      assert q == init + [e];
      UniquelyKeyedGrow(init, ctx, x);
      ValuesWithKeySnoc(ctx, x, e.0);
      FilterSnoc(init, e, (e: (K, V)) => KeyCount(ctx + [x], e.0) == 1);
      FilterSnoc(init, e, (e: (K, V)) => KeyCount(ctx, e.0) == 1);
      var kept := if KeyCount(ctx, e.0) == 1 then [e] else [];
      WithoutKeyConcat(UniquelyKeyed(init, ctx), kept, x.0);
    }
  }

  /** One more pair with a key the pairs examined do not carry changes none of their counts. */
  lemma {:induction false} UniquelyKeyedFresh<K, V>(q: seq<(K, V)>, ctx: seq<(K, V)>, x: (K, V))
    requires KeyCount(q, x.0) == 0
    ensures UniquelyKeyed(q, ctx + [x]) == UniquelyKeyed(q, ctx)
  {
    if q != [] {
      var init, e := q[..|q| - 1], q[|q| - 1];
      assert q == init + [e];
      ValuesWithKeySnoc(init, e, x.0);
      UniquelyKeyedFresh(init, ctx, x);
      ValuesWithKeySnoc(ctx, x, e.0);
      FilterSnoc(init, e, (e: (K, V)) => KeyCount(ctx + [x], e.0) == 1);
      FilterSnoc(init, e, (e: (K, V)) => KeyCount(ctx, e.0) == 1);
    }
  }
}

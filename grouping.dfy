/** The `groupBy(key)->map(count)` pattern both controllers use: entries
    are grouped by key, in order of first appearance, and each group
    counts its entries and how many of them are hits (correct answers,
    for the results rollup). */
module Grouping {
  import opened Common

  datatype Group<K> = Group(key: K, count: nat, hits: nat)

  /** How many entries carry key k (the reference the groups must match). */
  function CountKey<K(==)>(entries: seq<(K, bool)>, k: K): nat {
    if entries == [] then 0
    else CountKey(entries[..|entries| - 1], k) + (if entries[|entries| - 1].0 == k then 1 else 0)
  }

  /** How many entries carry key k and are hits. */
  function HitsKey<K(==)>(entries: seq<(K, bool)>, k: K): nat {
    if entries == [] then 0
    else
      var e := entries[|entries| - 1];
      HitsKey(entries[..|entries| - 1], k) + (if e.0 == k && e.1 then 1 else 0)
  }

  /** How many entries are hits. */
  function CountHits<K>(entries: seq<(K, bool)>): nat {
    if entries == [] then 0
    else CountHits(entries[..|entries| - 1]) + (if entries[|entries| - 1].1 then 1 else 0)
  }

  function Lookup<K(==)>(groups: seq<Group<K>>, k: K): Option<Group<K>> {
    if groups == [] then None
    else if groups[0].key == k then Some(groups[0])
    else Lookup(groups[1..], k)
  }

  function CountOf<K(==)>(groups: seq<Group<K>>, k: K): nat {
    match Lookup(groups, k)
    case None => 0
    case Some(g) => g.count
  }

  function HitsOf<K(==)>(groups: seq<Group<K>>, k: K): nat {
    match Lookup(groups, k)
    case None => 0
    case Some(g) => g.hits
  }

  function TotalCount<K>(groups: seq<Group<K>>): nat {
    if groups == [] then 0 else groups[0].count + TotalCount(groups[1..])
  }

  function TotalHits<K>(groups: seq<Group<K>>): nat {
    if groups == [] then 0 else groups[0].hits + TotalHits(groups[1..])
  }

  ghost predicate DistinctKeys<K>(groups: seq<Group<K>>) {
    forall i, j :: 0 <= i < j < |groups| ==> groups[i].key != groups[j].key
  }

  /** Every group holds at least one entry, and no more hits than entries. */
  ghost predicate WellCounted<K>(groups: seq<Group<K>>) {
    forall i :: 0 <= i < |groups| ==> 1 <= groups[i].count && groups[i].hits <= groups[i].count
  }

  /** Adds one entry: to the group of its key if there is one, else as a
      new group at the end. */
  function Insert<K(==)>(groups: seq<Group<K>>, k: K, hit: bool): seq<Group<K>> {
    if groups == [] then [Group(k, 1, if hit then 1 else 0)]
    else if groups[0].key == k then
      [groups[0].(count := groups[0].count + 1, hits := groups[0].hits + if hit then 1 else 0)] + groups[1..]
    else [groups[0]] + Insert(groups[1..], k, hit)
  }

  function GroupBy<K(==)>(entries: seq<(K, bool)>): seq<Group<K>> {
    if entries == [] then []
    else
      var e := entries[|entries| - 1];
      Insert(GroupBy(entries[..|entries| - 1]), e.0, e.1)
  }

  /** Insert keeps the keys distinct and every group well counted. */
  lemma {:induction false} InsertShape<K>(groups: seq<Group<K>>, k: K, hit: bool)
    requires DistinctKeys(groups) && WellCounted(groups)
    ensures DistinctKeys(Insert(groups, k, hit)) && WellCounted(Insert(groups, k, hit))
    decreases |groups|
  {
    var r := Insert(groups, k, hit);
    if groups != [] && groups[0].key != k {
      var rest := groups[1..];
      InsertShape(rest, k, hit);
      assert r[0] == groups[0] && r[1..] == Insert(rest, k, hit);
      KeysOfInsert(rest, k, hit);
    } else if groups != [] {
      assert r[1..] == groups[1..];
    }
  }

  /** Insert adds one entry, and one hit when it is one, to the key's group
      and leaves every other key's counts alone. */
  lemma {:induction false} InsertCounts<K>(groups: seq<Group<K>>, k: K, hit: bool)
    requires DistinctKeys(groups)
    ensures forall k' :: CountOf(Insert(groups, k, hit), k') == CountOf(groups, k') + (if k' == k then 1 else 0)
    ensures forall k' :: HitsOf(Insert(groups, k, hit), k') == HitsOf(groups, k') + (if k' == k && hit then 1 else 0)
    decreases |groups|
  {
    var r := Insert(groups, k, hit);
    if groups == [] {
    } else if groups[0].key == k {
      assert r[1..] == groups[1..];
      forall k' | k' != k ensures Lookup(r, k') == Lookup(groups, k') {
        assert Lookup(r, k') == Lookup(r[1..], k');
      }
      assert forall i :: 1 <= i < |groups| ==> groups[i].key != k;
      NotFound(groups[1..], k);
    } else {
      var rest := groups[1..];
      InsertCounts(rest, k, hit);
      assert r[0] == groups[0] && r[1..] == Insert(rest, k, hit);
      forall k'
        ensures CountOf(r, k') == CountOf(groups, k') + (if k' == k then 1 else 0)
        ensures HitsOf(r, k') == HitsOf(groups, k') + (if k' == k && hit then 1 else 0)
      {
        if k' != groups[0].key {
          assert Lookup(r, k') == Lookup(Insert(rest, k, hit), k');
          assert Lookup(groups, k') == Lookup(rest, k');
          assert CountOf(r, k') == CountOf(Insert(rest, k, hit), k');
          assert HitsOf(r, k') == HitsOf(Insert(rest, k, hit), k');
        } else {
          assert Lookup(r, k') == Some(groups[0]) == Lookup(groups, k');
        }
      }
    }
  }

  /** Insert adds one to the total count, and one hit when it is one. */
  lemma {:induction false} InsertTotals<K>(groups: seq<Group<K>>, k: K, hit: bool)
    ensures TotalCount(Insert(groups, k, hit)) == TotalCount(groups) + 1
    ensures TotalHits(Insert(groups, k, hit)) == TotalHits(groups) + (if hit then 1 else 0)
    decreases |groups|
  {
    var r := Insert(groups, k, hit);
    if groups != [] && groups[0].key != k {
      InsertTotals(groups[1..], k, hit);
      assert r[1..] == Insert(groups[1..], k, hit);
    } else if groups != [] {
      assert r[1..] == groups[1..];
    }
  }

  lemma InsertSpec<K>(groups: seq<Group<K>>, k: K, hit: bool)
    requires DistinctKeys(groups) && WellCounted(groups)
    ensures DistinctKeys(Insert(groups, k, hit)) && WellCounted(Insert(groups, k, hit))
    ensures forall k' :: CountOf(Insert(groups, k, hit), k') == CountOf(groups, k') + (if k' == k then 1 else 0)
    ensures forall k' :: HitsOf(Insert(groups, k, hit), k') == HitsOf(groups, k') + (if k' == k && hit then 1 else 0)
    ensures TotalCount(Insert(groups, k, hit)) == TotalCount(groups) + 1
    ensures TotalHits(Insert(groups, k, hit)) == TotalHits(groups) + (if hit then 1 else 0)
  {
    InsertShape(groups, k, hit);
    InsertCounts(groups, k, hit);
    InsertTotals(groups, k, hit);
  }

  /** A key missing from every group is not found. */
  lemma {:induction false} NotFound<K>(groups: seq<Group<K>>, k: K)
    requires forall i :: 0 <= i < |groups| ==> groups[i].key != k
    ensures Lookup(groups, k) == None
    decreases |groups|
  {
    if groups != [] {
      NotFound(groups[1..], k);
    }
  }

  /** Insert only ever adds the inserted key. */
  lemma {:induction false} KeysOfInsert<K>(groups: seq<Group<K>>, k: K, hit: bool)
    ensures forall i :: 0 <= i < |Insert(groups, k, hit)| ==>
              Insert(groups, k, hit)[i].key == k ||
              exists j :: 0 <= j < |groups| && groups[j].key == Insert(groups, k, hit)[i].key
    decreases |groups|
  {
    if groups != [] && groups[0].key != k {
      KeysOfInsert(groups[1..], k, hit);
      var r := Insert(groups, k, hit);
      forall i | 1 <= i < |r| && r[i].key != k
        ensures exists j :: 0 <= j < |groups| && groups[j].key == r[i].key
      {
        var j :| 0 <= j < |groups[1..]| && groups[1..][j].key == r[i].key;
        assert groups[j + 1].key == r[i].key;
      }
    }
  }

  /** The groups of a list of entries: one per distinct key, each with
      exactly as many entries and hits as carry that key, together
      accounting for every entry and every hit. */
  lemma {:induction false} GroupBySpec<K>(entries: seq<(K, bool)>)
    ensures DistinctKeys(GroupBy(entries)) && WellCounted(GroupBy(entries))
    ensures forall k :: CountOf(GroupBy(entries), k) == CountKey(entries, k)
    ensures forall k :: HitsOf(GroupBy(entries), k) == HitsKey(entries, k)
    ensures TotalCount(GroupBy(entries)) == |entries|
    ensures TotalHits(GroupBy(entries)) == CountHits(entries)
    decreases |entries|
  {
    if entries != [] {
      var init := entries[..|entries| - 1];
      var e := entries[|entries| - 1];
      GroupBySpec(init);
      InsertSpec(GroupBy(init), e.0, e.1);
    }
  }

  /** In groups with distinct keys, looking up a group's key finds that
      group. */
  lemma {:induction false} LookupFindsGroup<K>(groups: seq<Group<K>>, i: nat)
    requires DistinctKeys(groups) && i < |groups|
    ensures Lookup(groups, groups[i].key) == Some(groups[i])
    decreases i
  {
    if i > 0 {
      LookupFindsGroup(groups[1..], i - 1);
    }
  }

  /** Each group of GroupBy counts exactly the entries of its key. */
  lemma GroupCounts<K>(entries: seq<(K, bool)>, i: nat)
    requires i < |GroupBy(entries)|
    ensures GroupBy(entries)[i].count == CountKey(entries, GroupBy(entries)[i].key)
    ensures GroupBy(entries)[i].hits == HitsKey(entries, GroupBy(entries)[i].key)
  {
    var groups := GroupBy(entries);
    GroupBySpec(entries);
    LookupFindsGroup(groups, i);
    assert CountOf(groups, groups[i].key) == CountKey(entries, groups[i].key);
    assert HitsOf(groups, groups[i].key) == HitsKey(entries, groups[i].key);
  }
  /** A key that is found names one of the groups. */
  lemma {:induction false} LookupIndex<K>(groups: seq<Group<K>>, k: K)
    requires Lookup(groups, k).Some?
    ensures exists i :: 0 <= i < |groups| && groups[i].key == k
    decreases |groups|
  {
    if groups[0].key != k {
      LookupIndex(groups[1..], k);
      var i :| 0 <= i < |groups[1..]| && groups[1..][i].key == k;
      assert groups[i + 1].key == k;
    }
  }

  /** An entry's key is counted at least once. */
  lemma {:induction false} CountKeyPositive<K>(entries: seq<(K, bool)>, i: nat)
    requires i < |entries|
    ensures CountKey(entries, entries[i].0) > 0
    decreases |entries|
  {
    if i < |entries| - 1 {
      CountKeyPositive(entries[..|entries| - 1], i);
    }
  }

  /** Every entry's key has a group. */
  lemma GroupByCovers<K>(entries: seq<(K, bool)>, i: nat)
    requires i < |entries|
    ensures exists j :: 0 <= j < |GroupBy(entries)| && GroupBy(entries)[j].key == entries[i].0
  {
    GroupBySpec(entries);
    CountKeyPositive(entries, i);
    assert CountOf(GroupBy(entries), entries[i].0) > 0;
    LookupIndex(GroupBy(entries), entries[i].0);
  }
}

/**
 * A JavaScript object used as a dictionary from a non-numeric string key to a list
 * (`map[k] = map[k] || []; map[k].push(v)`): an association list whose keys keep the
 * order in which they were first seen, which is the order Object.entries and
 * Object.values return them in.
 */
module Grouping {
  import opened Rows

  /** One key of the dictionary and the values pushed under it. */
  datatype Group = Group(key: string, values: seq<Rating>)

  /** One row reduced to its grouping key and its nullable value. */
  datatype Item = Item(key: string, value: Option<Rating>)

  predicate DistinctKeys(gs: seq<Group>)
  {
    forall i, j :: 0 <= i < j < |gs| ==> gs[i].key != gs[j].key
  }

  function GroupKeys(gs: seq<Group>): set<string>
  {
    set g | g in gs :: g.key
  }

  /** The keys the rows carry. */
  function ItemKeys(items: seq<Item>): set<string>
  {
    set i | 0 <= i < |items| :: items[i].key
  }

  /** Looking a key up in the dictionary. */
  function IndexOf(gs: seq<Group>, k: string): (r: Option<nat>)
    ensures r.Some? ==> r.value < |gs| && gs[r.value].key == k
    ensures r.None? ==> k !in GroupKeys(gs)
  {
    if gs == [] then None
    else if gs[0].key == k then Some(0)
    else match IndexOf(gs[1..], k)
      case None => None
      case Some(j) => Some(j + 1)
  }

  /** The non-null values of the rows whose key is k, in row order. */
  function Select(items: seq<Item>, k: string): seq<Rating>
  {
    if items == [] then []
    else
      var n := |items| - 1;
      Select(items[..n], k)
        + (if items[n].key == k && items[n].value.Some? then [items[n].value.value] else [])
  }

  /** The value column of the rows. */
  function Values(items: seq<Item>): (r: seq<Option<Rating>>)
    ensures |r| == |items|
    ensures forall i :: 0 <= i < |items| ==> r[i] == items[i].value
  {
    seq(|items|, i requires 0 <= i < |items| => items[i].value)
  }

  /** The position of the first row carrying key k. */
  function FirstIndex(items: seq<Item>, k: string): (r: nat)
    requires k in ItemKeys(items)
    ensures r < |items| && items[r].key == k
    ensures forall i :: 0 <= i < r ==> items[i].key != k
  {
    if items[0].key == k then 0
    else
      assert k in ItemKeys(items[1..]) by {
        var i :| 0 <= i < |items| && items[i].key == k;
        assert items[1..][i - 1].key == k;
      }
      1 + FirstIndex(items[1..], k)
  }

  /** What a row pushes onto its key's list: its value, or nothing when the value is null. */
  function Pushed(v: Option<Rating>): seq<Rating>
  {
    match v
    case None => []
    case Some(x) => [x]
  }

  /**
   * One step of the forEach: a new key enters at the end with an empty list, then a
   * non-null value is pushed onto the key's list.
   */
  function Push(gs: seq<Group>, it: Item): seq<Group>
  {
    match IndexOf(gs, it.key)
    case None => gs + [Group(it.key, Pushed(it.value))]
    case Some(j) => gs[j := Group(it.key, gs[j].values + Pushed(it.value))]
  }

  /** The dictionary after the forEach over all rows. */
  function GroupBy(items: seq<Item>): seq<Group>
  {
    if items == [] then [] else Push(GroupBy(items[..|items| - 1]), items[|items| - 1])
  }

  /** `Object.values(map).flat()`: every list, in key order, concatenated. */
  function Flatten(gs: seq<Group>): seq<Rating>
  {
    if gs == [] then [] else gs[0].values + Flatten(gs[1..])
  }

  /** The keys of rows followed by one more row. */
  lemma ItemKeysSnoc(prefix: seq<Item>, it: Item)
    ensures ItemKeys(prefix + [it]) == ItemKeys(prefix) + {it.key}
  {
    var items := prefix + [it];
    forall k | k in ItemKeys(items) ensures k in ItemKeys(prefix) + {it.key} {
      var i :| 0 <= i < |items| && items[i].key == k;
      if i < |prefix| { assert prefix[i].key == k; }
    }
    forall k | k in ItemKeys(prefix) ensures k in ItemKeys(items) {
      var i :| 0 <= i < |prefix| && prefix[i].key == k;
      assert items[i].key == k;
    }
    assert items[|prefix|].key == it.key;
  }

  /**
   * The dictionary has one entry per distinct key of the rows, including keys whose
   * values are all null; no key appears twice.
   */
  lemma {:induction false} GroupByKeys(items: seq<Item>)
    ensures DistinctKeys(GroupBy(items))
    ensures GroupKeys(GroupBy(items)) == ItemKeys(items)
  {
    if items != [] {
      var n := |items| - 1;
      GroupByKeys(items[..n]);
      var gs := GroupBy(items[..n]);
      assert items == items[..n] + [items[n]];
      ItemKeysSnoc(items[..n], items[n]);
      PushKeys(gs, items[n]);
    }
  }

  lemma PushKeys(gs: seq<Group>, it: Item)
    requires DistinctKeys(gs)
    ensures DistinctKeys(Push(gs, it))
    ensures GroupKeys(Push(gs, it)) == GroupKeys(gs) + {it.key}
  {
    var r := Push(gs, it);
    match IndexOf(gs, it.key)
    case None =>
      var e := Group(it.key, Pushed(it.value));
      assert forall g :: g in r <==> g in gs || g == e;
      forall i, j | 0 <= i < j < |r| ensures r[i].key != r[j].key {
        if j == |gs| {
          assert r[i] in gs;
        }
      }
    case Some(j0) =>
      assert forall i :: 0 <= i < |r| ==> r[i].key == gs[i].key;
      assert gs[j0] in gs;
      forall k | k in GroupKeys(r) ensures k in GroupKeys(gs) {
        var g :| g in r && g.key == k;
        var i :| 0 <= i < |r| && r[i] == g;
        assert gs[i] in gs;
      }
      forall k | k in GroupKeys(gs) ensures k in GroupKeys(r) {
        var g :| g in gs && g.key == k;
        var i :| 0 <= i < |gs| && gs[i] == g;
        assert r[i] in r;
      }
  }

  /** Each key's list is exactly the non-null values of that key's rows, in row order. */
  lemma {:induction false} GroupByValues(items: seq<Item>)
    ensures forall j :: 0 <= j < |GroupBy(items)| ==>
      GroupBy(items)[j].values == Select(items, GroupBy(items)[j].key)
  {
    if items != [] {
      var n := |items| - 1;
      GroupByValues(items[..n]);
      GroupByKeys(items[..n]);
      assert items == items[..n] + [items[n]];
      PushValues(GroupBy(items[..n]), items[..n], items[n]);
    }
  }

  /** Select over rows followed by one more row. */
  lemma SelectSnoc(prefix: seq<Item>, it: Item, k: string)
    ensures Select(prefix + [it], k) == Select(prefix, k) + (if it.key == k then Pushed(it.value) else [])
  {
    assert (prefix + [it])[..|prefix|] == prefix;
  }

  lemma PushValues(gs: seq<Group>, prefix: seq<Item>, it: Item)
    requires DistinctKeys(gs) && GroupKeys(gs) == ItemKeys(prefix)
    requires forall j :: 0 <= j < |gs| ==> gs[j].values == Select(prefix, gs[j].key)
    ensures forall j :: 0 <= j < |Push(gs, it)| ==>
      Push(gs, it)[j].values == Select(prefix + [it], Push(gs, it)[j].key)
  {
    var r := Push(gs, it);
    match IndexOf(gs, it.key)
    case None =>
      SelectAbsent(prefix, it.key);
      forall j | 0 <= j < |r| ensures r[j].values == Select(prefix + [it], r[j].key) {
        SelectSnoc(prefix, it, r[j].key);
        if j < |gs| {
          assert r[j] == gs[j];
          assert gs[j] in gs;
        }
      }
    case Some(j0) =>
      forall j | 0 <= j < |r| ensures r[j].values == Select(prefix + [it], r[j].key) {
        SelectSnoc(prefix, it, r[j].key);
        if j != j0 {
          assert r[j] == gs[j];
          assert gs[j].key != gs[j0].key;
        }
      }
  }

  /** A key no row carries selects nothing. */
  lemma {:induction false} SelectAbsent(items: seq<Item>, k: string)
    requires k !in ItemKeys(items)
    ensures Select(items, k) == []
  {
    if items != [] {
      var n := |items| - 1;
      assert items[n].key in ItemKeys(items);
      assert ItemKeys(items[..n]) <= ItemKeys(items) by {
        forall x | x in ItemKeys(items[..n]) ensures x in ItemKeys(items) {
          var i :| 0 <= i < n && items[..n][i].key == x;
          assert items[i].key == x;
        }
      }
      SelectAbsent(items[..n], k);
    }
  }

  /**
   * Keys are listed in first-seen order: a key listed before another first occurs in
   * an earlier row.
   */
  lemma {:induction false} GroupByFirstSeenOrder(items: seq<Item>)
    ensures GroupKeys(GroupBy(items)) == ItemKeys(items)
    ensures forall a, b :: 0 <= a < b < |GroupBy(items)| ==>
      FirstIndex(items, GroupBy(items)[a].key) < FirstIndex(items, GroupBy(items)[b].key)
  {
    GroupByKeys(items);
    if items != [] {
      var n := |items| - 1;
      GroupByFirstSeenOrder(items[..n]);
      GroupByKeys(items[..n]);
      assert items == items[..n] + [items[n]];
      PushOrder(GroupBy(items[..n]), items[..n], items[n]);
    }
  }

  /** Pushing keeps the existing keys in place and appends a new key at the end. */
  lemma PushShape(gs: seq<Group>, it: Item)
    ensures IndexOf(gs, it.key).Some? ==> |Push(gs, it)| == |gs|
    ensures IndexOf(gs, it.key).None? ==>
      |Push(gs, it)| == |gs| + 1 && Push(gs, it)[|gs|].key == it.key
    ensures forall i :: 0 <= i < |gs| ==> Push(gs, it)[i].key == gs[i].key
  {
  }

  lemma PushOrder(gs: seq<Group>, prefix: seq<Item>, it: Item)
    requires DistinctKeys(gs) && GroupKeys(gs) == ItemKeys(prefix)
    requires forall a, b :: 0 <= a < b < |gs| ==>
      FirstIndex(prefix, gs[a].key) < FirstIndex(prefix, gs[b].key)
    ensures GroupKeys(Push(gs, it)) == ItemKeys(prefix + [it])
    ensures forall a, b :: 0 <= a < b < |Push(gs, it)| ==>
      FirstIndex(prefix + [it], Push(gs, it)[a].key) < FirstIndex(prefix + [it], Push(gs, it)[b].key)
  {
    var items := prefix + [it];
    var n := |prefix|;
    assert items[..n] == prefix;
    ItemKeysSnoc(prefix, it);
    PushKeys(gs, it);
    PushShape(gs, it);
    var r := Push(gs, it);
    forall a, b | 0 <= a < b < |r| ensures FirstIndex(items, r[a].key) < FirstIndex(items, r[b].key) {
      assert gs[a] in gs;
      FirstIndexPrefix(items, n, gs[a].key);
      if b < |gs| {
        assert gs[b] in gs;
        FirstIndexPrefix(items, n, gs[b].key);
      } else {
        assert r[b].key == it.key && it.key !in ItemKeys(prefix);
        assert FirstIndex(items, it.key) == n by {
          forall i | 0 <= i < n ensures items[i].key != it.key {
            assert prefix[i].key == items[i].key;
          }
        }
      }
    }
  }

  /** A key already seen in a prefix first occurs at the same place in the whole. */
  lemma FirstIndexPrefix(items: seq<Item>, n: nat, k: string)
    requires n <= |items|
    requires k in ItemKeys(items[..n])
    ensures k in ItemKeys(items)
    ensures FirstIndex(items, k) == FirstIndex(items[..n], k)
  {
    var i :| 0 <= i < n && items[..n][i].key == k;
    assert items[i].key == k;
    var g := FirstIndex(items[..n], k);
    assert items[..n][g].key == k;
  }

  /** Concatenating the lists loses and invents no value: it is a permutation of the non-null values. */
  lemma {:induction false} GroupByFlatten(items: seq<Item>)
    ensures multiset(Flatten(GroupBy(items))) == multiset(NonNull(Values(items)))
  {
    if items != [] {
      var n := |items| - 1;
      GroupByFlatten(items[..n]);
      var gs := GroupBy(items[..n]);
      var it := items[n];
      assert Values(items)[..n] == Values(items[..n]);
      assert NonNull(Values(items)) == NonNull(Values(items[..n])) + Pushed(it.value);
      match IndexOf(gs, it.key)
      case None =>
        FlattenAppend(gs, [Group(it.key, Pushed(it.value))]);
        assert Flatten([Group(it.key, Pushed(it.value))]) == Pushed(it.value) + [];
      case Some(j) =>
        FlattenUpdate(gs, j, Pushed(it.value));
    }
  }

  lemma {:induction false} FlattenAppend(a: seq<Group>, b: seq<Group>)
    ensures Flatten(a + b) == Flatten(a) + Flatten(b)
  {
    if a == [] {
      assert a + b == b;
    } else {
      assert (a + b)[1..] == a[1..] + b;
      FlattenAppend(a[1..], b);
    }
  }

  /** Pushing values onto one list adds exactly those values to the concatenation. */
  lemma {:induction false} FlattenUpdate(gs: seq<Group>, j: nat, p: seq<Rating>)
    requires j < |gs|
    ensures multiset(Flatten(gs[j := Group(gs[j].key, gs[j].values + p)]))
         == multiset(Flatten(gs)) + multiset(p)
  {
    var r := gs[j := Group(gs[j].key, gs[j].values + p)];
    if j == 0 {
      assert r[1..] == gs[1..];
    } else {
      assert r[1..] == gs[1..][j - 1 := Group(gs[j].key, gs[j].values + p)];
      FlattenUpdate(gs[1..], j - 1, p);
    }
  }
}

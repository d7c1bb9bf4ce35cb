/**
 * The JavaScript `Map` as the modelled code uses it: a sequence of entries in
 * insertion order with distinct keys, where `set` on a present key replaces the
 * value in place, `new Map(entries)` applies `set` entry by entry, and
 * `Map.groupBy` collects the items of each key in encounter order.
 */
module OrderedMaps {
  import opened Wrappers

  ghost predicate DistinctKeys<K, V>(m: seq<(K, V)>)
  {
    forall i, j :: 0 <= i < j < |m| ==> m[i].0 != m[j].0
  }

  function Keys<K, V>(m: seq<(K, V)>): (ks: seq<K>)
    ensures |ks| == |m|
    ensures forall i :: 0 <= i < |m| ==> ks[i] == m[i].0
  {
    if |m| == 0 then [] else [m[0].0] + Keys(m[1..])
  }

  function Values<K, V>(m: seq<(K, V)>): (vs: seq<V>)
    ensures |vs| == |m|
    ensures forall i :: 0 <= i < |m| ==> vs[i] == m[i].1
  {
    if |m| == 0 then [] else [m[0].1] + Values(m[1..])
  }

  /** The slot holding key `k`, if any. */
  function IndexOf<K(==), V>(m: seq<(K, V)>, k: K): (r: Option<nat>)
    ensures r.Some? ==> r.value < |m| && m[r.value].0 == k
    ensures r.Some? ==> forall j :: 0 <= j < r.value ==> m[j].0 != k
    ensures r.None? ==> forall j :: 0 <= j < |m| ==> m[j].0 != k
  {
    if |m| == 0 then None
    else if m[0].0 == k then Some(0)
    else match IndexOf(m[1..], k)
      case None => None
      case Some(i) => Some(i + 1)
  }

  /** `map.get(k)`. */
  function Get<K(==), V>(m: seq<(K, V)>, k: K): Option<V>
  {
    match IndexOf(m, k)
    case None => None
    case Some(i) => Some(m[i].1)
  }

  /** `map.set(k, v)`: replaces in place when `k` is present, appends otherwise. */
  function Put<K(==), V>(m: seq<(K, V)>, k: K, v: V): (r: seq<(K, V)>)
  {
    match IndexOf(m, k)
    case None => m + [(k, v)]
    case Some(i) => m[i := (k, v)]
  }

  lemma PutKeepsKeysDistinct<K, V>(m: seq<(K, V)>, k: K, v: V)
    requires DistinctKeys(m)
    ensures DistinctKeys(Put(m, k, v))
  {
  }

  /** With distinct keys, a slot holding `k` is the slot `IndexOf` finds. */
  lemma IndexOfUnique<K, V>(m: seq<(K, V)>, k: K, i: nat)
    requires DistinctKeys(m) && i < |m| && m[i].0 == k
    ensures IndexOf(m, k) == Some(i)
  {
    match IndexOf(m, k)
    case None =>
    case Some(r) =>
  }

  lemma GetPut<K, V>(m: seq<(K, V)>, k: K, v: V, k': K)
    requires DistinctKeys(m)
    ensures Get(Put(m, k, v), k') == if k' == k then Some(v) else Get(m, k')
  {
    var r := Put(m, k, v);
    PutKeepsKeysDistinct(m, k, v);
    match IndexOf(m, k)
    case None =>
      assert r == m + [(k, v)];
      if k' == k {
        IndexOfUnique(r, k, |m|);
      } else {
        match IndexOf(m, k')
        case None =>
          assert forall j :: 0 <= j < |r| ==> r[j].0 != k';
        case Some(i) =>
          IndexOfUnique(r, k', i);
      }
    case Some(i) =>
      assert r == m[i := (k, v)];
      if k' == k {
        IndexOfUnique(r, k, i);
      } else {
        match IndexOf(m, k')
        case None =>
          assert forall j :: 0 <= j < |r| ==> r[j].0 != k';
        case Some(i') =>
          IndexOfUnique(r, k', i');
      }
  }

  /** `new Map(entries)`. */
  function FromEntries<K(==), V>(es: seq<(K, V)>): (m: seq<(K, V)>)
  {
    if |es| == 0 then []
    else Put(FromEntries(es[..|es| - 1]), es[|es| - 1].0, es[|es| - 1].1)
  }

  /** The value of the last entry with key `k`. */
  function LastValue<K(==), V>(es: seq<(K, V)>, k: K): Option<V>
  {
    if |es| == 0 then None
    else if es[|es| - 1].0 == k then Some(es[|es| - 1].1)
    else LastValue(es[..|es| - 1], k)
  }

  lemma LastValueSpec<K, V>(es: seq<(K, V)>, k: K)
    ensures LastValue(es, k).None? <==> forall i :: 0 <= i < |es| ==> es[i].0 != k
    ensures LastValue(es, k).Some? ==>
      exists i :: 0 <= i < |es| && es[i] == (k, LastValue(es, k).value) &&
        forall j :: i < j < |es| ==> es[j].0 != k
  {
    if |es| > 0 && es[|es| - 1].0 != k {
      LastValueSpec(es[..|es| - 1], k);
    }
  }

  /** `new Map(entries)` keeps one slot per key, holding the value of the key's last entry. */
  lemma {:induction false} FromEntriesGet<K, V>(es: seq<(K, V)>, k: K)
    ensures DistinctKeys(FromEntries(es))
    ensures Get(FromEntries(es), k) == LastValue(es, k)
  {
    if |es| > 0 {
      var init := es[..|es| - 1];
      FromEntriesGet(init, k);
      PutKeepsKeysDistinct(FromEntries(init), es[|es| - 1].0, es[|es| - 1].1);
      GetPut(FromEntries(init), es[|es| - 1].0, es[|es| - 1].1, k);
    }
  }

  /** Entries with distinct keys pass through `new Map(entries)` unchanged. */
  lemma {:induction false} FromEntriesDistinct<K, V>(es: seq<(K, V)>)
    requires DistinctKeys(es)
    ensures FromEntries(es) == es
  {
    if |es| > 0 {
      var init := es[..|es| - 1];
      FromEntriesDistinct(init);
      assert IndexOf(init, es[|es| - 1].0) == None;
      assert init + [es[|es| - 1]] == es;
    }
  }

  /** Every entry of `new Map(entries)` is one of the entries. */
  lemma {:induction false} FromEntriesMember<K, V>(es: seq<(K, V)>, e: (K, V))
    requires e in FromEntries(es)
    ensures e in es
  {
    var init := es[..|es| - 1];
    var last := es[|es| - 1];
    if e in FromEntries(init) && e != last {
      var m := FromEntries(init);
      match IndexOf(m, last.0)
      case None =>
        FromEntriesMember(init, e);
      case Some(i) =>
        if e == m[i] {
          FromEntriesMember(init, e);
        } else {
          var j :| 0 <= j < |m| && m[j] == e;
          assert Put(m, last.0, last.1)[j] == e;
          FromEntriesMember(init, e);
        }
    }
  }

  // ---------------------------------------------------------------------------
  // Map.groupBy

  /** Adds `x` to the group of key `k`, opening the group at the end when it is new. */
  function AddToGroup<K(==), T>(m: seq<(K, seq<T>)>, k: K, x: T): seq<(K, seq<T>)>
  {
    match IndexOf(m, k)
    case None => m + [(k, [x])]
    case Some(i) => m[i := (k, m[i].1 + [x])]
  }

  /** `Map.groupBy(xs, f)`. */
  function GroupBy<K(==), T>(xs: seq<T>, f: T -> K): seq<(K, seq<T>)>
  {
    if |xs| == 0 then []
    else AddToGroup(GroupBy(xs[..|xs| - 1], f), f(xs[|xs| - 1]), xs[|xs| - 1])
  }

  /** The items of `xs` whose key is `k`, in order. */
  function WithKey<K(==), T>(xs: seq<T>, f: T -> K, k: K): (r: seq<T>)
    ensures |r| <= |xs|
  {
    if |xs| == 0 then []
    else WithKey(xs[..|xs| - 1], f, k) + (if f(xs[|xs| - 1]) == k then [xs[|xs| - 1]] else [])
  }

  lemma {:induction false} WithKeyEmpty<K, T>(xs: seq<T>, f: T -> K, k: K)
    ensures WithKey(xs, f, k) == [] <==> forall i :: 0 <= i < |xs| ==> f(xs[i]) != k
  {
    if |xs| > 0 {
      var init := xs[..|xs| - 1];
      WithKeyEmpty(init, f, k);
      assert forall i :: 0 <= i < |init| ==> init[i] == xs[i];
    }
  }

  /**
   * `Map.groupBy` yields each key once, and the group of a key is exactly the items
   * with that key, in encounter order.
   */
  lemma {:induction false} GroupByGet<K, T>(xs: seq<T>, f: T -> K, k: K)
    ensures DistinctKeys(GroupBy(xs, f))
    ensures Get(GroupBy(xs, f), k) == if WithKey(xs, f, k) == [] then None else Some(WithKey(xs, f, k))
  {
    if |xs| > 0 {
      var init := xs[..|xs| - 1];
      var x := xs[|xs| - 1];
      var m := GroupBy(init, f);
      GroupByGet(init, f, k);
      GroupByGet(init, f, f(x));
      var g := match Get(m, f(x)) case None => [x] case Some(prev) => prev + [x];
      assert AddToGroup(m, f(x), x) == Put(m, f(x), g);
      PutKeepsKeysDistinct(m, f(x), g);
      GetPut(m, f(x), g, k);
      assert WithKey(xs, f, k) == WithKey(init, f, k) + (if f(x) == k then [x] else []);
      assert GroupBy(xs, f) == AddToGroup(m, f(x), x);
      if f(x) == k {
        assert WithKey(xs, f, k) == g;
        assert |WithKey(xs, f, k)| > 0;
      } else {
        assert WithKey(xs, f, k) == WithKey(init, f, k);
      }
    }
  }

  /** Every group of `Map.groupBy` holds exactly the items of its key. */
  lemma GroupByEntry<K, T>(xs: seq<T>, f: T -> K, j: nat)
    requires j < |GroupBy(xs, f)|
    ensures GroupBy(xs, f)[j].1 == WithKey(xs, f, GroupBy(xs, f)[j].0)
    ensures GroupBy(xs, f)[j].1 != []
  {
    var m := GroupBy(xs, f);
    var k := m[j].0;
    GroupByGet(xs, f, k);
    assert IndexOf(m, k) == Some(j);
  }

  lemma WithKeyMember<K, T>(xs: seq<T>, f: T -> K, k: K, x: T)
    ensures x in WithKey(xs, f, k) <==> x in xs && f(x) == k
  {
    if |xs| > 0 {
      WithKeyMember(xs[..|xs| - 1], f, k, x);
      assert xs == xs[..|xs| - 1] + [xs[|xs| - 1]];
    }
  }
}

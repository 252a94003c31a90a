// The insertion-ordered map of the vendored YAML code
// (insta/src/content/yaml/vendored/hashmap.rs): a hash map plus the vector
// of its keys in first-insertion order.  Iteration follows that vector and
// looks each key up in the map, which never fails while the vector lists
// every key of the map exactly once.
module OrderedHashMaps {
  import opened Wrappers
  import So = Sorting

  ghost predicate Distinct<K>(ks: seq<K>)
  {
    forall i, j :: 0 <= i < j < |ks| ==> ks[i] != ks[j]
  }

  /// The vector lists each key of the map once.
  ghost predicate Lists<K(!new), V>(m: map<K, V>, ks: seq<K>)
  {
    Distinct(ks) && (forall k :: k in m <==> k in ks)
  }

  /// The entries in the order of `ks`.
  function EntriesOf<K(==,!new), V>(m: map<K, V>, ks: seq<K>): (r: seq<(K, V)>)
    requires forall k :: k in ks ==> k in m
    ensures |r| == |ks|
    ensures forall i :: 0 <= i < |ks| ==> r[i] == (ks[i], m[ks[i]])
  {
    if ks == [] then [] else [(ks[0], m[ks[0]])] + EntriesOf(m, ks[1..])
  }

  // ---------------------------------------------------------------------
  // Building from a sequence of pairs

  /// The keys of `items` in the order of their first occurrence.
  function OrderOf<K(==,!new), V>(items: seq<(K, V)>): (r: seq<K>)
    ensures Distinct(r)
    ensures forall k :: k in r <==> exists i :: 0 <= i < |items| && items[i].0 == k
  {
    if items == [] then []
    else
      var n := |items| - 1;
      var rest := OrderOf(items[..n]);
      assert forall i :: 0 <= i < n ==> items[..n][i] == items[i];
      if items[n].0 in rest then rest else rest + [items[n].0]
  }

  /// The map of `items`, a later value replacing an earlier one.
  function MapOf<K(==,!new), V>(items: seq<(K, V)>): (r: map<K, V>)
    ensures forall k :: k in r <==> exists i :: 0 <= i < |items| && items[i].0 == k
  {
    if items == [] then map[]
    else
      var n := |items| - 1;
      assert forall i :: 0 <= i < n ==> items[..n][i] == items[i];
      MapOf(items[..n])[items[n].0 := items[n].1]
  }

  /// The value a key maps to is the one of its last occurrence.
  lemma {:induction false} MapOfLast<K(!new), V>(items: seq<(K, V)>, j: nat)
    requires j < |items|
    requires forall i :: j < i < |items| ==> items[i].0 != items[j].0
    ensures items[j].0 in MapOf(items) && MapOf(items)[items[j].0] == items[j].1
  {
    var n := |items| - 1;
    if j < n {
      var init := items[..n];
      forall i | j < i < n ensures init[i].0 != init[j].0 {
        assert init[i] == items[i] && init[j] == items[j];
      }
      MapOfLast(init, j);
      assert init[j] == items[j];
    }
  }

  /// A key keeps the position of its first occurrence: the keys before it
  /// in the order are exactly those that occur before it in `items`.
  lemma {:induction false} OrderOfFirst<K(!new), V>(items: seq<(K, V)>, j: nat)
    requires j < |items|
    requires forall i :: 0 <= i < j ==> items[i].0 != items[j].0
    ensures OrderOf(items[..j + 1]) == OrderOf(items[..j]) + [items[j].0]
    ensures OrderOf(items[..j]) <= OrderOf(items)
  {
    var pre := items[..j + 1];
    assert pre[..j] == items[..j];
    forall i | 0 <= i < j ensures items[..j][i].0 != items[j].0 {
      assert items[..j][i] == items[i];
    }
    OrderOfGrows(items, j);
  }

  lemma {:induction false} OrderOfGrows<K(!new), V>(items: seq<(K, V)>, j: nat)
    requires j <= |items|
    ensures OrderOf(items[..j]) <= OrderOf(items)
    decreases |items| - j
  {
    if j < |items| {
      OrderOfGrows(items, j + 1);
      var pre := items[..j + 1];
      assert pre[..j] == items[..j];
    } else {
      assert items[..j] == items;
    }
  }

  // ---------------------------------------------------------------------
  // Comparison

  /// `Iterator::cmp` on the entry sequences: lexicographic, keys before
  /// values, a proper prefix first.
  function CmpEntries<K(==,!new), V>(xs: seq<(K, V)>, ys: seq<(K, V)>, kcmp: (K, K) -> So.Ordering, vcmp: (V, V) -> So.Ordering): So.Ordering
  {
    if xs == [] && ys == [] then So.Equal
    else if xs == [] then So.Less
    else if ys == [] then So.Greater
    else if kcmp(xs[0].0, ys[0].0) != So.Equal then kcmp(xs[0].0, ys[0].0)
    else if vcmp(xs[0].1, ys[0].1) != So.Equal then vcmp(xs[0].1, ys[0].1)
    else CmpEntries(xs[1..], ys[1..], kcmp, vcmp)
  }

  /// Equality looks at the map only, while `cmp` walks the insertion order:
  /// the same two entries inserted in the two orders give equal maps that
  /// compare as different.
  lemma EqualityIgnoresOrder<K(!new), V>(a: K, x: V, b: K, y: V, kcmp: (K, K) -> So.Ordering, vcmp: (V, V) -> So.Ordering)
    requires a != b && kcmp(a, b) != So.Equal
    ensures MapOf([(a, x), (b, y)]) == MapOf([(b, y), (a, x)])
    ensures OrderOf([(a, x), (b, y)]) == [a, b] && OrderOf([(b, y), (a, x)]) == [b, a]
    ensures CmpEntries(EntriesOf(MapOf([(a, x), (b, y)]), [a, b]),
                       EntriesOf(MapOf([(b, y), (a, x)]), [b, a]), kcmp, vcmp) != So.Equal
  {
    PairMap(a, x, b, y);
    PairMap(b, y, a, x);
    PairOrder(a, x, b, y);
    PairOrder(b, y, a, x);
    var m1 := MapOf([(a, x), (b, y)]);
    var m2 := MapOf([(b, y), (a, x)]);
    assert m1 == m2;
    var e1 := EntriesOf(m1, [a, b]);
    var e2 := EntriesOf(m2, [b, a]);
    assert e1[0] == (a, x) && e2[0] == (b, y);
  }

  /// The map of two pairs.
  lemma PairMap<K(!new), V>(a: K, x: V, b: K, y: V)
    ensures MapOf([(a, x), (b, y)]) == map[a := x][b := y]
  {
    assert [(a, x), (b, y)][..1] == [(a, x)];
    assert [(a, x)][..0] == [];
  }

  /// The order of two pairs with different keys.
  lemma PairOrder<K(!new), V>(a: K, x: V, b: K, y: V)
    requires a != b
    ensures OrderOf([(a, x), (b, y)]) == [a, b]
  {
    var items := [(a, x), (b, y)];
    assert items[..1] == [(a, x)];
    assert [(a, x)][..0] == [];
    assert OrderOf([(a, x)]) == [a];
    assert items[1].0 !in [a];
  }

  // ---------------------------------------------------------------------
  // The map

  class OrderedHashMap<K(==,!new), V> {
    var entries: map<K, V>
    var keyOrder: seq<K>

    ghost predicate Valid()
      reads this
    {
      Lists(entries, keyOrder)
    }

    /// `new`
    constructor()
      ensures Valid() && entries == map[] && keyOrder == []
    {
      entries := map[];
      keyOrder := [];
    }

    /// `insert`: a new key goes to the end of the order and gives None; an
    /// existing key keeps its place, takes the new value and gives the old.
    method Insert(key: K, value: V) returns (previous: Option<V>)
      requires Valid()
      modifies this
      ensures Valid()
      ensures entries == old(entries)[key := value]
      ensures key in old(entries) ==> previous == Some(old(entries)[key]) && keyOrder == old(keyOrder)
      ensures key !in old(entries) ==> previous == None && keyOrder == old(keyOrder) + [key]
    {
      if key in entries {
        previous := Some(entries[key]);
        entries := entries[key := value];
      } else {
        keyOrder := keyOrder + [key];
        entries := entries[key := value];
        previous := None;
      }
    }

    /// `get`
    function Get(key: K): (r: Option<V>)
      reads this
      ensures r.Some? <==> key in entries
      ensures r.Some? ==> r.value == entries[key]
    {
      if key in entries then Some(entries[key]) else None
    }

    /// `is_empty`: the map has no key, and so the order lists none.
    function IsEmpty(): (r: bool)
      requires Valid()
      reads this
      ensures r <==> keyOrder == []
    {
      if keyOrder != [] then
        assert keyOrder[0] in entries;
        entries == map[]
      else
        assert entries.Keys == {};
        entries == map[]
    }

    /// The entries in insertion order, as `iter` and `into_iter` give them.
    function Entries(): (r: seq<(K, V)>)
      requires Valid()
      reads this
      ensures |r| == |keyOrder|
      ensures forall i :: 0 <= i < |r| ==> r[i].0 == keyOrder[i] && r[i].0 in entries && r[i].1 == entries[r[i].0]
    {
      EntriesOf(entries, keyOrder)
    }

    /// `PartialEq::eq`: the maps are equal, whatever the order.
    ghost predicate Equal(other: OrderedHashMap<K, V>)
      reads this, other
    {
      entries == other.entries
    }

    /// `Ord::cmp`: the entries compared in insertion order.
    function Cmp(other: OrderedHashMap<K, V>, kcmp: (K, K) -> So.Ordering, vcmp: (V, V) -> So.Ordering): So.Ordering
      requires Valid() && other.Valid()
      reads this, other
    {
      CmpEntries(Entries(), other.Entries(), kcmp, vcmp)
    }
  }

  /// `from_iter`: one `insert` per pair.  A repeated key stays where it
  /// first occurred and ends with its last value.
  method FromIter<K(==,!new), V>(items: seq<(K, V)>) returns (m: OrderedHashMap<K, V>)
    ensures fresh(m) && m.Valid()
    ensures m.entries == MapOf(items) && m.keyOrder == OrderOf(items)
  {
    m := new OrderedHashMap();
    var i := 0;
    while i < |items|
      invariant i <= |items| && m.Valid()
      invariant m.entries == MapOf(items[..i]) && m.keyOrder == OrderOf(items[..i])
    {
      var pre := items[..i + 1];
      assert pre[..i] == items[..i] && pre[i] == items[i];
      var _ := m.Insert(items[i].0, items[i].1);
      i := i + 1;
    }
    assert items[..i] == items;
  }

  // ---------------------------------------------------------------------
  // Iterators

  /// `IntoIter`: the remaining keys, and the entries the yielded entries have
  /// been removed from.
  class IntoIter<K(==,!new), V> {
    var entries: map<K, V>
    var keys: seq<K>

    ghost predicate Valid()
      reads this
    {
      Lists(entries, keys)
    }

    /// `into_iter`
    constructor(source: OrderedHashMap<K, V>)
      requires source.Valid()
      ensures Valid() && entries == source.entries && keys == source.keyOrder
    {
      entries := source.entries;
      keys := source.keyOrder;
    }

    /// The entries still to come.
    function Rest(): (r: seq<(K, V)>)
      requires Valid()
      reads this
    {
      EntriesOf(entries, keys)
    }

    /// `next`: the first remaining key with its value, removed from the
    /// entries; the `unwrap` of the removal never fails.
    method Next() returns (item: Option<(K, V)>)
      requires Valid()
      modifies this
      ensures Valid()
      ensures old(keys) == [] ==> item == None && keys == [] && entries == old(entries)
      ensures old(keys) != [] ==>
        item == Some((old(keys)[0], old(entries)[old(keys)[0]]))
        && keys == old(keys)[1..] && entries == old(entries) - {old(keys)[0]}
      ensures old(Rest()) == (if item.Some? then [item.value] else []) + Rest()
    {
      if keys == [] {
        item := None;
      } else {
        var key := keys[0];
        item := Some((key, entries[key]));
        DropFirst(entries, keys);
        keys := keys[1..];
        entries := entries - {key};
      }
    }
  }

  /// Removing the first key from the map and the order keeps one listing
  /// the other, and the remaining entries are the rest of the old ones.
  lemma DropFirst<K(!new), V>(m: map<K, V>, ks: seq<K>)
    requires Lists(m, ks) && ks != []
    ensures Lists(m - {ks[0]}, ks[1..])
    ensures EntriesOf(m, ks) == [(ks[0], m[ks[0]])] + EntriesOf(m - {ks[0]}, ks[1..])
  {
    var rest := ks[1..];
    forall j | 0 <= j < |rest| ensures rest[j] != ks[0] {
      assert rest[j] == ks[j + 1];
    }
    EntriesAgree(m, m - {ks[0]}, rest);
  }

  /// Two maps that agree on the keys give the same entries.
  lemma {:induction false} EntriesAgree<K(!new), V>(m: map<K, V>, n: map<K, V>, ks: seq<K>)
    requires forall k :: k in ks ==> k in m && k in n && m[k] == n[k]
    ensures EntriesOf(m, ks) == EntriesOf(n, ks)
  {
    if ks != [] {
      EntriesAgree(m, n, ks[1..]);
    }
  }

  /// `Iter`: the remaining keys over the borrowed entries.
  class Iter<K(==,!new), V> {
    const entries: map<K, V>
    var keys: seq<K>

    ghost predicate Valid()
      reads this
    {
      Distinct(keys) && forall k :: k in keys ==> k in entries
    }

    /// `iter`
    constructor(source: OrderedHashMap<K, V>)
      requires source.Valid()
      ensures Valid() && entries == source.entries && keys == source.keyOrder
    {
      entries := source.entries;
      keys := source.keyOrder;
    }

    function Rest(): (r: seq<(K, V)>)
      requires Valid()
      reads this
    {
      EntriesOf(entries, keys)
    }

    /// `next`: the first remaining key with its value; the lookup's
    /// `unwrap` never fails.
    method Next() returns (item: Option<(K, V)>)
      requires Valid()
      modifies this
      ensures Valid()
      ensures old(keys) == [] ==> item == None && keys == []
      ensures old(keys) != [] ==> item == Some((old(keys)[0], entries[old(keys)[0]])) && keys == old(keys)[1..]
      ensures old(Rest()) == (if item.Some? then [item.value] else []) + Rest()
    {
      if keys == [] {
        item := None;
      } else {
        var key := keys[0];
        item := Some((key, entries[key]));
        keys := keys[1..];
      }
    }
  }

  /// Draining `into_iter` yields the entries in insertion order.
  method Drain<K(==,!new), V>(m: OrderedHashMap<K, V>) returns (out: seq<(K, V)>)
    requires m.Valid()
    ensures out == m.Entries()
  {
    var it := new IntoIter(m);
    ghost var all := it.Rest();
    out := [];
    while it.keys != []
      invariant it.Valid() && out + it.Rest() == all
      decreases |it.keys|
    {
      var item := it.Next();
      out := out + [item.value];
    }
  }
}

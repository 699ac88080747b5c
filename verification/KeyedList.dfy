/** A list of keyed elements in two parallel arrays; removal moves the last element into the gap. */
module KeyedList {

  datatype Lookup<T> = Missing | Found(value: T)

  /** The list read as key-element pairs. */
  ghost predicate Distinct<T>(items: seq<(int, T)>) {
    forall i, j :: 0 <= i < j < |items| ==> items[i].0 != items[j].0
  }

  /** The finite map of a list with distinct keys. */
  ghost function AsMap<T>(items: seq<(int, T)>): (m: map<int, T>) {
    if items == [] then map[] else AsMap(items[..|items| - 1])[items[|items| - 1].0 := items[|items| - 1].1]
  }

  /** The map has exactly the pairs of the list. */
  lemma {:induction false} MapPairs<T>(items: seq<(int, T)>, k: int, x: T)
    requires Distinct(items)
    ensures k in AsMap(items) && AsMap(items)[k] == x <==> (k, x) in items
    decreases |items|
  {
    if items != [] {
      var n := |items| - 1;
      MapPairs(items[..n], k, x);
      assert items == items[..n] + [items[n]];
    }
  }

  lemma MapHas<T>(items: seq<(int, T)>, i: nat)
    requires Distinct(items) && i < |items|
    ensures items[i].0 in AsMap(items) && AsMap(items)[items[i].0] == items[i].1
  {
    MapPairs(items, items[i].0, items[i].1);
    assert items[i] == (items[i].0, items[i].1);
  }

  lemma {:induction false} MapLacks<T>(items: seq<(int, T)>, k: int)
    requires forall i :: 0 <= i < |items| ==> items[i].0 != k
    ensures k !in AsMap(items)
    decreases |items|
  {
    if items != [] { MapLacks(items[..|items| - 1], k); }
  }

  /** The list after a removal at place i. */
  ghost function SwapRemove<T>(items: seq<(int, T)>, i: nat): (r: seq<(int, T)>)
    requires i < |items|
  {
    items[i := items[|items| - 1]][..|items| - 1]
  }

  lemma SwapRemoveDistinct<T>(items: seq<(int, T)>, i: nat)
    requires i < |items|
    ensures Distinct(items) ==> Distinct(SwapRemove(items, i))
  {
  }

  /** Swapping the last element into the gap removes exactly one pair, and keeps the keys distinct. */
  lemma SwapRemoveElements<T>(items: seq<(int, T)>, i: nat)
    requires i < |items|
    ensures multiset(items) == multiset(SwapRemove(items, i)) + multiset{items[i]}
    ensures Distinct(items) ==> Distinct(SwapRemove(items, i))
  {
    SwapRemoveDistinct(items, i);
    hide Distinct;
    var n := |items| - 1;
    var last := items[n];
    assert items == items[..n] + [last];
    if i < n {
      var s := items[..n];
      assert SwapRemove(items, i) == s[..i] + [last] + s[i + 1..];
      assert s == s[..i] + [items[i]] + s[i + 1..];
    }
  }

  /** On a list with distinct keys removal is removal from the map. */
  lemma SwapRemoveMap<T>(items: seq<(int, T)>, i: nat)
    requires i < |items| && Distinct(items)
    ensures Distinct(SwapRemove(items, i)) && AsMap(SwapRemove(items, i)) == AsMap(items) - {items[i].0}
  {
    hide AsMap, SwapRemove;
    var r, k := SwapRemove(items, i), items[i].0;
    SwapRemoveElements(items, i);
    forall q, x ensures (q, x) in r <==> (q, x) in items && q != k { SwapRemovePairs(items, i, q, x); }
    var m, m' := AsMap(items), AsMap(r);
    forall q | q in m && q != k ensures q in m' && m'[q] == m[q] {
      MapPairs(items, q, m[q]);
      MapPairs(r, q, m[q]);
    }
    forall q | q in m' ensures q in m && q != k {
      MapPairs(items, q, m'[q]);
      MapPairs(r, q, m'[q]);
    }
    assert m' == m - {k};
  }

  lemma SwapRemovePairs<T>(items: seq<(int, T)>, i: nat, q: int, x: T)
    requires i < |items| && Distinct(items)
    ensures (q, x) in SwapRemove(items, i) <==> (q, x) in items && q != items[i].0
  {
    var r, n := SwapRemove(items, i), |items| - 1;
    if (q, x) in r {
      var j :| 0 <= j < |r| && r[j] == (q, x);
      assert (q, x) == items[if j == i then n else j];
    }
    if (q, x) in items && q != items[i].0 {
      var j :| 0 <= j < |items| && items[j] == (q, x);
      assert r[if j == n then i else j] == (q, x);
    }
  }

  class List<T(0)> {
    var key: array<int>
    var data: array<T>
    var len: int

    ghost predicate Valid()
      reads this
    {
      0 <= len <= key.Length == data.Length && 0 < key.Length && key as object != data as object
    }

    ghost function Items(): (s: seq<(int, T)>)
      requires Valid()
      reads this, key, data
    {
      seq(len, i requires 0 <= i < len && Valid() reads this, key, data => (key[i], data[i]))
    }

    constructor (capacity: int)
      requires 0 < capacity
      ensures Valid() && Items() == [] && fresh(key) && fresh(data)
    {
      len := 0;
      key := new int[capacity];
      data := new T[capacity];
    }

    /** The first place with the key, or -1. */
    method LookupIndex(k: int) returns (i: int)
      requires Valid()
      ensures -1 <= i < len
      ensures i == -1 ==> forall j :: 0 <= j < len ==> key[j] != k
      ensures i >= 0 ==> key[i] == k && forall j :: 0 <= j < i ==> key[j] != k
    {
      i := 0;
      while i < len
        invariant 0 <= i <= len
        invariant forall j :: 0 <= j < i ==> key[j] != k
      {
        if key[i] == k {
          return;
        }
        i := i + 1;
      }
      i := -1;
    }

    method Find(k: int) returns (r: Lookup<T>)
      requires Valid()
      ensures Distinct(Items()) ==> r == if k in AsMap(Items()) then Found(AsMap(Items())[k]) else Missing
      ensures r == Missing ==> forall p :: p in Items() ==> p.0 != k
      ensures r.Found? ==> (k, r.value) in Items()
    {
      var i := LookupIndex(k);
      if i == -1 {
        MapLacks(Items(), k);
        return Missing;
      }
      assert Items()[i] == (k, data[i]);
      if Distinct(Items()) { MapHas(Items(), i); }
      r := Found(data[i]);
    }

    method Remove(k: int)
      requires Valid()
      modifies this`len, key, data
      ensures Valid() && key == old(key) && data == old(data)
      ensures (forall p :: p in old(Items()) ==> p.0 != k) ==> Items() == old(Items())
      ensures (exists p :: p in old(Items()) && p.0 == k) ==>
                exists i :: 0 <= i < |old(Items())| && old(Items())[i].0 == k && Items() == SwapRemove(old(Items()), i)
      ensures old(Distinct(Items())) ==> Distinct(Items()) && AsMap(Items()) == old(AsMap(Items())) - {k}
    {
      ghost var s := Items();
      var i := LookupIndex(k);
      if i != -1 {
        assert s[i] == (k, data[i]) && s[i] in s;
        if Distinct(s) { SwapRemoveMap(s, i); }
        len := len - 1;
        key[i] := key[len];
        data[i] := data[len];
        assert Items() == SwapRemove(s, i);
      } else {
        MapLacks(s, k);
      }
    }

    method Resize()
      requires Valid()
      modifies this
      ensures Valid() && len == old(len) && key.Length == 2 * old(key.Length) && fresh(key) && fresh(data)
      ensures Items() == old(Items())
    {
      ghost var s := Items();
      var n := key.Length * 2;
      var newKey := new int[n];
      var newData := new T[n];
      forall i | 0 <= i < key.Length { newKey[i] := key[i]; }
      forall i | 0 <= i < key.Length { newData[i] := data[i]; }
      key := newKey;
      data := newData;
      assert Items() == s;
    }

    method Append(k: int, x: T)
      requires Valid()
      modifies this, key, data
      ensures Valid() && Items() == old(Items()) + [(k, x)]
      ensures old(Distinct(Items())) && k !in old(AsMap(Items())) ==>
                Distinct(Items()) && AsMap(Items()) == old(AsMap(Items()))[k := x]
      ensures (key == old(key) && data == old(data)) || (fresh(key) && fresh(data))
    {
      ghost var s := Items();
      if len == key.Length {
        Resize();
      }
      key[len] := k;
      data[len] := x;
      len := len + 1;
      assert Items() == s + [(k, x)];
      AppendMap(s, k, x);
    }
  }

  lemma AppendMap<T>(s: seq<(int, T)>, k: int, x: T)
    ensures AsMap(s + [(k, x)]) == AsMap(s)[k := x]
    ensures Distinct(s) && k !in AsMap(s) ==> Distinct(s + [(k, x)])
  {
    assert (s + [(k, x)])[..|s|] == s;
    if Distinct(s) && k !in AsMap(s) {
      forall i | 0 <= i < |s| ensures s[i].0 != k { MapHas(s, i); }
    }
  }
}

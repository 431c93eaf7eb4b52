/** What an LRU cache (`cache.c`) is for: a bounded sequence of items with different keys, most recently
    used first. */
module LruModel {
  import opened Sequences

  datatype Item<K, D> = Item(key: K, data: D)

  ghost predicate DistinctKeys<K, D>(s: seq<Item<K, D>>) {
    forall i, j :: 0 <= i < j < |s| ==> s[i].key != s[j].key
  }

  /** The first place at or after `i` that holds `key`, or the end. */
  function LocateFrom<K(==), D>(s: seq<Item<K, D>>, key: K, i: nat): (r: nat)
    requires i <= |s|
    ensures i <= r <= |s| && (r < |s| ==> s[r].key == key)
    ensures forall j :: i <= j < r ==> s[j].key != key
    decreases |s| - i
  {
    if i == |s| || s[i].key == key then i else LocateFrom(s, key, i + 1)
  }

  function Locate<K(==), D>(s: seq<Item<K, D>>, key: K): (r: nat)
    ensures r <= |s| && (r < |s| ==> s[r].key == key)
    ensures forall j :: 0 <= j < r ==> s[j].key != key
  {
    LocateFrom(s, key, 0)
  }

  /** A fetch moves the item found to the front. */
  function Fetched<K(==), D>(s: seq<Item<K, D>>, key: K): (r: seq<Item<K, D>>) {
    var i := Locate(s, key);
    if i == |s| then s else [s[i]] + Cut(s, i)
  }

  /** Entering a key already present changes nothing; a new item goes to the front, and when all the
      entries are in use the last one leaves. */
  function Entered<K(==), D>(s: seq<Item<K, D>>, item: Item<K, D>, capacity: nat): (r: seq<Item<K, D>>) {
    if Locate(s, item.key) < |s| then s
    else if |s| < capacity || s == [] then [item] + s
    else [item] + s[..|s| - 1]
  }

  /** The items that are not doomed, in the same order. */
  function Kept<T>(s: seq<T>, doomed: T -> bool): (r: seq<T>) {
    if s == [] then [] else (if doomed(s[0]) then [] else [s[0]]) + Kept(s[1..], doomed)
  }

  lemma {:induction false} KeptCut<T>(s: seq<T>, doomed: T -> bool, i: nat)
    requires i < |s| && doomed(s[i])
    ensures Kept(Cut(s, i), doomed) == Kept(s, doomed)
    decreases i
  {
    var c := Cut(s, i);
    if i == 0 {
      assert c == s[1..];
    } else {
      KeptCut(s[1..], doomed, i - 1);
      assert c[0] == s[0] && c[1..] == Cut(s[1..], i - 1);
    }
  }

  lemma {:induction false} KeptAll<T>(s: seq<T>, doomed: T -> bool)
    requires forall i :: 0 <= i < |s| ==> !doomed(s[i])
    ensures Kept(s, doomed) == s
    decreases |s|
  {
    if s != [] {
      KeptAll(s[1..], doomed);
    }
  }

  lemma {:induction false} KeptMembers<T>(s: seq<T>, doomed: T -> bool)
    ensures |Kept(s, doomed)| <= |s|
    ensures forall x :: x in Kept(s, doomed) <==> x in s && !doomed(x)
    decreases |s|
  {
    if s != [] {
      KeptMembers(s[1..], doomed);
      assert s == [s[0]] + s[1..];
    }
  }

  /** One call on the cache. */
  datatype Call<!K, !D> =
    | Fetch(key: K)
    | Enter(item: Item<K, D>)
    | Invalidate(doomed: Item<K, D> -> bool, hash: int, nohash: bool)
    | Remove(key: K)

  /** The entry with a key leaves. */
  function Removed<K(==), D>(s: seq<Item<K, D>>, key: K): (r: seq<Item<K, D>>) {
    var i := Locate(s, key);
    if i == |s| then s else Cut(s, i)
  }

  function After<K(==), D>(s: seq<Item<K, D>>, c: Call<K, D>, capacity: nat): (r: seq<Item<K, D>>) {
    match c
    case Fetch(key) => Fetched(s, key)
    case Enter(item) => Entered(s, item, capacity)
    case Invalidate(doomed, _, _) => Kept(s, doomed)
    case Remove(key) => Removed(s, key)
  }

  function Run<K(==), D>(s: seq<Item<K, D>>, calls: seq<Call<K, D>>, capacity: nat): (r: seq<Item<K, D>>)
    decreases |calls|
  {
    if calls == [] then s else Run(After(s, calls[0], capacity), calls[1..], capacity)
  }

  /** The key a call may bring to the front. */
  function Touched<K, D>(c: Call<K, D>): (r: set<K>) {
    match c
    case Fetch(key) => {key}
    case Enter(item) => {item.key}
    case Invalidate(_, _, _) => {}
    case Remove(_) => {}
  }

  function AllTouched<K, D>(calls: seq<Call<K, D>>): (r: set<K>)
    decreases |calls|
  {
    if calls == [] then {} else Touched(calls[0]) + AllTouched(calls[1..])
  }

  /** No call takes the item out. */
  ghost predicate Spares<K, D>(calls: seq<Call<K, D>>, item: Item<K, D>) {
    && (forall i :: 0 <= i < |calls| && calls[i].Invalidate? ==> !calls[i].doomed(item))
    && (forall i :: 0 <= i < |calls| && calls[i].Remove? ==> calls[i].key != item.key)
  }

  /** `item` is in the cache, behind items whose keys are all among `keys`. */
  ghost predicate Behind<K, D>(s: seq<Item<K, D>>, item: Item<K, D>, keys: set<K>) {
    exists i :: 0 <= i < |s| && s[i] == item && forall j :: 0 <= j < i ==> s[j].key in keys
  }

  lemma {:induction false} PlacesBelow<K, D>(s: seq<Item<K, D>>, i: nat, keys: set<K>)
    requires DistinctKeys(s) && i <= |s| && forall j :: 0 <= j < i ==> s[j].key in keys
    ensures i <= |keys|
    decreases i
  {
    if i > 0 {
      var last := s[i - 1].key;
      PlacesBelow(s, i - 1, keys - {last});
    }
  }

  lemma {:induction false} FetchedNothing<K, D>(s: seq<Item<K, D>>, key: K)
    ensures Locate(s, key) == |s| ==> Fetched(s, key) == s
  {
  }

  lemma {:induction false} FetchedAt<K, D>(s: seq<Item<K, D>>, key: K, j: nat)
    requires j < |s| && Locate(s, key) < |s|
    ensures |Fetched(s, key)| == |s|
    ensures Fetched(s, key)[j] == (if j == 0 then s[Locate(s, key)] else if j <= Locate(s, key) then s[j - 1] else s[j])
  {
    var i := Locate(s, key);
    hide Locate;
    CutElement(s, i, if j > 0 then j - 1 else 0);
  }

  lemma {:induction false} CutElement<T>(s: seq<T>, i: nat, j: nat)
    requires i < |s|
    ensures j < |s| - 1 ==> Cut(s, i)[j] == if j < i then s[j] else s[j + 1]
  {
  }

  lemma {:induction false} FetchKeepsDistinct<K, D>(s: seq<Item<K, D>>, key: K)
    requires DistinctKeys(s)
    ensures DistinctKeys(Fetched(s, key))
  {
    var r := Fetched(s, key);
    if Locate(s, key) < |s| {
      hide Fetched;
      forall i, j | 0 <= i < j < |r|
        ensures r[i].key != r[j].key
      {
        FetchedAt(s, key, i);
        FetchedAt(s, key, j);
      }
    }
  }

  lemma {:induction false} FetchKeeps<K, D>(s: seq<Item<K, D>>, item: Item<K, D>, keys: set<K>, key: K)
    requires DistinctKeys(s) && Behind(s, item, keys)
    ensures DistinctKeys(Fetched(s, key)) && |Fetched(s, key)| == |s| && Behind(Fetched(s, key), item, keys + {key})
  {
    hide DistinctKeys, Fetched, Cut;
    FetchKeepsDistinct(s, key);
    FetchedNothing(s, key);
    var i :| 0 <= i < |s| && s[i] == item && forall j :: 0 <= j < i ==> s[j].key in keys;
    var k := Locate(s, key);
    var r := Fetched(s, key);
    if k < |s| {
      var at := if i == k then 0 else if i < k then i + 1 else i;
      FetchedAt(s, key, at);
      assert r[at] == item;
      forall j | 0 <= j < at
        ensures r[j].key in keys + {key}
      {
        FetchedAt(s, key, j);
      }
    }
  }

  lemma {:induction false} EnterKeeps<K, D>(s: seq<Item<K, D>>, item: Item<K, D>, keys: set<K>, new_: Item<K, D>,
                                            capacity: nat)
    requires DistinctKeys(s) && |s| <= capacity && Behind(s, item, keys)
    requires |keys - {item.key} + {new_.key}| < capacity
    ensures var r := Entered(s, new_, capacity);
            DistinctKeys(r) && |r| <= capacity && Behind(r, item, keys + {new_.key})
  {
    var i :| 0 <= i < |s| && s[i] == item && forall j :: 0 <= j < i ==> s[j].key in keys;
    var r := Entered(s, new_, capacity);
    if Locate(s, new_.key) == |s| {
      assert forall j :: 0 < j < |r| ==> r[j] == s[j - 1];
      PlacesBelow(r, i + 1, keys - {item.key} + {new_.key});
      var at := i + 1;
      assert r[at] == item;
    } else {
      assert Behind(s, item, keys + {new_.key});
    }
  }

  lemma {:induction false} KeptBehind<K, D>(s: seq<Item<K, D>>, item: Item<K, D>, keys: set<K>,
                                            doomed: Item<K, D> -> bool)
    requires DistinctKeys(s) && Behind(s, item, keys) && !doomed(item)
    ensures Behind(Kept(s, doomed), item, keys)
    decreases |s|
  {
    var i :| 0 <= i < |s| && s[i] == item && forall j :: 0 <= j < i ==> s[j].key in keys;
    var r := Kept(s, doomed);
    if i == 0 {
      assert r[0] == item;
    } else {
      assert s[1..][i - 1] == item;
      KeptBehind(s[1..], item, keys, doomed);
      var t := Kept(s[1..], doomed);
      var k :| 0 <= k < |t| && t[k] == item && forall j :: 0 <= j < k ==> t[j].key in keys;
      var at := if doomed(s[0]) then k else k + 1;
      assert r[at] == item;
    }
  }

  lemma {:induction false} KeptDistinct<K, D>(s: seq<Item<K, D>>, doomed: Item<K, D> -> bool)
    requires DistinctKeys(s)
    ensures DistinctKeys(Kept(s, doomed))
    decreases |s|
  {
    if s != [] {
      KeptDistinct(s[1..], doomed);
      KeptAvoids(s[1..], doomed, s[0].key);
    }
  }

  lemma {:induction false} KeptAvoids<K, D>(s: seq<Item<K, D>>, doomed: Item<K, D> -> bool, key: K)
    requires forall i :: 0 <= i < |s| ==> s[i].key != key
    ensures forall i :: 0 <= i < |Kept(s, doomed)| ==> Kept(s, doomed)[i].key != key
    decreases |s|
  {
    if s != [] {
      KeptAvoids(s[1..], doomed, key);
    }
  }

  lemma {:induction false} RemoveKeeps<K, D>(s: seq<Item<K, D>>, item: Item<K, D>, keys: set<K>, key: K)
    requires DistinctKeys(s) && Behind(s, item, keys) && key != item.key
    ensures var r := Removed(s, key); DistinctKeys(r) && |r| <= |s| && Behind(r, item, keys)
  {
    var i :| 0 <= i < |s| && s[i] == item && forall j :: 0 <= j < i ==> s[j].key in keys;
    var k := Locate(s, key);
    if k < |s| {
      hide Locate;
      var r := Cut(s, k);
      assert forall j :: 0 <= j < |r| ==> r[j] == if j < k then s[j] else s[j + 1];
      var at := if i < k then i else i - 1;
      assert r[at] == item;
    }
  }

  /** The point of an LRU cache: whatever is called, an item stays as long as fewer than `capacity` other
      keys are touched and no call takes it out. */
  lemma {:induction false} RecentStays<K, D>(s: seq<Item<K, D>>, item: Item<K, D>, keys: set<K>, calls: seq<Call<K, D>>,
                                             capacity: nat)
    requires DistinctKeys(s) && |s| <= capacity && Behind(s, item, keys) && Spares(calls, item)
    requires |(keys + AllTouched(calls)) - {item.key}| + 1 <= capacity
    ensures item in Run(s, calls, capacity)
    decreases |calls|
  {
    if calls != [] {
      var c := calls[0];
      var all := (keys + AllTouched(calls)) - {item.key};
      assert (keys + Touched(c)) + AllTouched(calls[1..]) == keys + AllTouched(calls);
      match c {
        case Fetch(key) =>
          FetchKeeps(s, item, keys, key);
        case Enter(x) =>
          EntersFit(s, item, keys, x, all, capacity);
        case Remove(key) =>
          RemoveKeeps(s, item, keys, key);
          assert keys + {} == keys;
        case Invalidate(doomed, _, _) =>
          KeptBehind(s, item, keys, doomed);
          KeptDistinct(s, doomed);
          KeptMembers(s, doomed);
          assert keys + {} == keys;
      }
      RecentStays(After(s, c, capacity), item, keys + Touched(c), calls[1..], capacity);
    }
  }

  lemma {:induction false} SubsetSmaller<K>(a: set<K>, b: set<K>)
    requires a <= b
    ensures |a| <= |b|
  {
    assert b == a + (b - a);
  }

  lemma {:induction false} EntersFit<K, D>(s: seq<Item<K, D>>, item: Item<K, D>, keys: set<K>, x: Item<K, D>,
                                           all: set<K>, capacity: nat)
    requires DistinctKeys(s) && |s| <= capacity && Behind(s, item, keys)
    requires (keys + {x.key}) - {item.key} <= all && |all| + 1 <= capacity
    ensures var r := Entered(s, x, capacity);
            DistinctKeys(r) && |r| <= capacity && Behind(r, item, keys + {x.key})
  {
    if x.key == item.key {
      var i :| 0 <= i < |s| && s[i] == item && forall j :: 0 <= j < i ==> s[j].key in keys;
      assert Locate(s, x.key) < |s|;
      assert Behind(s, item, keys + {x.key});
    } else {
      assert keys - {item.key} + {x.key} == (keys + {x.key}) - {item.key};
      SubsetSmaller(keys - {item.key} + {x.key}, all);
      EnterKeeps(s, item, keys, x, capacity);
    }
  }
}

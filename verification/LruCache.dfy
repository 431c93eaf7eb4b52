/** The LRU cache of `cache.c`: a pool of entries threaded by the used and the free list, with an optional
    hash index over it, refines the bounded sequence of `LruModel`. */
module LruCache {
  import opened Sequences
  import opened LinkedPool
  import opened LruModel
  import opened LruList
  import opened HashIndex

  /** The items in the slots of a list. */
  function Gather<T>(items: seq<T>, slots: seq<nat>): (r: seq<T>)
    requires forall i :: 0 <= i < |slots| ==> slots[i] < |items|
    ensures |r| == |slots| && forall i :: 0 <= i < |r| ==> r[i] == items[slots[i]]
  {
    seq(|slots|, i requires 0 <= i < |slots| => items[slots[i]])
  }

  /** Bucket `b` names, each once, exactly the slots in use whose key hashes to `b`. */
  ghost predicate BucketIs<K, D>(bucket: seq<int>, b: int, items: seq<Item<K, D>>, used: seq<nat>, hash: K -> int) {
    && (forall i, j :: 0 <= i < j < |bucket| ==> bucket[i] != bucket[j])
    && (forall i :: 0 <= i < |bucket| ==> bucket[i] >= 0)
    && (forall e: nat :: e in bucket <==> e in used && e < |items| && hash(items[e].key) == b)
  }

  lemma {:induction false} EmptyBucket<K, D>(items: seq<Item<K, D>>, hash: K -> int)
    ensures forall b: nat :: BucketIs([], b, items, [], hash)
  {
  }

  lemma {:induction false} BucketAdd<K, D>(bucket: seq<int>, b: int, items: seq<Item<K, D>>, used: seq<nat>,
                                           hash: K -> int, x: nat, item: Item<K, D>)
    requires BucketIs(bucket, b, items, used, hash) && x < |items| && x !in used
    ensures BucketIs(if hash(item.key) == b then [x] + bucket else bucket, b, items[x := item], [x] + used, hash)
  {
  }

  lemma {:induction false} RemoveAtMembers(s: seq<int>, i: nat)
    requires i < |s| && forall j, k :: 0 <= j < k < |s| ==> s[j] != s[k]
    ensures var r := Cut(s, i);
            && (forall j, k :: 0 <= j < k < |r| ==> r[j] != r[k])
            && forall x :: x in r <==> x in s && x != s[i]
  {
    var r := Cut(s, i);
    forall x | x in s && x != s[i]
      ensures x in r
    {
      var k :| 0 <= k < |s| && s[k] == x;
      assert x == if k < i then r[k] else r[k - 1];
    }
  }

  lemma {:induction false} BucketRemove<K, D>(bucket: seq<int>, b: int, items: seq<Item<K, D>>, used: seq<nat>,
                                              hash: K -> int, i: nat, c: nat)
    requires BucketIs(bucket, b, items, used, hash) && i < |used| && Distinct(used) && used[i] < |items|
    requires hash(items[used[i]].key) == b ==> c < |bucket| && bucket[c] == used[i]
    ensures BucketIs(if hash(items[used[i]].key) == b then Cut(bucket, c) else bucket, b, items, Without(used, i), hash)
  {
    hide Distinct, Without, Cut;
    WithoutMembers(used, i);
    if hash(items[used[i]].key) == b {
      RemoveAtMembers(bucket, c);
      var r := Cut(bucket, c);
      assert forall j :: 0 <= j < |r| ==> r[j] in r;
    }
  }

  lemma {:induction false} BucketSame<K, D>(bucket: seq<int>, b: int, items: seq<Item<K, D>>, used: seq<nat>,
                                            hash: K -> int, i: nat)
    requires BucketIs(bucket, b, items, used, hash) && i < |used| && Distinct(used)
    ensures BucketIs(bucket, b, items, [used[i]] + Without(used, i), hash)
  {
    hide Distinct, Without;
    WithoutMembers(used, i);
  }

  class Cache<K(==, 0, !new), D(0, !new)> {
    const capacity: nat
    const dohash: K -> int
    const list: EntryList
    const items: array<Item<K, D>>
    const index: Index
    /** Whether the hash function is in place; the source drops it on a hashing failure. */
    var hashing: bool
    var readCount: nat
    var writeCount: nat
    var hitCount: nat

    ghost function Repr(): set<object> {
      {list, list.next, list.prev, items, index, index.next, index.entry, index.heads}
    }

    ghost predicate Separate() {
      && list.next !in {index.next, index.entry, index.heads}
      && list.prev !in {index.next, index.entry, index.heads}
      && (items as object) !in {list.next as object, list.prev, index.next, index.entry, index.heads}
    }

    ghost predicate Buckets()
      reads this`hashing, list, list.next, list.prev, items, index, index.next, index.entry, index.heads
    {
      index.Valid() && forall b :: 0 <= b < index.heads.Length ==>
            BucketIs(index.Bucket(b), b, items[..], list.used, dohash)
    }

    /** The cache is consistent but for `missing` entries that are in neither list and have no hash link. */
    ghost predicate Holds(missing: nat)
      reads this`hashing, list, list.next, list.prev, items, index, index.next, index.entry, index.heads
    {
      && Separate() && capacity >= 2 && list.next.Length == capacity && items.Length == capacity
      && list.Valid() && |list.used| + |list.spare| + missing == capacity
      && InRange() && DistinctKeys(Contents())
      && index.Valid()
      && (hashing ==>
            && |index.spare| == |list.spare| + missing && Buckets()
            && forall k :: 0 <= dohash(k) < index.heads.Length)
    }

    ghost predicate InRange()
      reads list, items
    {
      forall i :: 0 <= i < |list.used| ==> list.used[i] < items.Length
    }

    ghost predicate Valid()
      reads this`hashing, list, list.next, list.prev, items, index, index.next, index.entry, index.heads
    {
      Holds(0)
    }

    /** The cached items, most recently used first. */
    ghost function Contents(): seq<Item<K, D>>
      requires InRange()
      reads list, items
    {
      Gather(items[..], list.used)
    }

    /** `ntfs_create_cache`: an empty cache, hashed when there is a hash function and a table for it. */
    constructor (count: nat, hash: K -> int, buckets: nat, hashed: bool)
      requires count >= 2 && (hashed && buckets > 0 ==> forall k :: 0 <= hash(k) < buckets)
      ensures Valid() && fresh(Repr()) && capacity == count && Contents() == []
      ensures hashing == (hashed && buckets > 0) && readCount == writeCount == hitCount == 0
    {
      capacity, dohash := count, hash;
      list := new EntryList(count);
      items := new Item<K, D>[count];
      index := new Index(count, buckets);
      hashing := hashed && buckets > 0;
      readCount, writeCount, hitCount := 0, 0, 0;
      new;
      hide Lists, Chains, BucketIs;
      EmptyBucket(items[..], dohash);
    }

    /** The searches of fetch and enter: through the chain of the key's hash when hashing, otherwise along
        the list in use.  Both find what a plain search of the contents finds. */
    method Search(key: K) returns (current: int, ghost at: nat)
      requires Valid()
      ensures Valid() && at == Locate(Contents(), key)
      ensures current == (if Locate(Contents(), key) < |list.used| then list.used[Locate(Contents(), key)] else NIL)
    {
      hide Holds;
      if hashing {
        current, at := SearchChain(key);
      } else {
        current, at := SearchList(key);
      }
    }

    method SearchList(key: K) returns (current: int, ghost at: nat)
      requires Valid()
      ensures Valid() && at == Locate(Contents(), key)
      ensures current == (if Locate(Contents(), key) < |list.used| then list.used[Locate(Contents(), key)] else NIL)
    {
      hide Lists, Chains, Buckets, DistinctKeys;
      list.Ends();
      at := 0;
      current := list.most;
      ghost var s := Contents();
      while current != NIL && items[current].key != key
        invariant at <= |list.used| && current == (if at < |list.used| then list.used[at] else NIL)
        invariant forall i :: 0 <= i < at ==> s[i].key != key
        decreases |list.used| - at
      {
        list.Around(at);
        assert s[at] == items[current];
        current := list.next[current];
        at := at + 1;
      }
    }

    method SearchChain(key: K) returns (current: int, ghost at: nat)
      requires Valid() && hashing
      ensures Valid() && at == Locate(Contents(), key)
      ensures current == (if Locate(Contents(), key) < |list.used| then list.used[Locate(Contents(), key)] else NIL)
    {
      hide Lists, Chains, BucketIs, DistinctKeys;
      var h := dohash(key);
      ghost var bucket := index.Bucket(h);
      BucketRange(bucket, h, items[..], list.used, dohash);
      ghost var c := 0;
      index.ChainStep(h, c);
      var link := index.heads[h];
      while link != NIL && items[index.entry[link]].key != key
        invariant c <= |bucket| && link == (if c < |bucket| then index.chains[h][c] else NIL)
        invariant c < |bucket| ==> 0 <= link < index.entry.Length && index.entry[link] == bucket[c]
        invariant forall i :: 0 <= i < c ==> items[bucket[i]].key != key
        decreases |bucket| - c
      {
        index.ChainStep(h, c);
        link := index.next[link];
        c := c + 1;
        index.ChainStep(h, c);
      }
      at := Locate(Contents(), key);
      if link != NIL {
        current := index.entry[link];
        ChainHit(bucket, h, items[..], list.used, dohash, key, c);
      } else {
        current := NIL;
        ChainMiss(bucket, h, items[..], list.used, dohash, key);
      }
    }

    /** `ntfs_fetch_cache`: the entry found, if any, becomes the most recent one. */
    method Fetch(wanted: K) returns (current: int)
      requires Valid()
      modifies this`readCount, this`hitCount, list, list.next, list.prev
      ensures Valid() && Contents() == Fetched(old(Contents()), wanted)
      ensures (current != NIL) == (Locate(old(Contents()), wanted) < |old(Contents())|)
      ensures current != NIL ==> 0 <= current < capacity && items[current].key == wanted
      ensures readCount == old(readCount) + 1 && hitCount == old(hitCount) + (if current != NIL then 1 else 0)
    {
      hide Lists, Chains, BucketIs, DistinctKeys, Fetched, Cut, Without, Distinct;
      ghost var at;
      current, at := Search(wanted);
      if current != NIL {
        ToFront(current, at, wanted);
        hitCount := hitCount + 1;
      }
      FetchedNothing(Contents(), wanted);
      readCount := readCount + 1;
    }

    method ToFront(current: nat, ghost at: nat, ghost wanted: K)
      requires Valid() && at < |list.used| && current == list.used[at] && at == Locate(Contents(), wanted)
      modifies list, list.next, list.prev
      ensures Valid() && Contents() == Fetched(old(Contents()), wanted)
    {
      hide Lists, Chains, BucketIs, DistinctKeys, Fetched, Cut, Without, Distinct;
      ghost var used, s := list.used, Contents();
      list.Ends();
      list.Around(at);
      FetchKeepsDistinct(s, wanted);
      GatherFront(items[..], used, at);
      FetchedIs(s, wanted);
      if list.prev[current] != NIL {
        list.Unlink(current, at);
        list.PushFront(current);
      } else {
        FrontAlready(used);
      }
      if hashing {
        forall b | 0 <= b < index.heads.Length
          ensures BucketIs(index.Bucket(b), b, items[..], list.used, dohash)
        {
          BucketSame(index.Bucket(b), b, items[..], used, dohash, at);
        }
      }
    }

    /** Take an entry out of the list in use and out of its hash chain, which never fails. */
    method Detach(current: nat, ghost at: nat) returns (ghost link: nat)
      requires Valid() && at < |list.used| && current == list.used[at]
      modifies list, list.next, list.prev, index, index.next, index.heads, this`hashing
      ensures Holds(1) && hashing == old(hashing) && list.used == Without(old(list.used), at)
              && list.spare == old(list.spare)
      ensures current < capacity && current !in list.used && current !in list.spare
      ensures Contents() == Cut(old(Contents()), at)
      ensures hashing ==> var h := dohash(items[current].key);
                |index.chains| == |old(index.chains)| && link < |old(index.chains)[h]|
                    && index.chains[h] == Without(old(index.chains)[h], link)
                && link < |old(index.Bucket(h))| && old(index.Bucket(h))[link] == current
    {
      hide Lists, Chains, BucketIs, DistinctKeys, Cut, Without, Distinct;
      ghost var used, s := list.used, Contents();
      list.Ends();
      GatherFront(items[..], used, at);
      CutDistinct(s, at);
      link := 0;
      list.Unlink(current, at);
      if hashing {
        link := DropHash(current, used, at);
      }
    }

    /** The call of `drophashindex` for an entry in use. */
    method DropHash(current: nat, ghost used: seq<nat>, ghost at: nat) returns (ghost link: nat)
      requires Separate() && index.Valid() && hashing && at < |used| && used[at] == current && Distinct(used)
      requires current < items.Length && 0 <= dohash(items[current].key) < index.heads.Length
      requires forall b :: 0 <= b < index.heads.Length ==> BucketIs(index.Bucket(b), b, items[..], used, dohash)
      modifies index, index.next, index.heads, this`hashing
      ensures index.Valid() && hashing && |index.spare| == |old(index.spare)| + 1
      ensures forall b :: 0 <= b < index.heads.Length ==>
                BucketIs(index.Bucket(b), b, items[..], Without(used, at), dohash)
      ensures var h := dohash(items[current].key);
              |index.chains| == |old(index.chains)| && h < |index.chains| && link < |old(index.chains)[h]|
              && index.chains[h] == Without(old(index.chains)[h], link)
              && link < |old(index.Bucket(h))| && old(index.Bucket(h))[link] == current
    {
      hide Chains, BucketIs, Cut, Without, Distinct;
      var h := dohash(items[current].key);
      BucketHas(index.Bucket(h), h, items[..], used, dohash, at);
      index.ChainStep(h, 0);
      var ok;
      ok, link := index.Drop(current, h);
      forall b | 0 <= b < index.heads.Length
        ensures BucketIs(index.Bucket(b), b, items[..], Without(used, at), dohash)
      {
        BucketRemove(old(index.Bucket(b)), b, items[..], used, dohash, at, link);
      }
      hashing := ok;
    }

    /** `ntfs_enter_cache`: a key already present is left alone, otherwise the item goes into a free entry,
        or into the oldest one, and becomes the most recent. */
    method Enter(item: Item<K, D>) returns (current: int)
      requires Valid()
      modifies this`hashing, this`writeCount, list, list.next, list.prev, items, index, index.next, index.entry,
               index.heads
      ensures Valid() && hashing == old(hashing) && Contents() == Entered(old(Contents()), item, capacity)
      ensures 0 <= current < capacity && items[current].key == item.key
      ensures writeCount == old(writeCount) + 1
    {
      hide Holds, Cut, Entered;
      Sizes();
      ghost var at;
      current, at := Search(item.key);
      EnteredIs(Contents(), item, capacity);
      if current == NIL {
        current := EnterNew(item);
      } else {
        FoundItem(item.key, current);
      }
      writeCount := writeCount + 1;
    }

    method EnterNew(item: Item<K, D>) returns (current: nat)
      requires Valid() && InRange() && capacity > 0 && |Contents()| <= capacity
               && Locate(Contents(), item.key) == |Contents()|
      modifies list, list.next, list.prev, items, index, index.next, index.entry, index.heads, this`hashing
      ensures Valid() && hashing == old(hashing) && Contents() == Entered(old(Contents()), item, capacity)
      ensures current < capacity == items.Length && items[current].key == item.key
    {
      hide Holds, Cut, Entered, Gather, Locate;
      EnteredIs(Contents(), item, capacity);
      current := MakeRoom();
      Install(current, item);
      Sizes();
    }

    /** What the search found has the key. */
    lemma {:induction false} FoundItem(key: K, current: int)
      requires Valid() && InRange() && Locate(Contents(), key) < |Contents()| == |list.used|
               && current == list.used[Locate(Contents(), key)]
      ensures 0 <= current < capacity == items.Length && items[current].key == key
    {
      hide Lists, Chains, Buckets, DistinctKeys;
    }

    lemma {:induction false} Sizes()
      requires Valid()
      ensures InRange() && |list.used| <= capacity && capacity >= 2 && items.Length == capacity
    {
    }

    /** A free entry, or else the oldest one. */
    method MakeRoom() returns (current: nat)
      requires Valid()
      modifies list, list.next, list.prev, index, index.next, index.heads, this`hashing
      ensures Holds(1) && hashing == old(hashing) && current < capacity && current !in list.used
              && current !in list.spare
      ensures var s := old(Contents()); Contents() == if |s| < capacity then s else Cut(s, |s| - 1)
    {
      hide Lists, Chains, BucketIs, DistinctKeys, Cut, Without, Distinct;
      list.Ends();
      if list.free != NIL {
        current := list.TakeFree();
      } else {
        current := list.oldest;
        ghost var _ := Detach(current, |list.used| - 1);
      }
    }

    /** Fill an entry that is in no list, make it the most recent one and give it a hash link. */
    method Install(current: nat, item: Item<K, D>)
      requires Holds(1) && current < capacity && current !in list.used && current !in list.spare
      requires forall i :: 0 <= i < |Contents()| ==> Contents()[i].key != item.key
      modifies list, list.next, list.prev, items, index, index.next, index.entry, index.heads, this`hashing
      ensures Valid() && hashing == old(hashing) && Contents() == [item] + old(Contents())
      ensures items[current] == item
    {
      hide Lists, Chains, BucketIs, DistinctKeys, Cut, Without, Distinct;
      ghost var used, was := list.used, items[..];
      list.Ends();
      list.PushFront(current);
      items[current] := item;
      assert items[..] == was[current := item];
      GatherNew(was, used, current, item);
      ConsDistinct(Gather(was, used), item);
      if hashing {
        InsertHash(current, item, was, used);
      }
    }

    /** The call of `inserthashindex` for a new entry. */
    method InsertHash(current: nat, item: Item<K, D>, ghost was: seq<Item<K, D>>, ghost used: seq<nat>)
      requires Separate() && index.Valid() && hashing && index.spare != []
      requires current < |was| && current !in used && items[..] == was[current := item]
      requires 0 <= dohash(item.key) < index.heads.Length
      requires forall b :: 0 <= b < index.heads.Length ==> BucketIs(index.Bucket(b), b, was, used, dohash)
      modifies index, index.next, index.entry, index.heads, this`hashing
      ensures index.Valid() && hashing && |index.spare| == |old(index.spare)| - 1
      ensures forall b :: 0 <= b < index.heads.Length ==>
                BucketIs(index.Bucket(b), b, items[..], [current] + used, dohash)
    {
      hide Chains, BucketIs;
      forall b | 0 <= b < index.heads.Length
        ensures BucketIs(if dohash(item.key) == b then [current] + index.Bucket(b) else index.Bucket(b), b,
                         was[current := item], [current] + used, dohash)
      {
        BucketAdd(index.Bucket(b), b, was, used, dohash, current, item);
      }
      var ok := index.Insert(current, dohash(items[current].key));
      hashing := ok;
    }

    /** Drop the hash link, then `do_invalidate`: the entry goes to the free list. */
    method Discard(current: nat, ghost at: nat) returns (ghost link: nat)
      requires Valid() && at < |list.used| && current == list.used[at]
      modifies list, list.next, list.prev, index, index.next, index.heads, this`hashing
      ensures Valid() && hashing == old(hashing) && list.used == Without(old(list.used), at)
      ensures Contents() == Cut(old(Contents()), at)
      ensures hashing ==> var h := dohash(items[current].key);
                |index.chains| == |old(index.chains)| && link < |old(index.chains)[h]|
                    && index.chains[h] == Without(old(index.chains)[h], link)
                && link < |old(index.Bucket(h))| && old(index.Bucket(h))[link] == current
    {
      hide Lists, Chains, BucketIs, DistinctKeys, Cut, Without, Distinct;
      link := Detach(current, at);
      list.PushFree(current);
    }

    /** `ntfs_remove_cache`. */
    method Remove(current: nat, ghost at: nat) returns (count: nat)
      requires Valid() && at < |list.used| && current == list.used[at]
      modifies list, list.next, list.prev, index, index.next, index.heads, this`hashing
      ensures Valid() && hashing == old(hashing) && Contents() == Cut(old(Contents()), at) && count == 1
    {
      ghost var _ := Discard(current, at);
      count := 1;
    }

    /** `ntfs_invalidate_cache`: without hashing, or when told not to hash, every entry in use is examined,
        otherwise only the chain of the given hash. */
    method Invalidate(doomed: Item<K, D> -> bool, h: int, nohash: bool) returns (count: nat)
      requires Valid()
      requires hashing && !nohash ==> 0 <= h < index.heads.Length && forall x :: doomed(x) ==> dohash(x.key) == h
      modifies list, list.next, list.prev, index, index.next, index.heads, this`hashing
      ensures Valid() && hashing == old(hashing)
      ensures Contents() == Kept(old(Contents()), doomed) && count == |old(Contents())| - |Contents()|
    {
      hide Lists, Chains, BucketIs, DistinctKeys, Cut, Without, Distinct, Kept;
      if !nohash && hashing {
        count := InvalidateChain(doomed, h);
      } else {
        count := InvalidateList(doomed);
      }
    }

    method InvalidateList(doomed: Item<K, D> -> bool) returns (count: nat)
      requires Valid()
      modifies list, list.next, list.prev, index, index.next, index.heads, this`hashing
      ensures Valid() && hashing == old(hashing)
      ensures Contents() == Kept(old(Contents()), doomed) && count == |old(Contents())| - |Contents()|
    {
      hide Lists, Chains, BucketIs, DistinctKeys, Cut, Without, Distinct, Kept, Buckets;
      count := 0;
      ghost var at := 0;
      list.Ends();
      var current := list.most;
      while current != NIL
        invariant Valid() && hashing == old(hashing)
        invariant at <= |list.used| && current == (if at < |list.used| then list.used[at] else NIL)
        invariant forall i :: 0 <= i < at ==> !doomed(Contents()[i])
        invariant Kept(Contents(), doomed) == Kept(old(Contents()), doomed) && count == |old(Contents())| - |Contents()|
        decreases |list.used| - at
      {
        list.Around(at);
        var next := list.next[current];
        if doomed(items[current]) {
          DiscardAt(doomed, current, at);
          count := count + 1;
        } else {
          at := at + 1;
        }
        current := next;
      }
      KeptAll(Contents(), doomed);
    }

    /** Discard the doomed entry at place `at`: the entries before it stay, the next one takes its place. */
    method DiscardAt(ghost doomed: Item<K, D> -> bool, current: nat, ghost at: nat)
      requires Valid() && at < |list.used| && current == list.used[at] && doomed(Contents()[at])
      modifies list, list.next, list.prev, index, index.next, index.heads, this`hashing
      ensures Valid() && hashing == old(hashing) && |list.used| == |Contents()| == |old(Contents())| - 1 >= at
      ensures at < |list.used| ==> list.used[at] == old(list.used)[at + 1]
      ensures forall i :: 0 <= i < at ==> Contents()[i] == old(Contents())[i]
      ensures Kept(Contents(), doomed) == Kept(old(Contents()), doomed)
    {
      hide Lists, Chains, BucketIs, DistinctKeys, Cut, Without, Distinct, Kept, Buckets;
      ghost var used, s := list.used, Contents();
      ghost var _ := Discard(current, at);
      KeptCut(s, doomed, at);
      WithoutAt(used, at);
      CutAt(s, at);
    }

    method InvalidateChain(doomed: Item<K, D> -> bool, h: int) returns (count: nat)
      requires Valid() && hashing && 0 <= h < index.heads.Length && forall x :: doomed(x) ==> dohash(x.key) == h
      modifies list, list.next, list.prev, index, index.next, index.heads, this`hashing
      ensures Valid() && hashing == old(hashing)
      ensures Contents() == Kept(old(Contents()), doomed) && count == |old(Contents())| - |Contents()|
    {
      hide Lists, Chains, BucketIs, DistinctKeys, Cut, Without, Distinct, Kept;
      count := 0;
      ghost var c := 0;
      index.ChainStep(h, c);
      var link := index.heads[h];
      while link != NIL
        invariant Valid() && hashing && |index.chains| == index.heads.Length
        invariant c <= |index.chains[h]| && link == (if c < |index.chains[h]| then index.chains[h][c] else NIL)
        invariant |index.Bucket(h)| == |index.chains[h]|
        invariant forall i :: 0 <= i < c ==> 0 <= index.Bucket(h)[i] < capacity && !doomed(items[index.Bucket(h)[i]])
        invariant Kept(Contents(), doomed) == Kept(old(Contents()), doomed) && count == |old(Contents())| - |Contents()|
        decreases |index.chains[h]| - c
      {
        index.ChainStep(h, c);
        var current := index.entry[link];
        BucketRange(index.Bucket(h), h, items[..], list.used, dohash);
        link := index.next[link];
        if doomed(items[current]) {
          count := count + 1;
          DiscardLink(doomed, h, current, c);
        } else {
          c := c + 1;
        }
        index.ChainStep(h, c);
      }
      ChainClean(index.Bucket(h), h, items[..], list.used, dohash, doomed);
      KeptAll(Contents(), doomed);
    }

    /** Only items of the given hash, which is one of the table, are selected. */
    ghost predicate Selects(c: Call<K, D>)
      requires c.Invalidate?
    {
      0 <= c.hash < index.heads.Length && forall x :: c.doomed(x) ==> dohash(x.key) == c.hash
    }

    /** Find the entry of a key and remove it. */
    method RemoveKey(key: K)
      requires Valid()
      modifies list, list.next, list.prev, index, index.next, index.heads, this`hashing
      ensures Valid() && hashing == old(hashing) && Contents() == Removed(old(Contents()), key)
    {
      hide Holds, Cut, Locate;
      Sizes();
      ghost var at;
      var current;
      current, at := Search(key);
      if current != NIL {
        var _ := Remove(current, at);
      }
    }

    /** Any run of calls does to the cache what it does to the bounded sequence. */
    method Replay(calls: seq<Call<K, D>>)
      requires Valid()
      requires forall i :: 0 <= i < |calls| && calls[i].Invalidate? && hashing && !calls[i].nohash ==> Selects(calls[i])
      modifies this, Repr()
      ensures Valid() && hashing == old(hashing) && Contents() == Run(old(Contents()), calls, capacity)
    {
      hide Holds, After, Selects;
      Sizes();
      var i := 0;
      while i < |calls|
        invariant i <= |calls| && Valid() && hashing == old(hashing) && InRange()
        invariant Run(Contents(), calls[i..], capacity) == Run(old(Contents()), calls, capacity)
      {
        RunStep(Contents(), calls, i, capacity);
        Apply(calls[i]);
        Sizes();
        i := i + 1;
      }
    }

    method Apply(c: Call<K, D>)
      requires Valid() && InRange() && (c.Invalidate? && hashing && !c.nohash ==> Selects(c))
      modifies this, Repr()
      ensures Valid() && InRange() && hashing == old(hashing) && Contents() == After(old(Contents()), c, capacity)
    {
      hide Holds, Fetched, Entered, Kept, Cut, Locate, Removed;
      match c {
        case Fetch(key) =>
          var _ := Fetch(key);
        case Enter(item) =>
          var _ := Enter(item);
        case Invalidate(doomed, hash, nohash) =>
          var _ := Invalidate(doomed, hash, nohash);
        case Remove(key) =>
          RemoveKey(key);
      }
      Sizes();
    }

    /** One doomed entry found in a chain. */
    method DiscardLink(ghost doomed: Item<K, D> -> bool, h: nat, current: int, ghost c: nat)
      requires Valid() && hashing && h < index.heads.Length && c < |index.Bucket(h)| && index.Bucket(h)[c] == current
      requires 0 <= current < capacity && doomed(items[current])
      modifies list, list.next, list.prev, index, index.next, index.heads, this`hashing
      ensures Valid() && hashing && |old(index.chains)| == |index.chains| == index.heads.Length
      ensures |index.Bucket(h)| == |index.chains[h]| == |old(index.chains)[h]| - 1
      ensures c < |index.chains[h]| ==> index.chains[h][c] == old(index.chains)[h][c + 1]
      ensures forall i :: 0 <= i < c ==> index.Bucket(h)[i] == old(index.Bucket(h))[i]
      ensures Kept(Contents(), doomed) == Kept(old(Contents()), doomed) && |Contents()| == |old(Contents())| - 1
    {
      hide Lists, Chains, BucketIs, DistinctKeys, Cut, Without, Distinct, Kept;
      ghost var s, bucket := Contents(), index.Bucket(h);
      index.ChainStep(h, c);
      index.ChainRange(h);
      ghost var at := BucketSlot(bucket, h, items[..], list.used, dohash, c);
      ghost var link := Discard(current, at);
      BucketOnce(bucket, h, items[..], old(list.used), dohash, c, link);
      KeptCut(s, doomed, at);
      index.ChainStep(h, 0);
      WithoutAt(old(index.chains)[h], c);
      EntriesPrefix(index.entry[..], old(index.chains)[h], c);
    }
  }

  lemma {:induction false} RunStep<K, D>(s: seq<Item<K, D>>, calls: seq<Call<K, D>>, i: nat, capacity: nat)
    requires i < |calls|
    ensures Run(s, calls[i..], capacity) == Run(After(s, calls[i], capacity), calls[i + 1..], capacity)
  {
    assert calls[i..][0] == calls[i] && calls[i..][1..] == calls[i + 1..];
  }

  lemma {:induction false} BucketSlot<K, D>(bucket: seq<int>, b: int, items: seq<Item<K, D>>, used: seq<nat>,
                                            hash: K -> int, c: nat) returns (at: nat)
    requires BucketIs(bucket, b, items, used, hash) && c < |bucket|
    ensures at < |used| && used[at] == bucket[c] && used[at] < |items| && hash(items[used[at]].key) == b
  {
    assert bucket[c] in bucket;
    at :| 0 <= at < |used| && used[at] == bucket[c];
  }

  lemma {:induction false} BucketOnce<K, D>(bucket: seq<int>, b: int, items: seq<Item<K, D>>, used: seq<nat>,
                                            hash: K -> int, c: nat, d: nat)
    requires BucketIs(bucket, b, items, used, hash) && c < |bucket| && d < |bucket| && bucket[c] == bucket[d]
    ensures c == d
  {
  }

  lemma {:induction false} ChainClean<K(!new), D(!new)>(bucket: seq<int>, b: int, items: seq<Item<K, D>>,
                                                        used: seq<nat>, hash: K -> int, doomed: Item<K, D> -> bool)
    requires BucketIs(bucket, b, items, used, hash) && forall i :: 0 <= i < |used| ==> used[i] < |items|
    requires forall x :: doomed(x) ==> hash(x.key) == b
    requires forall i :: 0 <= i < |bucket| ==> 0 <= bucket[i] < |items| && !doomed(items[bucket[i]])
    ensures forall i :: 0 <= i < |used| ==> !doomed(Gather(items, used)[i])
  {
    forall i | 0 <= i < |used|
      ensures !doomed(items[used[i]])
    {
      assert used[i] in bucket ==> !doomed(items[used[i]]);
    }
  }

  lemma {:induction false} WithoutAt(used: seq<nat>, at: nat)
    requires at < |used|
    ensures at < |used| - 1 ==> Without(used, at)[at] == used[at + 1]
  {
  }

  lemma {:induction false} EntriesPrefix(entry: seq<int>, chain: seq<nat>, at: nat)
    requires at < |chain| && forall i :: 0 <= i < |chain| ==> chain[i] < |entry|
    ensures forall i :: 0 <= i < |chain| - 1 ==> Without(chain, at)[i] < |entry|
    ensures forall i :: 0 <= i < at ==> Entries(entry, Without(chain, at))[i] == Entries(entry, chain)[i]
  {
  }

  lemma {:induction false} CutAt<T>(s: seq<T>, at: nat)
    requires at < |s|
    ensures forall i :: 0 <= i < at ==> Cut(s, at)[i] == s[i]
  {
  }

  lemma {:induction false} EnteredIs<K, D>(s: seq<Item<K, D>>, item: Item<K, D>, capacity: nat)
    requires |s| <= capacity && capacity > 0
    ensures Entered(s, item, capacity)
            == (if Locate(s, item.key) < |s| then s else [item] + (if |s| < capacity then s else Cut(s, |s| - 1)))
    ensures var kept := if |s| < capacity then s else Cut(s, |s| - 1);
            Locate(s, item.key) == |s| ==> forall i :: 0 <= i < |kept| ==> kept[i].key != item.key
  {
  }

  lemma {:induction false} GatherNew<T>(items: seq<T>, used: seq<nat>, x: nat, item: T)
    requires x < |items| && x !in used && forall i :: 0 <= i < |used| ==> used[i] < |items|
    ensures forall i :: 0 <= i < |used| + 1 ==> ([x] + used)[i] < |items|
    ensures Gather(items[x := item], [x] + used) == [item] + Gather(items, used)
  {
  }

  lemma {:induction false} ConsDistinct<K, D>(s: seq<Item<K, D>>, item: Item<K, D>)
    requires DistinctKeys(s) && forall i :: 0 <= i < |s| ==> s[i].key != item.key
    ensures DistinctKeys([item] + s)
  {
  }

  lemma {:induction false} BucketHas<K, D>(bucket: seq<int>, b: int, items: seq<Item<K, D>>, used: seq<nat>,
                                           hash: K -> int, at: nat)
    requires BucketIs(bucket, b, items, used, hash) && at < |used| && used[at] < |items|
             && hash(items[used[at]].key) == b
    ensures used[at] in bucket
  {
  }

  lemma {:induction false} CutDistinct<K, D>(s: seq<Item<K, D>>, at: nat)
    requires DistinctKeys(s) && at < |s|
    ensures DistinctKeys(Cut(s, at))
  {
  }

  lemma {:induction false} FrontAlready(used: seq<nat>)
    requires used != []
    ensures [used[0]] + Without(used, 0) == used
  {
  }

  lemma {:induction false} FetchedIs<K, D>(s: seq<Item<K, D>>, key: K)
    requires Locate(s, key) < |s|
    ensures Fetched(s, key) == [s[Locate(s, key)]] + Cut(s, Locate(s, key))
  {
  }

  /** Moving slots moves the items. */
  lemma {:induction false} GatherFront<T>(items: seq<T>, used: seq<nat>, at: nat)
    requires at < |used| && forall i :: 0 <= i < |used| ==> used[i] < |items|
    ensures |Without(used, at)| == |used| - 1 && forall i :: 0 <= i < |used| - 1 ==> Without(used, at)[i] < |items|
    ensures Gather(items, Without(used, at)) == Cut(Gather(items, used), at)
    ensures Gather(items, [used[at]] + Without(used, at)) == [items[used[at]]] + Cut(Gather(items, used), at)
  {
  }

  lemma {:induction false} BucketRange<K, D>(bucket: seq<int>, b: int, items: seq<Item<K, D>>, used: seq<nat>,
                                             hash: K -> int)
    requires BucketIs(bucket, b, items, used, hash)
    ensures forall i :: 0 <= i < |bucket| ==> 0 <= bucket[i] < |items|
  {
    assert forall i :: 0 <= i < |bucket| ==> bucket[i] in bucket;
  }

  lemma {:induction false} ChainHit<K, D>(bucket: seq<int>, b: int, items: seq<Item<K, D>>, used: seq<nat>,
                                          hash: K -> int, key: K, c: nat)
    requires BucketIs(bucket, b, items, used, hash) && forall i :: 0 <= i < |used| ==> used[i] < |items|
    requires c < |bucket| && 0 <= bucket[c] < |items| && items[bucket[c]].key == key
             && DistinctKeys(Gather(items, used))
    ensures var at := Locate(Gather(items, used), key);
            at < |used| && used[at] == bucket[c]
  {
    assert bucket[c] in bucket;
    var i :| 0 <= i < |used| && used[i] == bucket[c];
    var s := Gather(items, used);
    assert s[i].key == key;
  }

  lemma {:induction false} ChainMiss<K, D>(bucket: seq<int>, b: int, items: seq<Item<K, D>>, used: seq<nat>,
                                           hash: K -> int, key: K)
    requires BucketIs(bucket, b, items, used, hash) && forall i :: 0 <= i < |used| ==> used[i] < |items|
    requires hash(key) == b && forall i :: 0 <= i < |bucket| ==> 0 <= bucket[i] < |items| && items[bucket[i]].key != key
    ensures Locate(Gather(items, used), key) == |used|
  {
    var s := Gather(items, used);
    forall i | 0 <= i < |used|
      ensures s[i].key != key
    {
      assert s[i] == items[used[i]];
      assert used[i] in bucket ==> items[used[i]].key != key;
    }
  }
}

/** The list part of an LRU cache header (`cache.c`): the entries in use as a doubly linked list, most
    recent first, and the free entries as a singly linked list over the same `next` links. */
module LruList {
  import opened Sequences
  import opened LinkedPool

  /** The links `next`, `previous` hold exactly the lists `used` and `spare`, which share no slot. */
  ghost predicate Lists(next: seq<int>, prev: seq<int>, most: int, oldest: int, free: int, used: seq<nat>,
                        spare: seq<nat>) {
    && |next| == |prev|
    && Linked(next, most, used) && LinkedBack(prev, oldest, used) && Linked(next, free, spare)
    && (forall i, j :: 0 <= i < |used| && 0 <= j < |spare| ==> used[i] != spare[j])
  }

  /** Unlinking slot number `at` of the list in use. */
  lemma {:induction false} ListsUnlink(next: seq<int>, prev: seq<int>, most: int, oldest: int, free: int,
                                       used: seq<nat>, spare: seq<nat>, at: nat)
    requires Lists(next, prev, most, oldest, free, used, spare) && at < |used|
    ensures var x := used[at];
            && x < |next| && prev[x] == (if at > 0 then used[at - 1] else NIL)
                && next[x] == (if at + 1 < |used| then used[at + 1] else NIL)
            && (at > 0 ==> used[at - 1] < |next|) && (at + 1 < |used| ==> used[at + 1] < |next|)
            && Lists(if at > 0 then next[used[at - 1] := next[x]] else next,
                     if at + 1 < |used| then prev[used[at + 1] := prev[x]] else prev,
                     if at > 0 then most else next[x], if at + 1 < |used| then oldest else prev[x],
                     free, Without(used, at), spare)
  {
    LinksAround(next, prev, most, oldest, used, at);
    hide Linked, LinkedBack, Distinct, Without;
    assert Distinct(used) by { LinkedDistinct(next, most, used); }
    LinkedUnlink(next, most, used, at);
    BackUnlink(prev, oldest, used, at);
    WithoutMembers(used, at);
    var x := used[at];
    var next' := if at > 0 then next[used[at - 1] := next[x]] else next;
    LinkedFrame(next, next', free, spare);
    var rest := Without(used, at);
    assert forall i :: 0 <= i < |rest| ==> rest[i] in used;
  }

  lemma {:induction false} LinksAround(next: seq<int>, prev: seq<int>, most: int, oldest: int, used: seq<nat>, at: nat)
    requires |next| == |prev| && Linked(next, most, used) && LinkedBack(prev, oldest, used) && at < |used|
    ensures var x := used[at];
            && x < |next| && prev[x] == (if at > 0 then used[at - 1] else NIL)
                && next[x] == (if at + 1 < |used| then used[at + 1] else NIL)
            && (at > 0 ==> used[at - 1] < |next|) && (at + 1 < |used| ==> used[at + 1] < |next|)
  {
    var after := at + 1;
    if after < |used| {
      assert next[used[at]] == used[after];
    }
    if at > 0 {
      var before := at - 1;
      assert prev[used[at]] == used[before];
    }
  }

  /** Linking a slot that is in neither list at the head of the list in use. */
  lemma {:induction false} ListsPush(next: seq<int>, prev: seq<int>, most: int, oldest: int, free: int, used: seq<nat>,
                                     spare: seq<nat>, x: nat)
    requires Lists(next, prev, most, oldest, free, used, spare) && x < |next| && x !in used && x !in spare
    ensures (if used == [] then most == NIL else most == used[0] && 0 <= most < |next|)
    ensures var p := prev[x := NIL];
            Lists(next[x := most], if used == [] then p else p[most := x], x, if used == [] then x else oldest,
                  free, [x] + used, spare)
  {
    LinkedPush(next, most, used, x);
    BackPush(prev, oldest, used, x);
    LinkedFrame(next, next[x := most], free, spare);
  }

  /** Putting a slot that is in neither list on the free list. */
  lemma {:induction false} ListsFree(next: seq<int>, prev: seq<int>, most: int, oldest: int, free: int, used: seq<nat>,
                                     spare: seq<nat>, x: nat)
    requires Lists(next, prev, most, oldest, free, used, spare) && x < |next| && x !in used && x !in spare
    ensures Lists(next[x := free], prev, most, oldest, x, used, [x] + spare)
  {
    LinkedPush(next, free, spare, x);
    LinkedFrame(next, next[x := free], most, used);
    var s := [x] + spare;
    forall i, j | 0 <= i < |used| && 0 <= j < |s|
      ensures used[i] != s[j]
    {
      if j > 0 {
        assert s[j] == spare[j - 1];
      }
    }
  }

  lemma {:induction false} ListsTake(next: seq<int>, prev: seq<int>, most: int, oldest: int, free: int, used: seq<nat>,
                                     spare: seq<nat>)
    requires Lists(next, prev, most, oldest, free, used, spare)
    ensures free == (if spare == [] then NIL else spare[0])
    ensures spare != [] ==> spare[0] < |next| && spare[0] !in used && spare[0] !in spare[1..]
                            && Lists(next, prev, most, oldest, next[free], used, spare[1..])
  {
    if spare != [] {
      LinkedPop(next, free, spare);
    }
  }

  lemma {:induction false} RemovedIsGone(used: seq<nat>, spare: seq<nat>, at: nat)
    requires at < |used| && Distinct(used)
    requires forall i, j :: 0 <= i < |used| && 0 <= j < |spare| ==> used[i] != spare[j]
    ensures used[at] !in Without(used, at) && used[at] !in spare
  {
    WithoutMembers(used, at);
  }

  class EntryList {
    const next: array<int>
    const prev: array<int>
    var most: int
    var oldest: int
    var free: int
    /** The slots in use, most recent first, and the free ones. */
    ghost var used: seq<nat>
    ghost var spare: seq<nat>

    ghost predicate Valid()
      reads this, next, prev
    {
      next != prev && next.Length == prev.Length && Lists(next[..], prev[..], most, oldest, free, used, spare)
    }

    constructor (count: nat)
      ensures Valid() && fresh(next) && fresh(prev) && next.Length == count
      ensures used == [] && |spare| == count
    {
      next := new int[count](i => if i + 1 < count then i + 1 else NIL);
      prev := new int[count](_ => NIL);
      most, oldest, free := NIL, NIL, if count > 0 then 0 else NIL;
      used, spare := [], seq(count, i => i);
    }

    /** Take entry number `at` of the list in use out of the list. */
    method Unlink(current: nat, ghost at: nat)
      requires Valid() && at < |used| && used[at] == current
      modifies this`most, this`oldest, this`used, next, prev
      ensures Valid() && used == Without(old(used), at) && current < next.Length && current !in used
              && current !in spare
    {
      hide Linked, LinkedBack, Without;
      ghost var n, p := next[..], prev[..];
      ListsUnlink(n, p, most, oldest, free, used, spare, at);
      LinkedDistinct(n, most, used);
      RemovedIsGone(used, spare, at);
      var previous := prev[current];
      var following := next[current];
      if following != NIL {
        prev[following] := previous;
      } else {
        oldest := previous;
      }
      if previous != NIL {
        next[previous] := following;
      } else {
        most := following;
      }
      assert next[..] == if at > 0 then n[used[at - 1] := n[current]] else n;
      assert prev[..] == if at + 1 < |used| then p[used[at + 1] := p[current]] else p;
      used := Without(used, at);
    }

    /** Link an entry as the head of the list in use. */
    method PushFront(current: nat)
      requires Valid() && current < next.Length && current !in used && current !in spare
      modifies this`most, this`oldest, this`used, next, prev
      ensures Valid() && used == [current] + old(used)
    {
      hide Linked, LinkedBack;
      ghost var n, p := next[..], prev[..];
      ListsPush(n, p, most, oldest, free, used, spare, current);
      if most == NIL {
        oldest := current;
      }
      next[current] := most;
      prev[current] := NIL;
      assert prev[..] == p[current := NIL];
      if most != NIL {
        prev[most] := current;
      }
      assert next[..] == n[current := most];
      assert prev[..] == if used == [] then p[current := NIL] else p[current := NIL][most := current];
      most := current;
      used := [current] + used;
    }

    method PushFree(current: nat)
      requires Valid() && current < next.Length && current !in used && current !in spare
      modifies this`free, this`spare, next
      ensures Valid() && spare == [current] + old(spare)
    {
      hide Linked, LinkedBack;
      ghost var n := next[..];
      ListsFree(n, prev[..], most, oldest, free, used, spare, current);
      next[current] := free;
      assert next[..] == n[current := free];
      free := current;
      spare := [current] + spare;
    }

    /** Take the first free entry. */
    method TakeFree() returns (current: nat)
      requires Valid() && free != NIL
      modifies this`free, this`spare
      ensures Valid() && old(spare) != [] && current == old(spare)[0] && spare == old(spare)[1..]
      ensures current < next.Length && current !in used && current !in spare
    {
      hide Linked, LinkedBack;
      ListsTake(next[..], prev[..], most, oldest, free, used, spare);
      current := free;
      free := next[free];
      spare := spare[1..];
    }

    lemma {:induction false} Ends()
      requires Valid()
      ensures free == (if spare == [] then NIL else spare[0]) && most == (if used == [] then NIL else used[0])
      ensures oldest == (if used == [] then NIL else used[|used| - 1])
      ensures forall i :: 0 <= i < |used| ==> used[i] < next.Length
      ensures Distinct(used)
    {
    }

    lemma {:induction false} Around(at: nat)
      requires Valid() && at < |used|
      ensures used[at] < next.Length && prev[used[at]] == (if at > 0 then used[at - 1] else NIL)
      ensures next[used[at]] == (if at + 1 < |used| then used[at + 1] else NIL)
    {
      LinksAround(next[..], prev[..], most, oldest, used, at);
    }
  }
}

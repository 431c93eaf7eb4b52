/** The hash part of an LRU cache header (`cache.c`): chains of links over one fixed pool, with a
    list of free links.  A link names a cache entry. */
module HashIndex {
  import opened Sequences
  import opened LinkedPool

  /** Chain `b` starts at `heads[b]`, its links are marked with `b`, those of the free list with -1. */
  ghost predicate Chains(next: seq<int>, heads: seq<int>, free: int, chains: seq<seq<nat>>, spare: seq<nat>,
                         mark: seq<int>) {
    && |chains| == |heads| && |mark| == |next|
    && (forall b :: 0 <= b < |heads| ==> Linked(next, heads[b], chains[b]))
    && (forall b, i :: 0 <= b < |heads| && 0 <= i < |chains[b]| ==> chains[b][i] < |mark| && mark[chains[b][i]] == b)
    && Linked(next, free, spare)
    && (forall i :: 0 <= i < |spare| ==> spare[i] < |mark| && mark[spare[i]] == NIL)
  }

  function Entries(entry: seq<int>, chain: seq<nat>): (r: seq<int>)
    requires forall i :: 0 <= i < |chain| ==> chain[i] < |entry|
  {
    seq(|chain|, i requires 0 <= i < |chain| => entry[chain[i]])
  }

  /** Moving a spare link to the front of chain `b`. */
  lemma {:induction false} ChainsInsert(next: seq<int>, heads: seq<int>, free: int, chains: seq<seq<nat>>,
                                        spare: seq<nat>, mark: seq<int>, b: nat)
    requires Chains(next, heads, free, chains, spare, mark) && b < |heads| && spare != []
    ensures var x := spare[0];
            Chains(next[x := heads[b]], heads[b := x], next[x], chains[b := [x] + chains[b]], spare[1..], mark[x := b])
  {
    var x := spare[0];
    var next' := next[x := heads[b]];
    assert mark[x] == NIL;
    assert x !in chains[b];
    LinkedPush(next, heads[b], chains[b], x);
    LinkedPop(next, free, spare);
    LinkedFrame(next, next', next[x], spare[1..]);
    forall c | 0 <= c < |heads| && c != b
      ensures Linked(next', heads[c], chains[c])
    {
      LinkedFrame(next, next', heads[c], chains[c]);
    }
    var chains' := chains[b := [x] + chains[b]];
    var mark' := mark[x := b];
    forall c, i | 0 <= c < |heads| && 0 <= i < |chains'[c]|
      ensures chains'[c][i] < |mark'| && mark'[chains'[c][i]] == c
    {
      if c == b && i > 0 {
        assert chains'[c][i] == chains[b][i - 1];
      }
    }
  }

  /** Links of chain `b` are in no other chain and not free. */
  lemma {:induction false} ChainsApart(next: seq<int>, heads: seq<int>, free: int, chains: seq<seq<nat>>,
                                       spare: seq<nat>, mark: seq<int>, next': seq<int>, b: nat)
    requires Chains(next, heads, free, chains, spare, mark) && b < |heads| && |next'| == |next|
    requires forall k :: 0 <= k < |next| && next'[k] != next[k] ==> k in chains[b]
    ensures forall c :: 0 <= c < |heads| && c != b ==> Linked(next', heads[c], chains[c])
    ensures Linked(next', free, spare)
  {
    hide Linked;
    assert forall k :: k in chains[b] ==> k < |mark| && mark[k] == b;
    forall c | 0 <= c < |heads| && c != b
      ensures Linked(next', heads[c], chains[c])
    {
      LinkedFrame(next, next', heads[c], chains[c]);
    }
    LinkedFrame(next, next', free, spare);
  }

  lemma {:induction false} MarksAfterDrop(chains: seq<seq<nat>>, mark: seq<int>, b: nat, i: nat)
    requires b < |chains| && i < |chains[b]| && Distinct(chains[b])
    requires forall c, k :: 0 <= c < |chains| && 0 <= k < |chains[c]| ==>
               chains[c][k] < |mark| && mark[chains[c][k]] == c
    ensures var chains', mark' := chains[b := Without(chains[b], i)], mark[chains[b][i] := NIL];
            forall c, k :: 0 <= c < |chains| && 0 <= k < |chains'[c]| ==>
                  chains'[c][k] < |mark| && mark'[chains'[c][k]] == c
  {
    WithoutMembers(chains[b], i);
    var chains', mark' := chains[b := Without(chains[b], i)], mark[chains[b][i] := NIL];
    forall c, k | 0 <= c < |chains| && 0 <= k < |chains'[c]|
      ensures chains'[c][k] < |mark| && mark'[chains'[c][k]] == c
    {
      if c == b {
        assert chains'[b][k] in chains[b];
      }
    }
  }

  /** Moving link number `i` of chain `b` to the free list. */
  lemma {:induction false} ChainsDrop(next: seq<int>, heads: seq<int>, free: int, chains: seq<seq<nat>>,
                                      spare: seq<nat>, mark: seq<int>, b: nat, i: nat)
    requires Chains(next, heads, free, chains, spare, mark) && b < |heads| && i < |chains[b]|
    ensures var x := chains[b][i];
            var next1 := if i > 0 then next[chains[b][i - 1] := next[x]] else next;
            var heads1 := if i > 0 then heads else heads[b := next[x]];
            Chains(next1[x := free], heads1, x, chains[b := Without(chains[b], i)], [x] + spare, mark[x := NIL])
  {
    hide Linked, Distinct, Without;
    var x := chains[b][i];
    var next1 := if i > 0 then next[chains[b][i - 1] := next[x]] else next;
    var heads1 := if i > 0 then heads else heads[b := next[x]];
    var next2 := next1[x := free];
    LinkedDistinct(next, heads[b], chains[b]);
    LinkedUnlink(next, heads[b], chains[b], i);
    WithoutMembers(chains[b], i);
    var rest := Without(chains[b], i);
    assert forall k :: 0 <= k < |rest| ==> rest[k] in chains[b] && rest[k] != x;
    LinkedFrame(next1, next2, heads1[b], rest);
    ChainsApart(next, heads, free, chains, spare, mark, next1, b);
    ChainsApart(next, heads, free, chains, spare, mark, next2, b);
    assert x !in spare;
    LinkedPush(next1, free, spare, x);
    MarksAfterDrop(chains, mark, b, i);
    FreeMarks(spare, mark, x);
  }

  lemma {:induction false} FreeMarks(spare: seq<nat>, mark: seq<int>, x: nat)
    requires x < |mark| && forall i :: 0 <= i < |spare| ==> spare[i] < |mark| && mark[spare[i]] == NIL
    ensures var s, m := [x] + spare, mark[x := NIL];
            forall i :: 0 <= i < |s| ==> s[i] < |m| && m[s[i]] == NIL
  {
  }

  class Index {
    const next: array<int>
    const entry: array<int>
    const heads: array<int>
    var free: int
    ghost var chains: seq<seq<nat>>
    ghost var spare: seq<nat>
    ghost var mark: seq<int>

    ghost predicate Valid()
      reads this, next, entry, heads
    {
      && next != entry && next != heads && entry != heads && next.Length == entry.Length
      && Chains(next[..], heads[..], free, chains, spare, mark)
    }

    /** The entries in bucket `b`, most recently inserted first. */
    ghost function Bucket(b: nat): seq<int>
      requires Valid() && b < heads.Length
      reads this, next, entry, heads
    {
      Entries(entry[..], chains[b])
    }

    /** `buckets` buckets and `count` free links. */
    constructor (count: nat, buckets: nat)
      ensures Valid() && fresh(next) && fresh(entry) && fresh(heads) && next.Length == count && heads.Length == buckets
      ensures |spare| == count && forall b :: 0 <= b < buckets ==> Bucket(b) == []
    {
      next := new int[count](i => if i + 1 < count then i + 1 else NIL);
      entry := new int[count](_ => NIL);
      heads := new int[buckets](_ => NIL);
      free := if count > 0 then 0 else NIL;
      chains := seq(buckets, _ => []);
      spare := seq(count, i => i);
      mark := seq(count, _ => NIL);
    }

    /** `inserthashindex`: put a link to `e` at the top of chain `h`.  It fails, and hashing is to be
        dropped, when the hash is illegal or no link is free. */
    method Insert(e: int, h: int) returns (ok: bool)
      requires Valid()
      modifies this, next, entry, heads
      ensures Valid() && ok == (0 <= h < heads.Length && old(spare) != [])
      ensures |spare| == |old(spare)| - (if ok then 1 else 0)
      ensures forall b :: 0 <= b < heads.Length ==>
                Bucket(b) == (if ok && b == h then [e] + old(Bucket(h)) else old(Bucket(b)))
    {
      hide Linked;
      if !(0 <= h < heads.Length) || free == NIL {
        HeadIs(next[..], free, spare);
        return false;
      }
      HeadIs(next[..], free, spare);
      var link := free;
      ghost var n, hs := next[..], heads[..];
      ChainsInsert(n, hs, free, chains, spare, mark, h);
      free := next[link];
      var first := heads[h];
      next[link] := first;
      entry[link] := e;
      heads[h] := link;
      assert next[..] == n[link := first] && heads[..] == hs[h := link];
      assert forall b, i :: 0 <= b < |chains| && 0 <= i < |chains[b]| ==> chains[b][i] != link;
      chains, spare, mark := chains[h := [link] + chains[h]], spare[1..], mark[link := h];
      ok := true;
    }

    /** `drophashindex`: find the link to `e` in chain `h`, unlink it and put it on the free list.  It
        fails, and hashing is to be dropped, when the hash is illegal or there is no such link. */
    method Drop(e: int, h: int) returns (ok: bool, ghost at: nat)
      requires Valid()
      modifies this, next, heads
      ensures Valid() && ok == (0 <= h < heads.Length && e in old(Bucket(h)))
      ensures |spare| == |old(spare)| + (if ok then 1 else 0)
      ensures ok ==> at < |old(Bucket(h))| && old(Bucket(h))[at] == e
      ensures ok ==> chains == old(chains)[h := Without(old(chains)[h], at)]
      ensures forall b :: 0 <= b < heads.Length ==>
                Bucket(b) == (if ok && b == h then Cut(old(Bucket(h)), at) else old(Bucket(b)))
    {
      hide Linked;
      at := 0;
      if !(0 <= h < heads.Length) {
        return false, 0;
      }
      ghost var chain := chains[h];
      HeadIs(next[..], heads[h], chain);
      var link, previous := heads[h], NIL;
      while link != NIL && entry[link] != e
        invariant at <= |chain| && link == (if at == |chain| then NIL else chain[at])
        invariant previous == (if at == 0 then NIL else chain[at - 1])
        invariant forall k :: 0 <= k < at ==> entry[chain[k]] != e
        invariant Valid() && chain == chains[h] && Linked(next[..], heads[h], chain)
        modifies {}
        decreases |chain| - at
      {
        StepIs(next[..], heads[h], chain, at);
        previous := link;
        link := next[link];
        at := at + 1;
      }
      if link == NIL {
        assert forall k :: 0 <= k < |chain| ==> Bucket(h)[k] != e;
        return false, 0;
      }
      assert Bucket(h)[at] == e;
      Unlink(link, previous, h, at);
      ok := true;
    }

    /** Following chain `h` from its link number `at`. */
    lemma {:induction false} ChainStep(h: nat, at: nat)
      requires Valid() && h < heads.Length && at <= |chains[h]|
      ensures |chains| == heads.Length && |Bucket(h)| == |chains[h]|
      ensures heads[h] == (if chains[h] == [] then NIL else chains[h][0])
      ensures at < |chains[h]| ==> chains[h][at] < next.Length && entry[chains[h][at]] == Bucket(h)[at]
      ensures at < |chains[h]| ==> next[chains[h][at]] == (if at + 1 < |chains[h]| then chains[h][at + 1] else NIL)
    {
      hide Linked;
      HeadIs(next[..], heads[h], chains[h]);
      if at < |chains[h]| {
        StepIs(next[..], heads[h], chains[h], at);
      }
    }

    lemma {:induction false} ChainRange(h: nat)
      requires Valid() && h < heads.Length
      ensures |chains| == heads.Length && forall i :: 0 <= i < |chains[h]| ==> chains[h][i] < entry.Length
    {
    }

    /** Take `link`, number `at` of chain `h`, out of its chain. */
    method Unlink(link: nat, previous: int, h: nat, ghost at: nat)
      requires Valid() && h < heads.Length && at < |chains[h]| && link == chains[h][at]
      requires previous == (if at == 0 then NIL else chains[h][at - 1])
      modifies this, next, heads
      ensures Valid() && |spare| == |old(spare)| + 1 && chains == old(chains)[h := Without(old(chains)[h], at)]
      ensures forall b :: 0 <= b < heads.Length ==>
                Bucket(b) == (if b == h then Cut(old(Bucket(h)), at) else old(Bucket(b)))
    {
      hide Linked;
      ghost var n, hs := next[..], heads[..];
      ChainsDrop(n, hs, free, chains, spare, mark, h, at);
      if previous != NIL {
        next[previous] := next[link];
      } else {
        heads[h] := next[link];
      }
      ghost var next1 := if at > 0 then n[chains[h][at - 1] := n[link]] else n;
      assert next[..] == next1;
      next[link] := free;
      assert next[..] == next1[link := free];
      assert heads[..] == if at > 0 then hs else hs[h := n[link]];
      EntriesWithout(entry[..], chains[h], at);
      free := link;
      chains, spare, mark := chains[h := Without(chains[h], at)], [link] + spare, mark[link := NIL];
    }
  }

  lemma {:induction false} EntriesWithout(entry: seq<int>, chain: seq<nat>, at: nat)
    requires at < |chain| && forall i :: 0 <= i < |chain| ==> chain[i] < |entry|
    ensures forall i :: 0 <= i < |chain| - 1 ==> Without(chain, at)[i] < |entry|
    ensures Entries(entry, Without(chain, at)) == Cut(Entries(entry, chain), at)
  {
  }

  lemma {:induction false} HeadIs(next: seq<int>, first: int, s: seq<nat>)
    requires Linked(next, first, s)
    ensures first == (if s == [] then NIL else s[0]) && (s != [] ==> s[0] < |next|)
  {
  }

  lemma {:induction false} StepIs(next: seq<int>, first: int, s: seq<nat>, i: nat)
    requires Linked(next, first, s) && i < |s|
    ensures s[i] < |next| && next[s[i]] == (if i + 1 < |s| then s[i + 1] else NIL)
  {
    var j := i + 1;
    assert j < |s| ==> next[s[i]] == s[j];
  }
}

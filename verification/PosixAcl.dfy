/** Sorting and merging the entries of Posix ACLs (`acls.c`). */
module PosixAcl {

  datatype Ace = Ace(tag: nat, id: nat, perms: nat)

  predicate Less(x: Ace, y: Ace) {
    x.tag < y.tag || (x.tag == y.tag && x.id < y.id)
  }

  predicate SameKey(x: Ace, y: Ace) {
    x.tag == y.tag && x.id == y.id
  }

  /** Ascending by tag and id; entries of the same tag and id may repeat. */
  ghost predicate Ascending(s: seq<Ace>) {
    forall i, j :: 0 <= i < j < |s| ==> !Less(s[j], s[i])
  }

  ghost predicate Strict(s: seq<Ace>) {
    forall i, j :: 0 <= i < j < |s| ==> Less(s[i], s[j])
  }

  // ---- sorting ------------------------------------------------------------------------------------

  /** The entries with the tag and id of `k`, in order. */
  function WithKey(s: seq<Ace>, k: Ace): (r: seq<Ace>)
    decreases |s|
  {
    if s == [] then [] else (if SameKey(s[0], k) then [s[0]] else []) + WithKey(s[1..], k)
  }

  /** The same entries, those of one tag and id in the same order. */
  ghost predicate StablePermutation(s: seq<Ace>, t: seq<Ace>) {
    |s| == |t| && forall k :: WithKey(t, k) == WithKey(s, k)
  }

  lemma {:induction false} WithKeyCounts(s: seq<Ace>, k: Ace, x: Ace)
    ensures multiset(WithKey(s, k))[x] == if SameKey(x, k) then multiset(s)[x] else 0
    decreases |s|
  {
    hide SameKey;
    if s != [] {
      WithKeyCounts(s[1..], k, x);
      assert s == [s[0]] + s[1..];
    }
  }

  /** A stable permutation is a permutation. */
  lemma {:induction false} StableIsPermutation(s: seq<Ace>, t: seq<Ace>)
    requires StablePermutation(s, t)
    ensures multiset(s) == multiset(t)
  {
    forall x: Ace
      ensures multiset(s)[x] == multiset(t)[x]
    {
      WithKeyCounts(s, x, x);
      WithKeyCounts(t, x, x);
    }
  }

  function CountLess(s: seq<Ace>, x: Ace): (n: nat)
    decreases |s|
  {
    if s == [] then 0 else (if Less(s[0], x) then 1 else 0) + CountLess(s[1..], x)
  }

  /** The number of pairs in the wrong order. */
  function Inversions(s: seq<Ace>): (n: nat)
    decreases |s|
  {
    if s == [] then 0 else CountLess(s[1..], s[0]) + Inversions(s[1..])
  }

  function Swapped(s: seq<Ace>, i: nat): (r: seq<Ace>)
    requires i + 1 < |s|
    ensures |r| == |s|
  {
    s[i := s[i + 1]][i + 1 := s[i]]
  }

  lemma {:induction false} CountSwapped(s: seq<Ace>, i: nat, x: Ace)
    requires i + 1 < |s|
    ensures CountLess(Swapped(s, i), x) == CountLess(s, x)
    decreases i
  {
    var r := Swapped(s, i);
    if i == 0 {
      assert r[1..][1..] == s[1..][1..];
    } else {
      assert r[1..] == Swapped(s[1..], i - 1);
      CountSwapped(s[1..], i - 1, x);
    }
  }

  /** Exchanging two neighbours in the wrong order removes one inversion. */
  lemma {:induction false} InversionsSwapped(s: seq<Ace>, i: nat)
    requires i + 1 < |s| && Less(s[i + 1], s[i])
    ensures Inversions(Swapped(s, i)) == Inversions(s) - 1
    decreases i
  {
    var r := Swapped(s, i);
    if i == 0 {
      assert r[1..][1..] == s[1..][1..];
      assert r[1..][0] == s[0] && s[1..][0] == s[1];
    } else {
      assert r[1..] == Swapped(s[1..], i - 1);
      InversionsSwapped(s[1..], i - 1);
      CountSwapped(s[1..], i - 1, s[0]);
    }
  }

  lemma {:induction false} SwappedStable(s: seq<Ace>, i: nat)
    requires i + 1 < |s| && Less(s[i + 1], s[i])
    ensures StablePermutation(s, Swapped(s, i))
  {
    forall k
      ensures WithKey(Swapped(s, i), k) == WithKey(s, k)
    {
      SwappedWithKey(s, i, k);
    }
  }

  lemma {:induction false} SwappedWithKey(s: seq<Ace>, i: nat, k: Ace)
    requires i + 1 < |s| && Less(s[i + 1], s[i])
    ensures WithKey(Swapped(s, i), k) == WithKey(s, k)
    decreases i
  {
    var r := Swapped(s, i);
    if i == 0 {
      assert r[1..][1..] == s[1..][1..];
      assert r[1..][0] == s[0] && s[1..][0] == s[1];
    } else {
      assert r[1..] == Swapped(s[1..], i - 1);
      SwappedWithKey(s[1..], i - 1, k);
    }
  }

  lemma {:induction false} Neighbours(s: seq<Ace>)
    requires forall i, j :: 0 <= i && j == i + 1 && j < |s| ==> !Less(s[j], s[i])
    ensures Ascending(s)
    decreases |s|
  {
    if |s| > 1 {
      var n := |s| - 1;
      Neighbours(s[..n]);
      forall i | 0 <= i < n
        ensures !Less(s[n], s[i])
      {
        var m := n - 1;
        assert !Less(s[n], s[m]);
        assert i < m ==> !Less(s[..n][m], s[..n][i]);
      }
      forall i, j | 0 <= i < j < |s|
        ensures !Less(s[j], s[i])
      {
        assert j < n ==> !Less(s[..n][j], s[..n][i]);
      }
    }
  }

  lemma {:induction false} StableTransitive(s: seq<Ace>, t: seq<Ace>, u: seq<Ace>)
    requires StablePermutation(s, t) && StablePermutation(t, u)
    ensures StablePermutation(s, u)
  {
  }

  /** The exchange loops of `ntfs_sort_posix` over the entries from `lo` to `hi`. */
  method SortRange(a: array<Ace>, lo: nat, hi: nat)
    requires lo <= hi <= a.Length
    modifies a
    ensures Ascending(a[lo..hi]) && StablePermutation(old(a[lo..hi]), a[lo..hi])
    ensures a[..lo] == old(a[..lo]) && a[hi..] == old(a[hi..])
  {
    hide Inversions, WithKey, Ascending, StablePermutation;
    var done := false;
    StableSame(a[lo..hi]);
    while !done
      invariant StablePermutation(old(a[lo..hi]), a[lo..hi])
      invariant a[..lo] == old(a[..lo]) && a[hi..] == old(a[hi..])
      invariant done ==> Ascending(a[lo..hi])
      decreases !done, Inversions(a[lo..hi])
    {
      done := Pass(a, lo, hi, old(a[lo..hi]));
    }
  }

  lemma {:induction false} StableSame(s: seq<Ace>)
    ensures StablePermutation(s, s)
  {
  }

  /** One pass; `done` when nothing had to be exchanged. */
  method Pass(a: array<Ace>, lo: nat, hi: nat, ghost orig: seq<Ace>) returns (done: bool)
    requires lo <= hi <= a.Length && StablePermutation(orig, a[lo..hi])
    modifies a
    ensures StablePermutation(orig, a[lo..hi]) && a[..lo] == old(a[..lo]) && a[hi..] == old(a[hi..])
    ensures done ==> Ascending(a[lo..hi])
    ensures !done ==> Inversions(a[lo..hi]) < old(Inversions(a[lo..hi]))
  {
    hide Inversions, WithKey, Ascending, StablePermutation;
    done := true;
    if hi - lo <= 1 {
      Neighbours(a[lo..hi]);
      return;
    }
    var previous := a[lo];
    var i := lo + 1;
    while i < hi
      invariant lo < i <= hi && previous == a[i - 1]
      invariant StablePermutation(orig, a[lo..hi]) && a[..lo] == old(a[..lo]) && a[hi..] == old(a[hi..])
      invariant Inversions(a[lo..hi]) <= old(Inversions(a[lo..hi])) - (if done then 0 else 1)
      invariant done ==> forall p, q :: lo <= p && q == p + 1 && q < i ==> !Less(a[q], a[p])
    {
      if Less(a[i], previous) {
        Exchange(a, lo, hi, i, orig);
        done := false;
      } else {
        previous := a[i];
      }
      i := i + 1;
    }
    if done {
      Neighbours(a[lo..hi]);
    }
  }

  method Exchange(a: array<Ace>, lo: nat, hi: nat, i: nat, ghost orig: seq<Ace>)
    requires lo < i < hi <= a.Length && Less(a[i], a[i - 1]) && StablePermutation(orig, a[lo..hi])
    modifies a
    ensures a[i - 1] == old(a[i]) && a[i] == old(a[i - 1]) && StablePermutation(orig, a[lo..hi])
    ensures Inversions(a[lo..hi]) == old(Inversions(a[lo..hi])) - 1
    ensures a[..lo] == old(a[..lo]) && a[hi..] == old(a[hi..])
  {
    hide Inversions, WithKey, StablePermutation;
    ghost var s, j := a[lo..hi], i - 1 - lo;
    InversionsSwapped(s, j);
    SwappedStable(s, j);
    a[i - 1], a[i] := a[i], a[i - 1];
    assert a[lo..hi] == Swapped(s, j);
    StableTransitive(orig, s, a[lo..hi]);
  }

  /** `ntfs_sort_posix`: the access entries and the default entries are sorted each for themselves. */
  method SortPosix(a: array<Ace>, acccnt: nat, firstdef: nat, defcnt: nat)
    requires acccnt <= firstdef && firstdef + defcnt <= a.Length
    modifies a
    ensures Ascending(a[..acccnt]) && StablePermutation(old(a[..acccnt]), a[..acccnt])
    ensures Ascending(a[firstdef..firstdef + defcnt])
            && StablePermutation(old(a[firstdef..firstdef + defcnt]), a[firstdef..firstdef + defcnt])
    ensures a[acccnt..firstdef] == old(a[acccnt..firstdef]) && a[firstdef + defcnt..] == old(a[firstdef + defcnt..])
  {
    hide Ascending, StablePermutation;
    SortRange(a, 0, acccnt);
    Parts(a[..], old(a[..]), acccnt, firstdef, firstdef + defcnt);
    assert a[..][0..acccnt] == a[..acccnt] && old(a[..])[0..acccnt] == old(a[..acccnt]);
    ghost var mid := a[..];
    SortRange(a, firstdef, firstdef + defcnt);
    assert a[..acccnt] == a[..firstdef][..acccnt] == mid[..acccnt];
    assert a[acccnt..firstdef] == a[..firstdef][acccnt..] == mid[acccnt..firstdef];
  }

  lemma {:induction false} Parts<T>(s: seq<T>, t: seq<T>, n: nat, p: nat, q: nat)
    requires n <= p <= q <= |s| == |t| && s[n..] == t[n..]
    ensures s[p..q] == t[p..q] && s[n..p] == t[n..p] && s[q..] == t[q..]
  {
    assert forall k :: n <= k < |s| ==> s[k] == s[n..][k - n] && t[k] == t[n..][k - n];
  }

  // ---- merging ------------------------------------------------------------------------------------

  /** Both lists in order; an entry of the second list with the tag and id of the entry in turn of the
      first is ignored. */
  function Merged(a: seq<Ace>, i: nat, b: seq<Ace>, j: nat): (r: seq<Ace>)
    requires i <= |a| && j <= |b|
    decreases |a| - i + |b| - j
  {
    if i < |a| && j < |b| then
      if SameKey(a[i], b[j]) then Merged(a, i, b, j + 1)
      else if Less(a[i], b[j]) then [a[i]] + Merged(a, i + 1, b, j)
      else [b[j]] + Merged(a, i, b, j + 1)
    else a[i..] + b[j..]
  }

  /** `merge_lists_posix` for any two lists: the target gets the merged list. */
  method MergeLists(target: array<Ace>, first: seq<Ace>, second: seq<Ace>) returns (k: nat)
    requires target.Length >= |first| + |second|
    modifies target
    ensures k <= |first| + |second| && target[..k] == Merged(first, 0, second, 0)
    ensures forall x :: k <= x < target.Length ==> target[x] == old(target[x])
  {
    hide Merged;
    var i, j;
    i, j, k := MergeHeads(target, first, second);
    ghost var done := target[..k];
    k := CopyRest(target, k, first, i);
    k := CopyRest(target, k, second, j);
    MergedRest(first, i, second, j, done);
  }

  lemma {:induction false} MergedRest(a: seq<Ace>, i: nat, b: seq<Ace>, j: nat, done: seq<Ace>)
    requires i <= |a| && j <= |b| && (i == |a| || j == |b|)
    ensures done + Merged(a, i, b, j) == done + a[i..] + b[j..]
  {
  }

  /** The first loop: until one of the lists is exhausted. */
  method MergeHeads(target: array<Ace>, first: seq<Ace>, second: seq<Ace>) returns (i: nat, j: nat, k: nat)
    requires target.Length >= |first| + |second|
    modifies target
    ensures i <= |first| && j <= |second| && (i == |first| || j == |second|) && k <= i + j
    ensures target[..k] + Merged(first, i, second, j) == Merged(first, 0, second, 0)
    ensures forall x :: k <= x < target.Length ==> target[x] == old(target[x])
  {
    hide Merged;
    i, j, k := 0, 0, 0;
    assert target[..k] + Merged(first, 0, second, 0) == Merged(first, 0, second, 0);
    while i < |first| && j < |second|
      invariant i <= |first| && j <= |second| && k <= i + j
      invariant target[..k] + Merged(first, i, second, j) == Merged(first, 0, second, 0)
      invariant forall x :: k <= x < target.Length ==> target[x] == old(target[x])
      decreases |first| - i + |second| - j
    {
      MergedStep(first, i, second, j);
      ghost var done := target[..k];
      if SameKey(first[i], second[j]) {
        j := j + 1;
      } else if Less(first[i], second[j]) {
        target[k] := first[i];
        Shifted(done, first[i], Merged(first, i + 1, second, j), target[..k + 1]);
        i, k := i + 1, k + 1;
      } else {
        target[k] := second[j];
        Shifted(done, second[j], Merged(first, i, second, j + 1), target[..k + 1]);
        j, k := j + 1, k + 1;
      }
    }
  }

  lemma {:induction false} MergedStep(a: seq<Ace>, i: nat, b: seq<Ace>, j: nat)
    requires i < |a| && j < |b|
    ensures Merged(a, i, b, j)
         == if SameKey(a[i], b[j]) then Merged(a, i, b, j + 1)
            else if Less(a[i], b[j]) then [a[i]] + Merged(a, i + 1, b, j) else [b[j]] + Merged(a, i, b, j + 1)
  {
  }

  lemma {:induction false} Shifted<T>(a: seq<T>, x: T, b: seq<T>, c: seq<T>)
    requires c == a + [x]
    ensures a + ([x] + b) == c + b
  {
  }

  method CopyRest(target: array<Ace>, at: nat, list: seq<Ace>, start: nat) returns (k: nat)
    requires start <= |list| && at + |list| - start <= target.Length
    modifies target
    ensures k == at + |list| - start && target[..k] == old(target[..at]) + list[start..]
    ensures forall x :: k <= x < target.Length ==> target[x] == old(target[x])
  {
    k := at;
    var i := start;
    while i < |list|
      invariant start <= i <= |list| && k == at + i - start && target[..k] == old(target[..at]) + list[start..i]
      invariant forall x :: k <= x < target.Length ==> target[x] == old(target[x])
    {
      target[k] := list[i];
      i, k := i + 1, k + 1;
    }
  }

  /** `x` is smaller than everything from place `i` on. */
  ghost predicate Below(x: Ace, s: seq<Ace>, i: nat) {
    forall k :: i <= k < |s| ==> Less(x, s[k])
  }

  /** No entry of `s` from place `i` on has the tag and id of `x`. */
  ghost predicate NoKey(s: seq<Ace>, i: nat, x: Ace) {
    forall k :: i <= k < |s| ==> !SameKey(s[k], x)
  }

  /** What is below both lists is below the merged list. */
  lemma {:induction false} MergedBelow(a: seq<Ace>, i: nat, b: seq<Ace>, j: nat, x: Ace)
    requires i <= |a| && j <= |b| && Below(x, a, i) && Below(x, b, j)
    ensures Below(x, Merged(a, i, b, j), 0)
    decreases |a| - i + |b| - j
  {
    if i < |a| && j < |b| {
      if SameKey(a[i], b[j]) {
        MergedBelow(a, i, b, j + 1, x);
      } else if Less(a[i], b[j]) {
        MergedBelow(a, i + 1, b, j, x);
      } else {
        MergedBelow(a, i, b, j + 1, x);
      }
    }
  }

  lemma {:induction false} StrictCons(x: Ace, s: seq<Ace>)
    requires Strict(s) && Below(x, s, 0)
    ensures Strict([x] + s)
  {
  }

  /** Merging strictly ascending lists gives a strictly ascending list. */
  lemma {:induction false} MergedStrict(a: seq<Ace>, i: nat, b: seq<Ace>, j: nat)
    requires i <= |a| && j <= |b| && Strict(a) && Strict(b)
    ensures Strict(Merged(a, i, b, j))
    decreases |a| - i + |b| - j
  {
    if i < |a| && j < |b| {
      if SameKey(a[i], b[j]) {
        MergedStrict(a, i, b, j + 1);
      } else if Less(a[i], b[j]) {
        MergedStrict(a, i + 1, b, j);
        MergedBelow(a, i + 1, b, j, a[i]);
        StrictCons(a[i], Merged(a, i + 1, b, j));
      } else {
        MergedStrict(a, i, b, j + 1);
        MergedBelow(a, i, b, j + 1, b[j]);
        StrictCons(b[j], Merged(a, i, b, j + 1));
      }
    }
  }

  /** It has the entries of the first list, and those of the second whose tag and id the first lacks. */
  lemma {:induction false} MergedUnion(a: seq<Ace>, i: nat, b: seq<Ace>, j: nat, x: Ace)
    requires i <= |a| && j <= |b| && Strict(a) && Strict(b)
    ensures x in Merged(a, i, b, j) <==> x in a[i..] || (x in b[j..] && NoKey(a, i, x))
    decreases |a| - i + |b| - j
  {
    if i < |a| && j < |b| {
      assert a[i..] == [a[i]] + a[i + 1..] && b[j..] == [b[j]] + b[j + 1..];
      if SameKey(a[i], b[j]) {
        MergedUnion(a, i, b, j + 1, x);
      } else if Less(a[i], b[j]) {
        MergedUnion(a, i + 1, b, j, x);
        assert x in b[j..] ==> Less(a[i], x);
        assert x in b[j..] ==> (NoKey(a, i, x) <==> NoKey(a, i + 1, x));
      } else {
        MergedUnion(a, i, b, j + 1, x);
        assert NoKey(a, i, b[j]);
      }
    } else if i == |a| {
      assert NoKey(a, i, x);
    }
  }
}

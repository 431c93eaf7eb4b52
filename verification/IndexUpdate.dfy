/** Rewriting one block in place: what becomes of the entries and blocks of the whole index. */
module IndexUpdate {
  import opened Sequences
  import opened IndexTree
  import opened IndexPath
  import opened IndexShape
  import opened IndexEdit
  import opened IndexSplit
  import opened IndexLookup

  ghost predicate Among(a: seq<nat>, b: seq<nat>) {
    forall u :: u in a ==> u in b
  }

  /** Block `v` at level `d` is rewritten as `y`, which reaches no block that `v` did not reach before. */
  lemma {:induction false} BlockRewrite(m: Store, x: Node, h: nat, pos: seq<nat>, vcn: seq<int>, d: nat, y: Node)
    requires 0 < d <= h && Route(m, x, h, pos, vcn, 0, d) && d < |vcn| && vcn[d] >= 0
    requires Distinct(Vcns(Walk(m, x, 0, h)))
    requires Among(Vcns(Walk(m, y, 0, h - d)), Vcns(Walk(m, Get(m, vcn[d]), 0, h - d)))
    ensures var m', a, b := m[vcn[d] := y], Left(m, x, h, pos, vcn, 0, d), Right(m, x, h, pos, vcn, 0, d);
            && Walk(m, x, 0, h) == a + Tree(m, vcn[d], h - d) + b
            && Walk(m', x, 0, h) == a + ([Block(vcn[d], y, h - d)] + Walk(m, y, 0, h - d)) + b
            && Route(m', x, h, pos, vcn, 0, d)
            && Left(m', x, h, pos, vcn, 0, d) == a && Right(m', x, h, pos, vcn, 0, d) == b
            && Walk(m', y, 0, h - d) == Walk(m, y, 0, h - d)
            && vcn[d] !in Vcns(Walk(m, y, 0, h - d))
  {
    hide Walk, Tree, Left, Right, Vcns, Distinct, Matches, Route;
    var v := vcn[d];
    var m' := m[v := y];
    Focus(m, x, h, pos, vcn, 0, d);
    Apart(Left(m, x, h, pos, vcn, 0, d), Tree(m, v, h - d), Right(m, x, h, pos, vcn, 0, d));
    TreeParts(Limits(0, 0, 0), m, v, h - d);
    assert v in [v] + Vcns(Walk(m, Get(m, v), 0, h - d));
    assert Within(m, m', Tree(m, v, h - d), Walk(m, x, 0, h));
    EditBelow(m, m', x, h, pos, vcn, d);
    HeadApart(v, Vcns(Walk(m, Get(m, v), 0, h - d)));
    UnusedWrite(m, y, h - d, v, y);
    TreeIs(m', v, h - d);
  }

  lemma {:induction false} HeadToken(l: Limits, v: nat, y: Node, k: nat, w: seq<Token>)
    ensures var mid := [Block(v, y, k)] + w;
            && Keys(mid) == Keys(w) && Vcns(mid) == [v] + Vcns(w)
            && (AllFit(l, mid) <==> Fits(l, y, k) && AllFit(l, w))
  {
    hide Vcns, Keys, AllFit, Fits, Weight;
    KeysConcat([Block(v, y, k)], w);
    VcnsConcat([Block(v, y, k)], w);
    AllFitConcat(l, [Block(v, y, k)], w);
    AllFitOne(l, v, y, k, Entry(0, 0, 0));
    One(v, y, k, Entry(0, 0, 0));
  }

  lemma {:induction false} LeafFits(l: Limits, m: Store, y: Node)
    ensures AllFit(l, Walk(m, y, 0, 0)) && Vcns(Walk(m, y, 0, 0)) == [] && Keys(Walk(m, y, 0, 0)) == y.keys
  {
    LeafWalk(m, y, 0);
    assert y.keys[0..] == y.keys;
  }

  /** Where an entry belongs. */
  ghost predicate Placed(s: seq<Entry>, e: Entry, t: seq<Entry>) {
    exists i :: 0 <= i <= |s| && t == Inserted(s, i, e)
  }

  lemma {:induction false} PlaceSorted(a: seq<Entry>, b: seq<Entry>, e: Entry)
    requires Sorted(a + b) && AllBelow(a, e.key) && AllAbove(b, e.key)
    ensures Sorted(a + [e] + b) && Placed(a + b, e, a + [e] + b)
  {
    var s, t := a + b, a + [e] + b;
    forall i, j | 0 <= i < j < |t|
      ensures t[i].key < t[j].key
    {
      var p, q := if i < |a| then i else i - 1, if j < |a| then j else j - 1;
      assert i != |a| ==> t[i] == s[p];
      assert j != |a| ==> t[j] == s[q];
      assert i < |a| ==> t[i] == a[i];
      assert j > |a| ==> t[j] == b[j - |a| - 1];
    }
    assert t == Inserted(s, |a|, e);
  }

  /** How many entries come before `key`. */
  function Rank(s: seq<Entry>, key: int): (r: nat)
    ensures r <= |s|
    decreases |s|
  {
    if s == [] || s[0].key >= key then 0 else 1 + Rank(s[1..], key)
  }

  lemma {:induction false} RankIs(s: seq<Entry>, key: int, i: nat)
    requires i <= |s| && AllBelow(s[..i], key) && AllAbove(s[i..], key)
    ensures Rank(s, key) == i
    decreases |s|
  {
    if i > 0 {
      assert s[..i][0] == s[0];
      assert s[1..][..i - 1] == s[..i][1..] && s[1..][i - 1..] == s[i..];
      RankIs(s[1..], key, i - 1);
    } else if s != [] {
      assert s[0..][0] == s[0];
    }
  }

  lemma {:induction false} SortedAround(s: seq<Entry>, i: nat, e: Entry)
    requires i <= |s| && Sorted(Inserted(s, i, e))
    ensures AllBelow(s[..i], e.key) && AllAbove(s[i..], e.key)
  {
    var t := Inserted(s, i, e);
    assert t[i] == e;
    assert forall k :: 0 <= k < i ==> s[..i][k] == t[k];
    forall k | 0 <= k < |s[i..]|
      ensures s[i..][k].key > e.key
    {
      var j := i + 1 + k;
      assert t[j] == s[i..][k];
    }
  }

  /** There is only one place for an entry. */
  lemma {:induction false} PlacedUnique(a: seq<Entry>, b: seq<Entry>, e: Entry, t: seq<Entry>)
    requires Sorted(a + [e] + b) && Sorted(t) && Placed(a + b, e, t)
    ensures t == a + [e] + b
  {
    hide Sorted, AllBelow, AllAbove;
    var s := a + b;
    var i :| 0 <= i <= |s| && t == Inserted(s, i, e);
    assert a + [e] + b == Inserted(s, |a|, e);
    SortedAround(s, i, e);
    SortedAround(s, |a|, e);
    RankIs(s, e.key, i);
    RankIs(s, e.key, |a|);
  }

  lemma {:induction false} SortedWithout(a: seq<Entry>, b: seq<Entry>, e: Entry)
    requires Sorted(a + [e] + b)
    ensures Sorted(a + b) && !HasKey(a + b, e.key)
  {
    var s, w := a + b, a + [e] + b;
    assert w[|a|] == e;
    forall i, j | 0 <= i < j < |s|
      ensures s[i].key < s[j].key
    {
      var p, q := if i < |a| then i else i + 1, if j < |a| then j else j + 1;
      assert s[i] == w[p] && s[j] == w[q];
    }
    forall i | 0 <= i < |s|
      ensures s[i].key != e.key
    {
      var p := if i < |a| then i else i + 1;
      assert s[i] == w[p];
    }
  }

  /** The entry with `key`, and nothing else, is gone. */
  ghost predicate Gone(s: seq<Entry>, key: int, t: seq<Entry>) {
    exists i :: 0 <= i < |s| && s[i].key == key && t == Cut(s, i)
  }

  lemma {:induction false} GoneFrom(a: seq<Entry>, e: Entry, b: seq<Entry>)
    ensures Gone(a + [e] + b, e.key, a + b)
  {
    var s := a + [e] + b;
    assert s[|a|] == e && a + b == Cut(s, |a|);
  }

  /** One entry is lost. */
  ghost predicate OneLost(s: seq<Entry>, t: seq<Entry>) {
    exists i :: 0 <= i < |s| && t == Cut(s, i)
  }

  lemma {:induction false} LostFrom(a: seq<Entry>, e: Entry, b: seq<Entry>)
    ensures OneLost(a + [e] + b, a + b)
  {
    var s := a + [e] + b;
    assert a + b == Cut(s, |a|);
  }

  /** What a removal that failed leaves: all entries, or all but the one with `key` and one that was on its
      way to another node. */
  ghost predicate Faltered(s: seq<Entry>, key: int, t: seq<Entry>) {
    t == s || exists u :: Gone(s, key, u) && OneLost(u, t)
  }

  lemma {:induction false} FalteredAfter(s: seq<Entry>, key: int, u: seq<Entry>)
    requires Gone(s, key, u)
    ensures forall t :: OneLost(u, t) ==> Faltered(s, key, t)
  {
    hide Gone, OneLost;
  }

  /** A call on an index, and what it does to its sorted list of entries. */
  datatype Op = Insert(entry: Entry) | Delete(key: int)

  ghost function AfterOp(s: seq<Entry>, op: Op): (r: seq<Entry>) {
    match op
    case Insert(e) => if HasKey(s, e.key) then s else Inserted(s, Rank(s, e.key), e)
    case Delete(key) => if !HasKey(s, key) || Rank(s, key) >= |s| then s else Cut(s, Rank(s, key))
  }

  ghost function AfterAll(s: seq<Entry>, ops: seq<Op>): (r: seq<Entry>)
    decreases |ops|
  {
    if ops == [] then s else AfterAll(AfterOp(s, ops[0]), ops[1..])
  }

  lemma {:induction false} AfterSnoc(s: seq<Entry>, ops: seq<Op>, i: nat)
    requires i < |ops|
    ensures AfterAll(s, ops[..i + 1]) == AfterOp(AfterAll(s, ops[..i]), ops[i])
    decreases i
  {
    hide AfterOp;
    var p, q := ops[..i], ops[..i + 1];
    if i > 0 {
      AfterSnoc(AfterOp(s, ops[0]), ops[1..], i - 1);
      assert p[1..] == ops[1..][..i - 1] && q[1..] == ops[1..][..i];
    } else {
      assert q[1..] == [];
    }
  }

  /** The last call of a run failed. */
  ghost predicate Stopped(s: seq<Entry>, op: Op, t: seq<Entry>) {
    match op
    case Insert(_) => t == s
    case Delete(key) => Faltered(s, key, t)
  }

  lemma {:induction false} SortedRank(s: seq<Entry>, i: nat)
    requires Sorted(s) && i < |s|
    ensures Rank(s, s[i].key) == i
    decreases i
  {
    if i > 0 {
      var t := s[1..];
      assert forall a, b :: 0 <= a < b < |t| ==> t[a].key < t[b].key by {
        forall a, b | 0 <= a < b < |t|
          ensures t[a].key < t[b].key
        {
          var p, q := a + 1, b + 1;
          assert t[a] == s[p] && t[b] == s[q];
        }
      }
      SortedRank(t, i - 1);
    }
  }

  /** The contracts of insertion and removal leave only one result. */
  lemma {:induction false} AfterIsUnique(s: seq<Entry>, op: Op, t: seq<Entry>)
    requires Sorted(s) && Sorted(t)
    requires op.Insert? ==> if HasKey(s, op.entry.key) then t == s else Placed(s, op.entry, t)
    requires op.Delete? ==> if HasKey(s, op.key) then Gone(s, op.key, t) else t == s
    ensures t == AfterOp(s, op)
  {
    match op
    case Insert(e) =>
      if !HasKey(s, e.key) {
        var i :| 0 <= i <= |s| && t == Inserted(s, i, e);
        SortedAround(s, i, e);
        RankIs(s, e.key, i);
      }
    case Delete(key) =>
      if HasKey(s, key) {
        var i :| 0 <= i < |s| && s[i].key == key && t == Cut(s, i);
        SortedRank(s, i);
      }
  }
}

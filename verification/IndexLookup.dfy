/** Descending one level (`ntfs_index_lookup`), and what the position found in a sorted index means. */
module IndexLookup {
  import opened IndexTree
  import opened IndexPath
  import opened IndexShape
  import opened IndexEdit
  import opened IndexSplit

  /** The node at level `d` of the path. */
  function NodeAt(m: Store, x: Node, vcn: seq<int>, d: nat): (r: Node)
    requires d > 0 ==> d < |vcn| && vcn[d] >= 0
  {
    if d == 0 then x else Get(m, vcn[d])
  }

  /** What is passed before the contents of the node at level `d`. */
  ghost function LeftOf(m: Store, x: Node, h: nat, pos: seq<nat>, vcn: seq<int>, d: nat): (r: seq<Token>)
    requires Route(m, x, h, pos, vcn, 0, d)
  {
    if d == 0 then [] else
      RouteHeight(m, x, h, pos, vcn, 0, d);
      Left(m, x, h, pos, vcn, 0, d) + [Block(vcn[d], Get(m, vcn[d]), h - d)]
  }

  ghost function RightOf(m: Store, x: Node, h: nat, pos: seq<nat>, vcn: seq<int>, d: nat): (r: seq<Token>)
    requires Route(m, x, h, pos, vcn, 0, d)
  {
    if d == 0 then [] else Right(m, x, h, pos, vcn, 0, d)
  }

  lemma {:induction false} FocusOf(m: Store, x: Node, h: nat, pos: seq<nat>, vcn: seq<int>, d: nat)
    requires Route(m, x, h, pos, vcn, 0, d)
    ensures d <= h && (d > 0 ==> d < |pos| == |vcn| && vcn[d] >= 0)
    ensures Walk(m, x, 0, h)
         == LeftOf(m, x, h, pos, vcn, d) + Walk(m, NodeAt(m, x, vcn, d), 0, h - d) + RightOf(m, x, h, pos, vcn, d)
  {
    hide Walk, Tree, Left, Right, Route;
    RouteHeight(m, x, h, pos, vcn, 0, d);
    if d > 0 {
      Focus(m, x, h, pos, vcn, 0, d);
      TreeIs(m, vcn[d], h - d);
    }
  }

  /** One more level. */
  lemma {:induction false} Extend(m: Store, x: Node, h: nat, pos: seq<nat>, vcn: seq<int>, i: nat, d: nat)
    requires Route(m, x, h, pos, vcn, i, d) && d + 1 < |pos| == |vcn| && d - i < h && (i < d ==> vcn[d] >= 0)
    requires var y := if i == d then x else Get(m, vcn[d]);
             pos[d] <= |y.keys| && pos[d] < |y.kids| && vcn[d + 1] == y.kids[pos[d]]
    ensures Route(m, x, h, pos, vcn, i, d + 1)
    ensures i == d ==> Left(m, x, h, pos, vcn, i, d + 1) == Before(m, x, pos[d], h)
    ensures i == d ==> Right(m, x, h, pos, vcn, i, d + 1) == After(m, x, pos[d], h)
    ensures i < d ==>
      var y, k := Get(m, vcn[d]), h - (d - i);
      && Left(m, x, h, pos, vcn, i, d + 1)
          == Left(m, x, h, pos, vcn, i, d) + ([Block(vcn[d], y, k)] + Before(m, y, pos[d], k))
      && Right(m, x, h, pos, vcn, i, d + 1) == After(m, y, pos[d], k) + Right(m, x, h, pos, vcn, i, d)
    decreases d - i
  {
    hide Before, After;
    if i == d {
      assert Route(m, Get(m, x.kids[pos[i]]), h - 1, pos, vcn, i + 1, d + 1);
    } else {
      hide Left, Right;
      var y := Get(m, x.kids[pos[i]]);
      Extend(m, y, h - 1, pos, vcn, i + 1, d);
      SidesAre(m, x, h, pos, vcn, i, d + 1);
      SidesAre(m, x, h, pos, vcn, i, d);
      if i + 1 < d {
        Regroup4(Before(m, x, pos[i], h), [Block(x.kids[pos[i]], y, h - 1)], Left(m, y, h - 1, pos, vcn, i + 1, d),
                 [Block(vcn[d], Get(m, vcn[d]), h - (d - i))] + Before(m, Get(m, vcn[d]), pos[d], h - (d - i)));
      }
    }
  }

  lemma {:induction false} Regroup4<T>(a: seq<T>, b: seq<T>, c: seq<T>, d: seq<T>)
    ensures a + (b + (c + d)) == a + (b + c) + d
  {
  }

  /** Positions and blocks beyond level `d` do not matter. */
  lemma {:induction false} RouteArrays(m: Store, x: Node, h: nat, pos: seq<nat>, vcn: seq<int>, pos': seq<nat>,
                                       vcn': seq<int>, i: nat, d: nat)
    requires Route(m, x, h, pos, vcn, i, d) && |pos'| == |pos| && |vcn'| == |vcn| && d <= |pos| && d < |vcn|
    requires pos'[..d] == pos[..d] && vcn'[..d + 1] == vcn[..d + 1]
    ensures Route(m, x, h, pos', vcn', i, d)
    ensures i < d ==> Left(m, x, h, pos', vcn', i, d) == Left(m, x, h, pos, vcn, i, d)
    ensures i < d ==> Right(m, x, h, pos', vcn', i, d) == Right(m, x, h, pos, vcn, i, d)
    decreases d - i
  {
    if i < d {
      assert pos'[i] == pos'[..d][i] == pos[i];
      assert vcn'[i + 1] == vcn'[..d + 1][i + 1] == vcn[i + 1];
      RouteArrays(m, Get(m, x.kids[pos[i]]), h - 1, pos, vcn, pos', vcn', i + 1, d);
    }
  }

  ghost predicate AllBelow(s: seq<Entry>, key: int) {
    forall i :: 0 <= i < |s| ==> s[i].key < key
  }

  ghost predicate AllAbove(s: seq<Entry>, key: int) {
    forall i :: 0 <= i < |s| ==> s[i].key > key
  }

  lemma {:induction false} BeforeLast(m: Store, x: Node, p: nat, h: nat)
    requires 0 < p <= |x.keys|
    ensures Keys(Before(m, x, p, h)) != [] && var s := Keys(Before(m, x, p, h)); s[|s| - 1] == x.keys[p - 1]
  {
    hide Keys, Sub;
    var a := Before(m, x, p - 1, h) + Sub(m, x, p - 1, h);
    KeysConcat(a, [Item(x.keys[p - 1])]);
    One(0, x, h, x.keys[p - 1]);
  }

  lemma {:induction false} AfterFirst(m: Store, x: Node, p: nat, h: nat)
    requires p < |x.keys|
    ensures Keys(After(m, x, p, h)) != [] && Keys(After(m, x, p, h))[0] == x.keys[p]
  {
    hide Keys, Walk;
    KeysConcat([Item(x.keys[p])], Walk(m, x, p + 1, h));
    One(0, x, h, x.keys[p]);
  }

  lemma {:induction false} SortedSides(a: seq<Entry>, b: seq<Entry>, c: seq<Entry>, d: seq<Entry>, e: seq<Entry>,
                                       key: int)
    requires Sorted(a + b + c + d + e) && AllBelow(a, key) && AllAbove(e, key)
    requires b != [] ==> b[|b| - 1].key < key
    requires d != [] ==> d[0].key > key
    ensures AllBelow(a + b, key) && AllAbove(d + e, key)
  {
    var s := a + b + c + d + e;
    forall i | 0 <= i < |b|
      ensures b[i].key < key
    {
      assert b[i] == s[|a| + i];
      var j := |a| + (|b| - 1);
      assert b[|b| - 1] == s[j];
    }
    forall i | 0 <= i < |d|
      ensures d[i].key > key
    {
      assert d[0] == s[|a| + |b| + |c|];
      assert d[i] == s[|a| + |b| + |c| + i];
    }
  }

  lemma {:induction false} Regroup5<T>(a: seq<T>, p: seq<T>, s: seq<T>, q: seq<T>, b: seq<T>)
    ensures a + (p + s + q) + b == a + p + s + q + b
  {
  }

  /** Inside a node between entries that are too small and too great for `key`, at the first entry that
      is not smaller: everything before its subtree is smaller and everything after it greater. */
  lemma {:induction false} NodeSides(m: Store, y: Node, item: nat, h: nat, a: seq<Token>, b: seq<Token>, key: int)
    requires Sorted(Keys(a + Walk(m, y, 0, h) + b)) && AllBelow(Keys(a), key) && AllAbove(Keys(b), key)
    requires item <= |y.keys| && (item > 0 ==> y.keys[item - 1].key < key)
             && (item < |y.keys| ==> y.keys[item].key > key)
    ensures AllBelow(Keys(a + Before(m, y, item, h)), key) && AllAbove(Keys(After(m, y, item, h) + b), key)
  {
    hide Walk, Keys, Sorted, AllBelow, AllAbove, Before, After, Sub;
    NodeSidesEnds(m, y, item, h, key);
    WalkSplit(m, y, item, h);
    var p, s, q := Before(m, y, item, h), Sub(m, y, item, h), After(m, y, item, h);
    Sums3(a, Walk(m, y, 0, h), b);
    Sums3(p, s, q);
    Regroup5(Keys(a), Keys(p), Keys(s), Keys(q), Keys(b));
    SortedSides(Keys(a), Keys(p), Keys(s), Keys(q), Keys(b), key);
    KeysConcat(a, p);
    KeysConcat(q, b);
  }

  lemma {:induction false} NodeSidesEnds(m: Store, y: Node, item: nat, h: nat, key: int)
    requires item <= |y.keys| && (item > 0 ==> y.keys[item - 1].key < key)
             && (item < |y.keys| ==> y.keys[item].key > key)
    ensures var p, q := Keys(Before(m, y, item, h)), Keys(After(m, y, item, h));
            (p != [] ==> p[|p| - 1].key < key) && (q != [] ==> q[0].key > key)
  {
    hide Walk, Keys, Sub;
    KeysNone();
    if item > 0 {
      BeforeLast(m, y, item, h);
    }
    if item < |y.keys| {
      AfterFirst(m, y, item, h);
    }
  }

  lemma {:induction false} KeysNone()
    ensures Keys([]) == [] && Vcns([]) == []
  {
  }

  /** One more level, in terms of what is passed before and after the node. */
  lemma {:induction false} ExtendOf(m: Store, x: Node, h: nat, pos: seq<nat>, vcn: seq<int>, d: nat)
    requires Route(m, x, h, pos, vcn, 0, d) && d + 1 < |pos| == |vcn| && d < h && (0 < d ==> vcn[d] >= 0)
    requires var y := NodeAt(m, x, vcn, d); pos[d] <= |y.keys| && pos[d] < |y.kids| && vcn[d + 1] == y.kids[pos[d]]
    ensures Route(m, x, h, pos, vcn, 0, d + 1)
    ensures var y, k := NodeAt(m, x, vcn, d), vcn[d + 1];
            && LeftOf(m, x, h, pos, vcn, d + 1)
                == (LeftOf(m, x, h, pos, vcn, d) + Before(m, y, pos[d], h - d)) + [Block(k, Get(m, k), h - d - 1)]
            && RightOf(m, x, h, pos, vcn, d + 1) == After(m, y, pos[d], h - d) + RightOf(m, x, h, pos, vcn, d)
  {
    hide Before, After, Left, Right;
    Extend(m, x, h, pos, vcn, 0, d);
  }

  /** The sides of the path to level `d` hold no key in between. */
  ghost predicate Between(m: Store, x: Node, h: nat, pos: seq<nat>, vcn: seq<int>, d: nat, key: int) {
    && Route(m, x, h, pos, vcn, 0, d)
    && AllBelow(Keys(LeftOf(m, x, h, pos, vcn, d)), key) && AllAbove(Keys(RightOf(m, x, h, pos, vcn, d)), key)
  }

  lemma {:induction false} DescendBetween(m: Store, x: Node, h: nat, pos: seq<nat>, vcn: seq<int>, d: nat, key: int,
                                          item: nat, k: nat)
    requires Between(m, x, h, pos, vcn, d, key) && Sorted(Keys(Walk(m, x, 0, h)))
    requires d + 1 < |pos| == |vcn| && d < h && (0 < d ==> vcn[d] >= 0)
    requires var y := NodeAt(m, x, vcn, d);
             && item <= |y.keys| && item < |y.kids| && k == y.kids[item]
             && (item > 0 ==> y.keys[item - 1].key < key) && (item < |y.keys| ==> y.keys[item].key > key)
    ensures Between(m, x, h, pos[d := item], vcn[d + 1 := k], d + 1, key)
  {
    hide Before, After, Left, Right, Route, Walk, Keys, Sorted, AllBelow, AllAbove, LeftOf, RightOf;
    var pos', vcn' := pos[d := item], vcn[d + 1 := k];
    ArraysOf(m, x, h, pos, vcn, pos', vcn', d);
    var a, b, y := LeftOf(m, x, h, pos, vcn, d), RightOf(m, x, h, pos, vcn, d), NodeAt(m, x, vcn, d);
    FocusOf(m, x, h, pos, vcn, d);
    NodeSides(m, y, item, h - d, a, b, key);
    ExtendOf(m, x, h, pos', vcn', d);
    KeysConcat(a + Before(m, y, item, h - d), [Block(k, Get(m, k), h - d - 1)]);
    One(k, Get(m, k), h - d - 1, Entry(0, 0, 0));
    assert Keys(a + Before(m, y, item, h - d)) + [] == Keys(a + Before(m, y, item, h - d));
  }

  lemma {:induction false} ArraysOf(m: Store, x: Node, h: nat, pos: seq<nat>, vcn: seq<int>, pos': seq<nat>,
                                    vcn': seq<int>, d: nat)
    requires Route(m, x, h, pos, vcn, 0, d) && |pos'| == |pos| && |vcn'| == |vcn| && d < |pos| && d < |vcn|
    requires pos'[..d] == pos[..d] && vcn'[..d + 1] == vcn[..d + 1]
    ensures Route(m, x, h, pos', vcn', 0, d)
    ensures LeftOf(m, x, h, pos', vcn', d) == LeftOf(m, x, h, pos, vcn, d)
            && RightOf(m, x, h, pos', vcn', d) == RightOf(m, x, h, pos, vcn, d)
    ensures d > 0 ==> vcn'[d] == vcn[d]
  {
    hide Left, Right;
    RouteArrays(m, x, h, pos, vcn, pos', vcn', 0, d);
    assert vcn'[d] == vcn'[..d + 1][d] == vcn[..d + 1][d];
  }

  ghost predicate HasKey(s: seq<Entry>, key: int) {
    exists i :: 0 <= i < |s| && s[i].key == key
  }

  lemma {:induction false} HasKeyConcat(a: seq<Entry>, b: seq<Entry>, key: int)
    ensures HasKey(a + b, key) <==> HasKey(a, key) || HasKey(b, key)
  {
    var s := a + b;
    if HasKey(a, key) {
      var i :| 0 <= i < |a| && a[i].key == key;
      assert s[i].key == key;
    }
    if HasKey(b, key) {
      var i :| 0 <= i < |b| && b[i].key == key;
      assert s[|a| + i].key == key;
    }
  }

  lemma {:induction false} SidesLack(s: seq<Entry>, key: int)
    requires AllBelow(s, key) || AllAbove(s, key)
    ensures !HasKey(s, key)
  {
  }

  /** The entry found is in the index. */
  lemma {:induction false} FoundIsThere(m: Store, x: Node, h: nat, pos: seq<nat>, vcn: seq<int>, d: nat, p: nat)
    requires Route(m, x, h, pos, vcn, 0, d) && (d > 0 ==> d < |vcn| && vcn[d] >= 0) && p < |NodeAt(m, x, vcn, d).keys|
    ensures HasKey(Keys(Walk(m, x, 0, h)), NodeAt(m, x, vcn, d).keys[p].key)
  {
    hide Before, After, Sub, LeftOf, RightOf, Route, Walk, Keys, HasKey;
    FocusOf(m, x, h, pos, vcn, d);
    var a, b, y := LeftOf(m, x, h, pos, vcn, d), RightOf(m, x, h, pos, vcn, d), NodeAt(m, x, vcn, d);
    var k := h - d;
    WalkSplit(m, y, p, k);
    Sums3(a, Walk(m, y, 0, k), b);
    Sums3(Before(m, y, p, k), Sub(m, y, p, k), After(m, y, p, k));
    AfterFirst(m, y, p, k);
    FirstHas(Keys(After(m, y, p, k)), y.keys[p].key);
    HasKeyConcat(Keys(Before(m, y, p, k)) + Keys(Sub(m, y, p, k)), Keys(After(m, y, p, k)), y.keys[p].key);
    HasKeyConcat(Keys(a), Keys(Walk(m, y, 0, k)), y.keys[p].key);
    HasKeyConcat(Keys(a) + Keys(Walk(m, y, 0, k)), Keys(b), y.keys[p].key);
  }

  lemma {:induction false} FirstHas(s: seq<Entry>, key: int)
    requires s != [] && s[0].key == key
    ensures HasKey(s, key)
  {
  }

  lemma {:induction false} LeafRegroup<T>(a: seq<T>, s: seq<T>, b: seq<T>, p: nat)
    requires p <= |s|
    ensures a + s[0..] + b == (a + s[..p]) + (s[p..] + b)
  {
  }

  /** The index around place `p` of the leaf at the end of the path. */
  lemma {:induction false} LeafPlace(m: Store, x: Node, h: nat, pos: seq<nat>, vcn: seq<int>, p: nat)
    requires Route(m, x, h, pos, vcn, 0, h) && (h > 0 ==> h < |vcn| && vcn[h] >= 0) && p <= |NodeAt(m, x, vcn, h).keys|
    ensures var y := NodeAt(m, x, vcn, h);
            Keys(Walk(m, x, 0, h)) == (Keys(LeftOf(m, x, h, pos, vcn, h)) + y.keys[..p])
                + (y.keys[p..] + Keys(RightOf(m, x, h, pos, vcn, h)))
  {
    hide LeftOf, RightOf, Route, Walk, Keys;
    FocusOf(m, x, h, pos, vcn, h);
    var a, b, y := LeftOf(m, x, h, pos, vcn, h), RightOf(m, x, h, pos, vcn, h), NodeAt(m, x, vcn, h);
    Sums3(a, Walk(m, y, 0, 0), b);
    LeafWalk(m, y, 0);
    LeafRegroup(Keys(a), y.keys, Keys(b), p);
  }

  /** The lookup ended in a leaf: the key is not there, and the place found is where it belongs. */
  lemma {:induction false} LeafSides(m: Store, x: Node, h: nat, pos: seq<nat>, vcn: seq<int>, p: nat, key: int)
    requires Between(m, x, h, pos, vcn, h, key) && (h > 0 ==> h < |vcn| && vcn[h] >= 0)
             && p <= |NodeAt(m, x, vcn, h).keys|
    requires Sorted(Keys(Walk(m, x, 0, h)))
    requires var y := NodeAt(m, x, vcn, h);
             (p > 0 ==> y.keys[p - 1].key < key) && (p < |y.keys| ==> y.keys[p].key > key)
    ensures var y := NodeAt(m, x, vcn, h);
            && AllBelow(Keys(LeftOf(m, x, h, pos, vcn, h)) + y.keys[..p], key)
                && AllAbove(y.keys[p..] + Keys(RightOf(m, x, h, pos, vcn, h)), key)
            && !HasKey(Keys(Walk(m, x, 0, h)), key)
  {
    hide LeftOf, RightOf, Route, Walk, Keys, HasKey, Sorted, AllBelow, AllAbove;
    var y := NodeAt(m, x, vcn, h);
    var a, b := Keys(LeftOf(m, x, h, pos, vcn, h)), Keys(RightOf(m, x, h, pos, vcn, h));
    LeafPlace(m, x, h, pos, vcn, p);
    assert (a + y.keys[..p]) + (y.keys[p..] + b) == a + y.keys[..p] + [] + y.keys[p..] + b;
    SortedSides(a, y.keys[..p], [], y.keys[p..], b, key);
    SidesLack(a + y.keys[..p], key);
    SidesLack(y.keys[p..] + b, key);
    HasKeyConcat(a + y.keys[..p], y.keys[p..] + b, key);
  }
}

/** Where an entry stands in the order of the whole index (`ntfs_index_next`). */
module IndexOrder {
  import opened IndexTree
  import opened IndexPath
  import opened IndexShape
  import opened IndexEdit
  import opened IndexSplit
  import opened IndexLookup
  import opened IndexSuccessor

  /** The entries before place `p` of the node at level `d`, including those below that place. */
  ghost function Passed(m: Store, x: Node, h: nat, pos: seq<nat>, vcn: seq<int>, d: nat, p: nat): (r: seq<Entry>)
    requires d <= h && Route(m, x, h, pos, vcn, 0, d) && (d > 0 ==> d < |vcn| && vcn[d] >= 0)
             && p <= |NodeAt(m, x, vcn, d).keys|
  {
    var y := NodeAt(m, x, vcn, d);
    Keys(LeftOf(m, x, h, pos, vcn, d)) + Keys(Before(m, y, p, h - d)) + Keys(Sub(m, y, p, h - d))
  }

  lemma {:induction false} PlaceFollows(m: Store, x: Node, h: nat, pos: seq<nat>, vcn: seq<int>, d: nat, p: nat)
    requires d <= h && Route(m, x, h, pos, vcn, 0, d) && (d > 0 ==> d < |vcn| && vcn[d] >= 0)
             && p <= |NodeAt(m, x, vcn, d).keys|
    ensures Keys(Walk(m, x, 0, h))
         == Passed(m, x, h, pos, vcn, d, p)
             + (Keys(After(m, NodeAt(m, x, vcn, d), p, h - d)) + Keys(RightOf(m, x, h, pos, vcn, d)))
  {
    hide LeftOf, RightOf, Route, Keys, Vcns, Weight, Walk, Before, Sub, After;
    FocusOf(m, x, h, pos, vcn, d);
    var y, k := NodeAt(m, x, vcn, d), h - d;
    var a, b := LeftOf(m, x, h, pos, vcn, d), RightOf(m, x, h, pos, vcn, d);
    Sums3(a, Walk(m, y, 0, k), b);
    WalkSplit(m, y, p, k);
    Sums3(Before(m, y, p, k), Sub(m, y, p, k), After(m, y, p, k));
    FollowSeqs(Keys(Walk(m, x, 0, h)), Keys(a), Keys(Walk(m, y, 0, k)), Keys(Before(m, y, p, k)), Keys(Sub(m, y, p, k)),
               Keys(After(m, y, p, k)), Keys(b));
  }

  /** An entry follows what is before it. */
  lemma {:induction false} EntryFollows(m: Store, x: Node, h: nat, pos: seq<nat>, vcn: seq<int>, d: nat, p: nat)
    requires d <= h && Route(m, x, h, pos, vcn, 0, d) && (d > 0 ==> d < |vcn| && vcn[d] >= 0)
             && p <= |NodeAt(m, x, vcn, d).keys|
    ensures var y, t, s := NodeAt(m, x, vcn, d), Keys(Walk(m, x, 0, h)), Passed(m, x, h, pos, vcn, d, p);
            && |s| <= |t| && t[..|s|] == s
            && (p < |y.keys| ==> |s| < |t| && t[|s|] == y.keys[p])
            && (d == 0 && p == |y.keys| ==> t == s)
  {
    hide LeftOf, Route, Keys, Walk, Passed, After;
    PlaceFollows(m, x, h, pos, vcn, d, p);
    var y, k := NodeAt(m, x, vcn, d), h - d;
    AfterIs(m, y, p, k);
    KeysNone();
    if p < |y.keys| {
      AfterFirst(m, y, p, k);
    }
  }

  lemma {:induction false} FollowSeqs<T>(t: seq<T>, a: seq<T>, w: seq<T>, p: seq<T>, s: seq<T>, q: seq<T>, b: seq<T>)
    requires t == a + w + b && w == p + s + q
    ensures t == (a + p + s) + (q + b)
  {
  }

  /** The end of a node stands where its parent entry stands. */
  lemma {:induction false} PassedUp(m: Store, x: Node, h: nat, pos: seq<nat>, vcn: seq<int>, d: nat)
    requires d < h && Route(m, x, h, pos, vcn, 0, d + 1) && d + 1 < |pos| == |vcn| && vcn[d + 1] >= 0
    ensures Route(m, x, h, pos, vcn, 0, d) && (d > 0 ==> vcn[d] >= 0) && pos[d] <= |NodeAt(m, x, vcn, d).keys|
    ensures Passed(m, x, h, pos, vcn, d, pos[d]) == Passed(m, x, h, pos, vcn, d + 1, |NodeAt(m, x, vcn, d + 1).keys|)
  {
    hide LeftOf, RightOf, Route, Keys, Walk, Before, Tree;
    RouteStep(m, x, h, pos, vcn, 0, d);
    ExtendOf(m, x, h, pos, vcn, d);
    var y, n, v := NodeAt(m, x, vcn, d), NodeAt(m, x, vcn, d + 1), vcn[d + 1];
    var k, e := h - d - 1, |n.keys|;
    var a, p := LeftOf(m, x, h, pos, vcn, d), Before(m, y, pos[d], h - d);
    KeysConcat(a + p, [Block(v, n, k)]);
    KeysConcat(a, p);
    One(v, n, k, Entry(0, 0, 0));
    TreeParts(Limits(0, 0, 0), m, v, k);
    WalkSplit(m, n, e, k);
    Sums3(Before(m, n, e, k), Sub(m, n, e, k), []);
    KeysNone();
    UpSeqs(Keys(a) + Keys(p), Keys(Before(m, n, e, k)), Keys(Sub(m, n, e, k)));
  }

  lemma {:induction false} UpSeqs<T>(a: seq<T>, p: seq<T>, s: seq<T>)
    ensures a + [] + p + s == a + (p + s + [])
  {
  }

  /** The next place of a leaf comes right after the entry. */
  lemma {:induction false} PassedNext(m: Store, x: Node, h: nat, pos: seq<nat>, vcn: seq<int>, p: nat)
    requires Route(m, x, h, pos, vcn, 0, h) && (h > 0 ==> h < |vcn| && vcn[h] >= 0) && p < |NodeAt(m, x, vcn, h).keys|
    ensures var y := NodeAt(m, x, vcn, h);
            Passed(m, x, h, pos, vcn, h, p + 1) == Passed(m, x, h, pos, vcn, h, p) + [y.keys[p]]
  {
    hide LeftOf, RightOf, Route, Keys, Walk;
    var y := NodeAt(m, x, vcn, h);
    KeysConcat(Before(m, y, p, 0) + Sub(m, y, p, 0), [Item(y.keys[p])]);
    KeysConcat(Before(m, y, p, 0), Sub(m, y, p, 0));
    One(0, y, 0, y.keys[p]);
    KeysNone();
  }

  /** The first leaf below the subnode after an entry starts right after that entry. */
  lemma {:induction false} PassedDown(m: Store, x: Node, h: nat, pos: seq<nat>, vcn: seq<int>, d: nat, q: nat)
    requires d < h < |pos| == |vcn| && Route(m, x, h, pos, vcn, 0, d) && (d > 0 ==> vcn[d] >= 0)
    requires var n := NodeAt(m, x, vcn, d);
             Shape(n, h - d) && q < |n.keys| && pos[d] == q + 1 && vcn[d + 1] == n.kids[q + 1]
    requires Spine(m, pos, vcn, d + 1, h)
    ensures Route(m, x, h, pos, vcn, 0, h) && vcn[h] >= 0
    ensures Passed(m, x, h, pos, vcn, h, 0) == Passed(m, x, h, pos, vcn, d, q) + [NodeAt(m, x, vcn, d).keys[q]]
  {
    hide LeftOf, RightOf, Route, Keys, Walk, Spine;
    BeforeNext(m, x, h, pos, vcn, d, q);
    SpineRoute(m, x, h, pos, vcn, d + 1, h);
    RouteHeight(m, x, h, pos, vcn, 0, h);
    KeysNone();
    var n, k := NodeAt(m, x, vcn, d), h - d;
    DownSeqs(Keys(LeftOf(m, x, h, pos, vcn, d)), Keys(Before(m, n, q, k)), Keys(Sub(m, n, q, k)), n.keys[q]);
  }

  lemma {:induction false} DownSeqs<T>(a: seq<T>, p: seq<T>, s: seq<T>, e: T)
    ensures a + (p + s + [e]) + [] + [] == (a + p + s) + [e]
  {
  }

  /** In a leaf these are the entries left of it and its own ones before the place. */
  lemma {:induction false} PassedLeaf(m: Store, x: Node, h: nat, pos: seq<nat>, vcn: seq<int>, p: nat)
    requires Route(m, x, h, pos, vcn, 0, h) && (h > 0 ==> h < |vcn| && vcn[h] >= 0) && p <= |NodeAt(m, x, vcn, h).keys|
    ensures Passed(m, x, h, pos, vcn, h, p) == Keys(LeftOf(m, x, h, pos, vcn, h)) + NodeAt(m, x, vcn, h).keys[..p]
  {
    hide LeftOf, Route, Keys, Before;
    LeafBefore(m, NodeAt(m, x, vcn, h), p);
    KeysNone();
  }

  lemma {:induction false} LeafBefore(m: Store, y: Node, p: nat)
    requires p <= |y.keys|
    ensures Keys(Before(m, y, p, 0)) == y.keys[..p]
    decreases p
  {
    hide Keys;
    KeysNone();
    if p > 0 {
      LeafBefore(m, y, p - 1);
      var e := [Item(y.keys[p - 1])];
      assert Before(m, y, p, 0) == Before(m, y, p - 1, 0) + e;
      KeysConcat(Before(m, y, p - 1, 0), e);
      One(0, y, 0, y.keys[p - 1]);
    }
  }
}

/** Replacing an entry of an inner node by its successor (`ntfs_index_rm_node`). */
module IndexSuccessor {
  import opened Sequences
  import opened IndexTree
  import opened IndexPath
  import opened IndexShape
  import opened IndexEdit
  import opened IndexSplit
  import opened IndexLookup
  import opened IndexUpdate
  import opened IndexRemove

  /** From level `c` to level `e` the path goes down on the left. */
  ghost predicate Spine(m: Store, pos: seq<nat>, vcn: seq<int>, c: nat, e: nat) {
    && e < |pos| == |vcn|
    && forall j :: c <= j < e ==>
         && pos[j] == 0 && vcn[j] >= 0 && Get(m, vcn[j]).kids != []
         && vcn[j + 1] == Get(m, vcn[j]).kids[0]
  }

  /** One step down on the left passes no entry. */
  lemma {:induction false} StepLeft(m: Store, x: Node, h: nat, pos: seq<nat>, vcn: seq<int>, d: nat)
    requires Route(m, x, h, pos, vcn, 0, d) && d < h && d + 1 < |pos| == |vcn| && (d > 0 ==> vcn[d] >= 0)
    requires var y := NodeAt(m, x, vcn, d); pos[d] == 0 && y.kids != [] && vcn[d + 1] == y.kids[0]
    ensures Route(m, x, h, pos, vcn, 0, d + 1)
    ensures Keys(LeftOf(m, x, h, pos, vcn, d + 1)) == Keys(LeftOf(m, x, h, pos, vcn, d))
  {
    hide LeftOf, RightOf, Route, Keys, Walk;
    ExtendOf(m, x, h, pos, vcn, d);
    var a, k := LeftOf(m, x, h, pos, vcn, d), vcn[d + 1];
    assert a + Before(m, NodeAt(m, x, vcn, d), 0, h - d) == a;
    KeysConcat(a, [Block(k, Get(m, k), h - d - 1)]);
    One(k, Get(m, k), h - d - 1, Entry(0, 0, 0));
    assert Keys(a) + [] == Keys(a);
  }

  lemma {:induction false} SpineRoute(m: Store, x: Node, h: nat, pos: seq<nat>, vcn: seq<int>, c: nat, e: nat)
    requires Route(m, x, h, pos, vcn, 0, c) && 0 < c <= e <= h && Spine(m, pos, vcn, c, e)
    ensures Route(m, x, h, pos, vcn, 0, e)
    ensures Keys(LeftOf(m, x, h, pos, vcn, e)) == Keys(LeftOf(m, x, h, pos, vcn, c))
    decreases e - c
  {
    hide LeftOf, RightOf, Route, Keys, Walk;
    if c < e {
      SpineRoute(m, x, h, pos, vcn, c, e - 1);
      var j := e - 1;
      assert pos[j] == 0;
      StepLeft(m, x, h, pos, vcn, e - 1);
    }
  }

  /** A path passes no block twice. */
  lemma {:induction false} PathDistinct(m: Store, x: Node, h: nat, pos: seq<nat>, vcn: seq<int>, d: nat, e: nat)
    requires Route(m, x, h, pos, vcn, 0, e) && 0 < d < e && e <= h && e < |pos| == |vcn|
             && Distinct(Vcns(Walk(m, x, 0, h)))
    ensures vcn[d] >= 0 && vcn[e] >= 0 && vcn[d] != vcn[e]
  {
    hide Left, Right, Route, Vcns, Distinct, Walk, Tree;
    LeftHas(m, x, h, pos, vcn, d, e);
    Focus(m, x, h, pos, vcn, 0, e);
    Apart(Left(m, x, h, pos, vcn, 0, e), Tree(m, vcn[e], h - e), Right(m, x, h, pos, vcn, 0, e));
    TreeParts(Limits(0, 0, 0), m, vcn[e], h - e);
  }

  lemma {:induction false} LeftHas(m: Store, x: Node, h: nat, pos: seq<nat>, vcn: seq<int>, d: nat, e: nat)
    requires Route(m, x, h, pos, vcn, 0, e) && 0 < d < e && e < |pos| == |vcn|
    ensures vcn[d] >= 0 && vcn[d] in Vcns(Left(m, x, h, pos, vcn, 0, e))
    decreases e
  {
    hide Left, Right, Route, Vcns, Before, After;
    SidesAt(m, x, h, pos, vcn, e - 1);
    var c := e - 1;
    var a, v := Left(m, x, h, pos, vcn, 0, c), vcn[c];
    VcnsConcat(LeftOf(m, x, h, pos, vcn, c), Before(m, NodeAt(m, x, vcn, c), pos[c], h - c));
    VcnsConcat(a, [Block(v, Get(m, v), h - c)]);
    One(v, Get(m, v), h - c, Entry(0, 0, 0));
    if d < c {
      LeftHas(m, x, h, pos, vcn, d, c);
    }
  }

  lemma {:induction false} SpineKept(m: Store, x: Node, h: nat, pos: seq<nat>, vcn: seq<int>, d: nat, e: nat, y: Node)
    requires Route(m, x, h, pos, vcn, 0, e) && d < e <= h && e < |pos| == |vcn| && Distinct(Vcns(Walk(m, x, 0, h)))
    requires (d > 0 ==> vcn[d] >= 0) && Spine(m, pos, vcn, d + 1, e)
    ensures Spine(StoreAfter(m, vcn, d, y), pos, vcn, d + 1, e)
    ensures vcn[e] >= 0 && Get(StoreAfter(m, vcn, d, y), vcn[e]) == Get(m, vcn[e])
  {
    hide Route, Vcns, Distinct, Walk;
    RouteHeight(m, x, h, pos, vcn, 0, e);
    if d > 0 {
      forall j | d < j <= e
        ensures vcn[j] != vcn[d]
      {
        RoutePrefix(m, x, h, pos, vcn, j, e);
        PathDistinct(m, x, h, pos, vcn, d, j);
      }
    }
  }

  lemma {:induction false} RoutePrefix(m: Store, x: Node, h: nat, pos: seq<nat>, vcn: seq<int>, j: nat, e: nat)
    requires Route(m, x, h, pos, vcn, 0, e) && j <= e
    ensures Route(m, x, h, pos, vcn, 0, j)
    decreases e - j
  {
    hide Route;
    if j < e {
      RouteStep(m, x, h, pos, vcn, 0, e - 1);
      RoutePrefix(m, x, h, pos, vcn, j, e - 1);
    }
  }

  /** The path to the node rewritten, in the new index. */
  lemma {:induction false} RewrittenRoute(m: Store, x: Node, h: nat, pos: seq<nat>, vcn: seq<int>, c: nat, y: Node)
    requires c <= h && Route(m, x, h, pos, vcn, 0, c) && (c > 0 ==> c < |vcn| && vcn[c] >= 0)
    requires Distinct(Vcns(Walk(m, x, 0, h)))
    requires Among(Vcns(Walk(m, y, 0, h - c)), Vcns(Walk(m, NodeAt(m, x, vcn, c), 0, h - c)))
    ensures var m', x' := StoreAfter(m, vcn, c, y), RootAfter(x, c, y);
            && Route(m', x', h, pos, vcn, 0, c) && NodeAt(m', x', vcn, c) == y
            && Keys(LeftOf(m', x', h, pos, vcn, c)) == Keys(LeftOf(m, x, h, pos, vcn, c))
            && Walk(m', y, 0, h - c) == Walk(m, y, 0, h - c)
  {
    hide Left, Right, Route, Vcns, Distinct, Walk, Tree, Keys;
    if c == 0 {
      RouteHere(m, y, h, pos, vcn);
    } else {
      BlockRewrite(m, x, h, pos, vcn, c, y);
      var a, v, k := Left(m, x, h, pos, vcn, 0, c), vcn[c], h - c;
      KeysConcat(a, [Block(v, Get(m, v), k)]);
      KeysConcat(a, [Block(v, y, k)]);
      One(v, Get(m, v), k, Entry(0, 0, 0));
      One(v, y, k, Entry(0, 0, 0));
    }
  }

  /** Entry `q` of the node at level `d` is replaced by `e`, the path goes on into the next subnode. */
  lemma {:induction false} SwapRoute(l: Limits, m: Store, x: Node, h: nat, pos: seq<nat>, vcn: seq<int>, d: nat, q: nat,
                                     e: Entry, used: set<nat>, extra: set<nat>) returns (a: seq<Entry>, b: seq<Entry>)
    requires d < h && Route(m, x, h, pos, vcn, 0, d) && (d > 0 ==> vcn[d] >= 0) && d + 1 < |pos| == |vcn|
    requires Sound(l, Walk(m, x, 0, h), used, extra)
    requires var n := NodeAt(m, x, vcn, d);
             && Shape(n, h - d) && q < |n.keys| && pos[d] == q + 1 && vcn[d + 1] == n.kids[q + 1]
             && (d > 0 ==> Fits(l, Swapped(n, q, e), h - d))
    ensures var n := NodeAt(m, x, vcn, d);
            var m', x' := StoreAfter(m, vcn, d, Swapped(n, q, e)), RootAfter(x, d, Swapped(n, q, e));
            && Sound(l, Walk(m', x', 0, h), used, extra)
            && Keys(Walk(m, x, 0, h)) == a + [n.keys[q]] + b && Keys(Walk(m', x', 0, h)) == a + [e] + b
            && Route(m, x, h, pos, vcn, 0, d + 1) && Keys(LeftOf(m, x, h, pos, vcn, d + 1)) == a + [n.keys[q]]
            && Route(m', x', h, pos, vcn, 0, d + 1) && Keys(LeftOf(m', x', h, pos, vcn, d + 1)) == a + [e]
  {
    hide LeftOf, RightOf, Route, Vcns, Distinct, Walk, Tree, Keys, Before, After, Sub, Fits, AllFit, StoreAfter,
         RootAfter;
    var n, k := NodeAt(m, x, vcn, d), h - d;
    var y := Swapped(n, q, e);
    SwapTokens(l, m, x, h, pos, vcn, d, q, e, used, extra);
    NodeRekey(l, m, x, h, pos, vcn, d, y, used, extra);
    SoundDistinct(l, Walk(m, x, 0, h), used, extra);
    RewrittenRoute(m, x, h, pos, vcn, d, y);
    FocusOf(m, x, h, pos, vcn, d);
    Sums3(LeftOf(m, x, h, pos, vcn, d), Walk(m, n, 0, k), RightOf(m, x, h, pos, vcn, d));
    var left, p, w, right := Keys(LeftOf(m, x, h, pos, vcn, d)), Keys(Before(m, n, q, k)) + Keys(Sub(m, n, q, k)),
        Keys(Walk(m, n, q + 1, k)),
                             Keys(RightOf(m, x, h, pos, vcn, d));
    a, b := left + p, w + right;
    SwapSeqs(left, p, n.keys[q], w, right);
    SwapSeqs(left, p, e, w, right);
    BeforeNext(m, x, h, pos, vcn, d, q);
    var m', x' := StoreAfter(m, vcn, d, y), RootAfter(x, d, y);
    BeforeNext(m', x', h, pos, vcn, d, q);
    SwapBefore(m, m', n, q, e, k);
  }

  lemma {:induction false} SoundDistinct(l: Limits, t: seq<Token>, used: set<nat>, extra: set<nat>)
    requires Sound(l, t, used, extra)
    ensures Distinct(Vcns(t)) && AllFit(l, t) && Among(Vcns(t), Vcns(t))
  {
  }

  lemma {:induction false} SwapSeqs<T>(l: seq<T>, p: seq<T>, e: T, w: seq<T>, r: seq<T>)
    ensures l + (p + [e] + w) + r == (l + p) + [e] + (w + r)
    ensures l + (p + [e]) == (l + p) + [e]
  {
  }

  /** The keys before subnode `q + 1`. */
  lemma {:induction false} BeforeNext(m: Store, x: Node, h: nat, pos: seq<nat>, vcn: seq<int>, d: nat, q: nat)
    requires d < h && Route(m, x, h, pos, vcn, 0, d) && (d > 0 ==> vcn[d] >= 0) && d + 1 < |pos| == |vcn|
    requires var n := NodeAt(m, x, vcn, d);
             Shape(n, h - d) && q < |n.keys| && pos[d] == q + 1 && vcn[d + 1] == n.kids[q + 1]
    ensures Route(m, x, h, pos, vcn, 0, d + 1)
    ensures var n, k := NodeAt(m, x, vcn, d), h - d;
            Keys(LeftOf(m, x, h, pos, vcn, d + 1))
            == Keys(LeftOf(m, x, h, pos, vcn, d)) + (Keys(Before(m, n, q, k)) + Keys(Sub(m, n, q, k)) + [n.keys[q]])
  {
    hide LeftOf, RightOf, Route, Walk, Tree, Keys, Sub;
    var n, k := NodeAt(m, x, vcn, d), h - d;
    ExtendOf(m, x, h, pos, vcn, d);
    var a, v := LeftOf(m, x, h, pos, vcn, d), vcn[d + 1];
    Sums3(a, Before(m, n, q + 1, k), [Block(v, Get(m, v), k - 1)]);
    Sums3(Before(m, n, q, k), Sub(m, n, q, k), [Item(n.keys[q])]);
    One(v, Get(m, v), k - 1, n.keys[q]);
    assert forall s: seq<Entry> :: s + [] == s;
  }

  /** The part before entry `q` is the same after the exchange. */
  lemma {:induction false} SwapBefore(m: Store, m': Store, n: Node, q: nat, e: Entry, h: nat)
    requires Shape(n, h) && q < |n.keys| && h > 0 && Walk(m', Swapped(n, q, e), 0, h) == Walk(m, Swapped(n, q, e), 0, h)
    ensures Before(m', Swapped(n, q, e), q, h) == Before(m, n, q, h)
            && Sub(m', Swapped(n, q, e), q, h) == Sub(m, n, q, h)
  {
    hide Walk, Tree, Matches;
    var y := Swapped(n, q, e);
    WalkMatches(m', y, 0, h);
    WalkSplit(m, y, q, h);
    MatchesConcat(m', Before(m, y, q, h) + Sub(m, y, q, h), After(m, y, q, h));
    MatchesConcat(m', Before(m, y, q, h), Sub(m, y, q, h));
    BeforeFrame(m, m', y, q, h);
    SubFrame(m, m', y, q, h);
    BeforeSame(m, n, y, q, h);
  }

  lemma {:induction false} SwapTokens(l: Limits, m: Store, x: Node, h: nat, pos: seq<nat>, vcn: seq<int>, d: nat,
                                      q: nat, e: Entry, used: set<nat>, extra: set<nat>)
    requires d < h && Route(m, x, h, pos, vcn, 0, d) && (d > 0 ==> vcn[d] >= 0) && d + 1 < |pos| == |vcn|
    requires Sound(l, Walk(m, x, 0, h), used, extra)
    requires var n := NodeAt(m, x, vcn, d); Shape(n, h - d) && q < |n.keys|
    ensures var n, k := NodeAt(m, x, vcn, d), h - d;
            var w, w' := Walk(m, n, 0, k), Walk(m, Swapped(n, q, e), 0, k);
            && Vcns(w') == Vcns(w) && AllFit(l, w') && Among(Vcns(w'), Vcns(w))
            && Keys(w) == Keys(Before(m, n, q, k)) + Keys(Sub(m, n, q, k)) + [n.keys[q]] + Keys(Walk(m, n, q + 1, k))
            && Keys(w') == Keys(Before(m, n, q, k)) + Keys(Sub(m, n, q, k)) + [e] + Keys(Walk(m, n, q + 1, k))
  {
    hide LeftOf, RightOf, Route, Vcns, Distinct, Walk, Tree, Keys, Before, After, Sub, Fits, AllFit, Weight;
    var n, k := NodeAt(m, x, vcn, d), h - d;
    FocusOf(m, x, h, pos, vcn, d);
    SoundDistinct(l, Walk(m, x, 0, h), used, extra);
    Fit3(l, LeftOf(m, x, h, pos, vcn, d), Walk(m, n, 0, k), RightOf(m, x, h, pos, vcn, d));
    SwappedWalk(m, n, q, e, k);
    SwapParts(l, Before(m, n, q, k), Sub(m, n, q, k), n.keys[q], Walk(m, n, q + 1, k));
    SwapParts(l, Before(m, n, q, k), Sub(m, n, q, k), e, Walk(m, n, q + 1, k));
    AmongSelf(Vcns(Walk(m, n, 0, k)));
  }

  lemma {:induction false} AmongSelf(s: seq<nat>)
    ensures Among(s, s)
  {
  }

  lemma {:induction false} SwapParts(l: Limits, p: seq<Token>, s: seq<Token>, e: Entry, w: seq<Token>)
    ensures var t := p + s + ([Item(e)] + w);
            && Vcns(t) == Vcns(p) + Vcns(s) + Vcns(w) && Keys(t) == Keys(p) + Keys(s) + [e] + Keys(w)
            && (AllFit(l, t) <==> AllFit(l, p) && AllFit(l, s) && AllFit(l, w))
  {
    hide Vcns, Keys, AllFit, Weight;
    Sums3(p, s, [Item(e)] + w);
    Fit3(l, p, s, [Item(e)] + w);
    KeysConcat([Item(e)], w);
    VcnsConcat([Item(e)], w);
    AllFitConcat(l, [Item(e)], w);
    AllFitOne(l, 0, NOWHERE, 0, e);
    One(0, NOWHERE, 0, e);
    assert [] + Vcns(w) == Vcns(w);
  }

  /** One more level on the path. */
  lemma {:induction false} PathDown(m: Store, x: Node, h: nat, pos: seq<nat>, vcn: seq<int>, pos': seq<nat>,
                                    vcn': seq<int>, d: nat)
    requires Route(m, x, h, pos, vcn, 0, d) && d < h && d + 1 < |pos| == |vcn| == |pos'| == |vcn'|
             && (d > 0 ==> vcn[d] >= 0)
    requires pos'[..d] == pos[..d] && vcn'[..d + 1] == vcn[..d + 1]
    requires var y := NodeAt(m, x, vcn, d); pos'[d] <= |y.keys| && pos'[d] < |y.kids| && vcn'[d + 1] == y.kids[pos'[d]]
    ensures Route(m, x, h, pos', vcn', 0, d + 1)
  {
    hide LeftOf, RightOf, Route;
    ArraysOf(m, x, h, pos, vcn, pos', vcn', d);
    ExtendOf(m, x, h, pos', vcn', d);
  }

  /** After the exchange: the leaf with the successor lies right after the entry replaced. */
  lemma {:induction false} SwapLeaf(l: Limits, m: Store, x: Node, h: nat, pos: seq<nat>, vcn: seq<int>, d: nat, q: nat,
                                    e: Entry, used: set<nat>)
    returns (a: seq<Entry>, b: seq<Entry>)
    requires d < h < |pos| == |vcn| && Route(m, x, h, pos, vcn, 0, h) && (d > 0 ==> vcn[d] >= 0) && vcn[h] >= 0
    requires Sound(l, Walk(m, x, 0, h), used, {}) && Spine(m, pos, vcn, d + 1, h)
    requires var n := NodeAt(m, x, vcn, d);
             && Shape(n, h - d) && q < |n.keys| && pos[d] == q + 1 && vcn[d + 1] == n.kids[q + 1]
             && (d > 0 ==> Fits(l, Swapped(n, q, e), h - d))
    requires Get(m, vcn[h]).keys != [] && e == Get(m, vcn[h]).keys[0]
    ensures var n, leaf := NodeAt(m, x, vcn, d), Get(m, vcn[h]);
            var m', x' := StoreAfter(m, vcn, d, Swapped(n, q, e)), RootAfter(x, d, Swapped(n, q, e));
            && Sound(l, Walk(m', x', 0, h), used, {}) && Route(m', x', h, pos, vcn, 0, h) && Get(m', vcn[h]) == leaf
            && Keys(Walk(m, x, 0, h)) == a + [n.keys[q]] + b
            && Keys(LeftOf(m', x', h, pos, vcn, h)) == a + [e]
            && a + b == (a + [e]) + leaf.keys[1..] + Keys(RightOf(m', x', h, pos, vcn, h))
  {
    hide LeftOf, RightOf, Route, Vcns, Distinct, Walk, Keys, Fits, AllFit, StoreAfter, RootAfter, Sound, Spine;
    RoutePrefix(m, x, h, pos, vcn, d, h);
    var n, leaf := NodeAt(m, x, vcn, d), Get(m, vcn[h]);
    var y := Swapped(n, q, e);
    var m', x' := StoreAfter(m, vcn, d, y), RootAfter(x, d, y);
    a, b := SwapRoute(l, m, x, h, pos, vcn, d, q, e, used, {});
    SoundDistinct(l, Walk(m, x, 0, h), used, {});
    SpineKept(m, x, h, pos, vcn, d, h, y);
    SpineRoute(m', x', h, pos, vcn, d + 1, h);
    LeafPlace(m', x', h, pos, vcn, 0);
    Cancel(a, e, b, leaf.keys, Keys(RightOf(m', x', h, pos, vcn, h)));
  }

  lemma {:induction false} Cancel<T>(a: seq<T>, e: T, b: seq<T>, k: seq<T>, r: seq<T>)
    requires a + [e] + b == ((a + [e]) + k[..0]) + (k[0..] + r) && k != [] && k[0] == e
    ensures a + b == (a + [e]) + k[1..] + r
  {
    var s := a + [e] + b;
    assert b == s[|a| + 1..];
    assert ((a + [e]) + k[..0]) + (k[0..] + r) == (a + [e]) + (k + r);
    assert k + r == s[|a| + 1..];
    assert k == [e] + k[1..];
  }

  /** A leaf at the end of the path: the blocks outside it are those of the bitmap without the leaf. */
  lemma {:induction false} LeafMarks(l: Limits, m: Store, x: Node, h: nat, pos: seq<nat>, vcn: seq<int>, used: set<nat>)
    requires 0 < h < |pos| == |vcn| && Route(m, x, h, pos, vcn, 0, h) && vcn[h] >= 0
             && Sound(l, Walk(m, x, 0, h), used, {})
    ensures Marks(used - {vcn[h]}, Vcns(Left(m, x, h, pos, vcn, 0, h)), Vcns(Right(m, x, h, pos, vcn, 0, h)))
    ensures Keys(LeftOf(m, x, h, pos, vcn, h)) == Keys(Left(m, x, h, pos, vcn, 0, h))
    ensures RightOf(m, x, h, pos, vcn, h) == Right(m, x, h, pos, vcn, 0, h)
  {
    hide Left, Right, Route, Vcns, Distinct, Walk, Tree, Keys, AllFit;
    var a, b, v := Left(m, x, h, pos, vcn, 0, h), Right(m, x, h, pos, vcn, 0, h), vcn[h];
    Focus(m, x, h, pos, vcn, 0, h);
    Apart(a, Tree(m, v, 0), b);
    TreeParts(l, m, v, 0);
    LeafFits(l, m, Get(m, v));
    KeysConcat(a, [Block(v, Get(m, v), 0)]);
    One(v, Get(m, v), 0, Entry(0, 0, 0));
    assert Keys(a) + [] == Keys(a);
  }

  lemma {:induction false} SpineGrow(m: Store, pos: seq<nat>, vcn: seq<int>, c: nat, e: nat, k: int)
    requires Spine(m, pos, vcn, c, e) && c <= e && e + 1 < |pos| && pos[e] == 0 && vcn[e] >= 0
    requires Get(m, vcn[e]).kids != [] && k == Get(m, vcn[e]).kids[0]
    ensures Spine(m, pos[e := 0][e + 1 := 0], vcn[e + 1 := k], c, e + 1)
  {
  }
}

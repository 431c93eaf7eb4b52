/** Splitting a block and moving the root down (`ntfs_ib_split`, `ntfs_ir_reparent`): the entries, their
    order and the block bitmap's meaning are kept. */
module IndexSplit {
  import opened Sequences
  import opened IndexTree
  import opened IndexPath
  import opened IndexShape
  import opened IndexEdit

  /** Blocks of one part of a walk are in no other part. */
  lemma {:induction false} Apart(a: seq<Token>, b: seq<Token>, c: seq<Token>)
    requires Distinct(Vcns(a + b + c))
    ensures Vcns(a + b + c) == Vcns(a) + Vcns(b) + Vcns(c)
    ensures forall v :: v in Vcns(b) ==> v !in Vcns(a) && v !in Vcns(c)
    ensures forall v :: v in Vcns(a) ==> v !in Vcns(c)
    ensures Distinct(Vcns(b))
  {
    VcnsConcat(a + b, c);
    VcnsConcat(a, b);
    ApartSeqs(Vcns(a), Vcns(b), Vcns(c));
  }

  lemma {:induction false} ApartSeqs(a: seq<nat>, b: seq<nat>, c: seq<nat>)
    requires Distinct(a + b + c)
    ensures forall v :: v in b ==> v !in a && v !in c
    ensures forall v :: v in a ==> v !in c
    ensures Distinct(b)
  {
    var s := a + b + c;
    assert forall i :: 0 <= i < |a| ==> a[i] == s[i];
    assert forall i :: 0 <= i < |b| ==> b[i] == s[|a| + i];
    assert forall i :: 0 <= i < |c| ==> c[i] == s[|a| + |b| + i];
    forall i, j | 0 <= i < j < |b|
      ensures b[i] != b[j]
    {
      assert s[|a| + i] == b[i] && s[|a| + j] == b[j];
    }
  }

  /** The parts around subnode `q` of a node whose walk has no block twice. */
  lemma {:induction false} ApartRow(m: Store, x: Node, q: nat, h: nat)
    requires h > 0 && Shape(x, h) && q <= |x.keys| && Distinct(Vcns(Walk(m, x, 0, h)))
    ensures var v := x.kids[q];
            && v in Vcns(Walk(m, x, 0, h))
            && v !in Vcns(Before(m, x, q, h)) && v !in Vcns(After(m, x, q, h))
                && v !in Vcns(Walk(m, Get(m, v), 0, h - 1))
    ensures var v := x.kids[q];
            forall w ::
              (w in Vcns(Before(m, x, q, h)) || w in Vcns(After(m, x, q, h)) || w in Vcns(Walk(m, Get(m, v), 0, h - 1)))
              ==> w in Vcns(Walk(m, x, 0, h))
    ensures Matches(m, Before(m, x, q, h)) && Matches(m, After(m, x, q, h))
  {
    hide Walk, Tree, Before, After, Vcns, Distinct, Matches;
    var v := x.kids[q];
    var y := Get(m, v);
    var b, s, a := Before(m, x, q, h), Sub(m, x, q, h), After(m, x, q, h);
    WalkSplit(m, x, q, h);
    Apart(b, s, a);
    TreeIs(m, v, h - 1);
    VcnsConcat([Block(v, y, h - 1)], Walk(m, y, 0, h - 1));
    One(v, y, h - 1, Entry(0, 0, 0));
    HeadApart(v, Vcns(Walk(m, y, 0, h - 1)));
    WalkMatches(m, x, 0, h);
    MatchesConcat(m, b + s, a);
    MatchesConcat(m, b, s);
  }

  lemma {:induction false} HeadApart(v: nat, s: seq<nat>)
    requires Distinct([v] + s)
    ensures v !in s
  {
    var t := [v] + s;
    forall i | 0 <= i < |s|
      ensures s[i] != v
    {
      var j := i + 1;
      assert t[0] == v && t[j] == s[i];
    }
  }

  /** The store after subnode `q` of `x` has been split, new block `w`. */
  function SplitStore(m: Store, x: Node, q: nat, w: nat): (r: Store)
    requires q < |x.kids| && Get(m, x.kids[q]).keys != []
  {
    var y := Get(m, x.kids[q]);
    m[w := High(y, |y.keys| / 2)][x.kids[q] := Low(y, |y.keys| / 2)]
  }

  function SplitParent(m: Store, x: Node, q: nat, w: nat): (r: Node)
    requires q <= |x.keys| && |x.kids| == |x.keys| + 1 && Get(m, x.kids[q]).keys != []
  {
    var y := Get(m, x.kids[q]);
    Grown(x, q, y.keys[|y.keys| / 2], w)
  }

  /** A split below `x`, in any store that agrees with the split store on the blocks concerned. */
  lemma {:induction false} SplitBelow(l: Limits, m: Store, m': Store, x: Node, q: nat, h: nat, w: nat)
    returns (pre: seq<nat>, post: seq<nat>)
    requires h > 0 && Shape(x, h) && q <= |x.keys| && AllFit(l, Walk(m, x, 0, h)) && |Get(m, x.kids[q]).keys| >= 3
    requires Distinct(Vcns(Walk(m, x, 0, h))) && w !in Vcns(Walk(m, x, 0, h))
    requires forall v :: v in Vcns(Walk(m, x, 0, h)) || v == w ==> Get(m', v) == Get(SplitStore(m, x, q, w), v)
    ensures var t, t' := Walk(m, x, 0, h), Walk(m', SplitParent(m, x, q, w), 0, h);
            && Keys(t') == Keys(t) && Weight(t') + 2 == Weight(t) && AllFit(l, t')
            && Vcns(t) == pre + post && Vcns(t') == pre + [w] + post
  {
    hide Walk, Tree, Before, After, Vcns, Keys, Weight, Distinct, Matches, AllFit, Low, High;
    ApartRow(m, x, q, h);
    var v := x.kids[q];
    var y := Get(m, v);
    WalkMatches(m, y, 0, h - 1);
    MatchesBut(m, m', Before(m, x, q, h), v, w);
    MatchesBut(m, m', After(m, x, q, h), v, w);
    MatchesBut(m, m', Walk(m, y, 0, h - 1), v, w);
    pre, post := SplitRow(l, m, m', x, q, h, w);
  }

  lemma {:induction false} MatchesBut(m: Store, m': Store, t: seq<Token>, v: nat, w: nat)
    requires Matches(m, t) && v !in Vcns(t) && w !in Vcns(t)
    requires forall u :: u in Vcns(t) && u != v && u != w ==> Get(m', u) == Get(m, u)
    ensures Matches(m', t)
  {
    forall i | 0 <= i < |t| && t[i].Block?
      ensures Get(m', t[i].vcn) == t[i].node
    {
      VcnsMember(t, i);
    }
  }

  /** A block added to the walk. */
  lemma {:induction false} SoundGrow(l: Limits, t: seq<Token>, t': seq<Token>, used: set<nat>, extra: set<nat>,
                                     pre: seq<nat>, post: seq<nat>, w: nat)
    requires Sound(l, t, used, extra) && w in extra && AllFit(l, t') && Vcns(t) == pre + post
             && Vcns(t') == pre + [w] + post
    ensures Sound(l, t', used, extra - {w})
  {
    hide AllFit, Vcns, Distinct;
    DistinctInsert(pre, post, w);
  }

  /** The parent is the index root. */
  lemma {:induction false} SplitUnderRoot(l: Limits, m: Store, x: Node, q: nat, h: nat, w: nat, used: set<nat>,
                                          extra: set<nat>)
    requires h > 0 && Shape(x, h) && q <= |x.keys| && |Get(m, x.kids[q]).keys| >= 3
    requires Sound(l, Walk(m, x, 0, h), used, extra) && w in extra
    ensures var t, t' := Walk(m, x, 0, h), Walk(SplitStore(m, x, q, w), SplitParent(m, x, q, w), 0, h);
            Keys(t') == Keys(t) && Weight(t') + 2 == Weight(t) && Sound(l, t', used, extra - {w})
  {
    hide Walk, Keys, Vcns, Weight, AllFit, Distinct, SplitStore, SplitParent, Grown;
    var m' := SplitStore(m, x, q, w);
    var pre, post := SplitBelow(l, m, m', x, q, h, w);
    SoundGrow(l, Walk(m, x, 0, h), Walk(m', SplitParent(m, x, q, w), 0, h), used, extra, pre, post, w);
  }

  lemma {:induction false} Sums3(a: seq<Token>, b: seq<Token>, c: seq<Token>)
    ensures Keys(a + b + c) == Keys(a) + Keys(b) + Keys(c)
    ensures Vcns(a + b + c) == Vcns(a) + Vcns(b) + Vcns(c)
    ensures Weight(a + b + c) == Weight(a) + Weight(b) + Weight(c)
  {
    hide Keys, Vcns, Weight;
    KeysConcat(a, b);
    KeysConcat(a + b, c);
    VcnsConcat(a, b);
    VcnsConcat(a + b, c);
    WeightConcat(a, b);
    WeightConcat(a + b, c);
  }

  lemma {:induction false} Fit3(l: Limits, a: seq<Token>, b: seq<Token>, c: seq<Token>)
    ensures AllFit(l, a + b + c) <==> AllFit(l, a) && AllFit(l, b) && AllFit(l, c)
  {
    hide AllFit;
    AllFitConcat(l, a, b);
    AllFitConcat(l, a + b, c);
  }

  /** A block's own tree. */
  lemma {:induction false} TreeParts(l: Limits, m: Store, v: nat, h: nat)
    ensures var x, t, w := Get(m, v), Tree(m, v, h), Walk(m, Get(m, v), 0, h);
            && t == [Block(v, x, h)] + w
            && Keys(t) == Keys(w) && Vcns(t) == [v] + Vcns(w)
            && Weight(t) == (if |x.keys| > 0 then |x.keys| - 1 else 0) + Weight(w)
            && (AllFit(l, t) <==> Fits(l, x, h) && AllFit(l, w))
  {
    hide Keys, Vcns, Weight, AllFit, Walk, Tree, Fits;
    var x, w := Get(m, v), Walk(m, Get(m, v), 0, h);
    TreeIs(m, v, h);
    KeysConcat([Block(v, x, h)], w);
    VcnsConcat([Block(v, x, h)], w);
    WeightConcat([Block(v, x, h)], w);
    AllFitConcat(l, [Block(v, x, h)], w);
    AllFitOne(l, v, x, h, Entry(0, 0, 0));
    One(v, x, h, Entry(0, 0, 0));
  }

  /** Block `p`, of height `h`, with a subnode split: the store after all three writes. */
  lemma {:induction false} SplitInBlock(l: Limits, m: Store, p: nat, q: nat, h: nat, w: nat)
    returns (pre: seq<nat>, post: seq<nat>)
    requires h > 0 && AllFit(l, Tree(m, p, h)) && Distinct(Vcns(Tree(m, p, h))) && w !in Vcns(Tree(m, p, h))
    requires var x := Get(m, p);
             && Shape(x, h) && q <= |x.keys| && |Get(m, x.kids[q]).keys| >= 3
             && Fits(l, SplitParent(m, x, q, w), h)
    ensures var x := Get(m, p);
            var m' := SplitStore(m, x, q, w)[p := SplitParent(m, x, q, w)];
            var t, t' := Tree(m, p, h), Tree(m', p, h);
            && Keys(t') == Keys(t) && Weight(t') < Weight(t) && AllFit(l, t')
            && Vcns(t) == pre + post && Vcns(t') == pre + [w] + post
  {
    hide Walk, Tree, Keys, Vcns, Weight, AllFit, Distinct, SplitStore, Fits;
    var x := Get(m, p);
    var m' := SplitStore(m, x, q, w)[p := SplitParent(m, x, q, w)];
    TreeParts(l, m, p, h);
    TreeParts(l, m', p, h);
    HeadApart(p, Vcns(Walk(m, x, 0, h)));
    TailDistinct(p, Vcns(Walk(m, x, 0, h)));
    pre, post := SplitBelow(l, m, m', x, q, h, w);
    pre := [p] + pre;
    assert [p] + (pre[1..] + post) == pre + post;
    assert [p] + (pre[1..] + [w] + post) == pre + [w] + post;
  }

  lemma {:induction false} TailDistinct(v: nat, s: seq<nat>)
    requires Distinct([v] + s)
    ensures Distinct(s)
  {
    var t := [v] + s;
    forall i, j | 0 <= i < j < |s|
      ensures s[i] != s[j]
    {
      var a, b := i + 1, j + 1;
      assert t[a] == s[i] && t[b] == s[j];
    }
  }

  /** The blocks written are new or under the block at level `d` of the path. */
  ghost predicate Within(m: Store, m': Store, inside: seq<Token>, all: seq<Token>) {
    forall u :: Get(m', u) != Get(m, u) ==> u in Vcns(inside) || u !in Vcns(all)
  }

  /** Editing below the block at level `d`: the rest of the walk and the path stay as they are. */
  lemma {:induction false} EditBelow(m: Store, m': Store, x: Node, h: nat, pos: seq<nat>, vcn: seq<int>, d: nat)
    requires 0 < d && Route(m, x, h, pos, vcn, 0, d) && d <= h && d < |vcn| && vcn[d] >= 0
    requires Distinct(Vcns(Walk(m, x, 0, h))) && Within(m, m', Tree(m, vcn[d], h - d), Walk(m, x, 0, h))
    ensures var a, b := Left(m, x, h, pos, vcn, 0, d), Right(m, x, h, pos, vcn, 0, d);
            && Walk(m, x, 0, h) == a + Tree(m, vcn[d], h - d) + b
            && Walk(m', x, 0, h) == a + Tree(m', vcn[d], h - d) + b
            && Route(m', x, h, pos, vcn, 0, d)
            && Left(m', x, h, pos, vcn, 0, d) == a && Right(m', x, h, pos, vcn, 0, d) == b
  {
    hide Walk, Tree, Left, Right, Vcns, Distinct, Matches, Route;
    var a, b := Left(m, x, h, pos, vcn, 0, d), Right(m, x, h, pos, vcn, 0, d);
    var mid := Tree(m, vcn[d], h - d);
    Focus(m, x, h, pos, vcn, 0, d);
    Apart(a, mid, b);
    WalkMatches(m, x, 0, h);
    MatchesConcat(m, a + mid, b);
    MatchesConcat(m, a, mid);
    MatchesOutside(m, m', a);
    MatchesOutside(m, m', b);
    Refocus(m, m', x, h, pos, vcn, 0, d);
    Focus(m', x, h, pos, vcn, 0, d);
  }

  lemma {:induction false} MatchesOutside(m: Store, m': Store, t: seq<Token>)
    requires Matches(m, t) && forall u :: Get(m', u) != Get(m, u) ==> u !in Vcns(t)
    ensures Matches(m', t)
  {
    forall i | 0 <= i < |t| && t[i].Block?
      ensures Get(m', t[i].vcn) == t[i].node
    {
      VcnsMember(t, i);
    }
  }

  /** The parent is the block at level `d` of the path. */
  lemma {:induction false} SplitUnderBlock(l: Limits, m: Store, x: Node, h: nat, pos: seq<nat>, vcn: seq<int>, d: nat,
                                           w: nat, used: set<nat>, extra: set<nat>)
    requires 0 < d < h && Route(m, x, h, pos, vcn, 0, d) && d < |pos| == |vcn| && vcn[d] >= 0
    requires Sound(l, Walk(m, x, 0, h), used, extra) && w in extra
    requires var y := Get(m, vcn[d]);
             Shape(y, h - d) && pos[d] <= |y.keys| && |Get(m, y.kids[pos[d]]).keys| >= 3
                 && Fits(l, SplitParent(m, y, pos[d], w), h - d)
    ensures var y := Get(m, vcn[d]);
            var m' := SplitStore(m, y, pos[d], w)[vcn[d] := SplitParent(m, y, pos[d], w)];
            var t, t' := Walk(m, x, 0, h), Walk(m', x, 0, h);
            Keys(t') == Keys(t) && Weight(t') < Weight(t) && Sound(l, t', used, extra - {w})
  {
    hide Walk, Tree, Left, Right, Vcns, Distinct, Route, Keys, Weight, AllFit, SplitStore, SplitParent, Fits;
    var p := vcn[d];
    var y := Get(m, p);
    var m' := SplitStore(m, y, pos[d], w)[p := SplitParent(m, y, pos[d], w)];
    var a, b := Left(m, x, h, pos, vcn, 0, d), Right(m, x, h, pos, vcn, 0, d);
    var mid, mid' := Tree(m, p, h - d), Tree(m', p, h - d);
    Focus(m, x, h, pos, vcn, 0, d);
    Apart(a, mid, b);
    Fit3(l, a, mid, b);
    var pre, post := SplitInBlock(l, m, p, pos[d], h - d, w);
    SplitWrites(l, m, p, pos[d], h - d, w);
    assert Within(m, m', mid, Walk(m, x, 0, h));
    EditBelow(m, m', x, h, pos, vcn, d);
    Sums3(a, mid, b);
    Sums3(a, mid', b);
    Fit3(l, a, mid', b);
    assert Vcns(a) + (pre + post) + Vcns(b) == (Vcns(a) + pre) + (post + Vcns(b));
    assert Vcns(a) + (pre + [w] + post) + Vcns(b) == (Vcns(a) + pre) + [w] + (post + Vcns(b));
    SoundGrow(l, Walk(m, x, 0, h), Walk(m', x, 0, h), used, extra, Vcns(a) + pre, post + Vcns(b), w);
  }

  lemma {:induction false} SplitWrites(l: Limits, m: Store, p: nat, q: nat, h: nat, w: nat)
    requires h > 0 && Distinct(Vcns(Tree(m, p, h)))
    requires var x := Get(m, p); Shape(x, h) && q <= |x.keys| && Get(m, x.kids[q]).keys != []
    ensures var x := Get(m, p);
            var m' := SplitStore(m, x, q, w)[p := SplitParent(m, x, q, w)];
            forall u :: Get(m', u) != Get(m, u) ==> u in Vcns(Tree(m, p, h)) || u == w
  {
    hide Walk, Tree, Vcns, Distinct, AllFit, Fits;
    TreeParts(l, m, p, h);
    TailDistinct(p, Vcns(Walk(m, Get(m, p), 0, h)));
    ApartRow(m, Get(m, p), q, h);
  }

  lemma {:induction false} OnlyChild(m: Store, w: nat, h: nat)
    ensures Walk(m, Node([], [w]), 0, h + 1) == Tree(m, w, h)
  {
    var x := Node([], [w]);
    assert Sub(m, x, 0, h + 1) == Tree(m, w, h);
  }

  /** `ntfs_ir_reparent`: the entries of the root move to block `w`, the only subnode of the new root. */
  lemma {:induction false} ReparentKeeps(l: Limits, m: Store, x: Node, h: nat, w: nat, used: set<nat>, extra: set<nat>)
    requires Sound(l, Walk(m, x, 0, h), used, extra) && w in extra && Fits(l, x, h)
    ensures var t, t' := Walk(m, x, 0, h), Walk(m[w := x], Node([], [w]), 0, h + 1);
            && Keys(t') == Keys(t) && Sound(l, t', used, extra - {w})
            && Weight(t') == (if |x.keys| > 0 then |x.keys| - 1 else 0) + Weight(t)
  {
    hide Tree, Walk, Vcns, Distinct, Keys, Weight, AllFit, Fits;
    var m' := m[w := x];
    var t, t' := Walk(m, x, 0, h), Walk(m', Node([], [w]), 0, h + 1);
    WalkMatches(m, x, 0, h);
    MatchesUpdate(m, t, w, x);
    WalkFrame(m, m', x, 0, h);
    OnlyChild(m', w, h);
    TreeParts(l, m', w, h);
    assert Vcns(t) == [] + Vcns(t) && [w] + Vcns(t) == [] + [w] + Vcns(t);
    SoundGrow(l, t, t', used, extra, [], Vcns(t), w);
  }

  /** Writing a block that is not part of the index. */
  lemma {:induction false} UnusedWrite(m: Store, x: Node, h: nat, w: nat, y: Node)
    requires w !in Vcns(Walk(m, x, 0, h))
    ensures Walk(m[w := y], x, 0, h) == Walk(m, x, 0, h)
  {
    WalkMatches(m, x, 0, h);
    MatchesUpdate(m, Walk(m, x, 0, h), w, y);
    WalkFrame(m, m[w := y], x, 0, h);
  }

  /** A store that gives the same walk has the same paths. */
  lemma {:induction false} SamePath(m: Store, m': Store, x: Node, h: nat, pos: seq<nat>, vcn: seq<int>, d: nat)
    requires Route(m, x, h, pos, vcn, 0, d) && Matches(m', Walk(m, x, 0, h))
    ensures Route(m', x, h, pos, vcn, 0, d)
    ensures d > 0 ==> d < |vcn| && vcn[d] >= 0 && Get(m', vcn[d]) == Get(m, vcn[d]) && vcn[d] in Vcns(Walk(m, x, 0, h))
  {
    hide Walk, Tree, Left, Right, Matches, Route, Vcns;
    if d > 0 {
      var a, b := Left(m, x, h, pos, vcn, 0, d), Right(m, x, h, pos, vcn, 0, d);
      Focus(m, x, h, pos, vcn, 0, d);
      var p, y, k := vcn[d], Get(m, vcn[d]), h - d;
      MatchesConcat(m', a + Tree(m, p, k), b);
      MatchesConcat(m', a, Tree(m, p, k));
      Refocus(m, m', x, h, pos, vcn, 0, d);
      TreeIs(m, p, k);
      MatchesConcat(m', [Block(p, y, k)], Walk(m, y, 0, k));
      MatchesBlock(m', p, y, k);
      Sums3(a, Tree(m, p, k), b);
      TreeParts(Limits(0, 0, 0), m, p, k);
    } else {
      RouteHere(m', x, h, pos, vcn);
    }
  }

  lemma {:induction false} RouteHere(m: Store, x: Node, h: nat, pos: seq<nat>, vcn: seq<int>)
    ensures Route(m, x, h, pos, vcn, 0, 0)
  {
  }

  lemma {:induction false} RouteStep(m: Store, x: Node, h: nat, pos: seq<nat>, vcn: seq<int>, i: nat, d: nat)
    requires Route(m, x, h, pos, vcn, i, d + 1) && i <= d
    ensures Route(m, x, h, pos, vcn, i, d) && d + 1 < |pos| == |vcn| && d - i < h && (d > i ==> vcn[d] >= 0)
    ensures var y := if d == i then x else Get(m, vcn[d]);
            pos[d] <= |y.keys| && pos[d] < |y.kids| && vcn[d + 1] == y.kids[pos[d]]
    decreases d - i
  {
    if i < d {
      RouteStep(m, Get(m, x.kids[pos[i]]), h - 1, pos, vcn, i + 1, d);
    }
  }
}

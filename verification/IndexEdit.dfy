/** What the edits of one node (`index.c`) do to the walk of the tree. */
module IndexEdit {
  import opened Sequences
  import opened IndexTree
  import opened IndexShape

  function Inserted<T>(s: seq<T>, i: nat, e: T): (r: seq<T>)
    requires i <= |s|
  {
    s[..i] + [e] + s[i..]
  }

  /** What `ntfs_ib_cut_tail` leaves: the entries before number `k`, whose subnode goes to END. */
  function Low(x: Node, k: nat): (r: Node)
    requires k < |x.keys|
  {
    Node(x.keys[..k], if k < |x.kids| then x.kids[..k + 1] else [])
  }

  /** What `ntfs_ib_copy_tail` copies: the entries after number `k`. */
  function High(x: Node, k: nat): (r: Node)
    requires k < |x.keys|
  {
    Node(x.keys[k + 1..], if k < |x.kids| then x.kids[k + 1..] else [])
  }

  lemma {:induction false} Halves(m: Store, x: Node, k: nat, h: nat)
    requires Shape(x, h) && k < |x.keys|
    ensures Walk(m, x, 0, h) == Walk(m, Low(x, k), 0, h) + [Item(x.keys[k])] + Walk(m, High(x, k), 0, h)
  {
    hide Walk, Tree;
    var lo, hi := Low(x, k), High(x, k);
    WalkSplit(m, x, k, h);
    WalkShift(m, x, k + 1, hi, 0, h);
    WalkSplit(m, lo, k, h);
    BeforeSame(m, x, lo, k, h);
    assert After(m, lo, k, h) == [];
    assert Sub(m, lo, k, h) == Sub(m, x, k, h);
  }

  /** `ntfs_ih_insert`: entry `e` takes over subnode `q`, the entry after it gets the subnode `w`. */
  function Grown(x: Node, q: nat, e: Entry, w: nat): (r: Node)
    requires q <= |x.keys| && |x.kids| == |x.keys| + 1
    ensures |r.kids| == |r.keys| + 1
  {
    Node(Inserted(x.keys, q, e), Inserted(x.kids, q + 1, w))
  }

  lemma {:induction false} GrownWalk(m: Store, x: Node, q: nat, e: Entry, w: nat, h: nat)
    requires h > 0 && Shape(x, h) && q <= |x.keys|
    ensures Walk(m, Grown(x, q, e, w), 0, h)
         == Before(m, x, q, h) + Tree(m, x.kids[q], h - 1) + ([Item(e)] + (Tree(m, w, h - 1) + After(m, x, q, h)))
  {
    hide Walk, Tree;
    var y := Grown(x, q, e, w);
    WalkSplit(m, y, q, h);
    BeforeSame(m, x, y, q, h);
    WalkIs(m, y, q + 1, h);
    assert y.kids[q + 1] == w && y.kids[q] == x.kids[q] && y.keys[q] == e;
    if q < |x.keys| {
      assert y.keys[q + 1] == x.keys[q];
      WalkShift(m, x, q + 1, y, q + 2, h);
    }
  }

  lemma {:induction false} WalkIs(m: Store, x: Node, i: nat, h: nat)
    ensures Walk(m, x, i, h) == Sub(m, x, i, h) + After(m, x, i, h)
  {
  }

  /** Taking out an entry together with its subnode. */
  function Shrunk(x: Node, q: nat): (r: Node)
    requires q < |x.keys| && |x.kids| == |x.keys| + 1
    ensures |r.kids| == |r.keys| + 1
  {
    Node(Cut(x.keys, q), Cut(x.kids, q))
  }

  lemma {:induction false} ShrunkWalk(m: Store, x: Node, q: nat, h: nat)
    requires h > 0 && Shape(x, h) && q < |x.keys|
    ensures Walk(m, Shrunk(x, q), 0, h) == Before(m, x, q, h) + Walk(m, x, q + 1, h)
    ensures Walk(m, x, 0, h) == Before(m, x, q, h) + Tree(m, x.kids[q], h - 1)
            + ([Item(x.keys[q])] + Walk(m, x, q + 1, h))
  {
    hide Walk, Tree;
    var y := Shrunk(x, q);
    WalkSplit(m, x, q, h);
    WalkSplit(m, y, q, h);
    BeforeSame(m, x, y, q, h);
    WalkIs(m, y, q, h);
    WalkShift(m, x, q + 1, y, q, h);
  }

  /** Giving the subnode of the last entry to END and taking that entry out. */
  function Ended(x: Node): (r: Node)
    requires x.keys != [] && |x.kids| == |x.keys| + 1
    ensures |r.kids| == |r.keys| + 1
  {
    Node(x.keys[..|x.keys| - 1], x.kids[..|x.keys|])
  }

  lemma {:induction false} EndedWalk(m: Store, x: Node, h: nat)
    requires h > 0 && Shape(x, h) && x.keys != []
    ensures var n := |x.keys|;
            Walk(m, x, 0, h) == Walk(m, Ended(x), 0, h) + [Item(x.keys[n - 1])] + Tree(m, x.kids[n], h - 1)
  {
    hide Walk, Tree;
    var n := |x.keys|;
    var y := Ended(x);
    WalkSplit(m, x, n, h);
    WalkSplit(m, y, n - 1, h);
    BeforeSame(m, x, y, n - 1, h);
    assert After(m, x, n, h) == [] && After(m, y, n - 1, h) == [];
    assert Sub(m, y, n - 1, h) == Sub(m, x, n - 1, h);
  }

  /** Another key in place of entry `p`. */
  function Swapped(x: Node, p: nat, e: Entry): (r: Node)
    requires p < |x.keys|
  {
    Node(x.keys[p := e], x.kids)
  }

  lemma {:induction false} SwappedWalk(m: Store, x: Node, p: nat, e: Entry, h: nat)
    requires Shape(x, h) && p < |x.keys|
    ensures Walk(m, x, 0, h) == Before(m, x, p, h) + Sub(m, x, p, h) + ([Item(x.keys[p])] + Walk(m, x, p + 1, h))
    ensures Walk(m, Swapped(x, p, e), 0, h) == Before(m, x, p, h) + Sub(m, x, p, h) + ([Item(e)] + Walk(m, x, p + 1, h))
  {
    hide Walk, Tree;
    var y := Swapped(x, p, e);
    WalkSplit(m, x, p, h);
    WalkSplit(m, y, p, h);
    BeforeSame(m, x, y, p, h);
    WalkShift(m, x, p + 1, y, p + 1, h);
  }

  /** A leaf holds its own entries only. */
  lemma {:induction false} LeafWalk(m: Store, x: Node, i: nat)
    requires i <= |x.keys|
    ensures Keys(Walk(m, x, i, 0)) == x.keys[i..] && Vcns(Walk(m, x, i, 0)) == [] && Weight(Walk(m, x, i, 0)) == 0
    ensures forall j :: 0 <= j < |Walk(m, x, i, 0)| ==> Walk(m, x, i, 0)[j].Item?
    decreases |x.keys| - i
  {
    if i < |x.keys| {
      LeafWalk(m, x, i + 1);
      var w := Walk(m, x, i, 0);
      assert Sub(m, x, i, 0) == [];
      assert w == [Item(x.keys[i])] + Walk(m, x, i + 1, 0);
      assert w[0] == Item(x.keys[i]) && w[1..] == Walk(m, x, i + 1, 0);
      assert x.keys[i..] == [x.keys[i]] + x.keys[i + 1..];
    }
  }

  lemma {:induction false} Sums6(a: seq<Token>, b: seq<Token>, c: seq<Token>, d: seq<Token>, e: seq<Token>,
                                 f: seq<Token>)
    ensures Keys(a + b + c + d + e + f) == Keys(a) + Keys(b) + Keys(c) + Keys(d) + Keys(e) + Keys(f)
    ensures Vcns(a + b + c + d + e + f) == Vcns(a) + Vcns(b) + Vcns(c) + Vcns(d) + Vcns(e) + Vcns(f)
    ensures Weight(a + b + c + d + e + f) == Weight(a) + Weight(b) + Weight(c) + Weight(d) + Weight(e) + Weight(f)
  {
    hide Keys, Vcns, Weight;
    KeysConcat(a, b);
    KeysConcat(a + b, c);
    KeysConcat(a + b + c, d);
    KeysConcat(a + b + c + d, e);
    KeysConcat(a + b + c + d + e, f);
    VcnsConcat(a, b);
    VcnsConcat(a + b, c);
    VcnsConcat(a + b + c, d);
    VcnsConcat(a + b + c + d, e);
    VcnsConcat(a + b + c + d + e, f);
    WeightConcat(a, b);
    WeightConcat(a + b, c);
    WeightConcat(a + b + c, d);
    WeightConcat(a + b + c + d, e);
    WeightConcat(a + b + c + d + e, f);
  }

  lemma {:induction false} Fit6(l: Limits, a: seq<Token>, b: seq<Token>, c: seq<Token>, d: seq<Token>, e: seq<Token>,
                                f: seq<Token>)
    ensures AllFit(l, a + b + c + d + e + f) <==>
            AllFit(l, a) && AllFit(l, b) && AllFit(l, c) && AllFit(l, d) && AllFit(l, e) && AllFit(l, f)
  {
    hide AllFit;
    AllFitConcat(l, a, b);
    AllFitConcat(l, a + b, c);
    AllFitConcat(l, a + b + c, d);
    AllFitConcat(l, a + b + c + d, e);
    AllFitConcat(l, a + b + c + d + e, f);
  }

  lemma {:induction false} One(v: nat, x: Node, h: nat, e: Entry)
    ensures Keys([Block(v, x, h)]) == [] && Vcns([Block(v, x, h)]) == [v]
    ensures Weight([Block(v, x, h)]) == if |x.keys| > 0 then |x.keys| - 1 else 0
    ensures Keys([Item(e)]) == [e] && Vcns([Item(e)]) == [] && Weight([Item(e)]) == 0
  {
    assert [Block(v, x, h)][1..] == [] && [Item(e)][1..] == [];
  }

  /** Block `v` of the walk `b [v] w1 med w2 a` is split at `med`. */
  lemma {:induction false} SplitTokens(b: seq<Token>, v: nat, y: Node, w1: seq<Token>, med: Entry, w2: seq<Token>,
                                       a: seq<Token>, lo: Node, w: nat, hi: Node, h: nat)
    requires lo.keys != [] && hi.keys != [] && |lo.keys| + 1 + |hi.keys| == |y.keys|
    ensures var t := b + [Block(v, y, h)] + w1 + [Item(med)] + w2 + a;
            var t' := b + [Block(v, lo, h)] + w1 + [Item(med)] + ([Block(w, hi, h)] + w2) + a;
            && Keys(t') == Keys(t) && Weight(t') + 2 == Weight(t)
            && Vcns(t) == (Vcns(b) + [v] + Vcns(w1)) + (Vcns(w2) + Vcns(a))
            && Vcns(t') == (Vcns(b) + [v] + Vcns(w1)) + [w] + (Vcns(w2) + Vcns(a))
  {
    hide Keys, Vcns, Weight;
    Sums6(b, [Block(v, y, h)], w1, [Item(med)], w2, a);
    Sums6(b, [Block(v, lo, h)], w1, [Item(med)], [Block(w, hi, h)] + w2, a);
    One(v, y, h, med);
    One(v, lo, h, med);
    One(w, hi, h, med);
    KeysConcat([Block(w, hi, h)], w2);
    VcnsConcat([Block(w, hi, h)], w2);
    WeightConcat([Block(w, hi, h)], w2);
  }

  lemma {:induction false} SplitFit(l: Limits, b: seq<Token>, v: nat, y: Node, w1: seq<Token>, med: Entry,
                                    w2: seq<Token>, a: seq<Token>, lo: Node, w: nat, hi: Node, h: nat)
    requires AllFit(l, b + [Block(v, y, h)] + w1 + [Item(med)] + w2 + a) && Fits(l, lo, h) && Fits(l, hi, h)
    ensures AllFit(l, b + [Block(v, lo, h)] + w1 + [Item(med)] + ([Block(w, hi, h)] + w2) + a) && Fits(l, y, h)
  {
    hide AllFit;
    Fit6(l, b, [Block(v, y, h)], w1, [Item(med)], w2, a);
    Fit6(l, b, [Block(v, lo, h)], w1, [Item(med)], [Block(w, hi, h)] + w2, a);
    AllFitOne(l, v, y, h, med);
    AllFitOne(l, v, lo, h, med);
    AllFitOne(l, w, hi, h, med);
    AllFitConcat(l, [Block(w, hi, h)], w2);
  }

  /** The two halves of a block with three entries or more. */
  lemma {:induction false} HalvesFit(l: Limits, x: Node, h: nat)
    requires Fits(l, x, h) && |x.keys| >= 3
    ensures var k := |x.keys| / 2;
            && Fits(l, Low(x, k), h) && Fits(l, High(x, k), h) && Low(x, k).keys != [] && High(x, k).keys != []
            && |Low(x, k).keys| + 1 + |High(x, k).keys| == |x.keys|
  {
    var k := |x.keys| / 2;
    assert x.keys == x.keys[..k] + x.keys[k..];
    assert x.keys[k..] == [x.keys[k]] + x.keys[k + 1..];
    BytesConcat(x.keys[..k], x.keys[k..]);
    BytesConcat([x.keys[k]], x.keys[k + 1..]);
  }

  lemma {:induction false} Regroup6<T>(b: seq<T>, v: seq<T>, w1: seq<T>, i: seq<T>, w2: seq<T>, a: seq<T>)
    ensures b + (v + (w1 + i + w2)) + a == b + v + w1 + i + w2 + a
    ensures b + (v + w1) + (i + (w2 + a)) == b + v + w1 + i + w2 + a
  {
  }

  /** Splitting subnode `q` of `x` at its median changes neither the entries nor their order. */
  lemma {:induction false} SplitRow(l: Limits, m: Store, m': Store, x: Node, q: nat, h: nat, w: nat)
    returns (pre: seq<nat>, post: seq<nat>)
    requires h > 0 && Shape(x, h) && q <= |x.keys| && AllFit(l, Walk(m, x, 0, h)) && |Get(m, x.kids[q]).keys| >= 3
    requires Matches(m', Before(m, x, q, h)) && Matches(m', After(m, x, q, h))
             && Matches(m', Walk(m, Get(m, x.kids[q]), 0, h - 1))
    requires var y := Get(m, x.kids[q]);
             Get(m', x.kids[q]) == Low(y, |y.keys| / 2) && Get(m', w) == High(y, |y.keys| / 2)
    ensures var y := Get(m, x.kids[q]);
            var t, t' := Walk(m, x, 0, h), Walk(m', Grown(x, q, y.keys[|y.keys| / 2], w), 0, h);
            && Keys(t') == Keys(t) && Weight(t') + 2 == Weight(t) && AllFit(l, t')
            && Vcns(t) == pre + post && Vcns(t') == pre + [w] + post
  {
    hide Walk, Tree, Keys, Vcns, Weight, AllFit, Matches, Before, After, Fits;
    var v := x.kids[q];
    var y := Get(m, v);
    var k := |y.keys| / 2;
    var med, lo, hi := y.keys[k], Low(y, k), High(y, k);
    var b, a := Before(m, x, q, h), After(m, x, q, h);
    var w1, w2 := Walk(m, lo, 0, h - 1), Walk(m, hi, 0, h - 1);
    WalkSplit(m, x, q, h);
    TreeIs(m, v, h - 1);
    SubFits(l, m, x, q, h);
    FitShape(l, y, h - 1);
    Halves(m, y, k, h - 1);
    Regroup6(b, [Block(v, y, h - 1)], w1, [Item(med)], w2, a);
    assert Walk(m, x, 0, h) == b + [Block(v, y, h - 1)] + w1 + [Item(med)] + w2 + a;
    SplitWalk(m, m', x, q, h, w);
    HalvesFit(l, y, h - 1);
    SplitTokens(b, v, y, w1, med, w2, a, lo, w, hi, h - 1);
    SplitFit(l, b, v, y, w1, med, w2, a, lo, w, hi, h - 1);
    pre, post := Vcns(b) + [v] + Vcns(w1), Vcns(w2) + Vcns(a);
  }

  lemma {:induction false} FitShape(l: Limits, x: Node, h: nat)
    requires Fits(l, x, h)
    ensures Shape(x, h)
  {
  }

  lemma {:induction false} SubFits(l: Limits, m: Store, x: Node, q: nat, h: nat)
    requires h > 0 && Shape(x, h) && q <= |x.keys| && AllFit(l, Walk(m, x, 0, h))
    ensures Fits(l, Get(m, x.kids[q]), h - 1) && AllFit(l, Walk(m, Get(m, x.kids[q]), 0, h - 1))
  {
    hide Walk, Tree, AllFit, Before, After, Fits;
    var v := x.kids[q];
    WalkSplit(m, x, q, h);
    TreeIs(m, v, h - 1);
    AllFitConcat(l, Before(m, x, q, h) + Sub(m, x, q, h), After(m, x, q, h));
    AllFitConcat(l, Before(m, x, q, h), Sub(m, x, q, h));
    AllFitConcat(l, [Block(v, Get(m, v), h - 1)], Walk(m, Get(m, v), 0, h - 1));
    AllFitOne(l, v, Get(m, v), h - 1, Entry(0, 0, 0));
  }

  lemma {:induction false} SplitWalk(m: Store, m': Store, x: Node, q: nat, h: nat, w: nat)
    requires h > 0 && Shape(x, h) && q <= |x.keys| && |Get(m, x.kids[q]).keys| > 0 && Shape(Get(m, x.kids[q]), h - 1)
    requires Matches(m', Before(m, x, q, h)) && Matches(m', After(m, x, q, h))
             && Matches(m', Walk(m, Get(m, x.kids[q]), 0, h - 1))
    requires var y := Get(m, x.kids[q]);
             Get(m', x.kids[q]) == Low(y, |y.keys| / 2) && Get(m', w) == High(y, |y.keys| / 2)
    ensures var v := x.kids[q];
            var y := Get(m, v);
            var med, lo, hi := y.keys[|y.keys| / 2], Low(y, |y.keys| / 2), High(y, |y.keys| / 2);
            Walk(m', Grown(x, q, med, w), 0, h)
            == Before(m, x, q, h) + [Block(v, lo, h - 1)] + Walk(m, lo, 0, h - 1) + [Item(med)]
               + ([Block(w, hi, h - 1)] + Walk(m, hi, 0, h - 1)) + After(m, x, q, h)
  {
    hide Walk, Tree, Matches, Before, After;
    var v := x.kids[q];
    var y := Get(m, v);
    var k := |y.keys| / 2;
    var med, lo, hi := y.keys[k], Low(y, k), High(y, k);
    var w1, w2 := Walk(m, lo, 0, h - 1), Walk(m, hi, 0, h - 1);
    Halves(m, y, k, h - 1);
    MatchesConcat(m', w1 + [Item(med)], w2);
    MatchesConcat(m', w1, [Item(med)]);
    WalkFrame(m, m', lo, 0, h - 1);
    WalkFrame(m, m', hi, 0, h - 1);
    BeforeFrame(m, m', x, q, h);
    AfterFrame(m, m', x, q, h);
    GrownWalk(m', x, q, med, w, h);
    TreeIs(m', v, h - 1);
    TreeIs(m', w, h - 1);
    Regroup6(Before(m, x, q, h), [Block(v, lo, h - 1)], w1, [Item(med)], [Block(w, hi, h - 1)] + w2, After(m, x, q, h));
  }
}

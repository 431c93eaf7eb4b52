/** Taking entries and blocks out of an index (`ntfs_index_rm`, `ntfs_index_rm_leaf`). */
module IndexRemove {
  import opened Sequences
  import opened IndexTree
  import opened IndexPath
  import opened IndexShape
  import opened IndexEdit
  import opened IndexSplit
  import opened IndexLookup
  import opened IndexUpdate

  /** The store and the root after the node at level `c` of the path has been rewritten. */
  function StoreAfter(m: Store, vcn: seq<int>, c: nat, y: Node): (r: Store)
    requires c > 0 ==> c < |vcn| && vcn[c] >= 0
  {
    if c == 0 then m else m[vcn[c] := y]
  }

  function RootAfter(x: Node, c: nat, y: Node): (r: Node) {
    if c == 0 then y else x
  }

  /** The node at level `c` is rewritten as `y`, which reaches no block that it did not reach before. */
  lemma {:induction false} NodeRewrite(l: Limits, m: Store, x: Node, h: nat, pos: seq<nat>, vcn: seq<int>, c: nat,
                                       y: Node)
    requires c <= h && Route(m, x, h, pos, vcn, 0, c) && (c > 0 ==> c < |vcn| && vcn[c] >= 0)
    requires AllFit(l, Walk(m, x, 0, h)) && Distinct(Vcns(Walk(m, x, 0, h)))
    requires (c > 0 ==> Fits(l, y, h - c)) && AllFit(l, Walk(m, y, 0, h - c))
    requires Among(Vcns(Walk(m, y, 0, h - c)), Vcns(Walk(m, NodeAt(m, x, vcn, c), 0, h - c)))
    ensures var t' := Walk(StoreAfter(m, vcn, c, y), RootAfter(x, c, y), 0, h);
            && Keys(t') == Keys(LeftOf(m, x, h, pos, vcn, c)) + Keys(Walk(m, y, 0, h - c))
                + Keys(RightOf(m, x, h, pos, vcn, c))
            && Vcns(t') == Vcns(LeftOf(m, x, h, pos, vcn, c)) + Vcns(Walk(m, y, 0, h - c))
                + Vcns(RightOf(m, x, h, pos, vcn, c))
            && AllFit(l, t')
  {
    hide Walk, Tree, Left, Right, Vcns, Distinct, Route, Keys, AllFit, Fits, Weight;
    if c == 0 {
      KeysNone();
      assert [] + Keys(Walk(m, y, 0, h)) + [] == Keys(Walk(m, y, 0, h));
      assert [] + Vcns(Walk(m, y, 0, h)) + [] == Vcns(Walk(m, y, 0, h));
    } else {
      var v, k := vcn[c], h - c;
      BlockRewrite(m, x, h, pos, vcn, c, y);
      var a, b, w := Left(m, x, h, pos, vcn, 0, c), Right(m, x, h, pos, vcn, 0, c), Walk(m, y, 0, k);
      HeadToken(l, v, y, k, w);
      Sums3(a, [Block(v, y, k)] + w, b);
      Fit3(l, a, Tree(m, v, k), b);
      Fit3(l, a, [Block(v, y, k)] + w, b);
      KeysConcat(a, [Block(v, Get(m, v), k)]);
      VcnsConcat(a, [Block(v, Get(m, v), k)]);
      One(v, Get(m, v), k, Entry(0, 0, 0));
      Rebracket(Vcns(a), [v], Vcns(w), Vcns(b));
      assert Keys(a) + [] == Keys(a);
    }
  }

  lemma {:induction false} Rebracket<T>(a: seq<T>, v: seq<T>, w: seq<T>, b: seq<T>)
    ensures a + (v + w) + b == (a + v) + w + b
  {
  }

  /** What lies on the two sides of the block one level further down. */
  lemma {:induction false} SidesAt(m: Store, x: Node, h: nat, pos: seq<nat>, vcn: seq<int>, c: nat)
    requires Route(m, x, h, pos, vcn, 0, c + 1)
    ensures Route(m, x, h, pos, vcn, 0, c) && c + 1 < |pos| == |vcn| && c < h && (c > 0 ==> vcn[c] >= 0)
    ensures var y := NodeAt(m, x, vcn, c);
            && pos[c] <= |y.keys| && pos[c] < |y.kids| && vcn[c + 1] == y.kids[pos[c]]
            && Left(m, x, h, pos, vcn, 0, c + 1) == LeftOf(m, x, h, pos, vcn, c) + Before(m, y, pos[c], h - c)
            && Right(m, x, h, pos, vcn, 0, c + 1) == After(m, y, pos[c], h - c) + RightOf(m, x, h, pos, vcn, c)
  {
    hide Before, After, Left, Right;
    RouteStep(m, x, h, pos, vcn, 0, c);
    Extend(m, x, h, pos, vcn, 0, c);
  }

  /** The bitmap has the blocks outside a block that is being removed. */
  ghost predicate Marks(used: set<nat>, a: seq<nat>, b: seq<nat>) {
    forall u :: u in used <==> u in a || u in b
  }

  /** Dropping the blocks `mid` from the walk. */
  lemma {:induction false} SoundDrop(l: Limits, t: seq<Token>, t': seq<Token>, used: set<nat>, a: seq<nat>,
                                     mid: seq<nat>, b: seq<nat>)
    requires Distinct(Vcns(t)) && Vcns(t) == a + mid + b && Vcns(t') == a + b && AllFit(l, t') && Marks(used, a, b)
    ensures Sound(l, t', used, {})
  {
    hide AllFit, Vcns;
    DistinctRemove(a, mid, b);
  }

  lemma {:induction false} ShrunkLength(x: Node, q: nat, head: nat, longest: nat)
    requires q < |x.keys| && |x.kids| == |x.keys| + 1
    ensures Length(Shrunk(x, q), head) + x.keys[q].size + VCN_SIZE == Length(x, head)
    ensures Short(x.keys, longest) ==> Short(Shrunk(x, q).keys, longest) && x.keys[q].size <= longest
  {
    DeletedBytes(x.keys, q);
  }

  lemma {:induction false} DeletedBytes(keys: seq<Entry>, q: nat)
    requires q < |keys|
    ensures Bytes(Cut(keys, q)) + keys[q].size == Bytes(keys)
  {
    assert keys == keys[..q] + ([keys[q]] + keys[q + 1..]);
    BytesConcat(keys[..q], [keys[q]] + keys[q + 1..]);
    BytesConcat([keys[q]], keys[q + 1..]);
    BytesConcat(keys[..q], keys[q + 1..]);
    assert Bytes([keys[q]]) == keys[q].size + Bytes([keys[q]][1..]);
  }

  lemma {:induction false} EndedLength(x: Node, head: nat, longest: nat)
    requires x.keys != [] && |x.kids| == |x.keys| + 1
    ensures Length(Ended(x), head) + x.keys[|x.keys| - 1].size + VCN_SIZE == Length(x, head)
    ensures Short(x.keys, longest) ==> Short(Ended(x).keys, longest) && x.keys[|x.keys| - 1].size <= longest
  {
    var n := |x.keys| - 1;
    DeletedBytes(x.keys, n);
    assert Cut(x.keys, n) == x.keys[..n];
  }

  /** `ntfs_ih_takeout` of the entry whose subnode is removed. */
  lemma {:induction false} TakeoutEntry(l: Limits, m: Store, x: Node, h: nat, pos: seq<nat>, vcn: seq<int>, c: nat,
                                        used: set<nat>)
    requires Route(m, x, h, pos, vcn, 0, c + 1) && (c > 0 ==> c < |vcn| && vcn[c] >= 0) && c < h && c < |pos|
    requires AllFit(l, Walk(m, x, 0, h)) && Distinct(Vcns(Walk(m, x, 0, h)))
    requires Marks(used, Vcns(Left(m, x, h, pos, vcn, 0, c + 1)), Vcns(Right(m, x, h, pos, vcn, 0, c + 1)))
    requires var n := NodeAt(m, x, vcn, c); Shape(n, h - c) && pos[c] < |n.keys| && (c > 0 ==> Fits(l, n, h - c))
    ensures var n := NodeAt(m, x, vcn, c);
            var y := Shrunk(n, pos[c]);
            var t' := Walk(StoreAfter(m, vcn, c, y), RootAfter(x, c, y), 0, h);
            var a, b := Keys(Left(m, x, h, pos, vcn, 0, c + 1)), Keys(Right(m, x, h, pos, vcn, 0, c + 1));
            && Sound(l, t', used, {}) && b != [] && b[0] == n.keys[pos[c]] && Keys(t') == a + b[1..]
  {
    hide Walk, Tree, Left, Right, Vcns, Distinct, Route, Keys, AllFit, Fits, Before, After, LeftOf, RightOf, Marks,
         Shrunk;
    var n, q, k := NodeAt(m, x, vcn, c), pos[c], h - c;
    var y := Shrunk(n, q);
    SidesAt(m, x, h, pos, vcn, c);
    FocusOf(m, x, h, pos, vcn, c);
    ShrunkWalk(m, n, q, k);
    var a, b := LeftOf(m, x, h, pos, vcn, c), RightOf(m, x, h, pos, vcn, c);
    var p, mid, e, w := Before(m, n, q, k), Tree(m, n.kids[q], k - 1), [Item(n.keys[q])], Walk(m, n, q + 1, k);
    AfterIs(m, n, q, k);
    Sums6(a, p, mid, e, w, b);
    SixParts(a, p, mid, e, w, b);
    One(0, n, 0, n.keys[q]);
    KeysConcat(p, w);
    VcnsConcat(p, w);
    FitParts(l, a, p, mid, e, w, b);
    if c > 0 {
      ShrunkFits(l, n, q, k);
    }
    AmongParts(Vcns(p), Vcns(mid), Vcns(w));
    Sums3(p, mid, e + w);
    KeysConcat(e, w);
    VcnsConcat(e, w);
    NodeRewrite(l, m, x, h, pos, vcn, c, y);
    KeysConcat(a, p);
    VcnsConcat(a, p);
    KeysConcat(e + w, b);
    VcnsConcat(e + w, b);
    TakeoutSeqs(Keys(a), Keys(p), n.keys[q], Keys(w), Keys(b));
    TakeoutVcns(Vcns(a), Vcns(p), Vcns(mid), Vcns(w), Vcns(b));
    SoundDrop(l, Walk(m, x, 0, h), Walk(StoreAfter(m, vcn, c, y), RootAfter(x, c, y), 0, h), used,
              Vcns(a) + Vcns(p), Vcns(mid), Vcns(w) + Vcns(b));
  }

  lemma {:induction false} SixParts<T>(a: seq<T>, p: seq<T>, mid: seq<T>, e: seq<T>, w: seq<T>, b: seq<T>)
    ensures a + (p + mid + (e + w)) + b == a + p + mid + e + w + b
  {
  }

  lemma {:induction false} FitParts(l: Limits, a: seq<Token>, p: seq<Token>, mid: seq<Token>, e: seq<Token>,
                                    w: seq<Token>, b: seq<Token>)
    requires AllFit(l, a + p + mid + e + w + b)
    ensures AllFit(l, p + w)
  {
    hide AllFit;
    Fit6(l, a, p, mid, e, w, b);
    AllFitConcat(l, p, w);
  }

  lemma {:induction false} ShrunkFits(l: Limits, x: Node, q: nat, h: nat)
    requires Fits(l, x, h) && h > 0 && q < |x.keys|
    ensures |x.kids| == |x.keys| + 1 && Fits(l, Shrunk(x, q), h)
  {
    ShrunkLength(x, q, l.head, l.longest);
  }

  lemma {:induction false} AmongParts(p: seq<nat>, mid: seq<nat>, w: seq<nat>)
    ensures Among(p + w, p + mid + ([] + w))
  {
  }

  lemma {:induction false} TakeoutSeqs<T>(a: seq<T>, p: seq<T>, e: T, w: seq<T>, b: seq<T>)
    ensures var r := [e] + w + b;
            r != [] && r[0] == e && (a + p) + r[1..] == a + (p + w) + b
  {
    assert ([e] + w + b)[1..] == w + b;
  }

  lemma {:induction false} TakeoutVcns<T>(a: seq<T>, p: seq<T>, mid: seq<T>, w: seq<T>, b: seq<T>)
    ensures a + p + mid + [] + w + b == (a + p) + mid + (w + b)
    ensures a + (p + w) + b == (a + p) + (w + b)
    ensures [] + w + b == w + b
  {
  }

  lemma {:induction false} EndedBefore(m: Store, x: Node, h: nat)
    requires h > 0 && Shape(x, h) && x.keys != []
    ensures var n := |x.keys|;
            && Before(m, x, n, h) == Walk(m, Ended(x), 0, h) + [Item(x.keys[n - 1])]
            && After(m, x, n, h) == []
  {
    hide Walk, Tree;
    var n := |x.keys|;
    var y := Ended(x);
    WalkSplit(m, y, n - 1, h);
    BeforeSame(m, x, y, n - 1, h);
    assert After(m, y, n - 1, h) == [];
    assert Sub(m, y, n - 1, h) == Sub(m, x, n - 1, h);
  }

  lemma {:induction false} EndedFits(l: Limits, x: Node, h: nat)
    requires Fits(l, x, h) && h > 0 && x.keys != []
    ensures |x.kids| == |x.keys| + 1 && Fits(l, Ended(x), h)
  {
    EndedLength(x, l.head, l.longest);
  }

  /** `ntfs_ih_reparent_end`: the subnode of END is removed, END takes that of the last entry. */
  lemma {:induction false} TakeoutEnd(l: Limits, m: Store, x: Node, h: nat, pos: seq<nat>, vcn: seq<int>, c: nat,
                                      used: set<nat>)
    requires Route(m, x, h, pos, vcn, 0, c + 1) && (c > 0 ==> c < |vcn| && vcn[c] >= 0) && c < h && c < |pos|
    requires AllFit(l, Walk(m, x, 0, h)) && Distinct(Vcns(Walk(m, x, 0, h)))
    requires Marks(used, Vcns(Left(m, x, h, pos, vcn, 0, c + 1)), Vcns(Right(m, x, h, pos, vcn, 0, c + 1)))
    requires var n := NodeAt(m, x, vcn, c); Shape(n, h - c) && pos[c] == |n.keys| > 0 && (c > 0 ==> Fits(l, n, h - c))
    ensures var n := NodeAt(m, x, vcn, c);
            var y := Ended(n);
            var t' := Walk(StoreAfter(m, vcn, c, y), RootAfter(x, c, y), 0, h);
            var a, b := Keys(Left(m, x, h, pos, vcn, 0, c + 1)), Keys(Right(m, x, h, pos, vcn, 0, c + 1));
            && Sound(l, t', used, {}) && a != [] && a[|a| - 1] == n.keys[|n.keys| - 1] && Keys(t') == a[..|a| - 1] + b
  {
    hide Walk, Tree, Left, Right, Vcns, Distinct, Route, Keys, AllFit, Fits, Before, After, LeftOf, RightOf, Marks,
         Ended;
    var n, k := NodeAt(m, x, vcn, c), h - c;
    var q := |n.keys|;
    var y := Ended(n);
    SidesAt(m, x, h, pos, vcn, c);
    FocusOf(m, x, h, pos, vcn, c);
    EndedWalk(m, n, k);
    EndedBefore(m, n, k);
    var a, b := LeftOf(m, x, h, pos, vcn, c), RightOf(m, x, h, pos, vcn, c);
    var w, e, mid := Walk(m, y, 0, k), [Item(n.keys[q - 1])], Tree(m, n.kids[q], k - 1);
    Sums3(a, w + e + mid, b);
    Sums3(w, e, mid);
    One(0, n, 0, n.keys[q - 1]);
    Fit3(l, a, w + e + mid, b);
    Fit3(l, w, e, mid);
    if c > 0 {
      EndedFits(l, n, k);
    }
    AmongEnd(Vcns(w), Vcns(mid));
    NodeRewrite(l, m, x, h, pos, vcn, c, y);
    Sums3(a, w, e);
    assert a + (w + e) == a + w + e;
    assert [] + b == b;
    EndSeqs(Keys(a), Keys(w), n.keys[q - 1], Keys(b));
    EndVcns(Vcns(a), Vcns(w), Vcns(mid), Vcns(b));
    SoundDrop(l, Walk(m, x, 0, h), Walk(StoreAfter(m, vcn, c, y), RootAfter(x, c, y), 0, h), used,
              Vcns(a) + Vcns(w), Vcns(mid), Vcns(b));
  }

  lemma {:induction false} AmongEnd(w: seq<nat>, mid: seq<nat>)
    ensures Among(w, w + [] + mid)
  {
  }

  lemma {:induction false} EndSeqs<T>(a: seq<T>, w: seq<T>, e: T, b: seq<T>)
    ensures var s := a + w + [e];
            s != [] && s[|s| - 1] == e && s[..|s| - 1] + b == a + w + b
  {
    assert (a + w + [e])[..|a + w|] == a + w;
  }

  lemma {:induction false} EndVcns<T>(a: seq<T>, w: seq<T>, mid: seq<T>, b: seq<T>)
    ensures a + (w + [] + mid) + b == (a + w) + mid + b
    ensures a + w + [] == a + w
  {
  }

  /** Other keys in the node at level `c`, the same blocks below it. */
  lemma {:induction false} NodeRekey(l: Limits, m: Store, x: Node, h: nat, pos: seq<nat>, vcn: seq<int>, c: nat,
                                     y: Node, used: set<nat>, extra: set<nat>)
    requires c <= h && Route(m, x, h, pos, vcn, 0, c) && (c > 0 ==> c < |vcn| && vcn[c] >= 0)
    requires Sound(l, Walk(m, x, 0, h), used, extra)
    requires (c > 0 ==> Fits(l, y, h - c)) && AllFit(l, Walk(m, y, 0, h - c))
    requires Vcns(Walk(m, y, 0, h - c)) == Vcns(Walk(m, NodeAt(m, x, vcn, c), 0, h - c))
    ensures var t' := Walk(StoreAfter(m, vcn, c, y), RootAfter(x, c, y), 0, h);
            && Keys(t') == Keys(LeftOf(m, x, h, pos, vcn, c)) + Keys(Walk(m, y, 0, h - c))
                + Keys(RightOf(m, x, h, pos, vcn, c))
            && Sound(l, t', used, extra)
  {
    hide Walk, Vcns, Distinct, Route, Keys, AllFit, Fits, LeftOf, RightOf;
    NodeRewrite(l, m, x, h, pos, vcn, c, y);
    FocusOf(m, x, h, pos, vcn, c);
    Sums3(LeftOf(m, x, h, pos, vcn, c), Walk(m, NodeAt(m, x, vcn, c), 0, h - c), RightOf(m, x, h, pos, vcn, c));
  }
}

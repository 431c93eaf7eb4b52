/** The B+tree of a directory index (`index.c`): index blocks in a store, and the walk over everything
    reachable from a node as one sequence of tokens, blocks and index entries in collation order. */
module IndexTree {

  /** An index entry without its subnode: the rank of its key under `collate`, its length in bytes
      (without subnode pointer) and the file it names. */
  datatype Entry = Entry(key: int, size: nat, file: nat)

  /** The entries of a node and, unless it is a leaf, the subnode of each entry and of the END entry. */
  datatype Node = Node(keys: seq<Entry>, kids: seq<nat>)

  type Store = map<nat, Node>

  datatype Token = Block(vcn: nat, node: Node, height: nat) | Item(entry: Entry)

  const NOWHERE := Node([], [])

  function Get(m: Store, v: nat): (r: Node) {
    if v in m then m[v] else NOWHERE
  }

  /** A block of height `h` above the leaves and everything below it. */
  function Tree(m: Store, v: nat, h: nat): (r: seq<Token>)
    decreases h, 2, 0
  {
    [Block(v, Get(m, v), h)] + Walk(m, Get(m, v), 0, h)
  }

  lemma {:induction false} TreeIs(m: Store, v: nat, h: nat)
    ensures Tree(m, v, h) == [Block(v, Get(m, v), h)] + Walk(m, Get(m, v), 0, h)
  {
  }

  /** The subtree before entry `i`. */
  function Sub(m: Store, x: Node, i: nat, h: nat): (r: seq<Token>)
    decreases h, 0, 0
  {
    if h == 0 || i >= |x.kids| then [] else Tree(m, x.kids[i], h - 1)
  }

  /** Node `x` from entry `i` on. */
  function Walk(m: Store, x: Node, i: nat, h: nat): (r: seq<Token>)
    decreases h, 1, |x.keys| - i
  {
    Sub(m, x, i, h) + (if i < |x.keys| then [Item(x.keys[i])] + Walk(m, x, i + 1, h) else [])
  }

  /** Node `x` before the subtree of entry `p`. */
  function Before(m: Store, x: Node, p: nat, h: nat): (r: seq<Token>)
    requires p <= |x.keys|
    decreases p
  {
    if p == 0 then [] else Before(m, x, p - 1, h) + Sub(m, x, p - 1, h) + [Item(x.keys[p - 1])]
  }

  /** Node `x` after the subtree of entry `p`. */
  function After(m: Store, x: Node, p: nat, h: nat): (r: seq<Token>) {
    if p < |x.keys| then [Item(x.keys[p])] + Walk(m, x, p + 1, h) else []
  }

  lemma {:induction false} AfterIs(m: Store, x: Node, p: nat, h: nat)
    ensures After(m, x, p, h) == if p < |x.keys| then [Item(x.keys[p])] + Walk(m, x, p + 1, h) else []
  {
  }

  lemma {:induction false} Regroup<T>(a: seq<T>, b: seq<T>, c: seq<T>, d: seq<T>, e: seq<T>)
    ensures a + b + (c + (d + e)) == (a + b + c) + d + e
  {
  }

  lemma {:induction false} WalkSplit(m: Store, x: Node, p: nat, h: nat)
    requires p <= |x.keys|
    ensures Walk(m, x, 0, h) == Before(m, x, p, h) + Sub(m, x, p, h) + After(m, x, p, h)
    decreases p
  {
    if p > 0 {
      WalkSplit(m, x, p - 1, h);
      assert Walk(m, x, p, h) == Sub(m, x, p, h) + After(m, x, p, h);
      Regroup(Before(m, x, p - 1, h), Sub(m, x, p - 1, h), [Item(x.keys[p - 1])], Sub(m, x, p, h), After(m, x, p, h));
    }
  }

  /** A walk only depends on the entries and subnodes it passes. */
  lemma {:induction false} WalkShift(m: Store, x: Node, i: nat, x': Node, i': nat, h: nat)
    requires i <= |x.keys| && i' <= |x'.keys| && x.keys[i..] == x'.keys[i'..]
    requires h > 0 ==> |x.kids| == |x.keys| + 1 && |x'.kids| == |x'.keys| + 1 && x.kids[i..] == x'.kids[i'..]
    ensures Walk(m, x, i, h) == Walk(m, x', i', h)
    decreases |x.keys| - i
  {
    assert |x.keys| - i == |x'.keys| - i';
    if h > 0 {
      assert x.kids[i] == x.kids[i..][0] == x'.kids[i'..][0] == x'.kids[i'];
    }
    assert Sub(m, x, i, h) == Sub(m, x', i', h);
    if i < |x.keys| {
      assert x.keys[i] == x.keys[i..][0] == x'.keys[i'..][0] == x'.keys[i'];
      assert x.keys[i + 1..] == x.keys[i..][1..] && x'.keys[i' + 1..] == x'.keys[i'..][1..];
      if h > 0 {
        assert x.kids[i + 1..] == x.kids[i..][1..] && x'.kids[i' + 1..] == x'.kids[i'..][1..];
      }
      WalkShift(m, x, i + 1, x', i' + 1, h);
    }
  }

  lemma {:induction false} BeforeSame(m: Store, x: Node, x': Node, p: nat, h: nat)
    requires p <= |x.keys| && p <= |x'.keys| && x.keys[..p] == x'.keys[..p]
    requires h > 0 ==> p <= |x.kids| && p <= |x'.kids| && x.kids[..p] == x'.kids[..p]
    ensures Before(m, x, p, h) == Before(m, x', p, h)
    decreases p
  {
    if p > 0 {
      assert x.keys[..p - 1] == x.keys[..p][..p - 1] && x'.keys[..p - 1] == x'.keys[..p][..p - 1];
      assert x.keys[p - 1] == x.keys[..p][p - 1] == x'.keys[p - 1];
      if h > 0 {
        assert x.kids[..p - 1] == x.kids[..p][..p - 1] && x'.kids[..p - 1] == x'.kids[..p][..p - 1];
        assert x.kids[p - 1] == x.kids[..p][p - 1] == x'.kids[p - 1];
      }
      BeforeSame(m, x, x', p - 1, h);
    }
  }

  /** The store holds the blocks the tokens say. */
  ghost predicate Matches(m: Store, t: seq<Token>) {
    forall i :: 0 <= i < |t| && t[i].Block? ==> Get(m, t[i].vcn) == t[i].node
  }

  lemma {:induction false} MatchesConcat(m: Store, a: seq<Token>, b: seq<Token>)
    ensures Matches(m, a + b) <==> Matches(m, a) && Matches(m, b)
  {
    var c := a + b;
    assert forall i :: 0 <= i < |a| ==> c[i] == a[i];
    assert forall i :: 0 <= i < |b| ==> c[|a| + i] == b[i];
    if Matches(m, c) {
      assert forall i :: 0 <= i < |b| && b[i].Block? ==> c[|a| + i] == b[i];
    }
    assert forall i :: |a| <= i < |c| ==> c[i] == b[i - |a|];
  }

  lemma {:induction false} MatchesPlain(m: Store, e: Entry)
    ensures Matches(m, []) && Matches(m, [Item(e)])
  {
  }

  lemma {:induction false} WalkMatches(m: Store, x: Node, i: nat, h: nat)
    ensures Matches(m, Walk(m, x, i, h))
    decreases h, |x.keys| - i
  {
    hide Matches;
    var rest := if i < |x.keys| then [Item(x.keys[i])] + Walk(m, x, i + 1, h) else [];
    MatchesPlain(m, if i < |x.keys| then x.keys[i] else Entry(0, 0, 0));
    if i < |x.keys| {
      WalkMatches(m, x, i + 1, h);
      MatchesConcat(m, [Item(x.keys[i])], Walk(m, x, i + 1, h));
    }
    if h > 0 && i < |x.kids| {
      TreeMatches(m, x.kids[i], h - 1);
    }
    MatchesConcat(m, Sub(m, x, i, h), rest);
  }

  lemma {:induction false} TreeMatches(m: Store, v: nat, h: nat)
    ensures Matches(m, Tree(m, v, h))
    decreases h, |Get(m, v).keys| + 1
  {
    WalkMatches(m, Get(m, v), 0, h);
    MatchesConcat(m, [Block(v, Get(m, v), h)], Walk(m, Get(m, v), 0, h));
  }

  /** A store that agrees on the blocks passed gives the same walk. */
  lemma {:induction false} WalkFrame(m: Store, m': Store, x: Node, i: nat, h: nat)
    requires Matches(m', Walk(m, x, i, h))
    ensures Walk(m', x, i, h) == Walk(m, x, i, h)
    decreases h, 1, |x.keys| - i
  {
    hide Matches;
    var rest := if i < |x.keys| then [Item(x.keys[i])] + Walk(m, x, i + 1, h) else [];
    MatchesConcat(m', Sub(m, x, i, h), rest);
    if i < |x.keys| {
      MatchesConcat(m', [Item(x.keys[i])], Walk(m, x, i + 1, h));
      WalkFrame(m, m', x, i + 1, h);
    }
    SubFrame(m, m', x, i, h);
  }

  lemma {:induction false} SubFrame(m: Store, m': Store, x: Node, i: nat, h: nat)
    requires Matches(m', Sub(m, x, i, h))
    ensures Sub(m', x, i, h) == Sub(m, x, i, h)
    decreases h, 0, 0
  {
    hide Matches;
    if h > 0 && i < |x.kids| {
      TreeFrame(m, m', x.kids[i], h - 1);
    }
  }

  lemma {:induction false} TreeFrame(m: Store, m': Store, v: nat, h: nat)
    requires Matches(m', Tree(m, v, h))
    ensures Tree(m', v, h) == Tree(m, v, h)
    decreases h, 2, 0
  {
    var x := Get(m, v);
    MatchesConcat(m', [Block(v, x, h)], Walk(m, x, 0, h));
    assert Get(m', v) == x by {
      assert [Block(v, x, h)][0].Block?;
    }
    WalkFrame(m, m', x, 0, h);
  }

  lemma {:induction false} BeforeFrame(m: Store, m': Store, x: Node, p: nat, h: nat)
    requires p <= |x.keys| && Matches(m', Before(m, x, p, h))
    ensures Before(m', x, p, h) == Before(m, x, p, h)
    decreases p
  {
    hide Matches;
    if p > 0 {
      MatchesConcat(m', Before(m, x, p - 1, h) + Sub(m, x, p - 1, h), [Item(x.keys[p - 1])]);
      MatchesConcat(m', Before(m, x, p - 1, h), Sub(m, x, p - 1, h));
      BeforeFrame(m, m', x, p - 1, h);
      SubFrame(m, m', x, p - 1, h);
    }
  }

  lemma {:induction false} AfterFrame(m: Store, m': Store, x: Node, p: nat, h: nat)
    requires Matches(m', After(m, x, p, h))
    ensures After(m', x, p, h) == After(m, x, p, h)
  {
    hide Matches;
    if p < |x.keys| {
      MatchesConcat(m', [Item(x.keys[p])], Walk(m, x, p + 1, h));
      WalkFrame(m, m', x, p + 1, h);
    }
  }

  /** The index entries, in order. */
  function Keys(t: seq<Token>): (r: seq<Entry>)
    ensures |r| <= |t|
    decreases |t|
  {
    if t == [] then [] else (if t[0].Item? then [t[0].entry] else []) + Keys(t[1..])
  }

  /** The blocks. */
  function Vcns(t: seq<Token>): (r: seq<nat>)
    decreases |t|
  {
    if t == [] then [] else (if t[0].Block? then [t[0].vcn] else []) + Vcns(t[1..])
  }

  lemma {:induction false} KeysConcat(a: seq<Token>, b: seq<Token>)
    ensures Keys(a + b) == Keys(a) + Keys(b)
    decreases |a|
  {
    if a == [] {
      assert a + b == b;
    } else {
      assert (a + b)[0] == a[0] && (a + b)[1..] == a[1..] + b;
      KeysConcat(a[1..], b);
    }
  }

  lemma {:induction false} VcnsConcat(a: seq<Token>, b: seq<Token>)
    ensures Vcns(a + b) == Vcns(a) + Vcns(b)
    decreases |a|
  {
    if a == [] {
      assert a + b == b;
    } else {
      assert (a + b)[0] == a[0] && (a + b)[1..] == a[1..] + b;
      VcnsConcat(a[1..], b);
    }
  }

  lemma {:induction false} VcnsMember(t: seq<Token>, i: nat)
    requires i < |t| && t[i].Block?
    ensures t[i].vcn in Vcns(t)
    decreases |t|
  {
    if i > 0 {
      VcnsMember(t[1..], i - 1);
    }
  }

  /** Changing a block that is not among the tokens. */
  lemma {:induction false} MatchesUpdate(m: Store, t: seq<Token>, v: nat, x: Node)
    requires Matches(m, t) && v !in Vcns(t)
    ensures Matches(m[v := x], t)
  {
    forall i | 0 <= i < |t| && t[i].Block?
      ensures Get(m[v := x], t[i].vcn) == t[i].node
    {
      VcnsMember(t, i);
    }
  }
}

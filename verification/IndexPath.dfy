/** The path from the index root to a block, as the search context records it (`parent_pos`,
    `parent_vcn`), and how a change at its end shows in the walk of the whole tree. */
module IndexPath {
  import opened IndexTree

  /** From node `x` at level `i`, of height `h`, the recorded positions lead to the recorded blocks, down
      to level `d`. */
  ghost predicate Route(m: Store, x: Node, h: nat, pos: seq<nat>, vcn: seq<int>, i: nat, d: nat)
    decreases d - i
  {
    i == d || (i < d && h > 0 && d < |pos| == |vcn| && pos[i] <= |x.keys| && pos[i] < |x.kids|
               && vcn[i + 1] == x.kids[pos[i]] && Route(m, Get(m, x.kids[pos[i]]), h - 1, pos, vcn, i + 1, d))
  }

  /** What the walk of `x` passes before the block at level `d`. */
  ghost function Left(m: Store, x: Node, h: nat, pos: seq<nat>, vcn: seq<int>, i: nat, d: nat): (r: seq<Token>)
    requires i < d && Route(m, x, h, pos, vcn, i, d)
    decreases d - i
  {
    var k := x.kids[pos[i]];
    if i + 1 == d then Before(m, x, pos[i], h)
    else Before(m, x, pos[i], h) + ([Block(k, Get(m, k), h - 1)] + Left(m, Get(m, k), h - 1, pos, vcn, i + 1, d))
  }

  /** What it passes after that block and all below it. */
  ghost function Right(m: Store, x: Node, h: nat, pos: seq<nat>, vcn: seq<int>, i: nat, d: nat): (r: seq<Token>)
    requires i < d && Route(m, x, h, pos, vcn, i, d)
    decreases d - i
  {
    if i + 1 == d then After(m, x, pos[i], h)
    else Right(m, Get(m, x.kids[pos[i]]), h - 1, pos, vcn, i + 1, d) + After(m, x, pos[i], h)
  }

  lemma {:induction false} RouteHeight(m: Store, x: Node, h: nat, pos: seq<nat>, vcn: seq<int>, i: nat, d: nat)
    requires Route(m, x, h, pos, vcn, i, d)
    ensures i <= d && d - i <= h && (i < d ==> d < |pos| == |vcn| && vcn[d] >= 0)
    decreases d - i
  {
    if i < d {
      RouteHeight(m, Get(m, x.kids[pos[i]]), h - 1, pos, vcn, i + 1, d);
    }
  }

  lemma {:induction false} Regroup3<T>(a: seq<T>, b: seq<T>, l: seq<T>, f: seq<T>, r: seq<T>, c: seq<T>)
    ensures a + (b + (l + f + r)) + c == (a + (b + l)) + f + (r + c)
  {
  }

  lemma {:induction false} SidesAre(m: Store, x: Node, h: nat, pos: seq<nat>, vcn: seq<int>, i: nat, d: nat)
    requires i < d && Route(m, x, h, pos, vcn, i, d)
    ensures i + 1 == d ==> Left(m, x, h, pos, vcn, i, d) == Before(m, x, pos[i], h)
    ensures i + 1 == d ==> Right(m, x, h, pos, vcn, i, d) == After(m, x, pos[i], h)
    ensures i + 1 < d ==>
      var k := x.kids[pos[i]];
      && Left(m, x, h, pos, vcn, i, d)
         == Before(m, x, pos[i], h) + ([Block(k, Get(m, k), h - 1)] + Left(m, Get(m, k), h - 1, pos, vcn, i + 1, d))
      && Right(m, x, h, pos, vcn, i, d) == Right(m, Get(m, k), h - 1, pos, vcn, i + 1, d) + After(m, x, pos[i], h)
  {
  }

  /** The walk of the whole, focused on the block at level `d`. */
  lemma {:induction false} Focus(m: Store, x: Node, h: nat, pos: seq<nat>, vcn: seq<int>, i: nat, d: nat)
    requires i < d && Route(m, x, h, pos, vcn, i, d)
    ensures i < d && d - i <= h && d < |vcn| && vcn[d] >= 0
    ensures Walk(m, x, 0, h) == Left(m, x, h, pos, vcn, i, d) + Tree(m, vcn[d], h - (d - i))
            + Right(m, x, h, pos, vcn, i, d)
    decreases d - i
  {
    hide Walk, Tree, Left, Right, Before, After;
    var p := pos[i];
    var k := x.kids[p];
    RouteHeight(m, x, h, pos, vcn, i, d);
    WalkSplit(m, x, p, h);
    SidesAre(m, x, h, pos, vcn, i, d);
    if i + 1 < d {
      TreeIs(m, k, h - 1);
      Focus(m, Get(m, k), h - 1, pos, vcn, i + 1, d);
      Regroup3(Before(m, x, p, h), [Block(k, Get(m, k), h - 1)], Left(m, Get(m, k), h - 1, pos, vcn, i + 1, d),
               Tree(m, vcn[d], h - (d - i)), Right(m, Get(m, k), h - 1, pos, vcn, i + 1, d), After(m, x, p, h));
    }
  }

  /** A store that agrees on everything outside the block at level `d` has the same path, and the walk
      differs only in that block. */
  lemma {:induction false} Refocus(m: Store, m': Store, x: Node, h: nat, pos: seq<nat>, vcn: seq<int>, i: nat, d: nat)
    requires i < d && Route(m, x, h, pos, vcn, i, d)
    requires Matches(m', Left(m, x, h, pos, vcn, i, d)) && Matches(m', Right(m, x, h, pos, vcn, i, d))
    ensures Route(m', x, h, pos, vcn, i, d)
    ensures Left(m', x, h, pos, vcn, i, d) == Left(m, x, h, pos, vcn, i, d)
    ensures Right(m', x, h, pos, vcn, i, d) == Right(m, x, h, pos, vcn, i, d)
    decreases d - i
  {
    hide Matches, Before, After;
    var p := pos[i];
    var k := x.kids[p];
    var y := Get(m, k);
    if i + 1 == d {
      BeforeFrame(m, m', x, p, h);
      AfterFrame(m, m', x, p, h);
    } else {
      var l, r := Left(m, y, h - 1, pos, vcn, i + 1, d), Right(m, y, h - 1, pos, vcn, i + 1, d);
      MatchesConcat(m', Before(m, x, p, h), [Block(k, y, h - 1)] + l);
      MatchesConcat(m', [Block(k, y, h - 1)], l);
      MatchesBlock(m', k, y, h - 1);
      MatchesConcat(m', r, After(m, x, p, h));
      BeforeFrame(m, m', x, p, h);
      AfterFrame(m, m', x, p, h);
      Refocus(m, m', y, h - 1, pos, vcn, i + 1, d);
    }
  }

  lemma {:induction false} MatchesBlock(m: Store, v: nat, x: Node, h: nat)
    requires Matches(m, [Block(v, x, h)])
    ensures Get(m, v) == x
  {
    assert [Block(v, x, h)][0].Block?;
  }
}

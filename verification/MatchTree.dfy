/** The compressor's match finder (`ntfs_best_match`): one binary tree of earlier positions per
    first byte, held in the arrays `head`, `lson` and `rson`.  The main result is that the walk
    down one path of the tree finds a longest match over ALL earlier positions, although a
    position that matches a node as far as allowed is never linked in. */
module MatchTree {
  import opened Lznt1Format

  function At(s: seq<byte>, p: nat, t: nat): byte
    requires p + t < |s|
  {
    s[p + t]
  }

  /** The `n` bytes from `p` and from `q` are the same. */
  predicate Agree(s: seq<byte>, p: nat, q: nat, n: nat)
    requires p <= q && q + n <= |s|
  {
    forall t :: 0 <= t < n ==> At(s, p, t) == At(s, q, t)
  }

  /** How long a match at `i` may be. */
  function Limit(s: seq<byte>, i: nat, mxsz: nat): (r: nat)
    requires i <= |s|
    ensures i + r <= |s| && r <= mxsz
  {
    if i + mxsz < |s| then mxsz else |s| - i
  }

  /** No position before `i` matches more than `n` bytes at `i`, within the limit. */
  predicate NoLongerMatch(s: seq<byte>, i: nat, mxsz: nat, n: nat)
    requires i <= |s|
  {
    forall p: nat, l: nat :: p < i && l <= Limit(s, i, mxsz) && Agree(s, p, i, l) ==> l <= n
  }

  /** A turn taken on the way down: at `node`, to the right or left, after `e` equal bytes. */
  datatype Step = Step(node: nat, right: bool, e: nat)

  /** Position `p` turned at `st.node` because of the byte after `st.e` equal ones; to the right
      also when it agreed with the node as far as a match may go. */
  predicate StepOk(s: seq<byte>, mxsz: nat, p: nat, st: Step) {
    && st.node < p < |s| && p + st.e <= |s| && Agree(s, st.node, p, st.e)
    && if st.right
       then st.e >= Limit(s, p, mxsz) || At(s, p, st.e) > At(s, st.node, st.e)
       else p + st.e < |s| && At(s, p, st.e) < At(s, st.node, st.e)
  }

  function Son(l: seq<int>, r: seq<int>, st: Step): int
    requires st.node < |l| == |r|
  {
    if st.right then r[st.node] else l[st.node]
  }

  /** Consecutive turns of `p`, each leading to the next. */
  predicate Linked(s: seq<byte>, mxsz: nat, l: seq<int>, r: seq<int>, p: nat, pth: seq<Step>)
    requires |l| == |r| == SB_SIZE && |s| <= SB_SIZE
  {
    && (forall k :: 0 <= k < |pth| ==> StepOk(s, mxsz, p, pth[k]))
    && (forall k, n :: 0 <= k < |pth| && n == k + 1 && n < |pth| ==> Son(l, r, pth[k]) == pth[n].node)
  }

  /** `pth` leads from the head of its tree to `p`, or to a node that `p` matched to the limit. */
  predicate PathOk(s: seq<byte>, mxsz: nat, l: seq<int>, r: seq<int>, p: nat, pth: seq<Step>)
    requires |l| == |r| == SB_SIZE && |s| <= SB_SIZE
  {
    && Linked(s, mxsz, l, r, p, pth)
    && (pth != [] ==>
          var last := pth[|pth| - 1];
          Son(l, r, last) == p || (last.right && last.e >= Limit(s, p, mxsz)))
  }

  /** Each head is an entered position starting with its byte; every entered byte has a head. */
  predicate HeadsOk(s: seq<byte>, n: nat, h: seq<int>)
    requires n <= |s| && |h| == 256
  {
    && (forall c :: 0 <= c < 256 ==> -1 <= h[c] < n && (h[c] >= 0 ==> s[h[c]] == c))
    && (forall p :: 0 <= p < n ==> h[s[p]] >= 0)
  }

  /** Links lead to later positions with the same first byte. */
  predicate SonsOk(s: seq<byte>, n: nat, l: seq<int>)
    requires n <= |s| <= SB_SIZE && |l| == SB_SIZE
  {
    forall m :: 0 <= m < SB_SIZE ==> l[m] == -1 || (m < l[m] < n && s[m] == s[l[m]])
  }

  predicate PathsOk(s: seq<byte>, mxsz: nat, h: seq<int>, l: seq<int>, r: seq<int>, path: seq<seq<Step>>)
    requires |path| <= |s| <= SB_SIZE && |h| == 256 && |l| == |r| == SB_SIZE
  {
    forall p :: 0 <= p < |path| && p + 1 < |s| ==>
      PathOk(s, mxsz, l, r, p, path[p]) && h[s[p]] == (if path[p] == [] then p else path[p][0].node)
  }

  /** The trees of the first `|path|` positions of `s`. */
  predicate Trees(s: seq<byte>, mxsz: nat, h: seq<int>, l: seq<int>, r: seq<int>, path: seq<seq<Step>>) {
    && |path| <= |s| <= SB_SIZE && |h| == 256 && |l| == |r| == SB_SIZE
    && HeadsOk(s, |path|, h) && SonsOk(s, |path|, l) && SonsOk(s, |path|, r)
    && PathsOk(s, mxsz, h, l, r, path)
  }

  lemma {:induction false} AgreePrefix(s: seq<byte>, p: nat, q: nat, n: nat, m: nat)
    requires p <= q && q + n <= |s| && m <= n && Agree(s, p, q, n)
    ensures Agree(s, p, q, m)
  {
  }

  lemma {:induction false} AgreeShorter(s: seq<byte>, p: nat, q: nat, n: nat, m: nat)
    requires p <= q && q + n <= |s| && q + m <= |s| && Agree(s, p, q, n)
    ensures Agree(s, p, q, m) || n < m
  {
  }

  lemma {:induction false} AgreeSnoc(s: seq<byte>, p: nat, q: nat, n: nat)
    requires p <= q && q + n < |s| && Agree(s, p, q, n) && At(s, p, n) == At(s, q, n)
    ensures Agree(s, p, q, n + 1)
  {
  }

  /** Shortening the longest allowed match keeps every tree usable. */
  lemma {:induction false} TreesShrink(s: seq<byte>, a: nat, b: nat, h: seq<int>, l: seq<int>, r: seq<int>,
                                       path: seq<seq<Step>>)
    requires b <= a && Trees(s, a, h, l, r, path)
    ensures Trees(s, b, h, l, r, path)
  {
    hide HeadsOk, SonsOk;
    forall p | 0 <= p < |path| && p + 1 < |s|
      ensures PathOk(s, b, l, r, p, path[p])
    {
      assert PathOk(s, a, l, r, p, path[p]);
      forall k | 0 <= k < |path[p]|
        ensures StepOk(s, b, p, path[p][k])
      {
        assert StepOk(s, a, p, path[p][k]);
      }
    }
  }

  /** The heart of the search: `i` has exactly `d` bytes in common with node `m`, where `x` turned.
      If `x` has more in common with `i`, then it turned the way `i` does, and on a byte. */
  lemma {:induction false} SameTurn(s: seq<byte>, mxsz: nat, i: nat, d: nat, goRight: bool, x: nat, st: Step)
    requires x < i < |s| && StepOk(s, mxsz, x, st)
    requires d < Limit(s, i, mxsz) && Agree(s, st.node, i, d)
    requires At(s, st.node, d) != At(s, i, d) && (goRight <==> At(s, i, d) > At(s, st.node, d))
    requires Agree(s, x, i, d + 1)
    ensures st.right == goRight && st.e < Limit(s, x, mxsz)
  {
    assert At(s, x, d) == At(s, i, d) != At(s, st.node, d);
    assert st.e <= d;
    assert At(s, x, st.e) == At(s, i, st.e) != At(s, st.node, st.e);
    assert st.e == d;
  }

  /** `x` may still lie at or below `node`, which is at depth `k`. */
  predicate Below(pth: seq<Step>, x: nat, k: nat, node: int) {
    x == node || (k < |pth| && pth[k].node == node)
  }

  /** Every earlier position that could beat `best` bytes lies at or below `node`. */
  predicate Candidates(s: seq<byte>, path: seq<seq<Step>>, i: nat, best: nat, k: nat, node: int)
    requires |path| <= i && i + best <= |s|
  {
    forall x :: 0 <= x < |path| && i + best < |s| && Agree(s, x, i, best + 1) ==> Below(path[x], x, k, node)
  }

  /** `i` has exactly `d` bytes in common with `node`, up to the limit. */
  predicate Common(s: seq<byte>, mxsz: nat, node: nat, i: nat, d: nat) {
    && node < i < |s| && d <= Limit(s, i, mxsz) && Agree(s, node, i, d)
    && (d < Limit(s, i, mxsz) ==> At(s, node, d) != At(s, i, d))
  }

  /** Which way the walk turns at `node`. */
  predicate GoRight(s: seq<byte>, mxsz: nat, node: nat, i: nat, d: nat)
    requires Common(s, mxsz, node, i, d)
  {
    !(d < Limit(s, i, mxsz) && At(s, i, d) < At(s, node, d))
  }

  /** One step down keeps all candidates in sight. */
  lemma {:induction false} CandidatesStep(s: seq<byte>, mxsz: nat, h: seq<int>, l: seq<int>, r: seq<int>,
                                          path: seq<seq<Step>>, i: nat, best: nat, k: nat, node: nat, d: nat,
                                          best': nat)
    requires Trees(s, mxsz, h, l, r, path) && |path| == i < |s|
    requires Common(s, mxsz, node, i, d) && d < Limit(s, i, mxsz)
    requires best <= best' && d <= best' && i + best' <= |s|
    requires Candidates(s, path, i, best, k, node)
    ensures Candidates(s, path, i, best', k + 1, Son(l, r, Step(node, GoRight(s, mxsz, node, i, d), d)))
  {
    hide HeadsOk, SonsOk;
    var right := GoRight(s, mxsz, node, i, d);
    var next := Son(l, r, Step(node, right, d));
    forall x | 0 <= x < |path| && i + best' < |s| && Agree(s, x, i, best' + 1)
      ensures Below(path[x], x, k + 1, next)
    {
      AgreePrefix(s, x, i, best' + 1, best + 1);
      AgreePrefix(s, x, i, best' + 1, d + 1);
      assert At(s, x, d) == At(s, i, d);
      assert x != node;
      assert Below(path[x], x, k, node);
      assert PathOk(s, mxsz, l, r, x, path[x]);
      var st := path[x][k];
      SameTurn(s, mxsz, i, d, right, x, st);
    }
  }

  /** A step decided by comparing bytes is a correct turn of `i`. */
  lemma {:induction false} TurnOk(s: seq<byte>, mxsz: nat, node: nat, i: nat, j: nat, right: bool)
    requires i <= j && Common(s, mxsz, node, i, j - i)
    requires right == !(j < i + Limit(s, i, mxsz) && s[j] < s[node + (j - i)])
    ensures right == GoRight(s, mxsz, node, i, j - i) && StepOk(s, mxsz, i, Step(node, right, j - i))
  {
    assert j < i + Limit(s, i, mxsz) ==> At(s, i, j - i) == s[j] && At(s, node, j - i) == s[node + (j - i)];
  }

  lemma {:induction false} LinkedSnoc(s: seq<byte>, mxsz: nat, l: seq<int>, r: seq<int>, i: nat, walked: seq<Step>,
                                      st: Step)
    requires |l| == |r| == SB_SIZE && |s| <= SB_SIZE
    requires Linked(s, mxsz, l, r, i, walked) && StepOk(s, mxsz, i, st)
    requires walked != [] ==> Son(l, r, walked[|walked| - 1]) == st.node
    ensures Linked(s, mxsz, l, r, i, walked + [st])
  {
    var w := walked + [st];
    forall k | 0 <= k < |w|
      ensures StepOk(s, mxsz, i, w[k])
    {
      assert k < |walked| ==> w[k] == walked[k];
    }
    forall k, n | 0 <= k < |w| && n == k + 1 && n < |w|
      ensures Son(l, r, w[k]) == w[n].node
    {
      assert w[k] == walked[k];
      assert n < |walked| ==> w[n] == walked[n];
    }
  }

  /** Entering position `|path|` with path `walked`: a new head, or one filled link, or neither. */
  lemma {:induction false} Enter(s: seq<byte>, mxsz: nat, h: seq<int>, l: seq<int>, r: seq<int>, path: seq<seq<Step>>,
                                 h': seq<int>, l': seq<int>, r': seq<int>, walked: seq<Step>)
    requires Trees(s, mxsz, h, l, r, path) && |path| < |s| && |h'| == 256 && |l'| == |r'| == SB_SIZE
    requires Grown(s, |path|, l, l') && Grown(s, |path|, r, r')
    requires h'[s[|path|]] >= 0 && (h' == h || (h[s[|path|]] < 0 && h' == h[s[|path|] := |path|]))
    requires |path| + 1 < |s| ==> PathOk(s, mxsz, l', r', |path|, walked)
    requires |path| + 1 < |s| ==> h'[s[|path|]] == (if walked == [] then |path| else walked[0].node)
    ensures Trees(s, mxsz, h', l', r', path + [walked])
  {
    hide PathOk;
    EnterPaths(s, mxsz, h, l, r, path, h', l', r', walked);
    EnterHeads(s, |path|, h, h');
    hide PathsOk, HeadsOk;
    GrownSons(s, |path|, l, l');
    GrownSons(s, |path|, r, r');
  }

  /** `l'` is `l`, or has one unset link of an entered position set to `n`. */
  predicate Grown(s: seq<byte>, n: nat, l: seq<int>, l': seq<int>)
    requires n < |s| <= SB_SIZE
  {
    && |l| == |l'| == SB_SIZE
    && (forall m :: 0 <= m < SB_SIZE ==>
          l'[m] == l[m] || (l[m] == -1 && l'[m] == n && m < n && s[m] == s[n]))
  }

  lemma {:induction false} GrownSons(s: seq<byte>, n: nat, l: seq<int>, l': seq<int>)
    requires n < |s| <= SB_SIZE && Grown(s, n, l, l') && SonsOk(s, n, l)
    ensures SonsOk(s, n + 1, l')
  {
  }

  lemma {:induction false} EnterHeads(s: seq<byte>, n: nat, h: seq<int>, h': seq<int>)
    requires n < |s| && |h| == |h'| == 256 && HeadsOk(s, n, h)
    requires h'[s[n]] >= 0 && (h' == h || (h[s[n]] < 0 && h' == h[s[n] := n]))
    ensures HeadsOk(s, n + 1, h')
  {
  }

  lemma {:induction false} EnterPaths(s: seq<byte>, mxsz: nat, h: seq<int>, l: seq<int>, r: seq<int>,
                                      path: seq<seq<Step>>, h': seq<int>, l': seq<int>, r': seq<int>, walked: seq<Step>)
    requires Trees(s, mxsz, h, l, r, path) && |path| < |s| && |h'| == 256 && |l'| == |r'| == SB_SIZE
    requires Grown(s, |path|, l, l') && Grown(s, |path|, r, r')
    requires h' == h || (h[s[|path|]] < 0 && h' == h[s[|path|] := |path|])
    requires |path| + 1 < |s| ==> PathOk(s, mxsz, l', r', |path|, walked)
    requires |path| + 1 < |s| ==> h'[s[|path|]] == (if walked == [] then |path| else walked[0].node)
    ensures PathsOk(s, mxsz, h', l', r', path + [walked])
  {
    hide PathOk, SonsOk, Grown;
    var path' := path + [walked];
    forall p | 0 <= p < |path'| && p + 1 < |s|
      ensures PathOk(s, mxsz, l', r', p, path'[p]) && h'[s[p]] == (if path'[p] == [] then p else path'[p][0].node)
    {
      if p < |path| {
        assert path'[p] == path[p] && h[s[p]] >= 0;
        KeepPath(s, mxsz, |path|, l, r, l', r', p, path[p]);
      }
    }
  }

  /** Filling an empty link leaves every existing link as it was. */
  lemma {:induction false} KeepLinked(s: seq<byte>, mxsz: nat, n: nat, l: seq<int>, r: seq<int>, l': seq<int>,
                                      r': seq<int>, p: nat, pth: seq<Step>)
    requires n < |s| <= SB_SIZE && Grown(s, n, l, l') && Grown(s, n, r, r')
    requires Linked(s, mxsz, l, r, p, pth)
    ensures Linked(s, mxsz, l', r', p, pth)
  {
    forall k, n | 0 <= k < |pth| && n == k + 1 && n < |pth|
      ensures Son(l', r', pth[k]) == pth[n].node
    {
      assert StepOk(s, mxsz, p, pth[k]);
      assert Son(l, r, pth[k]) == pth[n].node;
    }
  }

  lemma {:induction false} KeepPath(s: seq<byte>, mxsz: nat, n: nat, l: seq<int>, r: seq<int>, l': seq<int>,
                                    r': seq<int>, p: nat, pth: seq<Step>)
    requires n < |s| <= SB_SIZE && Grown(s, n, l, l') && Grown(s, n, r, r')
    requires PathOk(s, mxsz, l, r, p, pth)
    ensures PathOk(s, mxsz, l', r', p, pth)
  {
    KeepLinked(s, mxsz, n, l, r, l', r', p, pth);
    if pth != [] {
      assert StepOk(s, mxsz, p, pth[|pth| - 1]);
    }
  }

  /** When nothing is left below, the best match so far is a longest one. */
  lemma {:induction false} NoCandidates(s: seq<byte>, mxsz: nat, path: seq<seq<Step>>, i: nat, best: nat, k: nat)
    requires |path| == i < |s| && i + best <= |s|
    requires best == Limit(s, i, mxsz) || Candidates(s, path, i, best, k, -1)
    ensures NoLongerMatch(s, i, mxsz, best)
  {
    forall p: nat, n: nat | p < i && n <= Limit(s, i, mxsz) && Agree(s, p, i, n)
      ensures n <= best
    {
      assert !Below(path[p], p, k, -1);
      if best < Limit(s, i, mxsz) {
        AgreeShorter(s, p, i, n, best + 1);
      }
    }
  }

  /** One turn of the walk at `node`, which has the bytes up to `j` in common with `i`. */
  lemma {:induction false} WalkStep(s: seq<byte>, mxsz: nat, h: seq<int>, l: seq<int>, r: seq<int>,
                                    path: seq<seq<Step>>, i: nat, walked: seq<Step>, node: nat, j: nat, right: bool,
                                    best: nat, best': nat)
    requires Trees(s, mxsz, h, l, r, path) && |path| == i < |s| && node < i && s[node] == s[i]
    requires i <= j && Common(s, mxsz, node, i, j - i)
    requires right == !(j < i + Limit(s, i, mxsz) && s[j] < s[node + (j - i)])
    requires Linked(s, mxsz, l, r, i, walked)
    requires walked != [] ==> walked[|walked| - 1].node < SB_SIZE && Son(l, r, walked[|walked| - 1]) == node
    requires best <= best' && j - i <= best' && i + best' <= |s| && Candidates(s, path, i, best, |walked|, node)
    ensures var st := Step(node, right, j - i);
            var next := Son(l, r, st);
            && Linked(s, mxsz, l, r, i, walked + [st])
            && (next == -1 || (node < next < i && s[next] == s[i]))
            && (j < i + Limit(s, i, mxsz) ==> Candidates(s, path, i, best', |walked| + 1, next))
            && (j == i + Limit(s, i, mxsz) ==> right)
  {
    hide Linked, Candidates, Agree, HeadsOk, SonsOk, PathsOk, StepOk, Common, GoRight;
    var st := Step(node, right, j - i);
    SonIs(s, mxsz, h, l, r, path, st);
    TurnOk(s, mxsz, node, i, j, right);
    LinkedSnoc(s, mxsz, l, r, i, walked, st);
    if j < i + Limit(s, i, mxsz) {
      CandidatesStep(s, mxsz, h, l, r, path, i, best, |walked|, node, j - i, best');
    }
  }

  lemma {:induction false} SonIs(s: seq<byte>, mxsz: nat, h: seq<int>, l: seq<int>, r: seq<int>, path: seq<seq<Step>>,
                                 st: Step)
    requires Trees(s, mxsz, h, l, r, path) && st.node < |path|
    ensures var next := Son(l, r, st);
            next == -1 || (st.node < next < |path| && s[next] == s[st.node])
  {
    hide PathsOk, HeadsOk;
  }

  /** The state of the walk: `bestj` is the end of the best match so far, with `bestnode`, and
      every longer one lies at or below `node`; a walk ends at a leaf or with a full match. */
  predicate OnWalk(s: seq<byte>, mxsz: nat, l: seq<int>, r: seq<int>, path: seq<seq<Step>>, i: nat, first: nat,
                   bestnode: nat, bestj: nat, walked: seq<Step>, node: int, going: bool)
    requires |l| == |r| == SB_SIZE && |path| == i < |s| <= SB_SIZE
  {
    && -1 <= node < i && (going ==> 0 <= node && s[node] == s[i])
    && bestnode < i < bestj <= i + Limit(s, i, mxsz) && Agree(s, bestnode, i, bestj - i)
    && Linked(s, mxsz, l, r, i, walked)
    && (if walked == [] then node == first && going
        else
          var last := walked[|walked| - 1];
          && walked[0].node == first && last.node < i && s[last.node] == s[i] && node == Son(l, r, last)
          && (going || node == -1 || (last.right && last.e >= Limit(s, i, mxsz))))
    && ((!going && bestj == i + Limit(s, i, mxsz)) || Candidates(s, path, i, bestj - i, |walked|, node))
    && (!going && bestj != i + Limit(s, i, mxsz) ==> node == -1)
  }

  /** One turn leads from one state of the walk to the next. */
  lemma {:induction false} WalkTurned(s: seq<byte>, mxsz: nat, h: seq<int>, l: seq<int>, r: seq<int>,
                                      path: seq<seq<Step>>, i: nat, first: nat, bestnode: nat, bestj: nat,
                                      walked: seq<Step>, node: nat, j: nat, right: bool, bestnode': nat, bestj': nat)
    requires Trees(s, mxsz, h, l, r, path) && |path| == i < |s|
    requires OnWalk(s, mxsz, l, r, path, i, first, bestnode, bestj, walked, node, true)
    requires i < j <= i + Limit(s, i, mxsz) && Common(s, mxsz, node, i, j - i) && Agree(s, node, i, j - i)
    requires right == !(j < i + Limit(s, i, mxsz) && s[j] < s[node + (j - i)])
    requires if j > bestj then bestj' == j && bestnode' == node else bestj' == bestj && bestnode' == bestnode
    ensures var st := Step(node, right, j - i);
            var next := Son(l, r, st);
            && (next >= 0 ==> next > node)
            && OnWalk(s, mxsz, l, r, path, i, first, bestnode', bestj', walked + [st], next,
                      next >= 0 && j < i + Limit(s, i, mxsz))
  {
    hide HeadsOk, SonsOk, PathsOk, Linked, Candidates, Agree, Common;
    WalkStep(s, mxsz, h, l, r, path, i, walked, node, j, right, bestj - i, bestj' - i);
    assert walked != [] ==> (walked + [Step(node, right, j - i)])[0] == walked[0];
  }

  lemma {:induction false} OnWalkRange(s: seq<byte>, mxsz: nat, l: seq<int>, r: seq<int>, path: seq<seq<Step>>, i: nat,
                                       first: nat, bestnode: nat, bestj: nat, walked: seq<Step>, node: int, going: bool)
    requires |l| == |r| == SB_SIZE && |path| == i < |s| <= SB_SIZE
    requires OnWalk(s, mxsz, l, r, path, i, first, bestnode, bestj, walked, node, going)
    ensures -1 <= node < i && (going ==> 0 <= node && s[node] == s[i])
  {
  }

  /** What a finished walk has found. */
  lemma {:induction false} WalkDone(s: seq<byte>, mxsz: nat, l: seq<int>, r: seq<int>, path: seq<seq<Step>>, i: nat,
                                    first: nat, bestnode: nat, bestj: nat, walked: seq<Step>, node: int)
    requires |l| == |r| == SB_SIZE && |path| == i < |s| <= SB_SIZE
    requires OnWalk(s, mxsz, l, r, path, i, first, bestnode, bestj, walked, node, false)
    ensures bestnode < i < bestj <= i + Limit(s, i, mxsz)
    ensures Agree(s, bestnode, i, bestj - i) && NoLongerMatch(s, i, mxsz, bestj - i)
    ensures walked != [] && walked[0].node == first && Linked(s, mxsz, l, r, i, walked)
    ensures var last := walked[|walked| - 1];
            && last.node < i && s[last.node] == s[i] && node == Son(l, r, last)
            && (node == -1 || (node >= 0 && last.right && last.e >= Limit(s, i, mxsz)))
  {
    hide Linked, Agree, Candidates;
    NoCandidates(s, mxsz, path, i, bestj - i, |walked|);
  }

  class MatchContext {
    const inbuf: seq<byte>
    var size: nat
    var rel: int
    var mxsz: nat
    const head: array<int>
    const lson: array<int>
    const rson: array<int>
    ghost var path: seq<seq<Step>>

    /** The trees hold the first `|path|` positions of the buffer. */
    ghost predicate Valid()
      reads this, head, lson, rson
    {
      && head != lson && head != rson && lson != rson && 2 <= mxsz
      && head.Length == 256 && lson.Length == rson.Length == SB_SIZE && |path| <= |inbuf| <= SB_SIZE
      && Trees(inbuf, mxsz, head[..], lson[..], rson[..], path)
    }

    constructor (buf: seq<byte>, longest: nat)
      requires |buf| <= SB_SIZE && 2 <= longest
      ensures Valid() && fresh(head) && fresh(lson) && fresh(rson)
      ensures inbuf == buf && mxsz == longest && path == []
    {
      inbuf := buf;
      size, rel, mxsz, path := 0, 0, longest, [];
      head := new int[256](_ => -1);
      lson := new int[SB_SIZE](_ => -1);
      rson := new int[SB_SIZE](_ => -1);
    }

    /** Lower the longest match the compressor can still express. */
    method Shorten(longest: nat)
      requires Valid() && 2 <= longest <= mxsz
      modifies this`mxsz
      ensures Valid() && mxsz == longest
    {
      TreesShrink(inbuf, mxsz, longest, head[..], lson[..], rson[..], path);
      mxsz := longest;
    }

    /** Compare the bytes at `node` and at `i` up to `maxpos`; the first byte is known to be equal. */
    method CommonLength(node: nat, i: nat, maxpos: nat) returns (j: nat)
      requires i < |inbuf| && node < i < maxpos == i + Limit(inbuf, i, mxsz) && inbuf[node] == inbuf[i]
      ensures i < j <= maxpos && Common(inbuf, mxsz, node, i, j - i) && Agree(inbuf, node, i, j - i)
    {
      j := i + 1;
      assert Agree(inbuf, node, i, 1);
      while j < maxpos && inbuf[j] == inbuf[node + (j - i)]
        invariant i < j <= maxpos && Agree(inbuf, node, i, j - i)
      {
        assert At(inbuf, node, j - i) == At(inbuf, i, j - i);
        AgreeSnoc(inbuf, node, i, j - i);
        j := j + 1;
      }
      if j < maxpos {
        assert At(inbuf, node, j - i) == inbuf[node + (j - i)] && At(inbuf, i, j - i) == inbuf[j];
      }
    }

    /** Compare with one node, keep the better match, and turn. */
    method Turn(first: nat, node: nat, i: nat, maxpos: nat, bestnode: nat, bestj: nat, ghost walked: seq<Step>)
      returns (bestnode': nat, bestj': nat, right: bool, next: int, going: bool, ghost walked': seq<Step>)
      requires Valid() && |path| == i < |inbuf| && maxpos == i + Limit(inbuf, i, mxsz)
      requires OnWalk(inbuf, mxsz, lson[..], rson[..], path, i, first, bestnode, bestj, walked, node, true)
      requires node < i < bestj <= maxpos && inbuf[node] == inbuf[i]
      ensures i < bestj' <= maxpos
      ensures OnWalk(inbuf, mxsz, lson[..], rson[..], path, i, first, bestnode', bestj', walked', next, going)
      ensures walked' != [] && walked'[|walked'| - 1].node == node && walked'[|walked'| - 1].right == right
      ensures next == (if right then rson[node] else lson[node]) && (going ==> next > node)
    {
      hide HeadsOk, SonsOk, PathsOk, Common, OnWalk;
      var j := CommonLength(node, i, maxpos);
      bestnode', bestj' := bestnode, bestj;
      if j > bestj {
        bestj', bestnode' := j, node;
      }
      right := !(j < maxpos && inbuf[j] < inbuf[node + (j - i)]);
      WalkTurned(inbuf, mxsz, head[..], lson[..], rson[..], path, i, first, bestnode, bestj, walked, node, j, right,
                 bestnode', bestj');
      walked' := walked + [Step(node, right, j - i)];
      next := if right then rson[node] else lson[node];
      going := next >= 0 && j < maxpos;
    }

    /** Walk down from the head of the tree for the byte at `i`, remembering the best match, until
        a leaf or a match as long as allowed. */
    method Walk(first: nat, i: nat, maxpos: nat)
      returns (bestnode: nat, bestj: nat, prev: nat, right: bool, node: int, ghost walked: seq<Step>)
      requires Valid() && |path| == i < |inbuf| && maxpos == i + Limit(inbuf, i, mxsz) > i + 1
      requires head[inbuf[i]] == first
      ensures OnWalk(inbuf, mxsz, lson[..], rson[..], path, i, first, bestnode, bestj, walked, node, false)
      ensures walked != [] && walked[|walked| - 1].node == prev < i && walked[|walked| - 1].right == right
      ensures node == (if right then rson[prev] else lson[prev])
    {
      StartWalk(inbuf, mxsz, head[..], lson[..], rson[..], path);
      hide Trees, OnWalk;
      node, bestnode, bestj := first, first, i + 1;
      walked, prev, right := [], 0, false;
      var going := true;
      while going
        invariant OnWalk(inbuf, mxsz, lson[..], rson[..], path, i, first, bestnode, bestj, walked, node, going)
        invariant i < bestj <= maxpos && (going ==> 0 <= node < i && inbuf[node] == inbuf[i])
        invariant !going ==>
                  && walked != [] && walked[|walked| - 1].node == prev < i
                  && walked[|walked| - 1].right == right
                  && node == (if right then rson[prev] else lson[prev])
        decreases if going then 1 + i - node else 0
      {
        prev := node;
        bestnode, bestj, right, node, going, walked := Turn(first, prev, i, maxpos, bestnode, bestj, walked);
        OnWalkRange(inbuf, mxsz, lson[..], rson[..], path, i, first, bestnode, bestj, walked, node, going);
      }
    }

    /** Search the longest match for position `i` and enter `i` into the trees. */
    method BestMatch(i: nat)
      requires Valid() && |path| == i < |inbuf|
      modifies this`size, this`rel, this`path, head, lson, rson
      ensures Valid() && |path| == i + 1
      // what is reported is a match with an earlier position ...
      ensures size <= Limit(inbuf, i, mxsz)
      ensures if size == 0 then rel == 0 else 0 <= i + rel < i && Agree(inbuf, i + rel, i, size)
      // ... and no earlier position matches longer
      ensures NoLongerMatch(inbuf, i, mxsz, size)
    {
      hide HeadsOk, SonsOk, PathsOk, PathOk, Linked, Agree, NoLongerMatch, OnWalk;
      var node := head[inbuf[i]];
      if node >= 0 {
        var maxpos := |inbuf|;
        if i + mxsz < maxpos {
          maxpos := i + mxsz;
        }
        if i + 1 < maxpos {
          Search(node, i, maxpos);
        } else {
          OneByteLeft(inbuf, mxsz, head[..], i, node);
          size, rel := 1, node - i;
          ghost var h, l, r := head[..], lson[..], rson[..];
          Enter(inbuf, mxsz, h, l, r, path, h, l, r, []);
          path := path + [[]];
        }
      } else {
        NoSameByte(inbuf, mxsz, i, head[..]);
        NewHead(i);
        size, rel := 0, 0;
      }
    }

    /** `i` is the first position starting with its byte. */
    method NewHead(i: nat)
      requires Valid() && |path| == i < |inbuf| && head[inbuf[i]] < 0
      modifies this`path, head
      ensures Valid() && |path| == i + 1
    {
      hide HeadsOk, SonsOk, PathsOk;
      ghost var h, l, r := head[..], lson[..], rson[..];
      head[inbuf[i]] := i;
      assert head[..] == h[inbuf[i] := i];
      Enter(inbuf, mxsz, h, l, r, path, head[..], l, r, []);
      path := path + [[]];
    }

    /** Search below the head `first`, and link `i` in if the walk ended at a leaf. */
    method Search(first: nat, i: nat, maxpos: nat)
      requires Valid() && |path| == i < |inbuf| && maxpos == i + Limit(inbuf, i, mxsz) > i + 1
      requires head[inbuf[i]] == first
      modifies this`size, this`rel, this`path, lson, rson
      ensures Valid() && |path| == i + 1
      ensures 0 < size <= Limit(inbuf, i, mxsz)
      ensures 0 <= i + rel < i && Agree(inbuf, i + rel, i, size)
      ensures NoLongerMatch(inbuf, i, mxsz, size)
    {
      hide HeadsOk, SonsOk, PathsOk, PathOk, Linked, Agree, NoLongerMatch, OnWalk;
      ghost var h, l, r := head[..], lson[..], rson[..];
      var bestnode, bestj, prev, right, node;
      ghost var walked;
      bestnode, bestj, prev, right, node, walked := Walk(first, i, maxpos);
      WalkDone(inbuf, mxsz, l, r, path, i, first, bestnode, bestj, walked, node);
      if node < 0 {
        if right {
          rson[prev] := i;
        } else {
          lson[prev] := i;
        }
      }
      Relinked(inbuf, mxsz, l, r, lson[..], rson[..], i, walked);
      Enter(inbuf, mxsz, h, l, r, path, head[..], lson[..], rson[..], walked);
      path := path + [walked];
      size, rel := bestj - i, bestnode - i;
    }
  }

  lemma {:induction false} OneByteLeft(s: seq<byte>, mxsz: nat, h: seq<int>, i: nat, node: nat)
    requires i < |s| && |h| == 256 && HeadsOk(s, i, h) && h[s[i]] == node && Limit(s, i, mxsz) == 1
    ensures node < i && Agree(s, node, i, 1) && NoLongerMatch(s, i, mxsz, 1)
  {
    assert At(s, node, 0) == At(s, i, 0);
  }

  /** At the head of the tree all positions with the same first byte are still in sight. */
  lemma {:induction false} StartWalk(s: seq<byte>, mxsz: nat, h: seq<int>, l: seq<int>, r: seq<int>,
                                     path: seq<seq<Step>>)
    requires Trees(s, mxsz, h, l, r, path) && |path| < |s| && Limit(s, |path|, mxsz) > 1 && h[s[|path|]] >= 0
    ensures var first := h[s[|path|]];
            first < |path| && s[first] == s[|path|]
                && OnWalk(s, mxsz, l, r, path, |path|, first, first, |path| + 1, [], first, true)
  {
    hide SonsOk, PathOk;
    var i := |path|;
    assert At(s, h[s[i]], 0) == At(s, i, 0);
    forall x | 0 <= x < |path| && i + 1 < |s| && Agree(s, x, i, 1 + 1)
      ensures Below(path[x], x, 0, h[s[i]])
    {
      assert At(s, x, 0) == At(s, i, 0);
    }
  }

  lemma {:induction false} NoSameByte(s: seq<byte>, mxsz: nat, i: nat, h: seq<int>)
    requires i < |s| && |h| == 256 && HeadsOk(s, i, h) && h[s[i]] < 0
    ensures NoLongerMatch(s, i, mxsz, 0)
  {
    forall p: nat, n: nat | p < i && n <= Limit(s, i, mxsz) && Agree(s, p, i, n)
      ensures n <= 0
    {
      assert h[s[p]] >= 0;
      assert n > 0 ==> At(s, p, 0) == At(s, i, 0);
    }
  }

  /** Once the last link of the walk points to `i`, or the walk ended on a full match, the walk is
      a path of `i`. */
  lemma {:induction false} Relinked(s: seq<byte>, mxsz: nat, l: seq<int>, r: seq<int>, l': seq<int>, r': seq<int>,
                                    i: nat, walked: seq<Step>)
    requires i < |s| <= SB_SIZE && Grown(s, i, l, l') && Grown(s, i, r, r')
    requires walked != [] && Linked(s, mxsz, l, r, i, walked)
    requires var last := walked[|walked| - 1];
             last.node < SB_SIZE && (Son(l', r', last) == i || (last.right && last.e >= Limit(s, i, mxsz)))
    ensures PathOk(s, mxsz, l', r', i, walked)
  {
    KeepLinked(s, mxsz, i, l, r, l', r', i, walked);
  }
}

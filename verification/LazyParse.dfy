/** The compressor's choice of tokens, told from the input alone: the longest match of each position, put
    off when the one at the next position is better by two. */
module LazyParse {
  import opened Lznt1Format
  import opened MatchTree

  // ---- the longest match ----------------------------------------------------------------------

  /** The longest match, of at most `n` bytes, of position `i` with an earlier one. */
  ghost function LongestUpTo(s: seq<byte>, i: nat, n: nat): (r: nat)
    requires i + n <= |s|
    ensures r <= n
  {
    if n == 0 then 0 else if exists p: nat :: p < i && Agree(s, p, i, n) then n else LongestUpTo(s, i, n - 1)
  }

  ghost function Longest(s: seq<byte>, i: nat, mxsz: nat): (r: nat)
    requires i <= |s|
    ensures r <= Limit(s, i, mxsz)
  {
    LongestUpTo(s, i, Limit(s, i, mxsz))
  }

  lemma {:induction false} LongestIs(s: seq<byte>, i: nat, n: nat, size: nat)
    requires i + n <= |s| && size <= n && (size > 0 ==> exists p: nat :: p < i && Agree(s, p, i, size))
    requires forall p: nat, l: nat :: p < i && l <= n && Agree(s, p, i, l) ==> l <= size
    ensures LongestUpTo(s, i, n) == size
    decreases n
  {
    hide Agree;
    if size < n {
      LongestIs(s, i, n - 1, size);
    }
  }

  lemma {:induction false} LongestCut(s: seq<byte>, i: nat, a: nat, b: nat)
    requires b <= a && i + a <= |s|
    ensures LongestUpTo(s, i, b) == if LongestUpTo(s, i, a) <= b then LongestUpTo(s, i, a) else b
    decreases a
  {
    hide Agree;
    if b < a {
      if p: nat :| p < i && Agree(s, p, i, a) {
        AgreePrefix(s, p, i, a, b);
      } else {
        LongestCut(s, i, a - 1, b);
      }
    }
  }

  /** `size`, cut to `mxsz`, is the longest match at `i`. */
  ghost predicate Best(s: seq<byte>, i: nat, mxsz: nat, size: nat)
    requires i <= |s|
  {
    Longest(s, i, mxsz) == if size <= mxsz then size else mxsz
  }

  lemma {:induction false} BestFound(s: seq<byte>, i: nat, mxsz: nat, size: nat, rel: int)
    requires i <= |s| && size <= Limit(s, i, mxsz) && NoLongerMatch(s, i, mxsz, size)
    requires size > 0 ==> 0 <= i + rel < i && Agree(s, i + rel, i, size)
    ensures Longest(s, i, mxsz) == size && Best(s, i, mxsz, size)
  {
    hide Agree;
    LongestIs(s, i, Limit(s, i, mxsz), size);
  }

  lemma {:induction false} BestShorter(s: seq<byte>, i: nat, a: nat, b: nat, size: nat)
    requires i <= |s| && b <= a && Best(s, i, a, size)
    ensures Best(s, i, b, size)
  {
    LongestCut(s, i, Limit(s, i, a), Limit(s, i, b));
  }

  // ---- the tokens chosen ----------------------------------------------------------------------

  /** The longest match a phrase at position `i` can express. */
  function Reach(i: nat): (r: nat)
    requires i <= SB_SIZE
  {
    Pow2(if i == 0 then 12 else LenBits(i)) + 2
  }

  /** A match of `n` bytes at `i` is put off: the match at `i + 1` ends two bytes later or more, and that
      many bytes can be expressed. */
  ghost predicate PutOff(s: seq<byte>, i: nat, n: nat)
    requires i < |s| <= SB_SIZE
  {
    1 + Longest(s, i + 1, Reach(i)) >= n + 2 && Reach(i + 1) >= n + 2
  }

  /** How many bytes the token at `i` stands for: more than one for a phrase, which is the longest match. */
  ghost function TokenLength(s: seq<byte>, i: nat): (r: nat)
    requires i < |s| <= SB_SIZE
    ensures 1 <= r && i + r <= |s|
  {
    var n := Longest(s, i, Reach(i));
    if n <= 2 || PutOff(s, i, n) then 1 else n
  }

  ghost predicate Chosen(s: seq<byte>, i: nat, t: Token)
    requires i < |s| <= SB_SIZE
  {
    match t
    case Literal(_) => TokenLength(s, i) == 1
    case Phrase(_, len) => len == TokenLength(s, i) > 1
  }

  /** The choice, once the longest match is known. */
  lemma {:induction false} Choice(s: seq<byte>, i: nat, size: nat)
    requires i < |s| <= SB_SIZE && Best(s, i, Reach(i), size)
    ensures var n := if size <= Reach(i) then size else Reach(i);
            TokenLength(s, i) == if n <= 2 || PutOff(s, i, n) then 1 else n
    ensures forall b :: TokenLength(s, i) == 1 ==> Chosen(s, i, Literal(b))
    ensures forall back, len :: len == TokenLength(s, i) > 1 ==> Chosen(s, i, Phrase(back, len))
  {
    hide Longest, Reach;
  }

  /** The first `k` tokens are the ones chosen where they stand. */
  ghost predicate AllChosen(s: seq<byte>, ts: seq<Token>, k: nat)
    requires k <= |ts| && Fits(ts, k) && |s| <= SB_SIZE
  {
    k == 0 || (AllChosen(s, ts, k - 1) && |Expand(ts, k - 1)| < |s| && Chosen(s, |Expand(ts, k - 1)|, ts[k - 1]))
  }

  lemma {:induction false} ChosenAppend(s: seq<byte>, ts: seq<Token>, t: Token, k: nat)
    requires k <= |ts| && Fits(ts, k) && |s| <= SB_SIZE && AllChosen(s, ts, k)
    ensures Fits(ts + [t], k) && AllChosen(s, ts + [t], k)
  {
    hide Chosen;
    ExpandAppend(ts, t, k);
    if k > 0 {
      ExpandAppend(ts, t, k - 1);
      ChosenAppend(s, ts, t, k - 1);
    }
  }

  lemma {:induction false} NextChosen(s: seq<byte>, ts: seq<Token>, t: Token)
    requires Fits(ts, |ts|) && |s| <= SB_SIZE && AllChosen(s, ts, |ts|)
    requires |Expand(ts, |ts|)| < |s| && Chosen(s, |Expand(ts, |ts|)|, t) && Fits(ts + [t], |ts| + 1)
    ensures AllChosen(s, ts + [t], |ts| + 1)
  {
    hide Chosen;
    ChosenAppend(s, ts, t, |ts|);
    ExpandAppend(ts, t, |ts|);
  }

  // ---- their size -----------------------------------------------------------------------------

  function TokenSize(t: Token): nat {
    if t.Phrase? then 2 else 1
  }

  /** Bytes of the first `k` tokens, without tags. */
  function BytesTo(ts: seq<Token>, k: nat): nat
    requires k <= |ts|
  {
    if k == 0 then 0 else BytesTo(ts, k - 1) + TokenSize(ts[k - 1])
  }

  lemma {:induction false} BytesAppend(ts: seq<Token>, t: Token, k: nat)
    requires k <= |ts|
    ensures BytesTo(ts + [t], k) == BytesTo(ts, k)
  {
    if k > 0 {
      BytesAppend(ts, t, k - 1);
    }
  }

  lemma {:induction false} BodySize(ts: seq<Token>, a: nat, b: nat)
    requires a <= b <= |ts| && Fits(ts, b)
    ensures |Body(ts, a, b)| == BytesTo(ts, b) - BytesTo(ts, a)
    decreases b
  {
    hide TokenFits, Apply, PhraseWord;
    if a < b {
      BodySize(ts, a, b - 1);
    }
  }

  /** Size of the tokens chosen from position `i` on, of which the first is number `k`, with the tag bytes
      that go before every eighth token. */
  ghost function ParseSize(s: seq<byte>, i: nat, k: nat): (n: nat)
    requires i <= |s| <= SB_SIZE
    ensures i < |s| ==> n >= (if k % 8 == 0 then 2 else 1)
    decreases |s| - i
  {
    if i == |s| then 0 else
      var n := TokenLength(s, i);
      (if k % 8 == 0 then 1 else 0) + (if n > 1 then 2 else 1) + ParseSize(s, i + n, k + 1)
  }

  /** Size of the sub-block for a block: a header and the tokens, or 4098 bytes if these are not fewer. */
  ghost function BlockSize(s: seq<byte>): (n: nat)
    requires |s| <= SB_SIZE
    ensures n <= SB_SIZE + 2
  {
    if 2 + ParseSize(s, 0, 0) < SB_SIZE + 2 then 2 + ParseSize(s, 0, 0) else SB_SIZE + 2
  }

  /** What has been spent on the tokens before `i` and what is still to come make up the whole. */
  ghost predicate Spent(s: seq<byte>, i: nat, ts: seq<Token>)
    requires i <= |s| <= SB_SIZE
  {
    ParseSize(s, 0, 0) == BytesTo(ts, |ts|) + (|ts| + 7) / 8 + ParseSize(s, i, |ts|)
  }

  /** The size when all tokens have been emitted, or when there is no room for more. */
  lemma {:induction false} SizeIs(s: seq<byte>, i: nat, ts: seq<Token>)
    requires i <= |s| <= SB_SIZE && Spent(s, i, ts)
    ensures var n := 2 + BytesTo(ts, |ts|) + (|ts| + 7) / 8;
            i == |s| ==> BlockSize(s) == if n < SB_SIZE + 2 then n else SB_SIZE + 2
    ensures i < |s| && 3 + BytesTo(ts, |ts|) + |ts| / 8 >= SB_SIZE + 2 ==> BlockSize(s) == SB_SIZE + 2
  {
    hide BytesTo, TokenLength;
  }

  lemma {:induction false} NothingSpent(s: seq<byte>)
    requires |s| <= SB_SIZE
    ensures Spent(s, 0, [])
  {
  }

  lemma {:induction false} SpendOne(s: seq<byte>, i: nat, ts: seq<Token>, t: Token)
    requires i < |s| <= SB_SIZE && Spent(s, i, ts) && Chosen(s, i, t)
    ensures Spent(s, i + TokenLength(s, i), ts + [t])
  {
    hide TokenLength;
    BytesAppend(ts, t, |ts|);
  }
}

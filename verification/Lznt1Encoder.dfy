/** `ntfs_compress_block`: turns up to 4096 bytes into one sub-block that decodes to them. */
module Lznt1Encoder {
  import opened Lznt1Format
  import opened MatchTree
  import opened LazyParse

  // ---- growing a token sequence ---------------------------------------------------------------

  lemma {:induction false} TagAppend(ts: seq<Token>, t: Token, a: nat, b: nat)
    requires a <= b <= |ts|
    ensures Tag(ts + [t], a, b) == Tag(ts, a, b)
    decreases b - a
  {
    if a < b {
      TagAppend(ts, t, a + 1, b);
    }
  }

  /** Appending a token sets the next higher tag bit. */
  lemma {:induction false} TagSnoc(ts: seq<Token>, t: Token, a: nat)
    requires a <= |ts|
    ensures Tag(ts + [t], a, |ts| + 1) == Tag(ts, a, |ts|) + (if t.Phrase? then Pow2(|ts| - a) else 0)
    decreases |ts| - a
  {
    if a < |ts| {
      TagSnoc(ts, t, a + 1);
    } else {
      assert Tag(ts + [t], a + 1, |ts| + 1) == 0;
    }
  }

  lemma {:induction false} BodyAppend(ts: seq<Token>, t: Token, a: nat, b: nat)
    requires a <= b <= |ts| && Fits(ts, b)
    ensures Fits(ts + [t], b) && Body(ts + [t], a, b) == Body(ts, a, b)
    decreases b
  {
    ExpandAppend(ts, t, b);
    if a < b {
      ExpandAppend(ts, t, b - 1);
      BodyAppend(ts, t, a, b - 1);
    }
  }

  /** The first `g` full groups with their tags. */
  function Closed(ts: seq<Token>, g: nat): (r: seq<byte>)
    requires 8 * g <= |ts| && Fits(ts, 8 * g)
  {
    if g == 0 then [] else
      FitsPrefix(ts, 8 * g - 8, 8 * g);
      Closed(ts, g - 1) + Group(ts, 8 * g - 8, 8 * g)
  }

  lemma {:induction false} GroupAppend(ts: seq<Token>, t: Token, a: nat, b: nat)
    requires a <= b <= |ts| && b - a <= 8 && Fits(ts, b)
    ensures Fits(ts + [t], b) && Group(ts + [t], a, b) == Group(ts, a, b)
  {
    TagAppend(ts, t, a, b);
    BodyAppend(ts, t, a, b);
  }

  lemma {:induction false} ClosedAppend(ts: seq<Token>, t: Token, g: nat)
    requires 8 * g <= |ts| && Fits(ts, 8 * g)
    ensures Fits(ts + [t], 8 * g) && Closed(ts + [t], g) == Closed(ts, g)
  {
    hide Fits, Group;
    ExpandAppend(ts, t, 8 * g);
    if g > 0 {
      FitsPrefix(ts, 8 * g - 8, 8 * g);
      ClosedAppend(ts, t, g - 1);
      GroupAppend(ts, t, 8 * g - 8, 8 * g);
    }
  }

  lemma {:induction false} PackStep(ts: seq<Token>, k: nat)
    requires k < |ts| && Fits(ts, |ts|)
    ensures var m := GroupEnd(ts, k); Fits(ts, m) && Pack(ts, k) == Group(ts, k, m) + Pack(ts, m)
  {
    hide Fits, Group;
    FitsPrefix(ts, GroupEnd(ts, k), |ts|);
  }

  /** The packed stream is its first groups followed by the packing of the rest. */
  lemma {:induction false} PackFromClosed(ts: seq<Token>, g: nat)
    requires 8 * g <= |ts| && Fits(ts, |ts|)
    ensures Fits(ts, 8 * g) && Pack(ts, 0) == Closed(ts, g) + Pack(ts, 8 * g)
  {
    hide Fits, Group, Pack;
    FitsPrefix(ts, 8 * g, |ts|);
    if g > 0 {
      PackFromClosed(ts, g - 1);
      PackStep(ts, 8 * g - 8);
      assert GroupEnd(ts, 8 * g - 8) == 8 * g;
    }
  }

  /** No token takes more bytes than it stands for. */
  lemma {:induction false} BodyBound(ts: seq<Token>, a: nat, b: nat)
    requires a <= b <= |ts| && Fits(ts, b)
    ensures Fits(ts, a) && |Body(ts, a, b)| <= |Expand(ts, b)| - |Expand(ts, a)| && b <= |Expand(ts, b)|
    decreases b
  {
    if a < b {
      BodyBound(ts, a, b - 1);
    } else if b > 0 {
      BodyBound(ts, b - 1, b - 1);
    }
  }

  lemma {:induction false} ClosedBound(ts: seq<Token>, g: nat)
    requires 8 * g <= |ts| && Fits(ts, 8 * g)
    ensures |Closed(ts, g)| <= |Expand(ts, 8 * g)| + g
  {
    hide Fits, Expand, Body, Tag;
    if g > 0 {
      BodyBound(ts, 8 * g - 8, 8 * g);
      ClosedBound(ts, g - 1);
    }
  }

  lemma {:induction false} ClosedSize(ts: seq<Token>, g: nat)
    requires 8 * g <= |ts| && Fits(ts, 8 * g)
    ensures |Closed(ts, g)| == BytesTo(ts, 8 * g) + g
  {
    hide Fits, Body, Tag, BytesTo;
    if g > 0 {
      FitsPrefix(ts, 8 * g - 8, 8 * g);
      BodySize(ts, 8 * g - 8, 8 * g);
      ClosedSize(ts, g - 1);
    } else {
      NoBytes(ts);
    }
  }

  lemma {:induction false} NoBytes(ts: seq<Token>)
    ensures BytesTo(ts, 0) == 0
  {
  }

  /** A written buffer holds exactly its tokens, a header, the tags of full groups and one reserved byte. */
  lemma {:induction false} WrittenSize(o: seq<byte>, xout: nat, ptag: nat, tag: nat, ntag: nat, ts: seq<Token>, g: nat)
    requires Written(o, xout, ptag, tag, ntag, ts, g)
    ensures ntag <= 8 && xout == 3 + BytesTo(ts, |ts|) + |ts| / 8
    ensures (if ntag == 8 then xout - 1 else xout) == 2 + BytesTo(ts, |ts|) + (|ts| + 7) / 8
  {
    hide Fits, Body, Tag, Closed, BytesTo;
    ClosedSize(ts, g);
    BodySize(ts, 8 * g, |ts|);
  }

  /** A written buffer holds at most its data, a header, and one tag byte per group. */
  lemma {:induction false} WrittenBound(o: seq<byte>, xout: nat, ptag: nat, tag: nat, ntag: nat, ts: seq<Token>, g: nat)
    requires Written(o, xout, ptag, tag, ntag, ts, g)
    ensures Fits(ts, |ts|) && (ntag == 8 <==> |ts| == 8 * g)
    ensures var n := |Expand(ts, |ts|)|;
            xout <= 3 + n + n / 8 && (if ntag == 8 then xout - 1 else xout) <= 2 + n + (n + 7) / 8
  {
    hide Fits, Expand, Body, Tag, Closed;
    ClosedBound(ts, g);
    BodyBound(ts, 8 * g, |ts|);
  }

  /** Copying from a true earlier match reproduces the input. */
  lemma {:induction false} CopyBackIsMatch(s: seq<byte>, i: nat, back: nat, len: nat)
    requires 1 <= back <= i && i + len <= |s| && Agree(s, i - back, i, len)
    ensures CopyBack(s[..i], back, len) == s[..i + len]
    decreases len
  {
    if len > 0 {
      AgreePrefix(s, i - back, i, len, len - 1);
      CopyBackIsMatch(s, i, back, len - 1);
      assert At(s, i - back, len - 1) == At(s, i, len - 1);
      assert s[..i + len] == s[..i + len - 1] + [s[i + len - 1]];
    }
  }

  // ---- the output buffer ----------------------------------------------------------------------

  /** The buffer `o` holds tokens `ts`: `g` closed groups, a reserved tag byte at `ptag`, and the
      tokens of the open group, whose tag so far is `tag` with `ntag` bits still undefined. */
  ghost predicate Written(o: seq<byte>, xout: nat, ptag: nat, tag: nat, ntag: nat, ts: seq<Token>, g: nat) {
    && |o| == 4100 && 8 * g <= |ts| < 8 * g + 8 && Fits(ts, |ts|) && Fits(ts, 8 * g)
    && ntag == 8 - (|ts| - 8 * g) && tag == Tag(ts, 8 * g, |ts|)
    && ptag == 2 + |Closed(ts, g)| && xout == ptag + 1 + |Body(ts, 8 * g, |ts|)| <= 4100
    && o[2..ptag] == Closed(ts, g) && o[ptag + 1..xout] == Body(ts, 8 * g, |ts|)
  }

  /** Storing one more token in the open group. */
  lemma {:induction false} StoreToken(o: seq<byte>, o': seq<byte>, xout: nat, ptag: nat, tag: nat, ntag: nat,
                                      ts: seq<Token>, g: nat, t: Token)
    requires Written(o, xout, ptag, tag, ntag, ts, g) && TokenFits(t, |Expand(ts, |ts|)|)
    requires var bs := TokenBytes(t, |Expand(ts, |ts|)|);
             |o'| == 4100 && xout + |bs| <= 4099 && o'[..xout] == o[..xout] && o'[xout..xout + |bs|] == bs
    ensures var n := xout + |TokenBytes(t, |Expand(ts, |ts|)|)|;
            var ts' := ts + [t];
            && Fits(ts', |ts'|) && Expand(ts', |ts'|) == Apply(Expand(ts, |ts|), t)
            && Fits(ts', 8 * g) && Closed(ts', g) == Closed(ts, g)
            && Tag(ts', 8 * g, |ts'|) == tag + (if t.Phrase? then Pow2(8 - ntag) else 0)
            && o'[2..ptag] == Closed(ts, g) && o'[ptag + 1..n] == Body(ts', 8 * g, |ts'|)
  {
    hide Closed, Tag, TokenBytes, TokenFits, Apply;
    var bs := TokenBytes(t, |Expand(ts, |ts|)|);
    var ts' := ts + [t];
    ExpandAppend(ts, t, |ts|);
    ClosedAppend(ts, t, g);
    TagSnoc(ts, t, 8 * g);
    BodyAppend(ts, t, 8 * g, |ts|);
    assert Body(ts', 8 * g, |ts'|) == Body(ts, 8 * g, |ts|) + bs;
    AppendedSlices(o, o', xout, ptag, bs);
  }

  lemma {:induction false} AppendedSlices(o: seq<byte>, o': seq<byte>, xout: nat, ptag: nat, bs: seq<byte>)
    requires 2 <= ptag < xout <= |o| && xout + |bs| <= |o'| && o'[..xout] == o[..xout] && o'[xout..xout + |bs|] == bs
    ensures o'[2..ptag] == o[2..ptag] && o'[ptag + 1..xout + |bs|] == o[ptag + 1..xout] + bs
  {
    assert o'[2..ptag] == o'[..xout][2..ptag] == o[..xout][2..ptag] == o[2..ptag];
    assert o'[ptag + 1..xout] == o'[..xout][ptag + 1..] == o[..xout][ptag + 1..] == o[ptag + 1..xout];
    assert o'[ptag + 1..xout + |bs|] == o'[ptag + 1..xout] + o'[xout..xout + |bs|];
  }

  /** Closing the group once its eighth token is stored. */
  lemma {:induction false} CloseGroup(o: seq<byte>, o': seq<byte>, n: nat, ptag: nat, tag: nat, ts: seq<Token>, g: nat)
    requires |ts| == 8 * g + 8 && Fits(ts, |ts|) && Fits(ts, 8 * g)
    requires tag == Tag(ts, 8 * g, |ts|) && tag < 256
    requires ptag == 2 + |Closed(ts, g)| && n == ptag + 1 + |Body(ts, 8 * g, |ts|)| <= 4099 && |o| == 4100
    requires o[2..ptag] == Closed(ts, g) && o[ptag + 1..n] == Body(ts, 8 * g, |ts|) && o' == o[ptag := tag]
    ensures Written(o', n + 1, n, 0, 8, ts, g + 1)
  {
    hide Tag, Fits, Body;
    var body := Body(ts, 8 * g, |ts|);
    assert o'[2..n] == Closed(ts, g + 1) by {
      assert Closed(ts, g + 1) == Closed(ts, g) + ([tag] + body);
      assert o'[2..n] == o[2..ptag] + ([tag] + o[ptag + 1..n]);
    }
    EmptyGroup(ts, 8 * g + 8);
    assert o'[n + 1..n + 1] == [];
  }

  lemma {:induction false} EmptyGroup(ts: seq<Token>, k: nat)
    requires k <= |ts| && Fits(ts, k)
    ensures Tag(ts, k, k) == 0 && Body(ts, k, k) == []
  {
  }

  /** Storing a token's bytes and its tag bit, closing the group if it was the eighth. */
  lemma {:induction false} NextToken(o: seq<byte>, o': seq<byte>, xout: nat, ptag: nat, tag: nat, ntag: nat,
                                     ts: seq<Token>, g: nat, t: Token, n: nat)
    requires Written(o, xout, ptag, tag, ntag, ts, g) && Fits(ts, |ts|) && TokenFits(t, |Expand(ts, |ts|)|)
    requires n == xout + |TokenBytes(t, |Expand(ts, |ts|)|)| <= 4099 && |o'| == 4100
    requires o'[..xout] == o[..xout] && o'[xout..n] == TokenBytes(t, |Expand(ts, |ts|)|)
    ensures 1 <= ntag <= 8 && 2 <= ptag < xout
    ensures var tag' := tag + (if t.Phrase? then Pow2(8 - ntag) else 0);
            var ts' := ts + [t];
            && Fits(ts', |ts'|) && Expand(ts', |ts'|) == Apply(Expand(ts, |ts|), t) && tag' < 256
            && (ntag > 1 ==> Written(o', n, ptag, tag', ntag - 1, ts', g))
            && (ntag == 1 ==> Written(o'[ptag := tag' as byte], n + 1, n, 0, 8, ts', g + 1))
  {
    hide Tag, Fits, Body, TokenBytes, Apply, TokenFits, Expand, Closed, Pow2;
    StoreToken(o, o', xout, ptag, tag, ntag, ts, g, t);
    var ts' := ts + [t];
    TagIsByte(ts', 8 * g, |ts'|);
    if ntag == 1 {
      CloseGroup(o', o'[ptag := Tag(ts', 8 * g, |ts'|) as byte], n, ptag, Tag(ts', 8 * g, |ts'|), ts', g);
    }
  }

  lemma {:induction false} PackEnd(ts: seq<Token>)
    requires Fits(ts, |ts|)
    ensures Pack(ts, |ts|) == []
  {
  }

  /** At the end the last tag is stored, or an unused one dropped: the buffer holds the packing. */
  lemma {:induction false} Finish(o: seq<byte>, xout: nat, ptag: nat, tag: nat, ntag: nat, ts: seq<Token>, g: nat)
    requires Written(o, xout, ptag, tag, ntag, ts, g)
    ensures tag < 256 && Fits(ts, |ts|) && 2 <= ptag < xout <= 4100 && |o| == 4100
    ensures ntag == 8 ==> o[2..xout - 1] == Pack(ts, 0)
    ensures ntag != 8 ==> o[ptag := tag as byte][2..xout] == Pack(ts, 0)
  {
    hide Closed, Tag, Fits, Body, Pack, Group;
    TagIsByte(ts, 8 * g, |ts|);
    PackFromClosed(ts, g);
    EmptyGroup(ts, |ts|);
    PackEnd(ts);
    if ntag != 8 {
      PackStep(ts, 8 * g);
      GroupIs(ts, 8 * g, |ts|);
      assert o[ptag := tag as byte][2..xout] == o[2..ptag] + ([tag] + o[ptag + 1..xout]);
    }
  }

  lemma {:induction false} GroupIs(ts: seq<Token>, a: nat, b: nat)
    requires a <= b <= |ts| && b - a <= 8 && Fits(ts, b) && Tag(ts, a, b) < 256
    ensures Group(ts, a, b) == [Tag(ts, a, b)] + Body(ts, a, b)
  {
  }

  lemma {:induction false} WordBytes(q: nat)
    requires q < 65536
    ensures Le16(q) == [q % 256, q / 256 % 256]
  {
  }

  /** The output side of the compressor: `xout` bytes are in use from `base` on. */
  class Writer {
    const out: array<byte>
    const base: nat
    var xout: nat
    var ptag: nat
    var tag: nat
    var ntag: nat
    ghost var ts: seq<Token>
    ghost var g: nat

    ghost predicate Valid()
      reads this, out
    {
      && base + 4100 <= out.Length && ntag <= 8 && 3 <= xout <= 4100 && Fits(ts, |ts|)
      && Written(out[base..base + 4100], xout, ptag, tag, ntag, ts, g)
    }

    /** What has been emitted, as data. */
    ghost function Data(): seq<byte>
      requires Fits(ts, |ts|)
      reads this
    {
      Expand(ts, |ts|)
    }

    constructor (outbuf: array<byte>, at: nat)
      requires at + 4100 <= outbuf.Length
      ensures Valid() && out == outbuf && base == at && ts == [] && xout == 3
    {
      out, base := outbuf, at;
      xout, ptag, tag, ntag := 3, 2, 0, 8;
      ts, g := [], 0;
    }

    /** Account for a token whose bytes were just stored; store the tag if it is fully used. */
    method Stored(ghost o: seq<byte>, n: nat, bit: nat, ghost t: Token)
      requires base + 4100 <= out.Length && Written(o, xout, ptag, tag, ntag, ts, g)
      requires Fits(ts, |ts|) && TokenFits(t, |Expand(ts, |ts|)|) && n <= 4099
      requires n == xout + |TokenBytes(t, |Expand(ts, |ts|)|)| && ntag <= 8
               && bit == (if t.Phrase? then Pow2(8 - ntag) else 0)
      requires out[base..base + 4100][..xout] == o[..xout]
      requires out[base..base + 4100][xout..n] == TokenBytes(t, |Expand(ts, |ts|)|)
      modifies this, out
      ensures Valid() && ts == old(ts) + [t] && n <= xout <= n + 1
      ensures Data() == Apply(old(Expand(ts, |ts|)), t)
      ensures forall k :: 0 <= k < out.Length && !(base + 2 <= k < base + 4099) ==> out[k] == old(out[k])
    {
      hide TokenBytes, Apply, TokenFits, Written, Expand, Pow2, Fits;
      ghost var o' := out[base..base + 4100];
      NextToken(o, o', xout, ptag, tag, ntag, ts, g, t, n);
      tag := tag + bit;
      ts := ts + [t];
      xout := n;
      ntag := ntag - 1;
      if ntag == 0 {
        out[base + ptag] := tag;
        assert out[base..base + 4100] == o'[ptag := tag as byte];
        ntag := 8;
        ptag := xout;
        xout := xout + 1;
        tag := 0;
        g := g + 1;
      }
    }

    method PutLiteral(b: byte)
      requires Valid() && xout < SB_SIZE + 2 && |Data()| < SB_SIZE
      modifies this, out
      ensures Valid() && ts == old(ts) + [Literal(b)] && Data() == old(Data()) + [b] && xout <= old(xout) + 2
      ensures forall k :: 0 <= k < out.Length && !(base + 2 <= k < base + 4099) ==> out[k] == old(out[k])
    {
      hide Written, Expand, Fits, Pow2;
      ghost var o := out[base..base + 4100];
      out[base + xout] := b;
      assert out[base..base + 4100][..xout] == o[..xout];
      assert out[base..base + 4100][xout..xout + 1] == [b];
      Stored(o, xout + 1, 0, Literal(b));
    }

    /** Store the phrase word `q`. */
    method PutPhrase(q: nat, ghost back: nat, ghost len: nat)
      requires Valid() && xout < SB_SIZE + 2 && TokenFits(Phrase(back, len), |Data()|)
      requires q == PhraseWord(back, len, |Data()|)
      modifies this, out
      ensures Valid() && ts == old(ts) + [Phrase(back, len)] && Data() == CopyBack(old(Data()), back, len)
      ensures xout <= old(xout) + 3
      ensures forall k :: 0 <= k < out.Length && !(base + 2 <= k < base + 4099) ==> out[k] == old(out[k])
    {
      hide Written, Expand, Fits, Pow2, TokenFits, PhraseWord, CopyBack, Le16;
      ghost var o := out[base..base + 4100];
      WordBytes(q);
      out[base + xout] := q % 256;
      out[base + xout + 1] := q / 256 % 256;
      assert out[base..base + 4100][..xout] == o[..xout];
      assert out[base..base + 4100][xout..xout + 2] == Le16(q);
      Stored(o, xout + 2, Pow2(8 - ntag), Phrase(back, len));
    }

    /** Store the last tag if partially used, else give its byte back. */
    method Close() returns (n: nat)
      requires Valid()
      modifies out
      ensures xout <= 3 + |Data()| + |Data()| / 8 && n <= 2 + |Data()| + (|Data()| + 7) / 8
      ensures xout == 3 + BytesTo(ts, |ts|) + |ts| / 8 && n == 2 + BytesTo(ts, |ts|) + (|ts| + 7) / 8
      ensures 2 <= n <= xout && Fits(ts, |ts|) && base + n <= out.Length && out[base + 2..base + n] == Pack(ts, 0)
      ensures forall k :: 0 <= k < out.Length && !(base + 2 <= k < base + 4100) ==> out[k] == old(out[k])
    {
      hide Written, Expand, Fits, Pow2, Pack, BytesTo;
      n := xout;
      ghost var o := out[base..base + 4100];
      Finish(o, xout, ptag, tag, ntag, ts, g);
      WrittenBound(o, xout, ptag, tag, ntag, ts, g);
      WrittenSize(o, xout, ptag, tag, ntag, ts, g);
      if ntag == 8 {
        n := xout - 1;
      } else {
        out[base + ptag] := tag;
        assert out[base..base + 4100] == o[ptag := tag as byte];
      }
      SubSlice(out[..], base, 4100, 2, n);
      assert out[base + 2..base + n] == out[..][base + 2..base + n]
             && out[base..base + 4100] == out[..][base..base + 4100];
    }
  }

  // ---- the compressor -------------------------------------------------------------------------

  /** What the match finder reported for position `i`. */
  ghost predicate Found(s: seq<byte>, i: nat, size: nat, rel: int) {
    i < |s| && i + size <= |s| && (size == 0 || (0 <= i + rel < i && Agree(s, i + rel, i, size)))
  }

  /** The encoder's offset width `bp` and longest match `mxsz` are those for position `i`. */
  ghost predicate SplitFor(i: nat, bp: nat, mxoff: nat, mxsz: nat) {
    4 <= bp <= 12 && mxoff == Pow2(bp) && mxsz == Pow2(16 - bp) + 2 && (bp == 4 || Pow2(bp - 1) < i)
  }

  lemma {:induction false} SplitRange(bp: nat)
    requires 4 <= bp <= 12
    ensures Pow2(16 - bp) >= 16 && Pow2(16 - bp) == 2 * Pow2(15 - bp) && (bp == 12 ==> Pow2(bp) == 4096)
  {
    Pow2Monotone(4, 16 - bp);
    Pow2Values();
  }

  lemma {:induction false} ReachFirst()
    ensures Reach(0) == Pow2(12) + 2
  {
    hide Pow2;
  }

  lemma {:induction false} ReachAt(p: nat, bp: nat)
    requires 1 <= p <= SB_SIZE && 4 <= bp <= 12 && p <= Pow2(bp) && (bp == 4 || Pow2(bp - 1) < p)
    ensures Reach(p) == Pow2(16 - bp) + 2
  {
    hide Pow2;
    SplitsAgree(p, bp);
  }

  /** The longest match at `i` and at the next position is what a phrase there can express. */
  lemma {:induction false} ReachIs(i: nat, bp: nat, mxoff: nat, mxsz: nat)
    requires SplitFor(i, bp, mxoff, mxsz) && i <= mxoff && i <= SB_SIZE
    ensures mxsz == Reach(i)
    ensures i < SB_SIZE ==> Reach(i + 1) == if mxoff <= i then (mxsz + 2) / 2 else mxsz
  {
    hide Reach;
    SplitRange(bp);
    if i > 0 {
      ReachAt(i, bp);
    } else {
      ReachFirst();
    }
    if i < mxoff && i < SB_SIZE {
      ReachAt(i + 1, bp);
    } else if i < SB_SIZE {
      ReachAt(i + 1, bp + 1);
    }
  }

  /** A match no longer than `mxsz` fits in a phrase token, and `q` is its word. */
  lemma {:induction false} PhraseFits(s: seq<byte>, i: nat, bp: nat, mxoff: nat, mxsz: nat, back: nat, len: nat)
    requires SplitFor(i, bp, mxoff, mxsz) && i <= mxoff
    requires 1 <= back <= i && 3 <= len <= mxsz && i + len <= |s| <= SB_SIZE
    ensures bp <= 12 && TokenFits(Phrase(back, len), i)
    ensures PhraseWord(back, len, i) == Shl(back - 1, 16 - bp) + (len - 3)
  {
    SplitsAgree(i, bp);
    assert LenBits(i) == 16 - bp;
  }

  /** Widen the offset, halving the length range, until `i` can be reached. */
  method AdjustSplit(ctx: MatchContext, i: nat, bp0: nat, mxoff0: nat) returns (bp: nat, mxoff: nat)
    requires ctx.Valid() && i <= SB_SIZE && SplitFor(i, bp0, mxoff0, ctx.mxsz)
    modifies ctx`mxsz
    ensures ctx.Valid() && SplitFor(i, bp, mxoff, ctx.mxsz) && i <= mxoff
    ensures bp0 <= bp && (i <= mxoff0 ==> bp == bp0) && ctx.mxsz <= old(ctx.mxsz)
  {
    bp, mxoff := bp0, mxoff0;
    hide Trees;
    while mxoff < i
      invariant ctx.Valid() && SplitFor(i, bp, mxoff, ctx.mxsz) && bp0 <= bp && (i <= mxoff0 ==> bp == bp0)
      invariant ctx.mxsz <= old(ctx.mxsz)
      decreases 12 - bp
    {
      SplitRange(bp);
      bp := bp + 1;
      mxoff := 2 * mxoff;
      ctx.Shorten((ctx.mxsz + 2) / 2);
      SplitRange(bp);
    }
  }

  /** The writer has emitted the data before `i`; the match finder shares no memory with it. */
  ghost predicate Coding(w: Writer, ctx: MatchContext, i: nat)
    reads w, w.out, ctx, ctx.head, ctx.lson, ctx.rson
  {
    && w.Valid() && ctx.Valid()
    && w.out as object !in {ctx.head as object, ctx.lson, ctx.rson}
    && i <= |ctx.inbuf| && w.Data() == ctx.inbuf[..i]
  }

  /** Look up the match at `i + 1`: is it worth delaying a match that ends at `j`? */
  method Delay(ctx: MatchContext, i: nat, j: nat, mxoff: nat) returns (better: bool)
    requires ctx.Valid() && |ctx.path| == i + 1 < |ctx.inbuf|
    modifies ctx`size, ctx`rel, ctx`path, ctx.head, ctx.lson, ctx.rson
    ensures ctx.Valid() && |ctx.path| == i + 2 && Found(ctx.inbuf, i + 1, ctx.size, ctx.rel)
    ensures NoLongerMatch(ctx.inbuf, i + 1, ctx.mxsz, ctx.size)
    ensures Longest(ctx.inbuf, i + 1, ctx.mxsz) == ctx.size && Best(ctx.inbuf, i + 1, ctx.mxsz, ctx.size)
    // better when the longest match there, cut to what a phrase can express, ends two bytes after `j` or later
    ensures var longest := if mxoff <= i then (ctx.mxsz + 2) / 2 else ctx.mxsz;
            better <==> i + 1 + ctx.size >= j + 2 && i + longest >= j + 2
    ensures better ==> j + 1 < |ctx.inbuf|
  {
    hide Trees, Agree, NoLongerMatch, Best, Longest;
    ctx.BestMatch(i + 1);
    BestFound(ctx.inbuf, i + 1, ctx.mxsz, ctx.size, ctx.rel);
    var k := i + 1 + ctx.size;
    var mxsz2 := ctx.mxsz;
    if mxoff <= i {
      mxsz2 := (ctx.mxsz + 2) / 2;
    }
    if k - i > mxsz2 {
      k := i + mxsz2;
    }
    better := k > j + 1;
  }

  /** Emit the token at `i`, whose match has been looked up: the match if it is longer than two
      bytes and the one at `i + 1` is not better by two, else the byte itself. */
  method EmitNext(w: Writer, ctx: MatchContext, i: nat, bp: nat, mxoff: nat) returns (next: nat, entered: nat)
    requires Coding(w, ctx, i) && w.xout < SB_SIZE + 2 && |ctx.path| == i + 1 <= |ctx.inbuf|
    requires SplitFor(i, bp, mxoff, ctx.mxsz) && i <= mxoff && Found(ctx.inbuf, i, ctx.size, ctx.rel)
    requires Best(ctx.inbuf, i, ctx.mxsz, ctx.size)
    modifies w, w.out, ctx`size, ctx`rel, ctx`path, ctx.head, ctx.lson, ctx.rson
    ensures i < next && Coding(w, ctx, next) && entered == |ctx.path| <= next + 1
    ensures entered == next + 1 ==>
              Found(ctx.inbuf, next, ctx.size, ctx.rel) && Best(ctx.inbuf, next, ctx.mxsz, ctx.size)
    ensures |w.ts| == |old(w.ts)| + 1 && w.xout <= old(w.xout) + 3
    // the token is the one chosen for the input, whatever was emitted before
    ensures next == i + TokenLength(ctx.inbuf, i)
    ensures w.ts == old(w.ts) + [w.ts[|old(w.ts)|]] && Chosen(ctx.inbuf, i, w.ts[|old(w.ts)|])
    ensures old(ctx.size) <= 2 ==>
              next == i + 1 && entered == next && w.ts == old(w.ts) + [Literal(ctx.inbuf[i])]
    // a match that reaches the end of the block is always taken
    ensures 2 < old(ctx.size) <= ctx.mxsz && i + old(ctx.size) == |ctx.inbuf| ==>
              next == |ctx.inbuf| && old(ctx.rel) < 0
              && w.ts == old(w.ts) + [Phrase(-old(ctx.rel), old(ctx.size))]
    ensures forall k :: 0 <= k < w.out.Length && !(w.base + 2 <= k < w.base + 4099) ==> w.out[k] == old(w.out[k])
  {
    hide Trees, Written, Expand, Fits, Pow2, Agree, NoLongerMatch, Longest, Reach, Best, TokenLength, Chosen;
    ReachIs(i, bp, mxoff, ctx.mxsz);
    Choice(ctx.inbuf, i, ctx.size);
    entered := i + 1;
    var j := i + ctx.size;
    if j - i > ctx.mxsz {
      j := i + ctx.mxsz;
    }
    if j - i > 2 {
      var offs := ctx.rel;
      MatchShorter(ctx.inbuf, i, ctx.size, offs, j - i);
      var better := Delay(ctx, i, j, mxoff);
      entered := i + 2;
      if !better {
        EmitPhrase(w, ctx, i, bp, mxoff, offs, j - i);
        next := j;
        return;
      }
    }
    EmitLiteral(w, ctx, i);
    next := i + 1;
  }

  /** The match of `n` bytes with the position `offs` away goes out as a phrase. */
  method EmitPhrase(w: Writer, ctx: MatchContext, i: nat, bp: nat, mxoff: nat, offs: int, n: nat)
    requires Coding(w, ctx, i) && w.xout < SB_SIZE + 2 && SplitFor(i, bp, mxoff, ctx.mxsz) && i <= mxoff
    requires 3 <= n <= ctx.mxsz && 0 <= i + offs < i && i + n <= |ctx.inbuf| && Agree(ctx.inbuf, i + offs, i, n)
    modifies w, w.out
    ensures Coding(w, ctx, i + n) && w.ts == old(w.ts) + [Phrase(-offs, n)] && w.xout <= old(w.xout) + 3
    ensures forall k :: 0 <= k < w.out.Length && !(w.base + 2 <= k < w.base + 4099) ==> w.out[k] == old(w.out[k])
  {
    hide Trees, Written, Expand, Fits, Pow2, Agree, CopyBack, SplitFor, TokenFits, PhraseWord, Shl;
    PhraseFits(ctx.inbuf, i, bp, mxoff, ctx.mxsz, -offs, n);
    CopyBackIsMatch(ctx.inbuf, i, -offs, n);
    w.PutPhrase(Shl(-offs - 1, 16 - bp) + (n - 3), -offs, n);
  }

  method EmitLiteral(w: Writer, ctx: MatchContext, i: nat)
    requires Coding(w, ctx, i) && w.xout < SB_SIZE + 2 && i < |ctx.inbuf|
    modifies w, w.out
    ensures Coding(w, ctx, i + 1) && w.ts == old(w.ts) + [Literal(ctx.inbuf[i])] && w.xout <= old(w.xout) + 2
    ensures forall k :: 0 <= k < w.out.Length && !(w.base + 2 <= k < w.base + 4099) ==> w.out[k] == old(w.out[k])
  {
    hide Trees, Written, Expand, Fits, Pow2;
    w.PutLiteral(ctx.inbuf[i]);
  }

  lemma {:induction false} MatchShorter(s: seq<byte>, i: nat, size: nat, rel: int, n: nat)
    requires Found(s, i, size, rel) && 0 < n <= size
    ensures 0 <= i + rel < i && i + n <= |s| && Agree(s, i + rel, i, n)
  {
    AgreePrefix(s, i + rel, i, size, n);
  }

  ghost predicate AllZero(s: seq<byte>) {
    forall k :: 0 <= k < |s| ==> s[k] == 0
  }

  /** The tokens of a block of `n` zeros: up to three literals, or one literal and one phrase. */
  ghost function ZeroTokens(n: nat): seq<Token> {
    if n <= 3 then seq(n, _ => Literal(0)) else [Literal(0), Phrase(1, n - 1)]
  }

  /** How far a block of zeros has been coded. */
  ghost predicate ZeroProgress(s: seq<byte>, i: nat, entered: nat, ts: seq<Token>) {
    AllZero(s) ==>
      || (i == |s| && ts == ZeroTokens(|s|))
      || (i == entered && i < |s| && (i <= 1 || |s| <= 3) && ts == seq(i, _ => Literal(0)))
  }

  /** A match of zeros with zeros runs to the end of the block. */
  lemma {:induction false} ZeroMatch(s: seq<byte>, i: nat, mxsz: nat, size: nat, rel: int)
    requires AllZero(s) && 0 < i < |s| && |s| <= mxsz && Found(s, i, size, rel) && NoLongerMatch(s, i, mxsz, size)
    ensures size == |s| - i
  {
    assert Limit(s, i, mxsz) == |s| - i;
    assert Agree(s, 0, i, |s| - i);
  }

  lemma {:induction false} ZeroStep(s: seq<byte>, i: nat, entered: nat, ts: seq<Token>, bp: nat, mxoff: nat, mxsz: nat,
                                    size: nat, rel: int, next: nat, entered': nat, ts': seq<Token>)
    requires ZeroProgress(s, i, entered, ts) && i < |s| <= SB_SIZE && SplitFor(i, bp, mxoff, mxsz)
    requires Found(s, i, size, rel) && (entered <= i ==> NoLongerMatch(s, i, mxsz, size))
    requires size <= 2 ==> next == i + 1 && entered' == next && ts' == ts + [Literal(s[i])]
    requires 2 < size <= mxsz && i + size == |s| ==> next == |s| && rel < 0 && ts' == ts + [Phrase(-rel, size)]
    ensures ZeroProgress(s, next, entered', ts')
  {
    hide NoLongerMatch, Agree, Pow2;
    if AllZero(s) {
      assert mxsz == SB_SIZE + 2 by { EarlySplit(i, bp, mxoff, mxsz); }
      if i > 0 {
        ZeroMatch(s, i, mxsz, size, rel);
      }
      assert seq(i, _ => Literal(0)) + [Literal(0)] == seq(i + 1, _ => Literal(0));
    }
  }

  lemma {:induction false} EarlySplit(i: nat, bp: nat, mxoff: nat, mxsz: nat)
    requires SplitFor(i, bp, mxoff, mxsz) && i <= 16
    ensures mxsz == SB_SIZE + 2
  {
    Pow2Values();
    if bp > 4 {
      Pow2Monotone(4, bp - 1);
    }
  }

  /** Enter the positions up to `i`; the last one looked up is `i`. */
  method LookUp(ctx: MatchContext, i: nat, entered0: nat) returns (entered: nat)
    requires ctx.Valid() && i < |ctx.inbuf| && entered0 == |ctx.path| <= i + 1
    requires entered0 == i + 1 ==> Found(ctx.inbuf, i, ctx.size, ctx.rel) && Best(ctx.inbuf, i, ctx.mxsz, ctx.size)
    modifies ctx`size, ctx`rel, ctx`path, ctx.head, ctx.lson, ctx.rson
    ensures ctx.Valid() && entered == |ctx.path| == i + 1
    ensures Found(ctx.inbuf, i, ctx.size, ctx.rel) && Best(ctx.inbuf, i, ctx.mxsz, ctx.size)
    ensures entered0 <= i ==> NoLongerMatch(ctx.inbuf, i, ctx.mxsz, ctx.size)
  {
    hide Trees, Agree, NoLongerMatch, Best;
    entered := entered0;
    while entered <= i
      invariant ctx.Valid() && entered0 <= entered == |ctx.path| <= i + 1
      invariant entered == i + 1 ==>
                  Found(ctx.inbuf, i, ctx.size, ctx.rel) && Best(ctx.inbuf, i, ctx.mxsz, ctx.size)
      invariant entered0 <= i && entered == i + 1 ==> NoLongerMatch(ctx.inbuf, i, ctx.mxsz, ctx.size)
    {
      ctx.BestMatch(entered);
      BestFound(ctx.inbuf, entered, ctx.mxsz, ctx.size, ctx.rel);
      entered := entered + 1;
    }
  }

  /** The main loop: emit tokens until the input is exhausted or the output is too long. */
  method EmitAll(w: Writer, ctx: MatchContext) returns (i: nat)
    requires Coding(w, ctx, 0) && w.ts == [] && w.xout == 3
    requires 1 <= |ctx.inbuf| <= SB_SIZE && ctx.path == [] && ctx.mxsz == SB_SIZE + 2
    modifies w, w.out, ctx, ctx.head, ctx.lson, ctx.rson
    ensures Coding(w, ctx, i) && (i == |ctx.inbuf| || w.xout >= SB_SIZE + 2)
    ensures Spent(ctx.inbuf, i, w.ts) && AllChosen(ctx.inbuf, w.ts, |w.ts|)
    ensures i > 0 && (AllZero(ctx.inbuf) ==> i == |ctx.inbuf| && w.ts == ZeroTokens(i) && w.xout < 100)
    ensures forall k :: 0 <= k < w.out.Length && !(w.base + 2 <= k < w.base + 4099) ==> w.out[k] == old(w.out[k])
  {
    hide Trees, Written, Expand, Fits, Pow2, Agree, NoLongerMatch, Best, TokenLength, Chosen, Spent, AllChosen;
    i := 0;
    NothingSpent(ctx.inbuf);
    NoneChosen(ctx.inbuf, w.ts);
    var bp, mxoff, entered := 4, 16, 0;
    Pow2Values();
    while i < |ctx.inbuf| && w.xout < SB_SIZE + 2
      invariant Coding(w, ctx, i) && entered == |ctx.path| <= i + 1
      invariant SplitFor(i, bp, mxoff, ctx.mxsz)
      invariant entered == i + 1 ==>
                  Found(ctx.inbuf, i, ctx.size, ctx.rel) && Best(ctx.inbuf, i, ctx.mxsz, ctx.size)
      invariant Spent(ctx.inbuf, i, w.ts) && AllChosen(ctx.inbuf, w.ts, |w.ts|)
      invariant w.xout <= 3 + 3 * |w.ts| && (i == 0 ==> w.ts == [])
      invariant ZeroProgress(ctx.inbuf, i, entered, w.ts)
      invariant forall k :: 0 <= k < w.out.Length && !(w.base + 2 <= k < w.base + 4099) ==> w.out[k] == old(w.out[k])
    {
      ghost var mxsz := ctx.mxsz;
      bp, mxoff := AdjustSplit(ctx, i, bp, mxoff);
      if entered == i + 1 {
        BestShorter(ctx.inbuf, i, mxsz, ctx.mxsz, ctx.size);
      }
      ghost var before, ts, at := entered, w.ts, i;
      entered := LookUp(ctx, i, entered);
      ghost var size, rel := ctx.size, ctx.rel;
      i, entered := EmitNext(w, ctx, i, bp, mxoff);
      SpendOne(ctx.inbuf, at, ts, w.ts[|ts|]);
      NextChosen(ctx.inbuf, ts, w.ts[|ts|]);
      ZeroStep(ctx.inbuf, at, before, ts, bp, mxoff, ctx.mxsz, size, rel, i, entered, w.ts);
    }
  }

  lemma {:induction false} NoneChosen(s: seq<byte>, ts: seq<Token>)
    requires ts == [] && |s| <= SB_SIZE
    ensures Fits(ts, |ts|) && AllChosen(s, ts, |ts|)
  {
  }

  lemma {:induction false} PackedHeader(ts: seq<Token>, o: seq<byte>, xout: nat)
    requires Fits(ts, |ts|) && ts != [] && 2 <= xout < SB_SIZE + 2 && |o| == xout && o[2..] == Pack(ts, 0)
    requires o[0] == (xout - 3) % 256 && o[1] == 0xb0 + (xout - 3) / 256 % 16
    ensures ValidSubBlock(Packed(ts)) && o == SubBlockBytes(Packed(ts))
  {
    hide Pack, Fits;
    assert o == o[..2] + o[2..];
    assert o[..2] == Le16(0xb000 + xout - 3);
  }

  method StoreHeader(ghost ts: seq<Token>, outbuf: array<byte>, base: nat, xout: nat)
    requires Fits(ts, |ts|) && ts != [] && 3 <= xout < SB_SIZE + 2 && base + 4100 <= outbuf.Length
    requires outbuf[base + 2..base + xout] == Pack(ts, 0)
    modifies outbuf
    ensures ValidSubBlock(Packed(ts)) && outbuf[base..base + xout] == SubBlockBytes(Packed(ts))
    ensures forall k :: 0 <= k < outbuf.Length && !(base <= k < base + 2) ==> outbuf[k] == old(outbuf[k])
  {
    hide Pack, Fits, ValidSubBlock, SubBlockBytes;
    outbuf[base] := (xout - 3) % 256;
    outbuf[base + 1] := 0xb0 + (xout - 3) / 256 % 16;
    assert outbuf[base..base + xout][2..] == outbuf[base + 2..base + xout];
    PackedHeader(ts, outbuf[base..base + xout], xout);
  }

  /** Store the input uncompressed, zero-padded to full size. */
  method StoreRaw(inbuf: seq<byte>, outbuf: array<byte>, base: nat)
    requires |inbuf| <= SB_SIZE && base + 4100 <= outbuf.Length
    modifies outbuf
    ensures outbuf[base..base + SB_SIZE + 2] == SubBlockBytes(Raw(Padded(inbuf)))
    ensures forall k :: 0 <= k < outbuf.Length && !(base <= k < base + 4098) ==> outbuf[k] == old(outbuf[k])
  {
    var n := 0;
    ghost var data := Padded(inbuf);
    while n < SB_SIZE
      invariant n <= SB_SIZE
      invariant forall k :: base + 2 <= k < base + 2 + n ==> outbuf[k] == data[k - base - 2]
      invariant forall k :: 0 <= k < outbuf.Length && !(base + 2 <= k < base + 2 + n) ==> outbuf[k] == old(outbuf[k])
    {
      outbuf[base + 2 + n] := if n < |inbuf| then inbuf[n] else 0;
      n := n + 1;
    }
    outbuf[base] := 0xff;
    outbuf[base + 1] := 0x3f;
    assert outbuf[base..base + 2] == Le16(0x3fff);
    ghost var stored := outbuf[base + 2..base + SB_SIZE + 2];
    forall k | 0 <= k < SB_SIZE
      ensures stored[k] == data[k]
    {
      assert stored[k] == outbuf[base + 2 + k];
    }
    assert stored == data;
    assert outbuf[base..base + SB_SIZE + 2] == outbuf[base..base + 2] + outbuf[base + 2..base + SB_SIZE + 2];
  }

  /** Compress one block into the buffer at `base`.  Whatever the input, the bytes stored are one
      valid sub-block that decodes to the input, zero-padded; nothing else is written outside the
      4100 bytes reserved for it. */
  method CompressBlock(inbuf: seq<byte>, outbuf: array<byte>, base: nat) returns (xout: nat, ghost sb: SubBlock)
    requires 1 <= |inbuf| <= SB_SIZE && base + 4100 <= outbuf.Length
    modifies outbuf
    ensures 4 <= xout <= SB_SIZE + 2 && ValidSubBlock(sb)
    ensures outbuf[base..base + xout] == SubBlockBytes(sb) && Meaning(sb) == Padded(inbuf)
    ensures sb.Raw? <==> xout == SB_SIZE + 2
    // the size is that of the tokens chosen for the block, and the tokens are these
    ensures xout == BlockSize(inbuf)
    ensures sb.Packed? ==> Fits(sb.ts, |sb.ts|) && AllChosen(inbuf, sb.ts, |sb.ts|)
    ensures xout <= 2 + |inbuf| + (|inbuf| + 7) / 8
    ensures AllZero(inbuf) ==> sb == Packed(ZeroTokens(|inbuf|))
    ensures forall k :: 0 <= k < outbuf.Length && !(base <= k < base + 4100) ==> outbuf[k] == old(outbuf[k])
  {
    hide Trees, Written, Expand, Fits, Pow2, Pack, Padded, SubBlockBytes, ValidSubBlock, Spent, BlockSize, BytesTo,
         AllChosen;
    var w := new Writer(outbuf, base);
    var ctx := new MatchContext(inbuf, SB_SIZE + 2);
    EmptyFits(w.ts);
    var i := EmitAll(w, ctx);
    xout := w.Close();
    SizeIs(inbuf, i, w.ts);
    if i >= |inbuf| && xout < SB_SIZE + 2 {
      sb := Packed(w.ts);
      PackNonEmpty(w.ts, inbuf);
      StoreHeader(w.ts, outbuf, base, xout);
      assert inbuf[..i] == inbuf;
    } else {
      StoreRaw(inbuf, outbuf, base);
      xout, sb := SB_SIZE + 2, Raw(Padded(inbuf));
    }
    SubBlockSize(sb);
  }

  lemma {:induction false} PackNonEmpty(ts: seq<Token>, s: seq<byte>)
    requires Fits(ts, |ts|) && Expand(ts, |ts|) == s && s != []
    ensures ts != [] && |Pack(ts, 0)| >= 2
  {
  }

  lemma {:induction false} SubBlockSize(sb: SubBlock)
    requires sb.Raw? ==> |sb.data| == SB_SIZE
    requires sb.Packed? ==> ValidSubBlock(sb)
    ensures ValidSubBlock(sb) && (sb.Raw? <==> |SubBlockBytes(sb)| == SB_SIZE + 2)
  {
  }

  lemma {:induction false} EmptyFits(ts: seq<Token>)
    requires ts == []
    ensures Fits(ts, |ts|) && Expand(ts, |ts|) == []
  {
  }
}

/** `ntfs_comp_set`: compress up to one compression block, sub-block by sub-block, into clusters. */
module CompressionSet {
  import opened Lznt1Format
  import opened Lznt1Decoder
  import opened Lznt1Encoder
  import opened LazyParse

  /** What is to be written: whole clusters, nothing because all is zero, or nothing because
      compression would not save a cluster. */
  datatype Plan = Clusters(count: nat, data: seq<byte>) | Sparse | Incompressible

  // ---- the test for zeroes --------------------------------------------------------------------

  /** The source's comparison of a sub-block with three fixed byte patterns. */
  predicate LooksZero(bs: seq<byte>) {
    if |bs| == 4 then bs == [0x01, 0xb0, 0x00, 0x00]
    else if |bs| == 5 then bs == [0x02, 0xb0, 0x00, 0x00, 0x00]
    else if |bs| == 6 then bs[..4] == [0x03, 0xb0, 0x02, 0x00]
    else false
  }

  lemma {:induction false} FirstIsLiteral(ts: seq<Token>)
    requires ts != [] && Fits(ts, |ts|)
    ensures Fits(ts, 1) && ts[0].Literal? && Expand(ts, 1) == [ts[0].b]
    ensures Body(ts, 0, 1) == [ts[0].b] && Tag(ts, 0, 1) == 0
  {
    hide Expand, TokenBytes, Body;
    FitsPrefix(ts, 1, |ts|);
    FirstToken(ts);
  }

  lemma {:induction false} FirstToken(ts: seq<Token>)
    requires ts != [] && Fits(ts, 1)
    ensures ts[0].Literal? && Expand(ts, 1) == [ts[0].b]
    ensures Body(ts, 0, 1) == [ts[0].b]
  {
    assert Fits(ts, 0) && Expand(ts, 0) == [] && Body(ts, 0, 0) == [];
  }

  lemma {:induction false} TwoTokens(ts: seq<Token>)
    requires |ts| == 2 && Fits(ts, 2)
    ensures ts[0].Literal? && TokenFits(ts[1], 1)
    ensures Body(ts, 0, 2) == [ts[0].b] + TokenBytes(ts[1], 1)
    ensures Expand(ts, 2) == Apply([ts[0].b], ts[1])
    ensures Tag(ts, 0, 2) == (if ts[1].Phrase? then 2 else 0)
  {
    FirstIsLiteral(ts);
    assert Tag(ts, 1, 2) == (if ts[1].Phrase? then 1 else 0) by { assert Tag(ts, 2, 2) == 0; }
  }

  lemma {:induction false} CopyZeros(out: seq<byte>, back: nat, len: nat)
    requires 1 <= back <= |out| && AllZero(out)
    ensures AllZero(CopyBack(out, back, len))
    decreases len
  {
    if len > 0 {
      CopyZeros(out, back, len - 1);
    }
  }

  /** A short sub-block has at most three tokens, in one group. */
  lemma {:induction false} ShortPack(ts: seq<Token>)
    requires ts != [] && Fits(ts, |ts|) && |Pack(ts, 0)| <= 4
    ensures |ts| <= 3 && Tag(ts, 0, |ts|) < 256
    ensures Pack(ts, 0) == [Tag(ts, 0, |ts|)] + Body(ts, 0, |ts|)
  {
    hide Fits, Body, Tag;
    var m := GroupEnd(ts, 0);
    FitsPrefix(ts, m, |ts|);
    TagIsByte(ts, 0, m);
    assert Pack(ts, 0) == Group(ts, 0, m) + Pack(ts, m);
    assert |Body(ts, 0, m)| >= m;
    PackEnd(ts);
  }

  lemma {:induction false} ThirdToken(ts: seq<Token>)
    requires |ts| == 3 && Fits(ts, 3)
    ensures |Body(ts, 0, 3)| == 3 ==> Tag(ts, 0, 3) != 2
  {
    FirstIsLiteral(ts);
    assert Tag(ts, 3, 3) == 0;
    assert Tag(ts, 2, 3) == (if ts[2].Phrase? then 1 else 0);
    assert Tag(ts, 1, 3) == (if ts[1].Phrase? then 1 else 0) + 2 * Tag(ts, 2, 3);
    assert Body(ts, 0, 2) == Body(ts, 0, 1) + TokenBytes(ts[1], |Expand(ts, 1)|);
  }

  /** The patterns, in terms of tag and token bytes. */
  lemma {:induction false} ZeroTokensExpand(ts: seq<Token>)
    requires 1 <= |ts| <= 3 && Fits(ts, |ts|)
    requires var body, tag := Body(ts, 0, |ts|), Tag(ts, 0, |ts|);
             || (tag == 0 && body == [0])
             || (tag == 0 && body == [0, 0])
             || (tag == 2 && |body| == 3 && body[0] == 0)
    ensures AllZero(Expand(ts, |ts|))
  {
    hide Fits, Tag, Expand, Body, TokenFits, PhraseWord;
    FirstIsLiteral(ts);
    if |ts| == 2 {
      TwoTokens(ts);
      var body := Body(ts, 0, 2);
      assert ts[0].b == body[0];
      if ts[1].Literal? {
        assert body[1] == ts[1].b;
      } else {
        assert Expand(ts, 2) == CopyBack([0], ts[1].back, ts[1].len);
        CopyZeros([0], ts[1].back, ts[1].len);
      }
    } else if |ts| == 3 {
      ThirdToken(ts);
    }
  }

  /** What looks like zeroes is zeroes. */
  lemma {:induction false} LooksZeroSound(sb: SubBlock)
    requires ValidSubBlock(sb) && LooksZero(SubBlockBytes(sb))
    ensures AllZero(Meaning(sb))
  {
    hide Fits, Body, Tag, Pack, Expand;
    SubBlockSize(sb);
    var ts := sb.ts;
    PackedBytes(ts);
    ShortPack(ts);
    LooksZeroBody(ts);
    ZeroTokensExpand(ts);
  }

  lemma {:induction false} LooksZeroBody(ts: seq<Token>)
    requires ValidSubBlock(Packed(ts)) && LooksZero(SubBlockBytes(Packed(ts)))
    requires |ts| <= 3 && Tag(ts, 0, |ts|) < 256 && Pack(ts, 0) == [Tag(ts, 0, |ts|)] + Body(ts, 0, |ts|)
    ensures var body, tag := Body(ts, 0, |ts|), Tag(ts, 0, |ts|);
            || (tag == 0 && body == [0])
            || (tag == 0 && body == [0, 0])
            || (tag == 2 && |body| == 3 && body[0] == 0)
  {
    hide Fits, Body, Tag, Pack;
    var bs := SubBlockBytes(Packed(ts));
    assert bs[2] == Tag(ts, 0, |ts|) && bs[3..] == Body(ts, 0, |ts|);
    assert |bs| >= 4 && bs[3] == 0;
    if |bs| == 5 {
      assert bs[3..] == [0, 0];
    }
  }

  lemma {:induction false} PackedBytes(ts: seq<Token>)
    requires ValidSubBlock(Packed(ts))
    ensures SubBlockBytes(Packed(ts)) == Le16(0xb000 + |Pack(ts, 0)| - 1) + Pack(ts, 0)
  {
    hide Pack, Fits;
  }

  /** A block of zeros is recognised, unless it has exactly three bytes. */
  lemma {:induction false} ZeroBlockLooksZero(n: nat)
    requires 1 <= n <= SB_SIZE && ValidSubBlock(Packed(ZeroTokens(n)))
    ensures |SubBlockBytes(Packed(ZeroTokens(n)))| == (if n <= 3 then 3 + n else 6)
    ensures LooksZero(SubBlockBytes(Packed(ZeroTokens(n)))) <==> n != 3
  {
    hide Fits, Body, Tag, Pack, ZeroTokens, LooksZero, SubBlockBytes;
    var ts := ZeroTokens(n);
    ZeroPack(n);
    PackedBytes(ts);
    LooksZeroBytes(Pack(ts, 0), n);
  }

  lemma {:induction false} LooksZeroBytes(p: seq<byte>, n: nat)
    requires 1 <= n && if n <= 3 then p == Zeros(n + 1) else |p| == 4 && p[..2] == [2, 0]
    ensures LooksZero(Le16(0xb000 + |p| - 1) + p) <==> n != 3
  {
    var bs := Le16(0xb000 + |p| - 1) + p;
    assert bs[2] == p[0] && bs[3] == p[1];
    assert n > 3 ==> p[..2][0] == 2 && p[..2][1] == 0;
  }

  lemma {:induction false} ZeroPack(n: nat)
    requires 1 <= n <= SB_SIZE && ValidSubBlock(Packed(ZeroTokens(n)))
    ensures var p := Pack(ZeroTokens(n), 0);
            if n <= 3 then p == Zeros(n + 1) else |p| == 4 && p[..2] == [2, 0]
  {
    hide Pack, Tag, Body, Fits, Expand;
    var ts := ZeroTokens(n);
    OneGroup(ts);
    if n <= 3 {
      LiteralZeros(ts, n);
    } else {
      TwoTokens(ts);
    }
  }

  lemma {:induction false} OneGroup(ts: seq<Token>)
    requires 1 <= |ts| < 8 && Fits(ts, |ts|)
    ensures Tag(ts, 0, |ts|) < 256 && Pack(ts, 0) == [Tag(ts, 0, |ts|)] + Body(ts, 0, |ts|)
  {
    hide Fits, Body, Tag;
    TagIsByte(ts, 0, |ts|);
    PackEnd(ts);
    assert GroupEnd(ts, 0) == |ts|;
  }

  lemma {:induction false} LiteralZeros(ts: seq<Token>, k: nat)
    requires k <= |ts| && Fits(ts, k) && forall i :: 0 <= i < |ts| ==> ts[i] == Literal(0)
    ensures Body(ts, 0, k) == Zeros(k) && Tag(ts, 0, k) == 0
  {
    if k > 0 {
      LiteralZeros(ts, k - 1);
    }
    NoTag(ts, 0, k);
  }

  lemma {:induction false} NoTag(ts: seq<Token>, a: nat, b: nat)
    requires a <= b <= |ts| && forall i :: 0 <= i < |ts| ==> ts[i] == Literal(0)
    ensures Tag(ts, a, b) == 0
    decreases b - a
  {
    if a < b {
      NoTag(ts, a + 1, b);
    }
  }

  // ---- packing sub-blocks ---------------------------------------------------------------------

  lemma {:induction false} StreamSnoc(sbs: seq<SubBlock>, sb: SubBlock, k: nat)
    requires ValidStream(sbs) && ValidSubBlock(sb) && k <= |sbs|
    ensures ValidStream(sbs + [sb])
    ensures StreamBytes(sbs + [sb], k) == StreamBytes(sbs, k) + SubBlockBytes(sb)
    ensures StreamMeaning(sbs + [sb], k) == StreamMeaning(sbs, k) + Meaning(sb)
    decreases |sbs| - k
  {
    hide ValidSubBlock, SubBlockBytes, Meaning;
    var all := sbs + [sb];
    if k < |sbs| {
      StreamSnoc(sbs, sb, k + 1);
      assert all[k] == sbs[k];
    } else {
      assert all[k] == sb;
      assert StreamBytes(all, k + 1) == [] && StreamMeaning(all, k + 1) == [];
    }
  }

  /** `s` followed by zeros up to length `n`. */
  function PadTo(s: seq<byte>, n: nat): (r: seq<byte>)
    requires |s| <= n
    ensures |r| == n && s <= r
  {
    s + Zeros(n - |s|)
  }

  function Min(a: nat, b: nat): nat {
    if a < b then a else b
  }

  /** Bytes of data in the sub-block that starts at `p`. */
  function BlockLength(p: nat, insz: nat): (n: nat)
    requires p < insz
    ensures 1 <= n <= SB_SIZE && p + n == Min(p + SB_SIZE, insz)
  {
    if p + SB_SIZE < insz then SB_SIZE else insz - p
  }

  /** Size of the sub-blocks for the input from `p` on. */
  ghost function TotalSize(s: seq<byte>, p: nat): (n: nat)
    decreases |s| - p
  {
    if p >= |s| then 0 else BlockSize(s[p..p + BlockLength(p, |s|)]) + TotalSize(s, p + SB_SIZE)
  }

  /** Clusters needed for `n` bytes. */
  function ClustersFor(n: nat, clsz: nat): (r: nat)
    requires n > 0 && clsz > 0
  {
    (n - 1) / clsz + 1
  }

  lemma {:induction false} ClustersForWithin(n: nat, clsz: nat, m: nat)
    requires n > 0 && clsz > 0 && n <= m * clsz
    ensures n <= ClustersFor(n, clsz) * clsz && ClustersFor(n, clsz) <= m
  {
    var q := (n - 1) / clsz;
    assert n - 1 == clsz * q + (n - 1) % clsz;
    Multiples(clsz, m, q);
    assert (q + 1) * clsz == clsz * q + clsz;
  }

  lemma {:induction false} Multiples(a: nat, m: nat, q: nat)
    ensures m <= q ==> a * m <= a * q
  {
    if m <= q {
      assert a * q == a * m + a * (q - m);
    }
  }

  /** An upper bound for `n` bytes in `blocks` sub-blocks. */
  function WorstCase(n: nat, blocks: nat): nat {
    n + n / 8 + 3 * blocks
  }

  function Blocks(n: nat): nat {
    (n + SB_SIZE - 1) / SB_SIZE
  }

  lemma {:induction false} WorstCaseStep(compsz: nat, sz: nat, p: nat, blocks: nat, insz: nat)
    requires p == SB_SIZE * blocks < insz && compsz <= WorstCase(p, blocks)
    requires var n := BlockLength(p, insz); sz <= 2 + n + (n + 7) / 8
    ensures compsz + sz <= WorstCase(Min(p + SB_SIZE, insz), blocks + 1) <= WorstCase(insz, Blocks(insz))
  {
    var n := BlockLength(p, insz);
    assert p / 8 == 512 * blocks;
    assert (p + n) / 8 == 512 * blocks + n / 8;
    BlocksAtLeast(p, blocks, insz);
  }

  lemma {:induction false} BlocksAtLeast(p: nat, blocks: nat, insz: nat)
    requires p == SB_SIZE * blocks < insz
    ensures blocks + 1 <= Blocks(insz)
  {
  }

  /** The output buffer holds the sub-blocks `sbs` of the input before `p`. */
  ghost predicate Packing(inbuf: seq<byte>, out: seq<byte>, compsz: nat, p: nat, sbs: seq<SubBlock>) {
    && ValidStream(sbs) && p == SB_SIZE * |sbs| && compsz <= |out|
    && compsz <= (SB_SIZE + 2) * |sbs|
    && out[..compsz] == StreamBytes(sbs, 0)
    && p < |inbuf| + SB_SIZE && StreamMeaning(sbs, 0) == PadTo(inbuf[..Min(p, |inbuf|)], p)
  }

  lemma {:induction false} PackingStep(inbuf: seq<byte>, out: seq<byte>, compsz: nat, p: nat, sbs: seq<SubBlock>,
                                       out': seq<byte>, sz: nat, sb: SubBlock)
    requires Packing(inbuf, out, compsz, p, sbs) && p < |inbuf| && ValidSubBlock(sb)
    requires Meaning(sb) == Padded(inbuf[p..p + BlockLength(p, |inbuf|)])
    requires compsz + sz <= |out'| && sz <= SB_SIZE + 2
    requires out'[..compsz] == out[..compsz] && out'[compsz..compsz + sz] == SubBlockBytes(sb)
    ensures Packing(inbuf, out', compsz + sz, p + SB_SIZE, sbs + [sb])
  {
    hide ValidSubBlock, SubBlockBytes, Meaning, StreamBytes, StreamMeaning;
    StreamSnoc(sbs, sb, 0);
    assert out'[..compsz + sz] == out'[..compsz] + out'[compsz..compsz + sz];
    var n := BlockLength(p, |inbuf|);
    assert inbuf[..p] + inbuf[p..p + n] == inbuf[..p + n];
    assert PadTo(inbuf[..p], p) == inbuf[..p];
    assert inbuf[..p] + Padded(inbuf[p..p + n]) == PadTo(inbuf[..p + n], p + SB_SIZE);
  }

  /** What is known about zeroes after the blocks before `p`: the flag is right, except that a last
      block of exactly three zeros is not recognised. */
  ghost predicate ZeroFlag(inbuf: seq<byte>, p: nat, allzeroes: bool, compsz: nat, blocks: nat) {
    && (allzeroes ==> AllZero(inbuf[..Min(p, |inbuf|)]))
    && (AllZero(inbuf) ==>
          compsz <= 6 * blocks && (allzeroes <==> (p < |inbuf| || |inbuf| % SB_SIZE != 3)))
  }

  lemma {:induction false} ZeroFlagStep(inbuf: seq<byte>, p: nat, allzeroes: bool, compsz: nat, blocks: nat,
                                        sb: SubBlock)
    requires ZeroFlag(inbuf, p, allzeroes, compsz, blocks) && p == SB_SIZE * blocks < |inbuf| && ValidSubBlock(sb)
    requires Meaning(sb) == Padded(inbuf[p..p + BlockLength(p, |inbuf|)])
    requires AllZero(inbuf[p..p + BlockLength(p, |inbuf|)]) ==> sb == Packed(ZeroTokens(BlockLength(p, |inbuf|)))
    ensures ZeroFlag(inbuf, p + SB_SIZE, allzeroes
                     && LooksZero(SubBlockBytes(sb)), compsz + |SubBlockBytes(sb)|, blocks + 1)
    ensures AllZero(inbuf) ==> |SubBlockBytes(sb)| <= 6
  {
    hide ValidSubBlock, SubBlockBytes, Meaning, LooksZero, ZeroTokens;
    var n := BlockLength(p, |inbuf|);
    var blk := inbuf[p..p + n];
    if LooksZero(SubBlockBytes(sb)) {
      LooksZeroSound(sb);
      forall k | 0 <= k < |blk|
        ensures blk[k] == 0
      {
        assert Padded(blk)[k] == blk[k];
      }
      assert inbuf[..p + n] == inbuf[..p] + blk;
    }
    if AllZero(inbuf) {
      assert AllZero(blk);
      ZeroBlockLooksZero(n);
      LastBlockLength(p, blocks, |inbuf|);
    }
  }

  lemma {:induction false} LastBlockLength(p: nat, blocks: nat, insz: nat)
    requires p == SB_SIZE * blocks < insz
    ensures var n := BlockLength(p, insz);
            if p + SB_SIZE < insz then n == SB_SIZE else n % SB_SIZE == insz % SB_SIZE
  {
  }

  /** The input, zero-padded to whole sub-blocks. */
  function PaddedInput(inbuf: seq<byte>): (r: seq<byte>)
    ensures inbuf <= r
  {
    PadTo(inbuf, SB_SIZE * Blocks(|inbuf|))
  }

  /** Whatever follows `data` on disk, and however large the destination, `data` decodes to `s`. */
  ghost predicate DecodesTo(data: seq<byte>, s: seq<byte>) {
    forall rest: seq<byte>, n: nat :: n >= |s| ==> Decode(data + rest, 0, [], n) == Done(s)
  }

  lemma {:induction false} PackedDecodes(inbuf: seq<byte>, out: seq<byte>, compsz: nat, p: nat, sbs: seq<SubBlock>,
                                         data: seq<byte>)
    requires Packing(inbuf, out, compsz, p, sbs) && |inbuf| <= p
    requires compsz + 2 <= |data| && data[..compsz] == out[..compsz] && data[compsz] == data[compsz + 1] == 0
    ensures DecodesTo(data, PaddedInput(inbuf))
  {
    hide ValidSubBlock, Decode, StreamBytes, StreamMeaning;
    assert p == SB_SIZE * Blocks(|inbuf|);
    assert inbuf[..|inbuf|] == inbuf;
    var stream := StreamBytes(sbs, 0) + [0, 0];
    forall rest: seq<byte>, n: nat | n >= |PaddedInput(inbuf)|
      ensures Decode(data + rest, 0, [], n) == Done(PaddedInput(inbuf))
    {
      forall i | 0 <= i < |stream|
        ensures (data + rest)[i] == stream[i]
      {
        if i < compsz {
          assert data[..compsz][i] == data[i];
        }
      }
      assert Holds(data + rest, 0, stream);
      StreamReadBack(data + rest, sbs, n);
    }
  }

  /** Compress the sub-block at `p` behind what is packed already. */
  method PackOne(inbuf: seq<byte>, cbs: nat, outbuf: array<byte>, compsz: nat, ghost allzeroes: bool, p: nat,
                 ghost sbs: seq<SubBlock>)
    returns (sz: nat, ghost sb: SubBlock)
    requires cbs % SB_SIZE == 0 && |inbuf| <= cbs && outbuf.Length == cbs + 2 * (cbs / SB_SIZE) + 2
    requires Packing(inbuf, outbuf[..], compsz, p, sbs) && ZeroFlag(inbuf, p, allzeroes, compsz, |sbs|)
    requires p < |inbuf| && compsz <= WorstCase(Min(p, |inbuf|), |sbs|)
    modifies outbuf
    ensures compsz + sz <= outbuf.Length && 4 <= sz && sz + TotalSize(inbuf, p + SB_SIZE) == TotalSize(inbuf, p)
    ensures Packing(inbuf, outbuf[..], compsz, p, sbs)
            && Packing(inbuf, outbuf[..], compsz + sz, p + SB_SIZE, sbs + [sb])
    ensures ZeroFlag(inbuf, p + SB_SIZE, allzeroes && LooksZero(outbuf[compsz..compsz + sz]), compsz + sz, |sbs| + 1)
    ensures compsz + sz <= WorstCase(Min(p + SB_SIZE, |inbuf|), |sbs| + 1) <= WorstCase(|inbuf|, Blocks(|inbuf|))
    ensures AllZero(inbuf) ==> sz <= 6 && compsz <= 6 * |sbs|
  {
    hide ValidSubBlock, StreamBytes, StreamMeaning, SubBlockBytes, Meaning, LooksZero, ZeroTokens, AllZero, WorstCase,
         Blocks, BlockSize, AllChosen;
    ghost var out := outbuf[..];
    var bsz := BlockLength(p, |inbuf|);
    sz, sb := CompressBlock(inbuf[p..p + bsz], outbuf, compsz);
    ZeroFlagStep(inbuf, p, allzeroes, compsz, |sbs|, sb);
    WorstCaseStep(compsz, sz, p, |sbs|, |inbuf|);
    assert outbuf[..][..compsz] == out[..compsz];
    PackingStep(inbuf, out, compsz, p, sbs, outbuf[..], sz, sb);
  }

  /** Compress one sub-block after another; stop when the whole block would be needed. */
  method PackBlocks(inbuf: seq<byte>, cbs: nat, clsz: nat, outbuf: array<byte>)
    returns (fail: bool, compsz: nat, allzeroes: bool, ghost p: nat, ghost sbs: seq<SubBlock>)
    requires cbs % SB_SIZE == 0 && |inbuf| <= cbs && outbuf.Length == cbs + 2 * (cbs / SB_SIZE) + 2
    modifies outbuf
    ensures Packing(inbuf, outbuf[..], compsz, p, sbs) && ZeroFlag(inbuf, p, allzeroes, compsz, |sbs|)
    ensures !fail ==> |inbuf| <= p && compsz + clsz + 2 <= cbs + (if inbuf == [] then clsz + 2 else 0)
    ensures fail ==> !AllZero(inbuf) || cbs < 2 * clsz
    ensures fail ==> WorstCase(|inbuf|, Blocks(|inbuf|)) + clsz + 2 > cbs
    // given up exactly when the sub-blocks would not save a cluster
    ensures fail <==> inbuf != [] && TotalSize(inbuf, 0) + clsz + 2 > cbs
    ensures !fail ==> compsz == TotalSize(inbuf, 0)
  {
    hide Packing, ZeroFlag, SubBlockBytes, LooksZero, AllZero, WorstCase, Blocks, TotalSize;
    NothingLeft(inbuf);
    fail, compsz, allzeroes, p, sbs := false, 0, true, 0, [];
    var pos := 0;
    StartPacking(inbuf, outbuf[..]);
    while pos < |inbuf| && !fail
      invariant pos == p == SB_SIZE * |sbs| && Packing(inbuf, outbuf[..], compsz, p, sbs)
                && ZeroFlag(inbuf, p, allzeroes, compsz, |sbs|)
      invariant !fail ==> if pos == 0 then compsz == 0 else compsz + clsz + 2 <= cbs
      invariant fail ==> !AllZero(inbuf) || cbs < 2 * clsz
      invariant compsz <= WorstCase(Min(p, |inbuf|), |sbs|)
      invariant fail ==> WorstCase(|inbuf|, Blocks(|inbuf|)) + clsz + 2 > cbs
      invariant if fail then inbuf != [] && TotalSize(inbuf, 0) + clsz + 2 > cbs
                else compsz + TotalSize(inbuf, pos) == TotalSize(inbuf, 0)
      decreases !fail, |inbuf| - pos
    {
      var sz;
      ghost var sb;
      sz, sb := PackOne(inbuf, cbs, outbuf, compsz, allzeroes, pos, sbs);
      if compsz + sz + clsz + 2 > cbs {
        fail := true;
      } else {
        if allzeroes {
          allzeroes := LooksZero(outbuf[compsz..compsz + sz]);
        }
        compsz := compsz + sz;
        sbs := sbs + [sb];
        pos := pos + SB_SIZE;
        p := pos;
      }
    }
  }

  lemma {:induction false} NothingLeft(inbuf: seq<byte>)
    ensures forall p: nat :: p >= |inbuf| ==> TotalSize(inbuf, p) == 0
  {
  }

  /** Add a null header and cut to whole clusters. */
  method Seal(outbuf: array<byte>, compsz: nat, clsz: nat, ghost m: nat) returns (count: nat, data: seq<byte>)
    requires clsz > 0 && compsz + 2 <= m * clsz <= outbuf.Length
    modifies outbuf
    ensures 0 < count <= m && |data| == count * clsz && compsz + 2 <= |data|
    ensures count == ClustersFor(compsz + 2, clsz)
    ensures data[..compsz] == old(outbuf[..])[..compsz] && data[compsz] == data[compsz + 1] == 0
  {
    ghost var out := outbuf[..];
    outbuf[compsz] := 0;
    outbuf[compsz + 1] := 0;
    count := ClustersFor(compsz + 2, clsz);
    ClustersForWithin(compsz + 2, clsz, m);
    Multiples(clsz, count, m);
    data := outbuf[..count * clsz];
    assert data[..compsz] == out[..compsz];
  }

  lemma {:induction false} StartPacking(inbuf: seq<byte>, out: seq<byte>)
    ensures Packing(inbuf, out, 0, 0, []) && ZeroFlag(inbuf, 0, true, 0, 0)
  {
  }

  /** Compress and pack the input; `cbc` clusters of `clsz` bytes make a compression block.

      The data to write decode to the input, whatever follows them on disk and however large the
      destination; they leave at least one cluster unused; and nothing is written exactly when the
      input is all zero, its last sub-block not being three bytes long. */
  method CompSet(inbuf: seq<byte>, cbc: nat, clsz: nat) returns (plan: Plan)
    requires clsz > 0 && cbc >= 2 && cbc * clsz % SB_SIZE == 0 && |inbuf| <= cbc * clsz
    ensures plan.Clusters? ==> 0 < plan.count < cbc && |plan.data| == plan.count * clsz
    ensures plan.Clusters? ==> DecodesTo(plan.data, PaddedInput(inbuf))
    ensures plan.Sparse? <==> AllZero(inbuf) && |inbuf| % SB_SIZE != 3
    ensures plan.Incompressible? ==> WorstCase(|inbuf|, Blocks(|inbuf|)) + clsz + 2 > cbc * clsz
    // the size of the tokens chosen decides, and tells how many clusters are written
    ensures plan.Incompressible? <==> inbuf != [] && TotalSize(inbuf, 0) + clsz + 2 > cbc * clsz
    ensures plan.Clusters? ==> plan.count == ClustersFor(TotalSize(inbuf, 0) + 2, clsz)
  {
    hide Packing, ZeroFlag, DecodesTo, PaddedInput, TotalSize;
    var cbs := cbc * clsz;
    var outbuf := new byte[cbs + 2 * (cbs / SB_SIZE) + 2];
    var fail, compsz, allzeroes;
    ghost var p, sbs;
    fail, compsz, allzeroes, p, sbs := PackBlocks(inbuf, cbs, clsz, outbuf);
    Outcome(inbuf, cbc, clsz, outbuf[..], fail, compsz, allzeroes, p, sbs);
    if !fail && !allzeroes {
      ghost var out := outbuf[..];
      var count, data := Seal(outbuf, compsz, clsz, cbc - 1);
      PackedDecodes(inbuf, out, compsz, p, sbs, data);
      plan := Clusters(count, data);
    } else {
      plan := if fail then Incompressible else Sparse;
    }
  }

  lemma {:induction false} Outcome(inbuf: seq<byte>, cbc: nat, clsz: nat, out: seq<byte>, fail: bool, compsz: nat,
                                   allzeroes: bool, p: nat, sbs: seq<SubBlock>)
    requires clsz > 0 && cbc >= 2
    requires Packing(inbuf, out, compsz, p, sbs) && ZeroFlag(inbuf, p, allzeroes, compsz, |sbs|)
    requires !fail ==> |inbuf| <= p && compsz + clsz + 2 <= cbc * clsz + (if inbuf == [] then clsz + 2 else 0)
    requires fail ==> !AllZero(inbuf) || cbc * clsz < 2 * clsz
    requires |out| == cbc * clsz + 2 * (cbc * clsz / SB_SIZE) + 2
    ensures !fail && allzeroes <==> AllZero(inbuf) && |inbuf| % SB_SIZE != 3
    ensures !fail && !allzeroes ==> compsz + 2 <= (cbc - 1) * clsz <= |out|
  {
    Multiples(clsz, 2, cbc);
    assert (cbc - 1) * clsz == cbc * clsz - clsz;
    assert inbuf[..|inbuf|] == inbuf;
    assert Min(p, |inbuf|) == |inbuf| || fail;
  }

  /** One block there and back: what the compressor writes for a block, followed by a null header, is
      decompressed to the block, zero-padded to full size. */
  method BlockThereAndBack(inbuf: seq<byte>) returns (status: Status, dest: array<byte>)
    requires 1 <= |inbuf| <= SB_SIZE
    ensures status == Status.Ok && dest[..] == Padded(inbuf)
  {
    hide Decode, Meaning, SubBlockBytes, ValidSubBlock, Padded, Holds;
    var buf := new byte[4102];
    var n;
    ghost var sb;
    n, sb := CompressBlock(inbuf, buf, 0);
    buf[n], buf[n + 1] := 0, 0;
    assert buf[..n] == SubBlockBytes(sb);
    dest := new byte[SB_SIZE];
    var cb := buf[..n + 2];
    assert cb == SubBlockBytes(sb) + [0, 0];
    OneReadBack(cb, sb);
    status := Decompress(dest, cb);
    PaddedLength(inbuf);
  }

  lemma {:induction false} PaddedLength(inbuf: seq<byte>)
    requires |inbuf| <= SB_SIZE
    ensures |Padded(inbuf)| == SB_SIZE
  {
  }

  lemma {:induction false} OneReadBack(cb: seq<byte>, sb: SubBlock)
    requires ValidSubBlock(sb) && cb == SubBlockBytes(sb) + [0, 0]
    ensures Decode(cb, 0, [], SB_SIZE) == Done(Meaning(sb))
  {
    hide Decode, Meaning, SubBlockBytes, ValidSubBlock;
    var sbs := [sb];
    assert StreamBytes(sbs, 1) == [] && StreamMeaning(sbs, 1) == [];
    assert StreamBytes(sbs, 0) == SubBlockBytes(sb) && StreamMeaning(sbs, 0) == Meaning(sb);
    StreamReadBack(cb, sbs, SB_SIZE);
  }
}

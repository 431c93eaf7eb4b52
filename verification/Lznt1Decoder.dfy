/** `ntfs_decompress`: the sub-block decoder, its value-level specification for every byte stream,
    and its result on well-formed streams. */
module Lznt1Decoder {
  import opened Lznt1Format

  /** `Overflow` is the source's EOVERFLOW.  `WildWrite` marks a literal stored past the end of the
      destination buffer, which the source does not guard against. */
  datatype Status = Ok | Overflow | WildWrite

  /** The bytes of all sub-blocks, or those of the sub-blocks before the failure. */
  datatype Outcome = Done(out: seq<byte>) | Failed(why: Status, out: seq<byte>)

  function ByteAt(cb: seq<byte>, i: nat): byte {
    if i < |cb| then cb[i] else 0
  }

  function Word(cb: seq<byte>, i: nat): (w: nat)
    ensures w < 65536
  {
    var lo: int := ByteAt(cb, i);
    var hi: int := ByteAt(cb, i + 1);
    lo + 256 * hi
  }

  /** Decoding one token: the rest of the state is (source position, bytes of this sub-block). */
  datatype Step = At(pos: nat, out: seq<byte>) | Fail(why: Status)

  /** One token of a sub-block; `room` is what is left in the destination buffer from the start
      of the sub-block, at least 4096. */
  function TokenStep(cb: seq<byte>, pos: nat, phrase: bool, out: seq<byte>, room: nat): (s: Step)
    requires |out| <= SB_SIZE <= room
    ensures s.At? ==> pos < s.pos <= pos + 2 && |out| < |s.out| <= SB_SIZE + 1 && |s.out| <= room
    ensures s.Fail? ==> !s.why.Ok?
  {
    if !phrase then
      if |out| >= room then Fail(WildWrite) else At(pos + 1, out + [ByteAt(cb, pos)])
    else if out == [] then Fail(Overflow)
    else
      var pt := Word(cb, pos);
      var back := Shr(pt, LenBits(|out|)) + 1;
      var len := Low(pt, LenBits(|out|)) + 3;
      if back > |out| || |out| + len > SB_SIZE then Fail(Overflow)
      else At(pos + 2, CopyBack(out, back, len))
  }

  /** Tokens number `k` to 7 of a tag whose remaining bits are `tag`. */
  function TagSteps(cb: seq<byte>, pos: nat, end: nat, tag: nat, k: nat, out: seq<byte>, room: nat): (s: Step)
    requires k <= 8 && |out| <= SB_SIZE + 1 && |out| <= room && SB_SIZE <= room
    ensures s.At? ==> pos <= s.pos && |out| <= |s.out| <= SB_SIZE + 1 && |s.out| <= room
    ensures s.Fail? ==> !s.why.Ok?
    decreases 8 - k
  {
    if k == 8 || pos >= end || |out| > SB_SIZE then At(pos, out)
    else
      var s := TokenStep(cb, pos, tag % 2 == 1, out, room);
      if s.Fail? then s else TagSteps(cb, s.pos, end, tag / 2, k + 1, s.out, room)
  }

  /** The tagged groups of one compressed sub-block, up to `end`; the result is zero-padded. */
  function Groups(cb: seq<byte>, pos: nat, end: nat, out: seq<byte>, room: nat): (s: Step)
    requires |out| <= SB_SIZE + 1 && |out| <= room && SB_SIZE <= room
    ensures s.At? ==> s.pos == end && SB_SIZE <= |s.out| <= SB_SIZE + 1 && |s.out| <= room
    ensures s.Fail? ==> !s.why.Ok?
    decreases if pos <= end then end - pos else 0
  {
    if pos == end then At(end, if |out| < SB_SIZE then Padded(out) else out)
    else if pos > end || |out| > SB_SIZE then Fail(Overflow)
    else
      var s := TagSteps(cb, pos + 1, end, ByteAt(cb, pos), 0, out, room);
      if s.Fail? then s else Groups(cb, s.pos, end, s.out, room)
  }

  /** The whole compression block: sub-blocks until the source, a zero header or the destination
      ends; `out` holds what has been decoded. */
  function Decode(cb: seq<byte>, pos: nat, out: seq<byte>, destSize: nat): (r: Outcome)
    requires pos <= |cb| && |out| <= destSize
    ensures out <= r.out && |r.out| <= destSize && (r.Failed? ==> !r.why.Ok?)
    decreases |cb| - pos
  {
    if pos == |cb| || Word(cb, pos) == 0 || |out| == destSize then Done(out)
    else if |out| + SB_SIZE > destSize || pos + 6 > |cb| then Failed(Overflow, out)
    else
      var end := pos + Word(cb, pos) % 4096 + 3;
      if end > |cb| then Failed(Overflow, out)
      else if Word(cb, pos) < 0x8000 then
        if end - (pos + 2) != SB_SIZE then Failed(Overflow, out)
        else Decode(cb, end, out + cb[pos + 2..end], destSize)
      else
        var s := Groups(cb, pos + 2, end, [], destSize - |out|);
        if s.Fail? then Failed(s.why, out) else Decode(cb, end, out + s.out, destSize)
  }

  // ---- well-formed streams --------------------------------------------------------------------

  /** `cb` holds `part` at position `pos`. */
  predicate Holds(cb: seq<byte>, pos: nat, part: seq<byte>) {
    pos + |part| <= |cb| && forall i :: 0 <= i < |part| ==> cb[pos + i] == part[i]
  }

  lemma {:induction false} HoldsSplit(cb: seq<byte>, pos: nat, a: seq<byte>, b: seq<byte>)
    requires Holds(cb, pos, a + b)
    ensures Holds(cb, pos, a) && Holds(cb, pos + |a|, b)
  {
    assert forall i :: 0 <= i < |a| ==> (a + b)[i] == a[i];
    forall i | 0 <= i < |b|
      ensures cb[pos + |a| + i] == b[i]
    {
      assert (a + b)[|a| + i] == b[i];
      assert cb[pos + (|a| + i)] == b[i];
    }
  }

  lemma {:induction false} HoldsByte(cb: seq<byte>, pos: nat, part: seq<byte>, i: nat)
    requires Holds(cb, pos, part) && i < |part|
    ensures ByteAt(cb, pos + i) == part[i]
  {
  }

  /** A valid token, read back from its bytes, extends the output by its meaning. */
  lemma {:induction false} TokenReadBack(cb: seq<byte>, pos: nat, t: Token, out: seq<byte>, room: nat)
    requires TokenFits(t, |out|) && room >= SB_SIZE
    requires Holds(cb, pos, TokenBytes(t, |out|))
    ensures TokenStep(cb, pos, t.Phrase?, out, room) == At(pos + |TokenBytes(t, |out|)|, Apply(out, t))
  {
    hide Holds, CopyBack, Shr, Low, LenBits, Pow2;
    var bs := TokenBytes(t, |out|);
    HoldsByte(cb, pos, bs, 0);
    if t.Phrase? {
      HoldsByte(cb, pos, bs, 1);
      assert Word(cb, pos) == PhraseWord(t.back, t.len, |out|);
    }
  }

  lemma {:induction false} BodyCons(ts: seq<Token>, a: nat, b: nat)
    requires a < b <= |ts| && Fits(ts, b)
    ensures Fits(ts, a) && TokenFits(ts[a], |Expand(ts, a)|)
    ensures Body(ts, a, b) == TokenBytes(ts[a], |Expand(ts, a)|) + Body(ts, a + 1, b)
    decreases b
  {
    if a + 1 < b {
      BodyCons(ts, a, b - 1);
    }
  }

  lemma {:induction false} BodyEmpty(ts: seq<Token>, m: nat)
    requires m <= |ts| && Fits(ts, m)
    ensures Body(ts, m, m) == []
  {
  }

  lemma {:induction false} ExpandStep(ts: seq<Token>, i: nat)
    requires i < |ts| && Fits(ts, i + 1)
    ensures Fits(ts, i) && TokenFits(ts[i], |Expand(ts, i)|) && Expand(ts, i + 1) == Apply(Expand(ts, i), ts[i])
  {
  }

  lemma {:induction false} TagStepsUnfold(cb: seq<byte>, pos: nat, end: nat, tag: nat, k: nat, out: seq<byte>,
                                          room: nat)
    requires k <= 8 && |out| <= SB_SIZE + 1 && |out| <= room && SB_SIZE <= room
    ensures k == 8 || pos >= end || |out| > SB_SIZE ==> TagSteps(cb, pos, end, tag, k, out, room) == At(pos, out)
    ensures k < 8 && pos < end && |out| <= SB_SIZE ==>
              var s := TokenStep(cb, pos, tag % 2 == 1, out, room);
              TagSteps(cb, pos, end, tag, k, out, room) == if s.Fail? then s
                  else TagSteps(cb, s.pos, end, tag / 2, k + 1, s.out, room)
  {
    hide TokenStep;
  }

  lemma {:induction false} TagCons(ts: seq<Token>, i: nat, m: nat)
    requires i <= m <= |ts|
    ensures i < m ==> (Tag(ts, i, m) % 2 == 1 <==> ts[i].Phrase?) && Tag(ts, i, m) / 2 == Tag(ts, i + 1, m)
  {
    if i < m {
      LowBit(if ts[i].Phrase? then 1 else 0, Tag(ts, i + 1, m));
    }
  }

  lemma {:induction false} LowBit(bit: nat, rest: nat)
    requires bit <= 1
    ensures (bit + 2 * rest) % 2 == bit && (bit + 2 * rest) / 2 == rest
  {
  }

  /** A tag's tokens decode to the group it was built from. */
  lemma {:induction false} GroupReadBack(cb: seq<byte>, pos: nat, end: nat, ts: seq<Token>, i: nat, m: nat, n: nat,
                                         room: nat)
    requires i <= m <= |ts| && Fits(ts, m) && n + (m - i) <= 8 && room >= SB_SIZE
    requires Holds(cb, pos, Body(ts, i, m)) && pos + |Body(ts, i, m)| <= end
    requires n + (m - i) < 8 ==> pos + |Body(ts, i, m)| == end
    ensures Fits(ts, i)
    ensures TagSteps(cb, pos, end, Tag(ts, i, m), n, Expand(ts, i), room)
         == At(pos + |Body(ts, i, m)|, Expand(ts, m))
    decreases m - i
  {
    hide TagSteps, Tag, TokenStep, TokenBytes, Apply, TokenFits, Holds, Body, Fits, Expand;
    FitsPrefix(ts, i, m);
    BodyEmpty(ts, m);
    TagCons(ts, i, m);
    TagStepsUnfold(cb, pos, end, Tag(ts, i, m), n, Expand(ts, i), room);
    if i < m {
      BodyCons(ts, i, m);
      FitsPrefix(ts, i + 1, m);
      var out := Expand(ts, i);
      var bs := TokenBytes(ts[i], |out|);
      HoldsSplit(cb, pos, bs, Body(ts, i + 1, m));
      TokenReadBack(cb, pos, ts[i], out, room);
      ExpandStep(ts, i);
      GroupReadBack(cb, pos + |bs|, end, ts, i + 1, m, n + 1, room);
    }
  }

  /** Every packed sub-block decodes to its expansion, zero-padded. */
  lemma {:induction false} PackReadBack(cb: seq<byte>, pos: nat, ts: seq<Token>, k: nat, room: nat)
    requires k <= |ts| && Fits(ts, |ts|) && room >= SB_SIZE && Holds(cb, pos, Pack(ts, k))
    ensures Fits(ts, k)
    ensures Groups(cb, pos, pos + |Pack(ts, k)|, Expand(ts, k), room)
         == At(pos + |Pack(ts, k)|, Padded(Expand(ts, |ts|)))
    decreases |ts| - k
  {
    hide TagSteps, TokenStep, Body, Tag, Expand, Fits;
    FitsPrefix(ts, k, |ts|);
    if k < |ts| {
      var m := GroupEnd(ts, k);
      var tag := Tag(ts, k, m);
      TagIsByte(ts, k, m);
      FitsPrefix(ts, m, |ts|);
      var body := Body(ts, k, m);
      var rest := Pack(ts, m);
      assert Pack(ts, k) == [tag] + (body + rest);
      HoldsSplit(cb, pos, [tag], body + rest);
      HoldsSplit(cb, pos + 1, body, rest);
      assert ByteAt(cb, pos) == tag by { assert cb[pos + 0] == [tag][0]; }
      GroupReadBack(cb, pos + 1, pos + |Pack(ts, k)|, ts, k, m, 0, room);
      PackReadBack(cb, pos + 1 + |body|, ts, m, room);
    }
  }

  // ---- streams of sub-blocks ------------------------------------------------------------------

  predicate ValidStream(sbs: seq<SubBlock>) {
    forall i :: 0 <= i < |sbs| ==> ValidSubBlock(sbs[i])
  }

  /** The bytes of sub-blocks `k` and later, in order. */
  function StreamBytes(sbs: seq<SubBlock>, k: nat): (r: seq<byte>)
    requires ValidStream(sbs) && k <= |sbs|
    decreases |sbs| - k
  {
    if k == |sbs| then [] else SubBlockBytes(sbs[k]) + StreamBytes(sbs, k + 1)
  }

  /** What sub-blocks `k` and later decode to. */
  function StreamMeaning(sbs: seq<SubBlock>, k: nat): (r: seq<byte>)
    requires ValidStream(sbs) && k <= |sbs|
    ensures |r| == SB_SIZE * (|sbs| - k)
    decreases |sbs| - k
  {
    if k == |sbs| then [] else Meaning(sbs[k]) + StreamMeaning(sbs, k + 1)
  }

  function Header(sb: SubBlock): (h: nat)
    requires ValidSubBlock(sb)
    ensures 0 < h < 65536
  {
    if sb.Raw? then 0x3fff else 0xb000 + |Pack(sb.ts, 0)| - 1
  }

  lemma {:induction false} HeaderReadBack(cb: seq<byte>, pos: nat, sb: SubBlock)
    requires ValidSubBlock(sb) && Holds(cb, pos, SubBlockBytes(sb))
    ensures Word(cb, pos) == Header(sb)
    ensures sb.Packed? ==> Holds(cb, pos + 2, Pack(sb.ts, 0))
    ensures sb.Raw? ==> pos + 2 + SB_SIZE <= |cb| && cb[pos + 2..pos + 2 + SB_SIZE] == sb.data
  {
    var bs := SubBlockBytes(sb);
    assert cb[pos + 0] == bs[0] && cb[pos + 1] == bs[1];
    HoldsSplit(cb, pos, Le16(Header(sb)), if sb.Raw? then sb.data else Pack(sb.ts, 0));
  }

  lemma {:induction false} PackedReadBack(cb: seq<byte>, pos: nat, sb: SubBlock, room: nat)
    requires ValidSubBlock(sb) && sb.Packed? && room >= SB_SIZE
    requires Holds(cb, pos + 2, Pack(sb.ts, 0))
    ensures Groups(cb, pos + 2, pos + |SubBlockBytes(sb)|, [], room) == At(pos + |SubBlockBytes(sb)|, Meaning(sb))
  {
    hide Groups, Pack, Holds;
    PackReadBack(cb, pos + 2, sb.ts, 0, room);
  }

  /** One sub-block of which, with what follows, six bytes are there. */
  lemma {:induction false} SubBlockReadBack(cb: seq<byte>, pos: nat, sb: SubBlock, out: seq<byte>, destSize: nat)
    requires ValidSubBlock(sb) && Holds(cb, pos, SubBlockBytes(sb))
    requires pos + 6 <= |cb| && |out| + SB_SIZE <= destSize
    ensures Decode(cb, pos, out, destSize)
         == Decode(cb, pos + |SubBlockBytes(sb)|, out + Meaning(sb), destSize)
  {
    hide Groups, Pack, Holds, Word, Fits, Expand, Padded;
    HeaderReadBack(cb, pos, sb);
    if sb.Packed? {
      PackedReadBack(cb, pos, sb, destSize - |out|);
    }
  }

  lemma {:induction false} NullHeader(cb: seq<byte>, pos: nat)
    requires Holds(cb, pos, [0, 0])
    ensures Word(cb, pos) == 0
  {
    HoldsByte(cb, pos, [0, 0], 0);
    HoldsByte(cb, pos, [0, 0], 1);
  }

  /** Decoding stops: the source ends, a null header follows, or the destination is full. */
  predicate Stops(cb: seq<byte>, pos: nat, n: nat, destSize: nat) {
    pos == |cb| || Word(cb, pos) == 0 || n == destSize
  }

  /** The last sub-block is not so near the end of the source that it is refused. */
  predicate Roomy(cb: seq<byte>, pos: nat, sbs: seq<SubBlock>, k: nat)
    requires ValidStream(sbs) && k < |sbs|
  {
    pos + |StreamBytes(sbs, k)| - |SubBlockBytes(sbs[|sbs| - 1])| + 6 <= |cb|
  }

  /** What a well-formed stream decodes to, however it ends: a last sub-block of less than six bytes right at
      the end of the source is refused, all others are decoded. */
  lemma {:induction false} StreamOutcome(cb: seq<byte>, pos: nat, sbs: seq<SubBlock>, k: nat, out: seq<byte>,
                                         destSize: nat)
    requires ValidStream(sbs) && k <= |sbs| && |out| + (|sbs| - k) * SB_SIZE <= destSize
    requires Holds(cb, pos, StreamBytes(sbs, k))
    requires Stops(cb, pos + |StreamBytes(sbs, k)|, |out| + (|sbs| - k) * SB_SIZE, destSize)
    ensures pos <= |cb|
    ensures Decode(cb, pos, out, destSize)
         == if k == |sbs| || Roomy(cb, pos, sbs, k) then Done(out + StreamMeaning(sbs, k))
            else Failed(Overflow, out + StreamMeaning(sbs, k)[..(|sbs| - k - 1) * SB_SIZE])
    decreases |sbs| - k
  {
    hide Groups, SubBlockBytes, Meaning, ValidSubBlock, Decode, Holds, Word;
    HoldsLength(cb, pos, StreamBytes(sbs, k));
    if k == |sbs| {
      NoMore(cb, pos, out, destSize);
      assert out + StreamMeaning(sbs, k) == out;
    } else {
      var bs := SubBlockBytes(sbs[k]);
      var rest := StreamBytes(sbs, k + 1);
      HoldsSplit(cb, pos, bs, rest);
      LastSize(sbs, k);
      if pos + 6 > |cb| {
        TooNear(cb, pos, sbs[k], out, destSize);
        assert out + StreamMeaning(sbs, k)[..0] == out;
      } else {
        SubBlockReadBack(cb, pos, sbs[k], out, destSize);
        StreamOutcome(cb, pos + |bs|, sbs, k + 1, out + Meaning(sbs[k]), destSize);
        JoinMeaning(out, Meaning(sbs[k]), StreamMeaning(sbs, k + 1),
                    if k + 1 < |sbs| then (|sbs| - k - 2) * SB_SIZE else 0);
      }
    }
  }

  lemma {:induction false} HoldsLength(cb: seq<byte>, pos: nat, part: seq<byte>)
    requires Holds(cb, pos, part)
    ensures pos + |part| <= |cb|
  {
  }

  lemma {:induction false} JoinMeaning(a: seq<byte>, b: seq<byte>, c: seq<byte>, n: nat)
    requires n <= |c|
    ensures a + b + c == a + (b + c) && a + b + c[..n] == a + (b + c)[..|b| + n]
  {
    assert (b + c)[..|b| + n] == b + c[..n];
  }

  /** Another sub-block behind this one takes four bytes or more. */
  lemma {:induction false} LastSize(sbs: seq<SubBlock>, k: nat)
    requires ValidStream(sbs) && k < |sbs|
    ensures |SubBlockBytes(sbs[k])| >= 4 && |StreamBytes(sbs, k + 1)| >= 4 * (|sbs| - k - 1)
    decreases |sbs| - k
  {
    hide SubBlockBytes, ValidSubBlock;
    if k + 1 < |sbs| {
      LastSize(sbs, k + 1);
    }
  }

  lemma {:induction false} NoMore(cb: seq<byte>, pos: nat, out: seq<byte>, destSize: nat)
    requires pos <= |cb| && |out| <= destSize && Stops(cb, pos, |out|, destSize)
    ensures Decode(cb, pos, out, destSize) == Done(out)
  {
  }

  lemma {:induction false} TooNear(cb: seq<byte>, pos: nat, sb: SubBlock, out: seq<byte>, destSize: nat)
    requires ValidSubBlock(sb) && Holds(cb, pos, SubBlockBytes(sb)) && pos + 6 > |cb| && |out| + SB_SIZE <= destSize
    ensures pos <= |cb| && Decode(cb, pos, out, destSize) == Failed(Overflow, out)
  {
    hide Groups, Pack, Holds, Word, Fits, Expand, Padded;
    HeaderReadBack(cb, pos, sb);
    HoldsLength(cb, pos, SubBlockBytes(sb));
  }

  /** A stream of well-formed sub-blocks with a null header behind decodes to its meaning. */
  lemma {:induction false} StreamReadBack(cb: seq<byte>, sbs: seq<SubBlock>, destSize: nat)
    requires ValidStream(sbs) && |sbs| * SB_SIZE <= destSize
    requires Holds(cb, 0, StreamBytes(sbs, 0) + [0, 0])
    ensures Decode(cb, 0, [], destSize) == Done(StreamMeaning(sbs, 0))
  {
    hide Decode, StreamBytes, StreamMeaning, Holds, Word, SubBlockBytes;
    var e := |StreamBytes(sbs, 0)|;
    HoldsSplit(cb, 0, StreamBytes(sbs, 0), [0, 0]);
    HoldsLength(cb, e, [0, 0]);
    NullHeader(cb, e);
    StreamOutcome(cb, 0, sbs, 0, [], destSize);
    assert [] + StreamMeaning(sbs, 0) == StreamMeaning(sbs, 0);
  }

  // ---- the imperative decoder -----------------------------------------------------------------

  /** As long as the copy does not overlap, it is a plain block copy. */
  lemma {:induction false} CopyBackFlat(out: seq<byte>, back: nat, len: nat)
    requires 1 <= back <= |out| && len <= back
    ensures CopyBack(out, back, len) == out + out[|out| - back..|out| - back + len]
    decreases len
  {
    if len > 0 {
      CopyBackFlat(out, back, len - 1);
      var a := |out| - back;
      var u := out[a..a + len];
      assert u[..len - 1] == out[a..a + len - 1];
      assert u == u[..len - 1] + [u[len - 1]];
    }
  }

  lemma {:induction false} CopyBackStep(out: seq<byte>, back: nat, n: nat)
    requires 1 <= back <= |out|
    ensures var pre := CopyBack(out, back, n); CopyBack(out, back, n + 1) == pre + [pre[|pre| - back]]
  {
  }

  /** The source's memcpy of `n` bytes from `back` bytes before `d`. */
  method CopyBlock(dest: array<byte>, start: nat, d: nat, back: nat, n: nat)
    requires start < d && n <= back <= d - start && 1 <= back && d + n <= dest.Length
    modifies dest
    ensures dest[start..d + n] == CopyBack(old(dest[start..d]), back, n)
    ensures forall k :: 0 <= k < dest.Length && !(d <= k < d + n) ==> dest[k] == old(dest[k])
  {
    ghost var out := dest[start..d];
    CopyBackFlat(out, back, n);
    hide CopyBack;
    forall k | 0 <= k < n {
      dest[d + k] := dest[d - back + k];
    }
    ghost var now, want := dest[start..d + n], out + out[|out| - back..|out| - back + n];
    forall k | 0 <= k < |now|
      ensures now[k] == want[k]
    {
      if k >= |out| {
        assert now[k] == dest[d + (k - |out|)] == out[|out| - back + (k - |out|)];
      }
    }
  }

  /** One byte of the rest. */
  method CopyByte(dest: array<byte>, start: nat, d: nat, back: nat)
    requires start < d < dest.Length && 1 <= back <= d - start
    modifies dest
    ensures var pre := old(dest[start..d]); dest[start..d + 1] == pre + [pre[|pre| - back]]
    ensures forall k :: 0 <= k < dest.Length && k != d ==> dest[k] == old(dest[k])
  {
    dest[d] := dest[d - back];
  }

  /** Copy a phrase inside the destination: first the part that does not overlap, then the rest
      byte by byte. */
  method CopyPhrase(dest: array<byte>, start: nat, d: nat, back: nat, length: nat)
    requires start < d && 1 <= back <= d - start && d + length <= dest.Length
    modifies dest
    ensures dest[start..d + length] == CopyBack(old(dest[start..d]), back, length)
    ensures forall k :: 0 <= k < dest.Length && !(d <= k < d + length) ==> dest[k] == old(dest[k])
  {
    hide CopyBack;
    ghost var out := dest[start..d];
    var n := if length <= back then length else back;
    CopyBlock(dest, start, d, back, n);
    while n < length
      invariant n <= length
      invariant dest[start..d + n] == CopyBack(out, back, n)
      invariant forall k :: 0 <= k < dest.Length && !(d <= k < d + n) ==> dest[k] == old(dest[k])
    {
      CopyBackStep(out, back, n);
      CopyByte(dest, start, d + n, back);
      n := n + 1;
    }
  }

  /** The decoder's state in the destination agrees with a specification step: `d` bytes of the
      buffer are in use, and the sub-block that began at `start` holds `step.out`. */
  ghost predicate Reached(dest: array<byte>, start: nat, d: nat, pos: nat, why: Status, step: Step)
    reads dest
  {
    if step.Fail? then why == step.why
    else why.Ok? && start <= d <= dest.Length && pos == step.pos && dest[start..d] == step.out
  }

  /** Store one token at `d`, in the sub-block that started at `start`. */
  method DecodeToken(dest: array<byte>, start: nat, d: nat, cb: seq<byte>, pos: nat, phrase: bool)
    returns (why: Status, d': nat, pos': nat)
    requires start <= d <= start + SB_SIZE <= dest.Length
    modifies dest
    ensures Reached(dest, start, d', pos', why, TokenStep(cb, pos, phrase, old(dest[start..d]), dest.Length - start))
    ensures forall k :: 0 <= k < start ==> dest[k] == old(dest[k])
  {
    hide CopyBack, Shr, Low, LenBits, Lg;
    ghost var out := dest[start..d];
    why, d', pos' := Ok, d, pos;
    if !phrase {
      if d == dest.Length {
        why := WildWrite;
        return;
      }
      dest[d] := ByteAt(cb, pos);
      assert dest[start..d + 1] == out + [ByteAt(cb, pos)];
      d', pos' := d + 1, pos + 1;
    } else if d == start {
      why := Overflow;
    } else {
      var lg := ShiftCount(d - start - 1);
      var pt := Word(cb, pos);
      var back := Shr(pt, 12 - lg) + 1;
      var length := Low(pt, 12 - lg) + 3;
      if d < start + back || d + length > start + SB_SIZE {
        why := Overflow;
      } else {
        CopyPhrase(dest, start, d, back, length);
        d', pos' := d + length, pos + 2;
      }
    }
  }

  /** The eight tokens of one tag. */
  method DecodeTag(dest: array<byte>, start: nat, d: nat, cb: seq<byte>, pos: nat, end: nat, tag0: nat)
    returns (why: Status, d': nat, pos': nat)
    requires start <= d <= start + SB_SIZE <= dest.Length
    modifies dest
    ensures Reached(dest, start, d', pos', why,
                    TagSteps(cb, pos, end, tag0, 0, old(dest[start..d]), dest.Length - start))
    ensures forall k :: 0 <= k < start ==> dest[k] == old(dest[k])
  {
    hide TokenStep;
    ghost var goal := TagSteps(cb, pos, end, tag0, 0, dest[start..d], dest.Length - start);
    var token, tag := 0, tag0;
    why, d', pos' := Ok, d, pos;
    while token < 8
      invariant token <= 8 && why.Ok? && start <= d' <= dest.Length && d' <= start + SB_SIZE + 1
      invariant TagSteps(cb, pos', end, tag, token, dest[start..d'], dest.Length - start) == goal
      invariant forall k :: 0 <= k < start ==> dest[k] == old(dest[k])
    {
      if pos' >= end || d' > start + SB_SIZE {
        break;
      }
      why, d', pos' := DecodeToken(dest, start, d', cb, pos', tag % 2 == 1);
      if !why.Ok? {
        return;
      }
      token, tag := token + 1, tag / 2;
    }
  }

  /** All tags of a compressed sub-block, then zeroes up to its full size. */
  method DecodeGroups(dest: array<byte>, start: nat, cb: seq<byte>, pos: nat, end: nat)
    returns (why: Status, d': nat)
    requires start + SB_SIZE <= dest.Length && pos <= end
    modifies dest
    ensures Reached(dest, start, d', end, why, Groups(cb, pos, end, [], dest.Length - start))
    ensures forall k :: 0 <= k < start ==> dest[k] == old(dest[k])
  {
    hide TagSteps;
    ghost var goal := Groups(cb, pos, end, [], dest.Length - start);
    var pos' := pos;
    why, d' := Ok, start;
    while pos' != end
      invariant why.Ok? && start <= d' <= dest.Length && d' <= start + SB_SIZE + 1
      invariant Groups(cb, pos', end, dest[start..d'], dest.Length - start) == goal
      invariant forall k :: 0 <= k < start ==> dest[k] == old(dest[k])
      decreases if pos' <= end then end - pos' else 0
    {
      if pos' > end || d' > start + SB_SIZE {
        why := Overflow;
        return;
      }
      why, d', pos' := DecodeTag(dest, start, d', cb, pos' + 1, end, ByteAt(cb, pos'));
      if !why.Ok? {
        return;
      }
    }
    ghost var out := dest[start..d'];
    while d' < start + SB_SIZE
      invariant start <= d' && |out| <= d' - start && d' <= (if |out| < SB_SIZE then start + SB_SIZE else start + |out|)
      invariant dest[start..d'] == out + Zeros(d' - start - |out|)
      invariant forall k :: 0 <= k < start ==> dest[k] == old(dest[k])
    {
      dest[d'] := 0;
      d' := d' + 1;
      assert dest[start..d'] == dest[start..d' - 1] + [0];
    }
  }

  /** The decoder's log2 loop. */
  method ShiftCount(q: nat) returns (lg: nat)
    requires q < SB_SIZE
    ensures lg == Lg(q) <= 8 && 12 - lg == LenBits(q + 1)
  {
    lg := 0;
    var i := q;
    while i >= 0x10
      invariant lg + Lg(i) == Lg(q)
    {
      lg := lg + 1;
      i := i / 2;
    }
    LgBound(q);
  }

  /** Decompress `cb` into `dest`: for every byte stream, the status and the bytes stored are those
      of `Decode`. */
  method Decompress(dest: array<byte>, cb: seq<byte>) returns (status: Status)
    modifies dest
    ensures match Decode(cb, 0, [], dest.Length)
            case Done(out) => status == Ok && dest[..|out|] == out
            case Failed(why, out) => status == why && dest[..|out|] == out
  {
    hide Decode, Groups;
    ghost var goal := Decode(cb, 0, [], dest.Length);
    var pos, d := 0, 0;
    while true
      invariant 0 <= pos <= |cb| && 0 <= d <= dest.Length
      invariant Decode(cb, pos, dest[..d], dest.Length) == goal
      decreases |cb| - pos
    {
      DecodeUnfold(cb, pos, dest[..d], dest.Length);
      if pos == |cb| || Word(cb, pos) == 0 || d == dest.Length {
        return Ok;
      }
      if d + SB_SIZE > dest.Length || pos + 6 > |cb| {
        return Overflow;
      }
      var end := pos + Word(cb, pos) % 4096 + 3;
      if end > |cb| {
        return Overflow;
      }
      var why, d' := DecodeSubBlock(dest, d, cb, pos, end);
      if why != Ok {
        return why;
      }
      pos, d := end, d';
    }
  }

  /** What one sub-block does. */
  function SubBlockStep(cb: seq<byte>, pos: nat, end: nat, room: nat): (s: Step)
    requires pos + 2 <= end <= |cb| && SB_SIZE <= room
    ensures s.At? ==> |s.out| <= room
    ensures s.Fail? ==> !s.why.Ok?
  {
    if Word(cb, pos) < 0x8000 then
      if end - (pos + 2) != SB_SIZE then Fail(Overflow) else At(end, cb[pos + 2..end])
    else Groups(cb, pos + 2, end, [], room)
  }

  lemma {:induction false} DecodeUnfold(cb: seq<byte>, pos: nat, out: seq<byte>, destSize: nat)
    requires pos <= |cb| && |out| <= destSize
    ensures pos == |cb| || Word(cb, pos) == 0 || |out| == destSize ==> Decode(cb, pos, out, destSize) == Done(out)
    ensures !(pos == |cb| || Word(cb, pos) == 0 || |out| == destSize) ==>
              var end := pos + Word(cb, pos) % 4096 + 3;
              Decode(cb, pos, out, destSize) ==
              if |out| + SB_SIZE > destSize || pos + 6 > |cb| || end > |cb| then Failed(Overflow, out)
              else
                var s := SubBlockStep(cb, pos, end, destSize - |out|);
                if s.Fail? then Failed(s.why, out) else Decode(cb, end, out + s.out, destSize)
  {
    hide Groups;
  }

  /** One sub-block, compressed or not, stored from `d` on. */
  method DecodeSubBlock(dest: array<byte>, d: nat, cb: seq<byte>, pos: nat, end: nat) returns (why: Status, d': nat)
    requires d + SB_SIZE <= dest.Length && pos + 2 <= end <= |cb|
    modifies dest
    ensures dest[..d] == old(dest[..d])
    ensures var s := SubBlockStep(cb, pos, end, dest.Length - d);
            if s.Fail? then why == s.why
            else why == Ok && d <= d' <= dest.Length && dest[..d'] == old(dest[..d]) + s.out
  {
    hide Groups;
    ghost var out := dest[..d];
    why, d' := Ok, d;
    if Word(cb, pos) < 0x8000 {
      if end - (pos + 2) != SB_SIZE {
        return Overflow, d;
      }
      forall k | 0 <= k < SB_SIZE {
        dest[d + k] := cb[pos + 2 + k];
      }
      d' := d + SB_SIZE;
      assert dest[..d'] == out + cb[pos + 2..end];
    } else {
      why, d' := DecodeGroups(dest, d, cb, pos + 2, end);
      assert dest[..d] == out;
      if why == Ok {
        assert dest[..d'] == dest[..d] + dest[d..d'];
      }
    }
  }
}

/** The LZNT1 sub-block format: tokens, their meaning, and their bytes (section 2.5 of [MS-XCA]).

    A sub-block holds at most 4096 bytes of data.  Its tokens are grouped by eight behind a tag
    byte; a phrase token is a 16-bit word whose split between offset and length depends on how
    many bytes of the sub-block are already decoded. */
module Lznt1Format {

  type byte = b: int | 0 <= b < 256

  const SB_SIZE: nat := 4096

  datatype Token = Literal(b: byte) | Phrase(back: nat, len: nat)

  // ---- the offset/length split --------------------------------------------------------------

  // Shifts and masks of the source, bit by bit.
  function Shl(a: nat, k: nat): nat {
    if k == 0 then a else 2 * Shl(a, k - 1)
  }

  function Shr(w: nat, k: nat): nat {
    if k == 0 then w else Shr(w / 2, k - 1)
  }

  /** The `k` low bits of `w`. */
  function Low(w: nat, k: nat): nat {
    if k == 0 then 0 else w % 2 + 2 * Low(w / 2, k - 1)
  }

  function Pow2(n: nat): (r: nat)
    ensures r > 0
  {
    if n == 0 then 1 else 2 * Pow2(n - 1)
  }

  /** The decoder's shift count: how often `q` is halved until it is below 16. */
  function Lg(q: nat): nat {
    if q < 16 then 0 else 1 + Lg(q / 2)
  }

  /** Number of length bits of a phrase decoded at position `p`. */
  function LenBits(p: nat): (k: nat)
    requires 1 <= p <= SB_SIZE
    ensures k <= 12
  {
    LgBound(p - 1);
    12 - Lg(p - 1)
  }

  lemma {:induction false} Pow2Monotone(a: nat, b: nat)
    requires a <= b
    ensures Pow2(a) <= Pow2(b)
    decreases b - a
  {
    if a < b {
      Pow2Monotone(a + 1, b);
    }
  }

  lemma {:induction false} Pow2Values()
    ensures Pow2(4) == 16 && Pow2(8) == 256 && Pow2(12) == 4096 && Pow2(16) == 65536
  {
    assert Pow2(2) == 4;
    assert Pow2(6) == 64;
    assert Pow2(10) == 1024;
    assert Pow2(14) == 16384;
  }

  /** `Lg` brackets its argument between two powers of two. */
  lemma {:induction false} LgBracket(q: nat)
    ensures q < Pow2(4 + Lg(q))
    ensures Lg(q) > 0 ==> Pow2(3 + Lg(q)) <= q
  {
    Pow2Values();
    if q >= 16 {
      LgBracket(q / 2);
    }
  }

  lemma {:induction false} LgBound(q: nat)
    requires q < 4096
    ensures Lg(q) <= 8
  {
    LgBracket(q);
    if Lg(q) > 8 {
      Pow2Monotone(12, 3 + Lg(q));
      Pow2Values();
    }
  }

  /** The encoder's and the decoder's split agree: the least `bp >= 4` with `p <= 2^bp`, which the
      encoder reaches by doubling, is four more than the decoder's halving count. */
  lemma {:induction false} SplitsAgree(p: nat, bp: nat)
    requires 1 <= p && 4 <= bp && p <= Pow2(bp)
    requires bp == 4 || Pow2(bp - 1) < p
    ensures bp == 4 + Lg(p - 1)
  {
    LgBracket(p - 1);
    var g := 4 + Lg(p - 1);
    if bp < g {
      Pow2Monotone(bp, g - 1);
    } else if bp > g {
      Pow2Monotone(g, bp - 1);
    }
  }

  /** Packing `a` above `k` low bits holding `b` loses neither, and fits in `m + k` bits. */
  lemma {:induction false} ShiftSplit(a: nat, b: nat, k: nat, m: nat)
    requires b < Pow2(k) && a < Pow2(m)
    ensures Shr(Shl(a, k) + b, k) == a && Low(Shl(a, k) + b, k) == b
    ensures Shl(a, k) + b < Pow2(m + k)
  {
    if k > 0 {
      ShiftSplit(a, b / 2, k - 1, m);
      assert (Shl(a, k) + b) / 2 == Shl(a, k - 1) + b / 2;
    }
  }

  // ---- meaning --------------------------------------------------------------------------------

  /** Copy `len` bytes from `back` bytes before the end, one by one, so that overlap repeats. */
  function CopyBack(out: seq<byte>, back: nat, len: nat): (r: seq<byte>)
    requires 1 <= back <= |out|
    ensures |r| == |out| + len
    ensures out <= r
    decreases len
  {
    if len == 0 then out else
      var pre := CopyBack(out, back, len - 1);
      pre + [pre[|pre| - back]]
  }

  predicate TokenFits(t: Token, p: nat) {
    match t
    case Literal(_) => p < SB_SIZE
    case Phrase(back, len) => 1 <= back <= p && 3 <= len && p + len <= SB_SIZE && len - 3 < Pow2(LenBits(p))
  }

  function Apply(out: seq<byte>, t: Token): (r: seq<byte>)
    requires TokenFits(t, |out|)
    ensures out <= r && |out| < |r| <= SB_SIZE
  {
    match t
    case Literal(b) => out + [b]
    case Phrase(back, len) => CopyBack(out, back, len)
  }

  /** The first `k` tokens each fit where they stand. */
  predicate Fits(ts: seq<Token>, k: nat)
    requires k <= |ts|
    decreases k, 0
  {
    k == 0 || (Fits(ts, k - 1) && TokenFits(ts[k - 1], |Expand(ts, k - 1)|))
  }

  /** The bytes the first `k` tokens stand for. */
  function Expand(ts: seq<Token>, k: nat): (r: seq<byte>)
    requires k <= |ts| && Fits(ts, k)
    ensures |r| <= SB_SIZE
    decreases k, 1
  {
    if k == 0 then [] else Apply(Expand(ts, k - 1), ts[k - 1])
  }

  lemma {:induction false} FitsPrefix(ts: seq<Token>, j: nat, k: nat)
    requires j <= k <= |ts| && Fits(ts, k)
    ensures Fits(ts, j) && Expand(ts, j) <= Expand(ts, k)
    decreases k
  {
    if j < k {
      FitsPrefix(ts, j, k - 1);
    }
  }

  /** Appending a token keeps the meaning of the earlier ones. */
  lemma {:induction false} ExpandAppend(ts: seq<Token>, t: Token, k: nat)
    requires k <= |ts| && Fits(ts, k)
    ensures Fits(ts + [t], k) && Expand(ts + [t], k) == Expand(ts, k)
  {
    if k > 0 {
      ExpandAppend(ts, t, k - 1);
    }
  }

  // ---- bytes ----------------------------------------------------------------------------------

  function Le16(w: nat): (r: seq<byte>)
    requires w < 65536
    ensures |r| == 2 && (r[0] as int) + 256 * (r[1] as int) == w
  {
    [w % 256, w / 256]
  }

  /** The word of a phrase token decoded at position `p`. */
  function PhraseWord(back: nat, len: nat, p: nat): (w: nat)
    requires TokenFits(Phrase(back, len), p)
    ensures w < 65536
    ensures Shr(w, LenBits(p)) == back - 1 && Low(w, LenBits(p)) == len - 3
  {
    LgBracket(p - 1);
    Pow2Values();
    ShiftSplit(back - 1, len - 3, LenBits(p), 4 + Lg(p - 1));
    Shl(back - 1, LenBits(p)) + (len - 3)
  }

  function TokenBytes(t: Token, p: nat): (r: seq<byte>)
    requires TokenFits(t, p)
    ensures 1 <= |r| <= 2
  {
    match t
    case Literal(b) => [b]
    case Phrase(back, len) => Le16(PhraseWord(back, len, p))
  }

  /** Tag bits of tokens `a` to `b`, the first token in the lowest bit. */
  function Tag(ts: seq<Token>, a: nat, b: nat): (r: nat)
    requires a <= b <= |ts|
    decreases b - a
  {
    if a == b then 0 else (if ts[a].Phrase? then 1 else 0) + 2 * Tag(ts, a + 1, b)
  }

  lemma {:induction false} TagRange(ts: seq<Token>, a: nat, b: nat)
    requires a <= b <= |ts|
    ensures Tag(ts, a, b) < Pow2(b - a)
    decreases b - a
  {
    if a < b {
      TagRange(ts, a + 1, b);
    }
  }

  lemma {:induction false} TagIsByte(ts: seq<Token>, a: nat, b: nat)
    requires a <= b <= |ts| && b - a <= 8
    ensures Tag(ts, a, b) < 256
  {
    TagRange(ts, a, b);
    Pow2Monotone(b - a, 8);
    Pow2Values();
  }

  /** Bytes of tokens `a` to `b`, without tags. */
  function Body(ts: seq<Token>, a: nat, b: nat): (r: seq<byte>)
    requires a <= b <= |ts| && Fits(ts, b)
    ensures |r| >= b - a
    decreases b - a
  {
    if a == b then [] else Body(ts, a, b - 1) + TokenBytes(ts[b - 1], |Expand(ts, b - 1)|)
  }

  /** A tag byte and the tokens `a` to `b` it describes. */
  function Group(ts: seq<Token>, a: nat, b: nat): (r: seq<byte>)
    requires a <= b <= |ts| && b - a <= 8 && Fits(ts, b)
    ensures |r| == 1 + |Body(ts, a, b)|
  {
    TagIsByte(ts, a, b);
    [Tag(ts, a, b)] + Body(ts, a, b)
  }

  function GroupEnd(ts: seq<Token>, k: nat): (m: nat)
    requires k < |ts|
    ensures k < m <= k + 8 && m <= |ts| && (m < k + 8 ==> m == |ts|)
  {
    if k + 8 <= |ts| then k + 8 else |ts|
  }

  /** The token stream of a sub-block from token `k` on: a tag byte before each eight tokens. */
  function Pack(ts: seq<Token>, k: nat): (r: seq<byte>)
    requires k <= |ts| && Fits(ts, |ts|)
    ensures k < |ts| ==> |r| >= 2
    decreases |ts| - k
  {
    if k == |ts| then [] else
      var m := GroupEnd(ts, k);
      FitsPrefix(ts, m, |ts|);
      Group(ts, k, m) + Pack(ts, m)
  }

  // ---- sub-blocks -----------------------------------------------------------------------------

  datatype SubBlock = Raw(data: seq<byte>) | Packed(ts: seq<Token>)

  predicate ValidSubBlock(sb: SubBlock) {
    match sb
    case Raw(data) => |data| == SB_SIZE
    case Packed(ts) => ts != [] && Fits(ts, |ts|) && |Pack(ts, 0)| < SB_SIZE
  }

  function Zeros(n: nat): (r: seq<byte>)
    ensures |r| == n
    ensures forall k :: 0 <= k < n ==> r[k] == 0
  {
    seq(n, _ => 0)
  }

  function Padded(data: seq<byte>): (r: seq<byte>)
    requires |data| <= SB_SIZE
    ensures |r| == SB_SIZE && data <= r
  {
    data + Zeros(SB_SIZE - |data|)
  }

  /** The 4096 bytes a sub-block decodes to. */
  function Meaning(sb: SubBlock): (r: seq<byte>)
    requires ValidSubBlock(sb)
    ensures |r| == SB_SIZE
  {
    match sb
    case Raw(data) => data
    case Packed(ts) => Padded(Expand(ts, |ts|))
  }

  /** Header and contents; the header word holds the size minus three and the compressed flag. */
  function SubBlockBytes(sb: SubBlock): (r: seq<byte>)
    requires ValidSubBlock(sb)
    ensures 4 <= |r| <= SB_SIZE + 2
  {
    match sb
    case Raw(data) => Le16(0x3fff) + data
    case Packed(ts) =>
      var body := Pack(ts, 0);
      Le16(0xb000 + |body| - 1) + body
  }

  lemma {:induction false} SubSlice<T>(s: seq<T>, p: nat, n: nat, i: nat, j: nat)
    requires p + n <= |s| && i <= j <= n
    ensures s[p..p + n][i..j] == s[p + i..p + j]
  {
    var t := s[p..p + n];
    assert forall k :: 0 <= k < j - i ==> t[i..j][k] == t[i + k] == s[p + (i + k)];
  }
}

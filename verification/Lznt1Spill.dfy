/** When the decompressor stores a byte behind its destination: a walk over the sizes alone, without
    decoding anything, tells for every byte stream. */
module Lznt1Spill {
  import opened Lznt1Format
  import opened Lznt1Decoder

  /** How far the tokens of a sub-block have been read and how many bytes they hold; a literal after
      4096 bytes makes the sub-block too long, and reading stops behind it. */
  datatype Held = Within(pos: nat, size: nat) | TooLong(pos: nat) | Malformed

  function TokenHolds(cb: seq<byte>, pos: nat, phrase: bool, n: nat): (r: Held)
    requires n <= SB_SIZE
    ensures r.Within? ==> n < r.size <= SB_SIZE && pos < r.pos
  {
    if !phrase then
      if n == SB_SIZE then TooLong(pos + 1) else Within(pos + 1, n + 1)
    else if n == 0 then Malformed
    else
      var pt := Word(cb, pos);
      var back, len := Shr(pt, LenBits(n)) + 1, Low(pt, LenBits(n)) + 3;
      if back > n || n + len > SB_SIZE then Malformed else Within(pos + 2, n + len)
  }

  function TagHolds(cb: seq<byte>, pos: nat, end: nat, tag: nat, k: nat, n: nat): (r: Held)
    requires k <= 8 && n <= SB_SIZE
    ensures r.Within? ==> n <= r.size <= SB_SIZE && pos <= r.pos
    decreases 8 - k
  {
    if k == 8 || pos >= end then Within(pos, n)
    else
      var r := TokenHolds(cb, pos, tag % 2 == 1, n);
      if r.Within? then TagHolds(cb, r.pos, end, tag / 2, k + 1, r.size) else r
  }

  function SubBlockHolds(cb: seq<byte>, pos: nat, end: nat, n: nat): (r: Held)
    requires n <= SB_SIZE
    ensures r.Within? ==> r.size <= SB_SIZE
    decreases if pos <= end then end - pos else 0
  {
    if pos == end then Within(pos, n)
    else if pos > end then Malformed
    else
      var r := TagHolds(cb, pos + 1, end, ByteAt(cb, pos), 0, n);
      if r.Within? then SubBlockHolds(cb, r.pos, end, r.size) else r
  }

  /** Some sub-block is too long when exactly 4096 bytes are left for it. */
  function Spills(cb: seq<byte>, pos: nat, n: nat, destSize: nat): (r: bool)
    requires pos <= |cb| && n <= destSize
    decreases |cb| - pos
  {
    if pos == |cb| || Word(cb, pos) == 0 || n + SB_SIZE > destSize || pos + 6 > |cb| then false
    else
      var end := pos + Word(cb, pos) % 4096 + 3;
      if end > |cb| then false
      else if Word(cb, pos) < 0x8000 then
        end - (pos + 2) == SB_SIZE && Spills(cb, end, n + SB_SIZE, destSize)
      else
        match SubBlockHolds(cb, pos + 2, end, 0)
        case Malformed => false
        case Within(_, _) => Spills(cb, end, n + SB_SIZE, destSize)
        case TooLong(p) =>
          if n + SB_SIZE == destSize then true
          else p == end && Spills(cb, end, n + SB_SIZE + 1, destSize)
  }

  /** What a step of the decoder shows of the sizes. */
  ghost predicate Shows(s: Step, r: Held, room: nat) {
    match r
    case Within(pos, size) => s.At? && s.pos == pos && |s.out| == size
    case Malformed => s == Fail(Overflow)
    case TooLong(pos) =>
      if room == SB_SIZE then s == Fail(WildWrite) else s.At? && s.pos == pos && |s.out| == SB_SIZE + 1
  }

  lemma {:induction false} TokenShows(cb: seq<byte>, pos: nat, phrase: bool, out: seq<byte>, room: nat)
    requires |out| <= SB_SIZE <= room
    ensures Shows(TokenStep(cb, pos, phrase, out, room), TokenHolds(cb, pos, phrase, |out|), room)
  {
    hide Shr, Low, LenBits, Word;
  }

  lemma {:induction false} TagShows(cb: seq<byte>, pos: nat, end: nat, tag: nat, k: nat, out: seq<byte>, room: nat)
    requires k <= 8 && |out| <= SB_SIZE <= room
    ensures Shows(TagSteps(cb, pos, end, tag, k, out, room), TagHolds(cb, pos, end, tag, k, |out|), room)
    decreases 8 - k
  {
    hide TokenStep, TokenHolds, TagSteps;
    TagStepsUnfold(cb, pos, end, tag, k, out, room);
    if k < 8 && pos < end {
      TokenShows(cb, pos, tag % 2 == 1, out, room);
      var s := TokenStep(cb, pos, tag % 2 == 1, out, room);
      if s.At? {
        if |s.out| <= SB_SIZE {
          TagShows(cb, s.pos, end, tag / 2, k + 1, s.out, room);
        } else {
          TagStepsUnfold(cb, s.pos, end, tag / 2, k + 1, s.out, room);
        }
      }
    }
  }

  /** The result of a sub-block, by its sizes. */
  lemma {:induction false} SubBlockShows(cb: seq<byte>, pos: nat, end: nat, out: seq<byte>, room: nat)
    requires |out| <= SB_SIZE <= room
    ensures var s, r := Groups(cb, pos, end, out, room), SubBlockHolds(cb, pos, end, |out|);
            match r
            case Within(_, _) => s.At? && |s.out| == SB_SIZE
            case Malformed => s == Fail(Overflow)
            case TooLong(p) =>
              if room == SB_SIZE then s == Fail(WildWrite)
              else if p == end then s.At? && |s.out| == SB_SIZE + 1 else s == Fail(Overflow)
    decreases if pos <= end then end - pos else 0
  {
    hide TagSteps, TagHolds;
    if pos < end {
      TagShows(cb, pos + 1, end, ByteAt(cb, pos), 0, out, room);
      var s := TagSteps(cb, pos + 1, end, ByteAt(cb, pos), 0, out, room);
      if s.At? && |s.out| <= SB_SIZE {
        SubBlockShows(cb, s.pos, end, s.out, room);
      }
    }
  }

  /** A literal is stored behind the destination if and only if some sub-block for which exactly 4096
      bytes are left holds more. */
  lemma {:induction false} WildWriteExactly(cb: seq<byte>, pos: nat, out: seq<byte>, destSize: nat)
    requires pos <= |cb| && |out| <= destSize
    ensures var r := Decode(cb, pos, out, destSize); r.Failed? && r.why == WildWrite <==>
            Spills(cb, pos, |out|, destSize)
    decreases |cb| - pos
  {
    hide Groups, SubBlockHolds;
    if pos < |cb| && Word(cb, pos) != 0 && |out| + SB_SIZE <= destSize && pos + 6 <= |cb| {
      var end := pos + Word(cb, pos) % 4096 + 3;
      if end <= |cb| {
        if Word(cb, pos) < 0x8000 {
          if end - (pos + 2) == SB_SIZE {
            WildWriteExactly(cb, end, out + cb[pos + 2..end], destSize);
          }
        } else {
          SubBlockShows(cb, pos + 2, end, [], destSize - |out|);
          var s := Groups(cb, pos + 2, end, [], destSize - |out|);
          if s.At? {
            WildWriteExactly(cb, end, out + s.out, destSize);
          }
        }
      }
    }
  }

  /** With room for one byte more than a full sub-block nothing is stored behind the destination. */
  lemma {:induction false} RoomyIsSafe(cb: seq<byte>, pos: nat, end: nat, out: seq<byte>, room: nat)
    requires |out| <= SB_SIZE < room
    ensures Groups(cb, pos, end, out, room) != Fail(WildWrite)
  {
    hide Groups, SubBlockHolds;
    SubBlockShows(cb, pos, end, out, room);
  }

  /** The smallest stream of this kind: one zero, a phrase that repeats it to 4096 bytes, and a literal. */
  lemma {:induction false} WildWriteHappens()
    ensures Decode([4, 0xB0, 2, 0, 0xFC, 0x0F, 0x41, 0, 0], 0, [], SB_SIZE) == Failed(WildWrite, [])
  {
    var cb: seq<byte> := [4, 0xB0, 2, 0, 0xFC, 0x0F, 0x41, 0, 0];
    hide Decode, SubBlockHolds, Groups;
    LongSubBlock(cb);
    SubBlockShows(cb, 2, 7, [], SB_SIZE);
    DecodeFirst(cb);
  }

  lemma {:induction false} DecodeFirst(cb: seq<byte>)
    requires |cb| >= 7 && cb[0] == 4 && cb[1] == 0xB0 && Groups(cb, 2, 7, [], SB_SIZE) == Fail(WildWrite)
    ensures Decode(cb, 0, [], SB_SIZE) == Failed(WildWrite, [])
  {
    hide Groups;
    assert Word(cb, 0) == 0xB004;
  }

  /** The phrase word 0x0FFC after one byte: one byte back, 4095 bytes long. */
  lemma {:induction false} LongPhrase()
    ensures LenBits(1) == 12 && Shr(0xFFC, 12) == 0 && Low(0xFFC, 12) == 0xFFC
  {
    Pow2Values();
    ShiftSplit(0, 0xFFC, 12, 0);
    ShlZero(12);
  }

  lemma {:induction false} ShlZero(k: nat)
    ensures Shl(0, k) == 0
    decreases k
  {
    if k > 0 {
      ShlZero(k - 1);
    }
  }

  lemma {:induction false} LongSubBlock(cb: seq<byte>)
    requires |cb| >= 7 && cb[2] == 2 && cb[4] == 0xFC && cb[5] == 0x0F
    ensures SubBlockHolds(cb, 2, 7, 0) == TooLong(7)
  {
    hide Shr, Low, LenBits;
    LongPhrase();
    assert Word(cb, 4) == 0xFFC;
    assert TokenHolds(cb, 4, true, 1) == Within(6, SB_SIZE);
    assert TagHolds(cb, 6, 7, 0, 2, SB_SIZE) == TooLong(7);
    assert TagHolds(cb, 4, 7, 1, 1, 1) == TooLong(7);
    assert TagHolds(cb, 3, 7, 2, 0, 0) == TooLong(7);
  }
}

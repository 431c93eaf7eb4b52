/** Bit fields (`bitmap.c`): the single-bit operations, and setting a run of bits through a window
    of at most 8 KiB.  A byte is its eight bits, lowest first. */
module Bitmap {

  type Octet = o: seq<bool> | |o| == 8 witness [false, false, false, false, false, false, false, false]

  const WINDOW: nat := 8192

  function Uniform(value: bool): (o: Octet)
    ensures forall b :: 0 <= b < 8 ==> o[b] == value
  {
    [value, value, value, value, value, value, value, value]
  }

  /** Bit `k` of a bit field. */
  function Bit(bytes: seq<Octet>, k: nat): bool
    requires k < 8 * |bytes|
  {
    bytes[k / 8][k % 8]
  }

  // ---- single bits ----------------------------------------------------------------------------

  method SetBit(bitmap: array<Octet>, bit: nat, value: bool)
    requires bit < 8 * bitmap.Length
    modifies bitmap
    ensures forall k :: 0 <= k < 8 * bitmap.Length ==>
              Bit(bitmap[..], k) == (if k == bit then value else old(Bit(bitmap[..], k)))
  {
    bitmap[bit / 8] := bitmap[bit / 8][bit % 8 := value];
  }

  method GetAndSetBit(bitmap: array<Octet>, bit: nat, value: bool) returns (was: bool)
    requires bit < 8 * bitmap.Length
    modifies bitmap
    ensures was == old(Bit(bitmap[..], bit))
    ensures forall k :: 0 <= k < 8 * bitmap.Length ==>
              Bit(bitmap[..], k) == (if k == bit then value else old(Bit(bitmap[..], k)))
  {
    was := bitmap[bit / 8][bit % 8];
    if value != was {
      bitmap[bit / 8] := bitmap[bit / 8][bit % 8 := !was];
    }
  }

  // ---- runs of bits ---------------------------------------------------------------------------

  /** Byte number `j` with the bits of the run [start, end) set to `value`. */
  function Target(o: Octet, j: nat, start: nat, end: nat, value: bool): (r: Octet)
    ensures forall b :: 0 <= b < 8 ==> r[b] == (if start <= 8 * j + b < end then value else o[b])
  {
    seq(8, b requires 0 <= b < 8 => if start <= 8 * j + b < end then value else o[b])
  }

  lemma {:induction false} TargetOutside(o: Octet, j: nat, start: nat, end: nat, value: bool)
    requires 8 * j + 8 <= start || end <= 8 * j || end <= start
    ensures Target(o, j, start, end, value) == o
  {
  }

  lemma {:induction false} TargetInside(o: Octet, j: nat, start: nat, end: nat, value: bool)
    requires start <= 8 * j && 8 * j + 8 <= end
    ensures Target(o, j, start, end, value) == Uniform(value)
  {
  }

  /** Set bits of the first byte from `bit` on, at most `count`.  The count left is -1 when it runs
      out inside the byte. */
  method FirstByte(o: Octet, ghost j: nat, bit: nat, count: nat, value: bool) returns (r: Octet, left: int)
    requires 0 < bit < 8
    ensures r == Target(o, j, 8 * j + bit, 8 * j + bit + count, value)
    ensures left == if count >= 8 - bit then count - (8 - bit) else -1
  {
    r, left := o, count;
    var b := bit;
    while b != 8
      invariant bit <= b <= 8 && left == count - (b - bit) >= 0
      invariant r == Target(o, j, 8 * j + bit, 8 * j + b, value)
    {
      if left == 0 {
        left := -1;
        return;
      }
      left := left - 1;
      r := r[b := value];
      b := b + 1;
    }
    assert r == Target(o, j, 8 * j + bit, 8 * j + bit + count, value);
  }

  /** Set the `bits` low bits of the last byte. */
  method LastByte(o: Octet, ghost j: nat, bits: nat, value: bool, ghost start: nat) returns (r: Octet)
    requires bits < 8 && start <= 8 * j
    ensures r == Target(o, j, start, 8 * j + bits, value)
  {
    r := o;
    var b := bits;
    while b > 0
      invariant 0 <= b <= bits
      invariant forall i :: 0 <= i < 8 ==> r[i] == (if b <= i < bits then value else o[i])
    {
      b := b - 1;
      r := r[b := value];
    }
  }

  /** The state between windows: bytes before `w` are final, the others untouched; `c` bits remain
      from the byte boundary `8 * s` on, -1 if the run ended inside its first byte. */
  ghost predicate Progress(bytes: seq<Octet>, was: seq<Octet>, start: nat, end: nat, value: bool, s: nat, c: int,
                           first: nat) {
    && |bytes| == |was| && first <= 1 && first <= s && -1 <= c && start <= end <= 8 * |was|
    && (if c >= 0 then 8 * s + c == end else first == 1 && end < 8 * s)
    && (if first == 1 then 8 * (s - 1) <= start < 8 * s && s <= |was| else start <= 8 * s)
    && (forall j :: 0 <= j < |was| ==>
        bytes[j] == (if j < s - first then Target(was[j], j, start, end, value) else was[j]))
  }

  /** Size of the next window. */
  function WindowSize(c: int, first: nat): (n: nat)
    requires -1 <= c && first <= 1
    ensures first <= n <= WINDOW
  {
    if (c + 7) / 8 + first > WINDOW then WINDOW else (c + 7) / 8 + first
  }

  /** The window holds the final bytes from number `w` on. */
  ghost predicate Prepared(buf: seq<Octet>, n: nat, was: seq<Octet>, start: nat, end: nat, value: bool, w: nat) {
    && n <= |buf| && w + n <= |was|
    && forall k :: 0 <= k < n ==> buf[k] == Target(was[w + k], w + k, start, end, value)
  }

  /** The buffer before the last byte is handled. */
  ghost predicate Filled(buf: seq<Octet>, n: nat, was: seq<Octet>, start: nat, end: nat, value: bool, s: nat,
                         first: nat) {
    && n <= |buf| && first <= s && s - first < |was| + 1 && (first == 1 ==> s <= |was| && 0 < n)
    && forall k :: 0 <= k < n ==>
         buf[k] == (if k == 0 && first == 1 then Target(was[s - 1], s - 1, start, end, value) else Uniform(value))
  }

  method WriteWindow(bitmap: array<Octet>, buf: array<Octet>, n: nat, w: nat)
    requires bitmap != buf && n <= buf.Length && w + n <= bitmap.Length
    modifies bitmap
    ensures forall j :: 0 <= j < bitmap.Length ==> bitmap[j] == (if w <= j < w + n then buf[j - w] else old(bitmap[j]))
  {
    var k := 0;
    while k < n
      invariant k <= n
      invariant forall j :: 0 <= j < bitmap.Length ==>
                  bitmap[j] == (if w <= j < w + k then buf[j - w] else old(bitmap[j]))
    {
      bitmap[w + k] := buf[k];
      k := k + 1;
    }
  }

  /** The whole bytes of a window lie inside the run. */
  lemma {:induction false} WholeBytes(c: int, first: nat, n: nat)
    requires -1 <= c && first <= 1 && n == WindowSize(c, first)
    ensures c <= 0 || c % 8 == 0 || (c + 7) / 8 + first > n ==> n == first || 8 * (n - first) <= c
    ensures c > 0 && (c + 7) / 8 + first == n ==> 8 * (n - first - 1) <= c
  {
    if n == WINDOW && (c + 7) / 8 + first > n {
      assert 8 * (n - first) <= c;
    }
  }

  /** Byte `k` of a window whose bits are all in the run. */
  lemma {:induction false} ByteInside(buf: seq<Octet>, bytes: seq<Octet>, was: seq<Octet>, start: nat, end: nat,
                                      value: bool, s: nat, c: int, first: nat, n: nat, k: nat)
    requires Progress(bytes, was, start, end, value, s, c, first) && Filled(buf, n, was, start, end, value, s, first)
    requires first <= k < n && 8 * (k - first) + 8 <= c
    ensures s - first + k < |was| && buf[k] == Target(was[s - first + k], s - first + k, start, end, value)
  {
    hide Target;
    var j := s - first + k;
    assert start <= 8 * j && 8 * j + 8 <= end;
    TargetInside(was[j], j, start, end, value);
  }

  /** A window that is not the last one is right as it is. */
  lemma {:induction false} FullWindow(buf: seq<Octet>, bytes: seq<Octet>, was: seq<Octet>, start: nat, end: nat,
                                      value: bool, s: nat, c: int, first: nat, n: nat)
    requires Progress(bytes, was, start, end, value, s, c, first) && n == WindowSize(c, first)
    requires Filled(buf, n, was, start, end, value, s, first)
    requires c <= 0 || c % 8 == 0 || (c + 7) / 8 + first > n
    ensures Prepared(buf, n, was, start, end, value, s - first)
  {
    hide Target, WindowSize;
    WholeBytes(c, first, n);
    forall k | 0 <= k < n
      ensures s - first + k < |was| && buf[k] == Target(was[s - first + k], s - first + k, start, end, value)
    {
      if k >= first {
        ByteInside(buf, bytes, was, start, end, value, s, c, first, n, k);
      }
    }
  }

  /** The last window, with its last byte set. */
  lemma {:induction false} LastWindow(buf: seq<Octet>, bytes: seq<Octet>, was: seq<Octet>, start: nat, end: nat,
                                      value: bool, s: nat, c: int, first: nat, n: nat, o: Octet)
    requires Progress(bytes, was, start, end, value, s, c, first) && n == WindowSize(c, first)
    requires Filled(buf, n, was, start, end, value, s, first)
    requires c > 0 && c % 8 != 0 && (c + 7) / 8 + first == n
    requires s + c / 8 < |was| && o == Target(was[s + c / 8], s + c / 8, start, end, value)
    ensures 0 < n <= |buf| && Prepared(buf[n - 1 := o], n, was, start, end, value, s - first)
  {
    hide Target, WindowSize;
    var buf' := buf[n - 1 := o];
    WholeBytes(c, first, n);
    assert c / 8 == n - 1 - first;
    forall k | 0 <= k < n
      ensures s - first + k < |was| && buf'[k] == Target(was[s - first + k], s - first + k, start, end, value)
    {
      if first <= k < n - 1 {
        ByteInside(buf, bytes, was, start, end, value, s, c, first, n, k);
      }
    }
  }

  /** Writing a prepared window moves the boundary. */
  lemma {:induction false} WindowWritten(bytes: seq<Octet>, bytes': seq<Octet>, buf: seq<Octet>, was: seq<Octet>,
                                         start: nat, end: nat, value: bool, s: nat, c: int, first: nat, n: nat,
                                         last: nat)
    requires Progress(bytes, was, start, end, value, s, c, first) && n == WindowSize(c, first)
    requires Prepared(buf, n, was, start, end, value, s - first) && |bytes'| == |bytes|
    requires forall j :: 0 <= j < |bytes| ==>
               bytes'[j] == (if s - first <= j < s - first + n then buf[j - (s - first)] else bytes[j])
    requires last == if c > 0 && c % 8 != 0 && (c + 7) / 8 + first <= n then 1 else 0
    ensures var left := c - last * (c % 8) - 8 * (n - first - last);
            // the source's "count is not zero" error cannot occur
            && (last == 1 ==> left == 0)
            && (left > 0 ==>
                  && n == WINDOW && last == 0 && left < c && left % 8 == c % 8
                  && Progress(bytes', was, start, end, value, s + (n - first), left, 0))
            && (left <= 0 ==> forall j :: 0 <= j < |was| ==> bytes'[j] == Target(was[j], j, start, end, value))
  {
    var left := c - last * (c % 8) - 8 * (n - first - last);
    if left <= 0 {
      forall j | 0 <= j < |was|
        ensures bytes'[j] == Target(was[j], j, start, end, value)
      {
        if j >= s - first + n {
          TargetOutside(was[j], j, start, end, value);
        }
      }
    }
  }

  /** Nothing is written before the first window. */
  lemma {:induction false} Untouched(bytes: seq<Octet>, start: nat, count: nat, value: bool, s: nat, c: int, first: nat)
    requires start + count <= 8 * |bytes| && (start % 8 != 0 ==> start < 8 * |bytes|)
    requires first == (if start % 8 != 0 then 1 else 0) && s == start / 8 + first
    requires c == if first == 0 then count else if count >= 8 - start % 8 then count - (8 - start % 8) else -1
    ensures Progress(bytes, bytes, start, start + count, value, s, c, first)
  {
    hide Target;
    forall j | 0 <= j < s - first
      ensures bytes[j] == Target(bytes[j], j, start, start + count, value)
    {
      TargetOutside(bytes[j], j, start, start + count, value);
    }
  }

  /** Prepare the first window: the buffer size is capped, a partial first byte is read and set. */
  method FirstWindow(bitmap: array<Octet>, start: nat, count: nat, value: bool)
    returns (buf: array<Octet>, bufsize: nat, s: nat, c: int, first: nat)
    requires start + count <= 8 * bitmap.Length && (start % 8 != 0 ==> start < 8 * bitmap.Length)
    ensures fresh(buf) && -1 <= c <= count && first <= 1 && first <= s && bufsize == WindowSize(c, first)
    ensures Progress(bitmap[..], bitmap[..], start, start + count, value, s, c, first)
    ensures Filled(buf[..], bufsize, bitmap[..], start, start + count, value, s, first)
  {
    hide Target, Progress;
    var bit := start % 8;
    first := if bit != 0 then 1 else 0;
    bufsize := (count - (if bit != 0 then 8 - bit else 0) + 7) / 8 + first;
    if bufsize > WINDOW {
      bufsize := WINDOW;
    }
    buf := new Octet[bufsize](_ => Uniform(value));
    c, s := count, start / 8;
    if bit != 0 {
      buf[0], c := FirstByte(bitmap[start / 8], start / 8, bit, count, value);
      s := (start + 7) / 8;
    }
    Untouched(bitmap[..], start, count, value, s, c, first);
  }

  ghost predicate Completed(bytes: seq<Octet>, was: seq<Octet>, start: nat, end: nat, value: bool) {
    |bytes| == |was| && forall j :: 0 <= j < |was| ==> bytes[j] == Target(was[j], j, start, end, value)
  }

  lemma {:induction false} CompletedBits(bytes: seq<Octet>, was: seq<Octet>, start: nat, end: nat, value: bool)
    requires Completed(bytes, was, start, end, value)
    ensures forall k :: 0 <= k < 8 * |was| ==> Bit(bytes, k) == (if start <= k < end then value else Bit(was, k))
  {
    forall k | 0 <= k < 8 * |was|
      ensures Bit(bytes, k) == (if start <= k < end then value else Bit(was, k))
    {
      assert bytes[k / 8] == Target(was[k / 8], k / 8, start, end, value);
      assert k == 8 * (k / 8) + k % 8;
    }
  }

  /** If the run ends in this window inside a byte, read that byte and set its low bits. */
  method SetLastByte(bitmap: array<Octet>, buf: array<Octet>, bufsize: nat, ghost was: seq<Octet>, ghost start: nat,
                     ghost end: nat, value: bool, s: nat, c0: int, first: nat, bits: nat)
    returns (c: int, last: nat)
    requires bitmap != buf && Progress(bitmap[..], was, start, end, value, s, c0, first)
             && bufsize == WindowSize(c0, first)
    requires Filled(buf[..], bufsize, was, start, end, value, s, first) && (c0 > 0 ==> bits == c0 % 8)
    modifies buf
    ensures last == if c0 > 0 && c0 % 8 != 0 && (c0 + 7) / 8 + first <= bufsize then 1 else 0
    ensures c == c0 - last * (c0 % 8)
    ensures Prepared(buf[..], bufsize, was, start, end, value, s - first)
    ensures last == 0 ==> buf[..] == old(buf[..])
  {
    hide Target, Prepared;
    c, last := c0, 0;
    ghost var b := buf[..];
    if c > 0 && bits != 0 {
      var lastbytePos := (c + 7) / 8 + first;
      assert lastbytePos > 0;
      if lastbytePos <= bufsize {
        var o := LastByte(bitmap[s + c / 8], s + c / 8, bits, value, start);
        buf[lastbytePos - 1] := o;
        LastWindow(b, bitmap[..], was, start, end, value, s, c0, first, bufsize, o);
        assert buf[..] == b[bufsize - 1 := o];
        c, last := c - bits, 1;
        return;
      }
    }
    FullWindow(b, bitmap[..], was, start, end, value, s, c0, first, bufsize);
  }

  /** What the predicates say about sizes. */
  lemma {:induction false} Ranges(bytes: seq<Octet>, buf: seq<Octet>, n: nat, was: seq<Octet>, start: nat, end: nat,
                                  value: bool, s: nat, c: int, first: nat, buf': seq<Octet>)
    requires Progress(bytes, was, start, end, value, s, c, first)
    ensures |bytes| == |was| && s - first <= |was| && (c > 0 ==> s <= |was|)
    ensures Prepared(buf', n, was, start, end, value, s - first) ==> s - first + n <= |was| && n <= |buf'|
    ensures Filled(buf, n, was, start, end, value, s, first) && first == 1 ==> n > 0
  {
  }

  /** Resetting the partial first byte makes the buffer uniform for the windows that follow. */
  lemma {:induction false} Refill(buf: seq<Octet>, buf': seq<Octet>, n: nat, was: seq<Octet>, start: nat, end: nat,
                                  value: bool, s: nat, first: nat, n': nat, s': nat)
    requires Filled(buf, n, was, start, end, value, s, first) && n' <= n && s' <= |was|
    requires buf' == if first == 1 && |buf| > 0 then buf[0 := Uniform(value)] else buf
    ensures Filled(buf', n', was, start, end, value, s', 0)
  {
  }

  /** Set `count` bits from `start` on to `value`, window by window: exactly those bits change. */
  method SetBitsInRun(bitmap: array<Octet>, start: int, count: int, value: bool) returns (ok: bool)
    requires start >= 0 && count >= 0 ==>
               start + count <= 8 * bitmap.Length && (start % 8 != 0 ==> start < 8 * bitmap.Length)
    modifies bitmap
    ensures ok <==> start >= 0 && count >= 0
    ensures forall k :: 0 <= k < 8 * bitmap.Length ==>
              Bit(bitmap[..], k) == (if ok && start <= k < start + count then value else old(Bit(bitmap[..], k)))
  {
    if start < 0 || count < 0 {
      return false;
    }
    ghost var was := bitmap[..];
    ghost var end := start + count;
    var buf: array<Octet>, bufsize: nat, s: nat, c: int, first: nat := FirstWindow(bitmap, start, count, value);
    var bits := if c < 0 then 0 else c % 8;
    hide Progress, Filled, Prepared, Target, Completed;
    var more := true;
    while more
      invariant fresh(buf) && buf.Length >= bufsize
      invariant more ==> -1 <= c && first <= 1 && first <= s && bufsize == WindowSize(c, first)
      invariant more ==> Progress(bitmap[..], was, start, end, value, s, c, first)
      invariant more ==> Filled(buf[..], bufsize, was, start, end, value, s, first) && (c > 0 ==> bits == c % 8)
      invariant !more ==> Completed(bitmap[..], was, start, end, value)
      decreases more, c
    {
      s, c, bufsize := NextWindow(bitmap, buf, bufsize, was, start, end, value, s, c, first, bits);
      first := 0;
      more := c > 0;
    }
    CompletedBits(bitmap[..], was, start, end, value);
    ok := true;
  }

  /** Write one window and advance. */
  method NextWindow(bitmap: array<Octet>, buf: array<Octet>, n: nat, ghost was: seq<Octet>, ghost start: nat,
                    ghost end: nat, value: bool, s: nat, c: int, first: nat, bits: nat)
    returns (s': nat, c': int, n': nat)
    requires bitmap != buf && -1 <= c && first <= 1 && first <= s && n == WindowSize(c, first)
    requires Progress(bitmap[..], was, start, end, value, s, c, first)
    requires Filled(buf[..], n, was, start, end, value, s, first) && (c > 0 ==> bits == c % 8)
    modifies bitmap, buf
    ensures n' <= buf.Length
    ensures c' > 0 ==> c' < c && c' % 8 == c % 8 && n' == WindowSize(c', 0)
    ensures c' > 0 ==> Progress(bitmap[..], was, start, end, value, s', c', 0)
    ensures c' > 0 ==> Filled(buf[..], n', was, start, end, value, s', 0)
    ensures c' <= 0 ==> Completed(bitmap[..], was, start, end, value)
  {
    hide Progress, Filled, Prepared, Target;
    ghost var b := buf[..];
    var left, last := SetLastByte(bitmap, buf, n, was, start, end, value, s, c, first, bits);
    ghost var bytes := bitmap[..];
    Ranges(bytes, b, n, was, start, end, value, s, c, first, buf[..]);
    WriteWindow(bitmap, buf, n, s - first);
    WindowWritten(bytes, bitmap[..], buf[..], was, start, end, value, s, c, first, n, last);
    var tmp := n - first - last;
    if first == 1 {
      buf[0] := Uniform(value);
    }
    s' := s + tmp;
    c' := left - 8 * tmp;
    n' := if n > (c' + 7) / 8 then (c' + 7) / 8 else n;
    assert !(last == 1 && c' != 0);
    if c' > 0 {
      Ranges(bitmap[..], b, n, was, start, end, value, s', c', 0, buf[..]);
      Refill(b, buf[..], n, was, start, end, value, s, first, n', s');
    }
  }
}

/** `max_empty_bit_range`: the first longest run of clear bits in a window of the cluster bitmap. */
module FreeScan {
  import opened Bitmap

  /** `run` clear bits end at the scan position; the longest run closed before has `best` bits and
      starts at `start`, -1 if there is none. */
  datatype Scan = Scan(run: nat, best: nat, start: int)

  /** Look at the bit at position `p`. */
  function Next(sc: Scan, p: nat, bit: bool): Scan {
    if !bit then sc.(run := sc.run + 1)
    else if sc.run > sc.best then Scan(0, sc.run, p - sc.run)
    else sc.(run := 0)
  }

  /** The scan of the first `p` bits, one by one. */
  function ScanTo(bytes: seq<Octet>, p: nat): (sc: Scan)
    requires p <= 8 * |bytes|
    ensures sc.run <= p
  {
    if p == 0 then Scan(0, 0, -1) else Next(ScanTo(bytes, p - 1), p - 1, Bit(bytes, p - 1))
  }

  /** The `n` bits from `s` on are clear. */
  ghost predicate Clear(bytes: seq<Octet>, s: nat, n: nat)
    requires s + n <= 8 * |bytes|
  {
    forall k :: s <= k < s + n ==> !Bit(bytes, k)
  }

  /** The scan knows the trailing run of clear bits and the first longest run before it. */
  ghost predicate Knows(bytes: seq<Octet>, p: nat, sc: Scan)
    requires p <= 8 * |bytes|
  {
    && sc.run <= p && Clear(bytes, p - sc.run, sc.run) && (sc.run < p ==> Bit(bytes, p - sc.run - 1))
    && (if sc.best == 0 then sc.start == -1
        else 0 <= sc.start && sc.start + sc.best <= p && Clear(bytes, sc.start, sc.best))
    && forall s: nat, n: nat {:trigger Clear(bytes, s, n)} :: 0 < n && s + n <= p && Clear(bytes, s, n) ==>
         s >= p - sc.run || (n <= sc.best && (n == sc.best ==> s >= sc.start))
  }

  lemma {:induction false} ScanKnows(bytes: seq<Octet>, p: nat)
    requires p <= 8 * |bytes|
    ensures Knows(bytes, p, ScanTo(bytes, p))
  {
    if p > 0 {
      ScanKnows(bytes, p - 1);
      var old', sc := ScanTo(bytes, p - 1), ScanTo(bytes, p);
      forall s: nat, n: nat | 0 < n && s + n <= p && Clear(bytes, s, n)
        ensures s >= p - sc.run || (n <= sc.best && (n == sc.best ==> s >= sc.start))
      {
        if s + n == p {
          assert !Bit(bytes, p - 1);
          if n > 1 {
            assert Clear(bytes, s, n - 1);
          }
        }
      }
    }
  }

  /** Eight clear bits at once. */
  lemma {:induction false} ScanZeroByte(bytes: seq<Octet>, i: nat)
    requires i < |bytes| && bytes[i] == Uniform(false)
    ensures ScanTo(bytes, 8 * i + 8) == ScanTo(bytes, 8 * i).(run := ScanTo(bytes, 8 * i).run + 8)
  {
    ScanZeros(bytes, i, 8);
  }

  lemma {:induction false} ScanZeros(bytes: seq<Octet>, i: nat, b: nat)
    requires i < |bytes| && bytes[i] == Uniform(false) && b <= 8
    ensures ScanTo(bytes, 8 * i + b) == ScanTo(bytes, 8 * i).(run := ScanTo(bytes, 8 * i).run + b)
  {
    if b > 0 {
      ScanZeros(bytes, i, b - 1);
      BitOf(bytes, i, b - 1);
    }
  }

  /** Eight set bits at once: only the first can close a run. */
  lemma {:induction false} ScanOnes(bytes: seq<Octet>, i: nat, b: nat)
    requires i < |bytes| && bytes[i] == Uniform(true) && 1 <= b <= 8
    ensures ScanTo(bytes, 8 * i + b) == Next(ScanTo(bytes, 8 * i), 8 * i, true)
  {
    BitOf(bytes, i, b - 1);
    if b > 1 {
      ScanOnes(bytes, i, b - 1);
    }
  }

  lemma {:induction false} BitOf(bytes: seq<Octet>, i: nat, b: nat)
    requires i < |bytes| && b < 8
    ensures Bit(bytes, 8 * i + b) == bytes[i][b]
  {
  }

  /** `start` is -1 exactly when every bit is set; else the `length` bits from `start` on are the
      first longest run of clear bits. */
  ghost predicate FirstLongest(bytes: seq<Octet>, start: int, length: nat) {
    && (start == -1 <==> length == 0)
    && (start == -1 ==> forall k :: 0 <= k < 8 * |bytes| ==> Bit(bytes, k))
    && (start != -1 ==> 0 <= start && start + length <= 8 * |bytes| && Clear(bytes, start, length))
    && (forall s: nat, n: nat {:trigger Clear(bytes, s, n)} :: s + n <= 8 * |bytes| && Clear(bytes, s, n) ==>
          n <= length && (n == length > 0 ==> s >= start))
  }

  /** There is only one first longest run. */
  lemma {:induction false} FirstLongestUnique(bytes: seq<Octet>, a: int, m: nat, b: int, n: nat)
    requires FirstLongest(bytes, a, m) && FirstLongest(bytes, b, n)
    ensures a == b && m == n
  {
    hide Bit, Clear;
    assert a != -1 ==> Clear(bytes, a, m);
    assert b != -1 ==> Clear(bytes, b, n);
  }

  lemma {:induction false} ScanFinds(bytes: seq<Octet>, sc: Scan)
    requires sc == ScanTo(bytes, 8 * |bytes|)
    ensures if sc.run > sc.best then FirstLongest(bytes, 8 * |bytes| - sc.run, sc.run)
            else FirstLongest(bytes, sc.start, sc.best)
  {
    hide ScanTo;
    ScanKnows(bytes, 8 * |bytes|);
    if sc.run <= sc.best && sc.best == 0 {
      forall k | 0 <= k < 8 * |bytes|
        ensures Bit(bytes, k)
      {
        assert Clear(bytes, k, 1) <==> !Bit(bytes, k);
      }
    }
  }

  /** Scan a window of bytes; whole clear and whole set bytes are taken in one step. */
  method MaxEmptyBitRange(bytes: seq<Octet>) returns (start: int, ghost length: nat)
    ensures exists n: nat :: FirstLongest(bytes, start, n)
    ensures FirstLongest(bytes, start, length)
  {
    hide FirstLongest, ScanTo;
    var i, run, best := 0, 0, 0;
    start := -1;
    ScanStart(bytes);
    while i < |bytes|
      invariant i <= |bytes| && ScanTo(bytes, 8 * i) == Scan(run, best, start)
    {
      if bytes[i] == Uniform(false) {
        ghost var i0 := i;
        i, run := SkipClear(bytes, i, run, Scan(run, best, start));
        assert i > i0;
      } else if bytes[i] == Uniform(true) {
        ScanOnes(bytes, i, 8);
        if run > best {
          best, start := run, 8 * i - run;
        }
        run := 0;
        i := SkipSet(bytes, i + 1, Scan(run, best, start));
      } else {
        run, best, start := ScanByte(bytes, i, run, best, start);
        i := i + 1;
      }
    }
    ScanFinds(bytes, Scan(run, best, start));
    length := if run > best then run else best;
    if run > best {
      start := 8 * i - run;
    }
  }

  lemma {:induction false} ScanStart(bytes: seq<Octet>)
    ensures ScanTo(bytes, 0) == Scan(0, 0, -1)
  {
  }

  /** The inner loop over clear bytes. */
  method SkipClear(bytes: seq<Octet>, i0: nat, run0: nat, ghost sc: Scan) returns (i: nat, run: nat)
    requires i0 < |bytes| && bytes[i0] == Uniform(false) && ScanTo(bytes, 8 * i0) == sc && sc.run == run0
    ensures i0 < i <= |bytes| && ScanTo(bytes, 8 * i) == sc.(run := run)
  {
    hide ScanTo;
    ScanZeroByte(bytes, i0);
    i, run := i0 + 1, run0 + 8;
    while i < |bytes| && bytes[i] == Uniform(false)
      invariant i0 < i <= |bytes| && ScanTo(bytes, 8 * i) == sc.(run := run)
    {
      ScanZeroByte(bytes, i);
      i, run := i + 1, run + 8;
    }
  }

  /** The inner loop over set bytes. */
  method SkipSet(bytes: seq<Octet>, i0: nat, ghost sc: Scan) returns (i: nat)
    requires i0 <= |bytes| && ScanTo(bytes, 8 * i0) == sc && sc.run == 0
    ensures i0 <= i <= |bytes| && ScanTo(bytes, 8 * i) == sc
  {
    hide ScanTo;
    i := i0;
    while i < |bytes| && bytes[i] == Uniform(true)
      invariant i0 <= i <= |bytes| && ScanTo(bytes, 8 * i) == sc
    {
      ScanOnes(bytes, i, 8);
      i := i + 1;
    }
  }

  /** A byte with both clear and set bits, bit by bit. */
  method ScanByte(bytes: seq<Octet>, i: nat, run0: nat, best0: nat, start0: int)
    returns (run: nat, best: nat, start: int)
    requires i < |bytes| && ScanTo(bytes, 8 * i) == Scan(run0, best0, start0)
    ensures ScanTo(bytes, 8 * i + 8) == Scan(run, best, start)
  {
    run, best, start := run0, best0, start0;
    var j := 0;
    while j < 8
      invariant j <= 8 && ScanTo(bytes, 8 * i + j) == Scan(run, best, start)
    {
      BitOf(bytes, i, j);
      if bytes[i][j] {
        if run > best {
          best, start := run, 8 * i + j - run;
        }
        run := 0;
      } else {
        run := run + 1;
      }
      j := j + 1;
    }
  }
}

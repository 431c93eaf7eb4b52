/** The zoned cluster allocator (`lcnalloc.c`): it searches the cluster bitmap window by window and
    zone by zone, taking one run of clear bits per window, and gives everything back when the
    volume is exhausted. */
module ClusterAllocator {
  import opened Sequences
  import opened Bitmap
  import opened FreeScan
  import opened RunList
  import opened FreeCount

  const BSIZE: nat := 4096
  const SKIP: nat := BSIZE
  const NOT_MAPPED: int := -2

  // ---- taking clear bits ----------------------------------------------------------------------

  /** `b` is `a` with bit `x` given the value `v`. */
  ghost predicate OneBit(a: seq<Octet>, b: seq<Octet>, x: nat, v: bool) {
    && |a| == |b| && x < 8 * |a|
    && forall k :: 0 <= k < 8 * |a| ==> Bit(b, k) == (if k == x then v else Bit(a, k))
  }

  lemma {:induction false} ClearOneBit(a: seq<Octet>, b: seq<Octet>, x: nat, p: nat)
    requires OneBit(a, b, x, true) && !Bit(a, x) && p <= 8 * |a|
    ensures ClearTo(a, p) == ClearTo(b, p) + (if x < p then 1 else 0)
  {
    if p > 0 {
      ClearOneBit(a, b, x, p - 1);
    }
  }

  /** `now` is `was` with exactly the clusters `cells` taken, each of them once, all clear before. */
  ghost predicate Taken(was: seq<Octet>, now: seq<Octet>, cells: seq<int>) {
    && |was| == |now| && Distinct(cells) && ClearCount(was) == ClearCount(now) + |cells|
    && (forall i :: 0 <= i < |cells| ==> 0 <= cells[i] < 8 * |was| && !Bit(was, cells[i]))
    && (forall k :: 0 <= k < 8 * |was| ==> Bit(now, k) == (Bit(was, k) || k in cells))
  }

  lemma {:induction false} TakeOne(was: seq<Octet>, now: seq<Octet>, cells: seq<int>, x: nat, now': seq<Octet>)
    requires Taken(was, now, cells) && OneBit(now, now', x, true) && !Bit(now, x)
    ensures Taken(was, now', cells + [x])
  {
    ClearOneBit(now, now', x, 8 * |now|);
    var cells' := cells + [x];
    assert x !in cells;
    assert forall i :: 0 <= i < |cells| ==> cells'[i] == cells[i] && cells[i] in cells;
    forall k | 0 <= k < 8 * |was|
      ensures Bit(now', k) == (Bit(was, k) || k in cells')
    {
      assert k in cells' <==> k in cells || k == x;
    }
  }

  // ---- the run list being built ---------------------------------------------------------------

  /** Runs with consecutive virtual clusters from `start` on. */
  ghost predicate Consecutive(rl: seq<Run>, start: int) {
    && (rl != [] ==> rl[0].vcn == start)
    && (forall k :: 0 <= k < |rl| ==> rl[k].length > 0 && rl[k].lcn >= 0)
    && (forall k, m :: 0 <= k && m == k + 1 && m < |rl| ==> rl[m].vcn == rl[k].vcn + rl[k].length)
  }

  /** Add one cluster: coalesce with the last run if adjacent, else append a run. */
  function AddCluster(rl: seq<Run>, start: int, x: nat): (r: seq<Run>)
    ensures r != []
  {
    if rl == [] then [Run(start, x, 1)]
    else
      var last := rl[|rl| - 1];
      if last.lcn + last.length == x then rl[|rl| - 1 := last.(length := last.length + 1)]
      else rl + [Run(last.vcn + last.length, x, 1)]
  }

  lemma {:induction false} AddClusterConsecutive(rl: seq<Run>, start: int, x: nat)
    requires Consecutive(rl, start)
    ensures Consecutive(AddCluster(rl, start, x), start)
  {
  }

  lemma {:induction false} AddClusterFirst(rl: seq<Run>, start: int, x: nat)
    ensures AddCluster(rl, start, x)[0].lcn == if rl == [] then x else rl[0].lcn
  {
  }

  lemma {:induction false} OneRun(r: Run)
    ensures Cells([r]) == RunCells(r)
  {
    CellsCons(r, []);
    assert [r] + [] == [r];
  }

  lemma {:induction false} AddClusterCells(rl: seq<Run>, start: int, x: nat)
    requires rl != [] ==> rl[|rl| - 1].lcn >= 0
    ensures Cells(AddCluster(rl, start, x)) == Cells(rl) + [x]
  {
    hide Cells, RunCells;
    if rl == [] {
      OneRun(Run(start, x, 1));
      SingleCell(start, x);
      EmptyCells();
    } else if rl[|rl| - 1].lcn + rl[|rl| - 1].length == x {
      Coalesce(rl);
    } else {
      var last := rl[|rl| - 1];
      var r := Run(last.vcn + last.length, x, 1);
      CellsConcat(rl, [r]);
      OneRun(r);
      SingleCell(r.vcn, x);
    }
  }

  lemma {:induction false} Coalesce(rl: seq<Run>)
    requires rl != [] && rl[|rl| - 1].lcn >= 0
    ensures var last := rl[|rl| - 1];
            Cells(rl[|rl| - 1 := last.(length := last.length + 1)]) == Cells(rl) + [last.lcn + last.length]
  {
    hide Cells, RunCells;
    var last := rl[|rl| - 1];
    var longer := last.(length := last.length + 1);
    SplitLast(rl);
    SplitLast(rl[|rl| - 1 := longer]);
    CellsConcat(rl[..|rl| - 1], [last]);
    OneRun(last);
    CellsConcat(rl[..|rl| - 1], [longer]);
    OneRun(longer);
    LongerRun(last);
  }

  lemma {:induction false} SplitLast(rl: seq<Run>)
    requires rl != []
    ensures rl[..|rl| - 1] + [rl[|rl| - 1]] == rl
  {
  }

  lemma {:induction false} SingleCell(vcn: int, x: nat)
    ensures RunCells(Run(vcn, x, 1)) == [x]
  {
  }

  lemma {:induction false} LongerRun(r: Run)
    requires r.lcn >= 0
    ensures RunCells(r.(length := r.length + 1)) == RunCells(r) + [r.lcn + r.length]
  {
  }

  lemma {:induction false} EmptyCells()
    ensures Cells([]) == []
  {
  }

  // ---- the volume -----------------------------------------------------------------------------

  datatype Zone = Mft | Data1 | Data2

  class Volume {
    const lcnbmp: array<Octet>
    const nrClusters: nat
    const mftLcn: nat
    const mftZoneStart: nat
    const mftZoneEnd: nat
    var freeClusters: int
    var mftZonePos: nat
    var data1ZonePos: nat
    var data2ZonePos: nat
    var fullZones: set<Zone>

    constructor (bitmap: array<Octet>, clusters: nat, mft: nat, zoneStart: nat, zoneEnd: nat, free: int)
      ensures lcnbmp == bitmap && nrClusters == clusters && mftLcn == mft && mftZoneStart == zoneStart
              && mftZoneEnd == zoneEnd
      ensures freeClusters == free && fullZones == {}
      ensures mftZonePos == mft && data1ZonePos == zoneEnd && data2ZonePos == 0
      ensures zoneStart <= mft < zoneEnd <= clusters <= 8 * bitmap.Length ==> Laid()
    {
      lcnbmp, nrClusters, mftLcn, mftZoneStart, mftZoneEnd := bitmap, clusters, mft, zoneStart, zoneEnd;
      freeClusters, fullZones := free, {};
      mftZonePos, data1ZonePos, data2ZonePos := mft, zoneEnd, 0;
    }

    /** The free count is right. */
    ghost predicate Valid()
      reads this, lcnbmp
    {
      freeClusters == ClearCount(lcnbmp[..])
    }

    function ZonePos(z: Zone): nat
      reads this
    {
      match z
      case Mft => mftZonePos
      case Data1 => data1ZonePos
      case Data2 => data2ZonePos
    }

    /** The zone a cluster lies in. */
    function ZoneOf(lcn: nat): Zone {
      if lcn < mftZoneStart then Data2 else if lcn < mftZoneEnd then Mft else Data1
    }

    function ZoneEndOf(z: Zone): nat {
      match z
      case Mft => mftZoneEnd
      case Data1 => nrClusters
      case Data2 => mftZoneStart
    }

    /** Where the second pass over a zone starts. */
    function ZoneStartOf(z: Zone): nat {
      match z
      case Mft => mftZoneStart
      case Data1 => mftZoneEnd
      case Data2 => 0
    }

    /** A position in a zone, or the start of an empty one. */
    predicate InZone(z: Zone, p: nat) {
      ZoneStartOf(z) <= p && (p < ZoneEndOf(z) || p == ZoneStartOf(z))
    }

    /** The zones follow one another, every cluster has its bit, and searches start inside their zones. */
    predicate Laid()
      reads this
    {
      && mftZoneStart <= mftZoneEnd <= nrClusters <= 8 * lcnbmp.Length && InZone(Mft, mftLcn)
      && InZone(Mft, mftZonePos) && InZone(Data1, data1ZonePos) && InZone(Data2, data2ZonePos)
    }

    /** Where the search of a zone starts after cluster `tc`, when it started at `pos` before. */
    function PosAfter(z: Zone, tc: nat, pos: nat): nat {
      var start := if z == Mft then mftLcn else ZoneStartOf(z);
      if tc >= ZoneEndOf(z) then start else if tc >= start then tc else pos
    }

    /** `ntfs_cluster_update_zone_pos`: remember where the next search of a zone may start. */
    method UpdateZonePos(z: Zone, tc: nat)
      modifies this`mftZonePos, this`data1ZonePos, this`data2ZonePos
      ensures forall y :: y != z ==> ZonePos(y) == old(ZonePos(y))
      ensures ZonePos(z) == PosAfter(z, tc, old(ZonePos(z))) && (old(Laid()) ==> Laid())
    {
      var start := if z == Mft then mftLcn else ZoneStartOf(z);
      var pos := if tc >= ZoneEndOf(z) then start else if tc >= start then tc else ZonePos(z);
      match z
      case Mft => mftZonePos := pos;
      case Data1 => data1ZonePos := pos;
      case Data2 => data2ZonePos := pos;
    }

    /** `update_full_status`: a freed cluster makes its zone worth searching again. */
    method UpdateFullStatus(lcn: nat)
      modifies this`mftZonePos, this`data1ZonePos, this`data2ZonePos, this`fullZones
      ensures old(Laid()) ==> Laid()
      ensures mftZoneStart <= mftZoneEnd ==> fullZones == old(fullZones) - {ZoneOf(lcn)}
      ensures mftZoneStart <= mftZoneEnd ==> forall z ::
                ZonePos(z) == if z == ZoneOf(lcn) && z in old(fullZones) then PosAfter(z, lcn, old(ZonePos(z)))
                              else old(ZonePos(z))
    {
      var z := if lcn >= mftZoneEnd then Data1 else if lcn < mftZoneStart then Data2 else Mft;
      if z in fullZones {
        UpdateZonePos(z, lcn);
        fullZones := fullZones - {z};
      }
    }

    /** `ntfs_cluster_free_basic`: clear a run of bits and count it. */
    method FreeBasic(lcn: int, count: nat)
      requires lcn >= 0 ==> lcn + count <= 8 * lcnbmp.Length && (lcn % 8 != 0 ==> lcn < 8 * lcnbmp.Length)
      modifies this, lcnbmp
      ensures forall k :: 0 <= k < 8 * lcnbmp.Length ==>
                Bit(lcnbmp[..], k) == (old(Bit(lcnbmp[..], k)) && !(0 <= lcn <= k < lcn + count))
      ensures freeClusters == old(freeClusters) + (if lcn >= 0 then count else 0)
      // the free count stays right if and only if all these clusters were in use
      ensures old(Valid()) ==>
                (Valid() <==> forall k :: 0 <= lcn <= k < lcn + count ==> old(Bit(lcnbmp[..], k)))
      // the zone of the first one will be searched again, from there on
      ensures lcn < 0 ==> fullZones == old(fullZones)
      ensures lcn >= 0 && mftZoneStart <= mftZoneEnd ==> fullZones == old(fullZones) - {ZoneOf(lcn)}
      ensures lcn >= 0 && mftZoneStart <= mftZoneEnd && ZoneOf(lcn) in old(fullZones) ==>
                ZonePos(ZoneOf(lcn)) == PosAfter(ZoneOf(lcn), lcn, old(ZonePos(ZoneOf(lcn))))
      ensures old(Laid()) ==> Laid()
    {
      hide Bit, ClearCount;
      ghost var was := lcnbmp[..];
      if lcn >= 0 {
        UpdateFullStatus(lcn);
        var ok := SetBitsInRun(lcnbmp, lcn, count, false);
        freeClusters := freeClusters + count;
        RunFreed(was, lcnbmp[..], lcn, count);
      } else {
        Restored(was, was, [], lcnbmp[..]);
      }
    }
  }

  lemma {:induction false} RunFreed(was: seq<Octet>, now: seq<Octet>, lcn: nat, count: nat)
    requires |was| == |now| && lcn + count <= 8 * |was|
    requires forall k :: 0 <= k < 8 * |was| ==> Bit(now, k) == (Bit(was, k) && !(lcn <= k < lcn + count))
    ensures ClearCount(now) == ClearCount(was) + count <==> forall k :: lcn <= k < lcn + count ==> Bit(was, k)
  {
    hide Bit, ClearCount;
    var r := Run(0, lcn, count);
    var cells := RunCells(r);
    InRun(r);
    RealSame(cells, true);
    FreedCount(was, now, cells);
    if InUse(was, cells) {
      forall k | lcn <= k < lcn + count
        ensures Bit(was, k)
      {
        assert cells[k - lcn] == k;
      }
    }
  }

  // ---- the window ------------------------------------------------------------------------------

  /** The bitmap with the window `buf` written at byte `base`. */
  function Overlay(bytes: seq<Octet>, base: nat, buf: seq<Octet>): (r: seq<Octet>)
    requires base + |buf| <= |bytes|
    ensures |r| == |bytes|
  {
    bytes[..base] + buf + bytes[base + |buf|..]
  }

  lemma {:induction false} OverlayBit(bytes: seq<Octet>, base: nat, buf: seq<Octet>, k: nat)
    requires base + |buf| <= |bytes| && k < 8 * |bytes|
    ensures Bit(Overlay(bytes, base, buf), k) ==
            (if 8 * base <= k < 8 * (base + |buf|) then Bit(buf, k - 8 * base) else Bit(bytes, k))
  {
    var o := Overlay(bytes, base, buf);
    var j := k / 8;
    assert o[j] == if base <= j < base + |buf| then buf[j - base] else bytes[j];
    if 8 * base <= k < 8 * (base + |buf|) {
      assert (k - 8 * base) / 8 == j - base && (k - 8 * base) % 8 == k % 8;
    }
  }

  lemma {:induction false} OverlayOneBit(bytes: seq<Octet>, base: nat, buf: seq<Octet>, buf': seq<Octet>, x: nat)
    requires base + |buf| <= |bytes| && OneBit(buf, buf', x, true) && !Bit(buf, x)
    ensures OneBit(Overlay(bytes, base, buf), Overlay(bytes, base, buf'), 8 * base + x, true)
    ensures !Bit(Overlay(bytes, base, buf), 8 * base + x)
  {
    hide Bit, Overlay;
    OverlayBit(bytes, base, buf, 8 * base + x);
    forall k | 0 <= k < 8 * |bytes|
      ensures Bit(Overlay(bytes, base, buf'), k)
              == (if k == 8 * base + x then true else Bit(Overlay(bytes, base, buf), k))
    {
      OverlayBit(bytes, base, buf, k);
      OverlayBit(bytes, base, buf', k);
    }
  }

  lemma {:induction false} OverlaySame(bytes: seq<Octet>, base: nat, n: nat)
    requires base + n <= |bytes|
    ensures Overlay(bytes, base, bytes[base..base + n]) == bytes
  {
  }

  // ---- the search ------------------------------------------------------------------------------

  /** The zones that can be under search after the given ones are done. */
  predicate Reachable(z: Zone, done: set<Zone>) {
    match z
    case Mft => done == {} || done == {Data1, Data2}
    case Data1 => done == {} || done == {Mft} || done == {Data2}
    case Data2 => done == {} || done == {Data1} || done == {Mft, Data1} || done == {Data1, Data2}
  }

  /** How many zones are still to be visited after this one; the lower data zone may come twice. */
  function Rank(z: Zone, done: set<Zone>): nat {
    match z
    case Mft => if done == {} then 2 else 0
    case Data1 => if Mft in done then 1 else 2
    case Data2 => if Mft in done then 0 else if Data1 in done then 1 else 3
  }

  function NextZone(z: Zone, done: set<Zone>): Zone {
    match z
    case Mft => Data1
    case Data1 => Data2
    case Data2 => if Data1 in done then Mft else Data1
  }

  lemma {:induction false} NextZoneRanks(z: Zone, done: set<Zone>)
    requires Reachable(z, done) && done + {z} != {Mft, Data1, Data2}
    ensures var z' := NextZone(z, done + {z});
            Reachable(z', done + {z}) && Rank(z', done + {z}) < Rank(z, done)
  {
    match z
    case Mft => assert done + {z} == {Mft};
    case Data1 =>
      if done == {} { assert done + {z} == {Data1}; }
      else if done == {Mft} { assert done + {z} == {Mft, Data1}; }
      else { assert done + {z} == {Data1, Data2}; }
    case Data2 =>
      if done == {} { assert done + {z} == {Data2}; }
      else { assert done + {z} == {Data1, Data2}; }
  }

  /** `n` consecutive clusters. */
  function Row(from: int, n: nat): (r: seq<int>) {
    seq(n, k => from + k)
  }

  lemma {:induction false} RowEmpty(cells: seq<int>, from: int)
    ensures cells + Row(from, 0) == cells
  {
  }

  lemma {:induction false} RowNext(cells: seq<int>, from: int, n: nat)
    ensures cells + Row(from, n) + [from + n] == cells + Row(from, n + 1)
  {
  }

  /** The bytes read at once from byte `base` on. */
  function Window(bytes: seq<Octet>, base: nat): (w: seq<Octet>)
    requires base < |bytes|
    ensures 0 < |w| <= BSIZE && base + |w| <= |bytes|
  {
    if base + BSIZE <= |bytes| then bytes[base..base + BSIZE] else bytes[base..]
  }

  /** The first visit takes cluster `x` first: the position itself if the caller gave it, else the start of
      the first longest run of clear bits of the window there. */
  ghost predicate Starts(bytes: seq<Octet>, pos: nat, guess: bool, x: int) {
    && pos < 8 * |bytes|
    && if guess then x == pos && !Bit(bytes, pos)
       else x >= 8 * (pos / 8) && LongestFrom(Window(bytes, pos / 8), x - 8 * (pos / 8))
  }

  ghost predicate LongestFrom(bytes: seq<Octet>, from: int) {
    exists n :: FirstLongest(bytes, from, n)
  }

  /** Where the searches of the three zones start. */
  datatype Positions = Positions(mft: nat, data1: nat, data2: nat)

  function At(at: Positions, z: Zone): nat {
    match z
    case Mft => at.mft
    case Data1 => at.data1
    case Data2 => at.data2
  }

  /** A hint that is the first cluster of a zone: its zone is searched from the position kept for it only. */
  predicate SkipsPass(vol: Volume, startLcn: int, z: Zone) {
    startLcn >= 0 && startLcn in {0, vol.mftZoneStart, vol.mftZoneEnd} && z == vol.ZoneOf(startLcn)
  }

  /** Window number `k` of a pass that starts at `s`. */
  function WindowAt(s: nat, k: nat): nat {
    if k == 0 then s else 8 * (s / 8 + BSIZE * k)
  }

  ghost predicate OnPass(s: nat, e: nat, p: nat) {
    exists k: nat :: p == WindowAt(s, k) && (k == 0 || p < e)
  }

  /** Cluster `x` is the hint, or in a window of a pass over a zone that was not marked full. */
  ghost predicate Covered(vol: Volume, at: Positions, full: set<Zone>, startLcn: int, x: int) {
    || x == startLcn
    || exists z, p: nat :: z !in full && Passes(vol, at, startLcn, z, p) && 8 * (p / 8) <= x < 8 * (p / 8) + 8 * BSIZE
  }

  /** A pass over zone `z` has a window at `p`. */
  ghost predicate Passes(vol: Volume, at: Positions, startLcn: int, z: Zone, p: nat) {
    || OnPass(At(at, z), vol.ZoneEndOf(z), p)
    || (!SkipsPass(vol, startLcn, z) && OnPass(vol.ZoneStartOf(z), vol.ZoneEndOf(z), p))
  }

  /** What is found in a visited window is covered. */
  lemma {:induction false} FoundCovered(vol: Volume, at: Positions, full: set<Zone>, hint: int, z: Zone, used: bool,
                                        s: nat, p: nat, x: int)
    requires 8 * (p / 8) <= x < 8 * (p / 8) + 8 * BSIZE && (!used ==> x == p && (p == hint || z !in full))
    requires used ==> z !in full && OnPass(s, vol.ZoneEndOf(z), p)
    requires used ==> s == At(at, z) || (s == vol.ZoneStartOf(z) && !SkipsPass(vol, hint, z))
    requires !used ==> p == hint || Passes(vol, at, hint, z, p)
    ensures Covered(vol, at, full, hint, x)
  {
    hide OnPass;
    assert used ==> Passes(vol, at, hint, z, p);
  }

  lemma {:induction false} WindowBehind(s: nat, e: nat, p: nat)
    requires OnPass(s, e, p)
    ensures var q := 8 * (p / 8 + BSIZE); q < e ==> OnPass(s, e, q)
  {
    var k: nat :| p == WindowAt(s, k) && (k == 0 || p < e);
    assert 8 * (p / 8 + BSIZE) == WindowAt(s, k + 1);
  }

  lemma {:induction false} FirstOnPass(s: nat, e: nat)
    ensures OnPass(s, e, s)
  {
    assert s == WindowAt(s, 0);
  }

  /** The clusters from `a` to `b` that have a bit are in use. */
  ghost predicate AllSet(bytes: seq<Octet>, a: int, b: int) {
    forall k :: 0 <= a <= k < b && k < 8 * |bytes| ==> Bit(bytes, k)
  }

  /** `x` is the last cluster of the runs. */
  ghost predicate LastCell(rl: seq<Run>, x: int) {
    Cells(rl) != [] && Cells(rl)[|Cells(rl)| - 1] == x
  }

  lemma {:induction false} BytesRead(bytes: seq<Octet>, base: nat)
    ensures base < |bytes| ==>
              |Window(bytes, base)| == (if base + BSIZE <= |bytes| then BSIZE else |bytes| - base) > 0
  {
  }

  lemma {:induction false} TakenSize(was: seq<Octet>, now: seq<Octet>, cells: seq<int>)
    requires Taken(was, now, cells)
    ensures |was| == |now|
  {
  }

  lemma {:induction false} UntakenYet(was: seq<Octet>, now: seq<Octet>, rl: seq<Run>)
    requires Taken(was, now, Cells(rl))
    ensures rl == [] ==> was == now
  {
    hide Taken, Cells;
    if rl == [] {
      EmptyCells();
      Untaken(was, now);
    }
  }

  lemma {:induction false} WindowIs(bytes: seq<Octet>, base: nat, n: nat)
    requires base < |bytes| && n == |Window(bytes, base)|
    ensures base + n <= |bytes| && 0 < n && Window(bytes, base) == bytes[base..base + n]
  {
  }

  /** What the first visit of a window takes, if anything. */
  lemma {:induction false} FirstVisit(bytes: seq<Octet>, pos: nat, guess: bool, from: int, length: nat)
    requires pos / 8 < |bytes|
    requires if guess then from == pos % 8 else FirstLongest(Window(bytes, pos / 8), from, length)
    ensures var w := Window(bytes, pos / 8);
            && (forall x :: Starts(bytes, pos, guess, x) ==>
                  0 <= from < 8 * |w| && !Bit(w, from) && x == 8 * (pos / 8) + from)
            && (!guess && !(0 <= from < 8 * |w| && !Bit(w, from)) ==>
                  AllSet(bytes, 8 * (pos / 8), 8 * (pos / 8 + |w|)))
  {
    hide Bit, FirstLongest;
    var base := pos / 8;
    var w := Window(bytes, base);
    WindowIs(bytes, base, |w|);
    WindowBit(bytes, base, |w|, pos);
    forall x | Starts(bytes, pos, guess, x)
      ensures 0 <= from < 8 * |w| && !Bit(w, from) && x == 8 * base + from
    {
      if !guess {
        var n :| FirstLongest(w, x - 8 * base, n);
        FirstLongestUnique(w, from, length, x - 8 * base, n);
        LongestIsClear(w, from, length);
      }
    }
    if !guess && !(0 <= from < 8 * |w| && !Bit(w, from)) {
      LongestIsClear(w, from, length);
      FullWindow(bytes, base, w, length);
    }
  }

  lemma {:induction false} FullWindow(bytes: seq<Octet>, base: nat, w: seq<Octet>, length: nat)
    requires base + |w| <= |bytes| && w == bytes[base..base + |w|] && FirstLongest(w, -1, length)
    ensures AllSet(bytes, 8 * base, 8 * (base + |w|))
  {
    forall k | 8 * base <= k < 8 * (base + |w|)
      ensures Bit(bytes, k)
    {
      assert Bit(w, k - 8 * base);
      assert (k - 8 * base) / 8 == k / 8 - base && (k - 8 * base) % 8 == k % 8;
    }
  }

  lemma {:induction false} AllSetNone(bytes: seq<Octet>, a: int)
    ensures AllSet(bytes, a, a)
  {
  }

  lemma {:induction false} AllSetTo(bytes: seq<Octet>, a: int, b: int, c: int)
    requires AllSet(bytes, a, b) && (b >= c || b >= 8 * |bytes|)
    ensures AllSet(bytes, a, c)
  {
    hide Bit;
  }

  lemma {:induction false} AllSetJoin(bytes: seq<Octet>, a: int, b: int, c: int, d: int)
    requires 0 <= a && 0 <= c <= b && AllSet(bytes, a, b) && AllSet(bytes, c, d)
    ensures AllSet(bytes, a, d)
  {
    hide Bit;
  }

  /** The variables of a search for clusters. */
  class Search {
    const vol: Volume
    const startVcn: int
    const count: nat
    ghost const was: seq<Octet>
    ghost const full: set<Zone>
    ghost const thorough: bool
    ghost const tracked: bool
    ghost const hint: int
    ghost const at: Positions
    var rl: seq<Run>
    var clusters: nat
    var zone: Zone
    var pass: nat
    var zoneStart: nat
    var zoneEnd: nat
    var bmpPos: nat
    var doneZones: set<Zone>
    var hasGuess: bool
    var usedZonePos: bool

    constructor (v: Volume, vcn: int, n: nat, startLcn: int, dataZone: bool)
      requires v.Valid() && n > 0
      ensures vol == v && startVcn == vcn && count == n && was == v.lcnbmp[..] && fresh(this)
      ensures Valid() && clusters == n && rl == []
      // the search starts at the hint, or where the last one of the zone asked for left off
      ensures bmpPos == (if startLcn >= 0 then startLcn else v.ZonePos(if dataZone then Data1 else Mft))
      ensures zoneStart == bmpPos && zone == v.ZoneOf(bmpPos) && zoneEnd == v.ZoneEndOf(zone)
      ensures pass == (if zoneStart in {0, v.mftZoneStart, v.mftZoneEnd} then 2 else 1)
      ensures hasGuess == (startLcn >= 0) && usedZonePos == (startLcn < 0)
      ensures full == v.fullZones && thorough == Thorough(v, startLcn) && Sweeping() && OnTrack()
      ensures tracked == (v.Laid() && startLcn < 8 * v.lcnbmp.Length)
      ensures hint == startLcn && at == Positions(v.mftZonePos, v.data1ZonePos, v.data2ZonePos)
    {
      vol, startVcn, count, was := v, vcn, n, v.lcnbmp[..];
      full, thorough := v.fullZones, Thorough(v, startLcn);
      hint, at := startLcn, Positions(v.mftZonePos, v.data1ZonePos, v.data2ZonePos);
      tracked := v.Laid() && startLcn < 8 * v.lcnbmp.Length;
      rl, clusters, doneZones := [], n, {};
      hasGuess := startLcn >= 0;
      usedZonePos := startLcn < 0;
      var start := if startLcn >= 0 then startLcn else if dataZone then v.data1ZonePos else v.mftZonePos;
      zoneStart, bmpPos := start, start;
      pass := if start == 0 || start == v.mftZoneStart || start == v.mftZoneEnd then 2 else 1;
      zone := v.ZoneOf(start);
      zoneEnd := v.ZoneEndOf(v.ZoneOf(start));
      FirstOnPass(start, v.ZoneEndOf(v.ZoneOf(start)));
      new;
      NothingTaken(was);
    }

    /** The position kept for the zone follows cluster `x`. */
    ghost predicate Resumes(x: int)
      reads this, vol
    {
      x >= 0 && vol.ZonePos(zone) == vol.PosAfter(zone, x + 1 + SKIP, vol.ZonePos(zone))
    }

    /** No zone is left before all of it has been looked at: true without a hint, and with a hint that is a
        cluster of the volume, but not the first one of a zone. */
    static predicate Thorough(v: Volume, startLcn: int)
      reads v
    {
      && v.Laid()
      && (startLcn >= 0 ==>
            startLcn < 8 * v.lcnbmp.Length && startLcn != 0 && startLcn != v.mftZoneStart && startLcn != v.mftZoneEnd)
    }

    /** As long as nothing has been found, the search follows the passes over the zones not marked full. */
    ghost predicate OnTrack()
      reads this, vol
    {
      TrackKept() && (tracked && rl == [] && zone !in vol.fullZones ==>
                        if usedZonePos then OnZone()
                        else
                          && zoneEnd <= vol.ZoneEndOf(zone) && bmpPos < 8 * vol.lcnbmp.Length
                          && (bmpPos == hint || Passes(vol, at, hint, zone, bmpPos)))
    }

    /** The zone of a hint at its start has been left. */
    ghost predicate TrackLeft()
      reads this, vol
    {
      && vol.Laid() && vol.mftZonePos == at.mft && vol.data1ZonePos == at.data1 && vol.data2ZonePos == at.data2
      && full <= vol.fullZones && forall z :: SkipsPass(vol, hint, z) ==> z in vol.fullZones
    }

    ghost predicate TrackKept()
      reads this, vol
    {
      tracked && rl == [] ==>
        && vol.Laid() && vol.mftZonePos == at.mft && vol.data1ZonePos == at.data1 && vol.data2ZonePos == at.data2
        && full <= vol.fullZones
        && (forall z :: SkipsPass(vol, hint, z) && z !in vol.fullZones ==> zone == z && pass == 2)
    }

    /** In the pass from the position kept, or in one from the start of the zone; the position is that of a
        window, or behind the last one. */
    ghost predicate OnZone()
      reads this, vol
    {
      && (zoneStart == At(at, zone) || (zoneStart == vol.ZoneStartOf(zone) && !SkipsPass(vol, hint, zone)))
      && (bmpPos == zoneStart || bmpPos < zoneEnd ==> OnPass(zoneStart, vol.ZoneEndOf(zone), bmpPos))
      && (zoneEnd <= vol.ZoneEndOf(zone))
    }

    /** As long as nothing has been found: what has been looked at is in use. */
    ghost predicate Sweeping()
      reads this, vol
    {
      Books() && (thorough && rl == [] && zone !in vol.fullZones ==> if usedZonePos then Swept() else Untried())
    }

    /** The zones that are done have no free cluster, unless they were marked full before. */
    ghost predicate Books()
      reads this, vol
    {
      thorough ==>
        && vol.Laid() && vol.fullZones == full + doneZones
        && (rl == [] ==>
              && (usedZonePos ==> !hasGuess)
              && forall z :: z in doneZones && z !in full ==> AllSet(was, vol.ZoneStartOf(z), vol.ZoneEndOf(z)))
    }

    /** So has the zone under search. */
    ghost predicate Finished()
      reads this
    {
      thorough && rl == [] && zone !in full ==> AllSet(was, vol.ZoneStartOf(zone), vol.ZoneEndOf(zone))
    }

    /** Inside a pass: what lies between the start of the pass and the position, and, in the second pass,
        what the first one covered. */
    ghost predicate Swept()
      reads this, vol
    {
      if pass == 1 then
        && zoneEnd == vol.ZoneEndOf(zone) && vol.ZoneStartOf(zone) <= zoneStart && AllSet(was, zoneStart, bmpPos)
      else
        && AllSet(was, vol.ZoneStartOf(zone), bmpPos) && AllSet(was, zoneEnd, vol.ZoneEndOf(zone))
    }

    /** The caller's hint is still to be tried before the pass begins. */
    ghost predicate Untried()
      reads this, vol
    {
      && zoneEnd == vol.ZoneEndOf(zone) && bmpPos < 8 * vol.lcnbmp.Length
      && (pass == 1 || vol.ZonePos(zone) == vol.ZoneStartOf(zone))
    }

    /** What has been found so far, given the current contents of the bitmap. */
    ghost predicate Progress(bytes: seq<Octet>)
      reads this`rl, this`clusters, vol`freeClusters
    {
      && Taken(was, bytes, Cells(rl)) && Consecutive(rl, startVcn) && |Cells(rl)| + clusters == count
      && vol.freeClusters == ClearCount(bytes)
    }

    ghost predicate Valid()
      reads this, vol, vol.lcnbmp
    {
      && Progress(vol.lcnbmp[..]) && clusters > 0 && 1 <= pass <= 2
      && Reachable(zone, doneZones) && doneZones <= vol.fullZones
    }

    /** Take the clear bit `lcn` of the window. */
    method Take(buf: array<Octet>, base: nat, lcn: nat)
      requires base + buf.Length <= vol.lcnbmp.Length && buf != vol.lcnbmp && lcn < 8 * buf.Length
      requires Progress(Overlay(vol.lcnbmp[..], base, buf[..])) && clusters > 0 && !Bit(buf[..], lcn)
      modifies buf, this`rl, this`clusters, vol`freeClusters
      ensures Progress(Overlay(vol.lcnbmp[..], base, buf[..])) && clusters == old(clusters) - 1
      ensures OneBit(old(buf[..]), buf[..], lcn, true) && rl == AddCluster(old(rl), startVcn, 8 * base + lcn)
      ensures Cells(rl) == old(Cells(rl)) + [8 * base + lcn]
      ensures rl != [] && rl[0].lcn == (if old(rl) == [] then 8 * base + lcn else old(rl[0].lcn))
    {
      hide Bit, Overlay, Taken, Cells, Consecutive, AddCluster, ClearCount;
      ghost var b, bytes := buf[..], vol.lcnbmp[..];
      SetBit(buf, lcn, true);
      OverlayOneBit(bytes, base, b, buf[..], lcn);
      TakeOne(was, Overlay(bytes, base, b), Cells(rl), 8 * base + lcn, Overlay(bytes, base, buf[..]));
      TakenCounts(was, Overlay(bytes, base, b), Cells(rl));
      TakenCounts(was, Overlay(bytes, base, buf[..]), Cells(rl) + [8 * base + lcn]);
      AddClusterConsecutive(rl, startVcn, 8 * base + lcn);
      LastAllocated(rl, startVcn);
      AddClusterCells(rl, startVcn, 8 * base + lcn);
      AddClusterFirst(rl, startVcn, 8 * base + lcn);
      if vol.freeClusters > 0 {
        vol.freeClusters := vol.freeClusters - 1;
      }
      rl := AddCluster(rl, startVcn, 8 * base + lcn);
      clusters := clusters - 1;
    }

    /** Take clusters of one window: from the guessed position, or else from the start of the first
        longest clear run, up to the next set bit. */
    method ScanBuffer(buf: array<Octet>, base: nat, lcn0: nat) returns (lcn: nat, ghost from: int, ghost length: nat)
      requires 0 < buf.Length && base + buf.Length <= vol.lcnbmp.Length && buf != vol.lcnbmp && lcn0 < 8
      requires Progress(Overlay(vol.lcnbmp[..], base, buf[..])) && clusters > 0
      modifies buf, this`rl, this`clusters, this`hasGuess, vol`freeClusters
      ensures Progress(Overlay(vol.lcnbmp[..], base, buf[..]))
      ensures if old(hasGuess) then from == lcn0 else FirstLongest(old(buf[..]), from, length)
      // the search takes at least the first cluster there, if it is clear
      ensures 0 <= from < 8 * buf.Length && !Bit(old(buf[..]), from) ==>
                && clusters < old(clusters) && rl != []
                && rl[0].lcn == (if old(rl) == [] then 8 * base + from else old(rl[0].lcn))
      ensures !(0 <= from < 8 * buf.Length && !Bit(old(buf[..]), from)) ==> rl == old(rl) && !hasGuess
      ensures clusters == 0 ==> LastCell(rl, 8 * base + lcn)
      // and what it takes are consecutive clusters from there
      ensures clusters <= old(clusters) && Cells(rl) == old(Cells(rl)) + Row(8 * base + from, old(clusters) - clusters)
      // up to the next set bit or the end of the window, unless that is more than needed
      ensures var next := from + (old(clusters) - clusters);
              0 <= from && clusters > 0 ==> next == 8 * buf.Length || (next < 8 * buf.Length && Bit(old(buf[..]), next))
      // a run that goes on to the end of the window is followed into the next one
      ensures clusters > 0 && rl != old(rl) ==> hasGuess == (from + (old(clusters) - clusters) == 8 * buf.Length)
    {
      hide Bit, Overlay, Taken, Cells, Consecutive, ClearCount, FirstLongest, Row, LastCell;
      lcn, from, length := lcn0, lcn0, 0;
      if !hasGuess {
        var start;
        start, length := MaxEmptyBitRange(buf[..]);
        from := start;
        LongestIsClear(buf[..], start, length);
        if start < 0 {
          RowEmpty(Cells(rl), 8 * base + from);
          return;
        }
        lcn := start;
        hasGuess := true;
      }
      lcn := TakeFrom(buf, base, lcn);
    }

    /** Take clusters from bit `from` of the window on, up to the next set bit. */
    method TakeFrom(buf: array<Octet>, base: nat, from: nat) returns (lcn: nat)
      requires base + buf.Length <= vol.lcnbmp.Length && buf != vol.lcnbmp && from < 8 * buf.Length
      requires Progress(Overlay(vol.lcnbmp[..], base, buf[..])) && clusters > 0 && hasGuess
      modifies buf, this`rl, this`clusters, this`hasGuess, vol`freeClusters
      ensures Progress(Overlay(vol.lcnbmp[..], base, buf[..]))
      ensures clusters > 0 ==> hasGuess == (from + (old(clusters) - clusters) == 8 * buf.Length)
      ensures !Bit(old(buf[..]), from) ==>
                clusters < old(clusters) && rl != []
                    && rl[0].lcn == (if old(rl) == [] then 8 * base + from else old(rl[0].lcn))
      ensures Bit(old(buf[..]), from) ==> rl == old(rl) && !hasGuess
      ensures clusters == 0 ==> LastCell(rl, 8 * base + lcn)
      ensures clusters <= old(clusters) && Cells(rl) == old(Cells(rl)) + Row(8 * base + from, old(clusters) - clusters)
      // up to the next set bit or the end of the window, unless that is more than needed
      ensures var next := from + (old(clusters) - clusters);
              0 <= from && clusters > 0 ==> next == 8 * buf.Length || (next < 8 * buf.Length && Bit(old(buf[..]), next))
    {
      hide Bit, Overlay, Progress, Cells, Row, AddCluster;
      lcn := from;
      ghost var cells, b0 := Cells(rl), buf[..];
      RowEmpty(cells, 8 * base + from);
      while lcn < 8 * buf.Length
        invariant from <= lcn <= 8 * buf.Length && clusters > 0 && |buf[..]| == |b0| && hasGuess
        invariant Progress(Overlay(vol.lcnbmp[..], base, buf[..]))
        invariant clusters == old(clusters) - (lcn - from) && Cells(rl) == cells + Row(8 * base + from, lcn - from)
        invariant forall k :: lcn <= k < 8 * buf.Length ==> Bit(buf[..], k) == Bit(b0, k)
        invariant lcn == from ==> buf[..] == b0 && rl == old(rl)
        invariant lcn > from ==>
                  && !Bit(b0, from) && rl != []
                  && rl[0].lcn == (if old(rl) == [] then 8 * base + from else old(rl[0].lcn))
      {
        var inUse := buf[lcn / 8][lcn % 8];
        BitIs(buf[..], lcn);
        if inUse {
          hasGuess := false;
          break;
        }
        RowNext(cells, 8 * base + from, lcn - from);
        ghost var before := Cells(rl);
        Take(buf, base, lcn);
        assert Cells(rl) == before + [8 * base + lcn];
        if clusters == 0 {
          return;
        }
        lcn := lcn + 1;
      }
    }

    /** Read the `n` bytes from `base` on, take what can be taken, and write them back. */
    method Harvest(base: nat, n: nat) returns (lcn: nat)
      requires base == bmpPos / 8 < vol.lcnbmp.Length && n == |Window(vol.lcnbmp[..], base)|
      requires clusters > 0 && Progress(vol.lcnbmp[..])
      modifies this`rl, this`clusters, this`hasGuess, vol`freeClusters, vol.lcnbmp
      ensures Progress(vol.lcnbmp[..])
      ensures old(rl) == [] ==>
                forall x :: Starts(old(vol.lcnbmp[..]), old(bmpPos), old(hasGuess), x) ==> rl != [] && rl[0].lcn == x
      ensures old(rl) == [] && rl != [] ==>
                8 * base <= rl[0].lcn < 8 * (base + n) && (old(hasGuess) ==> rl[0].lcn == old(bmpPos))
      ensures old(rl) != [] ==> rl != [] && rl[0].lcn == old(rl[0].lcn)
      // nothing is taken from a window only if it is full, or the hint was in use
      ensures rl == [] ==> !hasGuess && (!old(hasGuess) ==> AllSet(old(vol.lcnbmp[..]), 8 * base, 8 * (base + n)))
      ensures clusters == 0 ==> LastCell(rl, lcn + 8 * base)
    {
      hide Overlay, Taken, Cells, Consecutive, ClearCount, FirstLongest, Bit, Window, Starts, AllSet, LastCell;
      ghost var bytes, guess, pos := vol.lcnbmp[..], hasGuess, bmpPos;
      WindowIs(bytes, base, n);
      var buf := ReadWindow(base, n);
      OverlaySame(bytes, base, n);
      ghost var from, length;
      lcn, from, length := ScanBuffer(buf, base, bmpPos % 8);
      WriteBack(buf, base);
      FirstVisit(bytes, pos, guess, from, length);
    }

    method ReadWindow(base: nat, n: nat) returns (buf: array<Octet>)
      requires base + n <= vol.lcnbmp.Length
      ensures fresh(buf) && buf.Length == n && buf[..] == vol.lcnbmp[base..base + n]
    {
      buf := new Octet[n](_ => Uniform(false));
      var k := 0;
      while k < n
        invariant k <= n && forall j :: 0 <= j < k ==> buf[j] == vol.lcnbmp[base + j]
      {
        buf[k] := vol.lcnbmp[base + k];
        k := k + 1;
      }
    }

    /** Visit one window, then move on: to the next window, or, after the caller's hint has been
        tried, to the remembered position of the zone. */
    method VisitWindow() returns (done: bool)
      requires Valid() && Sweeping() && OnTrack() && zone !in vol.fullZones && bmpPos / 8 < vol.lcnbmp.Length
      requires rl == [] && !usedZonePos ==> hasGuess
      // only the first window of a pass is visited without regard to the end of the zone
      requires usedZonePos ==> bmpPos == zoneStart || bmpPos < zoneEnd
      modifies this, vol, vol.lcnbmp
      ensures !done ==> bmpPos == (if old(usedZonePos) then 8 * (old(bmpPos) / 8 + |Window(old(vol.lcnbmp[..]),
                                                                                            old(bmpPos) / 8)|)
                                   else zoneStart)
      ensures done ==> clusters == 0 && Progress(vol.lcnbmp[..])
      ensures old(vol.Laid()) ==> vol.Laid()
      ensures !done ==> Valid() && usedZonePos && Sweeping() && OnTrack()
      ensures tracked && old(rl) == [] && rl != [] ==> Covered(vol, at, full, hint, rl[0].lcn)
      // the next search of the zone goes on some clusters behind the last one taken
      ensures done && old(usedZonePos) ==> exists x :: LastCell(rl, x) && Resumes(x)
      ensures zone == old(zone) && doneZones == old(doneZones) && vol.fullZones == old(vol.fullZones)
      ensures old(usedZonePos) && !done ==> pass == old(pass) && zoneEnd == old(zoneEnd) && bmpPos > old(bmpPos)
      ensures pass >= old(pass)
      ensures old(rl) == [] ==>
                forall x :: Starts(old(vol.lcnbmp[..]), old(bmpPos), old(hasGuess), x) ==> rl != [] && rl[0].lcn == x
      ensures old(rl) != [] ==> rl != [] && rl[0].lcn == old(rl[0].lcn)
    {
      hide Taken, Cells, Consecutive, ClearCount, Reachable, Bit, Starts, AllSet, LastCell, Window, Covered, OnPass,
           Passes;
      ghost var bytes := vol.lcnbmp[..];
      BytesRead(bytes, bmpPos / 8);
      UntakenYet(was, bytes, rl);
      var base := bmpPos / 8;
      var n := if base + BSIZE <= vol.lcnbmp.Length then BSIZE else vol.lcnbmp.Length - base;
      ghost var pos := bmpPos;
      var lcn := Harvest(base, n);
      if tracked && old(rl) == [] && rl != [] {
        FoundCovered(vol, at, full, hint, old(zone), old(usedZonePos), old(zoneStart), pos, rl[0].lcn);
      }
      done := clusters == 0;
      if done {
        if usedZonePos {
          vol.UpdateZonePos(zone, lcn + 8 * base + 1 + SKIP);
        }
      } else if !usedZonePos {
        BeginPass();
      } else {
        GoOn(base, n);
      }
    }

    /** Once the hint has been tried, the pass begins. */
    method BeginPass()
      requires Valid() && zone !in vol.fullZones && Books() && OnTrack() && (rl == [] ==> !hasGuess) && !usedZonePos
      requires thorough && rl == [] ==> Untried()
      modifies this`usedZonePos, this`zoneStart, this`pass, this`bmpPos
      ensures Valid() && usedZonePos && Sweeping() && OnTrack() && zoneStart == bmpPos == vol.ZonePos(zone)
      ensures pass == if zoneStart in {0, vol.mftZoneStart, vol.mftZoneEnd} then 2 else old(pass)
    {
      hide Progress, Reachable, AllSet, OnPass, Passes;
      usedZonePos := true;
      zoneStart := vol.ZonePos(zone);
      if zoneStart == 0 || zoneStart == vol.mftZoneStart || zoneStart == vol.mftZoneEnd {
        pass := 2;
      }
      bmpPos := zoneStart;
      AllSetNone(was, zoneStart);
      AllSetNone(was, zoneEnd);
      FirstOnPass(zoneStart, vol.ZoneEndOf(zone));
    }

    /** The pass goes on behind the window of `n` bytes. */
    method GoOn(base: nat, n: nat)
      requires Valid() && zone !in vol.fullZones && base == bmpPos / 8 && (n == BSIZE || base + n == vol.lcnbmp.Length)
      requires Books() && OnTrack() && (rl == [] ==> !hasGuess) && usedZonePos
      requires (bmpPos == zoneStart || bmpPos < zoneEnd) && base < vol.lcnbmp.Length
      requires thorough && rl == [] ==> Swept() && AllSet(was, 8 * base, 8 * (base + n))
      modifies this`bmpPos
      ensures Valid() && Sweeping() && OnTrack() && bmpPos == 8 * (base + n)
    {
      hide Progress, Reachable, AllSet, OnPass, Passes;
      if tracked && rl == [] {
        FirstOnPass(zoneStart, vol.ZoneEndOf(zone));
        WindowBehind(zoneStart, vol.ZoneEndOf(zone), bmpPos);
      }
      if thorough && rl == [] {
        AllSetJoin(was, if pass == 1 then zoneStart else vol.ZoneStartOf(zone), bmpPos, 8 * base, 8 * (base + n));
      }
      bmpPos := 8 * base + 8 * n;
    }

    method WriteBack(buf: array<Octet>, base: nat)
      requires base + buf.Length <= vol.lcnbmp.Length && buf != vol.lcnbmp
      modifies vol.lcnbmp
      ensures vol.lcnbmp[..] == old(Overlay(vol.lcnbmp[..], base, buf[..]))
    {
      ghost var bytes := vol.lcnbmp[..];
      var k := 0;
      while k < buf.Length
        invariant k <= buf.Length
        invariant forall j :: 0 <= j < vol.lcnbmp.Length ==>
                    vol.lcnbmp[j] == (if base <= j < base + k then buf[j - base] else bytes[j])
      {
        vol.lcnbmp[base + k] := buf[k];
        k := k + 1;
      }
    }

    /** A pass over a zone is finished: start its second pass, or go on to the next zone. */
    method PassDone() returns (more: bool)
      requires Valid() && Sweeping() && OnTrack()
      requires zone !in vol.fullZones ==>
                 (usedZonePos && bmpPos >= zoneEnd) || bmpPos / 8 >= vol.lcnbmp.Length
      modifies this, vol
      ensures usedZonePos == old(usedZonePos) && hasGuess == old(hasGuess) && (old(vol.Laid()) ==> vol.Laid())
      ensures more ==> OnTrack()
      ensures if more then Sweeping() else Books() && doneZones == {Mft, Data1, Data2}
      ensures Progress(vol.lcnbmp[..]) && rl == old(rl) && clusters == old(clusters)
      ensures more ==> Valid()
      ensures more ==> Rank(zone, doneZones) < old(Rank(zone, doneZones))
                       || (zone == old(zone) && doneZones == old(doneZones) && old(pass) == 1 && pass == 2)
      // after the first pass, the second one goes from the start of the zone to where the first one began
      ensures old(pass) == 1 ==>
                && more && pass == 2 && zoneStart == bmpPos == vol.ZoneStartOf(zone) && zone == old(zone)
                && zoneEnd == if old(zoneStart) < zoneStart then zoneStart else old(zoneStart)
      ensures more ==> bmpPos == zoneStart
      // when the search gives up, every zone has been marked full
      ensures !more ==> vol.fullZones == {Mft, Data1, Data2}
    {
      hide Taken, Cells, Consecutive, ClearCount, Reachable, Rank, AllSet, OnPass, Passes;
      more := true;
      FirstOnPass(vol.ZoneStartOf(zone), vol.ZoneEndOf(zone));
      TakenSize(was, vol.lcnbmp[..], Cells(rl));
      EndOfPass();
      if pass == 1 {
        AllSetNone(was, vol.ZoneStartOf(zone));
        pass := 2;
        zoneEnd := zoneStart;
        zoneStart := vol.ZoneStartOf(zone);
        if zoneEnd < zoneStart {
          zoneEnd := zoneStart;
        }
        bmpPos := zoneStart;
        return;
      }
      var empty := true;
      ghost var rank := Rank(zone, doneZones);
      while empty
        invariant Valid() && rl == old(rl) && clusters == old(clusters) && usedZonePos == old(usedZonePos)
        invariant hasGuess == old(hasGuess) && TrackKept() && (!empty ==> OnTrack())
        invariant bmpPos == zoneStart || empty
        invariant Books() && (if empty then Finished() else Sweeping()) && (old(vol.Laid()) ==> vol.Laid())
        invariant if empty then Rank(zone, doneZones) <= rank else Rank(zone, doneZones) < rank
        decreases empty, Rank(zone, doneZones)
      {
        if doneZones + {zone} == {Mft, Data1, Data2} {
          doneZones := doneZones + {zone};
          vol.fullZones := vol.fullZones + {zone};
          AllZones(vol.fullZones);
          more := false;
          return;
        }
        NextZoneRanks(zone, doneZones);
        empty := SwitchZone();
      }
    }

    /** What a finished pass has covered. */
    lemma {:induction false} EndOfPass()
      requires Sweeping() && 1 <= pass <= 2
      requires zone !in vol.fullZones ==>
                 (usedZonePos && bmpPos >= zoneEnd) || bmpPos / 8 >= vol.lcnbmp.Length
      requires |was| == vol.lcnbmp.Length
      ensures pass == 2 ==> Finished()
      ensures pass == 1 && thorough && rl == [] && zone !in vol.fullZones ==>
                usedZonePos && vol.ZoneStartOf(zone) <= zoneStart && AllSet(was, zoneStart, vol.ZoneEndOf(zone))
    {
      hide AllSet;
      if thorough && rl == [] && zone !in vol.fullZones {
        if pass == 1 {
          AllSetTo(was, zoneStart, bmpPos, vol.ZoneEndOf(zone));
        } else {
          AllSetTo(was, vol.ZoneStartOf(zone), bmpPos, zoneEnd);
          AllSetJoin(was, vol.ZoneStartOf(zone), zoneEnd, zoneEnd, vol.ZoneEndOf(zone));
        }
      }
    }

    /** Mark the zone as done and full, and set up the next one; is that zone empty? */
    method SwitchZone() returns (empty: bool)
      requires Valid() && Reachable(NextZone(zone, doneZones + {zone}), doneZones + {zone}) && Books() && Finished()
      requires TrackKept()
      modifies this, vol
      ensures hasGuess == old(hasGuess) && TrackKept() && (!empty ==> OnTrack())
      ensures Books() && (if empty then Finished() else Sweeping()) && (old(vol.Laid()) ==> vol.Laid())
      // the next search of the zone left goes on some clusters behind the last run
      ensures forall z :: vol.ZonePos(z) == if old(rl != [] && usedZonePos && z == zone)
                then vol.PosAfter(z, old(rl[|rl| - 1].lcn + rl[|rl| - 1].length) + SKIP, old(vol.ZonePos(z)))
                else old(vol.ZonePos(z))
      ensures usedZonePos == old(usedZonePos)
      ensures Valid() && rl == old(rl) && clusters == old(clusters)
      ensures doneZones == old(doneZones + {zone}) && zone == old(NextZone(zone, doneZones + {zone}))
      ensures vol.fullZones == old(vol.fullZones + {zone})
      // the search goes on where the zone was left last, in one pass if that is the start of the zone
      ensures zoneStart == bmpPos == vol.ZonePos(zone) && zoneEnd == vol.ZoneEndOf(zone)
      ensures pass == (if zoneStart == vol.ZoneStartOf(zone) then 2 else 1) && empty == (zoneStart == zoneEnd)
    {
      hide Progress, Reachable, Books, Finished, Sweeping, TrackKept, OnTrack;
      LeaveZone();
      empty := EnterZone(NextZone(zone, doneZones));
    }

    method LeaveZone()
      requires Valid() && Books() && Finished() && TrackKept()
      ensures tracked && rl == [] ==> TrackLeft()
      modifies this`doneZones, vol`fullZones, vol`mftZonePos, vol`data1ZonePos, vol`data2ZonePos
      ensures Progress(vol.lcnbmp[..]) && Books() && (old(vol.Laid()) ==> vol.Laid())
      ensures doneZones == old(doneZones) + {zone} && vol.fullZones == old(vol.fullZones) + {zone}
      ensures forall z :: vol.ZonePos(z) == if rl != [] && usedZonePos && z == zone
                then vol.PosAfter(z, rl[|rl| - 1].lcn + rl[|rl| - 1].length + SKIP, old(vol.ZonePos(z)))
                else old(vol.ZonePos(z))
    {
      hide Taken, Cells, Consecutive, ClearCount, Reachable, AllSet;
      doneZones := doneZones + {zone};
      vol.fullZones := vol.fullZones + {zone};
      if rl != [] && usedZonePos {
        LastAllocated(rl, startVcn);
        vol.UpdateZonePos(zone, rl[|rl| - 1].lcn + rl[|rl| - 1].length + SKIP);
      }
    }

    method EnterZone(z: Zone) returns (empty: bool)
      requires Progress(vol.lcnbmp[..]) && clusters > 0 && Reachable(z, doneZones) && doneZones <= vol.fullZones
      requires Books() && (tracked && rl == [] ==> TrackLeft())
      ensures TrackKept() && (!empty ==> OnTrack())
      modifies this`zone, this`pass, this`zoneStart, this`zoneEnd, this`bmpPos
      ensures Valid() && Books() && (if empty then Finished() else Sweeping()) && zone == z
      ensures zoneStart == bmpPos == vol.ZonePos(zone) && zoneEnd == vol.ZoneEndOf(zone)
      ensures pass == (if zoneStart == vol.ZoneStartOf(zone) then 2 else 1) && empty == (zoneStart == zoneEnd)
    {
      hide Progress, Reachable, AllSet, OnPass;
      zone, pass := z, 1;
      FirstOnPass(vol.ZonePos(zone), vol.ZoneEndOf(zone));
      zoneStart, zoneEnd := vol.ZonePos(zone), vol.ZoneEndOf(zone);
      if zoneStart == vol.ZoneStartOf(zone) {
        pass := 2;
      }
      bmpPos := zoneStart;
      empty := zoneStart == zoneEnd;
      AllSetNone(was, zoneStart);
      AllSetNone(was, zoneEnd);
    }

    /** The main loop.  It ends: zones are left in order of rank, each after at most two passes, and
        within a pass the windows move on once the caller's hint has been used. */
    method Find() returns (found: bool)
      requires Valid() && Sweeping() && OnTrack() && rl == [] && clusters == count && bmpPos == zoneStart
      requires !usedZonePos ==> hasGuess
      modifies this, vol, vol.lcnbmp
      ensures Progress(vol.lcnbmp[..]) && (found ==> clusters == 0) && (old(vol.Laid()) ==> vol.Laid())
      ensures !found ==> vol.fullZones == {Mft, Data1, Data2} && 0 < clusters
      // without a single cluster found, all zones not marked full before have none
      ensures !found && thorough && rl == [] ==>
                forall z :: z !in full ==> AllSet(was, vol.ZoneStartOf(z), vol.ZoneEndOf(z))
      ensures forall x :: old(zone !in vol.fullZones) && Starts(old(vol.lcnbmp[..]), old(bmpPos), old(hasGuess), x) ==>
                rl != [] && rl[0].lcn == x
      ensures found && old(usedZonePos) ==> exists x :: LastCell(rl, x) && Resumes(x)
      // what is taken first lies in a window of a pass, or is the hint
      ensures tracked && rl != [] ==> Covered(vol, at, full, hint, rl[0].lcn)
    {
      hide Taken, Cells, Consecutive, ClearCount, Reachable, Rank, Bit, LongestFrom, Window, AllSet, LastCell, Swept,
           Untried, Covered, OnTrack;
      ghost var first := true;
      while true
        invariant Valid() && Sweeping() && (old(usedZonePos) ==> usedZonePos) && (old(vol.Laid()) ==> vol.Laid())
        invariant usedZonePos ==> bmpPos == zoneStart || bmpPos < zoneEnd
        invariant OnTrack() && (rl == [] && !usedZonePos ==> hasGuess)
        invariant tracked && rl != [] ==> Covered(vol, at, full, hint, rl[0].lcn)
        invariant first ==> rl == [] && bmpPos == old(bmpPos) && hasGuess == old(hasGuess) && zone == old(zone)
                            && vol.fullZones == old(vol.fullZones) && vol.lcnbmp[..] == old(vol.lcnbmp[..])
        invariant !first ==> forall x ::
                    (old(zone !in vol.fullZones) && Starts(old(vol.lcnbmp[..]), old(bmpPos), old(hasGuess), x)
                     ==> rl != [] && rl[0].lcn == x)
        decreases Rank(zone, doneZones), 2 - pass, !usedZonePos, if bmpPos < zoneEnd then zoneEnd - bmpPos else 0
      {
        var more := true;
        if zone !in vol.fullZones && bmpPos / 8 < vol.lcnbmp.Length {
          var done := VisitWindow();
          first := false;
          if done {
            return true;
          }
          if bmpPos < zoneEnd {
            continue;
          }
        }
        more := PassDone();
        first := false;
        if !more {
          return false;
        }
      }
    }
  }

  lemma {:induction false} AllZones(zones: set<Zone>)
    requires {Mft, Data1, Data2} <= zones
    ensures zones == {Mft, Data1, Data2}
  {
    assert forall z :: z in zones ==> z == Mft || z == Data1 || z == Data2;
  }

  lemma {:induction false} WindowBit(bytes: seq<Octet>, base: nat, n: nat, k: nat)
    requires base == k / 8 && base + n <= |bytes| && n > 0
    ensures k < 8 * |bytes| && k % 8 < 8 * n && Bit(bytes[base..base + n], k % 8) == Bit(bytes, k)
    ensures 8 * base + k % 8 == k
  {
  }

  lemma {:induction false} BitIs(bytes: seq<Octet>, k: nat)
    requires k < 8 * |bytes|
    ensures Bit(bytes, k) == bytes[k / 8][k % 8]
  {
  }

  lemma {:induction false} LongestIsClear(bytes: seq<Octet>, start: int, length: nat)
    requires FirstLongest(bytes, start, length)
    ensures -1 <= start < 8 * |bytes| && (start >= 0 ==> !Bit(bytes, start))
  {
    hide Bit;
  }

  lemma {:induction false} TakenCounts(was: seq<Octet>, now: seq<Octet>, cells: seq<int>)
    requires Taken(was, now, cells)
    ensures ClearCount(was) == ClearCount(now) + |cells|
  {
  }

  lemma {:induction false} LastAllocated(rl: seq<Run>, start: int)
    requires Consecutive(rl, start)
    ensures rl != [] ==> rl[|rl| - 1].lcn >= 0
  {
  }

  lemma {:induction false} NothingTaken(bytes: seq<Octet>)
    ensures Taken(bytes, bytes, Cells([]))
  {
  }

  // ---- giving clusters back --------------------------------------------------------------------

  /** A terminated run list whose clusters lie in a bitmap of `n` bytes. */
  ghost predicate Freeable(rl: seq<Run>, n: nat) {
    && rl != [] && rl[|rl| - 1].length == 0 && rl[|rl| - 1].lcn < 0
    && (forall j :: 0 <= j < |rl| - 1 ==> rl[j].length > 0 && rl[j].lcn >= HOLE)
    && (forall j :: 0 <= j < |rl| && rl[j].lcn >= 0 ==> rl[j].lcn + rl[j].length <= 8 * n)
  }

  /** The zones in which the runs before number `j` start. */
  ghost function ZonesOf(vol: Volume, rl: seq<Run>, j: nat): set<Zone>
    requires j <= |rl|
  {
    set i | 0 <= i < j && rl[i].lcn >= 0 :: vol.ZoneOf(rl[i].lcn)
  }

  lemma {:induction false} ZonesNext(vol: Volume, rl: seq<Run>, j: nat)
    requires j < |rl|
    ensures ZonesOf(vol, rl, j + 1) == ZonesOf(vol, rl, j) + (if rl[j].lcn >= 0 then {vol.ZoneOf(rl[j].lcn)} else {})
    ensures ZonesOf(vol, rl, 0) == {}
  {
  }

  /** `ntfs_cluster_free_from_rl`: clear the bits of every run that is not a hole. */
  method FreeFromRl(vol: Volume, rl: seq<Run>)
    requires Freeable(rl, vol.lcnbmp.Length)
    modifies vol, vol.lcnbmp
    ensures forall k :: 0 <= k < 8 * vol.lcnbmp.Length ==>
              Bit(vol.lcnbmp[..], k) == (old(Bit(vol.lcnbmp[..], k)) && k !in Cells(rl))
    ensures vol.freeClusters == old(vol.freeClusters) + Real(Cells(rl))
    // the free count stays right if and only if the clusters were in use and none was freed twice
    ensures InRange(Cells(rl), 8 * vol.lcnbmp.Length)
    ensures old(vol.Valid()) ==> (vol.Valid() <==> InUse(old(vol.lcnbmp[..]), Cells(rl)))
    // the zones in which runs start will be searched again
    ensures vol.mftZoneStart <= vol.mftZoneEnd ==> vol.fullZones == old(vol.fullZones) - ZonesOf(vol, rl, |rl|)
    ensures old(vol.Laid()) ==> vol.Laid()
  {
    hide Bit, Cells, Real, ClearCount, RunCells, ZonesOf;
    var j, freed := 0, 0;
    ZonesNext(vol, rl, 0);
    EmptyCells();
    NoneFreed(vol.lcnbmp[..]);
    while rl[j].length != 0
      invariant 0 <= j < |rl| && freed == Real(Cells(rl[..j])) && vol.freeClusters == old(vol.freeClusters)
      invariant forall k :: 0 <= k < 8 * vol.lcnbmp.Length ==>
                  Bit(vol.lcnbmp[..], k) == (old(Bit(vol.lcnbmp[..], k)) && k !in Cells(rl[..j]))
      invariant vol.mftZoneStart <= vol.mftZoneEnd ==> vol.fullZones == old(vol.fullZones) - ZonesOf(vol, rl, j)
      invariant old(vol.Laid()) ==> vol.Laid()
      decreases |rl| - j
    {
      ZonesNext(vol, rl, j);
      CellsSnoc(rl, j);
      InRun(rl[j]);
      RealRun(rl[j]);
      RealConcat(Cells(rl[..j]), RunCells(rl[j]));
      if rl[j].lcn >= 0 {
        vol.UpdateFullStatus(rl[j].lcn);
        var ok := SetBitsInRun(vol.lcnbmp, rl[j].lcn, rl[j].length, false);
        freed := freed + rl[j].length;
      }
      j := j + 1;
    }
    ZonesNext(vol, rl, j);
    CellsSnoc(rl, j);
    assert Cells(rl[..j]) + RunCells(rl[j]) == Cells(rl[..j]) && rl[..j + 1] == rl;
    vol.freeClusters := vol.freeClusters + freed;
    CellsInRange(rl, 8 * vol.lcnbmp.Length);
    FreedCount(old(vol.lcnbmp[..]), vol.lcnbmp[..], Cells(rl));
  }

  lemma {:induction false} RealRun(r: Run)
    requires r.lcn >= HOLE
    ensures Real(RunCells(r)) == if r.lcn >= 0 then r.length else 0
  {
    RealSame(RunCells(r), r.lcn >= 0);
  }

  lemma {:induction false} CellsSnoc(rl: seq<Run>, j: nat)
    requires j < |rl|
    ensures Cells(rl[..j + 1]) == Cells(rl[..j]) + RunCells(rl[j])
  {
    assert rl[..j + 1] == rl[..j] + [rl[j]];
    CellsConcat(rl[..j], [rl[j]]);
    OneRun(rl[j]);
  }

  lemma {:induction false} InRun(r: Run)
    requires r.lcn >= HOLE
    ensures forall k :: 0 <= k ==> (k in RunCells(r) <==> r.lcn >= 0 && r.lcn <= k < r.lcn + r.length)
  {
    forall k | 0 <= k
      ensures k in RunCells(r) <==> r.lcn >= 0 && r.lcn <= k < r.lcn + r.length
    {
      if r.lcn >= 0 && r.lcn <= k < r.lcn + r.length {
        assert RunCells(r)[k - r.lcn] == k;
      }
    }
  }

  /** A run list under construction, with its terminator. */
  function Terminated(rl: seq<Run>): (r: seq<Run>)
    requires rl != []
  {
    var last := rl[|rl| - 1];
    rl + [Run(last.vcn + last.length, NOT_MAPPED, 0)]
  }

  lemma {:induction false} TerminatedIs(was: seq<Octet>, now: seq<Octet>, rl: seq<Run>, start: int)
    requires rl != [] && Consecutive(rl, start) && Taken(was, now, Cells(rl))
    ensures Freeable(Terminated(rl), |now|) && Cells(Terminated(rl)) == Cells(rl)
    ensures Real(Cells(rl)) == |Cells(rl)|
  {
    hide Cells, Distinct, ClearCount;
    RealSame(Cells(rl), true);
    var t := Terminated(rl);
    var last := rl[|rl| - 1];
    var end := Run(last.vcn + last.length, NOT_MAPPED, 0);
    CellsConcat(rl, [end]);
    OneRun(end);
    forall j | 0 <= j < |rl|
      ensures t[j].lcn + t[j].length <= 8 * |now|
    {
      LastOfRun(rl, start, j);
      assert rl[j].lcn + rl[j].length - 1 in Cells(rl);
    }
  }

  lemma {:induction false} LastOfRun(rl: seq<Run>, start: int, j: nat)
    requires Consecutive(rl, start) && j < |rl|
    ensures rl[j].lcn + rl[j].length - 1 in Cells(rl)
  {
    var r := rl[j];
    assert rl == rl[..j] + ([r] + rl[j + 1..]);
    CellsConcat(rl[..j], [r] + rl[j + 1..]);
    CellsCons(r, rl[j + 1..]);
    assert RunCells(r)[r.length - 1] == r.lcn + r.length - 1;
  }

  /** Clearing exactly the taken bits restores the bitmap. */
  lemma {:induction false} Restored(was: seq<Octet>, now: seq<Octet>, cells: seq<int>, bytes: seq<Octet>)
    requires Taken(was, now, cells) && |bytes| == |now|
    requires forall k :: 0 <= k < 8 * |now| ==> Bit(bytes, k) == (Bit(now, k) && k !in cells)
    ensures bytes == was
  {
    forall j | 0 <= j < |was|
      ensures bytes[j] == was[j]
    {
      forall b | 0 <= b < 8
        ensures bytes[j][b] == was[j][b]
      {
        var k := 8 * j + b;
        assert k / 8 == j && k % 8 == b;
        assert Bit(bytes, k) == Bit(was, k);
      }
    }
  }

  /** Freeing what an allocation took restores the bitmap and keeps the free count right. */
  lemma {:induction false} FreeAfterTaking(was: seq<Octet>, now: seq<Octet>, cells: seq<int>, bytes: seq<Octet>)
    requires Taken(was, now, cells) && Freed(now, bytes, cells)
    ensures bytes == was && InRange(cells, 8 * |now|) && InUse(now, cells) && Real(cells) == |cells|
  {
    hide Bit, ClearCount;
    Restored(was, now, cells, bytes);
    RealSame(cells, true);
    assert forall i :: 0 <= i < |cells| ==> cells[i] in cells;
  }

  // ---- the allocator ---------------------------------------------------------------------------

  datatype Allocation = Runs(rl: seq<Run>) | InvalidArgument | NoSpace

  /** Allocate `count` clusters, near `startLcn` if it is not negative.

      On success the runs hold exactly `count` clusters, each once, mapped to consecutive virtual
      clusters from `startVcn` on, and exactly these clusters went from free to used; a free hint
      in a zone not known to be full is where they start.  Otherwise bitmap and free count are as
      before.  The free count stays equal to the number of clear bits. */
  method ClusterAlloc(vol: Volume, startVcn: int, count: int, startLcn: int, dataZone: bool) returns (r: Allocation)
    requires vol.Valid()
    modifies vol, vol.lcnbmp
    ensures vol.Valid()
    ensures r.InvalidArgument? <==> count < 0 || startLcn < -1
    ensures r.Runs? && count == 0 ==> r.rl == [Run(startVcn, NOT_MAPPED, 0)]
    ensures r.Runs? && count > 0 ==>
              && |r.rl| > 1 && r.rl == Terminated(r.rl[..|r.rl| - 1])
              && Consecutive(r.rl[..|r.rl| - 1], startVcn) && |Cells(r.rl)| == count
              && Taken(old(vol.lcnbmp[..]), vol.lcnbmp[..], Cells(r.rl))
    // it starts at a free hint, or at the longest free run of the window where the last search of the zone asked
    // for left off, in a zone not marked full
    ensures r.Runs? && count > 0 ==>
              var pos := if startLcn >= 0 then startLcn else old(vol.ZonePos(if dataZone then Data1 else Mft));
              var guess := startLcn >= 0;
              vol.ZoneOf(pos) !in old(vol.fullZones) ==>
                forall x :: Starts(old(vol.lcnbmp[..]), pos, guess, x) ==> r.rl[0].lcn == x
    // that is the hint, or in a window of a pass over a zone not marked full
    ensures r.Runs? && count > 0 && old(vol.Laid()) && startLcn < 8 * vol.lcnbmp.Length ==>
              Covered(vol, old(Positions(vol.mftZonePos, vol.data1ZonePos, vol.data2ZonePos)), old(vol.fullZones),
                      startLcn, r.rl[0].lcn)
    // the next search of a zone goes on some clusters behind the last one taken
    ensures r.Runs? && count > 0 && startLcn == -1 ==>
              exists z, x :: LastCell(r.rl, x) && x >= 0
                             && vol.ZonePos(z) == vol.PosAfter(z, x + 1 + SKIP, vol.ZonePos(z))
    // a single cluster is found whenever a zone not marked full has one; else all are marked
    ensures r.NoSpace? && count == 1 ==>
              && vol.fullZones == {Mft, Data1, Data2}
              && (old(Search.Thorough(vol, startLcn)) ==>
                    forall z :: z !in old(vol.fullZones) ==>
                      AllSet(old(vol.lcnbmp[..]), vol.ZoneStartOf(z), vol.ZoneEndOf(z)))
    ensures old(vol.Laid()) ==> vol.Laid()
    ensures !r.Runs? || count == 0 ==>
              vol.lcnbmp[..] == old(vol.lcnbmp[..]) && vol.freeClusters == old(vol.freeClusters)
  {
    hide Taken, Cells, Consecutive, ClearCount, Bit, Freeable, Real, InUse, InRange, Reachable,
         Starts, AllSet, LastCell, ZonesOf, Covered;
    if count < 0 || startLcn < -1 {
      return InvalidArgument;
    }
    if count == 0 {
      return Runs([Run(startVcn, NOT_MAPPED, 0)]);
    }
    var search := new Search(vol, startVcn, count, startLcn, dataZone);
    var found := search.Find();
    ghost var was, now := search.was, vol.lcnbmp[..];
    TakenCounts(was, now, Cells(search.rl));
    if found {
      NotEmptyCells(search.rl);
      TerminatedIs(was, now, search.rl, startVcn);
      r := Runs(Terminated(search.rl));
      SameCells(search.rl, r.rl);
      assert r.rl[..|r.rl| - 1] == search.rl;
    } else {
      r := NoSpace;
      if search.rl != [] {
        SomeCells(search.rl, startVcn);
        TerminatedIs(was, now, search.rl, startVcn);
        FreeFromRl(vol, Terminated(search.rl));
        Restored(was, now, Cells(search.rl), vol.lcnbmp[..]);
      } else {
        EmptyCells();
        Untaken(was, now);
      }
    }
  }

  // ---- a hint that hides a free cluster ---------------------------------------------------------

  const HIDDEN: nat := 32769

  function OctetOf(j: int): Octet {
    if j == 4096 then Uniform(true)[1 := false] else Uniform(true)
  }

  /** A volume of three windows of clusters: the first is the MFT zone, the others the upper data zone, whose last
      search left off at its second window.  Only the cluster behind the first one of that zone is free.  With
      the first one as a hint the search fails. */
  method HintHidesCluster() returns (vol: Volume, r: Allocation)
    ensures r == NoSpace
    ensures fresh(vol) && vol.Laid() && HIDDEN < 8 * vol.lcnbmp.Length && !Bit(vol.lcnbmp[..], HIDDEN)
    ensures vol.ZoneOf(HIDDEN) == Data1 && vol.freeClusters == 1
  {
    hide Taken, Cells, ClearCount, Bit, Covered, Consecutive;
    var bitmap := new Octet[12288](j => OctetOf(j));
    vol := new Volume(bitmap, 98304, 0, 0, 32768, 1);
    vol.data1ZonePos := 65536;
    ghost var bytes := bitmap[..];
    OnlyHidden(bytes);
    OneClear(bytes, HIDDEN, 98304);
    r := ClusterAlloc(vol, 0, 1, 32768, true);
    if r.Runs? {
      FirstIsTaken(bytes, bitmap[..], r.rl);
      NotCovered(vol, Positions(0, 65536, 0));
      assert false;
    }
  }

  lemma {:induction false} OnlyHidden(bytes: seq<Octet>)
    requires |bytes| == 12288
    requires forall j :: 0 <= j < |bytes| ==> bytes[j] == OctetOf(j)
    ensures forall k :: 0 <= k < 98304 ==> (Bit(bytes, k) <==> k != HIDDEN)
  {
  }

  lemma {:induction false} OneClear(bytes: seq<Octet>, x: nat, p: nat)
    requires p <= 8 * |bytes| && forall k :: 0 <= k < 8 * |bytes| ==> (Bit(bytes, k) <==> k != x)
    ensures ClearTo(bytes, p) == if x < p then 1 else 0
    ensures p == 8 * |bytes| ==> ClearCount(bytes) == ClearTo(bytes, p)
    decreases p
  {
    hide Bit;
    if p > 0 {
      OneClear(bytes, x, p - 1);
    }
  }

  lemma {:induction false} FirstIsTaken(was: seq<Octet>, now: seq<Octet>, rl: seq<Run>)
    requires |rl| > 1 && Consecutive(rl[..|rl| - 1], 0) && Taken(was, now, Cells(rl))
    ensures 0 <= rl[0].lcn < 8 * |was| && !Bit(was, rl[0].lcn)
  {
    hide Bit, Cells, Distinct, ClearCount;
    assert rl[..|rl| - 1][0] == rl[0];
    assert rl == [rl[0]] + rl[1..];
    CellsCons(rl[0], rl[1..]);
    assert Cells(rl)[0] == RunCells(rl[0])[0];
  }

  lemma {:induction false} NotCovered(vol: Volume, at: Positions)
    requires vol.mftZoneStart == 0 && vol.mftZoneEnd == 32768 && vol.nrClusters == 98304
    requires at == Positions(0, 65536, 0)
    ensures !Covered(vol, at, {}, 32768, HIDDEN)
  {
    forall z, p: nat | Passes(vol, at, 32768, z, p)
      ensures !(8 * (p / 8) <= HIDDEN < 8 * (p / 8) + 8 * BSIZE)
    {
    }
  }

  lemma {:induction false} SameCells(a: seq<Run>, b: seq<Run>)
    requires Cells(a) == Cells(b)
    ensures forall x :: LastCell(a, x) <==> LastCell(b, x)
  {
  }

  lemma {:induction false} SomeCells(rl: seq<Run>, start: int)
    requires rl != [] && Consecutive(rl, start)
    ensures |Cells(rl)| > 0
  {
    LastOfRun(rl, start, 0);
  }

  lemma {:induction false} NotEmptyCells(rl: seq<Run>)
    requires Cells(rl) != []
    ensures rl != []
  {
  }

  lemma {:induction false} Untaken(was: seq<Octet>, now: seq<Octet>)
    requires Taken(was, now, [])
    ensures was == now
  {
    hide Distinct, ClearCount;
    Restored(was, now, [], now);
  }
}

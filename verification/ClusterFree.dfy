/** `ntfs_cluster_free`: giving back part of the clusters of an attribute (`lcnalloc.c`). */
module ClusterFree {
  import opened Sequences
  import opened RunList
  import opened FreeCount
  import opened Bitmap
  import opened ClusterAllocator
  import AttributeRead

  /** Mapped from VCN 0 to the end marker, with every allocated cluster on the volume. */
  ghost predicate OnVolume(rl: seq<Run>, bits: nat) {
    && WellFormed(rl) && rl[0].vcn == 0
    && forall i :: 0 <= i < |rl| && rl[i].lcn >= 0 ==> rl[i].lcn + rl[i].length <= bits
  }

  /** A run's clusters stand at its VCN. */
  lemma {:induction false} CellsAt(rl: seq<Run>, i: nat)
    requires WellFormed(rl) && rl[0].vcn == 0 && i < |rl|
    ensures 0 <= rl[i].vcn <= |Cells(rl)| && Cells(rl)[rl[i].vcn..] == Cells(rl[i..])
    decreases i
  {
    if i > 0 {
      CellsAt(rl, i - 1);
      var k := i - 1;
      assert rl[k].vcn + rl[k].length == rl[i].vcn;
      assert rl[k..][0] == rl[k] && rl[k..][1..] == rl[i..];
      Skip(Cells(rl), rl[k].vcn, RunCells(rl[k]), Cells(rl[i..]));
    } else {
      assert rl[0..] == rl;
    }
  }

  lemma {:induction false} CellsEnd(rl: seq<Run>)
    requires WellFormed(rl) && rl[0].vcn == 0
    ensures |Cells(rl)| == rl[|rl| - 1].vcn
  {
    var n := |rl| - 1;
    CellsAt(rl, n);
    assert rl[n..] == [rl[n]];
    CellsCons(rl[n], []);
  }

  /** Part of a run. */
  lemma {:induction false} CellsOfRun(rl: seq<Run>, i: nat, delta: nat, n: nat)
    requires WellFormed(rl) && rl[0].vcn == 0 && i < |rl| && delta + n <= rl[i].length
    ensures var v := rl[i].vcn + delta;
            && 0 <= v && v + n <= |Cells(rl)|
            && (forall k :: v <= k < v + n ==>
                Cells(rl)[k] == if rl[i].lcn == HOLE then HOLE else rl[i].lcn + (k - rl[i].vcn))
            && Real(Cells(rl)[v..v + n]) == if rl[i].lcn == HOLE then 0 else n
  {
    hide WellFormed, Cells, RunCells, Real;
    CellsAt(rl, i);
    EndVcn(rl, i);
    var c, v, r := Cells(rl), rl[i].vcn + delta, RunCells(rl[i]);
    CellsHead(rl, i);
    SliceDeep(c, rl[i].vcn, r, Cells(rl[i + 1..]), delta, n);
    RunCellsAre(rl[i]);
    assert forall k :: v <= k < v + n ==> c[k] == c[v..v + n][k - v] == r[delta..delta + n][k - v];
    RealSame(c[v..v + n], rl[i].lcn != HOLE);
  }

  lemma {:induction false} CellsHead(rl: seq<Run>, i: nat)
    requires i < |rl|
    ensures Cells(rl[i..]) == RunCells(rl[i]) + Cells(rl[i + 1..])
  {
    assert rl[i..] == [rl[i]] + rl[i + 1..];
    CellsCons(rl[i], rl[i + 1..]);
  }

  lemma {:induction false} RunCellsAre(r: Run)
    ensures |RunCells(r)| == r.length && forall k :: 0 <= k < r.length ==>
              RunCells(r)[k] == if r.lcn == HOLE then HOLE else r.lcn + k
  {
  }

  /** Where freeing stops. */
  function Stop(size: nat, start: nat, count: int): (r: int) {
    if count < 0 || start + count > size then size else start + count
  }

  /** Freeing from `start` up to `stop` reaches the run; the run at `start` is reached even if nothing is freed. */
  predicate Touched(r: Run, start: nat, stop: int) {
    r.lcn >= 0 && start < r.vcn + r.length && (r.vcn <= start || r.vcn < stop)
  }

  /** The zones of the first clusters freed in each run. */
  ghost function ZonesFreed(vol: Volume, rl: seq<Run>, start: nat, stop: int): set<Zone> {
    set i | 0 <= i < |rl| && Touched(rl[i], start, stop) ::
      vol.ZoneOf(rl[i].lcn + (if rl[i].vcn < start then start - rl[i].vcn else 0))
  }

  /** The zones in which the runs from number `first` to `j` start, as far as they lie before `stop`. */
  ghost function ZonesFrom(vol: Volume, rl: seq<Run>, first: nat, stop: int, j: nat): set<Zone>
    requires j <= |rl|
  {
    set i | first <= i < j && rl[i].lcn >= 0 && rl[i].vcn < stop :: vol.ZoneOf(rl[i].lcn)
  }

  lemma {:induction false} ZonesFromNext(vol: Volume, rl: seq<Run>, first: nat, stop: int, j: nat)
    requires first <= j < |rl| && rl[j].vcn < stop
    ensures ZonesFrom(vol, rl, first, stop, j + 1)
         == ZonesFrom(vol, rl, first, stop, j) + (if rl[j].lcn >= 0 then {vol.ZoneOf(rl[j].lcn)} else {})
  {
  }

  lemma {:induction false} NoZones(vol: Volume, rl: seq<Run>, first: nat, stop: int, j: nat)
    requires j <= first && j <= |rl|
    ensures ZonesFrom(vol, rl, first, stop, j) == {}
  {
  }

  /** Runs that start at `stop` or later do not count. */
  lemma {:induction false} ZonesEnd(vol: Volume, rl: seq<Run>, first: nat, stop: int, j: nat)
    requires WellFormed(rl) && j < |rl| && (rl[j].length == 0 || rl[j].vcn >= stop)
    ensures ZonesFrom(vol, rl, first, stop, |rl|) == ZonesFrom(vol, rl, first, stop, j)
  {
    hide WellFormed;
    EndVcn(rl, j);
    LastHole(rl);
    forall i | j <= i < |rl|
      ensures rl[i].lcn < 0 || rl[i].vcn >= stop
    {
      Ascending(rl, j, i);
    }
  }

  lemma {:induction false} LastHole(rl: seq<Run>)
    requires WellFormed(rl)
    ensures rl != [] && rl[|rl| - 1].lcn < 0
  {
  }

  lemma {:induction false} Ascending(rl: seq<Run>, i: nat, k: nat)
    requires WellFormed(rl) && i <= k < |rl|
    ensures rl[i].vcn <= rl[k].vcn && (i < k ==> rl[i].vcn + rl[i].length <= rl[k].vcn)
    decreases k
  {
    if i < k {
      Ascending(rl, i, k - 1);
      var j := k - 1;
      assert rl[j].vcn + rl[j].length == rl[k].vcn;
    }
  }

  /** The run at `start` and those behind it. */
  lemma {:induction false} ZonesTogether(vol: Volume, rl: seq<Run>, i: nat, start: nat, stop: int)
    requires WellFormed(rl) && i < |rl| - 1 && rl[i].vcn <= start < rl[i].vcn + rl[i].length
    ensures ZonesFreed(vol, rl, start, stop)
         == (if rl[i].lcn >= 0 then {vol.ZoneOf(rl[i].lcn + (start - rl[i].vcn))} else {})
            + ZonesFrom(vol, rl, i + 1, stop, |rl|)
  {
    hide WellFormed;
    LastHole(rl);
    forall k | 0 <= k < |rl|
      ensures k < i ==> !Touched(rl[k], start, stop)
      ensures k == i ==> (Touched(rl[k], start, stop) <==> rl[k].lcn >= 0)
      ensures k > i ==> rl[k].vcn > start && (Touched(rl[k], start, stop) <==> rl[k].lcn >= 0 && rl[k].vcn < stop)
    {
      if k < i {
        Ascending(rl, k, i);
      } else if k > i {
        Ascending(rl, i, k);
      }
    }
  }

  lemma {:induction false} BeyondAll(vol: Volume, rl: seq<Run>, start: nat, stop: int)
    requires WellFormed(rl) && rl[|rl| - 1].vcn <= start
    ensures ZonesFreed(vol, rl, start, stop) == {}
  {
    hide WellFormed;
    LastHole(rl);
    forall k | 0 <= k < |rl|
      ensures !Touched(rl[k], start, stop)
    {
      Ascending(rl, k, |rl| - 1);
    }
  }

  /** Two parts freed one after the other. */
  lemma {:induction false} FreedBoth(was: seq<Octet>, mid: seq<Octet>, now: seq<Octet>, c: seq<int>, i: nat, j: nat,
                                     k: nat)
    requires i <= j <= k <= |c| && Freed(was, mid, c[i..j]) && Freed(mid, now, c[j..k])
    ensures Freed(was, now, c[i..k]) && Real(c[i..k]) == Real(c[i..j]) + Real(c[j..k])
  {
    hide Freed, Real;
    FreedMore(was, mid, now, c[i..j], c[j..k]);
    RealConcat(c[i..j], c[j..k]);
    assert c[i..j] + c[j..k] == c[i..k];
  }

  /** Clear the bits of `n` clusters of a run from offset `delta` on. */
  method FreeRun(vol: Volume, rl: seq<Run>, i: nat, delta: nat, n: nat) returns (freed: nat)
    requires OnVolume(rl, 8 * vol.lcnbmp.Length) && i < |rl| - 1 && delta + n <= rl[i].length && delta < rl[i].length
    modifies vol, vol.lcnbmp
    ensures rl[i].vcn + delta >= 0 && rl[i].vcn + delta + n <= |Cells(rl)|
    ensures var c := Cells(rl)[rl[i].vcn + delta..rl[i].vcn + delta + n];
            Freed(old(vol.lcnbmp[..]), vol.lcnbmp[..], c) && freed == Real(c)
    ensures vol.freeClusters == old(vol.freeClusters) && (old(vol.Laid()) ==> vol.Laid())
    ensures vol.mftZoneStart <= vol.mftZoneEnd ==>
              vol.fullZones == old(vol.fullZones) - (if rl[i].lcn >= 0 then {vol.ZoneOf(rl[i].lcn + delta)} else {})
  {
    hide Bit, Cells, Real, RunCells;
    EndVcn(rl, i);
    CellsOfRun(rl, i, delta, n);
    freed := 0;
    if rl[i].lcn != HOLE {
      vol.UpdateFullStatus(rl[i].lcn + delta);
      var _ := SetBitsInRun(vol.lcnbmp, rl[i].lcn + delta, n, false);
      freed := n;
    }
    InRow(Cells(rl)[rl[i].vcn + delta..rl[i].vcn + delta + n], rl[i].lcn + delta, rl[i].lcn == HOLE);
  }

  /** Membership in a row of consecutive clusters, or of holes. */
  lemma {:induction false} InRow(s: seq<int>, lcn: int, hole: bool)
    requires forall k :: 0 <= k < |s| ==> s[k] == if hole then HOLE else lcn + k
    ensures forall x :: 0 <= x ==> (x in s <==> !hole && lcn <= x < lcn + |s|)
  {
    forall x | 0 <= x && !hole && lcn <= x < lcn + |s|
      ensures x in s
    {
      assert s[x - lcn] == x;
    }
  }

  /** Free the runs from number `first` on, at most `count` clusters unless that is -1. */
  method FreeRuns(vol: Volume, rl: seq<Run>, first: nat, count: int) returns (nr: nat, left: int)
    requires OnVolume(rl, 8 * vol.lcnbmp.Length) && count >= -1 && first < |rl|
    modifies vol, vol.lcnbmp
    ensures 0 <= rl[first].vcn <= |Cells(rl)| && vol.freeClusters == old(vol.freeClusters)
    ensures var c, start := Cells(rl), rl[first].vcn;
            && Freed(old(vol.lcnbmp[..]), vol.lcnbmp[..], c[start..Stop(|c|, start, count)])
                && nr == Real(c[start..Stop(|c|, start, count)])
            && left == if count < 0 then count else count - (Stop(|c|, start, count) - start)
    ensures old(vol.Laid()) ==> vol.Laid()
    ensures vol.mftZoneStart <= vol.mftZoneEnd ==>
              vol.fullZones == old(vol.fullZones)
                               - ZonesFrom(vol, rl, first, Stop(|Cells(rl)|, rl[first].vcn, count), |rl|)
  {
    hide Bit, Cells, Real, Freed, RunCells, ZonesFrom;
    CellsEnd(rl);
    CellsAt(rl, first);
    ghost var c := Cells(rl);
    ghost var start := rl[first].vcn;
    ghost var at := start;
    ghost var stop := Stop(|c|, start, count);
    NoZones(vol, rl, first, stop, first);
    var i := first;
    nr, left := 0, count;
    NoneFreed(vol.lcnbmp[..]);
    assert c[start..at] == [];
    while rl[i].length != 0 && left != 0
      invariant first <= i < |rl| && start <= at <= |c| && (left != 0 ==> at == rl[i].vcn)
      invariant if count < 0 then left == -1 else left >= 0 && left == count - (at - start)
      invariant vol.freeClusters == old(vol.freeClusters)
      invariant Freed(old(vol.lcnbmp[..]), vol.lcnbmp[..], c[start..at]) && nr == Real(c[start..at])
      invariant at <= stop && at <= rl[i].vcn && (left == 0 ==> at == stop) && (old(vol.Laid()) ==> vol.Laid())
      invariant vol.mftZoneStart <= vol.mftZoneEnd ==>
                  vol.fullZones == old(vol.fullZones) - ZonesFrom(vol, rl, first, stop, i)
      decreases |rl| - i
    {
      CellsAt(rl, i + 1);
      ZonesFromNext(vol, rl, first, stop, i);
      var m := if left >= 0 && rl[i].length > left then left else rl[i].length;
      ghost var mid := vol.lcnbmp[..];
      NextVcn(rl, i);
      var more := FreeRun(vol, rl, i, 0, m);
      FreedBoth(old(vol.lcnbmp[..]), mid, vol.lcnbmp[..], c, start, at, at + m);
      nr, i, at := nr + more, i + 1, at + m;
      left := if left >= 0 then left - m else left;
    }
    EndVcn(rl, i);
    ZonesEnd(vol, rl, first, stop, i);
  }

  /** `ntfs_cluster_free`: `count` clusters from VCN `start` on, or all from there when `count` is -1. */
  method ClusterFree(vol: Volume, rl: seq<Run>, start: nat, count: int) returns (r: int)
    requires OnVolume(rl, 8 * vol.lcnbmp.Length) && count >= -1
    modifies vol, vol.lcnbmp
    ensures var c := Cells(rl);
            var freed := if start >= |c| then [] else c[start..Stop(|c|, start, count)];
            && Freed(old(vol.lcnbmp[..]), vol.lcnbmp[..], freed)
            && vol.freeClusters == old(vol.freeClusters) + Real(freed)
            && r == (if start < |c| && start + count > |c| then -1 else Real(freed))
            // the free count stays right if and only if the clusters were in use and none was freed twice
            && InRange(freed, 8 * vol.lcnbmp.Length)
            && (old(vol.Valid()) ==> (vol.Valid() <==> InUse(old(vol.lcnbmp[..]), freed)))
    // the zones of the first clusters freed in each run will be searched again
    ensures vol.mftZoneStart <= vol.mftZoneEnd ==>
              vol.fullZones == old(vol.fullZones) - ZonesFreed(vol, rl, start, Stop(|Cells(rl)|, start, count))
    ensures old(vol.Laid()) ==> vol.Laid()
  {
    ghost var freed;
    r, freed := FreeRange(vol, rl, start, count);
    RangeOnVolume(rl, 8 * vol.lcnbmp.Length, start, count);
    FreedCount(old(vol.lcnbmp[..]), vol.lcnbmp[..], freed);
  }

  lemma {:induction false} RangeOnVolume(rl: seq<Run>, bits: nat, start: nat, count: int)
    requires OnVolume(rl, bits) && count >= -1
    ensures var c := Cells(rl); InRange(if start >= |c| then [] else c[start..Stop(|c|, start, count)], bits)
  {
    hide Cells;
    CellsInRange(rl, bits);
  }

  /** The clearing and counting of `ntfs_cluster_free`. */
  method FreeRange(vol: Volume, rl: seq<Run>, start: nat, count: int) returns (r: int, ghost cells: seq<int>)
    requires OnVolume(rl, 8 * vol.lcnbmp.Length) && count >= -1
    modifies vol, vol.lcnbmp
    ensures var c := Cells(rl);
            && cells == (if start >= |c| then [] else c[start..Stop(|c|, start, count)])
            && Freed(old(vol.lcnbmp[..]), vol.lcnbmp[..], cells)
            && vol.freeClusters == old(vol.freeClusters) + Real(cells)
            && r == if start < |c| && start + count > |c| then -1 else Real(cells)
    ensures vol.mftZoneStart <= vol.mftZoneEnd ==>
              vol.fullZones == old(vol.fullZones) - ZonesFreed(vol, rl, start, Stop(|Cells(rl)|, start, count))
    ensures old(vol.Laid()) ==> vol.Laid()
  {
    hide Bit, Cells, Real, Freed, RunCells, ZonesFrom, ZonesFreed;
    cells := [];
    ghost var end := Stop(|Cells(rl)|, start, count);
    CellsEnd(rl);
    var i := AttributeRead.FindVcn(rl, start);
    EndVcn(rl, i);
    if rl[i].length == 0 {
      NoneFreed(vol.lcnbmp[..]);
      BeyondAll(vol, rl, start, end);
      return 0, [];
    }
    var delta := start - rl[i].vcn;
    ghost var c := Cells(rl);
    CellsAt(rl, i + 1);
    var n := if count >= 0 && rl[i].length - delta > count then count else rl[i].length - delta;
    ZonesTogether(vol, rl, i, start, end);
    var nr := FreeRun(vol, rl, i, delta, n);
    ghost var mid := vol.lcnbmp[..];
    NextVcn(rl, i);
    var left := if count >= 0 then count - n else count;
    if left == 0 {
      NoZones(vol, rl, i + 1, end, i + 1);
      ZonesEnd(vol, rl, i + 1, end, i + 1);
      vol.freeClusters := vol.freeClusters + nr;
      return nr, c[start..start + n];
    }
    var more, rest := FreeRuns(vol, rl, i + 1, left);
    ghost var at, stop := start + n, Stop(|c|, start + n, left);
    FreedBoth(old(vol.lcnbmp[..]), mid, vol.lcnbmp[..], c, start, at, stop);
    vol.freeClusters := vol.freeClusters + (nr + more);
    r, cells := if rest != -1 && rest != 0 then -1 else nr + more, c[start..stop];
  }

  lemma {:induction false} NextVcn(rl: seq<Run>, i: nat)
    requires WellFormed(rl) && i < |rl| && rl[i].length != 0
    ensures i < |rl| - 1 && rl[i + 1].vcn == rl[i].vcn + rl[i].length
  {
    var j := i + 1;
    assert rl[i].vcn + rl[i].length == rl[j].vcn;
  }

  lemma {:induction false} EndVcn(rl: seq<Run>, i: nat)
    requires WellFormed(rl) && i < |rl|
    ensures (rl[i].length == 0 <==> i == |rl| - 1) && (i < |rl| - 1 ==> rl[i].lcn >= HOLE)
  {
  }
}

/** `ntfs_compress_overwr_free`: after compressed data were overwritten, the clusters no longer
    needed become a hole, in place in the run list.  Modelled for a run that keeps at least one
    cluster. */
module RunEditor {

  import opened RunList

  ghost predicate NoAdjacentHoles(rs: seq<Run>) {
    forall k, m :: 0 <= k && m == k + 1 && m < |rs| ==> rs[k].lcn != HOLE || rs[m].lcn != HOLE
  }

  /** Every hole ends at the end of a compression block of `cbc` clusters. */
  ghost predicate HolesAligned(rs: seq<Run>, cbc: int)
    requires cbc > 0
  {
    forall k :: 0 <= k < |rs| && rs[k].lcn == HOLE ==> (rs[k].vcn + rs[k].length) % cbc == 0
  }

  ghost predicate Good(rs: seq<Run>, cbc: int)
    requires cbc > 0
  {
    WellFormed(rs) && NoAdjacentHoles(rs) && HolesAligned(rs, cbc)
  }

  // ---- the edit as a function on run lists ----------------------------------------------------

  /** The rest of run `r` after its first `n` clusters. */
  function Shifted(r: Run, n: nat): Run
    requires n <= r.length
  {
    Run(r.vcn + n, r.lcn + n, r.length - n)
  }

  /** How many runs of `t` lie entirely in its first `left` clusters. */
  function DroppedRuns(t: seq<Run>, left: nat): (k: nat)
    ensures k <= |t|
  {
    if t == [] || left == 0 || t[0].length == 0 || t[0].length > left then 0
    else 1 + DroppedRuns(t[1..], left - t[0].length)
  }

  /** What remains of `t` after its first `left` clusters. */
  function DropClusters(t: seq<Run>, left: nat): (r: seq<Run>) {
    if t == [] || left == 0 || t[0].length == 0 then t
    else if t[0].length > left then [Shifted(t[0], left)] + t[1..]
    else DropClusters(t[1..], left - t[0].length)
  }

  /** A hole of `n` clusters at `vcn` put before `rest`, merged with a hole there. */
  function WithHole(vcn: int, n: nat, rest: seq<Run>): (r: seq<Run>) {
    if rest != [] && rest[0].lcn == HOLE then [Run(vcn, HOLE, n + rest[0].length)] + rest[1..]
    else [Run(vcn, HOLE, n)] + rest
  }

  /** What follows the freed clusters when `used` clusters of `r` are kept and the next `freecnt`
      freed, `t` being the runs after `r`. */
  function After(r: Run, t: seq<Run>, used: nat, freecnt: nat): (e: seq<Run>)
    requires used <= r.length
  {
    var tail := r.length - used;
    if tail > freecnt then [Shifted(r, used + freecnt)] + t else DropClusters(t, freecnt - tail)
  }

  /** The runs that replace `r` and `t`. */
  function Edited(r: Run, t: seq<Run>, used: nat, freecnt: nat): (e: seq<Run>)
    requires used <= r.length
  {
    [Run(r.vcn, r.lcn, used)] + WithHole(r.vcn + used, freecnt, After(r, t, used, freecnt))
  }

  ghost predicate AllAllocated(c: seq<int>) {
    forall k :: 0 <= k < |c| ==> c[k] >= 0
  }

  function Holes(n: nat): (c: seq<int>)
    ensures |c| == n
  {
    seq(n, _ => HOLE)
  }

  lemma {:induction false} WellFormedTail(t: seq<Run>)
    requires WellFormed(t) && |t| > 1
    ensures WellFormed(t[1..])
  {
    forall k, m | 0 <= k && m == k + 1 && m < |t[1..]|
      ensures t[1..][k].vcn + t[1..][k].length == t[1..][m].vcn
    {
      assert t[k + 1].vcn + t[k + 1].length == t[m + 1].vcn;
    }
  }

  lemma {:induction false} TerminatorCells(t: seq<Run>)
    requires WellFormed(t) && |t| == 1
    ensures Cells(t) == []
  {
    assert t[1..] == [];
  }

  /** A step of the walk over the freed runs. */
  lemma {:induction false} AllocatedSplit(t: seq<Run>, left: nat)
    requires WellFormed(t) && 0 < left <= |Cells(t)| && AllAllocated(Cells(t)[..left])
    ensures |t| > 1 && t[0].length > 0 && t[0].lcn >= 0
    ensures t[0].length <= left ==>
              left - t[0].length <= |Cells(t[1..])| && AllAllocated(Cells(t[1..])[..left - t[0].length])
  {
    if |t| == 1 {
      TerminatorCells(t);
    }
    var c := Cells(t);
    assert c[..left][0] == c[0] == RunCells(t[0])[0];
    var n := t[0].length;
    if n <= left {
      forall k | 0 <= k < left - n
        ensures Cells(t[1..])[k] >= 0
      {
        assert Cells(t[1..])[k] == c[n + k] == c[..left][n + k];
      }
    }
  }

  lemma {:induction false} DropClustersCells(t: seq<Run>, left: nat)
    requires WellFormed(t) && left <= |Cells(t)| && AllAllocated(Cells(t)[..left])
    ensures Cells(DropClusters(t, left)) == Cells(t)[left..]
    decreases |t|
  {
    if left > 0 {
      AllocatedSplit(t, left);
      if t[0].length > left {
        assert RunCells(t[0])[left..] == RunCells(Shifted(t[0], left));
        assert ([Shifted(t[0], left)] + t[1..])[1..] == t[1..];
      } else {
        WellFormedTail(t);
        DropClustersCells(t[1..], left - t[0].length);
      }
    }
  }

  lemma {:induction false} GoodTail(t: seq<Run>, cbc: int)
    requires cbc > 0 && Good(t, cbc) && |t| > 1
    ensures Good(t[1..], cbc)
  {
    WellFormedTail(t);
    forall k, m | 0 <= k && m == k + 1 && m < |t[1..]|
      ensures t[1..][k].lcn != HOLE || t[1..][m].lcn != HOLE
    {
      assert t[k + 1].lcn != HOLE || t[m + 1].lcn != HOLE;
    }
  }

  /** An allocated run put before a good list. */
  lemma {:induction false} GoodCons(r: Run, t: seq<Run>, cbc: int)
    requires cbc > 0 && Good(t, cbc) && r.length > 0 && r.lcn >= 0 && r.vcn + r.length == t[0].vcn
    ensures Good([r] + t, cbc)
  {
    var l := [r] + t;
    assert forall k :: 1 <= k < |l| ==> l[k] == t[k - 1];
    forall k, m | 0 <= k && m == k + 1 && m < |l|
      ensures l[k].vcn + l[k].length == l[m].vcn && (l[k].lcn != HOLE || l[m].lcn != HOLE)
    {
      if k > 0 {
        assert t[k - 1].vcn + t[k - 1].length == t[m - 1].vcn;
      }
    }
  }

  /** A hole put before a good list that does not start with one. */
  lemma {:induction false} GoodHole(r: Run, t: seq<Run>, cbc: int)
    requires cbc > 0 && Good(t, cbc) && r.length > 0 && r.lcn == HOLE && t[0].lcn != HOLE
    requires r.vcn + r.length == t[0].vcn && t[0].vcn % cbc == 0
    ensures Good([r] + t, cbc)
  {
    var l := [r] + t;
    assert forall k :: 1 <= k < |l| ==> l[k] == t[k - 1];
    forall k, m | 0 <= k && m == k + 1 && m < |l|
      ensures l[k].vcn + l[k].length == l[m].vcn && (l[k].lcn != HOLE || l[m].lcn != HOLE)
    {
      if k > 0 {
        assert t[k - 1].vcn + t[k - 1].length == t[m - 1].vcn;
      }
    }
  }

  lemma {:induction false} GoodWithHole(vcn: int, n: nat, rest: seq<Run>, cbc: int)
    requires cbc > 0 && n > 0 && Good(rest, cbc) && rest[0].vcn == vcn + n && (vcn + n) % cbc == 0
    ensures Good(WithHole(vcn, n, rest), cbc)
  {
    if rest[0].lcn == HOLE {
      var h := Run(vcn, HOLE, n + rest[0].length);
      assert |rest| > 1 && rest[0].vcn + rest[0].length == rest[1].vcn && rest[1].lcn != HOLE;
      GoodTail(rest, cbc);
      assert rest[1..][0] == rest[1];
      GoodHole(h, rest[1..], cbc);
    } else {
      GoodHole(Run(vcn, HOLE, n), rest, cbc);
    }
  }

  /** Dropping clusters leaves a good list that starts where the dropped part ended. */
  lemma {:induction false} DropClustersGood(t: seq<Run>, left: nat, cbc: int)
    requires cbc > 0 && Good(t, cbc)
    requires left <= |Cells(t)| && AllAllocated(Cells(t)[..left])
    ensures var r := DropClusters(t, left);
            Good(r, cbc) && r[0].vcn == t[0].vcn + left && |r| == |t| - DroppedRuns(t, left)
    decreases |t|
  {
    hide NoAdjacentHoles, HolesAligned, Cells, AllAllocated;
    if left > 0 {
      AllocatedSplit(t, left);
      assert t[0].vcn + t[0].length == t[1].vcn;
      GoodTail(t, cbc);
      assert t[1..][0] == t[1];
      if t[0].length > left {
        GoodCons(Shifted(t[0], left), t[1..], cbc);
      } else {
        DropClustersGood(t[1..], left - t[0].length, cbc);
      }
    }
  }

  /** Replacing the runs from `i` on by a good list that starts at the same place. */
  lemma {:induction false} GoodJoin(rs: seq<Run>, i: nat, e: seq<Run>, cbc: int)
    requires cbc > 0 && Good(rs, cbc) && i < |rs| && Good(e, cbc) && e[0].vcn == rs[i].vcn && e[0].lcn >= 0
    ensures Good(rs[..i] + e, cbc)
  {
    hide WellFormed, NoAdjacentHoles, HolesAligned;
    WellFormedJoin(rs, i, e);
    HolesJoin(rs, i, e, cbc);
  }

  lemma {:induction false} WellFormedJoin(rs: seq<Run>, i: nat, e: seq<Run>)
    requires WellFormed(rs) && i < |rs| && WellFormed(e) && e[0].vcn == rs[i].vcn
    ensures WellFormed(rs[..i] + e) && e != []
  {
    var l := rs[..i] + e;
    forall k, m | 0 <= k && m == k + 1 && m < |l|
      ensures l[k].vcn + l[k].length == l[m].vcn
    {
      if k >= i {
        var p, q := k - i, m - i;
        assert e[p].vcn + e[p].length == e[q].vcn;
      } else {
        assert rs[k].vcn + rs[k].length == rs[m].vcn;
      }
    }
    forall k | 0 <= k < |l| - 1
      ensures l[k].length > 0 && l[k].lcn >= HOLE
    {
      assert l[k] == if k < i then rs[k] else e[k - i];
    }
  }

  lemma {:induction false} HolesJoin(rs: seq<Run>, i: nat, e: seq<Run>, cbc: int)
    requires cbc > 0 && NoAdjacentHoles(rs) && HolesAligned(rs, cbc) && NoAdjacentHoles(e) && HolesAligned(e, cbc)
    requires i < |rs| && e != [] && e[0].lcn >= 0
    ensures NoAdjacentHoles(rs[..i] + e) && HolesAligned(rs[..i] + e, cbc)
  {
    var l := rs[..i] + e;
    forall k, m | 0 <= k && m == k + 1 && m < |l|
      ensures l[k].lcn != HOLE || l[m].lcn != HOLE
    {
      if k >= i {
        var p, q := k - i, m - i;
        assert e[p].lcn != HOLE || e[q].lcn != HOLE;
      } else if m < i {
        assert rs[k].lcn != HOLE || rs[m].lcn != HOLE;
      }
    }
    forall k | 0 <= k < |l| && l[k].lcn == HOLE
      ensures (l[k].vcn + l[k].length) % cbc == 0
    {
      assert l[k] == if k < i then rs[k] else e[k - i];
    }
  }

  lemma {:induction false} WithHoleCells(vcn: int, n: nat, rest: seq<Run>)
    ensures Cells(WithHole(vcn, n, rest)) == Holes(n) + Cells(rest)
  {
    if rest != [] && rest[0].lcn == HOLE {
      var h := Run(vcn, HOLE, n + rest[0].length);
      CellsCons(h, rest[1..]);
      assert RunCells(h) == Holes(n) + RunCells(rest[0]);
    } else {
      CellsCons(Run(vcn, HOLE, n), rest);
      assert RunCells(Run(vcn, HOLE, n)) == Holes(n);
    }
  }

  /** The clusters to free, as seen from run `r` and the runs `t` after it, are all allocated. */
  ghost predicate Freeable(r: Run, t: seq<Run>, used: nat, freecnt: nat) {
    && 0 < used <= r.length && r.lcn >= 0 && freecnt > 0
    && (r.length - used < freecnt ==>
          var left := freecnt - (r.length - used);
          left <= |Cells(t)| && AllAllocated(Cells(t)[..left]))
  }

  lemma {:induction false} AfterIs(r: Run, t: seq<Run>, used: nat, freecnt: nat, cbc: int)
    requires cbc > 0 && Good(t, cbc) && Freeable(r, t, used, freecnt) && r.vcn + r.length == t[0].vcn
    ensures var a := After(r, t, used, freecnt);
            && Good(a, cbc) && a[0].vcn == r.vcn + used + freecnt
            && used + freecnt <= r.length + |Cells(t)| && Cells(a) == (RunCells(r) + Cells(t))[used + freecnt..]
  {
    hide Good, AllAllocated, Cells, DropClusters;
    var tail := r.length - used;
    var all := RunCells(r) + Cells(t);
    if tail > freecnt {
      var x := Shifted(r, used + freecnt);
      GoodCons(x, t, cbc);
      CellsCons(x, t);
      assert RunCells(x) == RunCells(r)[used + freecnt..];
      assert all[used + freecnt..] == RunCells(r)[used + freecnt..] + Cells(t);
    } else {
      var left := freecnt - tail;
      Nothing(t);
      DropClustersGood(t, left, cbc);
      GoodWellFormed(t, cbc);
      DropClustersCells(t, left);
      assert all[used + freecnt..] == Cells(t)[left..];
    }
  }

  lemma {:induction false} Nothing(t: seq<Run>)
    ensures AllAllocated(Cells(t)[..0])
  {
  }

  lemma {:induction false} GoodWellFormed(t: seq<Run>, cbc: int)
    requires cbc > 0 && Good(t, cbc)
    ensures WellFormed(t)
  {
  }

  lemma {:induction false} EditedIs(r: Run, t: seq<Run>, used: nat, freecnt: nat, cbc: int)
    requires cbc > 0 && Good(t, cbc) && Freeable(r, t, used, freecnt) && r.vcn + r.length == t[0].vcn
    requires (r.vcn + used + freecnt) % cbc == 0
    ensures var e := Edited(r, t, used, freecnt);
            var all := RunCells(r) + Cells(t);
            && Good(e, cbc) && e[0] == Run(r.vcn, r.lcn, used) && used + freecnt <= |all|
            && Cells(e) == all[..used] + Holes(freecnt) + all[used + freecnt..]
  {
    hide Good, Cells, After, WithHole;
    AfterIs(r, t, used, freecnt, cbc);
    var a := After(r, t, used, freecnt);
    var w := WithHole(r.vcn + used, freecnt, a);
    GoodWithHole(r.vcn + used, freecnt, a, cbc);
    WithHoleCells(r.vcn + used, freecnt, a);
    var kept := Run(r.vcn, r.lcn, used);
    FirstIsHole(r.vcn + used, freecnt, a);
    GoodCons(kept, w, cbc);
    CellsCons(kept, w);
    assert RunCells(kept) == (RunCells(r) + Cells(t))[..used];
  }

  /** The edit changes the map from virtual to real clusters only where clusters are freed: exactly
      these become a hole.  The list stays adjacent, with no two neighbouring holes, and every hole
      ends with a compression block. */
  lemma {:induction false} EditIsExact(rs: seq<Run>, i: nat, used: nat, freecnt: nat, cbc: int)
    requires cbc > 0 && Good(rs, cbc) && i + 1 < |rs| && Freeable(rs[i], rs[i + 1..], used, freecnt)
    requires (rs[i].vcn + used + freecnt) % cbc == 0
    ensures var rs' := rs[..i] + Edited(rs[i], rs[i + 1..], used, freecnt);
            var o := |Cells(rs[..i])| + used;
            && Good(rs', cbc) && o + freecnt <= |Cells(rs)|
            && Cells(rs') == Cells(rs)[..o] + Holes(freecnt) + Cells(rs)[o + freecnt..]
  {
    hide Good, Cells, Edited, RunCells;
    var r, t := rs[i], rs[i + 1..];
    SplitAt(rs, i, cbc);
    EditedIs(r, t, used, freecnt, cbc);
    var e := Edited(r, t, used, freecnt);
    GoodJoin(rs, i, e, cbc);
    CellsConcat(rs[..i], e);
    var p, all := Cells(rs[..i]), RunCells(r) + Cells(t);
    assert (p + all)[..|p| + used] == p + all[..used];
    assert (p + all)[|p| + used + freecnt..] == all[used + freecnt..];
  }

  lemma {:induction false} SplitAt(rs: seq<Run>, i: nat, cbc: int)
    requires cbc > 0 && Good(rs, cbc) && i + 1 < |rs|
    ensures Good(rs[i + 1..], cbc) && rs[i].vcn + rs[i].length == rs[i + 1..][0].vcn
    ensures Cells(rs) == Cells(rs[..i]) + (RunCells(rs[i]) + Cells(rs[i + 1..]))
  {
    hide NoAdjacentHoles, HolesAligned, Cells;
    GoodSuffix(rs, i + 1, cbc);
    assert rs[i].vcn + rs[i].length == rs[i + 1].vcn;
    assert rs == rs[..i] + ([rs[i]] + rs[i + 1..]);
    CellsConcat(rs[..i], [rs[i]] + rs[i + 1..]);
    CellsCons(rs[i], rs[i + 1..]);
  }

  lemma {:induction false} FirstIsHole(vcn: int, n: nat, rest: seq<Run>)
    ensures var w := WithHole(vcn, n, rest); w != [] && w[0].vcn == vcn
  {
  }

  lemma {:induction false} GoodSuffix(rs: seq<Run>, k: nat, cbc: int)
    requires cbc > 0 && Good(rs, cbc) && k < |rs|
    ensures Good(rs[k..], cbc)
  {
    hide Good;
    if k > 0 {
      GoodSuffix(rs, k - 1, cbc);
      GoodTail(rs[k - 1..], cbc);
      assert rs[k - 1..][1..] == rs[k..];
    } else {
      assert rs[k..] == rs;
    }
  }

  // ---- the edit in place ----------------------------------------------------------------------

  function ToSet(c: seq<int>): set<int> {
    set x | x in c
  }

  function ClusterRange(lcn: int, count: nat): set<int> {
    ToSet(seq(count, k => lcn + k))
  }

  lemma {:induction false} RangeOfRun(r: Run, n: nat)
    requires n <= r.length && r.lcn >= 0
    ensures ClusterRange(r.lcn, n) == ToSet(RunCells(r)[..n])
  {
    assert RunCells(r)[..n] == seq(n, k => r.lcn + k);
  }

  /** The compressed attribute: its run list with spare slots at the end, its size on disk, and the
      clusters in use on the volume. */
  class CompressedAttribute {
    const rl: array<Run>
    ghost var n: nat
    const clusterSize: nat
    var compressedSize: int
    var inUse: set<int>

    constructor (runs: array<Run>, ghost count: nat, clsz: nat, size: int, clusters: set<int>)
      ensures rl == runs && n == count && clusterSize == clsz && compressedSize == size && inUse == clusters
    {
      rl, n, clusterSize, compressedSize, inUse := runs, count, clsz, size, clusters;
    }

    ghost predicate Valid(cbc: int)
      requires cbc > 0
      reads this, rl
    {
      n <= rl.Length && Good(rl[..n], cbc)
    }

    /** Return clusters to the volume. */
    method FreeClusters(lcn: int, count: nat)
      modifies this`inUse
      ensures inUse == old(inUse) - ClusterRange(lcn, count)
    {
      inUse := inUse - ClusterRange(lcn, count);
    }

    /** The index of the terminator. */
    method FindEnd(from: nat) returns (end: nat)
      requires from < n <= rl.Length && WellFormed(rl[from..n])
      ensures end == n - 1
    {
      end := from;
      while rl[end].length != 0
        invariant from <= end < n
        decreases n - end
      {
        assert rl[from..n][end - from] == rl[end];
        end := end + 1;
      }
      assert rl[from..n][end - from] == rl[end];
    }

    /** Make room: move the runs from `from` to the terminator at `end` up by `slots` slots. */
    method ShiftUp(from: nat, end: nat, slots: nat)
      requires from <= end && end + slots < rl.Length && slots > 0
      modifies rl
      ensures rl[from + slots..end + slots + 1] == old(rl[from..end + 1])
      ensures forall k :: 0 <= k < from + slots ==> rl[k] == old(rl[k])
    {
      var erl := end + 1;
      while erl > from
        invariant from <= erl <= end + 1
        invariant forall k :: erl <= k <= end ==> rl[k + slots] == old(rl[k])
        invariant forall k :: 0 <= k < erl + slots && k < rl.Length ==> rl[k] == old(rl[k])
      {
        erl := erl - 1;
        rl[erl + slots] := rl[erl];
      }
      forall k | from + slots <= k <= end + slots
        ensures rl[k] == old(rl[k - slots])
      {
        assert rl[(k - slots) + slots] == old(rl[k - slots]);
      }
    }

    /** Close a gap: move the runs after `at + slots` down to just after `at`, with the terminator. */
    method ShiftDown(at: nat, slots: nat)
      requires slots > 0 && at + slots + 1 < n <= rl.Length
      requires rl[n - 1].length == 0 && forall k :: at + slots < k < n - 1 ==> rl[k].length > 0
      modifies rl
      ensures forall k :: at < k < n - slots ==> rl[k] == old(rl[k + slots])
      ensures forall k :: 0 <= k <= at ==> rl[k] == old(rl[k])
    {
      hide Moved;
      ghost var was := rl[..];
      NotMoved(was, at, slots, n);
      var erl := at + 1;
      MoveOne(rl[..], was, at, at, slots, n);
      rl[erl] := rl[erl + slots];
      while rl[erl].length != 0
        invariant at < erl < n - slots && Moved(rl[..], was, at, erl, slots, n) && rl[erl] == was[erl + slots]
        decreases n - erl
      {
        MoveOne(rl[..], was, at, erl, slots, n);
        erl := erl + 1;
        rl[erl] := rl[erl + slots];
      }
      MovedAll(rl[..], was, at, erl, slots, n);
      assert erl + slots == n - 1;
    }

    /** Free the first `left` clusters of the runs from `freerl` on: whole runs are marked as holes
        (the first one taking over the `carry` of the truncated run), a last one is shortened.  The
        clusters freed are counted on the way. */
    method FreeFollowing(freerl: nat, left0: nat, carry0: nat, ghost t: seq<Run>) returns (holes: nat, freed: nat)
      requires freerl < n <= rl.Length && t == rl[freerl..n] && WellFormed(t)
      requires left0 <= |Cells(t)| && AllAllocated(Cells(t)[..left0])
      modifies rl, this`inUse
      ensures holes == DroppedRuns(t, left0) && freerl + holes < n && freed == left0
      ensures rl[freerl + holes..n] == DropClusters(t, left0)
      ensures holes > 0 ==> rl[freerl].lcn == HOLE
      ensures forall k :: 0 <= k < freerl ==> rl[k] == old(rl[k])
      ensures inUse == old(inUse) - ToSet(Cells(t)[..left0])
    {
      hide Cells, AllAllocated, WellFormed, ToSet, ClusterRange, DroppedRuns, DropClusters;
      var frl: nat, left: nat, carry: nat := freerl, left0, carry0;
      holes, freed := 0, 0;
      ghost var rest := t;
      while rl[frl].length != 0 && left > 0
        invariant frl == freerl + holes < n && freed + left == left0
        invariant rest == rl[frl..n] && WellFormed(rest) && left <= |Cells(rest)| && AllAllocated(Cells(rest)[..left])
        invariant DroppedRuns(t, left0) == holes + DroppedRuns(rest, left)
        invariant DropClusters(t, left0) == DropClusters(rest, left)
        invariant holes > 0 ==> rl[freerl].lcn == HOLE
        invariant forall k :: 0 <= k < freerl ==> rl[k] == old(rl[k])
        invariant inUse - ToSet(Cells(rest)[..left]) == old(inUse) - ToSet(Cells(t)[..left0])
        decreases n - frl
      {
        FreeStep(rest, left);
        assert rest[0] == rl[frl];
        if rl[frl].length <= left {
          FreeClusters(rl[frl].lcn, rl[frl].length);
          left, freed := left - rl[frl].length, freed + rl[frl].length;
          rl[frl] := Run(rl[frl].vcn, HOLE, rl[frl].length + carry);
          carry, holes, frl := 0, holes + 1, frl + 1;
          rest := rest[1..];
          assert rest == rl[frl..n];
        } else {
          FreeClusters(rl[frl].lcn, left);
          rl[frl] := Shifted(rl[frl], left);
          assert rl[frl..n] == [Shifted(rest[0], left)] + rest[1..];
          freed := freed + left;
          return;
        }
      }
      assert rest[0] == rl[frl];
      NothingLeft(rest, left);
    }

    /** No run was freed entirely: extend a hole at `freerl`, or insert one. */
    method InsertHole(freerl: nat, freevcn: int, freecnt: nat, ghost rest: seq<Run>)
      requires freerl < n < rl.Length && rest == rl[freerl..n] && WellFormed(rest)
      modifies rl, this`n
      ensures freerl <= n <= rl.Length && rl[freerl..n] == WithHole(freevcn, freecnt, rest)
      ensures forall k :: 0 <= k < freerl ==> rl[k] == old(rl[k])
    {
      assert rest[0] == rl[freerl];
      if rl[freerl].lcn == HOLE {
        rl[freerl] := Run(freevcn, HOLE, rl[freerl].length + freecnt);
        assert rl[freerl..n] == WithHole(freevcn, freecnt, rest);
      } else {
        var end := FindEnd(freerl);
        hide WellFormed;
        ShiftUp(freerl, end, 1);
        rl[freerl] := Run(freevcn, HOLE, freecnt);
        n := n + 1;
        SliceCons(rl, freerl, n);
      }
    }

    /** Set the start of a hole that was moved up; it is where the part before it ends. */
    method RelocateHole(at: nat, isHole: bool, part: Run, ghost rest: seq<Run>)
      requires at < n <= rl.Length && rl[at..n] == rest && isHole == (rest[0].lcn == HOLE)
      requires part.vcn + part.length == rest[0].vcn
      modifies rl
      ensures rl[at..n] == rest && forall k :: 0 <= k < at ==> rl[k] == old(rl[k])
    {
      assert rl[at] == rest[0];
      if isHole {
        rl[at] := Run(part.vcn + part.length, HOLE, rl[at].length);
      }
    }

    /** The freed clusters end inside the truncated run: put a hole and the rest of that run. */
    method InsertThreeParts(freerl: nat, freevcn: int, freecnt: nat, part: Run, ghost rest: seq<Run>)
      requires freerl < n && n + 1 < rl.Length && rest == rl[freerl..n] && WellFormed(rest)
      requires part.lcn >= 0 && part.vcn + part.length == rest[0].vcn
      modifies rl, this`n
      ensures freerl <= n <= rl.Length && rl[freerl..n] == WithHole(freevcn, freecnt, [part] + rest)
      ensures forall k :: 0 <= k < freerl ==> rl[k] == old(rl[k])
    {
      hide WellFormed, WithHole;
      NotEmpty(rest);
      SliceCons(rl, freerl, n);
      var end := FindEnd(freerl);
      var wasHole := rl[freerl].lcn == HOLE;
      ShiftUp(freerl, end, 2);
      n := n + 2;
      RelocateHole(freerl + 2, wasHole, part, rest);
      rl[freerl + 1] := part;
      rl[freerl] := Run(freevcn, HOLE, freecnt);
      SliceCons(rl, freerl, n);
      SliceCons(rl, freerl + 1, n);
      HoleBeforePart(freevcn, freecnt, part, rest);
    }

    /** Close a gap of `slots` runs after `at`; `keep` are the runs after it. */
    method CloseGap(at: nat, slots: nat, ghost keep: seq<Run>)
      requires at + slots + 1 < n <= rl.Length && keep == rl[at + slots + 1..n] && WellFormed(keep)
      modifies rl, this`n
      ensures at < n <= rl.Length && rl[at + 1..n] == keep
      ensures forall k :: 0 <= k <= at ==> rl[k] == old(rl[k])
    {
      if slots > 0 {
        assert forall k :: at + slots < k < n ==> rl[k] == keep[k - at - slots - 1];
        ShiftDown(at, slots);
        n := n - slots;
      }
    }

    /** Whole runs were freed: one hole takes their place, with a hole that follows. */
    method ReplaceFreed(freerl: nat, holes: nat, freevcn: int, freecnt: nat, ghost rest: seq<Run>)
      requires holes > 0 && freerl + holes < n <= rl.Length && rest == rl[freerl + holes..n] && WellFormed(rest)
      modifies rl, this`n
      ensures freerl <= n <= rl.Length && rl[freerl..n] == WithHole(freevcn, freecnt, rest)
      ensures forall k :: 0 <= k < freerl ==> rl[k] == old(rl[k])
    {
      hide WellFormed, WithHole;
      NotEmpty(rest);
      HoleMerged(freevcn, freecnt, rest);
      SliceCons(rl, freerl + holes, n);
      if rl[freerl + holes].lcn == HOLE {
        WellFormedTail(rest);
        SetHole(freerl, holes, Run(freevcn, HOLE, freecnt + rl[freerl + holes].length), rest[1..]);
      } else {
        SetHole(freerl, holes - 1, Run(freevcn, HOLE, freecnt), rest);
      }
    }

    /** One hole in place of itself and the `slots` runs behind it. */
    method SetHole(at: nat, slots: nat, hole: Run, ghost keep: seq<Run>)
      requires at + slots + 1 < n <= rl.Length && keep == rl[at + slots + 1..n] && WellFormed(keep)
      modifies rl, this`n
      ensures at < n <= rl.Length && rl[at..n] == [hole] + keep
      ensures forall k :: 0 <= k < at ==> rl[k] == old(rl[k])
    {
      hide WellFormed;
      rl[at] := hole;
      CloseGap(at, slots, keep);
      SliceCons(rl, at, n);
    }

    /** Put the hole in place, by the number of whole runs that were freed. */
    method PlaceHole(freerl: nat, holes: nat, r: Run, usedcnt: nat, freecnt: nat, ghost t: seq<Run>)
      requires freerl + holes < n && n + 1 < rl.Length && 0 < usedcnt <= r.length && r.lcn >= 0
      requires WellFormed(After(r, t, usedcnt, freecnt)) && t != [] && r.vcn + r.length == t[0].vcn
      requires r.length - usedcnt > freecnt ==> WellFormed(t) && holes == 0 && rl[freerl..n] == t
      requires r.length - usedcnt <= freecnt ==> rl[freerl + holes..n] == After(r, t, usedcnt, freecnt)
      modifies rl, this`n
      ensures freerl <= n <= rl.Length
      ensures rl[freerl..n] == WithHole(r.vcn + usedcnt, freecnt, After(r, t, usedcnt, freecnt))
      ensures forall k :: 0 <= k < freerl ==> rl[k] == old(rl[k])
    {
      hide WellFormed, WithHole, DropClusters;
      var freelcn, freevcn, freelength := r.lcn + usedcnt, r.vcn + usedcnt, r.length - usedcnt;
      if freelength > freecnt {
        var part := Run(freevcn + freecnt, freelcn + freecnt, freelength - freecnt);
        InsertThreeParts(freerl, freevcn, freecnt, part, t);
      } else if holes == 0 {
        InsertHole(freerl, freevcn, freecnt, After(r, t, usedcnt, freecnt));
      } else {
        ReplaceFreed(freerl, holes, freevcn, freecnt, After(r, t, usedcnt, freecnt));
      }
    }

    /** Truncate run `i` to `usedcnt` clusters and turn the next `freecnt` clusters into a hole.
        `Edited` and the lemma `EditIsExact` say what that does to the list. */
    method TruncateRun(i: nat, usedcnt: nat, freecnt: nat, ghost cbc: int)
      requires cbc > 0 && Valid(cbc) && n + 2 <= rl.Length && i + 1 < n
      requires Freeable(rl[i], rl[i + 1..n], usedcnt, freecnt)
      modifies this, rl
      ensures n <= rl.Length
      ensures rl[..n] == old(rl[..n])[..i] + Edited(old(rl[i]), old(rl[i + 1..n]), usedcnt, freecnt)
      ensures compressedSize == old(compressedSize) - freecnt * clusterSize
      ensures inUse == old(inUse) - FreedBy(old(rl[i]), old(rl[i + 1..n]), usedcnt, freecnt)
    {
      hide Good, WellFormed, Cells, AllAllocated, DropClusters, DroppedRuns, ToSet, ClusterRange, WithHole, After,
           FreedBy;
      ghost var rs, t := rl[..n], rl[i + 1..n];
      TailOf(rs, i, cbc, t);
      var r := rl[i];
      rl[i] := Run(r.vcn, r.lcn, usedcnt);
      var freerl, freelength := i + 1, r.length - usedcnt;
      var freed := 0;
      if freelength > 0 {
        freed := if freelength > freecnt then freecnt else freelength;
        FreeClusters(r.lcn + usedcnt, freed);
      }
      FreedParts(r, t, usedcnt, freecnt, freed);
      AfterWellFormed(r, t, usedcnt, freecnt, freed);
      assert rl[freerl..n] == t;
      var holes, more := FreeFollowing(freerl, freecnt - freed, freelength, t);
      compressedSize := compressedSize - (freed + more) * clusterSize;
      PlaceHole(freerl, holes, r, usedcnt, freecnt, t);
      assert rl[..i] == rs[..i];
      SliceJoin(rl, i, n);
    }

    /** The whole operation, with its meaning. */
    method OverwriteFree(i: nat, usedcnt: nat, freecnt: nat, ghost cbc: int)
      requires cbc > 0 && Valid(cbc) && n + 2 <= rl.Length && i + 1 < n
      requires Freeable(rl[i], rl[i + 1..n], usedcnt, freecnt)
      requires (rl[i].vcn + usedcnt + freecnt) % cbc == 0
      modifies this, rl
      ensures Valid(cbc)
      ensures i + 1 < n && rl[..i] == old(rl[..i]) && rl[i] == Run(old(rl[i].vcn), old(rl[i].lcn), usedcnt)
      ensures var before := old(Cells(rl[..n]));
              var o := old(|Cells(rl[..i])|) + usedcnt;
              && o + freecnt <= |before|
              // the map changes in exactly the freed clusters, which become a hole
              && Cells(rl[..n]) == before[..o] + Holes(freecnt) + before[o + freecnt..]
              // and these clusters, no others, go back to the volume
              && inUse == old(inUse) - ToSet(before[o..o + freecnt])
      ensures compressedSize == old(compressedSize) - freecnt * clusterSize
    {
      hide Good, WellFormed, Cells, AllAllocated, DropClusters, DroppedRuns, ToSet, ClusterRange, WithHole, Edited,
           FreedBy;
      ghost var rs := rl[..n];
      assert rs[i + 1..] == rl[i + 1..n] && rs[..i] == rl[..i];
      EditIsExact(rs, i, usedcnt, freecnt, cbc);
      FreedIs(rs, i, usedcnt, freecnt, cbc);
      TruncateRun(i, usedcnt, freecnt, cbc);
      KeptPart(old(rl[..n])[..i], old(rl[i]), old(rl[i + 1..n]), usedcnt, freecnt, rl[..n]);
    }

    /** The full check at the end of a compressed write, from any run of a list in the form kept. */
    method CheckAll(at: nat, cbc: int) returns (ok: bool)
      requires cbc > 0 && Valid(cbc) && at < n && rl[0].vcn % cbc == 0
      ensures ok
    {
      hide Good, RunPasses;
      GoodEnds(rl[..n], cbc);
      ghost var rs := rl[..n];
      forall k | 0 <= k < n - 1
        ensures RunPasses(rs, k, cbc, true)
      {
        GoodPasses(rs, k, cbc);
      }
      var first;
      ok, first := CheckRuns(rl, n, at, cbc, true);
    }

    /** The edit followed by the full check, which it never fails. */
    method OverwriteAndCheck(i: nat, usedcnt: nat, freecnt: nat, at: nat, cbc: int) returns (ok: bool)
      requires cbc > 0 && Valid(cbc) && n + 2 <= rl.Length && at <= i + 1 < n
      requires Freeable(rl[i], rl[i + 1..n], usedcnt, freecnt)
      requires (rl[i].vcn + usedcnt + freecnt) % cbc == 0 && rl[0].vcn % cbc == 0
      modifies this, rl
      ensures Valid(cbc) && ok
      ensures var before := old(Cells(rl[..n]));
              var o := old(|Cells(rl[..i])|) + usedcnt;
              && o + freecnt <= |before|
              && Cells(rl[..n]) == before[..o] + Holes(freecnt) + before[o + freecnt..]
              && inUse == old(inUse) - ToSet(before[o..o + freecnt])
      ensures compressedSize == old(compressedSize) - freecnt * clusterSize
    {
      hide Good, Freeable;
      OverwriteFree(i, usedcnt, freecnt, cbc);
      assert i > 0 ==> rl[0] == rl[..i][0] == old(rl[..i])[0];
      ok := CheckAll(at, cbc);
    }
  }

  lemma {:induction false} KeptPart(a: seq<Run>, r: Run, t: seq<Run>, used: nat, freecnt: nat, rs: seq<Run>)
    requires used <= r.length && rs == a + Edited(r, t, used, freecnt)
    ensures |rs| > |a| + 1 && rs[..|a|] == a && rs[|a|] == Run(r.vcn, r.lcn, used)
  {
    hide After;
  }

  lemma {:induction false} GoodEnds(rs: seq<Run>, cbc: int)
    requires cbc > 0 && Good(rs, cbc)
    ensures rs != [] && rs[|rs| - 1].length == 0 && forall k :: 0 <= k < |rs| - 1 ==> rs[k].length > 0
  {
  }

  /** The clusters freed: the end of run `r`, as far as needed, and the beginning of `t`. */
  ghost function FreedBy(r: Run, t: seq<Run>, used: nat, freecnt: nat): set<int>
    requires Freeable(r, t, used, freecnt)
  {
    var tail := r.length - used;
    if tail >= freecnt then ClusterRange(r.lcn + used, freecnt)
    else ClusterRange(r.lcn + used, tail) + ToSet(Cells(t)[..freecnt - tail])
  }

  lemma {:induction false} FreedParts(r: Run, t: seq<Run>, used: nat, freecnt: nat, freed: nat)
    requires Freeable(r, t, used, freecnt)
    requires freed == if r.length - used > freecnt then freecnt else r.length - used
    ensures freecnt - freed <= |Cells(t)| && AllAllocated(Cells(t)[..freecnt - freed])
    ensures FreedBy(r, t, used, freecnt) == ClusterRange(r.lcn + used, freed) + ToSet(Cells(t)[..freecnt - freed])
    ensures ClusterRange(r.lcn + used, 0) == {}
  {
    hide RunCells, Cells;
    assert ToSet(Cells(t)[..0]) == {};
  }

  lemma {:induction false} FreedIs(rs: seq<Run>, i: nat, used: nat, freecnt: nat, cbc: int)
    requires cbc > 0 && Good(rs, cbc) && i + 1 < |rs| && Freeable(rs[i], rs[i + 1..], used, freecnt)
    ensures var o := |Cells(rs[..i])| + used;
            o + freecnt <= |Cells(rs)| && FreedBy(rs[i], rs[i + 1..], used, freecnt) == ToSet(Cells(rs)[o..o + freecnt])
  {
    hide Good, Cells, RunCells, ToSet, ClusterRange, AllAllocated;
    var r, t := rs[i], rs[i + 1..];
    SplitAt(rs, i, cbc);
    var o := |Cells(rs[..i])| + used;
    var tail := r.length - used;
    var c := Cells(rs)[o..o + freecnt];
    if tail >= freecnt {
      assert c == RunCells(r)[used..used + freecnt];
      PartOfRun(r, used, freecnt);
    } else {
      assert c == RunCells(r)[used..] + Cells(t)[..freecnt - tail];
      assert RunCells(r)[used..used + tail] == RunCells(r)[used..];
      PartOfRun(r, used, tail);
      SetOfConcat(RunCells(r)[used..], Cells(t)[..freecnt - tail]);
    }
  }

  lemma {:induction false} PartOfRun(r: Run, a: nat, n: nat)
    requires a + n <= r.length && r.lcn >= 0
    ensures ClusterRange(r.lcn + a, n) == ToSet(RunCells(r)[a..a + n])
  {
    assert RunCells(r)[a..a + n] == seq(n, k => r.lcn + a + k);
  }

  lemma {:induction false} TailOf(rs: seq<Run>, i: nat, cbc: int, t: seq<Run>)
    requires cbc > 0 && Good(rs, cbc) && i + 1 < |rs| && t == rs[i + 1..]
    ensures WellFormed(t) && rs[i].vcn + rs[i].length == t[0].vcn
  {
    SplitAt(rs, i, cbc);
  }

  lemma {:induction false} DropWellFormed(t: seq<Run>, left: nat)
    requires WellFormed(t) && left <= |Cells(t)| && AllAllocated(Cells(t)[..left])
    ensures WellFormed(DropClusters(t, left)) && (left == 0 ==> DropClusters(t, left) == t && DroppedRuns(t, left) == 0)
    decreases |t|
  {
    hide AllAllocated;
    if left > 0 {
      AllocatedSplit(t, left);
      WellFormedTail(t);
      if t[0].length > left {
        WellFormedCons(Shifted(t[0], left), t);
      } else {
        DropWellFormed(t[1..], left - t[0].length);
      }
    }
  }

  lemma {:induction false} AfterWellFormed(r: Run, t: seq<Run>, used: nat, freecnt: nat, freed: nat)
    requires Freeable(r, t, used, freecnt) && WellFormed(t) && r.vcn + r.length == t[0].vcn
    requires freed == if r.length - used > freecnt then freecnt else r.length - used
    requires freecnt - freed <= |Cells(t)| && AllAllocated(Cells(t)[..freecnt - freed])
    ensures WellFormed(After(r, t, used, freecnt))
    ensures r.length - used > freecnt ==> DropClusters(t, 0) == t && DroppedRuns(t, 0) == 0
    ensures r.length - used <= freecnt ==> After(r, t, used, freecnt) == DropClusters(t, freecnt - freed)
  {
    hide AllAllocated, Cells, WellFormed;
    DropWellFormed(t, freecnt - freed);
    if r.length - used > freecnt {
      ConsWellFormed(Shifted(r, used + freecnt), t);
    }
  }

  lemma {:induction false} ConsWellFormed(x: Run, t: seq<Run>)
    requires WellFormed(t) && x.length > 0 && x.lcn >= 0 && x.vcn + x.length == t[0].vcn
    ensures WellFormed([x] + t)
  {
    var l := [x] + t;
    assert forall k :: 1 <= k < |l| ==> l[k] == t[k - 1];
    forall k, m | 0 <= k && m == k + 1 && m < |l|
      ensures l[k].vcn + l[k].length == l[m].vcn
    {
      if k > 0 {
        assert t[k - 1].vcn + t[k - 1].length == t[m - 1].vcn;
      }
    }
  }

  lemma {:induction false} WellFormedCons(x: Run, t: seq<Run>)
    requires WellFormed(t) && |t| > 1 && x.length > 0 && x.lcn >= 0 && x.vcn + x.length == t[0].vcn + t[0].length
    ensures WellFormed([x] + t[1..])
  {
    var r := [x] + t[1..];
    assert forall k :: 1 <= k < |t| ==> r[k] == t[k];
  }

  lemma {:induction false} HoleBeforePart(vcn: int, n: nat, part: Run, rest: seq<Run>)
    requires part.lcn >= 0
    ensures WithHole(vcn, n, [part] + rest) == [Run(vcn, HOLE, n)] + ([part] + rest)
  {
  }

  /** The runs behind `at` have been moved down by `slots` up to number `e`. */
  ghost predicate Moved(now: seq<Run>, was: seq<Run>, at: nat, e: nat, slots: nat, n: nat) {
    && |now| == |was| && at <= e && e + slots < n <= |was|
    && (forall k :: at < k <= e ==> now[k] == was[k + slots])
    && (forall k :: e < k < n ==> now[k] == was[k])
    && (forall k :: 0 <= k <= at ==> now[k] == was[k])
  }

  lemma {:induction false} NotMoved(was: seq<Run>, at: nat, slots: nat, n: nat)
    requires at + slots < n <= |was|
    ensures Moved(was, was, at, at, slots, n)
  {
  }

  lemma {:induction false} MoveOne(now: seq<Run>, was: seq<Run>, at: nat, e: nat, slots: nat, n: nat)
    requires Moved(now, was, at, e, slots, n) && slots > 0 && e + 1 + slots < n
    ensures |now| == |was| && now[e + 1 + slots] == was[e + 1 + slots]
    ensures Moved(now[e + 1 := now[e + 1 + slots]], was, at, e + 1, slots, n)
  {
  }

  lemma {:induction false} MovedAll(now: seq<Run>, was: seq<Run>, at: nat, e: nat, slots: nat, n: nat)
    requires Moved(now, was, at, e, slots, n)
    ensures |now| == |was| && forall k :: at < k <= e ==> now[k] == was[k + slots]
    ensures forall k :: 0 <= k <= at ==> now[k] == was[k]
  {
  }

  lemma {:induction false} HoleMerged(vcn: int, n: nat, rest: seq<Run>)
    requires rest != []
    ensures WithHole(vcn, n, rest)
         == if rest[0].lcn == HOLE then [Run(vcn, HOLE, n + rest[0].length)] + rest[1..] else [Run(vcn, HOLE, n)] + rest
  {
  }

  lemma {:induction false} NotEmpty(t: seq<Run>)
    requires WellFormed(t)
    ensures t != [] && (t[0].lcn == HOLE ==> |t| > 1)
  {
  }

  lemma {:induction false} SliceJoin(a: array<Run>, i: nat, n: nat)
    requires i < n <= a.Length
    ensures a[..n] == a[..i] + ([a[i]] + a[i + 1..n])
  {
  }

  lemma {:induction false} SliceCons(a: array<Run>, i: nat, n: nat)
    requires i < n <= a.Length
    ensures a[i..n] == [a[i]] + a[i + 1..n]
  {
  }

  lemma {:induction false} FreeStep(t: seq<Run>, left: nat)
    requires WellFormed(t) && 0 < left <= |Cells(t)| && AllAllocated(Cells(t)[..left])
    ensures |t| > 1 && t[0].length > 0 && t[0].lcn >= 0
    ensures t[0].length > left ==> DroppedRuns(t, left) == 0 && DropClusters(t, left) == [Shifted(t[0], left)] + t[1..]
    ensures t[0].length <= left ==>
              && DroppedRuns(t, left) == 1 + DroppedRuns(t[1..], left - t[0].length)
              && DropClusters(t, left) == DropClusters(t[1..], left - t[0].length)
    ensures t[0].length > left ==> ToSet(Cells(t)[..left]) == ClusterRange(t[0].lcn, left)
    ensures t[0].length <= left ==>
              var rest := left - t[0].length;
              && WellFormed(t[1..]) && rest <= |Cells(t[1..])| && AllAllocated(Cells(t[1..])[..rest])
              && ToSet(Cells(t)[..left]) == ClusterRange(t[0].lcn, t[0].length) + ToSet(Cells(t[1..])[..rest])
  {
    hide WellFormed, ClusterRange, RunCells;
    AllocatedSplit(t, left);
    var c := Cells(t);
    if t[0].length > left {
      RangeOfRun(t[0], left);
      assert c[..left] == RunCells(t[0])[..left];
    } else {
      WellFormedTail(t);
      RangeOfRun(t[0], t[0].length);
      var rest := left - t[0].length;
      assert RunCells(t[0])[..t[0].length] == RunCells(t[0]);
      assert c[..left] == RunCells(t[0]) + Cells(t[1..])[..rest];
      SetOfConcat(RunCells(t[0]), Cells(t[1..])[..rest]);
    }
  }

  lemma {:induction false} SetOfConcat(a: seq<int>, b: seq<int>)
    ensures ToSet(a + b) == ToSet(a) + ToSet(b)
  {
  }

  lemma {:induction false} NothingLeft(t: seq<Run>, left: nat)
    requires WellFormed(t) && left <= |Cells(t)| && (left == 0 || t[0].length == 0)
    ensures left == 0 && ToSet(Cells(t)[..left]) == {} && DroppedRuns(t, left) == 0 && DropClusters(t, left) == t
  {
    if left > 0 {
      assert |t| == 1;
      TerminatorCells(t);
    }
  }

  // ---- the source's own check -----------------------------------------------------------------

  /** No complaint about run `k`. */
  ghost predicate RunPasses(rs: seq<Run>, k: nat, cbc: int, full: bool)
    requires cbc > 0 && k + 1 < |rs|
  {
    && rs[k].vcn + rs[k].length == rs[k + 1].vcn
    && (rs[k].lcn == HOLE ==>
          (rs[k].vcn + rs[k].length) % cbc == 0 && (full ==> rs[k + 1].lcn != HOLE))
  }

  /** `valid_compressed_run`: check all runs from the compression block of run `at` on. */
  method CheckRuns(rl: array<Run>, ghost n: nat, at: nat, cbc: int, full: bool) returns (ok: bool, first: nat)
    requires cbc > 0 && at < n <= rl.Length && rl[n - 1].length == 0 && rl[0].vcn % cbc == 0
    requires forall k :: 0 <= k < n - 1 ==> rl[k].length > 0
    ensures first <= at && rl[first].vcn % cbc == 0 && forall k :: first < k <= at ==> rl[k].vcn % cbc != 0
    ensures ok == forall k :: first <= k < n - 1 ==> RunPasses(rl[..n], k, cbc, full)
  {
    var xrl := at;
    while rl[xrl].vcn % cbc != 0
      invariant 0 <= xrl <= at && forall k :: xrl < k <= at ==> rl[k].vcn % cbc != 0
      decreases xrl
    {
      xrl := xrl - 1;
    }
    first, ok := xrl, true;
    while rl[xrl].length != 0
      invariant first <= xrl < n
      invariant ok == forall k :: first <= k < xrl ==> RunPasses(rl[..n], k, cbc, full)
      decreases n - xrl
    {
      var err := false;
      if rl[xrl].vcn + rl[xrl].length != rl[xrl + 1].vcn {
        err := true;
      }
      if rl[xrl].lcn == HOLE {
        if (rl[xrl].vcn + rl[xrl].length) % cbc != 0 {
          err := true;
        }
        if full && rl[xrl + 1].lcn == HOLE {
          err := true;
        }
      }
      assert err == !RunPasses(rl[..n], xrl, cbc, full);
      if err {
        ok := false;
      }
      xrl := xrl + 1;
    }
  }

  /** A good list passes the check in full. */
  lemma {:induction false} GoodPasses(rs: seq<Run>, k: nat, cbc: int)
    requires cbc > 0 && Good(rs, cbc) && k + 1 < |rs|
    ensures RunPasses(rs, k, cbc, true)
  {
    var m := k + 1;
    assert rs[k].vcn + rs[k].length == rs[m].vcn;
    assert rs[k].lcn != HOLE || rs[m].lcn != HOLE;
  }
}

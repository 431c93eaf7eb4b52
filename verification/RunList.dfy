/** Run lists: consecutive runs of virtual clusters, each backed by consecutive clusters or a hole. */
module RunList {

  const HOLE: int := -1

  datatype Run = Run(vcn: int, lcn: int, length: nat)

  /** The cluster behind each virtual cluster of a run; `HOLE` for all of them in a hole. */
  function RunCells(r: Run): (c: seq<int>)
    ensures |c| == r.length
  {
    seq(r.length, k => if r.lcn == HOLE then HOLE else r.lcn + k)
  }

  function Cells(rs: seq<Run>): (c: seq<int>) {
    if rs == [] then [] else RunCells(rs[0]) + Cells(rs[1..])
  }

  lemma {:induction false} CellsConcat(a: seq<Run>, b: seq<Run>)
    ensures Cells(a + b) == Cells(a) + Cells(b)
  {
    if a == [] {
      assert a + b == b;
    } else {
      assert (a + b)[1..] == a[1..] + b;
      CellsConcat(a[1..], b);
    }
  }

  lemma {:induction false} CellsCons(r: Run, t: seq<Run>)
    ensures Cells([r] + t) == RunCells(r) + Cells(t)
  {
    assert ([r] + t)[1..] == t;
  }

  /** Runs of positive length, each starting where the one before ends, and a terminator. */
  ghost predicate WellFormed(rs: seq<Run>) {
    && rs != [] && rs[|rs| - 1].length == 0 && rs[|rs| - 1].lcn < HOLE
    && (forall k :: 0 <= k < |rs| - 1 ==> rs[k].length > 0 && rs[k].lcn >= HOLE)
    && (forall k, m :: 0 <= k && m == k + 1 && m < |rs| ==> rs[k].vcn + rs[k].length == rs[m].vcn)
  }
}

/** Counting free clusters: what clearing the bits of some clusters does to the number of clear bits. */
module FreeCount {
  import opened Bitmap
  import opened RunList

  /** Clear bits among the first `p`. */
  function ClearTo(bytes: seq<Octet>, p: nat): nat
    requires p <= 8 * |bytes|
  {
    if p == 0 then 0 else ClearTo(bytes, p - 1) + (if Bit(bytes, p - 1) then 0 else 1)
  }

  function ClearCount(bytes: seq<Octet>): nat {
    ClearTo(bytes, 8 * |bytes|)
  }

  /** The number of clusters that are not sparse. */
  function Real(cells: seq<int>): (n: nat)
    decreases |cells|
  {
    if cells == [] then 0 else (if cells[0] != HOLE then 1 else 0) + Real(cells[1..])
  }

  lemma {:induction false} RealConcat(a: seq<int>, b: seq<int>)
    ensures Real(a + b) == Real(a) + Real(b)
    decreases |a|
  {
    if a == [] {
      assert a + b == b;
    } else {
      assert (a + b)[1..] == a[1..] + b;
      RealConcat(a[1..], b);
    }
  }

  lemma {:induction false} RealSame(cells: seq<int>, present: bool)
    requires forall i :: 0 <= i < |cells| ==> (cells[i] != HOLE) == present
    ensures Real(cells) == if present then |cells| else 0
    decreases |cells|
  {
    if cells != [] {
      RealSame(cells[1..], present);
    }
  }

  /** Clusters of a bitmap with `bits` bits, or holes. */
  ghost predicate InRange(cells: seq<int>, bits: nat) {
    forall i :: 0 <= i < |cells| ==> cells[i] == HOLE || 0 <= cells[i] < bits
  }

  lemma {:induction false} CellsInRange(rl: seq<Run>, bits: nat)
    requires forall i :: 0 <= i < |rl| && rl[i].length > 0 ==> rl[i].lcn >= HOLE
    requires forall i :: 0 <= i < |rl| && rl[i].lcn >= 0 ==> rl[i].lcn + rl[i].length <= bits
    ensures InRange(Cells(rl), bits)
    decreases |rl|
  {
    if rl != [] {
      CellsInRange(rl[1..], bits);
    }
  }

  /** All the clusters are in use, and none of them occurs twice. */
  ghost predicate InUse(bytes: seq<Octet>, cells: seq<int>)
    requires InRange(cells, 8 * |bytes|)
  {
    && (forall i :: 0 <= i < |cells| && cells[i] != HOLE ==> Bit(bytes, cells[i]))
    && (forall i, j :: 0 <= i < j < |cells| && cells[i] != HOLE ==> cells[i] != cells[j])
  }

  /** The bits of the freed clusters are clear, all others as they were. */
  ghost predicate Freed(was: seq<Octet>, now: seq<Octet>, cells: seq<int>) {
    |was| == |now| && forall k :: 0 <= k < 8 * |was| ==> Bit(now, k) == (Bit(was, k) && k !in cells)
  }

  lemma {:induction false} FreedMore(was: seq<Octet>, mid: seq<Octet>, now: seq<Octet>, a: seq<int>, b: seq<int>)
    requires Freed(was, mid, a) && Freed(mid, now, b)
    ensures Freed(was, now, a + b)
  {
    hide Bit;
  }

  lemma {:induction false} NoneFreed(was: seq<Octet>)
    ensures Freed(was, was, []) && Real([]) == 0
  {
  }

  /** The bits among the first `p` that freeing the clusters clears. */
  ghost function Cleared(was: seq<Octet>, cells: seq<int>, p: nat): set<int>
    requires p <= 8 * |was|
  {
    set k: int | 0 <= k < p && k in cells && Bit(was, k)
  }

  lemma {:induction false} ClearedTo(was: seq<Octet>, now: seq<Octet>, cells: seq<int>, p: nat)
    requires Freed(was, now, cells) && p <= 8 * |was|
    ensures ClearTo(now, p) == ClearTo(was, p) + |Cleared(was, cells, p)|
    decreases p
  {
    hide Bit;
    if p > 0 {
      ClearedTo(was, now, cells, p - 1);
      var x, c := p - 1, Cleared(was, cells, p - 1);
      assert Cleared(was, cells, p) == if x in cells && Bit(was, x) then c + {x} else c;
    } else {
      assert Cleared(was, cells, 0) == {};
    }
  }

  lemma {:induction false} ClearedReal(was: seq<Octet>, cells: seq<int>)
    requires InRange(cells, 8 * |was|)
    ensures |Cleared(was, cells, 8 * |was|)| <= Real(cells)
    ensures |Cleared(was, cells, 8 * |was|)| == Real(cells) <==> InUse(was, cells)
    decreases |cells|
  {
    hide Bit;
    if cells == [] {
      assert Cleared(was, cells, 8 * |was|) == {};
    } else {
      var x, t := cells[0], cells[1..];
      ClearedReal(was, t);
      InUseStep(was, cells);
      var c := Cleared(was, t, 8 * |was|);
      assert forall k :: k in cells <==> k == x || k in t;
      assert Cleared(was, cells, 8 * |was|) == if x != HOLE && Bit(was, x) then c + {x} else c;
    }
  }

  lemma {:induction false} InUseStep(was: seq<Octet>, cells: seq<int>)
    requires InRange(cells, 8 * |was|) && cells != []
    ensures InRange(cells[1..], 8 * |was|)
    ensures InUse(was, cells) <==>
            InUse(was, cells[1..]) && (cells[0] != HOLE ==> Bit(was, cells[0]) && cells[0] !in cells[1..])
  {
    hide Bit;
    var x, t := cells[0], cells[1..];
    assert forall i :: 0 <= i < |t| ==> t[i] == cells[i + 1];
    if InUse(was, cells) {
      forall i, j | 0 <= i < j < |t| && t[i] != HOLE
        ensures t[i] != t[j]
      {
        assert cells[i + 1] != cells[j + 1];
      }
    } else if InUse(was, t) && (x != HOLE ==> Bit(was, x) && x !in t) {
      forall i, j | 0 <= i < j < |cells| && cells[i] != HOLE
        ensures cells[i] != cells[j]
      {
        assert cells[j] == t[j - 1] && (i > 0 ==> cells[i] == t[i - 1]);
      }
    }
  }

  /** Adding the number of clusters freed to a right count of the clear bits gives a right count if and
      only if all these clusters were in use, each occurring once. */
  lemma {:induction false} FreedCount(was: seq<Octet>, now: seq<Octet>, cells: seq<int>)
    requires Freed(was, now, cells) && InRange(cells, 8 * |was|)
    ensures ClearCount(now) <= ClearCount(was) + Real(cells)
    ensures ClearCount(now) == ClearCount(was) + Real(cells) <==> InUse(was, cells)
  {
    hide Bit, InUse, InRange, Freed, Real;
    SameLength(was, now, cells);
    ClearedTo(was, now, cells, 8 * |was|);
    ClearedReal(was, cells);
  }

  lemma {:induction false} SameLength(was: seq<Octet>, now: seq<Octet>, cells: seq<int>)
    requires Freed(was, now, cells)
    ensures |was| == |now|
  {
  }
}

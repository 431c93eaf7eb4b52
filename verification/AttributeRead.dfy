/** Reading a plain non-resident attribute through its run list (`attrib.c`). */
module AttributeRead {
  import opened Sequences
  import opened RunList
  import opened Lznt1Format

  const LCN_ENOENT: int := -3

  /** The runs from VCN 0 on with their end marker, the sizes of the attribute, and the volume: its
      contents and the number of bits of a byte offset inside a cluster. */
  datatype Attribute = Attribute(rl: seq<Run>, dataSize: nat, initSize: nat, device: seq<byte>, bits: nat)

  ghost predicate Mapped(a: Attribute) {
    && WellFormed(a.rl) && a.rl[0].vcn == 0 && a.rl[|a.rl| - 1].lcn == LCN_ENOENT
    && forall i :: 0 <= i < |a.rl| ==> a.rl[i].vcn >= 0 && RunMapped(a, a.rl[i])
  }

  ghost predicate RunMapped(a: Attribute, r: Run) {
    r.lcn >= 0 ==> Shl(r.lcn, a.bits) + Shl(r.length, a.bits) <= |a.device|
  }

  /** The bytes behind one run. */
  ghost function RunBytes(a: Attribute, r: Run): (s: seq<byte>)
    requires RunMapped(a, r)
    ensures |s| == Shl(r.length, a.bits)
  {
    if r.lcn >= 0 then a.device[Shl(r.lcn, a.bits)..Shl(r.lcn, a.bits) + Shl(r.length, a.bits)]
    else Zeros(Shl(r.length, a.bits))
  }

  /** The bytes behind the runs from number `i` on. */
  ghost function Image(a: Attribute, i: nat): (s: seq<byte>)
    requires Mapped(a)
    decreases |a.rl| - i
  {
    if i >= |a.rl| then [] else RunBytes(a, a.rl[i]) + Image(a, i + 1)
  }

  /** The value of the attribute as far as its runs go: what is beyond the initialized size is zero. */
  ghost function Value(a: Attribute): (s: seq<byte>)
    requires Mapped(a)
    ensures |s| == a.dataSize
  {
    seq(a.dataSize, p => if 0 <= p < a.initSize && p < |Image(a, 0)| then Image(a, 0)[p] else 0)
  }

  lemma {:induction false} ShlSum(x: nat, y: nat, k: nat)
    ensures Shl(x + y, k) == Shl(x, k) + Shl(y, k)
    decreases k
  {
    if k > 0 {
      ShlSum(x, y, k - 1);
    }
  }

  lemma {:induction false} ShlPositive(x: nat, k: nat)
    ensures Shl(x, k) >= x
    decreases k
  {
    if k > 0 {
      ShlPositive(x, k - 1);
    }
  }

  /** A cluster starts at or before a byte if and only if its number is at most that of the byte's cluster. */
  lemma {:induction false} ShlShr(v: nat, p: nat, k: nat)
    ensures v <= Shr(p, k) <==> Shl(v, k) <= p
    decreases k
  {
    if k > 0 {
      ShlShr(v, p / 2, k - 1);
    }
  }

  /** A run's bytes stand at its VCN. */
  lemma {:induction false} ImageAt(a: Attribute, i: nat)
    requires Mapped(a) && i < |a.rl|
    ensures Shl(a.rl[i].vcn, a.bits) <= |Image(a, 0)| && Image(a, 0)[Shl(a.rl[i].vcn, a.bits)..] == Image(a, i)
    decreases i
  {
    hide RunMapped, RunBytes, Shl;
    if i == 0 {
      ShlSum(0, 0, a.bits);
    } else {
      ImageAt(a, i - 1);
      var r := a.rl[i - 1];
      var k := i - 1;
      assert r.vcn + r.length == a.rl[i].vcn;
      ShlSum(r.vcn, r.length, a.bits);
      Skip(Image(a, 0), Shl(r.vcn, a.bits), RunBytes(a, r), Image(a, i));
    }
  }

  /** Put `s` into the buffer at `at`. */
  method Put(b: array<byte>, at: nat, s: seq<byte>)
    requires at + |s| <= b.Length
    modifies b
    ensures b[at..at + |s|] == s && b[..at] == old(b[..at]) && forall k :: at + |s| <= k < b.Length ==>
              b[k] == old(b[k])
  {
    var i := 0;
    while i < |s|
      invariant i <= |s| && b[at..at + i] == s[..i] && b[..at] == old(b[..at])
      invariant forall k :: at + i <= k < b.Length ==> b[k] == old(b[k])
    {
      b[at + i] := s[i];
      i := i + 1;
    }
  }

  /** `ntfs_attr_find_vcn`, on a run list that is mapped: the number of the run with `vcn`, or the end. */
  method FindVcn(rl: seq<Run>, vcn: nat) returns (i: nat)
    requires WellFormed(rl) && rl[0].vcn <= vcn
    ensures i < |rl| && rl[i].vcn <= vcn
    ensures i < |rl| - 1 ==> vcn < rl[i].vcn + rl[i].length
  {
    i := 0;
    while rl[i].length != 0
      invariant i < |rl| && rl[i].vcn <= vcn
      decreases |rl| - i
    {
      ghost var j := i + 1;
      assert rl[i].vcn + rl[i].length == rl[j].vcn;
      if vcn < rl[i + 1].vcn {
        return;
      }
      i := i + 1;
    }
  }

  /** How much of a read is answered: it stops at the data size. */
  function Asked(a: Attribute, pos: nat, count: nat): (n: nat)
    ensures n <= count && (n > 0 ==> pos + n <= a.dataSize) && (n < count ==> pos + n >= a.dataSize)
  {
    if pos + count <= a.dataSize then count else if pos >= a.dataSize then 0 else a.dataSize - pos
  }

  /** How many of `n` bytes from `pos` on lie before the initialized size. */
  function Initialized(a: Attribute, pos: nat, n: nat): (m: nat)
    requires pos < a.initSize
    ensures m <= n && pos + m <= a.initSize && (m < n ==> pos + m == a.initSize)
  {
    if pos + n > a.initSize then a.initSize - pos else n
  }

  /** What the runs hold of `m` bytes from `pos` on. */
  function Found(pos: nat, m: nat, size: nat): (r: nat) {
    if pos + m <= size then m else if pos >= size then 0 else size - pos
  }

  /** `ntfs_attr_pread_i`, plain non-resident: the bytes of the value from `pos` on.  Where the runs end
      too early the bytes found are returned, or -1 when there are none. */
  method Pread(a: Attribute, pos: nat, count: nat, b: array<byte>) returns (r: int)
    requires Mapped(a) && count <= b.Length
    modifies b
    ensures var n, size := Asked(a, pos, count), |Image(a, 0)|;
            r == if n == 0 || pos >= a.initSize || pos + Initialized(a, pos, n) <= size then n
                 else if pos >= size then -1
                 else size - pos
    ensures r >= 0 ==> r <= count && (r > 0 ==> pos + r <= a.dataSize && b[..r] == Value(a)[pos..pos + r])
    ensures b[Asked(a, pos, count)..] == old(b[Asked(a, pos, count)..])
  {
    hide RunMapped, WellFormed, Image;
    var n := Asked(a, pos, count);
    if n == 0 {
      return 0;
    }
    if pos >= a.initSize {
      Put(b, 0, Zeros(n));
      return n;
    }
    var m := Initialized(a, pos, n);
    Put(b, m, Zeros(n - m));
    var i := FindVcn(a.rl, Shr(pos, a.bits));
    EndOfRuns(a, i, pos);
    if a.rl[i].length == 0 {
      return -1;
    }
    ghost var before := b[..];
    var total := Gather(a, pos, m, i, b);
    ValueAt(a, pos, n, m, total, before, b[..]);
    r := if total == m then n else total;
  }

  /** The run found is the end marker if and only if there is nothing mapped at `pos`. */
  lemma {:induction false} EndOfRuns(a: Attribute, i: nat, pos: nat)
    requires Mapped(a) && i < |a.rl| && a.rl[i].vcn <= Shr(pos, a.bits)
    requires i < |a.rl| - 1 ==> Shr(pos, a.bits) < a.rl[i].vcn + a.rl[i].length
    ensures a.rl[i].length == 0 <==> i == |a.rl| - 1
    ensures a.rl[i].length == 0 <==> pos >= |Image(a, 0)|
  {
    hide RunMapped;
    ImageAt(a, i);
    ShlShr(a.rl[i].vcn, pos, a.bits);
    if i == |a.rl| - 1 {
      ShlSum(0, 0, a.bits);
      assert |Image(a, i)| == Shl(0, a.bits);
    } else {
      ShlShr(a.rl[i].vcn + a.rl[i].length, pos, a.bits);
      ShlSum(a.rl[i].vcn, a.rl[i].length, a.bits);
      assert |Image(a, i)| >= Shl(a.rl[i].length, a.bits);
    }
  }

  lemma {:induction false} ValueAt(a: Attribute, pos: nat, n: nat, m: nat, total: nat, before: seq<byte>,
                                   after: seq<byte>)
    requires Mapped(a) && pos < a.initSize && pos + n <= a.dataSize && m == Initialized(a, pos, n)
             && n <= |before| == |after|
    requires total == Found(pos, m, |Image(a, 0)|) && pos < |Image(a, 0)|
    requires before[m..n] == Zeros(n - m) && after[..total] == Image(a, 0)[pos..pos + total]
    requires forall k :: total <= k < |after| ==> after[k] == before[k]
    ensures var r := if total == m then n else total; r <= n && after[..r] == Value(a)[pos..pos + r]
    ensures after[n..] == before[n..]
  {
    hide Mapped, Image;
    var r := if total == m then n else total;
    forall k | 0 <= k < r
      ensures after[k] == Value(a)[pos + k]
    {
      if k < total {
        assert after[k] == after[..total][k] == Image(a, 0)[pos..pos + total][k];
      } else {
        assert before[k] == before[m..n][k - m];
      }
    }
  }

  /** `n` bytes of a run from offset `ofs` on, read from the volume or zero. */
  function RunSlice(a: Attribute, r: Run, ofs: nat, n: nat): (s: seq<byte>)
    requires r.lcn >= 0 ==> Shl(r.lcn, a.bits) + ofs + n <= |a.device|
    ensures |s| == n
  {
    if r.lcn < 0 then Zeros(n) else a.device[Shl(r.lcn, a.bits) + ofs..Shl(r.lcn, a.bits) + ofs + n]
  }

  lemma {:induction false} SliceOfImage(a: Attribute, i: nat, ofs: nat, n: nat)
    requires Mapped(a) && i < |a.rl| && ofs + n <= Shl(a.rl[i].length, a.bits)
    ensures a.rl[i].lcn >= 0 ==> Shl(a.rl[i].lcn, a.bits) + ofs + n <= |a.device|
    ensures var p := Shl(a.rl[i].vcn, a.bits) + ofs;
            p + n <= |Image(a, 0)| && RunSlice(a, a.rl[i], ofs, n) == Image(a, 0)[p..p + n]
  {
    hide RunMapped, RunBytes, RunSlice, WellFormed;
    ImageAt(a, i);
    var s, v := Image(a, 0), Shl(a.rl[i].vcn, a.bits);
    var rb := RunBytes(a, a.rl[i]);
    RunSliceIs(a, a.rl[i], ofs, n);
    SliceDeep(s, v, rb, Image(a, i + 1), ofs, n);
  }

  lemma {:induction false} RunSliceIs(a: Attribute, r: Run, ofs: nat, n: nat)
    requires RunMapped(a, r) && ofs + n <= Shl(r.length, a.bits)
    ensures r.lcn >= 0 ==> Shl(r.lcn, a.bits) + ofs + n <= |a.device|
    ensures RunSlice(a, r, ofs, n) == RunBytes(a, r)[ofs..ofs + n]
  {
    hide Shl;
    if r.lcn >= 0 {
      SliceOfSlice(a.device, Shl(r.lcn, a.bits), Shl(r.length, a.bits), ofs, n);
    } else {
      assert Zeros(Shl(r.length, a.bits))[ofs..ofs + n] == Zeros(n);
    }
  }

  /** The next run starts where this one ends, and the end marker where the image ends. */
  lemma {:induction false} NextRun(a: Attribute, i: nat)
    requires Mapped(a) && i < |a.rl|
    ensures a.rl[i].length == 0 <==> i == |a.rl| - 1
    ensures i < |a.rl| - 1 ==> Shl(a.rl[i + 1].vcn, a.bits) == Shl(a.rl[i].vcn, a.bits) + Shl(a.rl[i].length, a.bits)
    ensures i == |a.rl| - 1 ==> |Image(a, 0)| == Shl(a.rl[i].vcn, a.bits)
  {
    hide RunMapped;
    if i < |a.rl| - 1 {
      var j := i + 1;
      assert a.rl[i].vcn + a.rl[i].length == a.rl[j].vcn;
      ShlSum(a.rl[i].vcn, a.rl[i].length, a.bits);
    } else {
      ImageAt(a, i);
      ShlSum(0, 0, a.bits);
    }
  }

  lemma {:induction false} Prolonged<T>(s: seq<T>, p: nat, total: nat, n: nat, b: seq<T>)
    requires p + total + n <= |s| && total + n <= |b| && b[..total] == s[p..p + total]
             && b[total..total + n] == s[p + total..p + total + n]
    ensures b[..total + n] == s[p..p + (total + n)]
  {
    forall k | 0 <= k < total + n
      ensures b[k] == s[p + k]
    {
      if k < total {
        assert b[..total][k] == s[p..p + total][k];
      } else {
        assert b[total..total + n][k - total] == s[p + total..p + total + n][k - total];
      }
    }
  }

  /** Fetch `n` bytes of run `i` from offset `ofs` on; `total` bytes are there already. */
  method FetchRun(a: Attribute, i: nat, ofs: nat, n: nat, b: array<byte>, ghost pos: nat, total: nat)
    requires Mapped(a) && i < |a.rl| && ofs + n <= Shl(a.rl[i].length, a.bits) && total + n <= b.Length
    requires pos + total == Shl(a.rl[i].vcn, a.bits) + ofs <= |Image(a, 0)|
             && b[..total] == Image(a, 0)[pos..pos + total]
    modifies b
    ensures pos + (total + n) <= |Image(a, 0)| && b[..total + n] == Image(a, 0)[pos..pos + (total + n)]
    ensures forall k :: total + n <= k < b.Length ==> b[k] == old(b[k])
  {
    hide RunMapped, WellFormed, Image, RunSlice;
    SliceOfImage(a, i, ofs, n);
    Put(b, total, RunSlice(a, a.rl[i], ofs, n));
    Prolonged(Image(a, 0), pos, total, n, b[..]);
  }

  /** The loop over the runs: fetch `count` bytes from `pos` on, starting with run `first`. */
  method Gather(a: Attribute, pos: nat, count: nat, first: nat, b: array<byte>) returns (total: nat)
    requires Mapped(a) && count <= b.Length && first < |a.rl| - 1
    requires a.rl[first].vcn <= Shr(pos, a.bits) < a.rl[first].vcn + a.rl[first].length
    modifies b
    ensures total == Found(pos, count, |Image(a, 0)|) && pos < |Image(a, 0)|
    ensures total <= count && b[..total] == Image(a, 0)[pos..pos + total]
    ensures forall k :: total <= k < b.Length ==> b[k] == old(b[k])
  {
    hide RunMapped, WellFormed, Image, RunSlice;
    EndOfRuns(a, first, pos);
    ShlShr(a.rl[first].vcn, pos, a.bits);
    ShlShr(a.rl[first].vcn + a.rl[first].length, pos, a.bits);
    ShlSum(a.rl[first].vcn, a.rl[first].length, a.bits);
    var i := first;
    var ofs := pos - Shl(a.rl[i].vcn, a.bits);
    total := 0;
    NextRun(a, i);
    while total < count && a.rl[i].length != 0
      invariant i < |a.rl| && total <= count && pos + total <= |Image(a, 0)|
      invariant i == |a.rl| - 1 <==> a.rl[i].length == 0
      invariant i == |a.rl| - 1 && total < count ==> pos + total == |Image(a, 0)|
      invariant total < count && a.rl[i].length != 0 ==>
                  0 <= ofs <= Shl(a.rl[i].length, a.bits) && pos + total == Shl(a.rl[i].vcn, a.bits) + ofs
      invariant b[..total] == Image(a, 0)[pos..pos + total]
      invariant forall k :: total <= k < b.Length ==> b[k] == old(b[k])
      decreases |a.rl| - i
    {
      var left := Shl(a.rl[i].length, a.bits) - ofs;
      var n := if count - total < left then count - total else left;
      NextRun(a, i);
      FetchRun(a, i, ofs, n, b, pos, total);
      total := total + n;
      i := i + 1;
      ofs := 0;
      NextRun(a, i);
    }
  }
}

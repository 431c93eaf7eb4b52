/** When the blocks of an index form a B+tree: every block has the subnodes its height asks for, no
    non-root leaf is empty, every block fits its size, and no block is reached twice. */
module IndexShape {
  import opened Sequences
  import opened IndexTree

  /** Offset of the first entry and allocated size of an index block, and the longest entry. */
  datatype Limits = Limits(head: nat, room: nat, longest: nat)

  const VCN_SIZE: nat := 8
  const END_SIZE: nat := 16

  /** A block takes at least four entries of the greatest length, so a full one holds three. */
  predicate Roomy(l: Limits) {
    l.head + END_SIZE + VCN_SIZE + 4 * (l.longest + 2 * VCN_SIZE) <= l.room
  }

  function Bytes(keys: seq<Entry>): (r: nat)
    decreases |keys|
  {
    if keys == [] then 0 else keys[0].size + Bytes(keys[1..])
  }

  /** `index_length` of a node whose first entry is at `head`. */
  function Length(x: Node, head: nat): (r: nat) {
    head + Bytes(x.keys) + VCN_SIZE * |x.kids| + END_SIZE
  }

  ghost predicate Short(keys: seq<Entry>, longest: nat) {
    forall i :: 0 <= i < |keys| ==> keys[i].size <= longest
  }

  lemma {:induction false} BytesConcat(a: seq<Entry>, b: seq<Entry>)
    ensures Bytes(a + b) == Bytes(a) + Bytes(b)
    decreases |a|
  {
    if a == [] {
      assert a + b == b;
    } else {
      assert (a + b)[0] == a[0] && (a + b)[1..] == a[1..] + b;
      BytesConcat(a[1..], b);
    }
  }

  lemma {:induction false} BytesBound(keys: seq<Entry>, longest: nat)
    requires Short(keys, longest)
    ensures |keys| <= 2 ==> Bytes(keys) <= 2 * longest
  {
    if |keys| == 1 {
      assert Bytes(keys[1..]) == 0;
    } else if |keys| == 2 {
      assert Bytes(keys[1..]) == keys[1].size + Bytes(keys[1..][1..]);
    }
  }

  /** A node of height `h` has a subnode for every entry and for its end, a leaf has none. */
  predicate Shape(x: Node, h: nat) {
    if h == 0 then x.kids == [] else |x.kids| == |x.keys| + 1
  }

  ghost predicate Fits(l: Limits, x: Node, h: nat) {
    Shape(x, h) && (h == 0 ==> x.keys != []) && Length(x, l.head) <= l.room && Short(x.keys, l.longest)
  }

  ghost predicate AllFit(l: Limits, t: seq<Token>) {
    forall i :: 0 <= i < |t| && t[i].Block? ==> Fits(l, t[i].node, t[i].height)
  }

  lemma {:induction false} AllFitConcat(l: Limits, a: seq<Token>, b: seq<Token>)
    ensures AllFit(l, a + b) <==> AllFit(l, a) && AllFit(l, b)
  {
    hide Fits;
    var c := a + b;
    assert forall i :: 0 <= i < |a| ==> c[i] == a[i];
    if AllFit(l, c) {
      assert forall i :: 0 <= i < |b| ==> c[|a| + i] == b[i];
    }
    assert forall i :: |a| <= i < |c| ==> c[i] == b[i - |a|];
  }

  lemma {:induction false} AllFitOne(l: Limits, v: nat, x: Node, h: nat, e: Entry)
    ensures AllFit(l, [Block(v, x, h)]) <==> Fits(l, x, h)
    ensures AllFit(l, [Item(e)]) && AllFit(l, [])
  {
    hide Fits;
    assert [Block(v, x, h)][0].Block?;
  }

  lemma {:induction false} DistinctInsert(a: seq<nat>, b: seq<nat>, w: nat)
    requires Distinct(a + b) && w !in a + b
    ensures Distinct(a + [w] + b)
    ensures forall x :: x in a + [w] + b <==> x in a + b || x == w
  {
    var s, t := a + b, a + [w] + b;
    assert forall i :: 0 <= i < |t| ==> t[i] == if i < |a| then s[i] else if i == |a| then w else s[i - 1];
    forall i, j | 0 <= i < j < |t|
      ensures t[i] != t[j]
    {
      var p, q := if i < |a| then i else i - 1, if j < |a| then j else j - 1;
      assert i != |a| ==> t[i] == s[p];
      assert j != |a| ==> t[j] == s[q];
    }
  }

  lemma {:induction false} DistinctRemove(a: seq<nat>, c: seq<nat>, b: seq<nat>)
    requires Distinct(a + c + b)
    ensures Distinct(a + b)
    ensures forall x :: x in a + b <==> x in a + c + b && x !in c
  {
    var s, t := a + c + b, a + b;
    assert forall i :: 0 <= i < |t| ==> t[i] == if i < |a| then s[i] else s[i + |c|];
    forall i, j | 0 <= i < j < |t|
      ensures t[i] != t[j]
    {
      var p, q := if i < |a| then i else i + |c|, if j < |a| then j else j + |c|;
      assert t[i] == s[p] && t[j] == s[q];
    }
    assert forall i :: 0 <= i < |c| ==> s[|a| + i] == c[i];
    forall x | x in t
      ensures x in s && x !in c
    {
      var i :| 0 <= i < |t| && t[i] == x;
      var k := if i < |a| then i else i + |c|;
      assert s[k] == x;
      forall j | 0 <= j < |c|
        ensures c[j] != x
      {
        assert s[|a| + j] == c[j];
      }
    }
  }

  /** How many more blocks these entries could be split into. */
  function Weight(t: seq<Token>): (r: nat)
    decreases |t|
  {
    if t == [] then 0
    else (if t[0].Block? && |t[0].node.keys| > 0 then |t[0].node.keys| - 1 else 0) + Weight(t[1..])
  }

  lemma {:induction false} WeightConcat(a: seq<Token>, b: seq<Token>)
    ensures Weight(a + b) == Weight(a) + Weight(b)
    decreases |a|
  {
    if a == [] {
      assert a + b == b;
    } else {
      assert (a + b)[0] == a[0] && (a + b)[1..] == a[1..] + b;
      WeightConcat(a[1..], b);
    }
  }

  ghost predicate Sorted(s: seq<Entry>) {
    forall i, j :: 0 <= i < j < |s| ==> s[i].key < s[j].key
  }

  /** What has to be kept track of for a part of the walk. */
  ghost predicate Sound(l: Limits, t: seq<Token>, used: set<nat>, extra: set<nat>) {
    && AllFit(l, t) && Distinct(Vcns(t))
    && (forall v :: v in used <==> v in Vcns(t) || v in extra)
    && (forall v :: v in extra ==> v !in Vcns(t))
  }
}

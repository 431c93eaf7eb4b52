/** Attribute records inside an MFT record (`attrib.c`): finding the place of an attribute, making room,
    adding and resizing, byte by byte. */
module AttributeRecord {
  import Lznt1Format
  import AttributeRead
  import opened Sequences

  type byte = Lznt1Format.byte

  const AT_INDEX_ROOT: nat := 0x90
  const AT_FILE_NAME: nat := 0x30
  const AT_END: nat := 0xFFFF_FFFF
  const AT_UNUSED: nat := 0
  const RESIDENT_END: nat := 24
  const TWO16: nat := 0x1_0000
  const TWO32: nat := 0x1_0000_0000

  function Align8(n: nat): (r: nat)
    ensures r % 8 == 0 && n <= r < n + 8
  {
    (n + 7) / 8 * 8
  }

  function Le16(b: seq<byte>, at: nat): (r: nat)
    requires at + 2 <= |b|
    ensures r < TWO16
  {
    b[at] as int + 256 * (b[at + 1] as int)
  }

  function Le32(b: seq<byte>, at: nat): (r: nat)
    requires at + 4 <= |b|
    ensures r < TWO32
  {
    Le16(b, at) + 0x1_0000 * Le16(b, at + 2)
  }

  function Bytes16(n: nat): (r: seq<byte>)
    requires n < TWO16
    ensures |r| == 2 && Le16(r, 0) == n
  {
    [n % 256, n / 256]
  }

  function Bytes32(n: nat): (r: seq<byte>)
    requires n < TWO32
    ensures |r| == 4 && Le32(r, 0) == n
  {
    var r := Bytes16(n % 0x1_0000) + Bytes16(n / 0x1_0000);
    assert Le16(r, 0) == Le16(Bytes16(n % 0x1_0000), 0) && Le16(r, 2) == Le16(Bytes16(n / 0x1_0000), 0);
    r
  }

  // ---- what an attribute record says --------------------------------------------------------------

  /** A record as long as it says, in steps of eight bytes. */
  ghost predicate IsAttr(a: seq<byte>) {
    8 <= |a| && |a| % 8 == 0 && Le32(a, 4) == |a| && Le32(a, 0) != AT_END
  }

  ghost predicate IsEnd(e: seq<byte>) {
    |e| == 8 && Le32(e, 0) == AT_END
  }

  function TypeOf(a: seq<byte>): (r: nat)
    requires |a| >= 4
  {
    Le32(a, 0)
  }

  function NameOf(a: seq<byte>): (r: seq<byte>)
    requires |a| >= RESIDENT_END
  {
    var at, n := Le16(a, 10), 2 * (a[9] as int);
    if at + n <= |a| then a[at..at + n] else []
  }

  /** The value of a resident attribute. */
  function ValueOf(a: seq<byte>): (r: seq<byte>)
    requires |a| >= RESIDENT_END
  {
    var at, n := Le16(a, 20), Le32(a, 16);
    if a[8] == 0 && at + n <= |a| then a[at..at + n] else []
  }

  /** A resident attribute with these flags and this instance number, its name at the front and its value at
      the end; only a file name is indexed. */
  ghost predicate Labelled(a: seq<byte>, flags: nat, instance: nat) {
    && |a| >= RESIDENT_END && a[8] == 0 && Le16(a, 12) == flags && Le16(a, 14) == instance
    && Le16(a, 10) == (if a[9] == 0 then 0 else RESIDENT_END) && Le16(a, 20) == |a| - Align8(Le32(a, 16))
    && a[22] == if TypeOf(a) == AT_FILE_NAME then 1 else 0
  }

  function Concat(s: seq<seq<byte>>): (r: seq<byte>)
    decreases |s|
  {
    if s == [] then [] else s[0] + Concat(s[1..])
  }

  /** The used part of a record is a row of attributes and the end marker. */
  ghost predicate Tiles(b: seq<byte>, attrs: seq<seq<byte>>, end: seq<byte>) {
    (forall i :: 0 <= i < |attrs| ==> IsAttr(attrs[i])) && IsEnd(end) && b == Concat(attrs) + end
  }

  lemma {:induction false} ConcatSplit(s: seq<seq<byte>>, i: nat)
    requires i <= |s|
    ensures Concat(s) == Concat(s[..i]) + Concat(s[i..])
    decreases i
  {
    if i > 0 {
      ConcatSplit(s[1..], i - 1);
      assert s[..i][0] == s[0] && s[..i][1..] == s[1..][..i - 1] && s[1..][i - 1..] == s[i..];
    }
  }

  lemma {:induction false} ConcatCons(a: seq<byte>, s: seq<seq<byte>>)
    ensures Concat([a] + s) == a + Concat(s)
  {
    assert ([a] + s)[1..] == s;
  }

  lemma {:induction false} ConcatJoin(s: seq<seq<byte>>, t: seq<seq<byte>>)
    ensures Concat(s + t) == Concat(s) + Concat(t)
  {
    ConcatSplit(s + t, |s|);
    assert (s + t)[..|s|] == s && (s + t)[|s|..] == t;
  }

  /** Only one row of attributes fits some bytes. */
  lemma {:induction false} TilesUnique(b: seq<byte>, x: seq<seq<byte>>, e: seq<byte>, y: seq<seq<byte>>, f: seq<byte>)
    requires Tiles(b, x, e) && Tiles(b, y, f)
    ensures x == y && e == f
    decreases |x|
  {
    FirstField(b, x, e);
    FirstField(b, y, f);
    if x == [] {
      assert y == [];
      assert Concat(x) + e == e && Concat(y) + f == f;
    } else {
      assert y != [];
      assert x[0] == b[..|x[0]|] && y[0] == b[..|y[0]|];
      TilesTail(b, x, e);
      TilesTail(b, y, f);
      TilesUnique(b[|x[0]|..], x[1..], e, y[1..], f);
      assert x == [x[0]] + x[1..] && y == [y[0]] + y[1..];
    }
  }

  lemma {:induction false} TilesTail(b: seq<byte>, x: seq<seq<byte>>, e: seq<byte>)
    requires Tiles(b, x, e) && x != []
    ensures |x[0]| <= |b| && b[..|x[0]|] == x[0] && Tiles(b[|x[0]|..], x[1..], e)
  {
    assert b == x[0] + (Concat(x[1..]) + e);
  }

  /** Type and length at the start of a row. */
  lemma {:induction false} FirstField(b: seq<byte>, x: seq<seq<byte>>, e: seq<byte>)
    requires Tiles(b, x, e)
    ensures |b| >= 8 && (x == [] <==> Le32(b, 0) == AT_END)
    ensures x != [] ==> Le32(b, 0) == TypeOf(x[0]) && Le32(b, 4) == |x[0]|
  {
    if x != [] {
      TilesTail(b, x, e);
      assert forall k :: 0 <= k < 8 ==> b[k] == b[..|x[0]|][k] == x[0][k];
    } else {
      assert b == e;
    }
  }

  // ---- the order of attributes --------------------------------------------------------------------

  /** What is searched: a type, and a name and a value unless any will do. */
  datatype Key = Key(kind: nat, name: Option<seq<byte>>, value: Option<seq<byte>>)

  /** `memcmp` over the shorter length, then the shorter one first. */
  predicate LexLess(v: seq<byte>, w: seq<byte>)
    decreases |v|
  {
    w != [] && (v == [] || v[0] < w[0] || (v[0] == w[0] && LexLess(v[1..], w[1..])))
  }

  lemma {:induction false} LexTotal(v: seq<byte>, w: seq<byte>)
    ensures LexLess(v, w) || v == w || LexLess(w, v)
    ensures !(LexLess(v, w) && LexLess(w, v)) && !LexLess(v, v)
    decreases |v|
  {
    if v != [] {
      LexTotal(v[1..], v[1..]);
      if w != [] {
        LexTotal(v[1..], w[1..]);
        assert v == [v[0]] + v[1..] && w == [w[0]] + w[1..];
      }
    }
  }

  lemma {:induction false} LexTransitive(u: seq<byte>, v: seq<byte>, w: seq<byte>)
    requires LexLess(u, v) && LexLess(v, w)
    ensures LexLess(u, w)
    decreases |v|
  {
    if u != [] && u[0] == v[0] && v[0] == w[0] {
      LexTransitive(u[1..], v[1..], w[1..]);
    }
  }

  /** Negative when the key sorts before the attribute, positive when after it; names by `rank`. */
  function Compare(rank: seq<byte> -> int, k: Key, a: seq<byte>): (c: int)
    requires |a| >= RESIDENT_END
  {
    if k.kind != TypeOf(a) then k.kind - TypeOf(a)
    else if k.name.Some? && rank(k.name.value) != rank(NameOf(a)) then rank(k.name.value) - rank(NameOf(a))
    else if k.value.None? || k.value.value == ValueOf(a) then 0
    else if LexLess(k.value.value, ValueOf(a)) then -1 else 1
  }

  function KeyOf(a: seq<byte>): (k: Key)
    requires |a| >= RESIDENT_END
  {
    Key(TypeOf(a), Some(NameOf(a)), Some(ValueOf(a)))
  }

  ghost predicate Sorted(rank: seq<byte> -> int, attrs: seq<seq<byte>>) {
    && (forall i :: 0 <= i < |attrs| ==> |attrs[i]| >= RESIDENT_END)
    && forall i, j :: 0 <= i < j < |attrs| ==> Compare(rank, KeyOf(attrs[i]), attrs[j]) < 0
  }

  /** The key of a new attribute: that of the search, with its value. */
  ghost predicate Matches(k: Key, n: seq<byte>) {
    && |n| >= RESIDENT_END && TypeOf(n) == k.kind && NameOf(n) == NewName(k)
    && (k.value.Some? ==> ValueOf(n) == k.value.value)
  }

  /** A new attribute without a name given is unnamed. */
  function NewName(k: Key): (r: seq<byte>) {
    if k.name.Some? then k.name.value else []
  }

  /** The search compares names before values, as the order does. */
  predicate InOrder(k: Key) {
    k.name.Some? || k.value.None?
  }

  /** The comparison made by a search; for type 0 the first attribute will do. */
  function Search(rank: seq<byte> -> int, k: Key, a: seq<byte>): (c: int)
    requires |a| >= RESIDENT_END
  {
    if k.kind == AT_UNUSED then 0 else Compare(rank, k, a)
  }

  lemma {:induction false} CompareBack(rank: seq<byte> -> int, k: Key, n: seq<byte>, a: seq<byte>)
    requires Matches(k, n) && |a| >= RESIDENT_END && InOrder(k)
    ensures Compare(rank, k, a) > 0 ==> Compare(rank, KeyOf(a), n) < 0
    ensures Compare(rank, k, a) < 0 ==> Compare(rank, KeyOf(n), a) < 0
  {
    LexTotal(ValueOf(n), ValueOf(a));
  }

  lemma {:induction false} CompareTransitive(rank: seq<byte> -> int, a: seq<byte>, b: seq<byte>, c: seq<byte>)
    requires |a| >= RESIDENT_END && |b| >= RESIDENT_END && |c| >= RESIDENT_END
    requires Compare(rank, KeyOf(a), b) < 0 && Compare(rank, KeyOf(b), c) < 0
    ensures Compare(rank, KeyOf(a), c) < 0
  {
    if LexLess(ValueOf(a), ValueOf(b)) && LexLess(ValueOf(b), ValueOf(c)) {
      LexTransitive(ValueOf(a), ValueOf(b), ValueOf(c));
      LexTotal(ValueOf(a), ValueOf(c));
    }
  }

  lemma {:induction false} CompareThrough(rank: seq<byte> -> int, k: Key, a: seq<byte>, b: seq<byte>)
    requires |a| >= RESIDENT_END && |b| >= RESIDENT_END && Compare(rank, k, a) < 0 && Compare(rank, KeyOf(a), b) < 0
    requires InOrder(k)
    ensures Compare(rank, k, b) < 0
  {
    if k.value.Some? && LexLess(k.value.value, ValueOf(a)) && LexLess(ValueOf(a), ValueOf(b)) {
      LexTransitive(k.value.value, ValueOf(a), ValueOf(b));
      LexTotal(k.value.value, ValueOf(b));
    }
  }

  /** Where the search ends without a match in a sorted record, there is none behind. */
  lemma {:induction false} NoneBehind(rank: seq<byte> -> int, attrs: seq<seq<byte>>, k: Key, i: nat)
    requires InOrder(k) && (i < |attrs| ==> |attrs[i]| >= RESIDENT_END)
    ensures Sorted(rank, attrs) && i < |attrs| && Compare(rank, k, attrs[i]) < 0 ==> forall j :: i <= j < |attrs| ==>
              Compare(rank, k, attrs[j]) < 0
  {
    hide Compare, KeyOf;
    if Sorted(rank, attrs) && i < |attrs| && Compare(rank, k, attrs[i]) < 0 {
      forall j | i < j < |attrs|
        ensures Compare(rank, k, attrs[j]) < 0
      {
        CompareThrough(rank, k, attrs[i], attrs[j]);
      }
    }
  }

  /** A new attribute at the place the search ended keeps the order. */
  lemma {:induction false} SortedInsert(rank: seq<byte> -> int, attrs: seq<seq<byte>>, i: nat, k: Key, n: seq<byte>)
    requires Sorted(rank, attrs) && i <= |attrs| && Matches(k, n) && InOrder(k)
    requires forall j :: 0 <= j < i ==> Compare(rank, k, attrs[j]) > 0
    requires i < |attrs| ==> Compare(rank, k, attrs[i]) < 0
    ensures Sorted(rank, attrs[..i] + [n] + attrs[i..])
  {
    hide Compare, KeyOf;
    var s := attrs[..i] + [n] + attrs[i..];
    forall j | 0 <= j < i
      ensures Compare(rank, KeyOf(attrs[j]), n) < 0
    {
      CompareBack(rank, k, n, attrs[j]);
    }
    forall j | i <= j < |attrs|
      ensures Compare(rank, KeyOf(n), attrs[j]) < 0
    {
      CompareBack(rank, k, n, attrs[i]);
      if i < j {
        CompareTransitive(rank, n, attrs[i], attrs[j]);
      }
    }
    forall p, q | 0 <= p < q < |s|
      ensures Compare(rank, KeyOf(s[p]), s[q]) < 0
    {
      var a, b := if p < i then p else p - 1, if q < i then q else q - 1;
      assert p != i ==> s[p] == attrs[a];
      assert q != i ==> s[q] == attrs[b];
    }
  }

  /** All attributes of the type of `k` before place `i` are unnamed. */
  ghost predicate UnnamedBefore(rank: seq<byte> -> int, attrs: seq<seq<byte>>, i: nat, k: Key) {
    forall j :: 0 <= j < i < |attrs| + 1 && |attrs[j]| >= RESIDENT_END && TypeOf(attrs[j]) == k.kind ==>
      rank(NameOf(attrs[j])) == rank([])
  }

  /** A search for the type and value of `k` under any name passes a named attribute: neither it nor an
      attribute of its type before it has a greater value. */
  ghost predicate PassesNamed(rank: seq<byte> -> int, attrs: seq<seq<byte>>, k: Key) {
    k.value.Some? && exists j :: 0 <= j < |attrs| && |attrs[j]| >= RESIDENT_END && TypeOf(attrs[j]) == k.kind
                                 && rank(NameOf(attrs[j])) != rank([]) && NoGreater(attrs, j, k)
  }

  /** No attribute of the type of `k` up to number `j` has a greater value. */
  ghost predicate NoGreater(attrs: seq<seq<byte>>, j: nat, k: Key)
    requires j < |attrs| && k.value.Some?
  {
    forall q :: 0 <= q <= j && |attrs[q]| >= RESIDENT_END && TypeOf(attrs[q]) == k.kind ==>
      !LexLess(k.value.value, ValueOf(attrs[q]))
  }

  /** What lies before the place a search ends at, told from the record alone. */
  lemma {:induction false} PlaceByValues(rank: seq<byte> -> int, attrs: seq<seq<byte>>, i: nat, k: Key)
    requires Sorted(rank, attrs) && i <= |attrs| && !InOrder(k)
    requires forall j :: 0 <= j < i ==> Compare(rank, k, attrs[j]) > 0
    requires i < |attrs| ==> Compare(rank, k, attrs[i]) < 0
    ensures UnnamedBefore(rank, attrs, i, k) <==> !PassesNamed(rank, attrs, k)
  {
    hide TypeOf, NameOf, ValueOf, LexLess, Compare, NoGreater;
    forall j | 0 <= j < |attrs| && TypeOf(attrs[j]) == k.kind
      ensures j < i <==> NoGreater(attrs, j, k)
    {
      PassedByValue(rank, attrs, i, k, j);
    }
  }

  lemma {:induction false} PassedByValue(rank: seq<byte> -> int, attrs: seq<seq<byte>>, i: nat, k: Key, j: nat)
    requires Sorted(rank, attrs) && i <= |attrs| && !InOrder(k) && j < |attrs| && TypeOf(attrs[j]) == k.kind
    requires forall j :: 0 <= j < i ==> Compare(rank, k, attrs[j]) > 0
    requires i < |attrs| ==> Compare(rank, k, attrs[i]) < 0
    ensures j < i <==> NoGreater(attrs, j, k)
  {
    hide TypeOf, NameOf, ValueOf, LexLess, KeyOf;
    if i < j {
      TypesAscend(rank, attrs[i], attrs[j]);
      assert Compare(rank, KeyOf(attrs[i]), attrs[j]) < 0;
    }
  }

  lemma {:induction false} TypesAscend(rank: seq<byte> -> int, a: seq<byte>, b: seq<byte>)
    requires |a| >= RESIDENT_END && |b| >= RESIDENT_END
    ensures Compare(rank, KeyOf(a), b) < 0 ==> TypeOf(a) <= TypeOf(b)
  {
  }

  /** A search for any name but a given value compares values across names; the new attribute, which is
      unnamed, keeps the order if and only if that search does not pass a named one of its type. */
  lemma {:induction false} SortedInsertAnyName(rank: seq<byte> -> int, attrs: seq<seq<byte>>, i: nat, k: Key,
                                               n: seq<byte>)
    requires Sorted(rank, attrs) && i <= |attrs| && Matches(k, n) && !InOrder(k) && forall m :: m != [] ==>
               rank([]) < rank(m)
    requires forall j :: 0 <= j < i ==> Compare(rank, k, attrs[j]) > 0
    requires i < |attrs| ==> Compare(rank, k, attrs[i]) < 0
    ensures Sorted(rank, attrs[..i] + [n] + attrs[i..]) <==> !PassesNamed(rank, attrs, k)
  {
    hide PassesNamed, TypeOf, NameOf, ValueOf, LexLess;
    var s := attrs[..i] + [n] + attrs[i..];
    var named := Key(k.kind, Some([]), k.value);
    PlaceByValues(rank, attrs, i, k);
    if UnnamedBefore(rank, attrs, i, k) {
      assert forall j :: 0 <= j < i ==> Compare(rank, named, attrs[j]) > 0;
      SortedInsert(rank, attrs, i, named, n);
    } else {
      var j :| 0 <= j < i && |attrs[j]| >= RESIDENT_END && TypeOf(attrs[j]) == k.kind
          && rank(NameOf(attrs[j])) != rank([]);
      assert s[j] == attrs[j] && s[i] == n;
      assert Compare(rank, KeyOf(attrs[j]), n) > 0;
    }
  }

  /** `memcmp` and the comparison of the lengths. */
  method CompareBytes(v: seq<byte>, w: seq<byte>) returns (c: int)
    ensures c < 0 <==> LexLess(v, w)
    ensures c == 0 <==> v == w
  {
    var i := 0;
    while i < |v| && i < |w| && v[i] == w[i]
      invariant i <= |v| && i <= |w| && v[..i] == w[..i]
      invariant LexLess(v[i..], w[i..]) == LexLess(v, w)
    {
      assert v[i..][1..] == v[i + 1..] && w[i..][1..] == w[i + 1..];
      i := i + 1;
    }
    if i < |v| && i < |w| {
      return v[i] as int - w[i] as int;
    }
    LexTotal(v[i..], w[i..]);
    c := |v| - |w|;
  }

  // ---- building an attribute ----------------------------------------------------------------------

  /** The fields of a resident attribute up to its flags. */
  function Header(kind: nat, length: nat, names: byte, flags: nat, instance: nat, size: nat, valueAt: nat)
    : (h: seq<byte>)
    requires kind < TWO32 && length < TWO32 && flags < TWO16 && instance < TWO16 && size < TWO32 && valueAt < TWO16
    ensures |h| == 23
  {
    Bytes32(kind) + Bytes32(length) + [0, names] + Bytes16(if names == 0 then 0 else RESIDENT_END) + Bytes16(flags)
        + Bytes16(instance)
    + Bytes32(size) + Bytes16(valueAt) + [if kind == AT_FILE_NAME then 1 else 0]
  }

  lemma {:induction false} Le16At(b: seq<byte>, at: nat, s: seq<byte>)
    requires at + 2 <= |b| && |s| == 2 && b[at..at + 2] == s
    ensures Le16(b, at) == Le16(s, 0)
  {
    assert b[at] == b[at..at + 2][0] && b[at + 1] == b[at..at + 2][1];
  }

  lemma {:induction false} Le32At(b: seq<byte>, at: nat, s: seq<byte>)
    requires at + 4 <= |b| && |s| == 4 && b[at..at + 4] == s
    ensures Le32(b, at) == Le32(s, 0)
  {
    var c := b[at..at + 4];
    assert b[at] == c[0] && b[at + 1] == c[1] && b[at + 2] == c[2] && b[at + 3] == c[3];
  }

  lemma {:induction false} HeaderFields(n: seq<byte>, kind: nat, length: nat, names: byte, flags: nat, instance: nat,
                                        size: nat, valueAt: nat)
    requires kind < TWO32 && length < TWO32 && flags < TWO16 && instance < TWO16 && size < TWO32 && valueAt < TWO16
    requires |n| >= RESIDENT_END && n[..23] == Header(kind, length, names, flags, instance, size, valueAt)
    ensures Le32(n, 0) == kind && Le32(n, 4) == length && n[8] == 0 && n[9] == names
    ensures Le16(n, 10) == (if names == 0 then 0 else RESIDENT_END) && Le32(n, 16) == size && Le16(n, 20) == valueAt
    ensures Le16(n, 12) == flags && Le16(n, 14) == instance && n[22] == if kind == AT_FILE_NAME then 1 else 0
  {
    hide Le16, Le32, Bytes16, Bytes32, Header;
    var h := Header(kind, length, names, flags, instance, size, valueAt);
    HeaderParts(kind, length, names, flags, instance, size, valueAt);
    assert forall k :: 0 <= k < 23 ==> n[k] == n[..23][k] == h[k];
    assert n[0..4] == h[0..4] && n[4..8] == h[4..8] && n[10..12] == h[10..12];
    assert n[12..14] == h[12..14] && n[14..16] == h[14..16] && n[16..20] == h[16..20] && n[20..22] == h[20..22];
    Le32At(n, 0, Bytes32(kind));
    Le32At(n, 4, Bytes32(length));
    Le16At(n, 10, h[10..12]);
    Le16At(n, 12, Bytes16(flags));
    Le16At(n, 14, Bytes16(instance));
    Le32At(n, 16, Bytes32(size));
    Le16At(n, 20, Bytes16(valueAt));
  }

  /** Where the fields stand. */
  lemma {:induction false} HeaderParts(kind: nat, length: nat, names: byte, flags: nat, instance: nat, size: nat,
                                       valueAt: nat)
    requires kind < TWO32 && length < TWO32 && flags < TWO16 && instance < TWO16 && size < TWO32 && valueAt < TWO16
    ensures var h := Header(kind, length, names, flags, instance, size, valueAt);
            && h[0..4] == Bytes32(kind) && h[4..8] == Bytes32(length) && h[8] == 0 && h[9] == names
            && h[10..12] == Bytes16(if names == 0 then 0 else RESIDENT_END) && h[12..14] == Bytes16(flags)
            && h[14..16] == Bytes16(instance) && h[16..20] == Bytes32(size) && h[20..22] == Bytes16(valueAt)
            && h[22] == if kind == AT_FILE_NAME then 1 else 0
  {
    hide Le16, Le32, Bytes16, Bytes32;
  }

  /** Length of a resident attribute with a name of `names` characters and a value of `size` bytes. */
  function AttrLength(names: nat, size: nat): (r: nat)
    ensures r % 8 == 0 && r >= RESIDENT_END
  {
    RESIDENT_END + Align8(2 * names) + Align8(size)
  }

  lemma {:induction false} NewAttr(n: seq<byte>, kind: nat, name: seq<byte>, value: seq<byte>, flags: nat,
                                   instance: nat, names: byte)
    requires kind < AT_END && |name| == 2 * names && |value| < 0x8000_0000 && flags < TWO16 && instance < TWO16
    requires var length, at := AttrLength(names, |value|), RESIDENT_END + Align8(2 * names);
             && length < TWO32 && |n| == length && n[..23] == Header(kind, length, names, flags, instance, |value|, at)
             && n[RESIDENT_END..RESIDENT_END + |name|] == name && n[at..at + |value|] == value
    ensures IsAttr(n) && TypeOf(n) == kind && NameOf(n) == name && ValueOf(n) == value
    ensures Labelled(n, flags, instance)
  {
    hide Le16, Le32, Header;
    HeaderFields(n, kind, |n|, names, flags, instance, |value|, RESIDENT_END + Align8(2 * names));
  }

  /** A resident attribute with zero flags, instance and padding. */
  function Resident(kind: nat, name: seq<byte>, value: seq<byte>, names: byte): (n: seq<byte>)
    requires kind < AT_END && |name| == 2 * names && |value| < 0x1_0000
    ensures IsAttr(n) && |n| >= RESIDENT_END && TypeOf(n) == kind && NameOf(n) == name && ValueOf(n) == value
  {
    hide IsAttr, TypeOf, NameOf, ValueOf;
    var at, length := RESIDENT_END + Align8(|name|), AttrLength(names, |value|);
    var header := Header(kind, length, names, 0, 0, |value|, at);
    var pad, rest := Lznt1Format.Zeros(Align8(|name|) - |name|), Lznt1Format.Zeros(Align8(|value|) - |value|);
    var n := header + [0] + name + pad + value + rest;
    Pieces(header, [0], name, pad, value, rest);
    NewAttr(n, kind, name, value, 0, 0, names);
    n
  }

  /** A named attribute with the value 1 is passed by the search for the value 2 under any name, and the
      unnamed attribute added behind it is out of order. */
  lemma {:induction false} AnyNameBreaksOrder(rank: seq<byte> -> int)
    requires forall m :: m != [] ==> rank([]) < rank(m)
    ensures var k, a, n := Key(0x100, None, Some([2])), Resident(0x100, [65, 0], [1], 1), Resident(0x100, [], [2], 0);
            && Sorted(rank, [a]) && Compare(rank, k, a) > 0 && Matches(k, n) && PassesNamed(rank, [a], k)
            && !Sorted(rank, [a] + [n])
  {
    hide TypeOf, NameOf, ValueOf, Resident;
    var k, a, n := Key(0x100, None, Some([2])), Resident(0x100, [65, 0], [1], 1), Resident(0x100, [], [2], 0);
    var s := [a] + [n];
    assert !LexLess([2], [1]);
    assert NoGreater([a], 0, k);
    assert Compare(rank, KeyOf(s[0]), s[1]) > 0;
  }

  // ---- the record ---------------------------------------------------------------------------------

  /** `memmove`. */
  method Move(a: array<byte>, from: nat, to: nat, n: nat)
    requires from + n <= a.Length && to + n <= a.Length
    modifies a
    ensures a[to..to + n] == old(a[from..from + n]) && a[..to] == old(a[..to])
    ensures forall k :: to + n <= k < a.Length ==> a[k] == old(a[k])
  {
    var bytes := a[from..from + n];
    AttributeRead.Put(a, to, bytes);
  }

  datatype Status = Ok | Exists | NoSpace | Invalid | Filled

  class Record {
    const data: array<byte>
    /** Offset of the first attribute. */
    const first: nat
    /** The collation order of names; an unnamed attribute comes first. */
    const rank: seq<byte> -> int
    var inUse: nat
    var nextInstance: nat
    ghost var attrs: seq<seq<byte>>
    ghost var end: seq<byte>

    /** The end of `ntfs_mft_record_layout`: an empty record, laid out in a buffer. */
    constructor (record: array<byte>, attrsOffset: nat, collation: seq<byte> -> int)
      requires attrsOffset % 8 == 0 && attrsOffset + 8 <= record.Length < 0x8000_0000
      requires forall n :: n != [] ==> collation([]) < collation(n)
      modifies record
      ensures Valid() && Wide() && attrs == [] && inUse == attrsOffset + 8 && nextInstance == 0
      ensures end == Bytes32(AT_END) + Bytes32(0)
      ensures data == record && first == attrsOffset && rank == collation
      ensures data[..first] == old(record[..attrsOffset]) && forall k :: inUse <= k < data.Length ==> data[k] == 0
    {
      data, first, rank, inUse, nextInstance := record, attrsOffset, collation, attrsOffset + 8, 0;
      var marker := Bytes32(AT_END) + Bytes32(0);
      attrs, end := [], marker;
      new;
      var size := data.Length - first - 8;
      var bytes := marker + Lznt1Format.Zeros(size);
      AttributeRead.Put(data, first, bytes);
      assert data[first..inUse] == bytes[..8] == marker;
      Le32At(marker, 0, Bytes32(AT_END));
      forall k | inUse <= k < data.Length
        ensures data[k] == 0
      {
        assert data[k] == data[first..first + |bytes|][k - first] == bytes[k - first];
      }
    }

    ghost predicate Valid()
      reads this, data
    {
      && first % 8 == 0 && first + 8 <= inUse <= data.Length < 0x8000_0000 && nextInstance < TWO16
      && (forall n :: n != [] ==> rank([]) < rank(n))
      && Tiles(data[first..inUse], attrs, end)
    }

    /** Where attribute number `i` starts. */
    ghost function Offset(i: nat): nat
      requires i <= |attrs|
      reads this
    {
      first + |Concat(attrs[..i])|
    }

    /** The used bytes around attribute number `i`. */
    lemma {:induction false} At(i: nat)
      requires Valid() && i <= |attrs|
      ensures Offset(i) + 8 <= inUse
      ensures data[first..Offset(i)] == Concat(attrs[..i]) && data[Offset(i)..inUse] == Concat(attrs[i..]) + end
      ensures Tiles(data[Offset(i)..inUse], attrs[i..], end)
      ensures i < |attrs| ==> Offset(i + 1) == Offset(i) + |attrs[i]|
    {
      hide IsAttr;
      ConcatSplit(attrs, i);
      var p, q := Concat(attrs[..i]), Concat(attrs[i..]) + end;
      assert data[first..inUse] == p + q;
      assert data[first..Offset(i)] == data[first..inUse][..|p|];
      assert data[Offset(i)..inUse] == data[first..inUse][|p|..];
      if i < |attrs| {
        assert attrs[..i + 1] == attrs[..i] + [attrs[i]];
        ConcatJoin(attrs[..i], [attrs[i]]);
        ConcatCons(attrs[i], []);
      }
    }

    /** Every attribute has all the fields of a resident one. */
    ghost predicate Wide()
      reads this
    {
      forall i :: 0 <= i < |attrs| ==> |attrs[i]| >= RESIDENT_END
    }

    /** The search for `k` goes on behind the attributes from number `from` to before `j`. */
    ghost predicate Passed(k: Key, from: nat, j: nat)
      requires Wide() && j <= |attrs|
      reads this
    {
      forall q :: from <= q < j ==> Search(rank, k, attrs[q]) > 0
    }

    /** `ntfs_attr_find` from attribute number `from` on, at `start`: the first attribute that matches, or
        the one to insert before. */
    method Find(k: Key, start: nat, ghost from: nat) returns (found: bool, pos: nat, ghost i: nat)
      requires Valid() && Wide() && k.kind < AT_END && from <= |attrs| && start == Offset(from)
      ensures from <= i <= |attrs| && pos == Offset(i)
      ensures forall j :: from <= j < i ==> Search(rank, k, attrs[j]) > 0
      ensures found ==> i < |attrs| && Search(rank, k, attrs[i]) == 0
      ensures !found && i < |attrs| ==> Search(rank, k, attrs[i]) < 0
      ensures Sorted(rank, attrs) && InOrder(k) ==>
                (found <==> exists j :: from <= j < |attrs| && Search(rank, k, attrs[j]) == 0)
      // in any order and for any search, a match is found if and only if all before it are smaller
      ensures found <==> exists j :: from <= j < |attrs| && Search(rank, k, attrs[j]) == 0 && Passed(k, from, j)
    {
      hide Concat, Le16, Le32, NameOf, ValueOf, LexLess;
      pos, i := start, from;
      while true
        invariant from <= i <= |attrs| && pos == Offset(i)
        invariant forall j :: from <= j < i ==> Search(rank, k, attrs[j]) > 0
        decreases |attrs| - i
      {
        At(i);
        var b := data[pos..inUse];
        FirstField(b, attrs[i..], end);
        if InOrder(k) {
          NoneBehind(rank, attrs, k, i);
        }
        if (k.kind != AT_UNUSED && Le32(b, 0) > k.kind) || Le32(b, 0) == AT_END {
          return false, pos, i;
        }
        if k.kind == AT_UNUSED {
          return true, pos, i;
        }
        var length := Le32(b, 4);
        TilesTail(b, attrs[i..], end);
        var a := b[..length];
        assert a == attrs[i];
        if Le32(b, 0) == k.kind {
          var c := CompareNamed(k, a);
          if c <= 0 {
            return c == 0, pos, i;
          }
        }
        pos, i := pos + length, i + 1;
      }
    }

    /** Name and value of an attribute of the type searched. */
    method CompareNamed(k: Key, a: seq<byte>) returns (c: int)
      requires |a| >= RESIDENT_END && TypeOf(a) == k.kind
      ensures (c < 0 <==> Compare(rank, k, a) < 0) && (c == 0 <==> Compare(rank, k, a) == 0)
    {
      hide TypeOf, NameOf, ValueOf, LexLess;
      c := if k.name.Some? then rank(k.name.value) - rank(NameOf(a)) else 0;
      if c == 0 && k.value.Some? {
        c := CompareBytes(k.value.value, ValueOf(a));
      }
    }

    lemma {:induction false} EmptyOffset()
      ensures Offset(0) == first
    {
      assert attrs[..0] == [];
    }

    /** `ntfs_make_room_for_attr`. */
    method MakeRoom(pos: nat, size: nat) returns (s: Status)
      requires 8 <= inUse <= data.Length
      modifies this`inUse, data
      ensures s == (if pos > old(inUse) - 8 then Invalid
                    else if size > 0 && old(inUse) + Align8(size) > data.Length then NoSpace
                    else Ok)
      ensures s != Ok ==> inUse == old(inUse) && data[..] == old(data[..])
      ensures s == Ok ==> inUse == old(inUse) + Align8(size) <= data.Length && data[..pos] == old(data[..pos])
      ensures s == Ok ==> data[pos + Align8(size)..inUse] == old(data[pos..inUse])
    {
      var n := Align8(size);
      if pos > inUse - 8 {
        return Invalid;
      }
      if n == 0 {
        return Ok;
      }
      if inUse + n > data.Length || pos + n > data.Length {
        return NoSpace;
      }
      Move(data, pos, pos + n, inUse - pos);
      assert data[..pos] == data[..pos + n][..pos] == old(data[..pos + n])[..pos];
      inUse := inUse + n;
      s := Ok;
    }

    /** Set up the fields, the value and the name of a new attribute; padding is left as it is. */
    method Fill(pos: nat, kind: nat, name: seq<byte>, value: seq<byte>, flags: nat, names: byte)
      requires kind < AT_END && |name| == 2 * names && |value| < 0x8000_0000 && flags < TWO16 && nextInstance < TWO16
      requires pos + AttrLength(names, |value|) <= data.Length < 0x8000_0000
      modifies data
      ensures var length := AttrLength(names, |value|);
              && IsAttr(data[pos..pos + length]) && TypeOf(data[pos..pos + length]) == kind
              && NameOf(data[pos..pos + length]) == name && ValueOf(data[pos..pos + length]) == value
              && Labelled(data[pos..pos + length], flags, nextInstance)
              && data[..pos] == old(data[..pos]) && forall k :: pos + length <= k < data.Length ==>
                    data[k] == old(data[k])
    {
      hide Header, TypeOf, NameOf, ValueOf, IsAttr, Labelled;
      var length := AttrLength(names, |value|);
      var at := RESIDENT_END + Align8(2 * names);
      var was := data[pos..pos + length];
      var header := Header(kind, length, names, flags, nextInstance, |value|, at);
      Pieces(header, was[23..RESIDENT_END], name, was[RESIDENT_END + |name|..at], value, was[at + |value|..]);
      var n := header + was[23..RESIDENT_END] + name + was[RESIDENT_END + |name|..at] + value + was[at + |value|..];
      NewAttr(n, kind, name, value, flags, nextInstance, names);
      AttributeRead.Put(data, pos, n);
    }

    /** `ntfs_resident_attr_record_add`: the new attribute goes before the one the search ended at. */
    method Add(k: Key, size: nat, flags: nat, names: byte) returns (s: Status, pos: nat, ghost i: nat)
      requires Valid() && Wide() && 0 < k.kind < AT_END && |NewName(k)| == 2 * names && size < 0x8000_0000
               && flags < TWO16
      requires k.value.Some? ==> |k.value.value| == size
      modifies this, data
      ensures Valid() && Wide() && (s == Ok || s == Exists || s == NoSpace) && end == old(end)
      ensures data[..first] == old(data[..first])
      ensures s != Ok ==>
              && data[..] == old(data[..]) && inUse == old(inUse)
              && attrs == old(attrs) && nextInstance == old(nextInstance)
      ensures s == Exists ==> i < |attrs| && |attrs[i]| >= RESIDENT_END && Compare(rank, k, attrs[i]) == 0
      ensures s == NoSpace ==> inUse + AttrLength(names, size) > data.Length
      ensures s == Ok ==>
        && i <= |old(attrs)| && |attrs| == |old(attrs)| + 1 && attrs == old(attrs)[..i] + [attrs[i]] + old(attrs)[i..]
            && pos == Offset(i)
        && Matches(k, attrs[i]) && ValueOf(attrs[i])
            == (if k.value.Some? then k.value.value else Lznt1Format.Zeros(size))
        && inUse == old(inUse) + AttrLength(names, size) && Labelled(attrs[i], flags, old(nextInstance))
        && nextInstance == (old(nextInstance) + 1) % TWO16
      ensures s == Ok && Sorted(rank, old(attrs)) ==>
        (Sorted(rank, attrs) <==> InOrder(k) || !PassesNamed(rank, old(attrs), k))
    {
      hide Concat, TypeOf, NameOf, ValueOf, IsAttr, Compare, Sorted, Tiles, AttrLength, Lznt1Format.Zeros,
           PassesNamed, Labelled;
      var found;
      EmptyOffset();
      found, pos, i := Find(k, first, 0);
      if found {
        return Exists, pos, i;
      }
      At(i);
      var value := if k.value.Some? then k.value.value else Lznt1Format.Zeros(size);
      s := InsertAt(pos, k, value, flags, names, i);
      if s == Ok && Sorted(rank, old(attrs)) {
        if InOrder(k) {
          SortedInsert(rank, old(attrs), i, k, attrs[i]);
        } else {
          SortedInsertAnyName(rank, old(attrs), i, k, attrs[i]);
        }
      }
    }

    /** Make room at `pos`, before attribute number `i`, and fill it. */
    method InsertAt(pos: nat, k: Key, value: seq<byte>, flags: nat, names: byte, ghost i: nat) returns (s: Status)
      requires Valid() && Wide() && 0 < k.kind < AT_END && |NewName(k)| == 2 * names && |value| < 0x8000_0000
               && flags < TWO16
      requires i <= |attrs| && pos == Offset(i) && pos + 8 <= inUse && (k.value.Some? ==> k.value.value == value)
      modifies this, data
      ensures Valid() && Wide() && (s == Ok || s == NoSpace) && end == old(end) && data[..first] == old(data[..first])
      ensures s != Ok ==>
              && data[..] == old(data[..]) && inUse == old(inUse)
              && attrs == old(attrs) && nextInstance == old(nextInstance)
      ensures s == NoSpace ==> inUse + AttrLength(names, |value|) > data.Length
      ensures s == Ok ==>
        && |attrs| == |old(attrs)| + 1 && attrs == old(attrs)[..i] + [attrs[i]] + old(attrs)[i..] && pos == Offset(i)
        && Matches(k, attrs[i]) && ValueOf(attrs[i]) == value && Labelled(attrs[i], flags, old(nextInstance))
        && inUse == old(inUse) + AttrLength(names, |value|) && nextInstance == (old(nextInstance) + 1) % TWO16
    {
      hide Concat, TypeOf, NameOf, ValueOf, IsAttr, Tiles, AttrLength, Matches, Labelled;
      ghost var n;
      s, n := InsertBytes(pos, k, value, flags, names, i);
      if s == Ok {
        nextInstance := (nextInstance + 1) % TWO16;
        attrs := attrs[..i] + [n] + attrs[i..];
        assert attrs[..i] == old(attrs)[..i];
      }
    }

    /** The bytes of the record with the new attribute `n`. */
    method InsertBytes(pos: nat, k: Key, value: seq<byte>, flags: nat, names: byte, ghost i: nat)
      returns (s: Status, ghost n: seq<byte>)
      requires Valid() && 0 < k.kind < AT_END && |NewName(k)| == 2 * names && |value| < 0x8000_0000 && flags < TWO16
      requires i <= |attrs| && pos == Offset(i) && pos + 8 <= inUse && (k.value.Some? ==> k.value.value == value)
      modifies this`inUse, data
      ensures (s == Ok || s == NoSpace) && data[..first] == old(data[..first])
      ensures s != Ok ==> data[..] == old(data[..]) && inUse == old(inUse)
      ensures s == NoSpace ==> inUse + AttrLength(names, |value|) > data.Length
      ensures s == Ok ==>
        && inUse == old(inUse) + AttrLength(names, |value|) <= data.Length
        && Matches(k, n) && ValueOf(n) == value && |n| >= RESIDENT_END && Labelled(n, flags, nextInstance)
        && Tiles(data[first..inUse], attrs[..i] + [n] + attrs[i..], end)
    {
      hide Concat, TypeOf, NameOf, ValueOf, IsAttr, Tiles, AttrLength, Matches, Labelled;
      var length := AttrLength(names, |value|);
      Aligned(names, |value|);
      At(i);
      ghost var was := data[..];
      ghost var used := inUse;
      n := [];
      s := MakeRoom(pos, length);
      if s != Ok {
        return;
      }
      ghost var moved := data[..];
      Fill(pos, k.kind, NewName(k), value, flags, names);
      n := data[pos..pos + length];
      InsertedTiles(was, moved, data[..], first, pos, used, length, attrs, end, i);
      IsMatch(k, n);
    }

    /** `ntfs_attr_record_resize` of attribute number `i`, down to nothing or to another size. */
    method Resize(pos: nat, size: nat, ghost i: nat) returns (s: Status)
      requires Valid() && i < |attrs| && pos == Offset(i) && pos + 8 <= inUse && size < 0x7FFF_FFF0
      modifies this`inUse, this`attrs, data
      ensures Valid() && (s == Ok || s == NoSpace || s == Filled) && data[..pos] == old(data[..pos])
      ensures old(Wide()) && (size == 0 || size > 16) ==> Wide()
      ensures s != Ok ==> data[..] == old(data[..]) && inUse == old(inUse) && attrs == old(attrs)
      ensures s == Ok ==> inUse == old(inUse) - |old(attrs)[i]| + Align8(size)
      ensures s == NoSpace <==> old(inUse) - |old(attrs)[i]| + Align8(size) > data.Length
      // an index root may not grow into the last 120 bytes of the record
      ensures |old(attrs)[i]| >= 4
      ensures s == Filled <==>
              var old', use := |old(attrs)[i]|, old(inUse) - |old(attrs)[i]| + Align8(size);
              && TypeOf(old(attrs)[i]) == AT_INDEX_ROOT && Align8(size) > old' && use <= data.Length
              && use + 120 > data.Length && old(inUse) + 120 <= data.Length
      ensures s == Ok && size == 0 ==> attrs == old(attrs)[..i] + old(attrs)[i + 1..]
      ensures s == Ok && size > 0 ==>
        |attrs| == |old(attrs)| && attrs == old(attrs)[i := attrs[i]] && |attrs[i]| == Align8(size)
            && SameBut(attrs[i], old(attrs)[i])
    {
      hide Concat, Tiles, SameBut;
      At(i);
      At(i + 1);
      var b := data[pos..inUse];
      FirstField(b, attrs[i..], end);
      AttrIs(data[first..inUse], attrs, end, i);
      var length, n := Le32(b, 4), Align8(size);
      s := Ok;
      if n == length {
        SameSelf(attrs[i]);
        assert attrs == attrs[i := attrs[i]];
        return;
      }
      var use := inUse - length + n;
      if use > data.Length {
        return NoSpace;
      }
      if Le32(b, 0) == AT_INDEX_ROOT && n > length && use + 120 > data.Length && inUse + 120 <= data.Length {
        return Filled;
      }
      ShiftTail(pos, length, n, i);
    }

    /** The way out of `ntfs_resident_attr_record_add` when the attribute list cannot take the new
        attribute: resizing it to nothing restores the used part of the record. */
    method AddAndBackOut(k: Key, size: nat, flags: nat, names: byte)
      returns (s: Status, ghost between: seq<seq<byte>>, ghost i: nat)
      requires Valid() && Wide() && 0 < k.kind < AT_END && |NewName(k)| == 2 * names && size < 0x8000_0000
               && flags < TWO16
      requires k.value.Some? ==> |k.value.value| == size
      modifies this, data
      ensures s == Ok || s == Exists || s == NoSpace
      // in between the attribute was there
      ensures s == Ok ==>
        i <= |old(attrs)| && |between| == |old(attrs)| + 1 && Matches(k, between[i])
        && between == old(attrs)[..i] + [between[i]] + old(attrs)[i..]
      // and in the end nothing is left of it
      ensures Valid() && inUse == old(inUse) && attrs == old(attrs) && data[..inUse] == old(data[..inUse])
    {
      hide Concat, Tiles, SameBut, TypeOf, ValueOf, Matches, Compare, Sorted, AttrLength, Lznt1Format.Zeros, Labelled;
      var pos;
      s, pos, i := Add(k, size, flags, names);
      between := attrs;
      if s != Ok {
        assert data[..inUse] == data[..][..inUse];
        return;
      }
      At(i);
      assert attrs[..i] == old(attrs)[..i] && attrs[i + 1..] == old(attrs)[i..];
      EmptyOffset();
      var _ := Resize(pos, 0, i);
      assert data[..first] == data[..pos][..first];
      assert old(attrs) == old(attrs)[..i] + old(attrs)[i..];
      TilesBytes(old(data[first..inUse]), data[first..inUse], attrs, end);
      TwoParts(data[..], first, inUse);
      TwoParts(old(data[..]), first, old(inUse));
    }

    /** The bytes before, in and behind attribute number `i`. */
    lemma {:induction false} Around(i: nat)
      requires Valid() && i < |attrs|
      ensures var was, pos, next := data[..], Offset(i), Offset(i) + |attrs[i]|;
              && first <= pos && next <= inUse && was[first..pos] == Concat(attrs[..i])
              && was[pos..next] == attrs[i] && was[next..inUse] == Concat(attrs[i + 1..]) + end
              && IsAttr(attrs[i]) && Tiles(was[first..inUse], attrs, end)
    {
      hide Concat, Tiles, IsAttr;
      At(i);
      At(i + 1);
      AttrIs(data[first..inUse], attrs, end, i);
      AttrBytes(data[..], Offset(i), inUse, attrs[i..], end);
    }

    /** Move what follows the attribute and set its new length. */
    method ShiftTail(pos: nat, length: nat, n: nat, ghost i: nat)
      requires Valid() && i < |attrs| && pos == Offset(i) && pos + 8 <= inUse && pos + length + 8 <= inUse
               && length == |attrs[i]|
      requires n % 8 == 0 && inUse - length + n <= data.Length && (n == 0 || n >= 8) && n != length
      modifies this`inUse, this`attrs, data
      ensures Valid() && data[..pos] == old(data[..pos]) && inUse == old(inUse) - length + n
      ensures n == 0 ==> attrs == old(attrs)[..i] + old(attrs)[i + 1..]
      ensures n > 0 ==>
              && |attrs| == |old(attrs)| && attrs == old(attrs)[i := attrs[i]]
              && |attrs[i]| == n && SameBut(attrs[i], old(attrs)[i])
    {
      hide Concat, Tiles, SameBut, IsAttr, ShiftedBytes, Offset;
      Around(i);
      ghost var was, used := data[..], inUse;
      ShiftBytes(pos, length, n, attrs[i]);
      ghost var now := data[..];
      ShiftedTiles(was, now, first, pos, used, length, n, attrs, end, i);
      assert data[first..inUse] == now[first..inUse] && data[..pos] == now[..pos];
      if n == 0 {
        attrs := attrs[..i] + attrs[i + 1..];
      } else {
        attrs := attrs[i := now[pos..pos + n]];
      }
    }

    method ShiftBytes(pos: nat, length: nat, n: nat, ghost a: seq<byte>)
      requires first <= pos && pos + length <= inUse <= data.Length < 0x8000_0000
      requires n % 8 == 0 && inUse - length + n <= data.Length && (n == 0 || n >= 8)
      requires var was := data[..]; |a| == length && IsAttr(a) && was[pos..pos + length] == a
      modifies this`inUse, data
      ensures inUse == old(inUse) - length + n && pos + n <= inUse <= data.Length
      ensures ShiftedBytes(old(data[..]), data[..], first, pos, old(inUse), length, n)
      ensures var now := data[..]; n > 0 ==> IsAttr(now[pos..pos + n]) && SameBut(now[pos..pos + n], a)
    {
      hide SameBut, IsAttr, Bytes32, Le32, ShiftedBytes;
      ghost var was, used := data[..], inUse;
      MoveTail(pos + length, pos + n, inUse - pos - length);
      ghost var moved := data[..];
      inUse := inUse - length + n;
      if n >= 8 {
        SetLength(pos, n);
      }
      ghost var now := data[..];
      Shifted(was, moved, now, first, pos, used, length, n, a);
    }

    method MoveTail(from: nat, to: nat, n: nat)
      requires from + n <= data.Length && to + n <= data.Length
      modifies data
      ensures var was, now := old(data[..]), data[..]; now[..to] == was[..to] && now[to..to + n] == was[from..from + n]
    {
      Move(data, from, to, n);
    }

    method SetLength(pos: nat, n: nat)
      requires pos + 8 <= data.Length && n < TWO32
      modifies data
      ensures var was, now := old(data[..]), data[..];
              now[..pos + 4] == was[..pos + 4] && now[pos + 4..pos + 8] == Bytes32(n)
                  && forall k :: pos + 8 <= k < |now| ==> now[k] == was[k]
    {
      AttributeRead.Put(data, pos + 4, Bytes32(n));
    }
  }

  lemma {:induction false} ShiftedTiles(was: seq<byte>, now: seq<byte>, first: nat, pos: nat, used: nat, length: nat,
                                        n: nat, attrs: seq<seq<byte>>, end: seq<byte>, i: nat)
    requires ShiftedBytes(was, now, first, pos, used, length, n) && i < |attrs| && first <= pos
             && pos + length <= used <= |was|
    requires Tiles(was[first..used], attrs, end) && was[first..pos] == Concat(attrs[..i])
             && was[pos + length..used] == Concat(attrs[i + 1..]) + end
    requires n > 0 ==> pos + n <= |now| && IsAttr(now[pos..pos + n])
    ensures var attrs' := if n == 0 then attrs[..i] + attrs[i + 1..] else attrs[i := now[pos..pos + n]];
            used - length + n <= |now| && Tiles(now[first..used - length + n], attrs', end) && pos <= |now|
                && now[..pos] == was[..pos]
  {
    hide Concat, Tiles, IsAttr;
    if n == 0 {
      assert now[pos..pos + n] == [];
      TilesDelete(was[first..used], attrs, end, i, now[first..used - length + n]);
    } else {
      TilesReplace(was[first..used], attrs, end, i, now[pos..pos + n], now[first..used - length + n]);
    }
  }

  lemma {:induction false} AttrBytes(d: seq<byte>, pos: nat, used: nat, attrs: seq<seq<byte>>, end: seq<byte>)
    requires pos <= used <= |d| && Tiles(d[pos..used], attrs, end) && attrs != []
    ensures pos + |attrs[0]| <= used && d[pos..pos + |attrs[0]|] == attrs[0]
  {
    TilesTail(d[pos..used], attrs, end);
  }

  lemma {:induction false} SameSelf(a: seq<byte>)
    ensures SameBut(a, a)
  {
  }

  lemma {:induction false} AttrIs(b: seq<byte>, attrs: seq<seq<byte>>, end: seq<byte>, i: nat)
    requires Tiles(b, attrs, end) && i < |attrs|
    ensures IsAttr(attrs[i])
  {
  }

  ghost predicate ShiftedBytes(was: seq<byte>, now: seq<byte>, first: nat, pos: nat, used: nat, length: nat, n: nat) {
    && first <= pos && pos + length <= used <= |was| == |now| && used - length + n <= |was|
    && now[first..used - length + n] == was[first..pos] + now[pos..pos + n] + was[pos + length..used]
        && now[..pos] == was[..pos]
  }

  /** The bytes after the tail has been moved by `n - length` and the length field been set. */
  lemma {:induction false} Resized(was: seq<byte>, moved: seq<byte>, now: seq<byte>, first: nat, pos: nat, used: nat,
                                   length: nat, n: nat)
    requires first <= pos && pos + length <= used <= |was| == |moved| == |now| && used - length + n <= |was|
             && (n == 0 || n >= 8)
    requires moved[..pos + n] == was[..pos + n] && moved[pos + n..used - length + n] == was[pos + length..used]
    requires n >= 8 ==> now[..pos + 4] == moved[..pos + 4] && forall k :: pos + 8 <= k < |now| ==> now[k] == moved[k]
    requires n < 8 ==> now == moved
    ensures ShiftedBytes(was, now, first, pos, used, length, n)
  {
    assert now[pos + n..used - length + n] == moved[pos + n..used - length + n];
    assert moved[..pos] == moved[..pos + n][..pos] && was[..pos] == was[..pos + n][..pos];
    assert n >= 8 ==> now[..pos] == now[..pos + 4][..pos] && moved[..pos] == moved[..pos + 4][..pos];
    assert now[first..pos] == now[..pos][first..] && was[first..pos] == was[..pos][first..];
    ThreeParts(now, first, pos, pos + n, used - length + n);
  }

  /** The moved tail and the resized attribute together. */
  lemma {:induction false} Shifted(was: seq<byte>, moved: seq<byte>, now: seq<byte>, first: nat, pos: nat, used: nat,
                                   length: nat, n: nat, a: seq<byte>)
    requires first <= pos && pos + length <= used <= |was| == |moved| == |now| && used - length + n <= |was|
             && (n == 0 || n >= 8) && n % 8 == 0 && n < TWO32
    requires moved[..pos + n] == was[..pos + n] && moved[pos + n..used - length + n] == was[pos + length..used]
    requires n >= 8 ==> now[..pos + 4] == moved[..pos + 4] && now[pos + 4..pos + 8] == Bytes32(n)
    requires n >= 8 ==> forall k :: pos + 8 <= k < |now| ==> now[k] == moved[k]
    requires n < 8 ==> now == moved
    requires |a| == length && IsAttr(a) && was[pos..pos + length] == a
    ensures ShiftedBytes(was, now, first, pos, used, length, n)
    ensures n > 0 ==> IsAttr(now[pos..pos + n]) && SameBut(now[pos..pos + n], a)
  {
    hide IsAttr, SameBut, Bytes32, ShiftedBytes;
    Resized(was, moved, now, first, pos, used, length, n);
    if n > 0 {
      ResizedAttr(was, moved, now, pos, used, length, n, a);
    }
  }

  lemma {:induction false} ResizedAttr(was: seq<byte>, moved: seq<byte>, now: seq<byte>, pos: nat, used: nat,
                                       length: nat, n: nat, a: seq<byte>)
    requires pos + length <= used <= |was| == |moved| == |now| && used - length + n <= |was| && n >= 8 && n % 8 == 0
             && n < TWO32
    requires moved[..pos + n] == was[..pos + n]
    requires now[..pos + 4] == moved[..pos + 4] && now[pos + 4..pos + 8] == Bytes32(n)
             && forall k :: pos + 8 <= k < |now| ==> now[k] == moved[k]
    requires |a| == length && IsAttr(a) && was[pos..pos + length] == a
    ensures IsAttr(now[pos..pos + n]) && SameBut(now[pos..pos + n], a)
  {
    hide Le16, Bytes32;
    var b := now[pos..pos + n];
    Lznt1Format.SubSlice(now, pos, n, 4, 8);
    Le32At(b, 4, Bytes32(n));
    forall k | 0 <= k < n && k < length && !(4 <= k < 8)
      ensures b[k] == a[k]
    {
      assert b[k] == now[pos + k] && a[k] == was[pos..pos + length][k] == was[pos + k];
      assert was[pos + k] == was[..pos + n][pos + k] == moved[pos + k];
      assert k < 4 ==> now[pos + k] == now[..pos + 4][pos + k] == moved[pos + k];
    }
    assert b[0..4] == a[0..4];
    Le32At(b, 0, a[0..4]);
    Le32At(a, 0, a[0..4]);
  }

  lemma {:induction false} TilesDelete(b: seq<byte>, attrs: seq<seq<byte>>, end: seq<byte>, i: nat, b': seq<byte>)
    requires Tiles(b, attrs, end) && i < |attrs| && b' == Concat(attrs[..i]) + [] + (Concat(attrs[i + 1..]) + end)
    ensures Tiles(b', attrs[..i] + attrs[i + 1..], end)
  {
    hide IsAttr;
    ConcatJoin(attrs[..i], attrs[i + 1..]);
  }

  lemma {:induction false} TilesReplace(b: seq<byte>, attrs: seq<seq<byte>>, end: seq<byte>, i: nat, a: seq<byte>,
                                        b': seq<byte>)
    requires Tiles(b, attrs, end) && i < |attrs| && IsAttr(a)
             && b' == Concat(attrs[..i]) + a + (Concat(attrs[i + 1..]) + end)
    ensures Tiles(b', attrs[i := a], end)
  {
    hide IsAttr;
    assert attrs[i := a] == attrs[..i] + [a] + attrs[i + 1..];
    ConcatJoin(attrs[..i] + [a], attrs[i + 1..]);
    ConcatJoin(attrs[..i], [a]);
    ConcatCons(a, []);
    assert a + [] == a;
  }

  /** The same contents as far as both go, but for the length field. */
  ghost predicate SameBut(a: seq<byte>, b: seq<byte>) {
    forall k :: 0 <= k < |a| && k < |b| && !(4 <= k < 8) ==> a[k] == b[k]
  }

  lemma {:induction false} Aligned(names: byte, size: nat)
    ensures Align8(AttrLength(names, size)) == AttrLength(names, size) && AttrLength(names, size) > 0
  {
  }

  lemma {:induction false} IsMatch(k: Key, n: seq<byte>)
    requires |n| >= RESIDENT_END && TypeOf(n) == k.kind && NameOf(n) == NewName(k)
             && (k.value.Some? ==> ValueOf(n) == k.value.value)
    ensures Matches(k, n)
  {
  }

  /** The used bytes after an insertion are the new row of attributes. */
  lemma {:induction false} InsertedTiles(was: seq<byte>, moved: seq<byte>, now: seq<byte>, first: nat, pos: nat,
                                         used: nat, n: nat, attrs: seq<seq<byte>>, end: seq<byte>, i: nat)
    requires first <= pos <= used && used + n <= |was| == |moved| == |now| && i <= |attrs|
    requires moved[..pos] == was[..pos] && moved[pos + n..used + n] == was[pos..used]
    requires now[..pos] == moved[..pos] && forall k :: pos + n <= k < |now| ==> now[k] == moved[k]
    requires Tiles(was[first..used], attrs, end) && IsAttr(now[pos..pos + n])
    requires was[first..pos] == Concat(attrs[..i]) && was[pos..used] == Concat(attrs[i..]) + end
    ensures Tiles(now[first..used + n], attrs[..i] + [now[pos..pos + n]] + attrs[i..], end)
    ensures now[..first] == was[..first]
  {
    hide Tiles, IsAttr, Concat;
    Inserted(was, moved, now, first, pos, used, n);
    TilesInsert(was[first..used], attrs, end, i, now[pos..pos + n], now[first..used + n]);
  }

  lemma {:induction false} Inserted<T>(was: seq<T>, moved: seq<T>, now: seq<T>, first: nat, pos: nat, used: nat, n: nat)
    requires first <= pos <= used && used + n <= |was| == |moved| == |now|
    requires moved[..pos] == was[..pos] && moved[pos + n..used + n] == was[pos..used]
    requires now[..pos] == moved[..pos] && forall k :: pos + n <= k < |now| ==> now[k] == moved[k]
    ensures now[first..used + n] == was[first..pos] + now[pos..pos + n] + was[pos..used] && now[..first] == was[..first]
  {
    assert now[pos + n..used + n] == moved[pos + n..used + n];
    assert now[first..pos] == now[..pos][first..] && was[first..pos] == was[..pos][first..];
    assert now[..first] == now[..pos][..first] && was[..first] == was[..pos][..first];
    ThreeParts(now, first, pos, pos + n, used + n);
  }

  lemma {:induction false} TilesBytes(b: seq<byte>, c: seq<byte>, attrs: seq<seq<byte>>, end: seq<byte>)
    requires Tiles(b, attrs, end) && Tiles(c, attrs, end)
    ensures b == c
  {
  }

  lemma {:induction false} TwoParts<T>(s: seq<T>, a: nat, b: nat)
    requires a <= b <= |s|
    ensures s[..b] == s[..a] + s[a..b]
  {
  }

  lemma {:induction false} ThreeParts<T>(s: seq<T>, a: nat, b: nat, c: nat, d: nat)
    requires a <= b <= c <= d <= |s|
    ensures s[a..d] == s[a..b] + s[b..c] + s[c..d]
  {
  }

  lemma {:induction false} TilesInsert(b: seq<byte>, attrs: seq<seq<byte>>, end: seq<byte>, i: nat, n: seq<byte>,
                                       b': seq<byte>)
    requires Tiles(b, attrs, end) && i <= |attrs| && IsAttr(n)
    requires b' == Concat(attrs[..i]) + n + (Concat(attrs[i..]) + end)
    ensures Tiles(b', attrs[..i] + [n] + attrs[i..], end)
  {
    hide IsAttr;
    ConcatJoin(attrs[..i] + [n], attrs[i..]);
    ConcatJoin(attrs[..i], [n]);
    ConcatCons(n, []);
    assert n + [] == n;
  }

  lemma {:induction false} Pieces<T>(a: seq<T>, b: seq<T>, c: seq<T>, d: seq<T>, e: seq<T>, f: seq<T>)
    ensures var s, i, j := a + b + c + d + e + f, |a| + |b|, |a| + |b| + |c| + |d|;
            s[..|a|] == a && s[i..i + |c|] == c && s[j..j + |e|] == e
  {
  }
}

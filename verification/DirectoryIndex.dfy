/** A directory index (`index.c`): index root, index blocks, block bitmap and search context, with lookup,
    insertion and removal in place. */
module DirectoryIndex {
  import opened Sequences
  import opened IndexTree
  import opened IndexPath
  import opened IndexShape
  import opened IndexEdit
  import opened IndexSplit
  import opened IndexLookup
  import opened IndexUpdate
  import opened IndexRemove
  import opened IndexSuccessor
  import opened IndexOrder

  const MAX_PARENT_VCN: nat := 32
  const VCN_INDEX_ROOT_PARENT: int := -1

  datatype Status = Ok | NotFound | Exists | KeepSearching | Failed

  /** `ntfs_ie_lookup`'s scan: the first entry whose key is not smaller, and whether it is the key. */
  method FindInNode(x: Node, key: int) returns (item: nat, found: bool)
    ensures item <= |x.keys| && forall i :: 0 <= i < item ==> x.keys[i].key < key
    ensures found <==> item < |x.keys| && x.keys[item].key == key
    ensures item < |x.keys| && !found ==> x.keys[item].key > key
  {
    item, found := 0, false;
    while item < |x.keys|
      invariant item <= |x.keys| && !found && forall i :: 0 <= i < item ==> x.keys[i].key < key
    {
      if key < x.keys[item].key {
        break;
      }
      if key == x.keys[item].key {
        return item, true;
      }
      item := item + 1;
    }
  }

  class Index {
    /** Index blocks, and the root: offset of its first entry and the most it can ever be grown to. */
    const limits: Limits
    const rootHead: nat
    const rootLimit: nat
    var root: Node
    var rootAlloc: nat
    var blocks: Store
    var bitmap: set<nat>
    ghost var height: nat
    /** The search context: path, whether the entry is in the root, and the entry's number in its node. */
    var pindex: nat
    var pos: seq<nat>
    var vcn: seq<int>
    var inRoot: bool
    var entry: nat

    /** A root of one entry always fits the file record, and any root fits an index block. */
    predicate Dimensions() {
      && Roomy(limits)
      && rootHead + END_SIZE + 2 * VCN_SIZE + limits.longest <= rootLimit
      && rootLimit + limits.head <= limits.room + rootHead
    }

    ghost function Tokens(): seq<Token>
      reads this
    {
      Walk(blocks, root, 0, height)
    }

    /** The entries of the index in order. */
    ghost function Listing(): seq<Entry>
      reads this
    {
      Keys(Tokens())
    }

    ghost predicate RootFits()
      reads this
    {
      Shape(root, height) && Short(root.keys, limits.longest) && Length(root, rootHead) <= rootAlloc <= rootLimit
    }

    /** The index is a B+tree and its bitmap has exactly the blocks reached from the root, and `extra`. */
    ghost predicate Valid(extra: set<nat>)
      reads this
    {
      && Dimensions() && |pos| == |vcn| == MAX_PARENT_VCN && vcn[0] == VCN_INDEX_ROOT_PARENT
      && RootFits() && Sound(limits, Tokens(), bitmap, extra)
    }

    ghost predicate OnPath()
      reads this
    {
      && pindex < |pos| == |vcn| && pindex <= height && (pindex > 0 ==> vcn[pindex] >= 0)
      && Route(blocks, root, height, pos, vcn, 0, pindex)
    }

    /** How often the index can still be restructured without a change of its entries. */
    ghost function Potential(): nat
      reads this
    {
      |root.keys| + Weight(Tokens())
    }

    /** An index with an empty root. */
    constructor (l: Limits, head: nat, limit: nat)
      requires Roomy(l) && head + END_SIZE + 2 * VCN_SIZE + l.longest <= limit && limit + l.head <= l.room + head
      ensures Valid({}) && Listing() == [] && Sorted(Listing()) && pindex == 0 && inRoot && entry == 0
      ensures limits == l && rootHead == head && rootLimit == limit && rootAlloc == head + END_SIZE
      ensures forall i :: 0 <= i < MAX_PARENT_VCN ==>
                pos[i] == 0 && vcn[i] == if i == 0 then VCN_INDEX_ROOT_PARENT else 0
    {
      limits, rootHead, rootLimit := l, head, limit;
      root, rootAlloc, blocks, bitmap, height := Node([], []), head + END_SIZE, map[], {}, 0;
      pindex, pos, inRoot, entry := 0, seq(MAX_PARENT_VCN, _ => 0), true, 0;
      vcn := seq(MAX_PARENT_VCN, i => if i == 0 then VCN_INDEX_ROOT_PARENT else 0);
    }

    /** `ntfs_ibm_get_free`: the first clear bit, set. */
    method GetFree() returns (v: nat)
      modifies this`bitmap
      ensures v !in old(bitmap) && (forall u :: 0 <= u < v ==> u in old(bitmap)) && bitmap == old(bitmap) + {v}
    {
      v := 0;
      ghost var left := bitmap;
      while v in bitmap
        invariant forall u :: 0 <= u < v ==> u in bitmap
        invariant left <= bitmap && forall u :: u in bitmap && u >= v ==> u in left
        invariant bitmap == old(bitmap)
        decreases |left|
      {
        left := left - {v};
        v := v + 1;
      }
      bitmap := bitmap + {v};
    }

    /** `ntfs_ir_truncate`: growing the root can fail for lack of room in the file record. */
    method RootTruncate(size: nat) returns (ok: bool)
      requires Dimensions()
      modifies this`rootAlloc
      ensures ok ==> rootAlloc == size && (size <= old(rootAlloc) || size <= rootLimit)
      ensures !ok ==> rootAlloc == old(rootAlloc)
      ensures size <= rootHead + END_SIZE + 2 * VCN_SIZE + limits.longest || size <= old(rootAlloc) ==> ok
    {
      var granted: bool := *;
      ok := size <= rootAlloc
            || (size <= rootLimit && (size <= rootHead + END_SIZE + 2 * VCN_SIZE + limits.longest || granted));
      if ok {
        rootAlloc := size;
      }
    }

    /** `ntfs_ir_reparent`: all entries of the root move to a new block below it. */
    method Reparent(ghost extra: set<nat>)
      requires Valid(extra) && root.keys != []
      modifies this
      ensures Valid(extra) && Listing() == old(Listing()) && Potential() < old(Potential())
      ensures pos == old(pos) && vcn == old(vcn) && pindex == old(pindex)
    {
      hide Walk, Vcns, Keys, Weight, AllFit, Distinct;
      var w := GetFree();
      assert Fits(limits, root, height);
      ReparentKeeps(limits, blocks, root, height, w, bitmap, extra + {w});
      blocks := blocks[w := root];
      root := Node([], [w]);
      height := height + 1;
      rootAlloc := rootHead + END_SIZE + VCN_SIZE;
      assert extra + {w} - {w} == extra;
    }

    /** `ntfs_ir_insert_median`. */
    method RootInsertMedian(e: Entry, w: nat, ghost extra: set<nat>) returns (s: Status)
      requires Valid(extra) && height > 0 && pos[0] <= |root.keys| && e.size <= limits.longest
      modifies this
      ensures pos == old(pos) && vcn == old(vcn) && pindex == old(pindex) && (s == Ok || s == KeepSearching)
      ensures s == Ok ==>
        && root == Grown(old(root), old(pos[0]), e, w) && RootFits()
        && blocks == old(blocks) && bitmap == old(bitmap) && height == old(height)
      ensures s == KeepSearching ==> Valid(extra) && Listing() == old(Listing()) && Potential() < old(Potential())
    {
      hide Walk, Vcns, Keys, Weight, AllFit, Distinct;
      GrownLength(root, pos[0], e, w, rootHead, limits.longest);
      var ok := RootTruncate(Length(root, rootHead) + e.size + VCN_SIZE);
      if ok {
        root := Grown(root, pos[0], e, w);
        return Ok;
      }
      Reparent(extra);
      return KeepSearching;
    }

    /** `ntfs_ib_insert`: insert into the block at the current level, or split that block. */
    method BlockInsert(e: Entry, hasNode: bool, w: nat, ghost extra: set<nat>) returns (s: Status)
      requires Valid(extra) && OnPath() && 0 < pindex < height && e.size <= limits.longest
      requires var x := Get(blocks, vcn[pindex]); pos[pindex] <= |x.keys|
      modifies this
      ensures s == Ok || s == KeepSearching
      // eight bytes are kept spare for a subnode even if the entry has one already
      ensures s == Ok <==> old(Length(Get(blocks, vcn[pindex]), limits.head)) + e.size
                           + (if hasNode then VCN_SIZE else 0) + VCN_SIZE <= limits.room
      ensures s == Ok ==>
        var x, p, q := old(Get(blocks, vcn[pindex])), old(vcn[pindex]), old(pos[pindex]);
        && |x.kids| == |x.keys| + 1
        && blocks == old(blocks)[p := Grown(x, q, e, w)] && Fits(limits, Grown(x, q, e, w), old(height - pindex))
        && root == old(root) && rootAlloc == old(rootAlloc) && bitmap == old(bitmap) && height == old(height)
            && pindex == old(pindex)
      ensures s == KeepSearching ==> Valid(extra) && Listing() == old(Listing()) && Potential() < old(Potential())
      ensures pos == old(pos) && vcn == old(vcn)
      decreases pindex, 1
    {
      hide Walk, Vcns, Keys, Weight, AllFit, Distinct, Route, Fits;
      BlockFits();
      var x := Get(blocks, vcn[pindex]);
      GrownFits(limits, x, pos[pindex], e, w, height - pindex);
      if Length(x, limits.head) + (e.size + if hasNode then VCN_SIZE else 0) + VCN_SIZE > limits.room {
        FullBlock(limits, x, height - pindex, e.size + 2 * VCN_SIZE);
        s := SplitBlock(extra);
        return KeepSearching;
      }
      blocks := blocks[vcn[pindex] := Grown(x, pos[pindex], e, w)];
      return Ok;
    }

    /** `ntfs_ib_split`: move the entries after the median of the block at the current level to a new
        block and the median itself to the parent; if there is no room, an ancestor is split instead. */
    method SplitBlock(ghost extra: set<nat>) returns (s: Status)
      requires Valid(extra) && OnPath() && 0 < pindex && |Get(blocks, vcn[pindex]).keys| >= 3
      modifies this
      ensures s == Ok || s == KeepSearching
      ensures Valid(extra) && Listing() == old(Listing()) && Potential() < old(Potential())
      ensures pos == old(pos) && vcn == old(vcn)
      decreases pindex, 0
    {
      hide Walk, Vcns, Keys, Weight, AllFit, Distinct, Route, Fits, Sound;
      ghost var m, t, x := blocks, Tokens(), root;
      var v := vcn[pindex];
      var y := Get(blocks, v);
      SoundParts(limits, t, bitmap, extra);
      BlockShort();
      RouteStep(m, x, height, pos, vcn, 0, pindex - 1);
      pindex := pindex - 1;
      var k := |y.keys| / 2;
      var median := y.keys[k];
      var w := GetFree();
      Reserve(limits, t, old(bitmap), extra, w);
      UnusedWrite(m, x, height, w, High(y, k));
      WalkMatches(m[w := High(y, k)], x, 0, height);
      SamePath(m, m[w := High(y, k)], x, height, pos, vcn, pindex);
      blocks := blocks[w := High(y, k)];
      if vcn[pindex] == VCN_INDEX_ROOT_PARENT {
        s := SplitIntoRoot(v, y, w, m, extra + {w});
      } else {
        s := SplitIntoBlock(v, y, w, m, extra + {w});
      }
      assert extra + {w} - {w} == extra;
      if s != Ok {
        Release(limits, Tokens(), bitmap, extra, w);
        bitmap := bitmap - {w};
      }
    }

    /** The tail of block `v` has been copied to block `w`: the median goes to the root, then the tail is
        cut. */
    method SplitIntoRoot(v: nat, y: Node, w: nat, ghost m: Store, ghost extra: set<nat>) returns (s: Status)
      requires Valid(extra) && height > 0 && pos[0] <= |root.keys| && w in extra && |y.keys| >= 3
               && Short(y.keys, limits.longest)
      requires v == root.kids[pos[0]] && y == Get(m, v) && blocks == m[w := High(y, |y.keys| / 2)]
               && Tokens() == Walk(m, root, 0, height)
      modifies this
      ensures pos == old(pos) && vcn == old(vcn) && (s == Ok || s == KeepSearching)
      ensures Valid(if s == Ok then extra - {w} else extra) && Listing() == old(Listing())
              && Potential() < old(Potential())
    {
      hide Walk, Vcns, Keys, Weight, AllFit, Distinct, Route, Fits, Sound;
      ghost var x := root;
      var k := |y.keys| / 2;
      s := RootInsertMedian(y.keys[k], w, extra);
      if s == Ok {
        blocks := blocks[v := Low(y, k)];
        SplitUnderRoot(limits, m, x, pos[0], height, w, bitmap, extra);
        assert blocks == SplitStore(m, x, pos[0], w) && root == SplitParent(m, x, pos[0], w);
      }
    }

    /** The same where the parent is a block. */
    method SplitIntoBlock(v: nat, y: Node, w: nat, ghost m: Store, ghost extra: set<nat>) returns (s: Status)
      requires Valid(extra) && OnPath() && 0 < pindex < height && w in extra && |y.keys| >= 3
               && Short(y.keys, limits.longest)
      requires Route(m, root, height, pos, vcn, 0, pindex) && Get(m, vcn[pindex]) == Get(blocks, vcn[pindex])
      requires var x := Get(blocks, vcn[pindex]);
               pos[pindex] <= |x.keys| && pos[pindex] < |x.kids| && v == x.kids[pos[pindex]]
      requires y == Get(m, v) && blocks == m[w := High(y, |y.keys| / 2)] && Tokens() == Walk(m, root, 0, height)
      modifies this
      ensures pos == old(pos) && vcn == old(vcn) && (s == Ok || s == KeepSearching)
      ensures s == Ok <==> old(Length(Get(blocks, vcn[pindex]), limits.head)) + y.keys[|y.keys| / 2].size
                           + (if y.kids != [] then VCN_SIZE else 0) + VCN_SIZE <= limits.room
      ensures Valid(if s == Ok then extra - {w} else extra) && Listing() == old(Listing())
              && Potential() < old(Potential())
      decreases pindex, 2
    {
      hide Walk, Vcns, Keys, Weight, AllFit, Distinct, Route, Fits, Sound;
      var k := |y.keys| / 2;
      SoundParts(limits, Tokens(), bitmap, extra);
      BlockShort();
      KidApart(m, root, height, pos, vcn, pindex);
      ghost var p, x, q := vcn[pindex], Get(blocks, vcn[pindex]), pos[pindex];
      s := BlockInsert(y.keys[k], y.kids != [], w, extra);
      if s == Ok {
        blocks := blocks[v := Low(y, k)];
        SplitUnderBlock(limits, m, root, height, pos, vcn, pindex, w, bitmap, extra);
        assert blocks == SplitStore(m, x, q, w)[p := SplitParent(m, x, q, w)];
      }
    }

    function Here(): Node
      requires OnPath()
      reads this
    {
      NodeAt(blocks, root, vcn, pindex)
    }

    /** The entry pointed at is in a leaf, at the place where `key` belongs. */
    ghost predicate AtPlace(key: int)
      reads this
    {
      && OnPath() && pindex == height && entry <= |Here().keys|
      && AllBelow(Keys(LeftOf(blocks, root, height, pos, vcn, pindex)) + Here().keys[..entry], key)
      && AllAbove(Here().keys[entry..] + Keys(RightOf(blocks, root, height, pos, vcn, pindex)), key)
    }

    /** Point the context at entry number `item` of the node at the end of the path. */
    method SetEntry(item: nat, ghost extra: set<nat>)
      requires Valid(extra) && OnPath() && item < |Here().keys|
      modifies this`pos, this`inRoot, this`entry
      ensures Valid(extra) && OnPath() && Here() == old(Here()) && HasKey(Listing(), Here().keys[item].key)
      ensures pos[pindex] == item == entry && inRoot == (pindex == 0)
    {
      hide Walk, Vcns, Keys, AllFit, Distinct, Route, Fits, Sound, HasKey;
      FoundIsThere(blocks, root, height, pos, vcn, pindex, item);
      ArraysOf(blocks, root, height, pos, vcn, pos[pindex := item], vcn, pindex);
      pos := pos[pindex := item];
      inRoot, entry := pindex == 0, item;
    }

    /** `ntfs_index_lookup`, on a fresh context. */
    method Lookup(key: int, ghost extra: set<nat>) returns (s: Status)
      requires Valid(extra) && Sorted(Listing()) && pindex == 0
      modifies this`pindex, this`pos, this`vcn, this`inRoot, this`entry
      ensures Valid(extra) && (s == Ok || s == NotFound || s == Failed)
      ensures s == Failed ==> height >= MAX_PARENT_VCN
      ensures s != Failed ==> OnPath() && inRoot == (pindex == 0) && (s == Ok <==> HasKey(Listing(), key))
      ensures s == Ok ==> entry < |Here().keys| && Here().keys[entry].key == key && pos[pindex] == entry
      ensures s == NotFound ==> AtPlace(key)
    {
      hide Walk, Vcns, Keys, AllFit, Distinct, Route, Fits, Sound, AllBelow, AllAbove, Sorted, LeftOf, RightOf, HasKey;
      RouteHere(blocks, root, height, pos, vcn);
      SoundParts(limits, Tokens(), bitmap, extra);
      NothingAround(blocks, root, height, pos, vcn, key);
      while true
        invariant Valid(extra) && OnPath() && Between(blocks, root, height, pos, vcn, pindex, key)
        modifies this`pindex, this`pos, this`vcn, this`inRoot, this`entry
        decreases height - pindex
      {
        var node := NodeAt(blocks, root, vcn, pindex);
        NodeShape();
        var item, found := FindInNode(node, key);
        if found {
          SetEntry(item, extra);
          return Ok;
        }
        if node.kids == [] {
          inRoot, entry := pindex == 0, item;
          LeafSides(blocks, root, height, pos, vcn, item, key);
          return NotFound;
        }
        if pindex + 1 >= MAX_PARENT_VCN {
          return Failed;
        }
        DescendBetween(blocks, root, height, pos, vcn, pindex, key, item, node.kids[item]);
        pos := pos[pindex := item];
        pindex := pindex + 1;
        vcn := vcn[pindex := node.kids[item]];
      }
    }

    /** `ntfs_ie_add`: look the key up; make room as long as its node has none, then insert the entry. */
    method Add(e: Entry, ghost extra: set<nat>) returns (s: Status)
      requires Valid(extra) && Sorted(Listing()) && e.size <= limits.longest && pindex == 0
      modifies this
      ensures Valid(extra) && Sorted(Listing()) && (s == Ok || s == Exists || s == Failed)
      ensures s == Ok ==> !HasKey(old(Listing()), e.key) && Placed(old(Listing()), e, Listing())
      ensures s == Exists ==> HasKey(old(Listing()), e.key) && Listing() == old(Listing())
      ensures s == Failed ==> height >= MAX_PARENT_VCN && Listing() == old(Listing())
    {
      hide Walk, Vcns, Keys, AllFit, Distinct, Route, Fits, Sound, Sorted, HasKey, Weight, AtPlace, Placed;
      while true
        invariant Valid(extra) && Listing() == old(Listing()) && pindex == 0
        decreases Potential(), rootAlloc < Length(root, rootHead) + e.size
      {
        s := Lookup(e.key, extra);
        if s == Ok {
          return Exists;
        }
        if s == Failed {
          return Failed;
        }
        var head, room := if inRoot then rootHead else limits.head, if inRoot then rootAlloc else limits.room;
        AtLeaf(e.key);
        if Length(Here(), head) + e.size <= room {
          break;
        }
        MakeRoom(e, extra);
        pindex := 0;
      }
      InsertHere(e, extra);
      return Ok;
    }

    /** Make the full leaf at the end of the path take another entry, directly or at the next attempt. */
    method MakeRoom(e: Entry, ghost extra: set<nat>)
      requires Valid(extra) && OnPath() && pindex == height && inRoot == (pindex == 0) && e.size <= limits.longest
      requires Length(Here(), if inRoot then rootHead else limits.head) + e.size
               > (if inRoot then rootAlloc else limits.room)
      modifies this
      ensures Valid(extra) && Listing() == old(Listing())
      ensures Potential() < old(Potential())
              || (Potential() == old(Potential()) && old(rootAlloc < Length(root, rootHead) + e.size)
                                                 && rootAlloc >= Length(root, rootHead) + e.size)
    {
      hide Walk, Vcns, Keys, AllFit, Distinct, Route, Fits, Weight;
      if inRoot {
        var ok := RootTruncate(Length(root, rootHead) + e.size);
        if !ok {
          BytesBound(root.keys, limits.longest);
          Reparent(extra);
        }
      } else {
        BlockFits();
        FullBlock(limits, Here(), 0, e.size);
        var _ := SplitBlock(extra);
      }
    }

    lemma {:induction false} AtLeaf(key: int)
      requires AtPlace(key)
      ensures OnPath() && pindex == height && entry <= |Here().keys|
    {
    }

    /** `ntfs_ie_insert` at the place found. */
    method InsertHere(e: Entry, ghost extra: set<nat>)
      requires Valid(extra) && Sorted(Listing()) && AtPlace(e.key) && inRoot == (pindex == 0)
               && e.size <= limits.longest
      requires Length(Here(), if inRoot then rootHead else limits.head) + e.size
               <= (if inRoot then rootAlloc else limits.room)
      modifies this`root, this`blocks
      ensures Valid(extra) && Sorted(Listing()) && Placed(old(Listing()), e, Listing())
    {
      hide Walk, Vcns, Keys, AllFit, Distinct, Route, Fits, LeftOf, RightOf, Sorted, AllBelow, AllAbove, Placed, Sound,
           Length;
      var y := Here();
      ghost var a, b := Keys(LeftOf(blocks, root, height, pos, vcn, pindex)),
          Keys(RightOf(blocks, root, height, pos, vcn, pindex));
      LeafPlace(blocks, root, height, pos, vcn, entry);
      PlaceSorted(a + y.keys[..entry], y.keys[entry..] + b, e);
      SoundParts(limits, Tokens(), bitmap, extra);
      LeafInsertion(a, y.keys, b, entry, e);
      var y' := Node(Inserted(y.keys, entry, e), []);
      NodeShape();
      InsertedLength(y, entry, e, limits.longest);
      if pindex > 0 {
        BlockFits();
        InsertedFits(limits, y, entry, e);
      }
      LeafFits(limits, blocks, y);
      LeafFits(limits, blocks, y');
      NodeRekey(limits, blocks, root, height, pos, vcn, pindex, y', bitmap, extra);
      WriteNode(y');
    }

    ghost function LeftTokens(): seq<Token>
      requires OnPath() && pindex > 0
      reads this
    {
      Left(blocks, root, height, pos, vcn, 0, pindex)
    }

    ghost function RightTokens(): seq<Token>
      requires OnPath() && pindex > 0
      reads this
    {
      Right(blocks, root, height, pos, vcn, 0, pindex)
    }

    /** A valid index, but the block at the end of the path is to go, and what is below it is already
        marked as free. */
    ghost predicate Dangling()
      reads this
    {
      && Dimensions() && |pos| == |vcn| == MAX_PARENT_VCN && vcn[0] == VCN_INDEX_ROOT_PARENT && RootFits()
      && OnPath() && pindex > 0 && AllFit(limits, Tokens()) && Distinct(Vcns(Tokens()))
      && Marks(bitmap - {vcn[pindex]}, Vcns(LeftTokens()), Vcns(RightTokens()))
    }

    /** The same after a step up: the subnode at the recorded position is marked as free. */
    ghost predicate Orphaned()
      reads this
    {
      && Dimensions() && |pos| == |vcn| == MAX_PARENT_VCN && vcn[0] == VCN_INDEX_ROOT_PARENT && RootFits()
      && OnPath() && pindex < height && AllFit(limits, Tokens()) && Distinct(Vcns(Tokens()))
      && Route(blocks, root, height, pos, vcn, 0, pindex + 1)
      && Marks(bitmap, Vcns(LeftBelow()), Vcns(RightBelow()))
    }

    ghost function LeftBelow(): seq<Token>
      requires Route(blocks, root, height, pos, vcn, 0, pindex + 1)
      reads this
    {
      Left(blocks, root, height, pos, vcn, 0, pindex + 1)
    }

    ghost function RightBelow(): seq<Token>
      requires Route(blocks, root, height, pos, vcn, 0, pindex + 1)
      reads this
    {
      Right(blocks, root, height, pos, vcn, 0, pindex + 1)
    }

    /** Write the node at the end of the path, in the root or on disk. */
    method WriteNode(y: Node)
      requires OnPath()
      modifies this`root, this`blocks
      ensures root == RootAfter(old(root), pindex, y) && blocks == StoreAfter(old(blocks), vcn, pindex, y)
    {
      if pindex == 0 {
        root := y;
      } else {
        blocks := blocks[vcn[pindex] := y];
      }
    }

    /** `ntfs_ih_takeout`: node `y` is the current one without entry `e`, which roams back into the index. */
    method Takeout(e: Entry, y: Node, ghost a: seq<Entry>, ghost b: seq<Entry>) returns (s: Status)
      requires Dimensions() && |pos| == |vcn| == MAX_PARENT_VCN && vcn[0] == VCN_INDEX_ROOT_PARENT && OnPath()
               && e.size <= limits.longest
      requires RootFits() && (pindex == 0 ==>
                              Shape(y, height) && Short(y.keys, limits.longest) && Length(y, rootHead) <= rootAlloc)
      requires var t := Walk(StoreAfter(blocks, vcn, pindex, y), RootAfter(root, pindex, y), 0, height);
               Sound(limits, t, bitmap, {}) && Keys(t) == a + b
      requires Sorted(a + [e] + b)
      modifies this
      ensures Valid({}) && Sorted(Listing()) && (s == Ok || s == Failed)
      ensures s == Ok ==> Listing() == a + [e] + b
      ensures s == Failed ==> height >= MAX_PARENT_VCN && Listing() == a + b
    {
      hide Walk, Vcns, Keys, AllFit, Distinct, Route, Fits, Sound, Sorted, HasKey, Placed;
      WriteNode(y);
      pindex := 0;
      SortedWithout(a, b, e);
      s := Add(e, {});
      if s == Ok {
        PlacedUnique(a, b, e, Listing());
      }
    }

    /** `ntfs_index_rm_leaf`: remove the block at the end of the path, and its parents as long as they are
        left without entries. */
    method RemoveLeaf() returns (s: Status)
      requires Dangling() && Sorted(Keys(LeftTokens()) + Keys(RightTokens()))
      modifies this
      ensures Valid({}) && Sorted(Listing()) && (s == Ok || s == Failed)
      ensures s == Ok ==> Listing() == old(Keys(LeftTokens()) + Keys(RightTokens()))
      ensures s == Failed ==>
              height >= MAX_PARENT_VCN && OneLost(old(Keys(LeftTokens()) + Keys(RightTokens())), Listing())
      decreases pindex
    {
      hide Walk, Vcns, Keys, AllFit, Distinct, Route, Fits, Sound, Sorted, Marks, LeftOf, RightOf, Left, Right, Before,
           After, OneLost;
      SidesAt(blocks, root, height, pos, vcn, pindex - 1);
      bitmap := bitmap - {vcn[pindex]};
      pindex := pindex - 1;
      NodeShape();
      var n := Here();
      if pos[pindex] < |n.keys| {
        s := TakeoutParent();
      } else if |n.keys| > 0 {
        s := ReparentEnd();
      } else if pindex == 0 {
        Leafify();
        s := Ok;
      } else {
        ParentDangles();
        s := RemoveLeaf();
      }
    }

    /** The parent entry of the removed block is taken out with it, and added again. */
    method TakeoutParent() returns (s: Status)
      requires Orphaned() && pos[pindex] < |Here().keys| && Sorted(Keys(LeftBelow()) + Keys(RightBelow()))
      modifies this
      ensures Valid({}) && Sorted(Listing()) && (s == Ok || s == Failed)
      ensures s == Ok ==> Listing() == old(Keys(LeftBelow()) + Keys(RightBelow()))
      ensures s == Failed ==>
              height >= MAX_PARENT_VCN && OneLost(old(Keys(LeftBelow()) + Keys(RightBelow())), Listing())
    {
      hide Walk, Vcns, Keys, AllFit, Distinct, Route, Fits, Sound, Sorted, Marks, Left, Right, Length, Short, OneLost;
      NodeShape();
      NodeSizes();
      ghost var a, b := Keys(LeftBelow()), Keys(RightBelow());
      var n, q := Here(), pos[pindex];
      TakeoutEntry(limits, blocks, root, height, pos, vcn, pindex, bitmap);
      TakeoutSplit(a, b);
      LostFrom(a, n.keys[q], b[1..]);
      s := Takeout(n.keys[q], Shrunk(n, q), a, b[1..]);
    }

    /** `ntfs_ih_reparent_end`. */
    method ReparentEnd() returns (s: Status)
      requires Orphaned() && pos[pindex] == |Here().keys| > 0 && Sorted(Keys(LeftBelow()) + Keys(RightBelow()))
      modifies this
      ensures Valid({}) && Sorted(Listing()) && (s == Ok || s == Failed)
      ensures s == Ok ==> Listing() == old(Keys(LeftBelow()) + Keys(RightBelow()))
      ensures s == Failed ==>
              height >= MAX_PARENT_VCN && OneLost(old(Keys(LeftBelow()) + Keys(RightBelow())), Listing())
    {
      hide Walk, Vcns, Keys, AllFit, Distinct, Route, Fits, Sound, Sorted, Marks, Left, Right, Length, Short, OneLost;
      NodeShape();
      NodeSizes();
      ghost var a, b := Keys(LeftBelow()), Keys(RightBelow());
      var n := Here();
      TakeoutEnd(limits, blocks, root, height, pos, vcn, pindex, bitmap);
      TakeoutSplit(b, a);
      LostFrom(a[..|a| - 1], n.keys[|n.keys| - 1], b);
      s := Takeout(n.keys[|n.keys| - 1], Ended(n), a[..|a| - 1], b);
    }

    /** `ntfs_ir_leafify`: the last subnode of a root without entries has gone. */
    method Leafify()
      requires Orphaned() && pindex == 0 && root.keys == []
      modifies this`root, this`rootAlloc, this`height
      ensures Valid({}) && Listing() == [] && Sorted(Listing())
              && old(Keys(LeftBelow()) == [] && Keys(RightBelow()) == [])
    {
      hide Walk;
      KeysNone();
      LeafFits(limits, blocks, Node([], []));
      root := Node([], []);
      height := 0;
      var _ := RootTruncate(Length(root, rootHead));
    }

    /** The parent of the removed block has no entries, so it is to go as well. */
    lemma {:induction false} ParentDangles()
      requires Orphaned() && 0 < pindex && Here().keys == []
      ensures Dangling() && Keys(LeftTokens()) == Keys(LeftBelow()) && Keys(RightTokens()) == Keys(RightBelow())
    {
      hide Walk, Vcns, Keys, AllFit, Distinct, Route, Left, Right, Tree;
      SidesAt(blocks, root, height, pos, vcn, pindex);
      var a, b, v := LeftTokens(), RightTokens(), vcn[pindex];
      var y, k := Get(blocks, v), height - pindex;
      Focus(blocks, root, height, pos, vcn, 0, pindex);
      Apart(a, Tree(blocks, v, k), b);
      TreeParts(limits, blocks, v, k);
      KeysConcat(a, [Block(v, y, k)]);
      VcnsConcat(a, [Block(v, y, k)]);
      One(v, y, k, Entry(0, 0, 0));
      assert a + [Block(v, y, k)] + [] == a + [Block(v, y, k)] && [] + b == b;
      assert Keys(a) + [] == Keys(a);
    }

    /** The path goes on from entry `q` of node `n` at level `d` to the leaf that starts with the next
        entry. */
    ghost predicate Landed(d: nat, n: Node, q: nat, pos0: seq<nat>, vcn0: seq<int>)
      reads this
    {
      && OnPath() && pindex == height && d < height && pos[height] == 0 && Spine(blocks, pos, vcn, d + 1, height)
      && SamePrefix(pos, pos0, d) && SamePrefix(vcn, vcn0, d + 1)
      && pos[d] == q + 1 && q + 1 < |n.kids| && vcn[d + 1] == n.kids[q + 1]
    }

    /** The descent of `ntfs_index_rm_node`, which gives up at the greatest depth a path can record. */
    method DescendLeft() returns (ok: bool)
      requires Valid({}) && OnPath() && pindex < height && entry < |Here().keys|
      modifies this`pindex, this`pos, this`vcn
      ensures Valid({}) && (!ok ==> height >= MAX_PARENT_VCN)
      ensures ok ==> Landed(old(pindex), old(Here()), entry, old(pos), old(vcn))
    {
      hide Walk, Vcns, Keys, AllFit, Distinct, Route, Fits, Sound, Spine;
      SoundParts(limits, Tokens(), bitmap, {});
      NodeShape();
      ghost var d := pindex;
      if pindex + 1 >= MAX_PARENT_VCN {
        return false;
      }
      StepDown(entry + 1);
      ghost var pos1, vcn1 := pos, vcn;
      SpineEmpty(blocks, pos, vcn, pindex);
      NodeShape();
      while Get(blocks, vcn[pindex]).kids != []
        invariant Valid({}) && OnPath() && d < pindex && pos[pindex] == 0 && Spine(blocks, pos, vcn, d + 1, pindex)
        invariant SamePrefix(pos, pos1, d + 1) && SamePrefix(vcn, vcn1, d + 2)
        invariant Shape(Here(), height - pindex)
        modifies this`pindex, this`pos, this`vcn
        decreases height - pindex
      {
        if pindex + 1 >= MAX_PARENT_VCN {
          return false;
        }
        SpineGrow(blocks, pos, vcn, d + 1, pindex, Get(blocks, vcn[pindex]).kids[0]);
        StepDown(0);
        NodeShape();
      }
      ok := true;
    }

    /** `ntfs_index_walk_down`, which does not look at the depth. */
    method WalkDown()
      requires Valid({}) && OnPath() && height < MAX_PARENT_VCN && pindex < height && entry < |Here().keys|
      modifies this`pindex, this`pos, this`vcn
      ensures Valid({}) && Landed(old(pindex), old(Here()), entry, old(pos), old(vcn))
    {
      hide Walk, Vcns, Keys, AllFit, Distinct, Route, Fits, Sound, Spine;
      SoundParts(limits, Tokens(), bitmap, {});
      NodeShape();
      ghost var d := pindex;
      StepDown(entry + 1);
      ghost var pos1, vcn1 := pos, vcn;
      SpineEmpty(blocks, pos, vcn, pindex);
      NodeShape();
      while Get(blocks, vcn[pindex]).kids != []
        invariant Valid({}) && OnPath() && d < pindex && pos[pindex] == 0 && Spine(blocks, pos, vcn, d + 1, pindex)
        invariant SamePrefix(pos, pos1, d + 1) && SamePrefix(vcn, vcn1, d + 2)
        invariant Shape(Here(), height - pindex)
        modifies this`pindex, this`pos, this`vcn
        decreases height - pindex
      {
        SpineGrow(blocks, pos, vcn, d + 1, pindex, Get(blocks, vcn[pindex]).kids[0]);
        StepDown(0);
        NodeShape();
      }
    }

    /** Record position `p` and go down to its subnode. */
    method StepDown(p: nat)
      requires Valid({}) && OnPath() && pindex < height && pindex + 1 < MAX_PARENT_VCN && p <= |Here().keys|
               && p < |Here().kids|
      modifies this`pindex, this`pos, this`vcn
      ensures Valid({}) && OnPath() && pindex == old(pindex) + 1
      ensures pos == old(pos)[old(pindex) := p][pindex := 0] && vcn == old(vcn)[pindex := old(Here()).kids[p]]
    {
      hide Walk, Vcns, Keys, AllFit, Distinct, Route, Fits, Sound;
      ghost var d, pos0, vcn0 := pindex, pos, vcn;
      var v := NodeAt(blocks, root, vcn, pindex).kids[p];
      pos := pos[pindex := p][pindex + 1 := 0];
      pindex := pindex + 1;
      vcn := vcn[pindex := v];
      PathDown(blocks, root, height, pos0, vcn0, pos, vcn, d);
    }

    /** `ntfs_index_rm_node`: an entry of an inner node is replaced by its successor, which is then removed
        from its leaf.  If the successor is too long for the node, room is made first. */
    method RemoveNode() returns (s: Status)
      requires Valid({}) && Sorted(Listing()) && OnPath() && pindex < height && entry < |Here().keys|
               && inRoot == (pindex == 0)
      modifies this
      ensures Valid({}) && Sorted(Listing()) && (s == Ok || s == KeepSearching || s == Failed)
      ensures s == Ok ==> Gone(old(Listing()), old(Here().keys[entry].key), Listing())
      ensures s == KeepSearching ==> Listing() == old(Listing()) && Potential() < old(Potential())
      ensures s == Failed ==>
              height >= MAX_PARENT_VCN && Faltered(old(Listing()), old(Here().keys[entry].key), Listing())
    {
      hide Walk, Vcns, Keys, AllFit, Distinct, Route, Fits, Sound, Sorted, Gone, Weight, Length, Landed;
      SoundParts(limits, Tokens(), bitmap, {});
      NodeShape();
      NodeLengths();
      var d, q, n := pindex, entry, Here();
      ghost var pos0, vcn0 := pos, vcn;
      var ok := DescendLeft();
      if !ok {
        return Failed;
      }
      s := RemoveAtSuccessor(d, q, n, pos0, vcn0);
    }

    /** The rest of `ntfs_index_rm_node`: the path leads to the leaf of the successor. */
    method RemoveAtSuccessor(d: nat, q: nat, n: Node, ghost pos0: seq<nat>, ghost vcn0: seq<int>) returns (s: Status)
      requires Valid({}) && Sorted(Listing()) && Landed(d, n, q, pos0, vcn0)
               && Route(blocks, root, height, pos0, vcn0, 0, d)
      requires (d > 0 ==> vcn0[d] >= 0 && Fits(limits, n, height - d)) && n == NodeAt(blocks, root, vcn0, d)
      requires Shape(n, height - d) && q < |n.keys| && inRoot == (d == 0)
      modifies this
      ensures Valid({}) && Sorted(Listing()) && (s == Ok || s == KeepSearching || s == Failed)
      ensures s == Ok ==> Gone(old(Listing()), n.keys[q].key, Listing())
      ensures s == KeepSearching ==> Listing() == old(Listing()) && Potential() < old(Potential())
      ensures s == Failed ==> height >= MAX_PARENT_VCN && Faltered(old(Listing()), n.keys[q].key, Listing())
    {
      hide Walk, Vcns, Keys, AllFit, Distinct, Route, Fits, Sound, Sorted, Gone, Weight, Length, Spine, Faltered,
           Swapped;
      SoundParts(limits, Tokens(), bitmap, {});
      PrefixSlices(pos, pos0, vcn, vcn0, d);
      ArraysOf(blocks, root, height, pos0, vcn0, pos, vcn, d);
      BlockFits();
      LeafNotEmpty(limits, Get(blocks, vcn[pindex]));
      var successor := Get(blocks, vcn[pindex]).keys[0];
      s := MakeRoomFor(d, q, n, successor);
      if s == Ok {
        s := ReplaceBySuccessor(d, q, n, successor);
      }
    }

    /** Make sure that `successor` fits in the place of entry `q` of node `n` at level `d`. */
    method MakeRoomFor(d: nat, q: nat, n: Node, successor: Entry) returns (s: Status)
      requires Valid({}) && OnPath() && d < pindex && Route(blocks, root, height, pos, vcn, 0, d) && inRoot == (d == 0)
      requires (d > 0 ==> vcn[d] >= 0 && Fits(limits, n, height - d)) && n == NodeAt(blocks, root, vcn, d)
      requires q < |n.keys| && successor.size <= limits.longest
      modifies this
      ensures s == Ok || s == KeepSearching
      ensures s == Ok ==>
        && Valid({}) && root == old(root) && blocks == old(blocks) && bitmap == old(bitmap) && height == old(height)
        && pindex == old(pindex) && pos == old(pos) && vcn == old(vcn)
        && (d > 0 ==> Fits(limits, Swapped(n, q, successor), height - d))
        && (d == 0 ==>
              && Short(Swapped(n, q, successor).keys, limits.longest)
              && Length(Swapped(n, q, successor), rootHead) <= rootAlloc)
      ensures s == KeepSearching ==> Valid({}) && Listing() == old(Listing()) && Potential() < old(Potential())
      // nothing is to be done for a successor that is not longer
      ensures successor.size <= n.keys[q].size ==> s == Ok && rootAlloc == old(rootAlloc)
    {
      hide Walk, Vcns, Keys, AllFit, Distinct, Route, Fits, Sound, Weight, Length, Bytes;
      SwappedLength(n, q, successor, rootHead, limits.longest);
      if d > 0 {
        SwappedFits(limits, n, q, successor, height - d);
        FitsBound(limits, n, height - d);
      }
      var size := Length(n, if inRoot then rootHead else limits.head) + successor.size - n.keys[q].size;
      if successor.size > n.keys[q].size {
        if inRoot {
          var ok := RootTruncate(size);
          if !ok {
            Reparent({});
            return KeepSearching;
          }
        } else if size > limits.room {
          pindex := d;
          FullBlock(limits, n, height - d, successor.size);
          var _ := SplitBlock({});
          return KeepSearching;
        }
      }
      s := Ok;
    }

    /** The entry `q` of node `n` at level `d` is overwritten by its successor, the first entry of the leaf
        at the end of the path; then that entry or the whole leaf goes. */
    method ReplaceBySuccessor(d: nat, q: nat, n: Node, successor: Entry) returns (s: Status)
      requires Valid({}) && Sorted(Listing()) && OnPath() && d < pindex == height
               && Spine(blocks, pos, vcn, d + 1, height)
      requires (d > 0 ==> vcn[d] >= 0) && n == NodeAt(blocks, root, vcn, d) && Shape(n, height - d) && q < |n.keys|
      requires pos[d] == q + 1 && vcn[d + 1] == n.kids[q + 1]
      requires Get(blocks, vcn[pindex]).keys != [] && successor == Get(blocks, vcn[pindex]).keys[0]
      requires d > 0 ==> Fits(limits, Swapped(n, q, successor), height - d)
      requires d == 0 ==>
               && Short(Swapped(n, q, successor).keys, limits.longest)
               && Length(Swapped(n, q, successor), rootHead) <= rootAlloc
      modifies this
      ensures Valid({}) && Sorted(Listing()) && (s == Ok || s == Failed)
      ensures s == Ok ==> Gone(old(Listing()), n.keys[q].key, Listing())
      ensures s == Failed ==> height >= MAX_PARENT_VCN && Faltered(old(Listing()), n.keys[q].key, Listing())
    {
      hide Walk, Vcns, Keys, AllFit, Distinct, Route, Fits, Sound, Sorted, Gone, Weight, Length, Spine, Bytes, LeftOf,
           RightOf, Marks, Faltered, OneLost;
      var leaf := Get(blocks, vcn[pindex]);
      ghost var a, b := SwapLeaf(limits, blocks, root, height, pos, vcn, d, q, successor, bitmap);
      SortedWithout(a, b, n.keys[q]);
      GoneFrom(a, n.keys[q], b);
      FalteredAfter(a + [n.keys[q]] + b, n.keys[q].key, a + b);
      var y := Swapped(n, q, successor);
      if d == 0 {
        root := y;
        var _ := RootTruncate(Length(y, rootHead));
      } else {
        blocks := blocks[vcn[d] := y];
      }
      if |leaf.keys| == 1 {
        LeafMarks(limits, blocks, root, height, pos, vcn, bitmap);
        SoundParts(limits, Tokens(), bitmap, {});
        assert leaf.keys[1..] == [] && a + [successor] + [] == a + [successor];
        s := RemoveLeaf();
      } else {
        FirstDeleted(a + [successor], leaf.keys, Keys(RightOf(blocks, root, height, pos, vcn, pindex)));
        DeleteFromLeaf(0, {});
        s := Ok;
      }
    }

    /** `ntfs_ie_delete` of one of several entries of a leaf, or of an entry of a root without subnodes. */
    method DeleteFromLeaf(p: nat, ghost extra: set<nat>)
      requires Valid(extra) && OnPath() && pindex == height && p < |Here().keys| && (pindex == 0 || |Here().keys| > 1)
      modifies this`root, this`blocks, this`rootAlloc
      ensures Valid(extra) && rootAlloc == if pindex == 0 then Length(root, rootHead) else old(rootAlloc)
      ensures var y := old(Here());
              && old(Listing()) == old(Keys(LeftOf(blocks, root, height, pos, vcn, pindex))) + y.keys[..p] + [y.keys[p]]
                                + (y.keys[p + 1..] + old(Keys(RightOf(blocks, root, height, pos, vcn, pindex))))
              && Listing() == old(Keys(LeftOf(blocks, root, height, pos, vcn, pindex))) + y.keys[..p]
                              + (y.keys[p + 1..] + old(Keys(RightOf(blocks, root, height, pos, vcn, pindex))))
    {
      hide Walk, Vcns, Keys, AllFit, Distinct, Route, Fits, LeftOf, RightOf, Sound, Length;
      var y := Here();
      var y' := Node(Cut(y.keys, p), []);
      SoundParts(limits, Tokens(), bitmap, extra);
      NodeShape();
      DeletedLength(y, p, limits.longest);
      LeafPlace(blocks, root, height, pos, vcn, p);
      LeafFits(limits, blocks, y);
      LeafFits(limits, blocks, y');
      if pindex > 0 {
        BlockFits();
        DeletedFits(limits, y, p);
      }
      NodeRekey(limits, blocks, root, height, pos, vcn, pindex, y', bitmap, extra);
      DeletionSeqs(Keys(LeftOf(blocks, root, height, pos, vcn, pindex)), y.keys,
                   Keys(RightOf(blocks, root, height, pos, vcn, pindex)), p);
      WriteNode(y');
      if pindex == 0 {
        var _ := RootTruncate(Length(root, rootHead));
      }
    }

    /** `ntfs_index_rm`: remove the entry the context points at. */
    method RemoveEntry() returns (s: Status)
      requires Valid({}) && Sorted(Listing()) && OnPath() && entry <= |Here().keys| && inRoot == (pindex == 0)
      modifies this
      ensures Valid({}) && Sorted(Listing()) && (s == Ok || s == KeepSearching || s == Failed)
      ensures s == Ok ==> old(entry < |Here().keys|) && Gone(old(Listing()), old(Here().keys[entry].key), Listing())
      ensures s == KeepSearching ==> Listing() == old(Listing()) && Potential() < old(Potential())
      ensures s == Failed ==>
              if old(entry == |Here().keys|) then Listing() == old(Listing())
              else height >= MAX_PARENT_VCN && Faltered(old(Listing()), old(Here().keys[entry].key), Listing())
    {
      hide Walk, Vcns, Keys, AllFit, Distinct, Route, Fits, Sound, Sorted, Gone, Weight, Length, LeftOf, RightOf, Marks,
           Faltered, OneLost;
      SoundParts(limits, Tokens(), bitmap, {});
      NodeShape();
      var n := Here();
      if entry == |n.keys| {
        return Failed;
      }
      if n.kids != [] {
        s := RemoveNode();
        return;
      }
      LeafPlace(blocks, root, height, pos, vcn, entry);
      ghost var a, b := Keys(LeftOf(blocks, root, height, pos, vcn, pindex)),
          Keys(RightOf(blocks, root, height, pos, vcn, pindex));
      ghost var below, above := a + n.keys[..entry], n.keys[entry + 1..] + b;
      DeletionSeqs(a, n.keys, b, entry);
      SortedWithout(below, above, n.keys[entry]);
      GoneFrom(below, n.keys[entry], above);
      FalteredAfter(Listing(), n.keys[entry].key, below + above);
      if inRoot || |n.keys| != 1 {
        DeleteFromLeaf(entry, {});
        s := Ok;
      } else {
        LeafMarks(limits, blocks, root, height, pos, vcn, bitmap);
        OnlyEntry(a, n.keys, b);
        s := RemoveLeaf();
      }
    }

    /** `ntfs_index_remove`: look the key up and remove its entry, again after every restructuring. */
    method Remove(key: int) returns (s: Status)
      requires Valid({}) && Sorted(Listing()) && pindex == 0
      modifies this
      ensures Valid({}) && Sorted(Listing()) && (s == Ok || s == NotFound || s == Failed)
      ensures s == Ok ==> HasKey(old(Listing()), key) && Gone(old(Listing()), key, Listing())
      ensures s == NotFound ==> !HasKey(old(Listing()), key) && Listing() == old(Listing())
      ensures s == Failed ==> height >= MAX_PARENT_VCN && Faltered(old(Listing()), key, Listing())
    {
      hide Walk, Vcns, Keys, AllFit, Distinct, Route, Fits, Sound, Sorted, Gone, Weight, HasKey, AtPlace;
      while true
        invariant Valid({}) && Sorted(Listing()) && Listing() == old(Listing()) && pindex == 0
        decreases Potential()
      {
        s := Lookup(key, {});
        if s != Ok {
          return;
        }
        s := RemoveEntry();
        if s != KeepSearching {
          return;
        }
        pindex := 0;
      }
    }

    /** The entries before the one pointed at. */
    ghost function PassedHere(): seq<Entry>
      requires OnPath() && entry <= |Here().keys|
      reads this
    {
      Passed(blocks, root, height, pos, vcn, pindex, entry)
    }

    /** `ntfs_index_walk_up`: from the end of a node to the first ancestor that has an entry there. */
    method WalkUp() returns (ok: bool)
      requires Valid({}) && OnPath() && entry == |Here().keys|
      modifies this`pindex, this`entry, this`inRoot
      ensures Valid({}) && OnPath() && entry <= |Here().keys| && PassedHere() == old(PassedHere())
      ensures ok ==> pos[pindex] == entry && (entry < |Here().keys| || pindex == 0) && inRoot == (pindex == 0)
      ensures !ok ==> pindex == 0 && entry == |Here().keys|
    {
      hide Walk, Vcns, Keys, AllFit, Distinct, Route, Fits, Sound, Passed;
      if pindex == 0 {
        return false;
      }
      PassedUp(blocks, root, height, pos, vcn, pindex - 1);
      pindex := pindex - 1;
      entry := pos[pindex];
      while pindex > 0 && entry == |NodeAt(blocks, root, vcn, pindex).keys|
        invariant Valid({}) && OnPath() && entry <= |Here().keys| && pos[pindex] == entry
        invariant PassedHere() == old(PassedHere())
        modifies this`pindex, this`entry
        decreases pindex
      {
        PassedUp(blocks, root, height, pos, vcn, pindex - 1);
        pindex := pindex - 1;
        entry := pos[pindex];
      }
      inRoot := pindex == 0;
      ok := true;
    }

    /** The context points at an entry or at the end of a node; in an inner node its number is recorded. */
    ghost predicate AtEntry()
      reads this
    {
      OnPath() && entry <= |Here().keys| && (entry < |Here().keys| && pindex < height ==> pos[pindex] == entry)
    }

    /** `ntfs_index_next`: go on to the next entry in collation order, if there is one. */
    method Next() returns (more: bool)
      requires Valid({}) && AtEntry() && height < MAX_PARENT_VCN
      modifies this`pindex, this`pos, this`vcn, this`entry, this`inRoot
      ensures Valid({}) && AtEntry()
      ensures var done := old(PassedHere())
              + (if old(entry < |Here().keys|) then [old(Here()).keys[old(entry)]] else []);
              if more then entry < |Here().keys| && PassedHere() == done else Listing() == done
      ensures old(inRoot == (pindex == 0)) && more ==> inRoot == (pindex == 0)
    {
      hide Walk, Vcns, Keys, AllFit, Distinct, Route, Fits, Sound, Passed, Spine;
      SoundParts(limits, Tokens(), bitmap, {});
      NodeShape();
      var n := NodeAt(blocks, root, vcn, pindex);
      var ok := true;
      if entry == |n.keys| {
        ok := WalkUp();
      } else if n.kids != [] {
        DownToLeaf();
      } else {
        StepRight();
        if entry == |n.keys| {
          ok := WalkUp();
        }
      }
      EntryFollows(blocks, root, height, pos, vcn, pindex, entry);
      more := ok && entry < |NodeAt(blocks, root, vcn, pindex).keys|;
    }

    method StepRight()
      requires Valid({}) && OnPath() && pindex == height && entry < |Here().keys|
      modifies this`pos, this`entry
      ensures Valid({}) && OnPath() && Here() == old(Here()) && entry == old(entry) + 1
      ensures pos == old(pos)[pindex := old(pos)[pindex] + 1]
      ensures PassedHere() == old(PassedHere()) + [Here().keys[old(entry)]]
    {
      hide Walk, Vcns, Keys, AllFit, Distinct, Route, Fits, Sound, LeftOf, RightOf;
      PassedNext(blocks, root, height, pos, vcn, entry);
      ArraysOf(blocks, root, height, pos, vcn, pos[pindex := pos[pindex] + 1], vcn, pindex);
      pos := pos[pindex := pos[pindex] + 1];
      entry := entry + 1;
    }

    method DownToLeaf()
      requires Valid({}) && OnPath() && height < MAX_PARENT_VCN && pindex < height && entry < |Here().keys|
      modifies this`pindex, this`pos, this`vcn, this`entry, this`inRoot
      ensures Valid({}) && OnPath() && pindex == height && entry == pos[pindex] == 0 && entry < |Here().keys| && !inRoot
      ensures PassedHere() == old(PassedHere()) + [old(Here()).keys[old(entry)]]
    {
      hide Walk, Vcns, Keys, AllFit, Distinct, Route, Fits, Sound, LeftOf, RightOf, Spine, Before, Sub;
      SoundParts(limits, Tokens(), bitmap, {});
      NodeShape();
      ghost var d, q, pos0, vcn0 := pindex, entry, pos, vcn;
      WalkDown();
      PrefixSlices(pos, pos0, vcn, vcn0, d);
      ArraysOf(blocks, root, height, pos0, vcn0, pos, vcn, d);
      PassedDown(blocks, root, height, pos, vcn, d, q);
      BlockFits();
      LeafNotEmpty(limits, Get(blocks, vcn[pindex]));
      inRoot := false;
      entry := 0;
    }

    /** A lookup followed by calls of `ntfs_index_next` visits exactly the entries from the key on, in
        order, whether the key is there or not. */
    method ListFrom(key: int) returns (s: Status, r: seq<Entry>)
      requires Valid({}) && Sorted(Listing()) && pindex == 0 && height < MAX_PARENT_VCN
      modifies this`pindex, this`pos, this`vcn, this`entry, this`inRoot
      ensures Valid({}) && (s == Ok <==> HasKey(Listing(), key)) && (s == Ok || s == NotFound)
      ensures r == Listing()[Rank(Listing(), key)..]
    {
      hide Walk, Vcns, Keys, AllFit, Distinct, Route, Fits, Sound, Passed, HasKey, Sorted, AtPlace;
      s := Lookup(key, {});
      AtLeafOrFound(key, s);
      PlaceIsRank(key, s);
      r := ListRest();
    }

    lemma {:induction false} AtLeafOrFound(key: int, s: Status)
      requires s == Ok ==> OnPath() && entry < |Here().keys|
      requires s != Ok ==> AtPlace(key)
      ensures OnPath() && entry <= |Here().keys|
    {
    }

    /** The entry pointed at, unless it is the end of a node, and all entries after it. */
    method ListRest() returns (r: seq<Entry>)
      requires Valid({}) && AtEntry() && height < MAX_PARENT_VCN
      requires |PassedHere()| <= |Listing()| && Listing()[..|PassedHere()|] == PassedHere()
      modifies this`pindex, this`pos, this`vcn, this`entry, this`inRoot
      ensures Valid({}) && r == Listing()[|old(PassedHere())|..]
    {
      hide Walk, Vcns, Keys, AllFit, Distinct, Route, Fits, Sound, Passed, LeftOf, RightOf;
      ghost var all, first := Listing(), |PassedHere()|;
      r := [];
      var more := true;
      if entry == |NodeAt(blocks, root, vcn, pindex).keys| {
        more := Next();
      }
      while more
        invariant Valid({}) && AtEntry() && Listing() == all && first <= |all|
        invariant if more then entry < |Here().keys| && PassedHere() == all[..first] + r else all == all[..first] + r
        modifies this`pindex, this`pos, this`vcn, this`entry, this`inRoot
        decreases |all| - |r|, more
      {
        EntryFollows(blocks, root, height, pos, vcn, pindex, entry);
        r := r + [NodeAt(blocks, root, vcn, pindex).keys[entry]];
        more := Next();
      }
      assert all[first..] == r;
    }

    /** After a lookup exactly the smaller entries have been passed. */
    lemma {:induction false} PlaceIsRank(key: int, s: Status)
      requires OnPath() && Sorted(Listing()) && entry <= |Here().keys|
      requires s == Ok ==> entry < |Here().keys| && Here().keys[entry].key == key && pos[pindex] == entry
      requires s != Ok ==> AtPlace(key)
      ensures AtEntry() && |PassedHere()| == Rank(Listing(), key) <= |Listing()|
              && Listing()[..|PassedHere()|] == PassedHere()
    {
      hide Walk, Keys, Route, Passed, Sorted, LeftOf, RightOf, AllBelow, AllAbove;
      EntryFollows(blocks, root, height, pos, vcn, pindex, entry);
      if s == Ok {
        SortedRank(Listing(), |PassedHere()|);
      } else {
        PassedLeaf(blocks, root, height, pos, vcn, entry);
        LeafPlace(blocks, root, height, pos, vcn, entry);
        var a := PassedHere();
        var b := Here().keys[entry..] + Keys(RightOf(blocks, root, height, pos, vcn, pindex));
        assert Listing() == a + b;
        assert (a + b)[..|a|] == a && (a + b)[|a|..] == b;
        RankIs(Listing(), key, |a|);
      }
    }

    /** Any run of insertions and removals does to the index what it does to a sorted list of entries. */
    method Replay(ops: seq<Op>) returns (ok: bool, ghost done: nat)
      requires Valid({}) && Sorted(Listing()) && pindex == 0
      requires forall i :: 0 <= i < |ops| && ops[i].Insert? ==> ops[i].entry.size <= limits.longest
      modifies this
      ensures Valid({}) && Sorted(Listing())
      ensures ok ==> Listing() == AfterAll(old(Listing()), ops)
      ensures !ok ==>
              && height >= MAX_PARENT_VCN && done < |ops|
              && Stopped(AfterAll(old(Listing()), ops[..done]), ops[done], Listing())
    {
      hide Walk, Vcns, Keys, AllFit, Distinct, Route, Fits, Sound, Sorted, HasKey, Placed, Gone, Weight, Inserted, Cut,
           Faltered, AfterAll, AfterOp;
      var i := 0;
      AfterNone(Listing(), ops[..0]);
      while i < |ops|
        invariant Valid({}) && Sorted(Listing()) && pindex == 0 && i <= |ops|
        invariant Listing() == AfterAll(old(Listing()), ops[..i])
      {
        ghost var was := Listing();
        AfterSnoc(old(Listing()), ops, i);
        var s;
        if ops[i].Insert? {
          s := Add(ops[i].entry, {});
        } else {
          s := Remove(ops[i].key);
        }
        if s == Failed {
          return false, i;
        }
        AfterIsUnique(was, ops[i], Listing());
        pindex := 0;
        i := i + 1;
      }
      assert ops[..i] == ops;
      ok, done := true, i;
    }

    lemma {:induction false} NodeLengths()
      requires OnPath() && AllFit(limits, Tokens()) && RootFits()
      ensures Short(Here().keys, limits.longest) && (pindex > 0 ==> Fits(limits, Here(), height - pindex))
      ensures Length(Here(), if pindex == 0 then rootHead else limits.head)
              <= (if pindex == 0 then rootAlloc else limits.room)
    {
      if pindex > 0 {
        BlockFits();
      }
    }

    lemma {:induction false} NodeSizes()
      requires OnPath() && AllFit(limits, Tokens()) && RootFits() && pindex < height
      ensures var n, q := Here(), pos[pindex];
              && (forall i :: 0 <= i < |n.keys| ==> n.keys[i].size <= limits.longest) && |n.kids| == |n.keys| + 1
              && (pindex > 0 ==> Fits(limits, n, height - pindex))
              && (q < |n.keys| ==>
                    && Short(Shrunk(n, q).keys, limits.longest)
                    && Length(Shrunk(n, q), rootHead) <= Length(n, rootHead))
              && (n.keys != [] ==>
                    && Short(Ended(n).keys, limits.longest)
                    && Length(Ended(n), rootHead) <= Length(n, rootHead))
    {
      hide Walk, AllFit, Length;
      NodeShape();
      var n, q := Here(), pos[pindex];
      if pindex > 0 {
        BlockFits();
        BlockShort();
      }
      if q < |n.keys| {
        ShrunkLength(n, q, rootHead, limits.longest);
      }
      if n.keys != [] {
        EndedLength(n, rootHead, limits.longest);
      }
    }

    lemma {:induction false} NodeShape()
      requires OnPath() && AllFit(limits, Tokens()) && Shape(root, height)
      ensures Shape(Here(), height - pindex)
    {
      if pindex > 0 {
        BlockShort();
      }
    }

    lemma {:induction false} BlockShort()
      requires OnPath() && pindex > 0 && AllFit(limits, Tokens())
      ensures Shape(Get(blocks, vcn[pindex]), height - pindex) && Short(Get(blocks, vcn[pindex]).keys, limits.longest)
    {
      BlockFits();
    }

    lemma {:induction false} BlockFits()
      requires OnPath() && pindex > 0 && AllFit(limits, Tokens())
      ensures Fits(limits, Get(blocks, vcn[pindex]), height - pindex)
    {
      hide Walk, Tree, Left, Right, Route, Fits, AllFit;
      Focus(blocks, root, height, pos, vcn, 0, pindex);
      var a, b := Left(blocks, root, height, pos, vcn, 0, pindex), Right(blocks, root, height, pos, vcn, 0, pindex);
      Fit3(limits, a, Tree(blocks, vcn[pindex], height - pindex), b);
      TreeParts(limits, blocks, vcn[pindex], height - pindex);
    }
  }

  lemma {:induction false} NothingAround(m: Store, x: Node, h: nat, pos: seq<nat>, vcn: seq<int>, key: int)
    ensures Between(m, x, h, pos, vcn, 0, key)
  {
    KeysNone();
  }

  lemma {:induction false} LeafInsertion<T>(a: seq<T>, s: seq<T>, b: seq<T>, p: nat, e: T)
    requires p <= |s|
    ensures a + Inserted(s, p, e) + b == (a + s[..p]) + [e] + (s[p..] + b)
  {
  }

  lemma {:induction false} InsertedLength(x: Node, p: nat, e: Entry, longest: nat)
    requires p <= |x.keys|
    ensures forall h: nat :: Length(Node(Inserted(x.keys, p, e), x.kids), h) == Length(x, h) + e.size
    ensures Short(x.keys, longest) && e.size <= longest ==> Short(Inserted(x.keys, p, e), longest)
  {
    assert x.keys == x.keys[..p] + x.keys[p..];
    BytesConcat(x.keys[..p], x.keys[p..]);
    BytesConcat(x.keys[..p] + [e], x.keys[p..]);
    BytesConcat(x.keys[..p], [e]);
    assert Bytes([e]) == e.size + Bytes([e][1..]);
  }

  lemma {:induction false} InsertedFits(l: Limits, x: Node, p: nat, e: Entry)
    requires Fits(l, x, 0) && p <= |x.keys| && e.size <= l.longest && Length(x, l.head) + e.size <= l.room
    ensures Fits(l, Node(Inserted(x.keys, p, e), []), 0)
  {
    InsertedLength(x, p, e, l.longest);
  }

  lemma {:induction false} TakeoutSplit<T>(a: seq<T>, b: seq<T>)
    ensures b != [] ==> a + [b[0]] + b[1..] == a + b && b[..|b| - 1] + [b[|b| - 1]] + a == b + a
  {
  }

  lemma {:induction false} PrefixSlices(pos: seq<nat>, pos0: seq<nat>, vcn: seq<int>, vcn0: seq<int>, d: nat)
    requires SamePrefix(pos, pos0, d) && SamePrefix(vcn, vcn0, d + 1)
    ensures pos[..d] == pos0[..d] && vcn[..d + 1] == vcn0[..d + 1]
  {
  }

  ghost predicate SamePrefix<T(!new)>(s: seq<T>, t: seq<T>, n: nat) {
    n <= |s| == |t| && forall i :: 0 <= i < n ==> s[i] == t[i]
  }

  lemma {:induction false} SpineEmpty(m: Store, pos: seq<nat>, vcn: seq<int>, c: nat)
    requires c < |pos| == |vcn|
    ensures Spine(m, pos, vcn, c, c)
  {
  }

  lemma {:induction false} FitsBound(l: Limits, x: Node, h: nat)
    requires Fits(l, x, h)
    ensures Length(x, l.head) <= l.room
  {
  }

  lemma {:induction false} LeafNotEmpty(l: Limits, x: Node)
    requires Fits(l, x, 0)
    ensures x.keys != [] && x.keys[0].size <= l.longest
  {
  }

  lemma {:induction false} SwappedLength(x: Node, q: nat, e: Entry, head: nat, longest: nat)
    requires q < |x.keys|
    ensures Length(Swapped(x, q, e), head) + x.keys[q].size == Length(x, head) + e.size
    ensures Short(x.keys, longest) && e.size <= longest ==> Short(Swapped(x, q, e).keys, longest)
  {
    var keys := x.keys[q := e];
    assert Cut(keys, q) == Cut(x.keys, q);
    DeletedBytes(x.keys, q);
    DeletedBytes(keys, q);
  }

  lemma {:induction false} SwappedFits(l: Limits, x: Node, q: nat, e: Entry, h: nat)
    requires Fits(l, x, h) && q < |x.keys| && e.size <= l.longest
    ensures Length(x, l.head) + e.size - x.keys[q].size <= l.room ==> Fits(l, Swapped(x, q, e), h)
  {
    SwappedLength(x, q, e, l.head, l.longest);
  }

  lemma {:induction false} FirstDeleted<T>(a: seq<T>, k: seq<T>, r: seq<T>)
    requires k != []
    ensures a + k[1..] + r == a + k[..0] + (k[1..] + r)
  {
  }

  lemma {:induction false} DeletedLength(x: Node, p: nat, longest: nat)
    requires p < |x.keys|
    ensures forall head: nat :: Length(Node(Cut(x.keys, p), x.kids), head) <= Length(x, head)
    ensures Short(x.keys, longest) ==> Short(Cut(x.keys, p), longest)
  {
    DeletedBytes(x.keys, p);
  }

  lemma {:induction false} DeletedFits(l: Limits, x: Node, p: nat)
    requires Fits(l, x, 0) && p < |x.keys| && |x.keys| > 1
    ensures Fits(l, Node(Cut(x.keys, p), []), 0)
  {
    DeletedLength(x, p, l.longest);
  }

  lemma {:induction false} DeletionSeqs<T>(a: seq<T>, s: seq<T>, b: seq<T>, p: nat)
    requires p < |s|
    ensures (a + s[..p]) + (s[p..] + b) == a + s[..p] + [s[p]] + (s[p + 1..] + b)
    ensures a + Cut(s, p) + b == a + s[..p] + (s[p + 1..] + b)
  {
    assert s[p..] == [s[p]] + s[p + 1..];
  }

  lemma {:induction false} OnlyEntry<T>(a: seq<T>, s: seq<T>, b: seq<T>)
    requires |s| == 1
    ensures (a + s[..0]) + (s[1..] + b) == a + b
  {
  }

  lemma {:induction false} AfterNone(s: seq<Entry>, ops: seq<Op>)
    requires |ops| == 0
    ensures AfterAll(s, ops) == s
  {
  }

  lemma {:induction false} SoundParts(l: Limits, t: seq<Token>, used: set<nat>, extra: set<nat>)
    requires Sound(l, t, used, extra)
    ensures AllFit(l, t) && Distinct(Vcns(t))
  {
  }

  /** A block number taken but not part of the index yet. */
  lemma {:induction false} Reserve(l: Limits, t: seq<Token>, used: set<nat>, extra: set<nat>, w: nat)
    requires Sound(l, t, used, extra) && w !in used
    ensures Sound(l, t, used + {w}, extra + {w}) && w !in Vcns(t) && w !in extra
  {
  }

  lemma {:induction false} Release(l: Limits, t: seq<Token>, used: set<nat>, extra: set<nat>, w: nat)
    requires Sound(l, t, used, extra + {w}) && w !in extra
    ensures Sound(l, t, used - {w}, extra)
  {
  }

  lemma {:induction false} KidApart(m: Store, x: Node, h: nat, pos: seq<nat>, vcn: seq<int>, d: nat)
    requires 0 < d < h && Route(m, x, h, pos, vcn, 0, d) && d < |pos| == |vcn| && vcn[d] >= 0
             && Distinct(Vcns(Walk(m, x, 0, h)))
    requires var y := Get(m, vcn[d]); Shape(y, h - d) && pos[d] <= |y.keys|
    ensures Get(m, vcn[d]).kids[pos[d]] != vcn[d]
  {
    hide Walk, Tree, Left, Right, Vcns, Distinct, Route;
    var p := vcn[d];
    Focus(m, x, h, pos, vcn, 0, d);
    Apart(Left(m, x, h, pos, vcn, 0, d), Tree(m, p, h - d), Right(m, x, h, pos, vcn, 0, d));
    TreeParts(Limits(0, 0, 0), m, p, h - d);
    HeadApart(p, Vcns(Walk(m, Get(m, p), 0, h - d)));
    TailDistinct(p, Vcns(Walk(m, Get(m, p), 0, h - d)));
    ApartRow(m, Get(m, p), pos[d], h - d);
  }

  lemma {:induction false} GrownLength(x: Node, q: nat, e: Entry, w: nat, head: nat, longest: nat)
    requires q <= |x.keys| && |x.kids| == |x.keys| + 1
    ensures Length(Grown(x, q, e, w), head) == Length(x, head) + e.size + VCN_SIZE
    ensures Short(x.keys, longest) && e.size <= longest ==> Short(Grown(x, q, e, w).keys, longest)
  {
    assert x.keys == x.keys[..q] + x.keys[q..];
    BytesConcat(x.keys[..q], x.keys[q..]);
    BytesConcat(x.keys[..q] + [e], x.keys[q..]);
    BytesConcat(x.keys[..q], [e]);
    assert Bytes([e]) == e.size + Bytes([e][1..]);
  }

  lemma {:induction false} GrownFits(l: Limits, x: Node, q: nat, e: Entry, w: nat, h: nat)
    requires Fits(l, x, h) && h > 0 && q <= |x.keys| && e.size <= l.longest
    ensures |x.kids| == |x.keys| + 1
    ensures Length(x, l.head) + e.size + VCN_SIZE <= l.room ==> Fits(l, Grown(x, q, e, w), h)
  {
    GrownLength(x, q, e, w, l.head, l.longest);
  }

  /** A block without room for one more entry has at least three. */
  lemma {:induction false} FullBlock(l: Limits, x: Node, h: nat, size: nat)
    requires Roomy(l) && Fits(l, x, h) && size <= l.longest + 2 * VCN_SIZE && Length(x, l.head) + size > l.room
    ensures |x.keys| >= 3
  {
    BytesBound(x.keys, l.longest);
  }
}

/** The bytes of a file: what its extents and the device say together, independently of the order in
    which blocks were provisioned and written. */
module FileData {
  import opened Base
  import opened Device
  import opened BlockAlloc
  import opened ExtentNode
  import opened ExtentMap
  import opened ExtentLookup
  import opened ExtentView
  import opened ExtentAppend

  // ---- the tree that lookups walk is the shape that writes build ----

  lemma {:induction false} IndexOfView(disk: Disk, bs: nat, idx: seq<Idx>, hi: nat)
    requires bs >= 12 && forall i :: 0 <= i < |idx| ==> IsLeaf(disk, bs, idx[i].child)
    requires Keyed(LeavesAt(disk, bs, idx), Keys(idx), hi)
    ensures WellFormedIndex(disk, bs, idx, 1, 0, hi) && LevelsOf(disk, bs, idx, 1)
    ensures CollectIndex(disk, bs, idx, 1) == Flatten(LeavesAt(disk, bs, idx))
  {
    hide NodeAt, LeafAt;
    if idx != [] {
      var n := |idx| - 1;
      assert IsLeaf(disk, bs, idx[n].child);
      assert LeavesAt(disk, bs, idx)[..n] == LeavesAt(disk, bs, idx[..n]) && Keys(idx)[..n] == Keys(idx[..n]);
      IndexOfView(disk, bs, idx[..n], idx[n].key);
    }
  }

  /** A shape in order is a well-formed tree: lookups in it scan the list of all its extents. */
  lemma OrderedIsTree(disk: Disk, bs: nat, root: Node, l: nat)
    requires bs >= 12 && NodesOk(disk, bs, root) && Ordered(ViewOf(disk, bs, root))
    ensures WellFormed(disk, bs, root, 0, U32 - 1) && Levels(disk, bs, root)
    ensures Collect(disk, bs, root) == All(ViewOf(disk, bs, root))
    ensures Lookup(disk, bs, root, l) == Ok(FindPhys(All(ViewOf(disk, bs, root)), l))
  {
    hide NodeAt, LeafAt, IsLeaf, Lookup;
    if root.Inner? {
      IndexOfView(disk, bs, root.idx, U32 - 1);
    } else {
      FlattenSnoc([], root.extents);
      assert [root.extents] == [] + [root.extents] && Flatten([]) + root.extents == root.extents;
    }
    LookupsAgree(disk, bs, root, 0, U32 - 1, l);
  }

  lemma ViewIsTree(disk: Disk, bs: nat, root: Node, m: nat, l: nat)
    requires bs >= 12 && NodesOk(disk, bs, root) && WellShaped(ViewOf(disk, bs, root), m)
    ensures WellFormed(disk, bs, root, 0, U32 - 1) && Levels(disk, bs, root)
    ensures Collect(disk, bs, root) == All(ViewOf(disk, bs, root))
    ensures Lookup(disk, bs, root, l) == Ok(FindPhys(All(ViewOf(disk, bs, root)), l))
  {
    hide NodesOk, ViewOf, Lookup, Levels, WellFormed, Collect, Keyed, Sorted;
    OrderedIsTree(disk, bs, root, l);
  }

  /** `was` is the root as it was before any number of appends that led to `root`. */
  ghost predicate Outdated(was: Node, root: Node, end: nat) {
    if was.Leaf? then Sorted(was.extents) && EndOf(was.extents) <= end
    else root.Inner? && was.idx <= root.idx && was.depth == root.depth
  }

  lemma {:induction false} IndexPrefix(disk: Disk, bs: nat, idx: seq<Idx>, q: nat, hi: nat)
    requires bs >= 12 && q <= |idx| && WellFormedIndex(disk, bs, idx, 1, 0, hi) && LevelsOf(disk, bs, idx, 1)
    ensures LevelsOf(disk, bs, idx[..q], 1) && WellFormedIndex(disk, bs, idx[..q], 1, 0, hi)
    ensures Sorted(CollectIndex(disk, bs, idx[..q], 1))
    ensures EndOf(CollectIndex(disk, bs, idx[..q], 1)) <= EndOf(CollectIndex(disk, bs, idx, 1))
  {
    hide NodeAt, WellFormedIndex, LevelsOf, CollectIndex, Sorted, EndOf;
    CollectIndexSorted(disk, bs, idx, 1, 0, hi);
    if q < |idx| {
      var n := |idx| - 1;
      IndexInit(disk, bs, idx, hi);
      IndexPrefix(disk, bs, idx[..n], q, hi);
      assert idx[..n][..q] == idx[..q];
      EndsLater(disk, bs, idx, hi);
    } else {
      assert idx[..q] == idx;
    }
  }

  lemma IndexInit(disk: Disk, bs: nat, idx: seq<Idx>, hi: nat)
    requires bs >= 12 && idx != [] && WellFormedIndex(disk, bs, idx, 1, 0, hi) && LevelsOf(disk, bs, idx, 1)
    ensures WellFormedIndex(disk, bs, idx[..|idx| - 1], 1, 0, hi) && LevelsOf(disk, bs, idx[..|idx| - 1], 1)
  {
    hide NodeAt, WellFormed, Levels;
    IndexWider(disk, bs, idx[..|idx| - 1], 0, idx[|idx| - 1].key, hi);
  }

  lemma {:induction false} IndexWider(disk: Disk, bs: nat, idx: seq<Idx>, lo: nat, hi: nat, hi': nat)
    requires WellFormedIndex(disk, bs, idx, 1, lo, hi) && hi <= hi'
    ensures WellFormedIndex(disk, bs, idx, 1, lo, hi')
  {
    hide NodeAt;
  }

  lemma EndsLater(disk: Disk, bs: nat, idx: seq<Idx>, hi: nat)
    requires bs >= 12 && idx != [] && WellFormedIndex(disk, bs, idx, 1, 0, hi) && LevelsOf(disk, bs, idx, 1)
    ensures EndOf(CollectIndex(disk, bs, idx[..|idx| - 1], 1)) <= EndOf(CollectIndex(disk, bs, idx, 1))
  {
    hide NodeAt;
    var n := |idx| - 1;
    var init, leaf := CollectIndex(disk, bs, idx[..n], 1), Collect(disk, bs, NodeAt(disk, bs, idx[n].child).value);
    CollectIndexSorted(disk, bs, idx[..n], 1, 0, idx[n].key);
    CollectSorted(disk, bs, NodeAt(disk, bs, idx[n].child).value, idx[n].key, hi);
    ConcatSorted(init, leaf);
    if leaf != [] { SortedPairs(leaf); }
  }

  /** A lookup through an outdated root still finds nothing past the end of the file. */
  lemma OutdatedLookup(disk: Disk, bs: nat, was: Node, root: Node, m: nat, l: nat)
    requires bs >= 12 && NodesOk(disk, bs, root) && WellShaped(ViewOf(disk, bs, root), m)
    requires EndOf(All(ViewOf(disk, bs, root))) <= l && Outdated(was, root, l)
    ensures Levels(disk, bs, was) && Lookup(disk, bs, was, l) == Ok(None)
  {
    hide NodeAt, LeafAt, IsLeaf;
    if was.Leaf? {
      FindPast(was.extents, l);
    } else {
      ViewIsTree(disk, bs, root, m, l);
      IndexPrefix(disk, bs, root.idx, |was.idx|, U32 - 1);
      assert root.idx[..|was.idx|] == was.idx;
      FindPast(CollectIndex(disk, bs, was.idx, 1), l);
      LookupIsFind(disk, bs, was, 0, U32 - 1, l);
    }
  }

  // ---- the bytes of a file ----

  /** Logical block `l` of a file; a block that is not mapped reads as zeros. */
  function BlockData(disk: Disk, bs: nat, es: seq<Extent>, l: nat): (data: Bytes)
    ensures |data| == bs
  {
    match FindPhys(es, l)
    case Some(p) => ReadAt(disk, bs, p)
    case None => Zeros(bs)
  }

  /** Byte `pos` of a file. */
  function FileByte(disk: Disk, bs: nat, es: seq<Extent>, pos: nat): byte
    requires bs > 0
  {
    BlockData(disk, bs, es, pos / bs)[pos % bs]
  }

  /** Both files hold the same bytes. */
  ghost predicate SameData(bs: nat, disk: Disk, es: seq<Extent>, disk': Disk, es': seq<Extent>) {
    forall l: nat {:trigger BlockData(disk', bs, es', l)} :: BlockData(disk', bs, es', l) == BlockData(disk, bs, es, l)
  }

  lemma SameDataTwice(bs: nat, d0: Disk, e0: seq<Extent>, d1: Disk, e1: seq<Extent>, d2: Disk, e2: seq<Extent>)
    requires SameData(bs, d0, e0, d1, e1) && SameData(bs, d1, e1, d2, e2)
    ensures SameData(bs, d0, e0, d2, e2)
  {
    forall l: nat ensures BlockData(d2, bs, e2, l) == BlockData(d0, bs, e0, l) {
      assert BlockData(d1, bs, e1, l) == BlockData(d0, bs, e0, l);
    }
  }

  /** The blocks from `start` on read as zeros. */
  ghost predicate Zeroed(disk: Disk, bs: nat, start: nat, count: nat) {
    forall b: nat {:trigger ReadAt(disk, bs, b)} :: start <= b < start + count ==> ReadAt(disk, bs, b) == Zeros(bs)
  }

  /** Appending a zeroed run changes no byte of the file. */
  lemma AppendKeepsData(bs: nat, disk: Disk, disk': Disk, es: seq<Extent>, phys: nat, count: nat, except: set<nat>)
    requires Dense(es) && EndOf(es) + count < U32 && 1 <= count <= MAX_EXTENT_LEN
    requires SameOutside(disk, disk', bs, except) && DataBlocks(es) !! except && Zeroed(disk', bs, phys, count)
    ensures SameData(bs, disk, es, disk', AppendExtents(es, phys, count))
  {
    hide ReadAt, AppendExtents, DataBlocks, Dense;
    forall l: nat
      ensures BlockData(disk', bs, AppendExtents(es, phys, count), l) == BlockData(disk, bs, es, l)
    {
      DenseIsSorted(es);
      DenseMaps(es, l);
      AppendExtendsMap(es, phys, count, l);
      FindsData(es, l);
      if l < EndOf(es) {
        assert FindPhys(es, l).value !in except;
      } else if l < EndOf(es) + count {
        assert phys <= phys + (l - EndOf(es)) < phys + count;
      }
    }
  }

  /** A file none of whose blocks is written holds the same bytes. */
  lemma UnwrittenData(bs: nat, disk: Disk, disk': Disk, es: seq<Extent>, except: set<nat>)
    requires SameOutside(disk, disk', bs, except) && DataBlocks(es) !! except
    ensures SameData(bs, disk, es, disk', es)
  {
    hide ReadAt, DataBlocks;
    forall l: nat ensures BlockData(disk', bs, es, l) == BlockData(disk, bs, es, l) {
      FindsData(es, l);
    }
  }

  /** The first byte of logical block `l`. */
  function StartOf(l: nat, bs: nat): nat { l * bs }

  /** `block` with the bytes of `data` that fall on it: the block starts at byte `base` of the file
      and `data` at byte `off`. */
  function Overlaid(block: Bytes, base: nat, off: nat, data: Bytes): (r: Bytes)
    ensures |r| == |block|
    ensures forall i :: 0 <= i < |block| ==>
              r[i] == if off <= base + i < off + |data| then data[base + i - off] else block[i]
  {
    seq(|block|, i requires 0 <= i < |block| =>
      if off <= base + i < off + |data| then data[base + i - off] else block[i])
  }

  /** Overlaying every block overlays the file. */
  lemma OverlaidFile(bs: nat, disk: Disk, es: seq<Extent>, disk': Disk, es': seq<Extent>, off: nat, data: Bytes)
    requires bs > 0
    requires forall l: nat ::
              BlockData(disk', bs, es', l) == Overlaid(BlockData(disk, bs, es, l), StartOf(l, bs), off, data)
    ensures forall pos: nat :: FileByte(disk', bs, es', pos) ==
              if off <= pos < off + |data| then data[pos - off] else FileByte(disk, bs, es, pos)
  {
    hide BlockData, Overlaid;
    forall pos: nat
      ensures FileByte(disk', bs, es', pos) ==
              if off <= pos < off + |data| then data[pos - off] else FileByte(disk, bs, es, pos)
    {
      var l, i := pos / bs, pos % bs;
      assert l * bs + i == pos;
      assert BlockData(disk', bs, es', l) == Overlaid(BlockData(disk, bs, es, l), StartOf(l, bs), off, data);
    }
  }

  /** An append reaches the logical block it was made for exactly when that block is the end of the
      file. Past the end the blocks land before the place where they are looked for; in a hole or an
      uninitialised extent they land behind it. */
  lemma AppendReachesRequest(es: seq<Extent>, phys: nat, count: nat, l: nat)
    requires Sorted(es) && FindPhys(es, l) == None && EndOf(es) + count < U32 && 1 <= count <= MAX_EXTENT_LEN
    ensures FindPhys(AppendExtents(es, phys, count), l) == Some(phys) <==> l == EndOf(es)
  {
    AppendExtendsMap(es, phys, count, l);
  }
}

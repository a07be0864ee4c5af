/** Appending to the extent tree on the device: coalesce, fill, grow and split, each refining the
    corresponding step on shapes. */
module ExtentAppend {
  import opened Base
  import opened Device
  import opened BlockAlloc
  import opened ExtentNode
  import opened ExtentMap
  import opened ExtentView

  datatype WriteError = CorruptTree(block: nat) | DepthLimit | Alloc(cause: AllocError)

  // ---- what the device holds ----

  /** The extents of the leaf block `b`. */
  function LeafAt(disk: Disk, bs: nat, b: nat): seq<Extent> {
    match NodeAt(disk, bs, b)
    case Ok(n) => if n.Leaf? then n.extents else []
    case Err(_) => []
  }

  /** Block `b` holds a leaf of standard capacity. */
  ghost predicate IsLeaf(disk: Disk, bs: nat, b: nat)
    requires bs >= 12
  {
    NodeAt(disk, bs, b) == Ok(Leaf(LeafMaxEntries(bs), LeafAt(disk, bs, b)))
  }

  function LeavesAt(disk: Disk, bs: nat, idx: seq<Idx>): (r: seq<seq<Extent>>)
    ensures |r| == |idx|
    ensures forall i :: 0 <= i < |idx| ==> r[i] == LeafAt(disk, bs, idx[i].child)
  {
    hide LeafAt;
    if idx == [] then [] else LeavesAt(disk, bs, idx[..|idx| - 1]) + [LeafAt(disk, bs, idx[|idx| - 1].child)]
  }

  function Keys(idx: seq<Idx>): (r: seq<nat>)
    ensures |r| == |idx|
    ensures forall i :: 0 <= i < |idx| ==> r[i] == idx[i].key
  {
    if idx == [] then [] else Keys(idx[..|idx| - 1]) + [idx[|idx| - 1].key]
  }

  /** The shape of the tree under the root node of an inode. */
  function ViewOf(disk: Disk, bs: nat, root: Node): View {
    match root
    case Leaf(_, es) => View(false, [es], [])
    case Inner(_, _, idx) => View(true, LeavesAt(disk, bs, idx), Keys(idx))
  }

  function ChildSet(idx: seq<Idx>): (r: set<nat>)
    ensures forall i :: 0 <= i < |idx| ==> idx[i].child in r
    ensures forall c :: c in r ==> exists i :: 0 <= i < |idx| && idx[i].child == c
  {
    if idx == [] then {} else ChildSet(idx[..|idx| - 1]) + {idx[|idx| - 1].child}
  }

  /** The leaf blocks of the tree. */
  function Children(root: Node): set<nat> {
    if root.Leaf? then {} else ChildSet(root.idx)
  }

  /** The root and its leaf blocks are nodes of the standard capacities, each in a block of its own. */
  ghost predicate NodesOk(disk: Disk, bs: nat, root: Node)
    requires bs >= 12
  {
    && root.Encodable(60) && root.max == ROOT_MAX_ENTRIES
    && (root.Inner? ==>
          && root.depth == 1 && |root.idx| <= ROOT_MAX_ENTRIES
          && (forall i :: 0 <= i < |root.idx| ==> IsLeaf(disk, bs, root.idx[i].child))
          && forall i, j :: 0 <= i < j < |root.idx| ==> root.idx[i].child != root.idx[j].child)
  }

  /** Reads of `bs` through the transaction and from the device agree on the blocks of `s`. */
  ghost predicate Coherent(pins: Pins, disk: Disk, bs: nat, s: set<nat>) {
    forall b :: b in s && Pinned(pins, b).Some? ==> Pinned(pins, b).value == ReadAt(disk, bs, b)
  }

  /** The blocks of `s` are blocks of the volume in use, and not as bitmaps. */
  ghost predicate InUse(fs: Layout, free: set<nat>, s: set<nat>) {
    (forall b :: b in s ==> b < Volume(fs)) && s !! free && s !! MetaBlocks(fs)
  }

  /** Writing one leaf changes that leaf of the shape only. */
  lemma LeafWritten(was: Disk, disk: Disk, bs: nat, root: Node, k: nat, es: seq<Extent>)
    requires bs >= 12 && NodesOk(was, bs, root) && root.Inner? && k < |root.idx|
    requires SameOutside(was, disk, bs, {root.idx[k].child})
    requires NodeAt(disk, bs, root.idx[k].child) == Ok(Leaf(LeafMaxEntries(bs), es))
    ensures NodesOk(disk, bs, root)
    ensures LeavesAt(disk, bs, root.idx) == LeavesAt(was, bs, root.idx)[k := es]
  {
    hide DecodeNode, ReadAt;
    forall i | 0 <= i < |root.idx| && i != k
      ensures NodeAt(disk, bs, root.idx[i].child) == NodeAt(was, bs, root.idx[i].child)
    {
      assert root.idx[i].child != root.idx[k].child;
      assert ReadAt(disk, bs, root.idx[i].child) == ReadAt(was, bs, root.idx[i].child);
    }
  }

  /** Changes outside the leaf blocks leave the shape alone. */
  lemma ShapeUnchanged(was: Disk, disk: Disk, bs: nat, root: Node, except: set<nat>)
    requires bs >= 12 && NodesOk(was, bs, root)
    requires SameOutside(was, disk, bs, except) && except !! Children(root)
    ensures NodesOk(disk, bs, root) && ViewOf(disk, bs, root) == ViewOf(was, bs, root)
  {
    hide DecodeNode;
    if root.Inner? {
      forall i | 0 <= i < |root.idx|
        ensures NodeAt(disk, bs, root.idx[i].child) == NodeAt(was, bs, root.idx[i].child)
      {
        assert root.idx[i].child in Children(root);
        assert ReadAt(disk, bs, root.idx[i].child) == ReadAt(was, bs, root.idx[i].child);
      }
    }
  }

  /** Writes a node through to its block and pins it. */
  method WriteNode(alloc: Allocator, txn: Transaction, b: nat, n: Node)
    requires alloc.Valid() && txn.Valid() && n.Encodable(alloc.fs.blockSize)
    requires b !in MetaBlocks(alloc.fs)
    modifies alloc.dev`disk, txn`blocks
    ensures alloc.Valid() && txn.Valid()
    ensures NodeAt(alloc.dev.disk, alloc.fs.blockSize, b) == Ok(n)
    ensures SameOutside(old(alloc.dev.disk), alloc.dev.disk, alloc.fs.blockSize, {b})
    ensures Pinned(txn.blocks, b) == Some(ReadAt(alloc.dev.disk, alloc.fs.blockSize, b))
    ensures forall c :: c != b ==> Pinned(txn.blocks, c) == Pinned(old(txn.blocks), c)
    ensures Journaled(alloc.fs, old(Now(alloc, txn)), Now(alloc, txn), {b}, {})
  {
    var data := EncodeNode(n, alloc.fs.blockSize);
    NodeRoundTrip(n, alloc.fs.blockSize);
    alloc.dev.Write(b, data);
    txn.PinBlock(b, data);
    ElsewhereKeepsAllocator(old(alloc.dev.disk), alloc.dev.disk, alloc.fs, alloc.counts);
    WrittenAndPinned(alloc.fs, old(Now(alloc, txn)), Now(alloc, txn), b);
  }

  lemma WrittenAndPinned(fs: Layout, a: Snapshot, b: Snapshot, c: nat)
    requires SameOutside(a.disk, b.disk, fs.blockSize, {c}) && a.counts == b.counts && c != fs.descBlock
    requires forall d :: d != c ==> Pinned(b.pins, d) == Pinned(a.pins, d)
    requires Pinned(b.pins, c) == Some(ReadAt(b.disk, fs.blockSize, c))
    ensures Journaled(fs, a, b, {c}, {})
  {
    hide ReadAt, Pinned;
  }

  /** What every tree write relies on: a consistent allocator, block sizes and addresses the format
      can hold, and a root whose nodes are in use. */
  ghost predicate Ready(alloc: Allocator, txn: Transaction, root: Node)
    reads alloc, alloc.dev, txn
  {
    && alloc.Valid() && txn.Valid() && Volume(alloc.fs) <= U48 && 1024 <= alloc.fs.blockSize <= U16
    && NodesOk(alloc.dev.disk, alloc.fs.blockSize, root)
    && InUse(alloc.fs, alloc.free, Children(root))
    && Coherent(txn.blocks, alloc.dev.disk, alloc.fs.blockSize, Children(root))
  }

  lemma LeafReady(disk: Disk, bs: nat, b: nat)
    requires 12 <= bs <= U16 && IsLeaf(disk, bs, b)
    ensures |LeafAt(disk, bs, b)| <= LeafMaxEntries(bs)
    ensures forall e :: e in LeafAt(disk, bs, b) ==> e.InRange()
  {
    DecodedEncodable(ReadAt(disk, bs, b));
  }

  /** Reads leaf `k` of a deep tree. */
  method ReadLeaf(dev: BlockDevice, b: nat) returns (es: seq<Extent>)
    requires 12 <= dev.blockSize <= U16 && IsLeaf(dev.disk, dev.blockSize, b)
    ensures es == LeafAt(dev.disk, dev.blockSize, b)
    ensures |es| <= LeafMaxEntries(dev.blockSize) && forall e :: e in es ==> e.InRange()
  {
    LeafReady(dev.disk, dev.blockSize, b);
    var data := dev.Read(b);
    es := DecodeNode(data).value.extents;
  }

  /** Reads a leaf through the transaction: the pinned copy if there is one. */
  method ReadLeafPinned(dev: BlockDevice, txn: Transaction, b: nat) returns (es: seq<Extent>)
    requires 12 <= dev.blockSize <= U16 && IsLeaf(dev.disk, dev.blockSize, b)
    requires Coherent(txn.blocks, dev.disk, dev.blockSize, {b})
    ensures es == LeafAt(dev.disk, dev.blockSize, b)
    ensures |es| <= LeafMaxEntries(dev.blockSize) && forall e :: e in es ==> e.InRange()
  {
    LeafReady(dev.disk, dev.blockSize, b);
    assert b in {b};
    var data := Device.View(txn.blocks, dev.disk, dev.blockSize, b);
    es := DecodeNode(data).value.extents;
  }

  /** The new root keeps the nodes of the old one and its index, to which it may add entries; what it
      adds was free and no longer is. */
  ghost predicate NodesTaken(root: Node, root': Node, free: set<nat>, free': set<nat>) {
    && Children(root) <= Children(root') && Children(root') - Children(root) <= free
    && free' == free - Children(root')
    && (root.Inner? ==> root'.Inner? && root'.depth == root.depth && root.idx <= root'.idx)
  }

  /** One node has been added, in the free block nearest to the hint. */
  ghost predicate NodeAdded(fs: Layout, free: set<nat>, hint: nat, root: Node, root': Node)
    requires Geometry(fs)
  {
    exists nb :: nb !in Children(root) && Children(root') == Children(root) + {nb} && Nearest(fs, free, 1, hint, nb)
  }

  lemma NodeIsAdded(fs: Layout, free: set<nat>, hint: nat, root: Node, root': Node, nb: nat)
    requires Geometry(fs) && nb !in Children(root) && Children(root') == Children(root) + {nb}
    requires Nearest(fs, free, 1, hint, nb)
    ensures NodeAdded(fs, free, hint, root, root')
  {
    hide Nearest, Children;
  }

  /** Rewrites leaf `k` of a deep tree. */
  method WriteLeaf(alloc: Allocator, txn: Transaction, root: Node, k: nat, es: seq<Extent>)
    requires Ready(alloc, txn, root) && root.Inner? && k < |root.idx|
    requires |es| <= LeafMaxEntries(alloc.fs.blockSize) && forall e :: e in es ==> e.InRange()
    modifies alloc.dev`disk, txn`blocks
    ensures Ready(alloc, txn, root)
    ensures LeavesAt(alloc.dev.disk, alloc.fs.blockSize, root.idx)
            == old(LeavesAt(alloc.dev.disk, alloc.fs.blockSize, root.idx))[k := es]
    ensures SameOutside(old(alloc.dev.disk), alloc.dev.disk, alloc.fs.blockSize, {root.idx[k].child})
    ensures Journaled(alloc.fs, old(Now(alloc, txn)), Now(alloc, txn), {root.idx[k].child}, {})
  {
    hide DecodeNode, NodeAt, Consistent, IsFree, ReadAt, ChildSet, Keys, Pinned;
    ghost var was, bs := alloc.dev.disk, alloc.fs.blockSize;
    WriteNode(alloc, txn, root.idx[k].child, Leaf(LeafMaxEntries(alloc.fs.blockSize), es));
    LeafWritten(was, alloc.dev.disk, bs, root, k, es);
  }

  /** Taking free blocks leaves the tree ready and unchanged: none of its blocks was free. */
  lemma ReadyAfterAlloc(alloc: Allocator, txn: Transaction, root: Node, was: Snapshot, free: set<nat>)
    requires alloc.Valid() && txn.Valid() && Volume(alloc.fs) <= U48 && 1024 <= alloc.fs.blockSize <= U16
    requires NodesOk(was.disk, alloc.fs.blockSize, root) && InUse(alloc.fs, free, Children(root)) && alloc.free <= free
    requires Coherent(was.pins, was.disk, alloc.fs.blockSize, Children(root))
    requires OnlyMeta(alloc.fs, was, Now(alloc, txn))
    ensures Ready(alloc, txn, root)
    ensures ViewOf(alloc.dev.disk, alloc.fs.blockSize, root) == ViewOf(was.disk, alloc.fs.blockSize, root)
  {
    hide DecodeNode, NodeAt, Consistent, IsFree, Pinned, ChildSet, NodesOk, ViewOf, Volume, MetaBlocks, OnlyMeta;
    OnlyMetaSame(alloc.fs, was, Now(alloc, txn));
    ShapeUnchanged(was.disk, alloc.dev.disk, alloc.fs.blockSize, root, MetaBlocks(alloc.fs));
  }

  lemma ReadyGeometry(alloc: Allocator, txn: Transaction, root: Node)
    requires Ready(alloc, txn, root)
    ensures Geometry(alloc.fs)
  {
    hide NodesOk, InUse, Coherent, CountsAgree, MetaPlaced;
  }

  /** Allocates one block for a node. The tree is unaffected: none of its blocks was free. */
  method AllocNode(alloc: Allocator, txn: Transaction, root: Node, hint: nat) returns (r: Result<nat, AllocError>)
    requires Ready(alloc, txn, root)
    modifies alloc`counts, alloc`free, alloc.dev`disk, txn`blocks
    ensures Ready(alloc, txn, root)
    ensures ViewOf(alloc.dev.disk, alloc.fs.blockSize, root) == old(ViewOf(alloc.dev.disk, alloc.fs.blockSize, root))
    ensures Geometry(alloc.fs) && (r.Ok? ==> Nearest(alloc.fs, old(alloc.free), 1, hint, r.value))
    ensures r.Ok? ==> r.value in old(alloc.free) && alloc.free == old(alloc.free) - {r.value}
                      && r.value !in Children(root) && InUse(alloc.fs, alloc.free, {r.value})
    ensures Children(root) !! old(alloc.free)
    ensures r.Err? ==> r.error == NoFreeBlocks && old(alloc.free) == {} == alloc.free
                       && Now(alloc, txn) == old(Now(alloc, txn))
    ensures OnlyMeta(alloc.fs, old(Now(alloc, txn)), Now(alloc, txn))
  {
    hide Allocator.Valid, ReadAt, ChildSet, Pinned, Nearest, CountPinned, Total, RunAt, MetaBlocks, Volume, NodesOk,
      ViewOf, Coherent;
    ReadyGeometry(alloc, txn, root);
    ghost var was, free := Now(alloc, txn), alloc.free;
    r := alloc.AllocBlocks(txn, 1, hint);
    ReadyAfterAlloc(alloc, txn, root, was, free);
    if r.Ok? { assert Range(r.value, 1) == {r.value}; }
  }

  /** Writes a leaf to a block that is not part of the tree yet. */
  method WriteNewLeaf(alloc: Allocator, txn: Transaction, root: Node, b: nat, es: seq<Extent>)
    requires Ready(alloc, txn, root) && b !in Children(root) && b !in MetaBlocks(alloc.fs)
    requires |es| <= LeafMaxEntries(alloc.fs.blockSize) && forall e :: e in es ==> e.InRange()
    modifies alloc.dev`disk, txn`blocks
    ensures Ready(alloc, txn, root)
    ensures ViewOf(alloc.dev.disk, alloc.fs.blockSize, root) == old(ViewOf(alloc.dev.disk, alloc.fs.blockSize, root))
    ensures IsLeaf(alloc.dev.disk, alloc.fs.blockSize, b) && LeafAt(alloc.dev.disk, alloc.fs.blockSize, b) == es
    ensures SameOutside(old(alloc.dev.disk), alloc.dev.disk, alloc.fs.blockSize, {b})
    ensures Coherent(txn.blocks, alloc.dev.disk, alloc.fs.blockSize, {b})
    ensures Journaled(alloc.fs, old(Now(alloc, txn)), Now(alloc, txn), {b}, {})
  {
    hide DecodeNode, NodeAt, Consistent, IsFree, ReadAt, ChildSet, Keys, Pinned;
    ghost var was := alloc.dev.disk;
    WriteNode(alloc, txn, b, Leaf(LeafMaxEntries(alloc.fs.blockSize), es));
    ShapeUnchanged(was, alloc.dev.disk, alloc.fs.blockSize, root, {b});
  }

  /** The root with one more index entry. */
  lemma IndexAdded(disk: Disk, bs: nat, root: Node, x: Idx)
    requires bs >= 12 && NodesOk(disk, bs, root) && root.Inner? && |root.idx| < ROOT_MAX_ENTRIES
    requires x.InRange() && x.child !in Children(root) && IsLeaf(disk, bs, x.child)
    ensures var root' := root.(idx := root.idx + [x]);
            && NodesOk(disk, bs, root') && Children(root') == Children(root) + {x.child}
            && LeavesAt(disk, bs, root'.idx) == LeavesAt(disk, bs, root.idx) + [LeafAt(disk, bs, x.child)]
            && Keys(root'.idx) == Keys(root.idx) + [x.key]
  {
    hide DecodeNode;
    var root' := root.(idx := root.idx + [x]);
    assert root'.idx[..|root.idx|] == root.idx;
  }

  /** What holds of a ready deep tree, leaf by leaf. */
  lemma ReadyLeaf(alloc: Allocator, txn: Transaction, root: Node, k: nat)
    requires Ready(alloc, txn, root) && root.Inner? && k < |root.idx|
    ensures 1024 <= alloc.fs.blockSize == alloc.dev.blockSize <= U16
    ensures IsLeaf(alloc.dev.disk, alloc.fs.blockSize, root.idx[k].child)
    ensures LeavesAt(alloc.dev.disk, alloc.fs.blockSize, root.idx)[k]
            == LeafAt(alloc.dev.disk, alloc.fs.blockSize, root.idx[k].child)
    ensures |LeavesAt(alloc.dev.disk, alloc.fs.blockSize, root.idx)[k]| <= LeafMaxEntries(alloc.fs.blockSize)
    ensures Coherent(txn.blocks, alloc.dev.disk, alloc.fs.blockSize, {root.idx[k].child})
    ensures root.max == ROOT_MAX_ENTRIES && LeafMaxEntries(alloc.fs.blockSize) >= 84
  {
    LeafReady(alloc.dev.disk, alloc.fs.blockSize, root.idx[k].child);
  }

  /** The root of a ready tree with an entry for one more leaf. */
  lemma ReadyIndexed(alloc: Allocator, txn: Transaction, root: Node, x: Idx)
    requires Ready(alloc, txn, root) && root.Inner? && |root.idx| < ROOT_MAX_ENTRIES
    requires x.key < U32 && x.child !in Children(root) && InUse(alloc.fs, alloc.free, {x.child})
    requires IsLeaf(alloc.dev.disk, alloc.fs.blockSize, x.child)
    requires Coherent(txn.blocks, alloc.dev.disk, alloc.fs.blockSize, {x.child})
    ensures var root' := root.(idx := root.idx + [x]);
            && Ready(alloc, txn, root') && Children(root') == Children(root) + {x.child}
            && LeavesAt(alloc.dev.disk, alloc.fs.blockSize, root'.idx)
               == LeavesAt(alloc.dev.disk, alloc.fs.blockSize, root.idx)
                 + [LeafAt(alloc.dev.disk, alloc.fs.blockSize, x.child)]
            && Keys(root'.idx) == Keys(root.idx) + [x.key]
  {
    hide DecodeNode, NodeAt, Consistent, IsFree, ReadAt, Pinned;
    assert x.child in {x.child};
    IndexAdded(alloc.dev.disk, alloc.fs.blockSize, root, x);
  }

  /** The blocks an append may write to: those of the allocator and the nodes of the new tree; if it fails, a
      block may have been taken for a node that the tree does not refer to. */
  ghost function Reached(fs: Layout, root: Node, free: set<nat>, r: Result<Node, WriteError>): set<nat> {
    (if r.Ok? then Children(r.value) else Children(root) + free) + MetaBlocks(fs)
  }

  /** Writes the two halves of the last leaf, the upper one to block `nb`. */
  method WriteHalves(alloc: Allocator, txn: Transaction, root: Node, nb: nat, es: seq<Extent>, s: nat)
    requires Ready(alloc, txn, root) && root.Inner? && root.idx != []
    requires nb !in Children(root) && InUse(alloc.fs, alloc.free, {nb})
    requires s <= |es| <= LeafMaxEntries(alloc.fs.blockSize) && forall e :: e in es ==> e.InRange()
    modifies alloc.dev`disk, txn`blocks
    ensures Ready(alloc, txn, root)
    ensures LeavesAt(alloc.dev.disk, alloc.fs.blockSize, root.idx)
            == old(LeavesAt(alloc.dev.disk, alloc.fs.blockSize, root.idx))[|root.idx| - 1 := es[..s]]
    ensures IsLeaf(alloc.dev.disk, alloc.fs.blockSize, nb) && LeafAt(alloc.dev.disk, alloc.fs.blockSize, nb) == es[s..]
    ensures Coherent(txn.blocks, alloc.dev.disk, alloc.fs.blockSize, {nb})
    ensures Journaled(alloc.fs, old(Now(alloc, txn)), Now(alloc, txn), Children(root) + {nb}, {})
  {
    hide DecodeNode, NodeAt, Consistent, IsFree, ReadAt, ChildSet, Keys, Pinned, Ready, NodesOk, IsLeaf, Journaled;
    assert nb in {nb};
    ghost var a, s0 := Now(alloc, txn), Children(root) + {nb};
    WriteLeaf(alloc, txn, root, |root.idx| - 1, es[..s]);
    ghost var b := Now(alloc, txn);
    WriteNewLeaf(alloc, txn, root, nb, es[s..]);
    JournaledTogether(alloc.fs, a, b, Now(alloc, txn), {root.idx[|root.idx| - 1].child}, {nb}, s0);
  }

  /** Moves the upper half of the full last leaf to a new block and indexes it in the root. When the
      root is full the halves are already on the device: the error leaves the tree damaged. */
  method SplitLeaf(alloc: Allocator, txn: Transaction, root: Node, hint: nat, ghost was: seq<seq<Extent>>)
      returns (r: Result<Node, WriteError>)
    requires Ready(alloc, txn, root) && root.Inner? && root.idx != []
    requires was == LeavesAt(alloc.dev.disk, alloc.fs.blockSize, root.idx) && |was[|was| - 1]| >= 2
    modifies alloc`counts, alloc`free, alloc.dev`disk, txn`blocks
    ensures r.Ok? ==> Ready(alloc, txn, r.value) && r.value.Inner? && |r.value.idx| == |root.idx| + 1
    ensures r.Ok? ==> |root.idx| < ROOT_MAX_ENTRIES
    ensures r.Ok? ==> NodesTaken(root, r.value, old(alloc.free), alloc.free)
    ensures r.Ok? ==> NodeAdded(alloc.fs, old(alloc.free), hint, root, r.value)
    ensures r.Ok? ==>
              var last := was[|was| - 1];
              var s := |last| / 2;
              && LeavesAt(alloc.dev.disk, alloc.fs.blockSize, r.value.idx) == was[|was| - 1 := last[..s]] + [last[s..]]
              && Keys(r.value.idx) == Keys(root.idx) + [last[s].block]
    ensures Journaled(alloc.fs, old(Now(alloc, txn)), Now(alloc, txn), Reached(alloc.fs, root, old(alloc.free), r), {})
    ensures alloc.free <= old(alloc.free)
    ensures r.Err? ==> r.error == if old(alloc.free) == {} then Alloc(NoFreeBlocks) else DepthLimit
    ensures r.Err? && r.error.Alloc? ==>
              Ready(alloc, txn, root) && alloc.free == {} && Now(alloc, txn) == old(Now(alloc, txn))
    ensures r == Err(DepthLimit) ==>
              |root.idx| >= ROOT_MAX_ENTRIES
              && LeavesAt(alloc.dev.disk, alloc.fs.blockSize, root.idx)
                 == was[|was| - 1 := was[|was| - 1][..|was[|was| - 1]| / 2]]
  {
    hide DecodeNode, NodeAt, Consistent, IsFree, ReadAt, ChildSet, Keys, Pinned, Ready, NodesOk, IsLeaf, LeafAt,
      LeavesAt, ViewOf, InUse, MetaBlocks, Volume, SameOutside, Coherent, LeafMaxEntries, Nearest, NodeAdded, Journaled;
    var n := |root.idx| - 1;
    ghost var s0, free0 := Now(alloc, txn), alloc.free;
    ReadyLeaf(alloc, txn, root, n);
    DeepView(alloc.dev.disk, alloc.fs.blockSize, root);
    var es := ReadLeaf(alloc.dev, root.idx[n].child);
    var a := AllocNode(alloc, txn, root, hint);
    ghost var s1 := Now(alloc, txn);
    if a.Err? {
      r := Err(Alloc(a.error));
      JournaledMore(alloc.fs, s0, s1, MetaBlocks(alloc.fs), {}, Reached(alloc.fs, root, free0, r), {});
      return;
    }
    DeepView(alloc.dev.disk, alloc.fs.blockSize, root);
    var nb, s := a.value, |es| / 2;
    WriteHalves(alloc, txn, root, nb, es, s);
    ghost var s2 := Now(alloc, txn);
    if |root.idx| >= root.max {
      r := Err(DepthLimit);
      JournaledTogether(alloc.fs, s0, s1, s2, MetaBlocks(alloc.fs), Children(root) + {nb},
                        Reached(alloc.fs, root, free0, r));
      return;
    }
    assert es[s] in es;
    ReadyIndexed(alloc, txn, root, Idx(es[s].block, nb));
    r := Ok(root.(idx := root.idx + [Idx(es[s].block, nb)]));
    NodeIsAdded(alloc.fs, free0, hint, root, r.value, nb);
    JournaledTogether(alloc.fs, s0, s1, s2, MetaBlocks(alloc.fs), Children(root) + {nb},
                      Reached(alloc.fs, root, free0, r));
  }

  /** The shape of a deep root. */
  lemma DeepView(disk: Disk, bs: nat, root: Node)
    requires root.Inner?
    ensures ViewOf(disk, bs, root) == View(true, LeavesAt(disk, bs, root.idx), Keys(root.idx))
  {
  }

  /** Splits the full last leaf and places `e` in the new one. */
  method SplitAndAppend(alloc: Allocator, txn: Transaction, root: Node, e: Extent, hint: nat,
                        ghost was: seq<seq<Extent>>)
      returns (r: Result<Node, WriteError>)
    requires Ready(alloc, txn, root) && root.Inner? && root.idx != [] && e.InRange()
    requires was == LeavesAt(alloc.dev.disk, alloc.fs.blockSize, root.idx)
    requires |was[|was| - 1]| >= LeafMaxEntries(alloc.fs.blockSize)
    modifies alloc`counts, alloc`free, alloc.dev`disk, txn`blocks
    ensures r.Ok? ==> Ready(alloc, txn, r.value) && r.value.Inner?
    ensures r.Ok? ==>
              var last := was[|was| - 1];
              var s := |last| / 2;
              && LeavesAt(alloc.dev.disk, alloc.fs.blockSize, r.value.idx)
                == was[|was| - 1 := last[..s]] + [last[s..] + [e]]
              && Keys(r.value.idx) == Keys(root.idx) + [last[s].block]
    ensures r.Ok? ==> NodesTaken(root, r.value, old(alloc.free), alloc.free)
    ensures r.Ok? ==> NodeAdded(alloc.fs, old(alloc.free), hint, root, r.value)
    ensures Journaled(alloc.fs, old(Now(alloc, txn)), Now(alloc, txn), Reached(alloc.fs, root, old(alloc.free), r), {})
    ensures alloc.free <= old(alloc.free)
    ensures r.Err? ==> r.error == if old(alloc.free) == {} then Alloc(NoFreeBlocks) else DepthLimit
    ensures r.Err? && r.error.Alloc? ==>
              Ready(alloc, txn, root) && alloc.free == {} && Now(alloc, txn) == old(Now(alloc, txn))
    ensures r == Err(DepthLimit) ==> |root.idx| >= ROOT_MAX_ENTRIES
    ensures r.Ok? ==> |root.idx| < ROOT_MAX_ENTRIES
  {
    hide DecodeNode, NodeAt, Consistent, IsFree, ReadAt, ChildSet, Keys, Pinned, Ready, NodesOk, IsLeaf, ViewOf,
      LeafMaxEntries, LeafAt, Children, NodeAdded, Journaled;
    ghost var s0, free0 := Now(alloc, txn), alloc.free;
    var n := |root.idx| - 1;
    ReadyLeaf(alloc, txn, root, n);
    r := SplitLeaf(alloc, txn, root, hint, was);
    if r.Ok? {
      ghost var last := was[n];
      ghost var lower, upper := was[n := last[..|last| / 2]], last[|last| / 2..];
      assert LeavesAt(alloc.dev.disk, alloc.fs.blockSize, r.value.idx) == lower + [upper];
      assert (lower + [upper])[..n + 1] == lower;
      ghost var s1, s := Now(alloc, txn), Reached(alloc.fs, root, free0, r);
      AddToNewLeaf(alloc, txn, r.value, e);
      JournaledTogether(alloc.fs, s0, s1, Now(alloc, txn), s, Children(r.value), s);
    }
  }

  /** Adds `e` to the last leaf, which has room. */
  method AddToNewLeaf(alloc: Allocator, txn: Transaction, root: Node, e: Extent)
    requires Ready(alloc, txn, root) && root.Inner? && root.idx != [] && e.InRange()
    requires var leaves := LeavesAt(alloc.dev.disk, alloc.fs.blockSize, root.idx);
             |leaves[|leaves| - 1]| < LeafMaxEntries(alloc.fs.blockSize)
    modifies alloc.dev`disk, txn`blocks
    ensures Ready(alloc, txn, root)
    ensures var leaves := old(LeavesAt(alloc.dev.disk, alloc.fs.blockSize, root.idx));
            LeavesAt(alloc.dev.disk, alloc.fs.blockSize, root.idx)
              == leaves[..|leaves| - 1] + [leaves[|leaves| - 1] + [e]]
    ensures Journaled(alloc.fs, old(Now(alloc, txn)), Now(alloc, txn), Children(root), {})
  {
    hide DecodeNode, NodeAt, Consistent, IsFree, ReadAt, ChildSet, Keys, Pinned, Ready, NodesOk, IsLeaf, Journaled;
    ghost var s0, leaves := Now(alloc, txn), LeavesAt(alloc.dev.disk, alloc.fs.blockSize, root.idx);
    var n := |root.idx| - 1;
    ReadyLeaf(alloc, txn, root, n);
    var es := ReadLeaf(alloc.dev, root.idx[n].child);
    WriteLeaf(alloc, txn, root, n, es + [e]);
    assert leaves[n := es + [e]] == leaves[..n] + [es + [e]];
    JournaledMore(alloc.fs, s0, Now(alloc, txn), {root.idx[n].child}, {}, Children(root), {});
  }

  /** Places `e` in the last leaf of a deep tree, splitting the leaf if it is full. */
  method AppendToLeaf(alloc: Allocator, txn: Transaction, root: Node, e: Extent, hint: nat, ghost v: View)
      returns (r: Result<Node, WriteError>)
    requires Ready(alloc, txn, root) && root.Inner? && root.idx != [] && e.InRange()
    requires v == ViewOf(alloc.dev.disk, alloc.fs.blockSize, root)
    modifies alloc`counts, alloc`free, alloc.dev`disk, txn`blocks
    ensures r.Ok? ==> Ready(alloc, txn, r.value)
    ensures r.Ok? ==> AppendDeep(v, LeafMaxEntries(alloc.fs.blockSize), e)
                      == Ok(ViewOf(alloc.dev.disk, alloc.fs.blockSize, r.value))
    ensures r.Ok? ==> NodesTaken(root, r.value, old(alloc.free), alloc.free)
    ensures Journaled(alloc.fs, old(Now(alloc, txn)), Now(alloc, txn), Reached(alloc.fs, root, old(alloc.free), r), {})
    ensures alloc.free <= old(alloc.free)
    ensures r.Err? ==> r.error == if old(alloc.free) == {} then Alloc(NoFreeBlocks) else DepthLimit
    ensures r.Err? && r.error.Alloc? ==>
              Ready(alloc, txn, root) && alloc.free == {} && Now(alloc, txn) == old(Now(alloc, txn))
    ensures r == Err(DepthLimit) ==> AppendDeep(v, LeafMaxEntries(alloc.fs.blockSize), e).Err?
    ensures |v.leaves[|v.leaves| - 1]| < LeafMaxEntries(alloc.fs.blockSize) ==> r == Ok(root)
    ensures |v.leaves[|v.leaves| - 1]| >= LeafMaxEntries(alloc.fs.blockSize) && r.Ok? ==>
              NodeAdded(alloc.fs, old(alloc.free), hint, root, r.value)
  {
    hide DecodeNode, NodeAt, Consistent, IsFree, ReadAt, ChildSet, Keys, Pinned, Ready, NodesOk, IsLeaf, ViewOf,
      NodesTaken, InUse, NodeAdded, Journaled;
    ghost var s0, free0 := Now(alloc, txn), alloc.free;
    DeepView(alloc.dev.disk, alloc.fs.blockSize, root);
    var n := |root.idx| - 1;
    ReadyLeaf(alloc, txn, root, n);
    var es := ReadLeaf(alloc.dev, root.idx[n].child);
    if |es| < LeafMaxEntries(alloc.fs.blockSize) {
      NothingTaken(alloc, txn, root);
      WriteLeaf(alloc, txn, root, n, es + [e]);
      r := Ok(root);
      JournaledMore(alloc.fs, s0, Now(alloc, txn), {root.idx[n].child}, {}, Reached(alloc.fs, root, free0, r), {});
    } else {
      r := SplitAndAppend(alloc, txn, root, e, hint, v.leaves);
    }
    if r.Ok? { DeepView(alloc.dev.disk, alloc.fs.blockSize, r.value); }
  }

  lemma NothingTaken(alloc: Allocator, txn: Transaction, root: Node)
    requires Ready(alloc, txn, root)
    ensures NodesTaken(root, root, alloc.free, alloc.free)
  {
  }

  /** Moves the full root leaf to a block of its own under a new depth-1 root. */
  method GrowTree(alloc: Allocator, txn: Transaction, root: Node, hint: nat) returns (r: Result<Node, WriteError>)
    requires Ready(alloc, txn, root) && root.Leaf? && |root.extents| <= ROOT_MAX_ENTRIES
    modifies alloc`counts, alloc`free, alloc.dev`disk, txn`blocks
    ensures r.Ok? ==> Ready(alloc, txn, r.value) && r.value.Inner? && |r.value.idx| == 1
    ensures r.Ok? ==> ViewOf(alloc.dev.disk, alloc.fs.blockSize, r.value) == View(true, [root.extents], [0])
    ensures r.Ok? ==> NodesTaken(root, r.value, old(alloc.free), alloc.free)
    ensures r.Ok? ==> NodeAdded(alloc.fs, old(alloc.free), hint, root, r.value)
    ensures Journaled(alloc.fs, old(Now(alloc, txn)), Now(alloc, txn), Reached(alloc.fs, root, old(alloc.free), r), {})
    ensures alloc.free <= old(alloc.free)
    ensures r.Err? ==> r.error == Alloc(NoFreeBlocks) && old(alloc.free) == {} == alloc.free
                       && Ready(alloc, txn, root) && Now(alloc, txn) == old(Now(alloc, txn))
  {
    hide DecodeNode, NodeAt, Consistent, IsFree, ReadAt, Pinned, Ready, ViewOf, IsLeaf, Keys, LeavesAt, Nearest,
      NodeAdded, Journaled;
    ghost var s0, free := Now(alloc, txn), alloc.free;
    ShallowFacts(alloc, txn, root);
    var a := AllocNode(alloc, txn, root, hint);
    ghost var s1 := Now(alloc, txn);
    if a.Err? {
      r := Err(Alloc(a.error));
      JournaledMore(alloc.fs, s0, s1, MetaBlocks(alloc.fs), {}, Reached(alloc.fs, root, free, r), {});
      return;
    }
    var nb := a.value;
    assert nb in {nb};
    WriteNewLeaf(alloc, txn, root, nb, root.extents);
    ReadyGrown(alloc, txn, root, nb);
    r := Ok(Inner(1, ROOT_MAX_ENTRIES, [Idx(0, nb)]));
    NodeIsAdded(alloc.fs, free, hint, root, r.value, nb);
    JournaledTogether(alloc.fs, s0, s1, Now(alloc, txn), MetaBlocks(alloc.fs), {nb}, Reached(alloc.fs, root, free, r));
  }

  /** A root with a single entry, over the leaf block `nb`. */
  lemma ReadyGrown(alloc: Allocator, txn: Transaction, root: Node, nb: nat)
    requires Ready(alloc, txn, root) && InUse(alloc.fs, alloc.free, {nb})
    requires IsLeaf(alloc.dev.disk, alloc.fs.blockSize, nb)
    requires Coherent(txn.blocks, alloc.dev.disk, alloc.fs.blockSize, {nb})
    ensures var root' := Inner(1, ROOT_MAX_ENTRIES, [Idx(0, nb)]);
            && Ready(alloc, txn, root') && Children(root') == {nb}
            && ViewOf(alloc.dev.disk, alloc.fs.blockSize, root')
               == View(true, [LeafAt(alloc.dev.disk, alloc.fs.blockSize, nb)], [0])
  {
    hide DecodeNode, NodeAt, Consistent, IsFree, ReadAt, Pinned, LeafAt, IsLeaf, Allocator.Valid;
    var root' := Inner(1, ROOT_MAX_ENTRIES, [Idx(0, nb)]);
    assert nb in {nb};
    assert root'.idx[..0] == [];
    assert ChildSet(root'.idx) == {nb};
  }

  /** Appends `count` blocks at `phys` after the last extent of the file whose root node is `root`.
      On every success the shape changes as `AppendView` says. */
  method AppendRun(alloc: Allocator, txn: Transaction, root: Node, phys: nat, count: nat, hint: nat, ghost v: View)
      returns (r: Result<Node, WriteError>)
    requires Ready(alloc, txn, root) && v == ViewOf(alloc.dev.disk, alloc.fs.blockSize, root)
    requires 1 <= count <= MAX_EXTENT_LEN && phys < U48
    modifies alloc`counts, alloc`free, alloc.dev`disk, txn`blocks
    ensures r.Ok? ==> v.leaves != [] && Ready(alloc, txn, r.value)
                      && AppendView(v, LeafMaxEntries(alloc.fs.blockSize), phys, count)
                         == Ok(ViewOf(alloc.dev.disk, alloc.fs.blockSize, r.value))
    ensures r.Ok? ==> NodesTaken(root, r.value, old(alloc.free), alloc.free)
    ensures v.leaves != [] && !NeedsNode(v, LeafMaxEntries(alloc.fs.blockSize), phys, count) ==>
              r.Ok? && Children(r.value) == Children(root)
    ensures v.leaves != [] && NeedsNode(v, LeafMaxEntries(alloc.fs.blockSize), phys, count) && r.Ok? ==>
              NodeAdded(alloc.fs, old(alloc.free), hint, root, r.value)
    ensures Journaled(alloc.fs, old(Now(alloc, txn)), Now(alloc, txn), Reached(alloc.fs, root, old(alloc.free), r), {})
    ensures alloc.free <= old(alloc.free)
    ensures v.leaves == [] <==> r == Err(CorruptTree(0))
    ensures r == Err(DepthLimit) ==>
              v.leaves != [] && AppendView(v, LeafMaxEntries(alloc.fs.blockSize), phys, count).Err?
    ensures r.Err? && v.leaves != [] ==> r.error == if old(alloc.free) == {} then Alloc(NoFreeBlocks) else DepthLimit
    ensures r.Err? && r.error.Alloc? ==>
              Ready(alloc, txn, root) && alloc.free == {} && Now(alloc, txn) == old(Now(alloc, txn))
  {
    hide DecodeNode, NodeAt, Consistent, IsFree, ReadAt, ChildSet, Keys, Pinned, NodesOk, IsLeaf, Journaled, Reached;
    if root.Leaf? {
      r := AppendShallow(alloc, txn, root, phys, count, hint);
    } else if root.idx == [] {
      r := Err(CorruptTree(0));
      NothingTouched(alloc.fs, Now(alloc, txn), Reached(alloc.fs, root, alloc.free, r));
    } else {
      r := AppendDeepTree(alloc, txn, root, phys, count, hint, v);
    }
  }

  method AppendShallow(alloc: Allocator, txn: Transaction, root: Node, phys: nat, count: nat, hint: nat)
      returns (r: Result<Node, WriteError>)
    requires Ready(alloc, txn, root) && root.Leaf?
    requires 1 <= count <= MAX_EXTENT_LEN && phys < U48
    modifies alloc`counts, alloc`free, alloc.dev`disk, txn`blocks
    ensures r.Ok? ==> Ready(alloc, txn, r.value)
                      && AppendView(View(false, [root.extents], []), LeafMaxEntries(alloc.fs.blockSize), phys, count)
                         == Ok(ViewOf(alloc.dev.disk, alloc.fs.blockSize, r.value))
    ensures r.Ok? ==> NodesTaken(root, r.value, old(alloc.free), alloc.free)
    ensures var v := View(false, [root.extents], []);
            && (!NeedsNode(v, LeafMaxEntries(alloc.fs.blockSize), phys, count) ==>
                  r.Ok? && Children(r.value) == Children(root))
            && (NeedsNode(v, LeafMaxEntries(alloc.fs.blockSize), phys, count) && r.Ok? ==>
                  NodeAdded(alloc.fs, old(alloc.free), hint, root, r.value))
    ensures Journaled(alloc.fs, old(Now(alloc, txn)), Now(alloc, txn), Reached(alloc.fs, root, old(alloc.free), r), {})
    ensures alloc.free <= old(alloc.free)
    ensures r == Err(DepthLimit) ==>
              AppendView(View(false, [root.extents], []), LeafMaxEntries(alloc.fs.blockSize), phys, count).Err?
    ensures r.Err? ==> r.error == if old(alloc.free) == {} then Alloc(NoFreeBlocks) else DepthLimit
    ensures r.Err? && r.error.Alloc? ==>
              Ready(alloc, txn, root) && alloc.free == {} && Now(alloc, txn) == old(Now(alloc, txn))
  {
    hide DecodeNode, NodeAt, Consistent, IsFree, ReadAt, ChildSet, Keys, Pinned, Ready, NodesOk, IsLeaf, ViewOf,
      Journaled, Reached;
    ShallowFacts(alloc, txn, root);
    ghost var s0, free0 := Now(alloc, txn), alloc.free;
    var es := root.extents;
    if CanCoalesce(es, phys, count) {
      CoalescedInRange(es, phys, count);
      ReadyShallow(alloc, txn, root, Coalesced(es, count));
      assert [es][0 := Coalesced(es, count)] == [Coalesced(es, count)];
      r := Ok(root.(extents := Coalesced(es, count)));
      NothingTouched(alloc.fs, s0, Reached(alloc.fs, root, free0, r));
      return;
    }
    var e := NewExtent(es, phys, count);
    if |es| < root.max {
      ReadyShallow(alloc, txn, root, es + [e]);
      assert [es][0 := es + [e]] == [es + [e]];
      r := Ok(root.(extents := es + [e]));
      NothingTouched(alloc.fs, s0, Reached(alloc.fs, root, free0, r));
      return;
    }
    r := GrowTree(alloc, txn, root, hint);
    if r.Ok? {
      ghost var grown, free, s1 := r.value, alloc.free, Now(alloc, txn);
      r := AppendToLeaf(alloc, txn, r.value, e, hint, View(true, [es], [0]));
      TakenTwice(root, grown, r.value, old(alloc.free), free, alloc.free);
      ReachedTwice(alloc.fs, root, grown, r.value, free0, free, alloc.free);
      JournaledTogether(alloc.fs, s0, s1, Now(alloc, txn), Reached(alloc.fs, root, free0, Ok(grown)),
                        Reached(alloc.fs, grown, free, r), Reached(alloc.fs, root, free0, r));
    }
  }

  lemma TakenTwice(r0: Node, r1: Node, r2: Node, f0: set<nat>, f1: set<nat>, f2: set<nat>)
    requires NodesTaken(r0, r1, f0, f1) && NodesTaken(r1, r2, f1, f2)
    ensures NodesTaken(r0, r2, f0, f2)
  {
    forall c | c in Children(r2) - Children(r0) ensures c in f0 {
      if c in Children(r1) {
        assert c in Children(r1) - Children(r0);
      } else {
        assert c in Children(r2) - Children(r1);
      }
    }
  }

  lemma ReachedTwice(fs: Layout, r0: Node, r1: Node, r2: Node, f0: set<nat>, f1: set<nat>, f2: set<nat>)
    requires NodesTaken(r1, r2, f1, f2)
    ensures Reached(fs, r0, f0, Ok(r1)) <= Reached(fs, r0, f0, Ok(r2)) == Reached(fs, r1, f1, Ok(r2))
  {
    hide Children, MetaBlocks;
  }

  lemma ShallowFacts(alloc: Allocator, txn: Transaction, root: Node)
    requires Ready(alloc, txn, root) && root.Leaf?
    ensures 1024 <= alloc.fs.blockSize && root.max == ROOT_MAX_ENTRIES && |root.extents| <= ROOT_MAX_ENTRIES
    ensures forall e :: e in root.extents ==> e.InRange()
  {
  }

  /** A shallow root with other extents is as ready, and touches nothing on the device. */
  lemma ReadyShallow(alloc: Allocator, txn: Transaction, root: Node, es: seq<Extent>)
    requires Ready(alloc, txn, root) && root.Leaf?
    requires |es| <= ROOT_MAX_ENTRIES && forall e :: e in es ==> e.InRange()
    ensures Ready(alloc, txn, root.(extents := es))
    ensures ViewOf(alloc.dev.disk, alloc.fs.blockSize, root.(extents := es)) == View(false, [es], [])
    ensures NodesTaken(root, root.(extents := es), alloc.free, alloc.free)
  {
    hide DecodeNode, NodeAt, Consistent, IsFree, ReadAt, Pinned;
  }

  method AppendDeepTree(alloc: Allocator, txn: Transaction, root: Node, phys: nat, count: nat, hint: nat, ghost v: View)
      returns (r: Result<Node, WriteError>)
    requires Ready(alloc, txn, root) && root.Inner? && root.idx != []
    requires v == ViewOf(alloc.dev.disk, alloc.fs.blockSize, root)
    requires 1 <= count <= MAX_EXTENT_LEN && phys < U48
    modifies alloc`counts, alloc`free, alloc.dev`disk, txn`blocks
    ensures r.Ok? ==> Ready(alloc, txn, r.value)
                      && AppendView(v, LeafMaxEntries(alloc.fs.blockSize), phys, count)
                         == Ok(ViewOf(alloc.dev.disk, alloc.fs.blockSize, r.value))
    ensures r.Ok? ==> NodesTaken(root, r.value, old(alloc.free), alloc.free)
    ensures v.leaves != []
    ensures !NeedsNode(v, LeafMaxEntries(alloc.fs.blockSize), phys, count) ==>
              r.Ok? && Children(r.value) == Children(root)
    ensures NeedsNode(v, LeafMaxEntries(alloc.fs.blockSize), phys, count) && r.Ok? ==>
              NodeAdded(alloc.fs, old(alloc.free), hint, root, r.value)
    ensures Journaled(alloc.fs, old(Now(alloc, txn)), Now(alloc, txn), Reached(alloc.fs, root, old(alloc.free), r), {})
    ensures alloc.free <= old(alloc.free)
    ensures r == Err(DepthLimit) ==> AppendView(v, LeafMaxEntries(alloc.fs.blockSize), phys, count).Err?
    ensures r.Err? ==> r.error == if old(alloc.free) == {} then Alloc(NoFreeBlocks) else DepthLimit
    ensures r.Err? && r.error.Alloc? ==>
              Ready(alloc, txn, root) && alloc.free == {} && Now(alloc, txn) == old(Now(alloc, txn))
  {
    hide DecodeNode, NodeAt, Consistent, IsFree, ReadAt, ChildSet, Keys, Pinned, Ready, NodesOk, IsLeaf, ViewOf,
      Journaled;
    ghost var s0, free0 := Now(alloc, txn), alloc.free;
    DeepView(alloc.dev.disk, alloc.fs.blockSize, root);
    var n := |root.idx| - 1;
    ReadyLeaf(alloc, txn, root, n);
    var es := ReadLeafPinned(alloc.dev, txn, root.idx[n].child);
    if CanCoalesce(es, phys, count) {
      NothingTaken(alloc, txn, root);
      CoalescedInRange(es, phys, count);
      WriteLeaf(alloc, txn, root, n, Coalesced(es, count));
      DeepView(alloc.dev.disk, alloc.fs.blockSize, root);
      r := Ok(root);
      JournaledMore(alloc.fs, s0, Now(alloc, txn), {root.idx[n].child}, {}, Reached(alloc.fs, root, free0, r), {});
    } else {
      r := AppendToLeaf(alloc, txn, root, NewExtent(es, phys, count), hint, v);
    }
  }

  lemma CoalescedInRange(es: seq<Extent>, phys: nat, count: nat)
    requires CanCoalesce(es, phys, count) && forall e :: e in es ==> e.InRange()
    ensures forall e :: e in Coalesced(es, count) ==> e.InRange()
  {
    assert es[|es| - 1] in es;
  }

  // ---- the blocks of a file ----

  /** The blocks of a file: its data and its leaf blocks. */
  function FileBlocks(v: View, root: Node): set<nat> { DataBlocks(All(v)) + Children(root) }

  /** They are all in use, and none serves two purposes. */
  ghost predicate Owns(fs: Layout, free: set<nat>, v: View, root: Node) {
    DisjointData(All(v)) && DataBlocks(All(v)) !! Children(root) && InUse(fs, free, FileBlocks(v, root))
  }

  /** An append adds the appended run and the new leaf blocks to the blocks of the file, and keeps
      them apart. */
  lemma AppendKeepsOwns(fs: Layout, free: set<nat>, free': set<nat>, v: View, root: Node, root': Node,
                        m: nat, phys: nat, count: nat)
    requires WellShaped(v, m) && AppendView(v, m, phys, count).Ok? && 1 <= count <= MAX_EXTENT_LEN
    requires Owns(fs, free, v, root) && NodesTaken(root, root', free, free') && InUse(fs, free', Children(root'))
    requires InUse(fs, free, Range(phys, count)) && Range(phys, count) !! FileBlocks(v, root)
    ensures Owns(fs, free', AppendView(v, m, phys, count).value, root')
    ensures DataBlocks(All(AppendView(v, m, phys, count).value)) == DataBlocks(All(v)) + Range(phys, count)
  {
    hide Range, DataBlocks, DisjointData, AppendView, Volume, MetaBlocks, Children, WellShaped;
    AppendFlattens(v, m, phys, count);
    AppendAddsData(All(v), phys, count);
  }
}

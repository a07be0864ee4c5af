/** Truncating the extent tree on the device: extents are dropped or cut in place, their blocks
    and the emptied or dropped leaf blocks are freed one by one. */
module ExtentTruncate {
  import opened Base
  import opened Device
  import opened BlockAlloc
  import opened ExtentNode
  import opened ExtentMap
  import opened ExtentView
  import opened ExtentAppend

  /** The end of an extent as the code computes it, with a saturating addition. */
  function Last(e: Extent): nat { Min(e.End(), U32 - 1) }

  /** The run the code frees of one extent. */
  function FreedRun(e: Extent, k: nat): (nat, nat) {
    if e.block >= k then (e.start, e.Len())
    else if Last(e) > k then (e.start + (k - e.block), Last(e) - k)
    else (e.start + e.Len(), 0)
  }

  /** No extent is cut that ends past the largest 32-bit block number. */
  predicate Addressable(es: seq<Extent>, k: nat) {
    forall e :: e in es ==> e.block < k < e.End() ==> e.End() < U32
  }

  /** The code frees exactly what a truncation drops if and only if it does not cut an extent that ends
      past the largest block number: of such an extent some blocks stay in use. */
  lemma FreedExactly(e: Extent, k: nat)
    ensures FreedRun(e, k) == DroppedRun(e, k) <==> Addressable([e], k)
    ensures Addressable([e], k) && e.block < k ==> (Last(e) > k <==> e.End() > k)
  {
    assert e in [e];
  }

  /** The revoke list has grown by exactly these blocks, each listed twice: once by the allocator and once by
      the truncation. */
  ghost predicate RevokedTwice(revoked: seq<nat>, revoked': seq<nat>, blocks: set<nat>) {
    && revoked <= revoked' && |revoked'| == |revoked| + 2 * |blocks|
    && forall b :: b in revoked'[|revoked|..] <==> b in blocks
  }

  /** What has become free has been revoked, and nothing else has. */
  ghost predicate FreesRevoked(free: set<nat>, free': set<nat>, revoked: seq<nat>, revoked': seq<nat>) {
    free <= free' && RevokedTwice(revoked, revoked', free' - free)
  }

  lemma NothingRevoked(free: set<nat>, revoked: seq<nat>)
    ensures FreesRevoked(free, free, revoked, revoked)
  {
    assert free - free == {};
  }

  lemma RevokedMore(f0: set<nat>, f1: set<nat>, f2: set<nat>, r0: seq<nat>, r1: seq<nat>, r2: seq<nat>)
    requires FreesRevoked(f0, f1, r0, r1) && FreesRevoked(f1, f2, r1, r2)
    ensures FreesRevoked(f0, f2, r0, r2)
  {
    assert f2 - f0 == (f1 - f0) + (f2 - f1) && (f1 - f0) !! (f2 - f1);
    assert r2[|r0|..] == r1[|r0|..] + r2[|r1|..];
  }

  lemma OneRevoked(free: set<nat>, revoked: seq<nat>, b: nat)
    requires b !in free
    ensures FreesRevoked(free, free + {b}, revoked, revoked + [b] + [b])
  {
    assert (free + {b}) - free == {b};
    assert (revoked + [b] + [b])[|revoked|..] == [b, b];
  }

  lemma FreeRunStep(fs: Layout, free: set<nat>, start: nat, count: nat, b: nat)
    requires InUse(fs, free, Range(start, count)) && b < count
    ensures start + b < Volume(fs) && start + b !in MetaBlocks(fs) && start + b !in free + Range(start, b)
    ensures (free + Range(start, b)) + {start + b} == free + Range(start, b + 1)
  {
    hide Range, Volume, MetaBlocks;
    assert start + b in Range(start, count);
    assert Range(start, b + 1) == Range(start, b) + {start + b};
  }

  /** Frees one block, which revokes it, and revokes it once more. */
  method FreeOne(alloc: Allocator, txn: Transaction, b: nat) returns (r: Result<(), AllocError>)
    requires alloc.Valid() && txn.Valid() && b < Volume(alloc.fs) && b !in MetaBlocks(alloc.fs) && b !in alloc.free
    modifies alloc`counts, alloc`free, alloc.dev`disk, txn`blocks, txn`revoked
    ensures FreesRevoked(old(alloc.free), alloc.free, old(txn.revoked), txn.revoked)
    ensures alloc.Valid() && txn.Valid()
    ensures r == Ok(()) && alloc.free == old(alloc.free) + {b}
    ensures Total(alloc.counts) == Total(old(alloc.counts)) + 1
    ensures OnlyMeta(alloc.fs, old(Now(alloc, txn)), Now(alloc, txn))
  {
    hide Allocator.Valid, OnlyMeta, Volume, MetaBlocks, Total, FreesRevoked, CountPinned, GroupOf;
    ghost var free, revoked := alloc.free, txn.revoked;
    var f := alloc.FreeBlock(txn, b);
    if f.Err? { return f; }
    txn.RevokeBlock(b);
    OneRevoked(free, revoked, b);
    return Ok(());
  }

  /** Frees and revokes `count` blocks from `start` on; none of them is free yet, so none is freed twice. */
  method FreeRun(alloc: Allocator, txn: Transaction, start: nat, count: nat) returns (r: Result<(), AllocError>)
    requires alloc.Valid() && txn.Valid() && InUse(alloc.fs, alloc.free, Range(start, count))
    modifies alloc`counts, alloc`free, alloc.dev`disk, txn`blocks, txn`revoked
    ensures FreesRevoked(old(alloc.free), alloc.free, old(txn.revoked), txn.revoked)
    ensures alloc.Valid() && txn.Valid()
    ensures r == Ok(()) && alloc.free == old(alloc.free) + Range(start, count)
    ensures Total(alloc.counts) == Total(old(alloc.counts)) + count
    ensures OnlyMeta(alloc.fs, old(Now(alloc, txn)), Now(alloc, txn))
  {
    hide Allocator.Valid, OnlyMeta, ReadAt, Range, Volume, MetaBlocks, Total, InUse, FreesRevoked;
    var b := 0;
    NothingRevoked(alloc.free, txn.revoked);
    assert Range(start, 0) == {};
    NothingTouched(alloc.fs, Now(alloc, txn), {});
    while b < count
      invariant 0 <= b <= count
      invariant alloc.Valid() && txn.Valid()
      invariant alloc.free == old(alloc.free) + Range(start, b)
      invariant Total(alloc.counts) == Total(old(alloc.counts)) + b
      invariant OnlyMeta(alloc.fs, old(Now(alloc, txn)), Now(alloc, txn))
      invariant FreesRevoked(old(alloc.free), alloc.free, old(txn.revoked), txn.revoked)
    {
      FreeRunStep(alloc.fs, old(alloc.free), start, count, b);
      ghost var was, free, revoked := Now(alloc, txn), alloc.free, txn.revoked;
      var f := FreeOne(alloc, txn, start + b);
      if f.Err? { return f; }
      OnlyMetaTwice(alloc.fs, old(Now(alloc, txn)), was, Now(alloc, txn));
      RevokedMore(old(alloc.free), free, alloc.free, old(txn.revoked), revoked, txn.revoked);
      b := b + 1;
    }
    return Ok(());
  }

  /** Removes from a leaf's extents everything from block `k` on. The list is edited in place while
      a cursor walks over it. */
  method TruncateLeaf(alloc: Allocator, txn: Transaction, orig: seq<Extent>, k: nat)
      returns (r: Result<seq<Extent>, AllocError>)
    requires alloc.Valid() && txn.Valid() && DisjointData(orig) && InUse(alloc.fs, alloc.free, DataBlocks(orig))
    requires Addressable(orig, k)
    modifies alloc`counts, alloc`free, alloc.dev`disk, txn`blocks, txn`revoked
    ensures FreesRevoked(old(alloc.free), alloc.free, old(txn.revoked), txn.revoked)
    ensures alloc.Valid() && txn.Valid()
    ensures r == Ok(TruncExtents(orig, k)) && alloc.free == old(alloc.free) + Dropped(orig, k)
    ensures Total(alloc.counts) == Total(old(alloc.counts)) + DroppedCount(orig, k)
    ensures OnlyMeta(alloc.fs, old(Now(alloc, txn)), Now(alloc, txn))
  {
    hide Allocator.Valid, OnlyMeta, ReadAt, Range, DroppedRun, FreedRun, Last, Addressable, DataBlocks, DisjointData,
      Volume, MetaBlocks, Total, InUse, TruncExtents, Dropped, DroppedCount, FreesRevoked;
    NothingTouched(alloc.fs, Now(alloc, txn), {});
    NothingRevoked(alloc.free, txn.revoked);
    NothingDropped(k);
    var es, i := orig, 0;
    ghost var p := 0;
    assert orig[..0] == [];
    while i < |es|
      invariant 0 <= p <= |orig| && i == |TruncExtents(orig[..p], k)|
      invariant es == TruncExtents(orig[..p], k) + orig[p..]
      invariant alloc.Valid() && txn.Valid()
      invariant alloc.free == old(alloc.free) + Dropped(orig[..p], k)
      invariant Total(alloc.counts) == Total(old(alloc.counts)) + DroppedCount(orig[..p], k)
      invariant OnlyMeta(alloc.fs, old(Now(alloc, txn)), Now(alloc, txn))
      invariant FreesRevoked(old(alloc.free), alloc.free, old(txn.revoked), txn.revoked)
      decreases |orig| - p
    {
      ghost var done := TruncExtents(orig[..p], k);
      var e := es[i];
      DropNext(alloc.fs, old(alloc.free), orig, k, p);
      DropStep(orig, k, p);
      FreedExactly(e, k);
      OneAddressable(orig, k, p);
      ghost var was, free, revoked := Now(alloc, txn), alloc.free, txn.revoked;
      var f := FreeRun(alloc, txn, FreedRun(e, k).0, FreedRun(e, k).1);
      RevokedMore(old(alloc.free), free, alloc.free, old(txn.revoked), revoked, txn.revoked);
      match f {
        case Err(e) => return Err(e);
        case Ok(_) =>
      }
      OnlyMetaTwice(alloc.fs, old(Now(alloc, txn)), was, Now(alloc, txn));
      if e.block >= k {
        es := es[..i] + es[i + 1..];
      } else if Last(e) > k {
        es := es[i := Trimmed(e, k)];
        i := i + 1;
      } else {
        i := i + 1;
      }
      EditStep(done, orig, p, k);
      p := p + 1;
    }
    assert p == |orig|;
    assert orig[..p] == orig && orig[p..] == [];
    assert es == TruncExtents(orig, k);
    return Ok(es);
  }

  lemma OneAddressable(es: seq<Extent>, k: nat, p: nat)
    requires Addressable(es, k) && p < |es|
    ensures Addressable([es[p]], k)
  {
    assert es[p] in es;
  }

  /** The edit at the cursor, for each of the three cases. */
  lemma EditStep(done: seq<Extent>, orig: seq<Extent>, p: nat, k: nat)
    requires p < |orig|
    ensures var es, i, e := done + orig[p..], |done|, orig[p];
            && (e.block >= k ==> es[..i] + es[i + 1..] == (done + Kept(e, k)) + orig[p + 1..])
            && (e.block < k < e.End() ==> es[i := Trimmed(e, k)] == (done + Kept(e, k)) + orig[p + 1..])
            && (e.block < k && e.End() <= k ==> es == (done + Kept(e, k)) + orig[p + 1..])
  {
    assert orig[p..] == [orig[p]] + orig[p + 1..];
  }

  /** One more extent: what is dropped and what is kept. */
  lemma DropStep(es: seq<Extent>, k: nat, p: nat)
    requires p < |es|
    ensures var run := DroppedRun(es[p], k);
            && Dropped(es[..p + 1], k) == Dropped(es[..p], k) + Range(run.0, run.1)
            && DroppedCount(es[..p + 1], k) == DroppedCount(es[..p], k) + run.1
            && TruncExtents(es[..p + 1], k) == TruncExtents(es[..p], k) + Kept(es[p], k)
  {
    TruncLast(es[..p + 1], k);
    assert es[..p + 1][..p] == es[..p];
  }

  /** Blocks in use stay so while others are freed. */
  lemma StillInUse(fs: Layout, free: set<nat>, all: set<nat>, freed: set<nat>, here: set<nat>)
    requires InUse(fs, free, all) && here <= all && freed !! here
    ensures InUse(fs, free + freed, here)
  {
    hide Volume, MetaBlocks;
  }

  /** The blocks dropped from extent `p` are still in use after those before it are freed. */
  lemma DropNext(fs: Layout, free: set<nat>, es: seq<Extent>, k: nat, p: nat)
    requires DisjointData(es) && InUse(fs, free, DataBlocks(es)) && p < |es|
    ensures var run := DroppedRun(es[p], k); InUse(fs, free + Dropped(es[..p], k), Range(run.0, run.1))
  {
    hide Range, DataBlocks, DisjointData, TruncExtents, DroppedRun, Dropped, InUse;
    var run := DroppedRun(es[p], k);
    var init, e, tail := es[..p], es[p], es[p + 1..];
    assert es == (init + [e]) + tail;
    DataConcat(init + [e], tail);
    DataConcat(init, [e]);
    SingleData(e);
    TruncSplitsData(init, k);
    KeptData(e, k);
    assert Range(run.0, run.1) <= DataBlocks([e]) <= DataBlocks(es);
    assert Dropped(init, k) <= DataBlocks(init);
    StillInUse(fs, free, DataBlocks(es), Dropped(init, k), Range(run.0, run.1));
  }

  /** The free loop over a whole leaf: every block of every extent. */
  method FreeLeaf(alloc: Allocator, txn: Transaction, es: seq<Extent>) returns (r: Result<(), AllocError>)
    requires alloc.Valid() && txn.Valid() && DisjointData(es) && InUse(alloc.fs, alloc.free, DataBlocks(es))
    modifies alloc`counts, alloc`free, alloc.dev`disk, txn`blocks, txn`revoked
    ensures FreesRevoked(old(alloc.free), alloc.free, old(txn.revoked), txn.revoked)
    ensures alloc.Valid() && txn.Valid()
    ensures r == Ok(()) && alloc.free == old(alloc.free) + Dropped(es, 0)
    ensures Total(alloc.counts) == Total(old(alloc.counts)) + DroppedCount(es, 0)
    ensures OnlyMeta(alloc.fs, old(Now(alloc, txn)), Now(alloc, txn))
  {
    hide Allocator.Valid, OnlyMeta, ReadAt, Range, DataBlocks, DisjointData, Volume, MetaBlocks, Total, InUse,
      Dropped, DroppedCount, FreesRevoked;
    NothingTouched(alloc.fs, Now(alloc, txn), {});
    NothingRevoked(alloc.free, txn.revoked);
    NothingDropped(0);
    assert es[..0] == [];
    var i := 0;
    while i < |es|
      invariant 0 <= i <= |es|
      invariant alloc.Valid() && txn.Valid()
      invariant alloc.free == old(alloc.free) + Dropped(es[..i], 0)
      invariant Total(alloc.counts) == Total(old(alloc.counts)) + DroppedCount(es[..i], 0)
      invariant OnlyMeta(alloc.fs, old(Now(alloc, txn)), Now(alloc, txn))
      invariant FreesRevoked(old(alloc.free), alloc.free, old(txn.revoked), txn.revoked)
    {
      DropNext(alloc.fs, old(alloc.free), es, 0, i);
      DropStep(es, 0, i);
      ghost var was, free, revoked := Now(alloc, txn), alloc.free, txn.revoked;
      var f := FreeRun(alloc, txn, es[i].start, es[i].Len());
      RevokedMore(old(alloc.free), free, alloc.free, old(txn.revoked), revoked, txn.revoked);
      if f.Err? { return f; }
      OnlyMetaTwice(alloc.fs, old(Now(alloc, txn)), was, Now(alloc, txn));
      i := i + 1;
    }
    assert es[..i] == es;
    return Ok(());
  }

  /** Freeing blocks that are not nodes of the tree leaves the tree ready and unchanged. */
  lemma ReadyAfterFree(alloc: Allocator, txn: Transaction, root: Node, was: Snapshot, free: set<nat>, freed: set<nat>)
    requires alloc.Valid() && txn.Valid() && Volume(alloc.fs) <= U48 && 1024 <= alloc.fs.blockSize <= U16
    requires NodesOk(was.disk, alloc.fs.blockSize, root) && InUse(alloc.fs, free, Children(root))
    requires Coherent(was.pins, was.disk, alloc.fs.blockSize, Children(root))
    requires alloc.free == free + freed && freed !! Children(root)
    requires OnlyMeta(alloc.fs, was, Now(alloc, txn))
    ensures Ready(alloc, txn, root)
    ensures ViewOf(alloc.dev.disk, alloc.fs.blockSize, root) == ViewOf(was.disk, alloc.fs.blockSize, root)
  {
    hide DecodeNode, NodeAt, Consistent, IsFree, Pinned, ChildSet, NodesOk, ViewOf, Volume, MetaBlocks, OnlyMeta;
    OnlyMetaSame(alloc.fs, was, Now(alloc, txn));
    ShapeUnchanged(was.disk, alloc.dev.disk, alloc.fs.blockSize, root, MetaBlocks(alloc.fs));
  }

  /** Truncates the extents `es`, whose blocks are not nodes of `root`. */
  method TruncateData(alloc: Allocator, txn: Transaction, root: Node, es: seq<Extent>, k: nat)
      returns (r: Result<seq<Extent>, AllocError>)
    requires Ready(alloc, txn, root) && DisjointData(es) && Addressable(es, k)
    requires InUse(alloc.fs, alloc.free, DataBlocks(es)) && DataBlocks(es) !! Children(root)
    modifies alloc`counts, alloc`free, alloc.dev`disk, txn`blocks, txn`revoked
    ensures FreesRevoked(old(alloc.free), alloc.free, old(txn.revoked), txn.revoked)
    ensures Ready(alloc, txn, root)
    ensures ViewOf(alloc.dev.disk, alloc.fs.blockSize, root) == old(ViewOf(alloc.dev.disk, alloc.fs.blockSize, root))
    ensures r == Ok(TruncExtents(es, k)) && alloc.free == old(alloc.free) + Dropped(es, k)
    ensures Total(alloc.counts) == Total(old(alloc.counts)) + DroppedCount(es, k)
    ensures OnlyMeta(alloc.fs, old(Now(alloc, txn)), Now(alloc, txn))
  {
    hide DecodeNode, NodeAt, Consistent, IsFree, Pinned, ChildSet, NodesOk, ViewOf, Volume, MetaBlocks, OnlyMeta,
      Coherent, InUse, DataBlocks, DisjointData, TruncExtents, Dropped, DroppedCount, Total;
    TruncSplitsData(es, k);
    ghost var was, free := Now(alloc, txn), alloc.free;
    r := TruncateLeaf(alloc, txn, es, k);
    ReadyAfterFree(alloc, txn, root, was, free, Dropped(es, k));
  }

  method FreeData(alloc: Allocator, txn: Transaction, root: Node, es: seq<Extent>)
      returns (r: Result<(), AllocError>)
    requires Ready(alloc, txn, root) && DisjointData(es)
    requires InUse(alloc.fs, alloc.free, DataBlocks(es)) && DataBlocks(es) !! Children(root)
    modifies alloc`counts, alloc`free, alloc.dev`disk, txn`blocks, txn`revoked
    ensures FreesRevoked(old(alloc.free), alloc.free, old(txn.revoked), txn.revoked)
    ensures Ready(alloc, txn, root)
    ensures ViewOf(alloc.dev.disk, alloc.fs.blockSize, root) == old(ViewOf(alloc.dev.disk, alloc.fs.blockSize, root))
    ensures r == Ok(()) && alloc.free == old(alloc.free) + Dropped(es, 0)
    ensures Total(alloc.counts) == Total(old(alloc.counts)) + DroppedCount(es, 0)
    ensures OnlyMeta(alloc.fs, old(Now(alloc, txn)), Now(alloc, txn))
  {
    hide DecodeNode, NodeAt, Consistent, IsFree, Pinned, ChildSet, NodesOk, ViewOf, Volume, MetaBlocks, OnlyMeta,
      Coherent, InUse, DataBlocks, DisjointData, TruncExtents, Dropped, DroppedCount, Total;
    TruncSplitsData(es, 0);
    ghost var was, free := Now(alloc, txn), alloc.free;
    r := FreeLeaf(alloc, txn, es);
    ReadyAfterFree(alloc, txn, root, was, free, Dropped(es, 0));
  }

  /** Frees a leaf block that the root no longer refers to. */
  method FreeNode(alloc: Allocator, txn: Transaction, root: Node, b: nat) returns (r: Result<(), AllocError>)
    requires Ready(alloc, txn, root) && InUse(alloc.fs, alloc.free, {b}) && b !in Children(root)
    modifies alloc`counts, alloc`free, alloc.dev`disk, txn`blocks, txn`revoked
    ensures FreesRevoked(old(alloc.free), alloc.free, old(txn.revoked), txn.revoked)
    ensures Ready(alloc, txn, root)
    ensures ViewOf(alloc.dev.disk, alloc.fs.blockSize, root) == old(ViewOf(alloc.dev.disk, alloc.fs.blockSize, root))
    ensures r == Ok(()) && alloc.free == old(alloc.free) + {b}
    ensures Total(alloc.counts) == Total(old(alloc.counts)) + 1
    ensures OnlyMeta(alloc.fs, old(Now(alloc, txn)), Now(alloc, txn))
  {
    hide DecodeNode, NodeAt, Consistent, IsFree, Pinned, ChildSet, NodesOk, ViewOf, Volume, MetaBlocks, OnlyMeta, Total;
    assert b in {b};
    ghost var was, free := Now(alloc, txn), alloc.free;
    r := FreeOne(alloc, txn, b);
    if r.Err? { return; }
    ReadyAfterFree(alloc, txn, root, was, free, {b});
  }

  /** The root without its index entry `i`. */
  function Without(root: Node, i: nat): Node
    requires root.Inner? && i < |root.idx|
  {
    root.(idx := root.idx[..i] + root.idx[i + 1..])
  }

  lemma WithoutAt(idx: seq<Idx>, i: nat)
    requires i < |idx|
    ensures var idx' := idx[..i] + idx[i + 1..];
            && |idx'| == |idx| - 1
            && forall j :: 0 <= j < |idx'| ==> idx'[j] == if j < i then idx[j] else idx[j + 1]
  {
  }

  lemma ChildStays(idx: seq<Idx>, i: nat, c: nat)
    requires i < |idx| && c in ChildSet(idx) && c != idx[i].child
    ensures c in ChildSet(idx[..i] + idx[i + 1..])
  {
    hide ChildSet;
    var j :| 0 <= j < |idx| && idx[j].child == c;
    WithoutAt(idx, i);
    assert (idx[..i] + idx[i + 1..])[if j < i then j else j - 1] == idx[j];
  }

  lemma ChildWas(idx: seq<Idx>, i: nat, c: nat)
    requires i < |idx| && c in ChildSet(idx[..i] + idx[i + 1..])
    requires forall j, h :: 0 <= j < h < |idx| ==> idx[j].child != idx[h].child
    ensures c in ChildSet(idx) && c != idx[i].child
  {
    hide ChildSet;
    var idx' := idx[..i] + idx[i + 1..];
    var j :| 0 <= j < |idx'| && idx'[j].child == c;
    WithoutAt(idx, i);
    assert idx'[j] == idx[if j < i then j else j + 1];
  }

  lemma ChildrenWithout(root: Node, i: nat)
    requires root.Inner? && i < |root.idx|
    requires forall j, h :: 0 <= j < h < |root.idx| ==> root.idx[j].child != root.idx[h].child
    ensures Children(Without(root, i)) == Children(root) - {root.idx[i].child}
  {
    hide ChildSet;
    forall c | c in Children(root) && c != root.idx[i].child ensures c in Children(Without(root, i)) {
      ChildStays(root.idx, i, c);
    }
    forall c | c in Children(Without(root, i)) ensures c in Children(root) && c != root.idx[i].child {
      ChildWas(root.idx, i, c);
    }
  }

  lemma NodesWithout(disk: Disk, bs: nat, root: Node, i: nat)
    requires bs >= 12 && NodesOk(disk, bs, root) && root.Inner? && i < |root.idx|
    ensures NodesOk(disk, bs, Without(root, i))
  {
    hide NodeAt, LeafAt, IsLeaf, ChildSet, LeavesAt, Keys;
    WithoutAt(root.idx, i);
  }

  lemma ListsWithout(disk: Disk, bs: nat, root: Node, i: nat)
    requires bs >= 12 && root.Inner? && i < |root.idx|
    ensures var leaves := LeavesAt(disk, bs, root.idx);
            LeavesAt(disk, bs, Without(root, i).idx) == leaves[..i] + leaves[i + 1..]
    ensures Keys(Without(root, i).idx) == Keys(root.idx)[..i] + Keys(root.idx)[i + 1..]
  {
    hide LeafAt, LeavesAt, Keys;
    WithoutAt(root.idx, i);
  }

  /** A subset of the blocks is as much in use and as coherent. */
  lemma FewerBlocks(fs: Layout, free: set<nat>, pins: Pins, disk: Disk, bs: nat, s: set<nat>, t: set<nat>)
    requires InUse(fs, free, s) && Coherent(pins, disk, bs, s) && t <= s
    ensures InUse(fs, free, t) && Coherent(pins, disk, bs, t)
  {
  }

  lemma ReadyWithout(alloc: Allocator, txn: Transaction, root: Node, i: nat)
    requires Ready(alloc, txn, root) && root.Inner? && i < |root.idx|
    ensures Ready(alloc, txn, Without(root, i))
    ensures Children(Without(root, i)) == Children(root) - {root.idx[i].child}
    ensures InUse(alloc.fs, alloc.free, {root.idx[i].child})
  {
    hide NodeAt, Consistent, IsFree, ReadAt, Pinned, Volume, MetaBlocks, ChildSet, IsLeaf, NodesOk, InUse, Coherent,
      Allocator.Valid, Without, LeavesAt, Keys;
    NodesWithout(alloc.dev.disk, alloc.fs.blockSize, root, i);
    DistinctChildren(alloc.dev.disk, alloc.fs.blockSize, root);
    ChildrenWithout(root, i);
    assert root.idx[i].child in Children(root);
    FewerBlocks(alloc.fs, alloc.free, txn.blocks, alloc.dev.disk, alloc.fs.blockSize, Children(root),
                Children(Without(root, i)));
    FewerBlocks(alloc.fs, alloc.free, txn.blocks, alloc.dev.disk, alloc.fs.blockSize, Children(root),
                {root.idx[i].child});
  }

  lemma DistinctChildren(disk: Disk, bs: nat, root: Node)
    requires bs >= 12 && NodesOk(disk, bs, root) && root.Inner?
    ensures forall j, h :: 0 <= j < h < |root.idx| ==> root.idx[j].child != root.idx[h].child
  {
  }

  lemma ReadyNodes(alloc: Allocator, txn: Transaction, root: Node)
    requires Ready(alloc, txn, root)
    ensures 1024 <= alloc.fs.blockSize && NodesOk(alloc.dev.disk, alloc.fs.blockSize, root)
  {
  }

  /** Takes entry `i` out of the root and frees its leaf block. */
  method RemoveChild(alloc: Allocator, txn: Transaction, root: Node, i: nat) returns (r: Result<Node, AllocError>)
    requires Ready(alloc, txn, root) && root.Inner? && i < |root.idx|
    modifies alloc`counts, alloc`free, alloc.dev`disk, txn`blocks, txn`revoked
    ensures FreesRevoked(old(alloc.free), alloc.free, old(txn.revoked), txn.revoked)
    ensures r.Ok? && Ready(alloc, txn, r.value) && r.value == Without(root, i)
    ensures Children(r.value) == Children(root) - {root.idx[i].child}
    ensures LeavesAt(alloc.dev.disk, alloc.fs.blockSize, r.value.idx)
            == old(LeavesAt(alloc.dev.disk, alloc.fs.blockSize, root.idx)[..i]
                   + LeavesAt(alloc.dev.disk, alloc.fs.blockSize, root.idx)[i + 1..])
    ensures Keys(r.value.idx) == Keys(root.idx)[..i] + Keys(root.idx)[i + 1..]
    ensures alloc.free == old(alloc.free) + {root.idx[i].child}
    ensures Total(alloc.counts) == Total(old(alloc.counts)) + 1
    ensures OnlyMeta(alloc.fs, old(Now(alloc, txn)), Now(alloc, txn))
  {
    hide ChildSet, NodesOk, Volume, MetaBlocks, InUse, Total, Ready, Keys, LeafAt, LeavesAt, OnlyMeta;
    var root' := Without(root, i);
    ReadyNodes(alloc, txn, root);
    ListsWithout(alloc.dev.disk, alloc.fs.blockSize, root, i);
    ReadyWithout(alloc, txn, root, i);
    var f := FreeNode(alloc, txn, root', root.idx[i].child);
    match f {
      case Err(e) => return Err(e);
      case Ok(_) =>
    }
    return Ok(root');
  }

  /** The leaf under an index entry with this key goes altogether. */
  predicate Goes(key: nat, k: nat) { k == 0 || key >= k }

  /** One step of the walk over the root's index: the leaf under entry `i` is dropped with all its
      blocks, or truncated in its place. */
  method TruncateChild(alloc: Allocator, txn: Transaction, root: Node, i: nat, k: nat, ghost leaves: seq<seq<Extent>>)
      returns (r: Result<Node, AllocError>)
    requires Ready(alloc, txn, root) && root.Inner? && i < |root.idx|
    requires leaves == LeavesAt(alloc.dev.disk, alloc.fs.blockSize, root.idx)
    requires DisjointData(leaves[i]) && InUse(alloc.fs, alloc.free, DataBlocks(leaves[i])) && Addressable(leaves[i], k)
    requires DataBlocks(leaves[i]) !! Children(root)
    modifies alloc`counts, alloc`free, alloc.dev`disk, txn`blocks, txn`revoked
    ensures FreesRevoked(old(alloc.free), alloc.free, old(txn.revoked), txn.revoked)
    ensures r.Ok? && Ready(alloc, txn, r.value)
    ensures Goes(root.idx[i].key, k) ==>
              && r.value == Without(root, i) && Children(r.value) == Children(root) - {root.idx[i].child}
              && LeavesAt(alloc.dev.disk, alloc.fs.blockSize, r.value.idx) == leaves[..i] + leaves[i + 1..]
              && Keys(r.value.idx) == Keys(root.idx)[..i] + Keys(root.idx)[i + 1..]
              && alloc.free == old(alloc.free) + Dropped(leaves[i], 0) + {root.idx[i].child}
              && Total(alloc.counts) == Total(old(alloc.counts)) + DroppedCount(leaves[i], 0) + 1
    ensures !Goes(root.idx[i].key, k) ==>
              && r.value == root
              && LeavesAt(alloc.dev.disk, alloc.fs.blockSize, root.idx) == leaves[i := TruncExtents(leaves[i], k)]
              && alloc.free == old(alloc.free) + Dropped(leaves[i], k)
              && Total(alloc.counts) == Total(old(alloc.counts)) + DroppedCount(leaves[i], k)
    ensures Journaled(alloc.fs, old(Now(alloc, txn)), Now(alloc, txn), Children(root) + MetaBlocks(alloc.fs), {})
  {
    hide DecodeNode, NodeAt, Consistent, IsFree, Pinned, ChildSet, NodesOk, Volume, MetaBlocks, InUse, DataBlocks,
      DisjointData, TruncExtents, Dropped, DroppedCount, Total, Ready, Coherent, ReadAt, IsLeaf, Keys, LeafAt, Without,
      FreesRevoked, Journaled;
    var x := root.idx[i];
    ghost var s0, s := Now(alloc, txn), Children(root) + MetaBlocks(alloc.fs);
    ghost var free0, revoked0 := alloc.free, txn.revoked;
    ReadyLeaf(alloc, txn, root, i);
    var es := ReadLeaf(alloc.dev, x.child);
    if x.key >= k && k > 0 {
      var f := FreeData(alloc, txn, root, es);
      match f {
        case Err(e) => return Err(e);
        case Ok(_) =>
      }
      ghost var s1, free, revoked := Now(alloc, txn), alloc.free, txn.revoked;
      r := RemoveChild(alloc, txn, root, i);
      RevokedMore(free0, free, alloc.free, revoked0, revoked, txn.revoked);
      JournaledTogether(alloc.fs, s0, s1, Now(alloc, txn), MetaBlocks(alloc.fs), MetaBlocks(alloc.fs), s);
    } else {
      TruncInRange(es, k);
      TruncZero(es);
      var t := TruncateData(alloc, txn, root, es, k);
      match t {
        case Err(e) => return Err(e);
        case Ok(_) =>
      }
      ghost var s1 := Now(alloc, txn);
      if t.value == [] && k == 0 {
        ghost var free, revoked := alloc.free, txn.revoked;
        r := RemoveChild(alloc, txn, root, i);
        RevokedMore(free0, free, alloc.free, revoked0, revoked, txn.revoked);
        JournaledTogether(alloc.fs, s0, s1, Now(alloc, txn), MetaBlocks(alloc.fs), MetaBlocks(alloc.fs), s);
      } else {
        WriteLeaf(alloc, txn, root, i, t.value);
        r := Ok(root);
        JournaledTogether(alloc.fs, s0, s1, Now(alloc, txn), MetaBlocks(alloc.fs), {x.child}, s);
      }
    }
  }

  lemma {:induction false} TruncInRange(es: seq<Extent>, k: nat)
    requires forall e :: e in es ==> e.InRange()
    ensures forall e :: e in TruncExtents(es, k) ==> e.InRange()
  {
    if es != [] {
      assert es[|es| - 1] in es;
      TruncInRange(es[..|es| - 1], k);
    }
  }

  // ---- the whole tree ----

  /** The index entries a truncation at `k` leaves. */
  function KeptIdx(idx: seq<Idx>, k: nat): (r: seq<Idx>)
    ensures |r| <= |idx|
  {
    if idx == [] then []
    else
      var rest := KeptIdx(idx[..|idx| - 1], k);
      if Goes(idx[|idx| - 1].key, k) then rest else rest + [idx[|idx| - 1]]
  }

  /** The blocks freed at one leaf, and how many calls free them. */
  function FreedAt(x: Idx, leaf: seq<Extent>, k: nat): (set<nat>, nat) {
    if Goes(x.key, k) then (Dropped(leaf, 0) + {x.child}, DroppedCount(leaf, 0) + 1)
    else (Dropped(leaf, k), DroppedCount(leaf, k))
  }

  function FreedTree(idx: seq<Idx>, leaves: seq<seq<Extent>>, k: nat): (set<nat>, nat)
    requires |idx| == |leaves|
  {
    if idx == [] then ({}, 0)
    else
      var n := |idx| - 1;
      var rest, here := FreedTree(idx[..n], leaves[..n], k), FreedAt(idx[n], leaves[n], k);
      (rest.0 + here.0, rest.1 + here.1)
  }

  lemma {:induction false} KeptKeys(idx: seq<Idx>, leaves: seq<seq<Extent>>, k: nat)
    requires |idx| == |leaves|
    ensures TruncLeaves(leaves, Keys(idx), k).1 == Keys(KeptIdx(idx, k))
    ensures |TruncLeaves(leaves, Keys(idx), k).0| == |KeptIdx(idx, k)|
  {
    if idx != [] {
      var n := |idx| - 1;
      KeptKeys(idx[..n], leaves[..n], k);
      assert Keys(idx)[..n] == Keys(idx[..n]);
      var rest := KeptIdx(idx[..n], k);
      assert (rest + [idx[n]])[..|rest|] == rest;
    }
  }

  /** What the blocks of a file become at one leaf. */
  function KeptAt(x: Idx, leaf: seq<Extent>, k: nat): set<nat> {
    if Goes(x.key, k) then {} else DataBlocks(TruncExtents(leaf, k)) + {x.child}
  }

  lemma LeafSplits(x: Idx, leaf: seq<Extent>, k: nat)
    requires DisjointData(leaf) && x.child !in DataBlocks(leaf)
    ensures DataBlocks(leaf) + {x.child} == KeptAt(x, leaf, k) + FreedAt(x, leaf, k).0
    ensures KeptAt(x, leaf, k) !! FreedAt(x, leaf, k).0
    ensures |FreedAt(x, leaf, k).0| == FreedAt(x, leaf, k).1
  {
    hide DataBlocks, DisjointData, Dropped, DroppedCount, TruncExtents;
    TruncSplitsData(leaf, if Goes(x.key, k) then 0 else k);
    if Goes(x.key, k) {
      EmptyData();
      TruncZero(leaf);
      assert Dropped(leaf, 0) == DataBlocks(leaf);
    } else {
      KeptWithNode(DataBlocks(leaf), DataBlocks(TruncExtents(leaf, k)), Dropped(leaf, k), x.child);
    }
  }

  lemma KeptWithNode(data: set<nat>, kept: set<nat>, dropped: set<nat>, child: nat)
    requires data == kept + dropped && kept !! dropped && child !in data
    ensures data + {child} == (kept + {child}) + dropped && (kept + {child}) !! dropped
  {
  }

  lemma {:induction false} TruncZero(es: seq<Extent>)
    ensures TruncExtents(es, 0) == []
  {
    if es != [] { TruncZero(es[..|es| - 1]); }
  }

  /** The blocks of a tree: its data and its leaf blocks. */
  function TreeBlocks(idx: seq<Idx>, leaves: seq<seq<Extent>>): set<nat> {
    DataBlocks(Flatten(leaves)) + ChildSet(idx)
  }

  /** No block is data twice, or both data and a node. */
  ghost predicate Apart(idx: seq<Idx>, leaves: seq<seq<Extent>>) {
    && DisjointData(Flatten(leaves)) && DataBlocks(Flatten(leaves)) !! ChildSet(idx)
    && forall i, j :: 0 <= i < j < |idx| ==> idx[i].child != idx[j].child
  }

  /** The last leaf and its block against all the others. */
  lemma ApartSnoc(idx: seq<Idx>, leaves: seq<seq<Extent>>)
    requires |idx| == |leaves| > 0 && Apart(idx, leaves)
    ensures var n := |idx| - 1;
            && Apart(idx[..n], leaves[..n])
            && TreeBlocks(idx, leaves) == TreeBlocks(idx[..n], leaves[..n]) + (DataBlocks(leaves[n]) + {idx[n].child})
            && TreeBlocks(idx[..n], leaves[..n]) !! (DataBlocks(leaves[n]) + {idx[n].child})
            && DisjointData(leaves[n]) && idx[n].child !in DataBlocks(leaves[n])
  {
    hide DataBlocks, DisjointData;
    var n := |idx| - 1;
    DataConcat(Flatten(leaves[..n]), leaves[n]);
  }

  /** Adding a leaf back to a tree it has nothing in common with. */
  lemma SnocApart(idx: seq<Idx>, leaves: seq<seq<Extent>>, x: Idx, leaf: seq<Extent>)
    requires |idx| == |leaves| && Apart(idx, leaves) && DisjointData(leaf) && x.child !in DataBlocks(leaf)
    requires TreeBlocks(idx, leaves) !! (DataBlocks(leaf) + {x.child})
    ensures Apart(idx + [x], leaves + [leaf])
    ensures TreeBlocks(idx + [x], leaves + [leaf]) == TreeBlocks(idx, leaves) + (DataBlocks(leaf) + {x.child})
  {
    hide DataBlocks, DisjointData;
    FlattenSnoc(leaves, leaf);
    DataConcat(Flatten(leaves), leaf);
    assert (idx + [x])[..|idx|] == idx;
    assert forall i :: 0 <= i < |idx| ==> idx[i].child in ChildSet(idx);
  }

  /** A truncation splits the blocks of a tree into kept and freed ones, and frees each only once. */
  lemma {:induction false} TreeSplits(idx: seq<Idx>, leaves: seq<seq<Extent>>, k: nat)
    requires |idx| == |leaves| && Apart(idx, leaves)
    ensures var kept := TruncLeaves(leaves, Keys(idx), k).0;
            var freed := FreedTree(idx, leaves, k);
            && Apart(KeptIdx(idx, k), kept) && |kept| == |KeptIdx(idx, k)|
            && TreeBlocks(idx, leaves) == TreeBlocks(KeptIdx(idx, k), kept) + freed.0
            && TreeBlocks(KeptIdx(idx, k), kept) !! freed.0 && |freed.0| == freed.1
  {
    hide DataBlocks, DisjointData, TreeBlocks, Apart, FreedAt, KeptAt, Keys, TruncExtents;
    KeptKeys(idx, leaves, k);
    if idx != [] {
      var n := |idx| - 1;
      var kept, rest := KeptIdx(idx[..n], k), TruncLeaves(leaves[..n], Keys(idx[..n]), k).0;
      assert Keys(idx)[..n] == Keys(idx[..n]);
      KeptKeys(idx[..n], leaves[..n], k);
      ApartSnoc(idx, leaves);
      TreeSplits(idx[..n], leaves[..n], k);
      LeafSplits(idx[n], leaves[n], k);
      var a, b := TreeBlocks(idx[..n], leaves[..n]), DataBlocks(leaves[n]) + {idx[n].child};
      SplitBoth(a, TreeBlocks(kept, rest), FreedTree(idx[..n], leaves[..n], k).0,
                b, KeptAt(idx[n], leaves[n], k), FreedAt(idx[n], leaves[n], k).0);
      if Goes(idx[n].key, k) {
        NoneKept(idx[n], leaves[n], k);
      } else {
        KeptSnoc(kept, rest, idx[n], leaves[n], k);
      }
    } else {
      NothingThere();
    }
  }

  lemma NothingThere()
    ensures Apart([], []) && TreeBlocks([], []) == {}
  {
    EmptyData();
  }

  lemma NoneKept(x: Idx, leaf: seq<Extent>, k: nat)
    requires Goes(x.key, k)
    ensures KeptAt(x, leaf, k) == {}
  {
  }

  lemma KeptSnoc(idx: seq<Idx>, leaves: seq<seq<Extent>>, x: Idx, leaf: seq<Extent>, k: nat)
    requires |idx| == |leaves| && Apart(idx, leaves) && DisjointData(leaf) && x.child !in DataBlocks(leaf)
    requires TreeBlocks(idx, leaves) !! KeptAt(x, leaf, k) && !Goes(x.key, k)
    ensures Apart(idx + [x], leaves + [TruncExtents(leaf, k)])
    ensures TreeBlocks(idx + [x], leaves + [TruncExtents(leaf, k)]) == TreeBlocks(idx, leaves) + KeptAt(x, leaf, k)
  {
    hide DataBlocks, DisjointData, TreeBlocks, Apart, TruncExtents;
    TruncSplitsData(leaf, k);
    SnocApart(idx, leaves, x, TruncExtents(leaf, k));
  }

  lemma {:induction false} ApartPrefix(idx: seq<Idx>, leaves: seq<seq<Extent>>, q: nat)
    requires |idx| == |leaves| && q <= |idx| && Apart(idx, leaves)
    ensures Apart(idx[..q], leaves[..q]) && TreeBlocks(idx[..q], leaves[..q]) <= TreeBlocks(idx, leaves)
    decreases |idx|
  {
    hide DataBlocks, DisjointData, TreeBlocks, Apart;
    var n := |idx|;
    if q < n {
      ApartSnoc(idx, leaves);
      ApartPrefix(idx[..n - 1], leaves[..n - 1], q);
      assert idx[..n - 1][..q] == idx[..q] && leaves[..n - 1][..q] == leaves[..q];
    } else {
      assert idx[..q] == idx && leaves[..q] == leaves;
    }
  }

  /** The data of a leaf is data of the tree, and so no node of it. */
  lemma {:induction false} LeafData(leaves: seq<seq<Extent>>, p: nat)
    requires p < |leaves|
    ensures DataBlocks(leaves[p]) <= DataBlocks(Flatten(leaves))
  {
    hide DataBlocks, DisjointData;
    var n := |leaves| - 1;
    DataConcat(Flatten(leaves[..n]), leaves[n]);
    if p < n { LeafData(leaves[..n], p); }
  }

  lemma TreeData(idx: seq<Idx>, leaves: seq<seq<Extent>>)
    requires Apart(idx, leaves)
    ensures DataBlocks(Flatten(leaves)) !! ChildSet(idx)
  {
  }

  /** Where the cursor stands once the first `p` entries are done. */
  ghost function Cursor(idx: seq<Idx>, k: nat, p: nat): nat
    requires p <= |idx|
  {
    |KeptIdx(idx[..p], k)|
  }

  /** The index by then. */
  ghost function IdxBy(idx: seq<Idx>, k: nat, p: nat): seq<Idx>
    requires p <= |idx|
  {
    KeptIdx(idx[..p], k) + idx[p..]
  }

  /** The leaves by then. */
  ghost function LeavesBy(idx: seq<Idx>, leaves: seq<seq<Extent>>, k: nat, p: nat): seq<seq<Extent>>
    requires |idx| == |leaves| && p <= |idx|
  {
    TruncLeaves(leaves[..p], Keys(idx[..p]), k).0 + leaves[p..]
  }

  /** The blocks freed by then, and how many calls freed them. */
  ghost function FreedBy(idx: seq<Idx>, leaves: seq<seq<Extent>>, k: nat, p: nat): (set<nat>, nat)
    requires |idx| == |leaves| && p <= |idx|
  {
    FreedTree(idx[..p], leaves[..p], k)
  }

  lemma TreeHasData(idx: seq<Idx>, leaves: seq<seq<Extent>>, p: nat)
    requires p < |leaves|
    ensures DataBlocks(leaves[p]) <= TreeBlocks(idx, leaves)
  {
    hide DataBlocks;
    LeafData(leaves, p);
  }

  /** The data of leaf `p` is still in use after the leaves before it are done. */
  lemma LeafNext(fs: Layout, free: set<nat>, idx: seq<Idx>, leaves: seq<seq<Extent>>, k: nat, p: nat)
    requires |idx| == |leaves| && p < |idx| && Apart(idx, leaves) && InUse(fs, free, TreeBlocks(idx, leaves))
    ensures DisjointData(leaves[p]) && DataBlocks(leaves[p]) !! ChildSet(idx)
    ensures InUse(fs, free + FreedBy(idx, leaves, k, p).0, DataBlocks(leaves[p]))
  {
    hide DataBlocks, DisjointData, FreedTree, Flatten, Apart, KeptIdx, TruncLeaves, ChildSet, TreeBlocks, InUse, Keys;
    TreeData(idx, leaves);
    LeafData(leaves, p);
    TreeHasData(idx, leaves, p);
    var idx', leaves' := idx[..p + 1], leaves[..p + 1];
    assert idx'[..p] == idx[..p] && leaves'[..p] == leaves[..p];
    ApartPrefix(idx, leaves, p + 1);
    ApartSnoc(idx', leaves');
    TreeSplits(idx[..p], leaves[..p], k);
    StillInUse(fs, free, TreeBlocks(idx, leaves), FreedTree(idx[..p], leaves[..p], k).0, DataBlocks(leaves[p]));
  }

  /** Lists with a cursor: what is kept so far, then what is still to come. */
  lemma EditAt<T>(kept: seq<T>, all: seq<T>, p: nat, x: T)
    requires p < |all|
    ensures var i, cur := |kept|, kept + all[p..];
            && i < |cur| == i + |all| - p && cur[i] == all[p]
            && cur[..i] + cur[i + 1..] == kept + all[p + 1..]
            && cur == (kept + [all[p]]) + all[p + 1..]
            && cur[i := x] == (kept + [x]) + all[p + 1..]
  {
  }

  /** What one more leaf adds to what a truncation keeps. */
  lemma KeptStep(idx: seq<Idx>, leaves: seq<seq<Extent>>, k: nat, p: nat)
    requires |idx| == |leaves| && p < |idx|
    ensures var kept, rest := KeptIdx(idx[..p], k), TruncLeaves(leaves[..p], Keys(idx[..p]), k).0;
            var kept', rest' := KeptIdx(idx[..p + 1], k), TruncLeaves(leaves[..p + 1], Keys(idx[..p + 1]), k).0;
            && |rest| == |kept|
            && (if Goes(idx[p].key, k) then kept' == kept && rest' == rest
                else kept' == kept + [idx[p]] && rest' == rest + [TruncExtents(leaves[p], k)])
  {
    hide TruncExtents, Keys;
    KeptKeys(idx[..p], leaves[..p], k);
    assert idx[..p + 1][..p] == idx[..p] && leaves[..p + 1][..p] == leaves[..p];
    assert Keys(idx[..p + 1])[..p] == Keys(idx[..p]);
  }

  /** The index entry and the leaf at the cursor, and both lists after the step. */
  lemma WalkStep(idx: seq<Idx>, leaves: seq<seq<Extent>>, k: nat, p: nat)
    requires |idx| == |leaves| && p < |idx|
    ensures var i, cur, now := Cursor(idx, k, p), IdxBy(idx, k, p), LeavesBy(idx, leaves, k, p);
            && i < |cur| == |now| && cur[i] == idx[p] && now[i] == leaves[p]
            && (Goes(idx[p].key, k) ==>
                  && cur[..i] + cur[i + 1..] == IdxBy(idx, k, p + 1)
                  && now[..i] + now[i + 1..] == LeavesBy(idx, leaves, k, p + 1) && Cursor(idx, k, p + 1) == i)
            && (!Goes(idx[p].key, k) ==>
                  && cur == IdxBy(idx, k, p + 1)
                  && now[i := TruncExtents(leaves[p], k)] == LeavesBy(idx, leaves, k, p + 1)
                  && Cursor(idx, k, p + 1) == i + 1)
  {
    hide TruncExtents, Keys, KeptIdx, TruncLeaves, Goes;
    KeptStep(idx, leaves, k, p);
    EditAt(KeptIdx(idx[..p], k), idx, p, idx[p]);
    EditAt(TruncLeaves(leaves[..p], Keys(idx[..p]), k).0, leaves, p, TruncExtents(leaves[p], k));
  }

  lemma FreedStep(idx: seq<Idx>, leaves: seq<seq<Extent>>, k: nat, p: nat)
    requires |idx| == |leaves| && p < |idx|
    ensures FreedBy(idx, leaves, k, p + 1)
            == (FreedBy(idx, leaves, k, p).0 + FreedAt(idx[p], leaves[p], k).0,
                FreedBy(idx, leaves, k, p).1 + FreedAt(idx[p], leaves[p], k).1)
  {
    hide FreedAt;
    assert idx[..p + 1][..p] == idx[..p] && leaves[..p + 1][..p] == leaves[..p];
  }

  lemma WalkStart(idx: seq<Idx>, leaves: seq<seq<Extent>>, k: nat)
    requires |idx| == |leaves|
    ensures Cursor(idx, k, 0) == 0 && IdxBy(idx, k, 0) == idx && LeavesBy(idx, leaves, k, 0) == leaves
    ensures FreedBy(idx, leaves, k, 0) == ({}, 0)
  {
  }

  lemma WalkLength(idx: seq<Idx>, k: nat, p: nat)
    requires p <= |idx|
    ensures |IdxBy(idx, k, p)| == Cursor(idx, k, p) + |idx| - p
  {
  }

  lemma WalkEnd(idx: seq<Idx>, leaves: seq<seq<Extent>>, k: nat)
    requires |idx| == |leaves|
    ensures IdxBy(idx, k, |idx|) == KeptIdx(idx, k)
    ensures LeavesBy(idx, leaves, k, |idx|) == TruncLeaves(leaves, Keys(idx), k).0
    ensures FreedBy(idx, leaves, k, |idx|) == FreedTree(idx, leaves, k)
  {
    hide KeptIdx, TruncLeaves, FreedTree, Keys;
    assert idx[..|idx|] == idx && leaves[..|idx|] == leaves && leaves[|idx|..] == [];
  }

  /** The walk over the index of a deep root. The index is edited while the cursor moves over it. */
  method TruncateWalk(alloc: Allocator, txn: Transaction, root: Node, k: nat, ghost leaves: seq<seq<Extent>>)
      returns (r: Result<Node, AllocError>)
    requires Ready(alloc, txn, root) && root.Inner?
    requires leaves == LeavesAt(alloc.dev.disk, alloc.fs.blockSize, root.idx)
    requires Apart(root.idx, leaves) && InUse(alloc.fs, alloc.free, TreeBlocks(root.idx, leaves))
    requires forall i :: 0 <= i < |leaves| ==> Addressable(leaves[i], k)
    modifies alloc`counts, alloc`free, alloc.dev`disk, txn`blocks, txn`revoked
    ensures FreesRevoked(old(alloc.free), alloc.free, old(txn.revoked), txn.revoked)
    ensures r.Ok? && Ready(alloc, txn, r.value) && r.value == root.(idx := KeptIdx(root.idx, k))
    ensures LeavesAt(alloc.dev.disk, alloc.fs.blockSize, r.value.idx) == TruncLeaves(leaves, Keys(root.idx), k).0
    ensures alloc.free == old(alloc.free) + FreedTree(root.idx, leaves, k).0
    ensures Total(alloc.counts) == Total(old(alloc.counts)) + FreedTree(root.idx, leaves, k).1
    ensures Children(r.value) <= Children(root)
    ensures Journaled(alloc.fs, old(Now(alloc, txn)), Now(alloc, txn), Children(root) + MetaBlocks(alloc.fs), {})
  {
    hide DecodeNode, NodeAt, Consistent, IsFree, Pinned, ChildSet, NodesOk, Volume, MetaBlocks, InUse, DataBlocks,
      DisjointData, TruncExtents, Dropped, DroppedCount, Total, Ready, Coherent, ReadAt, IsLeaf, Keys, LeafAt, LeavesAt,
      TreeBlocks, Apart, Flatten, Goes, KeptIdx, TruncLeaves, FreedTree, Allocator.Valid, Addressable, SameOutside,
      Children, Cursor, IdxBy, LeavesBy, FreedBy, FreesRevoked, Journaled;
    NothingRevoked(alloc.free, txn.revoked);
    var cur, i := root, 0;
    ghost var p := 0;
    WalkStart(root.idx, leaves, k);
    ChildrenOf(root);
    ghost var except := Children(root) + MetaBlocks(alloc.fs);
    NothingTouched(alloc.fs, Now(alloc, txn), except);
    while i < |cur.idx|
      invariant p <= |root.idx| && i == Cursor(root.idx, k, p) && cur == root.(idx := IdxBy(root.idx, k, p))
      invariant Ready(alloc, txn, cur) && Children(cur) <= Children(root)
      invariant LeavesAt(alloc.dev.disk, alloc.fs.blockSize, cur.idx) == LeavesBy(root.idx, leaves, k, p)
      invariant alloc.free == old(alloc.free) + FreedBy(root.idx, leaves, k, p).0
      invariant Total(alloc.counts) == Total(old(alloc.counts)) + FreedBy(root.idx, leaves, k, p).1
      invariant Journaled(alloc.fs, old(Now(alloc, txn)), Now(alloc, txn), except, {})
      invariant FreesRevoked(old(alloc.free), alloc.free, old(txn.revoked), txn.revoked)
      decreases |root.idx| - p
    {
      WalkLength(root.idx, k, p);
      WalkStep(root.idx, leaves, k, p);
      FreedStep(root.idx, leaves, k, p);
      LeafNext(alloc.fs, old(alloc.free), root.idx, leaves, k, p);
      var key := cur.idx[i].key;
      ghost var was, mid := Now(alloc, txn), Children(cur) + MetaBlocks(alloc.fs);
      ghost var free, revoked := alloc.free, txn.revoked;
      var t := TruncateChild(alloc, txn, cur, i, k, LeavesAt(alloc.dev.disk, alloc.fs.blockSize, cur.idx));
      if t.Err? { return t; }
      RevokedMore(old(alloc.free), free, alloc.free, old(txn.revoked), revoked, txn.revoked);
      cur := t.value;
      JournaledTogether(alloc.fs, old(Now(alloc, txn)), was, Now(alloc, txn), except, mid, except);
      if !Goes(key, k) { i := i + 1; }
      p := p + 1;
    }
    WalkLength(root.idx, k, p);
    WalkEnd(root.idx, leaves, k);
    return Ok(cur);
  }

  lemma ChildrenOf(root: Node)
    requires root.Inner?
    ensures Children(root) == ChildSet(root.idx)
  {
  }

  // ---- extent_truncate ----

  /** Truncates the file to its first `k` logical blocks. The shape changes as `TruncView` says; the
      blocks the file no longer owns, and no others, become free, each freed exactly once. */
  method TruncateTo(alloc: Allocator, txn: Transaction, root: Node, k: nat, ghost v: View)
      returns (r: Result<Node, AllocError>)
    requires Ready(alloc, txn, root) && v == ViewOf(alloc.dev.disk, alloc.fs.blockSize, root)
    requires Owns(alloc.fs, alloc.free, v, root)
    requires forall i :: 0 <= i < |v.leaves| ==> Addressable(v.leaves[i], k)
    modifies alloc`counts, alloc`free, alloc.dev`disk, txn`blocks, txn`revoked
    ensures r.Ok? && Ready(alloc, txn, r.value)
    ensures ViewOf(alloc.dev.disk, alloc.fs.blockSize, r.value) == TruncView(v, k)
    ensures FileBlocks(TruncView(v, k), r.value) <= FileBlocks(v, root)
    ensures var gone := FileBlocks(v, root) - FileBlocks(TruncView(v, k), r.value);
            && alloc.free == old(alloc.free) + gone && Total(alloc.counts) == Total(old(alloc.counts)) + |gone|
            && RevokedTwice(old(txn.revoked), txn.revoked, gone)
    ensures Owns(alloc.fs, alloc.free, TruncView(v, k), r.value)
    ensures Journaled(alloc.fs, old(Now(alloc, txn)), Now(alloc, txn), Children(root) + MetaBlocks(alloc.fs), {})
  {
    hide DecodeNode, NodeAt, Consistent, IsFree, Pinned, ChildSet, NodesOk, Volume, MetaBlocks, InUse, DataBlocks,
      DisjointData, TruncExtents, Dropped, DroppedCount, Total, Ready, Coherent, ReadAt, IsLeaf, Keys, LeafAt, LeavesAt,
      TreeBlocks, Apart, Goes, KeptIdx, TruncLeaves, FreedTree, Allocator.Valid, Addressable, Owns, ViewOf, TruncView,
      FileBlocks, Children, RevokedTwice, Journaled;
    OwnedNotFree(alloc.fs, alloc.free, v, root);
    ghost var s0, free := Now(alloc, txn), alloc.free;
    if root.Leaf? {
      ShallowTruncates(alloc.dev.disk, alloc.fs, alloc.free, root, v, k);
      ShallowFacts(alloc, txn, root);
      var t := TruncateData(alloc, txn, root, root.extents, k);
      match t {
        case Err(e) => return Err(e);
        case Ok(_) =>
      }
      TruncInRange(root.extents, k);
      ReadyShallow(alloc, txn, root, t.value);
      r := Ok(root.(extents := t.value));
      JournaledMore(alloc.fs, s0, Now(alloc, txn), MetaBlocks(alloc.fs), {}, Children(root) + MetaBlocks(alloc.fs), {});
      GoneIsNew(free, alloc.free, FileBlocks(v, root), Dropped(root.extents, k));
    } else {
      DeepTruncates(alloc, txn, root, v, k);
      r := TruncateWalk(alloc, txn, root, k, v.leaves);
      if r.Err? { return; }
      DeepView(alloc.dev.disk, alloc.fs.blockSize, r.value);
      GoneIsNew(free, alloc.free, FileBlocks(v, root), FreedTree(root.idx, v.leaves, k).0);
    }
  }

  lemma OwnedNotFree(fs: Layout, free: set<nat>, v: View, root: Node)
    requires Owns(fs, free, v, root)
    ensures FileBlocks(v, root) !! free
  {
  }

  lemma GoneIsNew(free: set<nat>, free': set<nat>, all: set<nat>, gone: set<nat>)
    requires all !! free && gone <= all && free' == free + gone
    ensures free' - free == gone
  {
  }

  lemma OwnsAfter(fs: Layout, free: set<nat>, all: set<nat>, kept: set<nat>, freed: set<nat>)
    requires InUse(fs, free, all) && all == kept + freed && kept !! freed
    ensures InUse(fs, free + freed, kept) && freed == all - kept && kept <= all
  {
  }

  lemma ShallowTruncates(disk: Disk, fs: Layout, free: set<nat>, root: Node, v: View, k: nat)
    requires root.Leaf? && v == ViewOf(disk, fs.blockSize, root) && Owns(fs, free, v, root)
    requires forall i :: 0 <= i < |v.leaves| ==> Addressable(v.leaves[i], k)
    ensures var es := root.extents;
            var root' := root.(extents := TruncExtents(es, k));
            && DisjointData(es) && Addressable(es, k) && InUse(fs, free, DataBlocks(es))
            && DataBlocks(es) !! Children(root)
            && TruncView(v, k) == View(false, [TruncExtents(es, k)], [])
            && Owns(fs, free + Dropped(es, k), TruncView(v, k), root')
            && FileBlocks(TruncView(v, k), root') <= FileBlocks(v, root)
            && Dropped(es, k) == FileBlocks(v, root) - FileBlocks(TruncView(v, k), root')
            && DroppedCount(es, k) == |Dropped(es, k)|
  {
    hide DataBlocks, DisjointData, TruncExtents, Dropped, DroppedCount, Volume, MetaBlocks, InUse, Addressable;
    var es := root.extents;
    OneLeaf(es);
    OneLeaf(TruncExtents(es, k));
    assert TruncView(v, k).leaves == [TruncExtents(es, k)];
    assert v.leaves[0] == es;
    TruncSplitsData(es, k);
    OwnsAfter(fs, free, DataBlocks(es), DataBlocks(TruncExtents(es, k)), Dropped(es, k));
  }

  lemma DeepTruncates(alloc: Allocator, txn: Transaction, root: Node, v: View, k: nat)
    requires Ready(alloc, txn, root) && root.Inner? && v == ViewOf(alloc.dev.disk, alloc.fs.blockSize, root)
    requires Owns(alloc.fs, alloc.free, v, root)
    ensures v.leaves == LeavesAt(alloc.dev.disk, alloc.fs.blockSize, root.idx) && v.keys == Keys(root.idx)
    ensures Apart(root.idx, v.leaves) && InUse(alloc.fs, alloc.free, TreeBlocks(root.idx, v.leaves))
    ensures var root' := root.(idx := KeptIdx(root.idx, k));
            var freed := FreedTree(root.idx, v.leaves, k);
            && TruncView(v, k) == View(true, TruncLeaves(v.leaves, Keys(root.idx), k).0, Keys(root'.idx))
            && Owns(alloc.fs, alloc.free + freed.0, TruncView(v, k), root')
            && FileBlocks(TruncView(v, k), root') <= FileBlocks(v, root)
            && freed.0 == FileBlocks(v, root) - FileBlocks(TruncView(v, k), root')
            && freed.1 == |freed.0|
  {
    hide DecodeNode, NodeAt, Consistent, IsFree, Pinned, ChildSet, Volume, MetaBlocks, InUse, DataBlocks, Ready,
      NodesOk, DisjointData, TruncExtents, Total, Coherent, ReadAt, IsLeaf, Keys, LeafAt, LeavesAt, KeptIdx,
      TruncLeaves, FreedTree, Allocator.Valid, Flatten;
    ReadyNodes(alloc, txn, root);
    DistinctChildren(alloc.dev.disk, alloc.fs.blockSize, root);
    TreeSplits(root.idx, v.leaves, k);
    KeptKeys(root.idx, v.leaves, k);
    var kept := TruncLeaves(v.leaves, Keys(root.idx), k).0;
    OwnsAfter(alloc.fs, alloc.free, TreeBlocks(root.idx, v.leaves), TreeBlocks(KeptIdx(root.idx, k), kept),
              FreedTree(root.idx, v.leaves, k).0);
  }
}

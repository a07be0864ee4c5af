/** Writing file data: logical blocks that are not mapped yet are provisioned in batches of
    contiguous, zeroed blocks appended to the extent tree; then the data is written block by block. */
module FileWrite {
  import opened Base
  import opened Device
  import opened BlockAlloc
  import opened ExtentNode
  import opened ExtentMap
  import opened ExtentLookup
  import opened ExtentView
  import opened ExtentAppend
  import opened FileBatches
  import opened FileData

  /** A dense file with root `root` and shape `v`, whose blocks are its own. */
  ghost predicate FileOk(alloc: Allocator, txn: Transaction, root: Node, v: View)
    reads alloc, alloc.dev, txn
  {
    && Ready(alloc, txn, root)
    && v == ViewOf(alloc.dev.disk, alloc.fs.blockSize, root)
    && DenseTree(v, LeafMaxEntries(alloc.fs.blockSize))
    && Owns(alloc.fs, alloc.free, v, root)
  }

  ghost predicate FileDense(fs: Layout, v: View) {
    12 <= fs.blockSize && DenseTree(v, LeafMaxEntries(fs.blockSize))
  }

  /** Everything provisioning may write to. */
  ghost function Provisionable(fs: Layout, free: set<nat>, root: Node): set<nat> {
    free + Children(root) + MetaBlocks(fs)
  }

  // ---- allocation ----

  /** Allocates `count` contiguous blocks. The tree is unaffected: none of its blocks was free. */
  method AllocRun(alloc: Allocator, txn: Transaction, root: Node, count: nat, hint: nat)
      returns (r: Result<nat, AllocError>)
    requires Ready(alloc, txn, root) && count >= 1
    modifies alloc`counts, alloc`free, alloc.dev`disk, txn`blocks
    ensures Ready(alloc, txn, root)
    ensures ViewOf(alloc.dev.disk, alloc.fs.blockSize, root) == old(ViewOf(alloc.dev.disk, alloc.fs.blockSize, root))
    ensures r.Ok? ==> Range(r.value, count) <= old(alloc.free) && alloc.free == old(alloc.free) - Range(r.value, count)
                      && InUse(alloc.fs, alloc.free, Range(r.value, count)) && r.value + count <= Volume(alloc.fs)
    ensures Geometry(alloc.fs) && (r.Ok? ==> Nearest(alloc.fs, old(alloc.free), count, hint, r.value))
    ensures r.Err? ==> r.error == NoFreeBlocks
    ensures r.Err? ==> alloc.free == old(alloc.free) && Now(alloc, txn) == old(Now(alloc, txn))
    ensures r.Err? ==> forall b: nat :: !RunAt(alloc.fs, alloc.free, b, count)
    ensures r.Err? && count == 1 ==> alloc.free == {}
    ensures OnlyMeta(alloc.fs, old(Now(alloc, txn)), Now(alloc, txn))
  {
    hide Allocator.Valid, ReadAt, ChildSet, Pinned, Nearest, CountPinned, Total, RunAt, MetaBlocks, Volume, NodesOk,
      ViewOf, Coherent;
    ReadyGeometry(alloc, txn, root);
    ghost var was, free := Now(alloc, txn), alloc.free;
    r := alloc.AllocBlocks(txn, count, hint);
    ReadyAfterAlloc(alloc, txn, root, was, free);
  }

  /** Asks for as many blocks as are still needed and halves the request until one is granted: a
      failure means that no block at all is free. */
  method AllocHalving(alloc: Allocator, txn: Transaction, root: Node, remaining: nat, hint: nat)
      returns (r: Result<(nat, nat), AllocError>)
    requires Ready(alloc, txn, root) && remaining >= 1
    modifies alloc`counts, alloc`free, alloc.dev`disk, txn`blocks
    ensures Ready(alloc, txn, root)
    ensures ViewOf(alloc.dev.disk, alloc.fs.blockSize, root) == old(ViewOf(alloc.dev.disk, alloc.fs.blockSize, root))
    ensures Geometry(alloc.fs)
    ensures r.Ok? ==>
              var (start, got) := r.value;
              && 1 <= got <= Min(remaining, EXTENT_BATCH_MAX)
              && Granted(alloc.fs, old(alloc.free), Min(remaining, EXTENT_BATCH_MAX), hint, start, got)
              && Range(start, got) <= old(alloc.free) && alloc.free == old(alloc.free) - Range(start, got)
              && InUse(alloc.fs, alloc.free, Range(start, got)) && start + got <= Volume(alloc.fs)
    ensures r.Err? <==> old(alloc.free) == {}
    ensures r.Err? ==> r.error == NoFreeBlocks && alloc.free == {} && Now(alloc, txn) == old(Now(alloc, txn))
    ensures OnlyMeta(alloc.fs, old(Now(alloc, txn)), Now(alloc, txn))
  {
    hide Ready, ViewOf, Range, InUse, Volume, OnlyMeta, MetaBlocks, Nearest, RunAt, Halved, NoneFree;
    ReadyGeometry(alloc, txn, root);
    var want := Min(remaining, EXTENT_BATCH_MAX);
    ghost var most, k := want, 0;
    NoneAsked(alloc.fs, alloc.free, most);
    NothingTouched(alloc.fs, Now(alloc, txn), {});
    while true
      invariant 1 <= want <= Min(remaining, EXTENT_BATCH_MAX)
      invariant Ready(alloc, txn, root)
      invariant ViewOf(alloc.dev.disk, alloc.fs.blockSize, root)
                == old(ViewOf(alloc.dev.disk, alloc.fs.blockSize, root))
      invariant alloc.free == old(alloc.free)
      invariant want == Halved(most, k) && NoneFree(alloc.fs, alloc.free, most, k)
      invariant Now(alloc, txn) == old(Now(alloc, txn))
      decreases want
    {
      var a := AllocRun(alloc, txn, root, want, hint);
      if a.Ok? {
        assert a.value in Range(a.value, want);
        return Ok((a.value, want));
      }
      if want == 1 { return Err(a.error); }
      OneMoreAsked(alloc.fs, alloc.free, most, k);
      k := k + 1;
      want := want / 2;
    }
  }

  lemma NoneAsked(fs: Layout, free: set<nat>, most: nat)
    requires Geometry(fs)
    ensures Halved(most, 0) == most && NoneFree(fs, free, most, 0)
  {
  }

  lemma OneMoreAsked(fs: Layout, free: set<nat>, most: nat, k: nat)
    requires Geometry(fs) && NoneFree(fs, free, most, k) && forall b: nat :: !RunAt(fs, free, b, Halved(most, k))
    ensures Halved(most, k + 1) == Halved(most, k) / 2 && NoneFree(fs, free, most, k + 1)
  {
    hide RunAt;
  }

  lemma SameOutsideSelf(disk: Disk, bs: nat, except: set<nat>)
    ensures SameOutside(disk, disk, bs, except)
  {
  }

  // ---- data blocks ----

  /** Writes a block that is neither a bitmap nor a node of the tree. */
  method WriteData(alloc: Allocator, txn: Transaction, root: Node, b: nat, data: Bytes)
    requires Ready(alloc, txn, root) && |data| == alloc.fs.blockSize
    requires b !in Children(root) && b !in MetaBlocks(alloc.fs)
    modifies alloc.dev`disk
    ensures Ready(alloc, txn, root)
    ensures ViewOf(alloc.dev.disk, alloc.fs.blockSize, root) == old(ViewOf(alloc.dev.disk, alloc.fs.blockSize, root))
    ensures ReadAt(alloc.dev.disk, alloc.fs.blockSize, b) == data
    ensures SameOutside(old(alloc.dev.disk), alloc.dev.disk, alloc.fs.blockSize, {b})
  {
    hide DecodeNode, NodeAt, IsFree, ChildSet, Keys, Pinned;
    ghost var was := alloc.dev.disk;
    alloc.dev.Write(b, data);
    ElsewhereKeepsAllocator(was, alloc.dev.disk, alloc.fs, alloc.counts);
    ShapeUnchanged(was, alloc.dev.disk, alloc.fs.blockSize, root, {b});
  }

  /** Zeroes freshly allocated blocks on the device. */
  method ZeroRun(alloc: Allocator, txn: Transaction, root: Node, start: nat, count: nat)
    requires Ready(alloc, txn, root)
    requires Range(start, count) !! Children(root) && Range(start, count) !! MetaBlocks(alloc.fs)
    modifies alloc.dev`disk
    ensures Ready(alloc, txn, root)
    ensures ViewOf(alloc.dev.disk, alloc.fs.blockSize, root) == old(ViewOf(alloc.dev.disk, alloc.fs.blockSize, root))
    ensures Zeroed(alloc.dev.disk, alloc.fs.blockSize, start, count)
    ensures SameOutside(old(alloc.dev.disk), alloc.dev.disk, alloc.fs.blockSize, Range(start, count))
  {
    hide Ready, ViewOf, Children, MetaBlocks, ReadAt, Range;
    var i := 0;
    while i < count
      invariant 0 <= i <= count
      invariant Ready(alloc, txn, root)
      invariant ViewOf(alloc.dev.disk, alloc.fs.blockSize, root)
                == old(ViewOf(alloc.dev.disk, alloc.fs.blockSize, root))
      invariant Zeroed(alloc.dev.disk, alloc.fs.blockSize, start, i)
      invariant SameOutside(old(alloc.dev.disk), alloc.dev.disk, alloc.fs.blockSize, Range(start, count))
    {
      assert start + i in Range(start, count);
      WriteData(alloc, txn, root, start + i, Zeros(alloc.fs.blockSize));
      i := i + 1;
    }
  }

  // ---- provisioning ----

  /** Logical blocks below the end stay where they are. */
  ghost predicate SameMap(es: seq<Extent>, es': seq<Extent>) {
    EndOf(es) <= EndOf(es') && forall l: nat :: l < EndOf(es) ==> FindPhys(es', l) == FindPhys(es, l)
  }

  /** What one or more batches do to a file: the bytes and the mapped blocks stay where they are, only
      provisionable blocks are written, all but the new data blocks are pinned, and the root keeps its index. */
  ghost predicate Grown(fs: Layout, free: set<nat>, root: Node, a: Snapshot, es: seq<Extent>,
                        free': set<nat>, root': Node, b: Snapshot, es': seq<Extent>) {
    && SameData(fs.blockSize, a.disk, es, b.disk, es') && SameMap(es, es')
    && SameOutside(a.disk, b.disk, fs.blockSize, Provisionable(fs, free, root))
    && Journaled(fs, a, b, Children(root') + MetaBlocks(fs), DataBlocks(es'))
    && DataBlocks(es') !! Children(root') + MetaBlocks(fs)
    && free' == free - Children(root') - DataBlocks(es') && Children(root) <= Children(root') <= Children(root) + free
    && DataBlocks(es) <= DataBlocks(es') <= DataBlocks(es) + free
    && (root.Inner? ==> root'.Inner? && root.idx <= root'.idx && root.depth == root'.depth)
  }

  lemma GrownTwice(fs: Layout, f0: set<nat>, r0: Node, a: Snapshot, e0: seq<Extent>, f1: set<nat>, r1: Node,
                   b: Snapshot, e1: seq<Extent>, f2: set<nat>, r2: Node, c: Snapshot, e2: seq<Extent>)
    requires Grown(fs, f0, r0, a, e0, f1, r1, b, e1) && Grown(fs, f1, r1, b, e1, f2, r2, c, e2)
    ensures Grown(fs, f0, r0, a, e0, f2, r2, c, e2)
  {
    hide SameData, SameOutside, Children, MetaBlocks, DataBlocks, EndOf, FindPhys, Journaled;
    SameDataTwice(fs.blockSize, a.disk, e0, b.disk, e1, c.disk, e2);
    SameOutsideTwice(a.disk, b.disk, c.disk, fs.blockSize, Provisionable(fs, f0, r0), Provisionable(fs, f1, r1),
                     Provisionable(fs, f0, r0));
    var s1, s2 := Children(r1) + MetaBlocks(fs), Children(r2) + MetaBlocks(fs);
    JournaledMore(fs, a, b, s1, DataBlocks(e1), s2, DataBlocks(e2));
    JournaledTwice(fs, a, b, c, s2, DataBlocks(e2));
  }

  lemma GrownNot(fs: Layout, free: set<nat>, root: Node, v: View, a: Snapshot)
    requires Owns(fs, free, v, root)
    ensures Grown(fs, free, root, a, All(v), free, root, a, All(v))
  {
    hide BlockData, ReadAt, Pinned, DataBlocks, Children, MetaBlocks, EndOf, FindPhys, Flatten;
  }

  /** What a write that fails may have done: of the blocks that were in use, only nodes of the file and blocks of
      the allocator have changed, and those that have are pinned. */
  ghost predicate Unfinished(fs: Layout, free: set<nat>, root: Node, a: Snapshot, b: Snapshot) {
    && (forall c :: c !in free && c != fs.descBlock ==>
          Untouched(fs, a, b, c)
          || (c in Children(root) + MetaBlocks(fs) && Pinned(b.pins, c) == Some(ReadAt(b.disk, fs.blockSize, c))))
    && CountsJournaled(fs, a, b)
  }

  lemma UnfinishedTwice(fs: Layout, f0: set<nat>, r0: Node, a: Snapshot, f1: set<nat>, r1: Node, b: Snapshot,
                        c: Snapshot)
    requires Unfinished(fs, f0, r0, a, b) && Unfinished(fs, f1, r1, b, c)
    requires f1 <= f0 && Children(r1) <= Children(r0) + f0
    ensures Unfinished(fs, f0, r0, a, c)
  {
    hide ReadAt, Pinned, Children, MetaBlocks, CountsJournaled;
    CountsTwice(fs, a, b, c);
  }

  lemma GrownUnfinished(fs: Layout, free: set<nat>, root: Node, v: View, a: Snapshot, free': set<nat>, root': Node,
                        b: Snapshot, es': seq<Extent>)
    requires Owns(fs, free, v, root) && Grown(fs, free, root, a, All(v), free', root', b, es')
    ensures Unfinished(fs, free, root, a, b) && free' <= free && Children(root') <= Children(root) + free
  {
    hide ReadAt, Pinned, Children, MetaBlocks, CountsJournaled, SameData, SameMap, Flatten, DataBlocks, DisjointData,
      Volume;
    forall c | c !in free && c != fs.descBlock
      ensures Untouched(fs, a, b, c)
              || (c in Children(root) + MetaBlocks(fs) && Pinned(b.pins, c) == Some(ReadAt(b.disk, fs.blockSize, c)))
    {
      if c in DataBlocks(es') { assert c in DataBlocks(All(v)); }
    }
  }

  /** The file with root `kept` and shape `v'` is sound and reads as the file `es` did on `disk`. */
  ghost predicate Intact(alloc: Allocator, txn: Transaction, kept: Node, v': View, disk: Disk, es: seq<Extent>)
    reads alloc, alloc.dev, txn
  {
    FileOk(alloc, txn, kept, v') && SameData(alloc.fs.blockSize, disk, es, alloc.dev.disk, All(v'))
  }

  /** Batches that succeeded, and then a step that failed. */
  lemma FailsAfter(fs: Layout, f0: set<nat>, root: Node, v: View, a: Snapshot, f1: set<nat>, cur: Node, b: Snapshot,
                   u: View, c: Snapshot)
    requires Owns(fs, f0, v, root) && Grown(fs, f0, root, a, All(v), f1, cur, b, All(u))
    requires Unfinished(fs, f1, cur, b, c)
    ensures Unfinished(fs, f0, root, a, c) && SameData(fs.blockSize, a.disk, All(v), b.disk, All(u)) && f1 <= f0
  {
    hide Owns, Unfinished, Flatten, SameData;
    GrownUnfinished(fs, f0, root, v, a, f1, cur, b, All(u));
    UnfinishedTwice(fs, f0, root, a, f1, cur, b, c);
    GrownFacts(fs, f0, root, v, a, f1, cur, b, u);
  }

  lemma NothingUnfinished(fs: Layout, free: set<nat>, root: Node, a: Snapshot)
    ensures Unfinished(fs, free, root, a, a)
  {
    hide ReadAt, Pinned;
  }

  /** A batch whose append failed. */
  lemma BatchUnfinished(fs: Layout, free: set<nat>, free': set<nat>, root: Node, s0: Snapshot, s1: Snapshot,
                        s2: Snapshot, s3: Snapshot, run: set<nat>, e: WriteError)
    requires OnlyMeta(fs, s0, s1) && SameOutside(s1.disk, s2.disk, fs.blockSize, run) && s2 == s1.(disk := s2.disk)
    requires Journaled(fs, s2, s3, Reached(fs, root, free', Err(e)), {}) && run <= free && free' <= free
    requires run !! MetaBlocks(fs)
    ensures Unfinished(fs, free, root, s0, s3)
  {
    assert fs.descBlock !in run;
    hide ReadAt, Pinned, Children, MetaBlocks, CountsJournaled;
    CountsTwice(fs, s0, s1, s3) by {
      assert CountsJournaled(fs, s1, s2) by { RunWritten(fs, s1, s2, run); }
      CountsTwice(fs, s1, s2, s3);
    }
  }

  /** The file has grown at least by as many blocks as it has lost places for extents. */
  ghost predicate GoesFurther(v: View, v': View, m: nat) {
    v.leaves != [] && v'.leaves != [] && EndOf(All(v)) + Room(v, m) <= EndOf(All(v')) + Room(v', m)
  }

  /** The batch leads from stage `a` to what is on the device. */
  ghost predicate BatchDone(fs: Layout, remaining: nat, hint: nat, ino: nat, a: Stage, r: (Node, nat, nat), disk: Disk,
                            free: set<nat>)
    requires Geometry(fs) && 12 <= fs.blockSize
  {
    BatchStep(fs, LeafMaxEntries(fs.blockSize), Min(remaining, EXTENT_BATCH_MAX), hint, ino, a,
              Stage(ViewOf(disk, fs.blockSize, r.0), free), r.1, r.2)
  }

  /** A batch of `r.2` blocks at `r.1` has been appended: the root is `r.0` now. */
  ghost predicate BatchAppended(alloc: Allocator, txn: Transaction, r: (Node, nat, nat), remaining: nat, root: Node,
                                v: View, free: set<nat>, was: Snapshot)
    requires 12 <= alloc.fs.blockSize
    reads alloc, alloc.dev, txn
  {
    var v' := ViewOf(alloc.dev.disk, alloc.fs.blockSize, r.0);
    && 1 <= r.2 <= Min(remaining, EXTENT_BATCH_MAX) && FileOk(alloc, txn, r.0, v')
    && All(v') == AppendExtents(All(v), r.1, r.2) && GoesFurther(v, v', LeafMaxEntries(alloc.fs.blockSize))
    && Grown(alloc.fs, free, root, was, All(v), alloc.free, r.0, Now(alloc, txn), All(v'))
  }

  /** A batch failed. For want of free blocks, the file is as it was. */
  ghost predicate BatchFailed(alloc: Allocator, txn: Transaction, e: WriteError, root: Node, v: View, free: set<nat>,
                              was: Snapshot)
    requires 12 <= alloc.fs.blockSize
    reads alloc, alloc.dev, txn
  {
    && Unfinished(alloc.fs, free, root, was, Now(alloc, txn))
    && ((e == DepthLimit && v.leaves != [] && Room(v, LeafMaxEntries(alloc.fs.blockSize)) == 0)
        || (e == Alloc(NoFreeBlocks) && alloc.free == {} && Intact(alloc, txn, root, v, was.disk, All(v))))
  }

  /** How a batch ended: it is the step that the requests and the free blocks of stage `a` allow, or it was
      refused as they say. */
  ghost predicate BatchOutcome(alloc: Allocator, txn: Transaction, r: Result<(Node, nat, nat), WriteError>,
                               remaining: nat, hint: nat, ino: nat, root: Node, a: Stage, was: Snapshot)
    requires 12 <= alloc.fs.blockSize && Geometry(alloc.fs) && a.shape.leaves != []
    reads alloc, alloc.dev, txn
  {
    match r
    case Ok(b) =>
      && BatchDone(alloc.fs, remaining, hint, ino, a, b, alloc.dev.disk, alloc.free)
      && BatchAppended(alloc, txn, b, remaining, root, a.shape, a.free, was)
    case Err(e) =>
      && Refused(alloc.fs, LeafMaxEntries(alloc.fs.blockSize), Min(remaining, EXTENT_BATCH_MAX), hint, a, e)
      && BatchFailed(alloc, txn, e, root, a.shape, a.free, was)
  }

  /** Provisions one batch: allocates, zeroes and appends at most `remaining` blocks. */
  method AppendBatch(alloc: Allocator, txn: Transaction, root: Node, remaining: nat, hint: nat, ino: nat, ghost v: View)
      returns (r: Result<(Node, nat, nat), WriteError>)
    requires FileOk(alloc, txn, root, v) && remaining >= 1 && EndOf(All(v)) + remaining < U32
    modifies alloc`counts, alloc`free, alloc.dev`disk, txn`blocks
    ensures 12 <= alloc.fs.blockSize && Geometry(alloc.fs) && v.leaves != []
    ensures alloc.free <= old(alloc.free)
    ensures BatchOutcome(alloc, txn, r, remaining, hint, ino, root, Stage(v, old(alloc.free)), old(Now(alloc, txn)))
  {
    hide Ready, ViewOf, Children, MetaBlocks, ReadAt, Range, AppendView, Owns, DenseTree, Volume, InUse, Grown,
      SameData, DataBlocks, Dense, Zeroed, SameOutside, AppendExtents, FileBlocks, NodesTaken, LeafMaxEntries, FindPhys,
      GoesFurther, Room, Granted, NodeAdded, NeedsNode, BatchStep, Refused, Unfinished, Journaled,
      OnlyMeta, Flatten, EndOf;
    ReadyBounds(alloc, txn, root);
    DenseTreeFacts(v, LeafMaxEntries(alloc.fs.blockSize));
    ghost var s0, free0, bs := Now(alloc, txn), alloc.free, alloc.fs.blockSize;
    var a := AllocHalving(alloc, txn, root, remaining, hint);
    if a.Err? {
      NothingFree(alloc.fs, LeafMaxEntries(bs), Min(remaining, EXTENT_BATCH_MAX), hint, Stage(v, free0));
      NothingUnfinished(alloc.fs, free0, root, s0);
      SameOutsideSelf(s0.disk, bs, {} + MetaBlocks(alloc.fs));
      KeptBytes(alloc.fs, free0, v, root, s0.disk, s0.disk, {});
      return Err(Alloc(a.error));
    }
    var (start, got) := a.value;
    ghost var s1, free1 := Now(alloc, txn), alloc.free;
    ReadyBounds(alloc, txn, root);
    RunIsNew(alloc.fs, free0, free1, v, root, Range(start, got));
    ZeroRun(alloc, txn, root, start, got);
    ghost var s2 := Now(alloc, txn);
    var t := AppendRun(alloc, txn, root, start, got, ino, v);
    BatchRoom(v, LeafMaxEntries(bs), start, got);
    if t.Err? {
      NoPlace(alloc.fs, LeafMaxEntries(bs), Min(remaining, EXTENT_BATCH_MAX), hint, Stage(v, free0), start, got,
              t.error);
      BatchUnfinished(alloc.fs, free0, free1, root, s0, s1, s2, Now(alloc, txn), Range(start, got), t.error);
      if t.error.Alloc? { KeptBatch(alloc.fs, free0, v, root, s0, s1, s2, Range(start, got)); }
      return Err(t.error);
    }
    BatchMade(alloc.fs, LeafMaxEntries(bs), Min(remaining, EXTENT_BATCH_MAX), hint, ino, Stage(v, free0),
              Stage(ViewOf(alloc.dev.disk, bs, t.value), alloc.free), start, got, root, t.value);
    BatchKeepsFile(alloc, txn, root, t.value, free1, v, start, got);
    BatchGrows(alloc.fs, free0, free1, alloc.free, root, t.value, s0, s1, s2, Now(alloc, txn), v, start, got);
    r := Ok((t.value, start, got));
  }

  lemma KeptBytes(fs: Layout, free: set<nat>, v: View, root: Node, disk: Disk, disk': Disk, run: set<nat>)
    requires Owns(fs, free, v, root) && run <= free
    requires SameOutside(disk, disk', fs.blockSize, run + MetaBlocks(fs))
    ensures SameData(fs.blockSize, disk, All(v), disk', All(v))
  {
    hide SameOutside, DataBlocks, DisjointData, Volume, MetaBlocks, Children, SameData;
    UnwrittenData(fs.blockSize, disk, disk', All(v), run + MetaBlocks(fs));
  }

  lemma KeptBatch(fs: Layout, free: set<nat>, v: View, root: Node, s0: Snapshot, s1: Snapshot, s2: Snapshot,
                  run: set<nat>)
    requires Owns(fs, free, v, root) && run <= free
    requires OnlyMeta(fs, s0, s1) && SameOutside(s1.disk, s2.disk, fs.blockSize, run)
    ensures SameData(fs.blockSize, s0.disk, All(v), s2.disk, All(v))
  {
    hide SameOutside, Owns, MetaBlocks, SameData, OnlyMeta;
    OnlyMetaSame(fs, s0, s1);
    SameOutsideTwice(s0.disk, s1.disk, s2.disk, fs.blockSize, MetaBlocks(fs), run, run + MetaBlocks(fs));
    KeptBytes(fs, free, v, root, s0.disk, s2.disk, run);
  }

  lemma NothingFree(fs: Layout, m: nat, most: nat, hint: nat, a: Stage)
    requires Geometry(fs) && a.shape.leaves != [] && a.free == {}
    ensures Refused(fs, m, most, hint, a, Alloc(NoFreeBlocks))
  {
  }

  lemma NoPlace(fs: Layout, m: nat, most: nat, hint: nat, a: Stage, start: nat, got: nat, e: WriteError)
    requires Geometry(fs) && a.shape.leaves != [] && Granted(fs, a.free, most, hint, start, got)
    requires NeedsNode(a.shape, m, start, got) && (e == DepthLimit ==> AppendView(a.shape, m, start, got).Err?)
    requires e == if a.free - Range(start, got) == {} then Alloc(NoFreeBlocks) else DepthLimit
    ensures Refused(fs, m, most, hint, a, e)
  {
    hide Granted, NeedsNode, AppendView;
  }

  lemma BatchMade(fs: Layout, m: nat, most: nat, hint: nat, ino: nat, a: Stage, b: Stage, start: nat, got: nat,
                  root: Node, root': Node)
    requires Geometry(fs) && a.shape.leaves != [] && Granted(fs, a.free, most, hint, start, got)
    requires AppendView(a.shape, m, start, got) == Ok(b.shape)
    requires NodesTaken(root, root', a.free - Range(start, got), b.free)
    requires InUse(fs, a.free - Range(start, got), Children(root))
    requires NeedsNode(a.shape, m, start, got) ==> NodeAdded(fs, a.free - Range(start, got), ino, root, root')
    requires !NeedsNode(a.shape, m, start, got) ==> Children(root') == Children(root)
    ensures BatchStep(fs, m, most, hint, ino, a, b, start, got)
  {
    hide Granted, NeedsNode, AppendView, Nearest, Range, Children, Volume, MetaBlocks;
    var rest := a.free - Range(start, got);
    if NeedsNode(a.shape, m, start, got) {
      var nb :| nb !in Children(root) && Children(root') == Children(root) + {nb} && Nearest(fs, rest, 1, ino, nb);
      assert rest - Children(root') == rest - {nb};
    } else {
      assert rest - Children(root') == rest;
    }
  }

  lemma BatchRoom(v: View, m: nat, start: nat, got: nat)
    requires DenseTree(v, m) && m > ROOT_MAX_ENTRIES && 1 <= got <= MAX_EXTENT_LEN && EndOf(All(v)) + got < U32
    ensures v.leaves != [] && (AppendView(v, m, start, got).Err? ==> Room(v, m) == 0)
    ensures AppendView(v, m, start, got).Ok? ==> GoesFurther(v, AppendView(v, m, start, got).value, m)
  {
    hide AppendView, Dense, KeysExact, Keyed, Filled, EndOf, Flatten, Room, CanCoalesce, AppendExtents;
    RoomStep(v, m, start, got);
    if AppendView(v, m, start, got).Ok? {
      AppendFlattens(v, m, start, got);
      DenseIsSorted(All(v));
      AppendKeepsOrder(All(v), start, got);
    }
  }

  lemma ReadyBounds(alloc: Allocator, txn: Transaction, root: Node)
    requires Ready(alloc, txn, root)
    ensures 1024 <= alloc.fs.blockSize == alloc.dev.blockSize <= U16 && Volume(alloc.fs) <= U48
    ensures LeafMaxEntries(alloc.fs.blockSize) > ROOT_MAX_ENTRIES
    ensures NodesOk(alloc.dev.disk, alloc.fs.blockSize, root) && InUse(alloc.fs, alloc.free, Children(root))
  {
  }

  lemma DenseTreeFacts(v: View, m: nat)
    requires DenseTree(v, m)
    ensures v.leaves != [] && WellShaped(v, m) && Dense(All(v))
  {
  }

  /** A freshly allocated run belongs to nothing yet. */
  lemma RunIsNew(fs: Layout, free: set<nat>, free': set<nat>, v: View, root: Node, run: set<nat>)
    requires Owns(fs, free, v, root) && run <= free && free' == free - run && InUse(fs, free', run)
    ensures Owns(fs, free', v, root) && run !! FileBlocks(v, root) && run !! Children(root) && run !! MetaBlocks(fs)
  {
    hide DataBlocks, DisjointData, MetaBlocks, Volume, ChildSet;
  }

  lemma BatchKeepsFile(alloc: Allocator, txn: Transaction, root: Node, root': Node, free1: set<nat>, v: View,
                       start: nat, got: nat)
    requires Ready(alloc, txn, root') && 12 <= alloc.fs.blockSize
    requires LeafMaxEntries(alloc.fs.blockSize) > ROOT_MAX_ENTRIES
    requires DenseTree(v, LeafMaxEntries(alloc.fs.blockSize)) && EndOf(All(v)) + got < U32 && 1 <= got <= MAX_EXTENT_LEN
    requires AppendView(v, LeafMaxEntries(alloc.fs.blockSize), start, got)
             == Ok(ViewOf(alloc.dev.disk, alloc.fs.blockSize, root'))
    requires Owns(alloc.fs, free1, v, root) && NodesTaken(root, root', free1, alloc.free)
    requires InUse(alloc.fs, free1, Range(start, got)) && Range(start, got) !! FileBlocks(v, root)
    ensures FileOk(alloc, txn, root', ViewOf(alloc.dev.disk, alloc.fs.blockSize, root'))
    ensures All(ViewOf(alloc.dev.disk, alloc.fs.blockSize, root')) == AppendExtents(All(v), start, got)
  {
    hide Ready, ViewOf, Children, MetaBlocks, Range, AppendView, Owns, Volume, InUse, DataBlocks, Dense, AppendExtents,
      FileBlocks, NodesTaken, LeafMaxEntries, WellShaped, KeysExact;
    var m := LeafMaxEntries(alloc.fs.blockSize);
    ReadyBounds(alloc, txn, root');
    AppendKeepsDenseTree(v, m, start, got);
    AppendFlattens(v, m, start, got);
    AppendKeepsOwns(alloc.fs, free1, alloc.free, v, root, root', m, start, got);
  }

  lemma BatchGrows(fs: Layout, free0: set<nat>, free1: set<nat>, free2: set<nat>, root: Node, root': Node,
                   s0: Snapshot, s1: Snapshot, s2: Snapshot, s3: Snapshot, v: View, start: nat, got: nat)
    requires Dense(All(v)) && EndOf(All(v)) + got < U32 && 1 <= got <= MAX_EXTENT_LEN
    requires Owns(fs, free0, v, root) && Range(start, got) <= free0 && free1 == free0 - Range(start, got)
    requires NodesTaken(root, root', free1, free2)
    requires Range(start, got) !! Children(root) && Range(start, got) !! MetaBlocks(fs)
    requires OnlyMeta(fs, s0, s1)
    requires SameOutside(s1.disk, s2.disk, fs.blockSize, Range(start, got))
    requires Zeroed(s2.disk, fs.blockSize, start, got) && s2 == s1.(disk := s2.disk)
    requires Journaled(fs, s2, s3, Children(root') + MetaBlocks(fs), {})
    ensures Grown(fs, free0, root, s0, All(v), free2, root', s3, AppendExtents(All(v), start, got))
  {
    hide DataBlocks, DisjointData, Volume, ReadAt, Dense, AppendExtents, Children, SameData, FindPhys, SameOutside,
      MetaBlocks, Range, Zeroed, OnlyMeta, Journaled, Flatten, EndOf, SameMap, NodesTaken, Owns;
    BatchBlocks(fs, free0, free1, free2, root, root', v, Range(start, got));
    var except, nodes := Provisionable(fs, free0, root), Children(root') + MetaBlocks(fs);
    AppendAddsData(All(v), start, got);
    OnlyMetaSame(fs, s0, s1);
    JournaledSame(fs, s2, s3, nodes);
    SameOutsideTwice(s0.disk, s1.disk, s2.disk, fs.blockSize, MetaBlocks(fs), Range(start, got), except);
    SameOutsideTwice(s0.disk, s2.disk, s3.disk, fs.blockSize, except, nodes, except);
    StaysZeroed(s2.disk, s3.disk, fs.blockSize, start, got, nodes);
    AppendKeepsData(fs.blockSize, s0.disk, s3.disk, All(v), start, got, except);
    AppendKeepsMap(All(v), start, got);
    RunJournaled(fs, s0, s1, s2, s3, nodes, Range(start, got), DataBlocks(AppendExtents(All(v), start, got)));
  }

  /** Where the blocks of a batch come from: all that the file gains was free, and is not any more. */
  lemma BatchBlocks(fs: Layout, free0: set<nat>, free1: set<nat>, free2: set<nat>, root: Node, root': Node, v: View,
                    run: set<nat>)
    requires Owns(fs, free0, v, root) && run <= free0 && free1 == free0 - run && NodesTaken(root, root', free1, free2)
    requires run !! Children(root) && run !! MetaBlocks(fs)
    ensures free2 == free0 - Children(root') - (DataBlocks(All(v)) + run)
    ensures Children(root) <= Children(root') <= Children(root) + free0
    ensures DataBlocks(All(v)) + run !! Children(root') + MetaBlocks(fs)
    ensures DataBlocks(All(v)) !! Provisionable(fs, free0, root)
    ensures root.Inner? ==> root'.Inner? && root.idx <= root'.idx && root.depth == root'.depth
    ensures DisjointData(All(v)) && run !! DataBlocks(All(v))
  {
    hide DataBlocks, DisjointData, Volume, Children, MetaBlocks, Flatten;
    NodesFromFree(root, root', free1, free2);
    forall c | c in Children(root') ensures c !in DataBlocks(All(v)) + run {
      if c !in Children(root) { assert c in Children(root') - Children(root); }
    }
  }

  /** The blocks zeroed are written without a pin; everything else a batch writes is pinned. */
  lemma RunJournaled(fs: Layout, s0: Snapshot, s1: Snapshot, s2: Snapshot, s3: Snapshot, nodes: set<nat>,
                     run: set<nat>, data: set<nat>)
    requires OnlyMeta(fs, s0, s1) && SameOutside(s1.disk, s2.disk, fs.blockSize, run) && s2 == s1.(disk := s2.disk)
    requires Journaled(fs, s2, s3, nodes, {}) && MetaBlocks(fs) <= nodes && run <= data && data !! nodes
    ensures Journaled(fs, s0, s3, nodes, data)
  {
    hide Journaled;
    RunWritten(fs, s1, s2, run);
    JournaledMore(fs, s0, s1, MetaBlocks(fs), {}, nodes, data);
    JournaledMore(fs, s1, s2, {}, run, nodes, data);
    JournaledMore(fs, s2, s3, nodes, {}, nodes, data);
    JournaledTwice(fs, s0, s1, s2, nodes, data);
    JournaledTwice(fs, s0, s2, s3, nodes, data);
  }

  lemma RunWritten(fs: Layout, a: Snapshot, b: Snapshot, run: set<nat>)
    requires SameOutside(a.disk, b.disk, fs.blockSize, run) && b == a.(disk := b.disk) && fs.descBlock !in run
    ensures Journaled(fs, a, b, {}, run)
  {
    hide Pinned, ReadAt;
  }

  lemma AppendKeepsMap(es: seq<Extent>, start: nat, got: nat)
    requires Dense(es) && EndOf(es) + got < U32 && 1 <= got <= MAX_EXTENT_LEN
    ensures SameMap(es, AppendExtents(es, start, got))
  {
    hide AppendExtents, Dense, FindPhys;
    DenseIsSorted(es);
    AppendKeepsOrder(es, start, got);
    forall l: nat | l < EndOf(es) ensures FindPhys(AppendExtents(es, start, got), l) == FindPhys(es, l) {
      AppendExtendsMap(es, start, got, l);
    }
  }

  lemma NodesFromFree(root: Node, root': Node, free: set<nat>, free': set<nat>)
    requires NodesTaken(root, root', free, free')
    ensures Children(root') <= Children(root) + free
  {
    forall c | c in Children(root') ensures c in Children(root) + free {
      if c !in Children(root) { assert c in Children(root') - Children(root); }
    }
  }

  lemma StaysZeroed(disk: Disk, disk': Disk, bs: nat, start: nat, count: nat, except: set<nat>)
    requires Zeroed(disk, bs, start, count) && SameOutside(disk, disk', bs, except) && Range(start, count) !! except
    ensures Zeroed(disk', bs, start, count)
  {
    hide ReadAt;
    forall b: nat | start <= b < start + count ensures ReadAt(disk', bs, b) == Zeros(bs) {
      assert b in Range(start, count);
      assert ReadAt(disk, bs, b) == Zeros(bs);
    }
  }

  /** Logical blocks `start`, `start + 1`, ... are mapped to `phys`. */
  ghost predicate Mapped(es: seq<Extent>, start: nat, phys: seq<nat>) {
    forall j {:trigger phys[j]} :: 0 <= j < |phys| ==> FindPhys(es, start + j) == Some(phys[j])
  }

  /** The blocks of one batch, in order. */
  function RunOf(start: nat, count: nat): (r: seq<nat>)
    ensures |r| == count
  {
    seq(count, i requires 0 <= i < count => start + i)
  }

  lemma AppendMaps(es: seq<Extent>, first: nat, phys: seq<nat>, start: nat, got: nat)
    requires Dense(es) && Mapped(es, first, phys) && EndOf(es) == first + |phys|
    requires EndOf(es) + got < U32 && 1 <= got <= MAX_EXTENT_LEN
    ensures Mapped(AppendExtents(es, start, got), first, phys + RunOf(start, got))
    ensures EndOf(AppendExtents(es, start, got)) == EndOf(es) + got
  {
    hide AppendExtents, Dense, FindPhys;
    DenseIsSorted(es);
    AppendKeepsOrder(es, start, got);
    var all := phys + RunOf(start, got);
    forall j | 0 <= j < |all| ensures FindPhys(AppendExtents(es, start, got), first + j) == Some(all[j]) {
      AppendExtendsMap(es, start, got, first + j);
    }
  }

  /** Provisions the logical blocks from the end of the file to the end of its chunk, or to `last`; `phys`
      lists the blocks of the write provisioned before them, and `t0` the batches made for it so far. */
  method FillRun(alloc: Allocator, txn: Transaction, root: Node, count: nat, hint: nat, ino: nat, before: seq<nat>,
                 ghost first: nat, ghost v: View, ghost n: nat, ghost last: nat, ghost sizeBlocks: nat, ghost t0: Trace)
      returns (r: Result<(Node, seq<nat>), WriteError>, ghost t: Trace, ghost kept: Node)
    requires FileOk(alloc, txn, root, v) && EndOf(All(v)) + count < U32
    requires Mapped(All(v), first, before) && EndOf(All(v)) == first + |before|
    requires n <= EndOf(All(v)) <= last && ChunkStart(n, EndOf(All(v))) == EndOf(All(v))
    requires count == Min(last + 1, EndOf(All(v)) + EXTENT_BATCH_MAX) - EndOf(All(v))
    requires hint == Max(sizeBlocks, EndOf(All(v)))
    requires Geometry(alloc.fs) && t0.Sound() && t0.Last() == Stage(v, alloc.free)
    requires Provisions(alloc.fs, LeafMaxEntries(alloc.fs.blockSize), n, last, sizeBlocks, ino, t0)
    modifies alloc`counts, alloc`free, alloc.dev`disk, txn`blocks
    ensures t.Sound() && t.stages[0] == t0.stages[0]
    ensures Provisions(alloc.fs, LeafMaxEntries(alloc.fs.blockSize), n, last, sizeBlocks, ino, t)
    ensures r.Ok? ==>
              t.Last() == Stage(ViewOf(alloc.dev.disk, alloc.fs.blockSize, r.value.0), alloc.free)
    ensures r.Err? ==> Stuck(alloc.fs, LeafMaxEntries(alloc.fs.blockSize), n, last, sizeBlocks, t, r.error)
    ensures r.Ok? ==>
              var (root', phys) := r.value;
              var v' := ViewOf(alloc.dev.disk, alloc.fs.blockSize, root');
              && FileOk(alloc, txn, root', v') && EndOf(All(v')) == EndOf(All(v)) + count
              && Mapped(All(v'), first, phys) && |phys| == |before| + count
              && GoesFurther(v, v', LeafMaxEntries(alloc.fs.blockSize))
              && Grown(alloc.fs, old(alloc.free), root, old(Now(alloc, txn)), All(v),
                       alloc.free, root', Now(alloc, txn), All(v'))
    ensures r.Err? ==> Unfinished(alloc.fs, old(alloc.free), root, old(Now(alloc, txn)), Now(alloc, txn))
    ensures r.Err? && r.error.Alloc? ==> Intact(alloc, txn, kept, t.Last().shape, old(alloc.dev.disk), All(v))
    ensures r.Err? ==> (r.error == DepthLimit && v.leaves != [] && Room(v, LeafMaxEntries(alloc.fs.blockSize)) < count)
                       || (r.error == Alloc(NoFreeBlocks) && alloc.free == {})
  {
    hide FileOk, ViewOf, Grown, Mapped, Flatten, AppendExtents, EndOf, RunOf, LeafMaxEntries, Room, Provisions, Stuck,
      BatchStep, Refused, Trace.Extended, ChunkStart, Trace.Last, Unfinished, SameData;
    var cur, remaining, phys := root, count, before;
    ghost var u, c := v, EndOf(All(v));
    t, kept := t0, root;
    FileOkView(alloc, txn, root, v);
    FileOkOwns(alloc, txn, root, v);
    GrownNot(alloc.fs, alloc.free, root, v, Now(alloc, txn));
    while remaining > 0
      invariant 0 <= remaining <= count && |phys| == |before| + (count - remaining)
      invariant FileOk(alloc, txn, cur, u) && u == ViewOf(alloc.dev.disk, alloc.fs.blockSize, cur)
      invariant EndOf(All(u)) == EndOf(All(v)) + (count - remaining) && Mapped(All(u), first, phys)
      invariant GoesFurther(v, u, LeafMaxEntries(alloc.fs.blockSize))
      invariant Provisions(alloc.fs, LeafMaxEntries(alloc.fs.blockSize), n, last, sizeBlocks, ino, t)
      invariant t.Sound() && t.stages[0] == t0.stages[0] && t.Last() == Stage(u, alloc.free)
      invariant Grown(alloc.fs, old(alloc.free), root, old(Now(alloc, txn)), All(v),
                      alloc.free, cur, Now(alloc, txn), All(u))
    {
      ghost var free, was := alloc.free, Now(alloc, txn);
      FileOkView(alloc, txn, cur, u);
      RequestAt(n, last, sizeBlocks, c, EndOf(All(u)), remaining);
      var b := AppendBatch(alloc, txn, cur, remaining, hint, ino, u);
      if b.Err? {
        GetsStuck(alloc.fs, LeafMaxEntries(alloc.fs.blockSize), n, last, sizeBlocks, t, u, free, b.error);
        FailsAfter(alloc.fs, old(alloc.free), root, v, old(Now(alloc, txn)), free, cur, was, u, Now(alloc, txn));
        if b.error.Alloc? {
          SameDataTwice(alloc.fs.blockSize, old(alloc.dev.disk), All(v), was.disk, All(u), alloc.dev.disk, All(u));
        }
        return Err(b.error), t, cur;
      }
      var (root', start, got) := b.value;
      ghost var u' := ViewOf(alloc.dev.disk, alloc.fs.blockSize, root');
      BatchFollows(alloc.fs, LeafMaxEntries(alloc.fs.blockSize), n, last, sizeBlocks, ino, t, Stage(u', alloc.free),
                   start, got);
      t := t.Extended((start, got), Stage(u', alloc.free));
      GrownTwice(alloc.fs, old(alloc.free), root, old(Now(alloc, txn)), All(v), free, cur, was, All(u),
                 alloc.free, root', Now(alloc, txn), All(u'));
      AppendMaps(All(u), first, phys, start, got);
      phys := phys + RunOf(start, got);
      cur, remaining := root', remaining - got;
      u := u';
    }
    r, kept := Ok((cur, phys)), cur;
  }

  /** Within a chunk the request is for the rest of it, and the hint stays the same. */
  lemma RequestAt(n: nat, last: nat, sizeBlocks: nat, c: nat, l: nat, remaining: nat)
    requires n <= c <= l <= last && ChunkStart(n, c) == c && l < c + EXTENT_BATCH_MAX
    requires remaining == Min(last + 1, c + EXTENT_BATCH_MAX) - l
    ensures MostAt(n, last, l) == remaining == Min(remaining, EXTENT_BATCH_MAX)
    ensures HintAt(sizeBlocks, n, l) == Max(sizeBlocks, c)
  {
    SameChunk(n, c, l);
  }

  lemma GetsStuck(fs: Layout, m: nat, n: nat, last: nat, sizeBlocks: nat, t: Trace, v: View, free: set<nat>,
                  e: WriteError)
    requires Geometry(fs) && t.Sound() && t.Last() == Stage(v, free) && v.leaves != [] && n <= EndOf(All(v)) <= last
    requires Refused(fs, m, MostAt(n, last, EndOf(All(v))), HintAt(sizeBlocks, n, EndOf(All(v))), Stage(v, free), e)
    ensures Stuck(fs, m, n, last, sizeBlocks, t, e)
  {
    hide Refused;
  }

  lemma BatchFollows(fs: Layout, m: nat, n: nat, last: nat, sizeBlocks: nat, ino: nat, t: Trace, s: Stage, start: nat,
                     got: nat)
    requires Geometry(fs) && t.Sound() && Provisions(fs, m, n, last, sizeBlocks, ino, t)
    requires var l := EndOf(All(t.Last().shape));
             n <= l <= last
             && BatchStep(fs, m, MostAt(n, last, l), HintAt(sizeBlocks, n, l), ino, t.Last(), s, start, got)
    ensures Provisions(fs, m, n, last, sizeBlocks, ino, t.Extended((start, got), s))
    ensures var t' := t.Extended((start, got), s);
            t'.Sound() && t'.Last() == s && t'.stages[0] == t.stages[0]
  {
    hide BatchStep;
    OneMoreStage(fs, m, n, last, sizeBlocks, ino, t, (start, got), s);
  }

  lemma FileOkView(alloc: Allocator, txn: Transaction, root: Node, v: View)
    requires FileOk(alloc, txn, root, v)
    ensures v == ViewOf(alloc.dev.disk, alloc.fs.blockSize, root)
    ensures Dense(All(v)) && EndOf(All(v)) < U32
    ensures FileDense(alloc.fs, v)
    ensures 1024 <= alloc.fs.blockSize == alloc.dev.blockSize <= U16
  {
    hide Dense, EndOf;
    ShapeSorted(v, LeafMaxEntries(alloc.fs.blockSize));
  }

  /** A lookup through the inode snapshot taken when the write began. It may be outdated, but only
      blocks past the end of the file are looked up once blocks have been appended. */
  method LookupBlock(alloc: Allocator, txn: Transaction, was: Node, l: nat, ghost root: Node, ghost v: View)
      returns (r: Result<Option<nat>, ExtentError>)
    requires FileOk(alloc, txn, root, v)
    requires was == root || (EndOf(All(v)) <= l && Outdated(was, root, l))
    ensures r == Ok(FindPhys(All(v), l))
  {
    hide Ready, NodeAt, ViewOf, Owns, FindPhys, Lookup, NodesOk, WellShaped, WellFormed, Collect, Levels;
    ReadyBounds(alloc, txn, root);
    DenseTreeFacts(v, LeafMaxEntries(alloc.fs.blockSize));
    ViewIsTree(alloc.dev.disk, alloc.fs.blockSize, root, LeafMaxEntries(alloc.fs.blockSize), l);
    if was != root {
      OutdatedLookup(alloc.dev.disk, alloc.fs.blockSize, was, root, LeafMaxEntries(alloc.fs.blockSize), l);
      DenseIsSorted(All(v));
      FindPast(All(v), l);
    }
    r := Lookup(alloc.dev.disk, alloc.fs.blockSize, was, l);
  }

  lemma OutdatedAfter(fs: Layout, root: Node, v: View, cur: Node, free: set<nat>, free': set<nat>,
                      a: Snapshot, b: Snapshot, es: seq<Extent>, l: nat)
    requires FileDense(fs, v) && v == ViewOf(a.disk, fs.blockSize, root)
    requires Grown(fs, free, root, a, All(v), free', cur, b, es) && EndOf(All(v)) <= l
    ensures Outdated(root, cur, l)
  {
    hide SameData, SameOutside, LeavesAt, Keys;
    if root.Leaf? { ShapeSorted(v, LeafMaxEntries(fs.blockSize)); }
  }

  /** The first logical block after `l` that is mapped, that lies past `last`, or that is too far from `l`
      for one batch. */
  method FindRunEnd(alloc: Allocator, txn: Transaction, was: Node, l: nat, last: nat, ghost root: Node, ghost v: View)
      returns (runEnd: nat)
    requires FileOk(alloc, txn, root, v) && EndOf(All(v)) <= l <= last && Outdated(was, root, l)
    ensures runEnd == Min(last + 1, l + EXTENT_BATCH_MAX)
  {
    hide FileOk, FindPhys, Flatten, EndOf;
    runEnd := l;
    while runEnd <= last
      invariant l <= runEnd <= last + 1 && runEnd < l + EXTENT_BATCH_MAX
      decreases last + 1 - runEnd
    {
      OutdatedLonger(was, root, l, runEnd);
      var p := LookupBlock(alloc, txn, was, runEnd, root, v);
      NothingPast(alloc, txn, root, v, runEnd);
      if p.value.Some? { break; }
      runEnd := runEnd + 1;
      if runEnd - l >= EXTENT_BATCH_MAX { break; }
    }
  }

  lemma OutdatedLonger(was: Node, root: Node, l: nat, l': nat)
    requires Outdated(was, root, l) && l <= l'
    ensures Outdated(was, root, l')
  {
  }

  lemma NothingPast(alloc: Allocator, txn: Transaction, root: Node, v: View, l: nat)
    requires FileOk(alloc, txn, root, v)
    ensures FindPhys(All(v), l) == None <==> EndOf(All(v)) <= l
  {
    hide Dense, EndOf, FindPhys, Ready, Owns;
    DenseMaps(All(v), l);
  }

  /** Provisions logical blocks `first` to `last`, and returns where each of them is. No byte of the
      file changes: blocks past its end read as zeros before and after. */
  method Provision(alloc: Allocator, txn: Transaction, root: Node, first: nat, last: nat, size: nat, ino: nat,
                   ghost v: View)
      returns (r: Result<(Node, seq<nat>), WriteError>, ghost t: Trace, ghost kept: Node)
    requires FileOk(alloc, txn, root, v) && first <= EndOf(All(v)) && first <= last && last + 1 < U32
    modifies alloc`counts, alloc`free, alloc.dev`disk, txn`blocks
    ensures Geometry(alloc.fs) && alloc.fs.blockSize > 0
    ensures t.Sound() && t.stages[0] == Stage(v, old(alloc.free))
    ensures Provisions(alloc.fs, LeafMaxEntries(alloc.fs.blockSize), EndOf(All(v)), last,
                       BlockOf(size, alloc.fs.blockSize), ino, t)
    ensures r.Ok? ==> t.Last() == Stage(ViewOf(alloc.dev.disk, alloc.fs.blockSize, r.value.0), alloc.free)
    ensures r.Err? ==> Stuck(alloc.fs, LeafMaxEntries(alloc.fs.blockSize), EndOf(All(v)), last,
                             BlockOf(size, alloc.fs.blockSize), t, r.error)
    ensures r.Ok? ==>
              var (root', phys) := r.value;
              var v' := ViewOf(alloc.dev.disk, alloc.fs.blockSize, root');
              && FileOk(alloc, txn, root', v') && EndOf(All(v')) == Max(EndOf(All(v)), last + 1)
              && Mapped(All(v'), first, phys) && |phys| == last + 1 - first
              && Grown(alloc.fs, old(alloc.free), root, old(Now(alloc, txn)), All(v),
                       alloc.free, root', Now(alloc, txn), All(v'))
    ensures r.Err? ==> Unfinished(alloc.fs, old(alloc.free), root, old(Now(alloc, txn)), Now(alloc, txn))
    ensures r.Err? && r.error.Alloc? ==> Intact(alloc, txn, kept, t.Last().shape, old(alloc.dev.disk), All(v))
    ensures r.Err? ==> (r.error == DepthLimit && v.leaves != []
                        && EndOf(All(v)) + Room(v, LeafMaxEntries(alloc.fs.blockSize)) <= last)
                       || (r.error == Alloc(NoFreeBlocks) && alloc.free == {})
  {
    hide FileOk, ViewOf, Grown, Mapped, Flatten, EndOf, FindPhys, Outdated, LeafMaxEntries, Room, Provisions, Stuck,
      ChunkStart, Trace.Last, Unfinished, SameData;
    var cur, lblock, phys := root, first, [];
    ghost var u := v;
    FileOkView(alloc, txn, root, v);
    FileGeometry(alloc, txn, root, v);
    t := Trace([Stage(v, alloc.free)], []);
    ghost var m, sizeBlocks := LeafMaxEntries(alloc.fs.blockSize), BlockOf(size, alloc.fs.blockSize);
    OneStage(alloc.fs, m, EndOf(All(v)), last, sizeBlocks, ino, Stage(v, alloc.free));
    FileOkOwns(alloc, txn, root, v);
    GrownNot(alloc.fs, alloc.free, root, v, Now(alloc, txn));
    ghost var n := EndOf(All(v));
    assert Mapped(All(v), first, []) by { NoneMapped(All(v), first); }
    while lblock <= last
      invariant first <= lblock <= last + 1 && |phys| == lblock - first
      invariant FileOk(alloc, txn, cur, u) && u == ViewOf(alloc.dev.disk, alloc.fs.blockSize, cur)
      invariant EndOf(All(u)) == Max(n, lblock) && Mapped(All(u), first, phys)
      invariant (lblock <= n ==> cur == root) && GoesFurther(v, u, LeafMaxEntries(alloc.fs.blockSize))
      invariant t.Sound() && t.stages[0] == Stage(v, old(alloc.free)) && t.Last() == Stage(u, alloc.free)
      invariant Provisions(alloc.fs, m, n, last, sizeBlocks, ino, t)
      invariant n < lblock <= last ==> ChunkStart(n, lblock) == lblock
      invariant Grown(alloc.fs, old(alloc.free), root, old(Now(alloc, txn)), All(v),
                      alloc.free, cur, Now(alloc, txn), All(u))
      decreases last + 1 - lblock
    {
      NothingPast(alloc, txn, cur, u, lblock);
      if lblock >= n {
        OutdatedAfter(alloc.fs, root, v, cur, old(alloc.free), alloc.free, old(Now(alloc, txn)), Now(alloc, txn),
                      All(u), lblock);
      }
      var p := LookupBlock(alloc, txn, root, lblock, cur, u);
      var found := p.value;
      if found.Some? {
        OneMoreMapped(All(u), first, phys, found.value);
        phys := phys + [found.value];
        lblock := lblock + 1;
      } else {
        var runEnd := FindRunEnd(alloc, txn, root, lblock, last, cur, u);
        ghost var free, was := alloc.free, Now(alloc, txn);
        var hint := Max(size / alloc.fs.blockSize, lblock);
        ChunkBegins(n, lblock);
        var f;
        f, t, kept := FillRun(alloc, txn, cur, runEnd - lblock, hint, ino, phys, first, u, n, last, sizeBlocks, t);
        if f.Err? {
          FailsAfter(alloc.fs, old(alloc.free), root, v, old(Now(alloc, txn)), free, cur, was, u, Now(alloc, txn));
          if f.error.Alloc? {
            SameDataTwice(alloc.fs.blockSize, old(alloc.dev.disk), All(v), was.disk, All(u), alloc.dev.disk,
                          All(t.Last().shape));
          }
          return Err(f.error), t, kept;
        }
        ghost var u' := ViewOf(alloc.dev.disk, alloc.fs.blockSize, f.value.0);
        GrownTwice(alloc.fs, old(alloc.free), root, old(Now(alloc, txn)), All(v), free, cur, was, All(u),
                   alloc.free, f.value.0, Now(alloc, txn), All(u'));
        cur, phys := f.value.0, f.value.1;
        u := u';
        lblock := runEnd;
      }
    }
    r, kept := Ok((cur, phys)), cur;
  }

  lemma FileGeometry(alloc: Allocator, txn: Transaction, root: Node, v: View)
    requires FileOk(alloc, txn, root, v)
    ensures Geometry(alloc.fs)
  {
    hide Ready, DenseTree, Owns;
    ReadyGeometry(alloc, txn, root);
  }

  lemma ChunkBegins(n: nat, c: nat)
    requires n <= c
    ensures ChunkStart(n, n) == n
    ensures ChunkStart(n, c) == c ==> ChunkStart(n, c + EXTENT_BATCH_MAX) == c + EXTENT_BATCH_MAX
  {
    if ChunkStart(n, c) == c { NextChunk(n, c); }
  }

  lemma NoneMapped(es: seq<Extent>, first: nat)
    ensures Mapped(es, first, [])
  {
  }

  lemma OneMoreMapped(es: seq<Extent>, first: nat, phys: seq<nat>, p: nat)
    requires Mapped(es, first, phys) && FindPhys(es, first + |phys|) == Some(p)
    ensures Mapped(es, first, phys + [p])
  {
  }

  // ---- the data ----

  /** The logical block of byte `pos`. */
  function BlockOf(pos: nat, bs: nat): nat
    requires bs > 0
  {
    pos / bs
  }

  /** The bytes [off, off + len) lie in logical blocks `first` to `last`. */
  predicate Spans(bs: nat, off: nat, len: nat, first: nat, last: nat)
    requires bs > 0 && len > 0
  {
    first == BlockOf(off, bs) && last == BlockOf(off + len - 1, bs)
  }

  /** Which bytes of the write fall on logical block `l`. */
  lemma SliceBounds(bs: nat, off: nat, len: nat, l: nat)
    requires bs > 0 && len > 0
    ensures l < off / bs ==> l * bs + bs <= off
    ensures l == off / bs ==> l * bs <= off < l * bs + bs
    ensures l > off / bs ==> off <= l * bs
    ensures l < (off + len - 1) / bs ==> l * bs + bs <= off + len
    ensures l == (off + len - 1) / bs ==> l * bs < off + len <= l * bs + bs
    ensures l > (off + len - 1) / bs ==> off + len <= l * bs
  {
    CutAt(bs, off, l);
    CutAt(bs, off + len - 1, l);
  }

  /** The copy of one slice into its block is the overlay of the data on that block. */
  lemma SliceIsOverlay(block: Bytes, base: nat, off: nat, data: Bytes, intra: nat, from: nat, to: nat)
    requires from <= to <= |data| && intra + (to - from) <= |block|
    requires if off >= base then intra == off - base && from == 0 else intra == 0 && from == base - off
    requires to == Min(base + |block| - off, |data|)
    ensures Patch(block, intra, data[from..to]) == Overlaid(block, base, off, data)
    ensures intra == 0 && to - from == |block| ==>
              Patch(Zeros(|block|), intra, data[from..to]) == Overlaid(block, base, off, data)
  {
  }

  /** Writes the part of `data` that falls on logical block `l`, which is at `p`: a partial block is
      read first. */
  method WriteSlice(alloc: Allocator, txn: Transaction, root: Node, p: nat, l: nat, first: nat, ghost last: nat,
                    off: nat,
                    data: Bytes)
    requires Ready(alloc, txn, root) && p !in Children(root) && p !in MetaBlocks(alloc.fs)
    requires data != [] && alloc.fs.blockSize > 0 && Spans(alloc.fs.blockSize, off, |data|, first, last)
    requires first <= l <= last
    modifies alloc.dev`disk, txn`blocks
    ensures Ready(alloc, txn, root)
    ensures ViewOf(alloc.dev.disk, alloc.fs.blockSize, root) == old(ViewOf(alloc.dev.disk, alloc.fs.blockSize, root))
    ensures ReadAt(alloc.dev.disk, alloc.fs.blockSize, p)
            == Overlaid(old(ReadAt(alloc.dev.disk, alloc.fs.blockSize, p)), StartOf(l, alloc.fs.blockSize), off, data)
    ensures SameOutside(old(alloc.dev.disk), alloc.dev.disk, alloc.fs.blockSize, {p})
    ensures Pinned(txn.blocks, p) == Some(ReadAt(alloc.dev.disk, alloc.fs.blockSize, p))
    ensures forall c :: c != p ==> Pinned(txn.blocks, c) == Pinned(old(txn.blocks), c)
    ensures Journaled(alloc.fs, old(Now(alloc, txn)), Now(alloc, txn), {p}, {})
  {
    hide Ready, ViewOf, Children, MetaBlocks, ReadAt, Pinned, Overlaid, Patch, Zeros, SameOutside, Journaled;
    ghost var s0 := Now(alloc, txn);
    DescriptorsElsewhere(alloc.fs, p);
    ReadyBounds(alloc, txn, root);
    var bs := alloc.fs.blockSize;
    SliceBounds(bs, off, |data|, l);
    var start := l * bs;
    var intra := if l == first then off - start else 0;
    var from := if l == first then 0 else start - off;
    var to := Min(start + bs - off, |data|);
    var slice := data[from..to];
    var block := Zeros(bs);
    ghost var was := ReadAt(alloc.dev.disk, bs, p);
    SliceIsOverlay(was, start, off, data, intra, from, to);
    if intra != 0 || |slice| != bs {
      block := alloc.dev.Read(p);
    }
    block := Patch(block, intra, slice);
    WriteData(alloc, txn, root, p, block);
    PinData(alloc, txn, root, p, block);
    WrittenAndPinned(alloc.fs, s0, Now(alloc, txn), p);
  }

  lemma DescriptorsElsewhere(fs: Layout, b: nat)
    requires b !in MetaBlocks(fs)
    ensures b != fs.descBlock
  {
  }

  /** Pins a data block. */
  method PinData(alloc: Allocator, txn: Transaction, root: Node, p: nat, data: Bytes)
    requires Ready(alloc, txn, root) && p !in Children(root)
    modifies txn`blocks
    ensures Ready(alloc, txn, root)
    ensures Pinned(txn.blocks, p) == Some(data)
    ensures forall c :: c != p ==> Pinned(txn.blocks, c) == Pinned(old(txn.blocks), c)
  {
    hide NodesOk, Consistent, IsFree, ReadAt, ChildSet, Pinned, InUse;
    txn.PinBlock(p, data);
  }

  /** The first `upto` blocks of `phys` hold the overlay of `data`, the others what they held. */
  ghost predicate Written(bs: nat, was: Disk, disk: Disk, phys: seq<nat>, first: nat, upto: nat, off: nat,
                          data: Bytes) {
    forall j {:trigger phys[j]} :: 0 <= j < |phys| ==>
      ReadAt(disk, bs, phys[j]) ==
      if j < upto then Overlaid(ReadAt(was, bs, phys[j]), StartOf(first + j, bs), off, data)
      else ReadAt(was, bs, phys[j])
  }

  ghost predicate Distinct(phys: seq<nat>) {
    forall i, j :: 0 <= i < j < |phys| ==> phys[i] != phys[j]
  }

  lemma WrittenNext(bs: nat, was: Disk, disk: Disk, disk': Disk, phys: seq<nat>, first: nat, i: nat, off: nat,
                    data: Bytes)
    requires Written(bs, was, disk, phys, first, i, off, data) && i < |phys| && Distinct(phys)
    requires SameOutside(disk, disk', bs, {phys[i]})
    requires ReadAt(disk', bs, phys[i]) == Overlaid(ReadAt(disk, bs, phys[i]), StartOf(first + i, bs), off, data)
    ensures Written(bs, was, disk', phys, first, i + 1, off, data)
  {
    hide ReadAt, Overlaid, StartOf;
    forall j | 0 <= j < |phys|
      ensures ReadAt(disk', bs, phys[j]) ==
              if j < i + 1 then Overlaid(ReadAt(was, bs, phys[j]), StartOf(first + j, bs), off, data)
              else ReadAt(was, bs, phys[j])
    {
      if j != i { assert phys[j] != phys[i]; }
    }
  }

  /** The blocks of a write are distinct data blocks of the file, none of them a node or a bitmap. */
  lemma MappedBlocks(fs: Layout, free: set<nat>, v: View, root: Node, first: nat, phys: seq<nat>)
    requires Owns(fs, free, v, root) && Mapped(All(v), first, phys)
    ensures Distinct(phys)
    ensures forall j :: 0 <= j < |phys| ==>
              phys[j] in DataBlocks(All(v)) && phys[j] !in Children(root) && phys[j] !in MetaBlocks(fs)
  {
    hide DataBlocks, DisjointData, FindPhys, Volume, ChildSet, MetaBlocks;
    forall i, j | 0 <= i < j < |phys| ensures phys[i] != phys[j] {
      assert FindPhys(All(v), first + i) == Some(phys[i]) && FindPhys(All(v), first + j) == Some(phys[j]);
      FindInjective(All(v), first + i, first + j);
    }
    forall j | 0 <= j < |phys|
      ensures phys[j] in DataBlocks(All(v)) && phys[j] !in Children(root) && phys[j] !in MetaBlocks(fs)
    {
      FindsData(All(v), first + j);
    }
  }

  /** The second phase: writes `data` to the blocks provisioned for it and pins them. */
  method WriteBlocks(alloc: Allocator, txn: Transaction, root: Node, phys: seq<nat>, first: nat, last: nat, off: nat,
                     data: Bytes, ghost v: View)
    requires FileOk(alloc, txn, root, v) && data != []
    requires alloc.fs.blockSize > 0 && Spans(alloc.fs.blockSize, off, |data|, first, last)
    requires Mapped(All(v), first, phys) && first + |phys| == last + 1
    modifies alloc.dev`disk, txn`blocks
    ensures FileOk(alloc, txn, root, v)
    ensures Written(alloc.fs.blockSize, old(alloc.dev.disk), alloc.dev.disk, phys, first, |phys|, off, data)
    ensures SameOutside(old(alloc.dev.disk), alloc.dev.disk, alloc.fs.blockSize, SetOf(phys))
    ensures forall j :: 0 <= j < |phys| ==>
              Pinned(txn.blocks, phys[j]) == Some(ReadAt(alloc.dev.disk, alloc.fs.blockSize, phys[j]))
    ensures Journaled(alloc.fs, old(Now(alloc, txn)), Now(alloc, txn), SetOf(phys), {})
  {
    hide Ready, ViewOf, MetaBlocks, ReadAt, Pinned, SameOutside, Children, Owns, DenseTree, DataBlocks, FindPhys,
      Overlaid, Mapped, Written, Flatten, StartOf, Journaled;
    var bs := alloc.fs.blockSize;
    MappedBlocks(alloc.fs, alloc.free, v, root, first, phys);
    ghost var except := SetOf(phys);
    SameOutsideSelf(alloc.dev.disk, bs, except);
    NothingTouched(alloc.fs, Now(alloc, txn), except);
    NoneWritten(bs, alloc.dev.disk, phys, first, off, data);
    var i := 0;
    while i < |phys|
      invariant 0 <= i <= |phys|
      invariant Ready(alloc, txn, root)
      invariant ViewOf(alloc.dev.disk, alloc.fs.blockSize, root)
                == old(ViewOf(alloc.dev.disk, alloc.fs.blockSize, root))
      invariant Written(bs, old(alloc.dev.disk), alloc.dev.disk, phys, first, i, off, data)
      invariant SameOutside(old(alloc.dev.disk), alloc.dev.disk, bs, except)
      invariant forall j :: 0 <= j < i ==> Pinned(txn.blocks, phys[j]) == Some(ReadAt(alloc.dev.disk, bs, phys[j]))
      invariant Journaled(alloc.fs, old(Now(alloc, txn)), Now(alloc, txn), except, {})
    {
      ghost var was, disk := Now(alloc, txn), alloc.dev.disk;
      WriteSlice(alloc, txn, root, phys[i], first + i, first, last, off, data);
      WrittenNext(bs, old(alloc.dev.disk), disk, alloc.dev.disk, phys, first, i, off, data);
      SameOutsideTwice(old(alloc.dev.disk), disk, alloc.dev.disk, bs, except, {phys[i]}, except);
      JournaledTogether(alloc.fs, old(Now(alloc, txn)), was, Now(alloc, txn), except, {phys[i]}, except);
      OthersSame(bs, disk, alloc.dev.disk, phys, i);
      i := i + 1;
    }
  }

  lemma OthersSame(bs: nat, disk: Disk, disk': Disk, phys: seq<nat>, i: nat)
    requires i < |phys| && Distinct(phys) && SameOutside(disk, disk', bs, {phys[i]})
    ensures forall j :: 0 <= j < i ==> ReadAt(disk', bs, phys[j]) == ReadAt(disk, bs, phys[j]) && phys[j] != phys[i]
  {
    hide ReadAt;
  }

  lemma NoneWritten(bs: nat, disk: Disk, phys: seq<nat>, first: nat, off: nat, data: Bytes)
    ensures Written(bs, disk, disk, phys, first, 0, off, data)
  {
    hide ReadAt, Overlaid;
  }

  /** Once all its blocks are written, the file reads as `data` over what it was. */
  lemma WrittenFile(bs: nat, was: Disk, disk: Disk, es: seq<Extent>, phys: seq<nat>, first: nat, last: nat, off: nat,
                    data: Bytes)
    requires bs > 0 && data != [] && Spans(bs, off, |data|, first, last)
    requires DisjointData(es) && Mapped(es, first, phys) && first + |phys| == last + 1
    requires Written(bs, was, disk, phys, first, |phys|, off, data)
    requires SameOutside(was, disk, bs, SetOf(phys))
    ensures forall l: nat ::
              BlockData(disk, bs, es, l) == Overlaid(BlockData(was, bs, es, l), StartOf(l, bs), off, data)
  {
    hide ReadAt, DisjointData, FindPhys, Zeros;
    forall l: nat ensures BlockData(disk, bs, es, l) == Overlaid(BlockData(was, bs, es, l), StartOf(l, bs), off, data) {
      SliceBounds(bs, off, |data|, l);
      if first <= l < first + |phys| {
        assert FindPhys(es, first + (l - first)) == Some(phys[l - first]);
      } else {
        if FindPhys(es, l).Some? && FindPhys(es, l).value in phys {
          var j :| 0 <= j < |phys| && phys[j] == FindPhys(es, l).value;
          FindInjective(es, l, first + j);
        }
        assert BlockData(disk, bs, es, l) == BlockData(was, bs, es, l);
      }
    }
  }

  // ---- write_file_data ----

  /** The physical blocks of logical blocks `first` to `last`. */
  ghost function Behind(es: seq<Extent>, first: nat, last: nat): set<nat> {
    set l: nat | first <= l <= last && FindPhys(es, l).Some? :: FindPhys(es, l).value
  }

  /** The blocks that hold the bytes [off, off + len) of the file. */
  ghost function Holding(es: seq<Extent>, bs: nat, off: nat, len: nat): set<nat>
    requires bs > 0
  {
    if len == 0 then {} else Behind(es, BlockOf(off, bs), BlockOf(off + len - 1, bs))
  }

  /** All blocks written are pinned as the device has them: the nodes and bitmaps that changed, and every block
      that holds a byte of the write. */
  ghost predicate WriteJournaled(fs: Layout, a: Snapshot, b: Snapshot, root: Node, es: seq<Extent>, off: nat, len: nat)
    requires fs.blockSize > 0
  {
    var w := Holding(es, fs.blockSize, off, len);
    && Journaled(fs, a, b, Children(root) + MetaBlocks(fs) + w, {})
    && forall c :: c in w ==> Pinned(b.pins, c) == Some(ReadAt(b.disk, fs.blockSize, c))
  }

  lemma BehindMapped(es: seq<Extent>, first: nat, last: nat, phys: seq<nat>)
    requires Mapped(es, first, phys) && first + |phys| == last + 1
    ensures Behind(es, first, last) == SetOf(phys)
  {
    hide FindPhys;
    forall l: nat | first <= l <= last ensures FindPhys(es, l) == Some(phys[l - first]) {
      assert FindPhys(es, first + (l - first)) == Some(phys[l - first]);
    }
    forall p | p in phys ensures p in Behind(es, first, last) {
      var j :| 0 <= j < |phys| && phys[j] == p;
      assert FindPhys(es, first + j) == Some(p);
    }
  }

  /** A data block that the write does not reach was a data block before. */
  lemma NotReached(es: seq<Extent>, es': seq<Extent>, first: nat, last: nat, c: nat)
    requires Dense(es') && SameMap(es, es') && first <= EndOf(es) && EndOf(es') == Max(EndOf(es), last + 1)
    requires c in DataBlocks(es') && c !in Behind(es', first, last)
    ensures c in DataBlocks(es)
  {
    hide Dense, FindPhys, DataBlocks, EndOf;
    var l := DataIsFound(es', c);
    DenseMaps(es', l);
    FindsData(es, l);
  }

  lemma BothJournaled(fs: Layout, free: set<nat>, root: Node, v: View, s0: Snapshot, free': set<nat>, root': Node,
                      s1: Snapshot, s2: Snapshot, es': seq<Extent>, first: nat, last: nat)
    requires Owns(fs, free, v, root) && Grown(fs, free, root, s0, All(v), free', root', s1, es') && Dense(es')
    requires first <= EndOf(All(v)) && EndOf(es') == Max(EndOf(All(v)), last + 1)
    requires var w := Behind(es', first, last);
             && Journaled(fs, s1, s2, w, {})
             && forall c :: c in w ==> Pinned(s2.pins, c) == Some(ReadAt(s2.disk, fs.blockSize, c))
    ensures Journaled(fs, s0, s2, Children(root') + MetaBlocks(fs) + Behind(es', first, last), {})
  {
    hide ReadAt, Pinned, Dense, DataBlocks, Children, MetaBlocks, SameData, SameMap, EndOf, Flatten, Behind,
      CountsJournaled, DisjointData, Volume;
    var w, s := Behind(es', first, last), Children(root') + MetaBlocks(fs) + Behind(es', first, last);
    assert CountsJournaled(fs, s0, s2) by { CountsTwice(fs, s0, s1, s2); }
    forall c | c != fs.descBlock
      ensures Untouched(fs, s0, s2, c) || (c in s && Pinned(s2.pins, c) == Some(ReadAt(s2.disk, fs.blockSize, c)))
    {
      if c !in w {
        assert Untouched(fs, s1, s2, c);
        if c in DataBlocks(es') { NotReached(All(v), es', first, last, c); }
      }
    }
  }

  /** Writes `data` at byte `off` of a dense file, provisioning blocks as needed. On success the file
      reads as `data` in [off, off + |data|) and as before everywhere else, and no block outside the
      file, the free blocks and the bitmaps has been written. Provisioning fails only when the volume
      is full or the tree at its capacity. */
  method WriteFileData(alloc: Allocator, txn: Transaction, root: Node, size: nat, ino: nat, off: nat, data: Bytes,
                       ghost v: View) returns (r: Result<Node, WriteError>, ghost t: Trace, ghost kept: Node)
    requires FileOk(alloc, txn, root, v) && alloc.fs.blockSize > 0
    requires BlockOf(off, alloc.fs.blockSize) <= EndOf(All(v))
    requires data != [] ==> BlockOf(off + |data| - 1, alloc.fs.blockSize) + 1 < U32
    modifies alloc`counts, alloc`free, alloc.dev`disk, txn`blocks
    ensures Geometry(alloc.fs)
    ensures t.Sound() && t.stages[0] == Stage(v, old(alloc.free))
    ensures data != [] ==>
              Provisions(alloc.fs, LeafMaxEntries(alloc.fs.blockSize), EndOf(All(v)),
                         BlockOf(off + |data| - 1, alloc.fs.blockSize), BlockOf(size, alloc.fs.blockSize), ino, t)
    ensures r.Ok? ==> t.Last() == Stage(ViewOf(alloc.dev.disk, alloc.fs.blockSize, r.value), alloc.free)
    ensures data == [] ==> r == Ok(root) && t.runs == []
    ensures r.Err? ==> data != []
                       && Stuck(alloc.fs, LeafMaxEntries(alloc.fs.blockSize), EndOf(All(v)),
                                BlockOf(off + |data| - 1, alloc.fs.blockSize), BlockOf(size, alloc.fs.blockSize), t,
                                r.error)
    ensures r.Ok? ==>
              var v' := ViewOf(alloc.dev.disk, alloc.fs.blockSize, r.value);
              && FileOk(alloc, txn, r.value, v')
              && (forall pos: nat :: FileByte(alloc.dev.disk, alloc.fs.blockSize, All(v'), pos) ==
                    if off <= pos < off + |data| then data[pos - off]
                    else FileByte(old(alloc.dev.disk), alloc.fs.blockSize, All(v), pos))
              && EndOf(All(v')) == (if data == [] then EndOf(All(v))
                                    else Max(EndOf(All(v)), BlockOf(off + |data| - 1, alloc.fs.blockSize) + 1))
              && SameMap(All(v), All(v')) && FileBlocks(v, root) <= FileBlocks(v', r.value)
              && alloc.free + FileBlocks(v', r.value) == old(alloc.free) + FileBlocks(v, root)
    ensures r.Ok? ==> SameOutside(old(alloc.dev.disk), alloc.dev.disk, alloc.fs.blockSize,
                                  old(alloc.free) + FileBlocks(v, root) + MetaBlocks(alloc.fs))
    ensures r.Ok? ==> WriteJournaled(alloc.fs, old(Now(alloc, txn)), Now(alloc, txn), r.value,
                                     All(ViewOf(alloc.dev.disk, alloc.fs.blockSize, r.value)), off, |data|)
    ensures r.Err? ==> Unfinished(alloc.fs, old(alloc.free), root, old(Now(alloc, txn)), Now(alloc, txn))
    ensures r.Err? && r.error.Alloc? ==>
              FileOk(alloc, txn, kept, t.Last().shape)
              && forall pos: nat :: FileByte(alloc.dev.disk, alloc.fs.blockSize, All(t.Last().shape), pos)
                                    == FileByte(old(alloc.dev.disk), alloc.fs.blockSize, All(v), pos)
    ensures r.Err? ==> (r.error == DepthLimit && data != [] && v.leaves != []
                        && EndOf(All(v)) + Room(v, LeafMaxEntries(alloc.fs.blockSize))
                           <= BlockOf(off + |data| - 1, alloc.fs.blockSize))
                       || (r.error == Alloc(NoFreeBlocks) && alloc.free == {})
  {
    hide FileOk, ViewOf, MetaBlocks, ReadAt, SameOutside, Children, Owns, DataBlocks, FindPhys, Overlaid, FileByte,
      SameData, Mapped, Written, Flatten, EndOf, BlockData, Grown, Provisionable, FileBlocks, Distinct, Spans, BlockOf,
      StartOf, Room, LeafMaxEntries, Provisions, Stuck, Journaled, Behind, Pinned, Unfinished;
    FileOkView(alloc, txn, root, v);
    FileGeometry(alloc, txn, root, v);
    if data == [] {
      SameOutsideSelf(alloc.dev.disk, alloc.fs.blockSize, alloc.free + FileBlocks(v, root) + MetaBlocks(alloc.fs));
      NothingTouched(alloc.fs, Now(alloc, txn), Children(root) + MetaBlocks(alloc.fs) + {});
      t := Trace([Stage(v, alloc.free)], []);
      r, kept := Ok(root), root;
      return;
    }
    var bs := alloc.fs.blockSize;
    var first, last := BlockOf(off, bs), BlockOf(off + |data| - 1, bs);
    FirstToLast(bs, off, |data|);
    FileOkOwns(alloc, txn, root, v);
    ghost var s0, free0 := Now(alloc, txn), alloc.free;
    var p;
    p, t, kept := Provision(alloc, txn, root, first, last, size, ino, v);
    if p.Err? {
      if p.error.Alloc? { SameBytes(bs, s0.disk, All(v), alloc.dev.disk, All(t.Last().shape)); }
      return Err(p.error), t, kept;
    }
    var (root', phys) := p.value;
    ghost var s1, v' := Now(alloc, txn), ViewOf(alloc.dev.disk, bs, root');
    WriteBlocks(alloc, txn, root', phys, first, last, off, data, v');
    ghost var s2 := Now(alloc, txn);
    FileOkView(alloc, txn, root', v');
    FileOkOwns(alloc, txn, root', v');
    WrittenFile(bs, s1.disk, s2.disk, All(v'), phys, first, last, off, data);
    GrownFacts(alloc.fs, free0, root, v, s0, alloc.free, root', s1, v');
    BothPhases(bs, s0.disk, All(v), s1.disk, s2.disk, All(v'), off, data);
    OverlaidFile(bs, s0.disk, All(v), s2.disk, All(v'), off, data);
    MappedBlocks(alloc.fs, alloc.free, v', root', first, phys);
    AllTouched(alloc.fs, free0, root, v, s0, alloc.free, root', s1, s2.disk, All(v'), phys);
    BehindMapped(All(v'), first, last, phys);
    BothJournaled(alloc.fs, free0, root, v, s0, alloc.free, root', s1, s2, All(v'), first, last);
    r, kept := Ok(root'), root';
  }

  lemma SameBytes(bs: nat, disk: Disk, es: seq<Extent>, disk': Disk, es': seq<Extent>)
    requires bs > 0 && SameData(bs, disk, es, disk', es')
    ensures forall pos: nat :: FileByte(disk', bs, es', pos) == FileByte(disk, bs, es, pos)
  {
    hide BlockData;
    forall pos: nat ensures FileByte(disk', bs, es', pos) == FileByte(disk, bs, es, pos) {
      assert BlockData(disk', bs, es', pos / bs) == BlockData(disk, bs, es, pos / bs);
    }
  }

  lemma GrownFacts(fs: Layout, free: set<nat>, root: Node, v: View, a: Snapshot, free': set<nat>, root': Node,
                   b: Snapshot, v': View)
    requires Grown(fs, free, root, a, All(v), free', root', b, All(v'))
    ensures SameData(fs.blockSize, a.disk, All(v), b.disk, All(v')) && SameMap(All(v), All(v')) && free' <= free
    ensures FileBlocks(v, root) <= FileBlocks(v', root')
    ensures free' + FileBlocks(v', root') == free + FileBlocks(v, root)
  {
    hide SameData, SameMap, SameOutside, Journaled, Children, DataBlocks, Flatten, MetaBlocks;
  }

  /** Both phases together touch free blocks, blocks of the file and bitmaps only. */
  lemma AllTouched(fs: Layout, free: set<nat>, root: Node, v: View, a: Snapshot, free': set<nat>, root': Node,
                   b: Snapshot, disk: Disk, es': seq<Extent>, phys: seq<nat>)
    requires Grown(fs, free, root, a, All(v), free', root', b, es')
    requires SameOutside(b.disk, disk, fs.blockSize, SetOf(phys))
    requires forall j :: 0 <= j < |phys| ==> phys[j] in DataBlocks(es')
    ensures SameOutside(a.disk, disk, fs.blockSize, free + FileBlocks(v, root) + MetaBlocks(fs))
  {
    hide SameData, SameOutside, ChildSet, MetaBlocks, DataBlocks, Journaled;
    SameOutsideTwice(a.disk, b.disk, disk, fs.blockSize, Provisionable(fs, free, root), SetOf(phys),
                     free + FileBlocks(v, root) + MetaBlocks(fs));
  }

  lemma FirstToLast(bs: nat, off: nat, len: nat)
    requires bs > 0 && len > 0
    ensures BlockOf(off, bs) <= BlockOf(off + len - 1, bs)
    ensures Spans(bs, off, len, BlockOf(off, bs), BlockOf(off + len - 1, bs))
  {
    CutAt(bs, off, off / bs);
    CutAt(bs, off + len - 1, off / bs);
  }

  lemma FileOkOwns(alloc: Allocator, txn: Transaction, root: Node, v: View)
    requires FileOk(alloc, txn, root, v)
    ensures Owns(alloc.fs, alloc.free, v, root) && DisjointData(All(v))
  {
  }

  /** Where every file begins: on any consistent volume the empty root of a fresh inode is a dense file,
      ready to be written from its first block on. */
  lemma NewFile(alloc: Allocator, txn: Transaction)
    requires alloc.Valid() && txn.Valid() && Volume(alloc.fs) <= U48 && 1024 <= alloc.fs.blockSize <= U16
    ensures FileOk(alloc, txn, Leaf(ROOT_MAX_ENTRIES, []), EMPTY) && EndOf(All(EMPTY)) == 0
  {
    hide Allocator.Valid, MetaBlocks, Volume;
    assert Flatten([[]]) == [] by { FlattenSnoc([], []); }
  }

  lemma BothPhases(bs: nat, disk0: Disk, es: seq<Extent>, disk1: Disk, disk2: Disk, es': seq<Extent>, off: nat,
                   data: Bytes)
    requires SameData(bs, disk0, es, disk1, es')
    requires forall l: nat ::
              BlockData(disk2, bs, es', l) == Overlaid(BlockData(disk1, bs, es', l), StartOf(l, bs), off, data)
    ensures forall l: nat ::
              BlockData(disk2, bs, es', l) == Overlaid(BlockData(disk0, bs, es, l), StartOf(l, bs), off, data)
  {
    hide BlockData, Overlaid, StartOf;
    forall l: nat ensures BlockData(disk2, bs, es', l)
      == Overlaid(BlockData(disk0, bs, es, l), StartOf(l, bs), off, data) {
      assert BlockData(disk1, bs, es', l) == BlockData(disk0, bs, es, l);
    }
  }
}

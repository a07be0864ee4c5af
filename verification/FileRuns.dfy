/** Runs of writes and truncations of one file within one transaction: the file reads as the edits say, no
    block of the volume is lost, and the transaction holds all that is needed to redo them. */
module FileRuns {
  import opened Base
  import opened Device
  import opened BlockAlloc
  import opened ExtentNode
  import opened ExtentMap
  import opened ExtentView
  import opened ExtentAppend
  import opened FileData
  import opened FileWrite
  import FileTruncate
  import JournalLog

  datatype Edit = Write(off: nat, data: Bytes) | Cut(blocks: nat)

  /** The end of the file, in blocks, after an edit. */
  function EndAfter(n: nat, e: Edit, bs: nat): nat
    requires bs > 0
  {
    match e
    case Write(off, data) => if data == [] then n else Max(n, BlockOf(off + |data| - 1, bs) + 1)
    case Cut(k) => Min(n, k)
  }

  /** Writes begin at or before the end and stay below the last block number, and truncations keep a block. */
  predicate Allowed(n: nat, e: Edit, bs: nat)
    requires bs > 0
  {
    match e
    case Write(off, data) => BlockOf(off, bs) <= n && (data != [] ==> BlockOf(off + |data| - 1, bs) + 1 < U32)
    case Cut(k) => k > 0
  }

  predicate AllAllowed(n: nat, edits: seq<Edit>, bs: nat)
    requires bs > 0
    decreases |edits|
  {
    edits == [] || (Allowed(n, edits[0], bs) && AllAllowed(EndAfter(n, edits[0], bs), edits[1..], bs))
  }

  /** The byte at `pos` after one edit, if it was `was` before. */
  function Edited(e: Edit, bs: nat, pos: nat, was: byte): byte {
    match e
    case Write(off, data) => if off <= pos < off + |data| then data[pos - off] else was
    case Cut(k) => if pos < k * bs then was else 0
  }

  /** The byte at `pos` after the edits. */
  function ByteAfter(edits: seq<Edit>, bs: nat, pos: nat, was: byte): byte {
    if edits == [] then was
    else Edited(edits[|edits| - 1], bs, pos, ByteAfter(edits[..|edits| - 1], bs, pos, was))
  }

  lemma OneEdit(e: Edit, bs: nat, pos: nat, was: byte)
    ensures ByteAfter([e], bs, pos, was) == Edited(e, bs, pos, was)
  {
    assert [e][..0] == [];
  }

  /** The blocks of the volume are either free or of the file, as many as at the start, and every change is
      pinned. */
  ghost predicate Kept(alloc: Allocator, txn: Transaction, root: Node, v: View, blocks: set<nat>, began: Disk)
    reads alloc, alloc.dev, txn
  {
    && FileOk(alloc, txn, root, v) && alloc.free + FileBlocks(v, root) == blocks
    && Redoes(alloc.fs, began, Now(alloc, txn))
  }

  /** The bytes of the file are those of the edits applied to what it was. */
  ghost predicate Reads(disk: Disk, bs: nat, es: seq<Extent>, edits: seq<Edit>, was: Disk, es0: seq<Extent>)
    requires bs > 0
  {
    forall pos: nat :: FileByte(disk, bs, es, pos) == ByteAfter(edits, bs, pos, FileByte(was, bs, es0, pos))
  }

  /** One edit. */
  method Apply(alloc: Allocator, txn: Transaction, root: Node, size: nat, ino: nat, e: Edit, ghost v: View,
               ghost blocks: set<nat>, ghost began: Disk) returns (r: Result<Node, WriteError>)
    requires Kept(alloc, txn, root, v, blocks, began) && alloc.fs.blockSize > 0
    requires Allowed(EndOf(All(v)), e, alloc.fs.blockSize)
    modifies alloc`counts, alloc`free, alloc.dev`disk, txn`blocks, txn`revoked
    ensures r.Ok? ==>
              var v' := ViewOf(alloc.dev.disk, alloc.fs.blockSize, r.value);
              && Kept(alloc, txn, r.value, v', blocks, began)
              && EndOf(All(v')) == EndAfter(EndOf(All(v)), e, alloc.fs.blockSize)
              && Reads(alloc.dev.disk, alloc.fs.blockSize, All(v'), [e], old(alloc.dev.disk), All(v))
  {
    hide FileOk, ViewOf, FileBlocks, Redoes, FileByte, BlockData, EndOf, Flatten, SameMap, BlockOf, Journaled, Holding,
      MetaBlocks, Children, Reads;
    ghost var s0, bs := Now(alloc, txn), alloc.fs.blockSize;
    match e {
      case Write(off, data) =>
        var w, _, _ := WriteFileData(alloc, txn, root, size, ino, off, data, v);
        r := w;
        if r.Ok? {
          ghost var v' := ViewOf(alloc.dev.disk, bs, r.value);
          JournaledRedoes(alloc.fs, began, s0, Now(alloc, txn),
                          Children(r.value) + MetaBlocks(alloc.fs) + Holding(All(v'), bs, off, |data|));
          WriteBytes(bs, s0.disk, All(v), alloc.dev.disk, All(v'), off, data);
        }
      case Cut(k) =>
        var c := FileTruncate.TruncateFile(alloc, txn, root, k, v);
        r := Ok(c.value);
        ghost var v' := ViewOf(alloc.dev.disk, bs, r.value);
        JournaledRedoes(alloc.fs, began, s0, Now(alloc, txn), Children(root) + MetaBlocks(alloc.fs));
        CutBytes(bs, s0.disk, All(v), alloc.dev.disk, All(v'), k);
    }
  }

  lemma CutBytes(bs: nat, disk: Disk, es: seq<Extent>, disk': Disk, es': seq<Extent>, k: nat)
    requires bs > 0
    requires forall l: nat :: BlockData(disk', bs, es', l) == if l < k then BlockData(disk, bs, es, l) else Zeros(bs)
    ensures Reads(disk', bs, es', [Cut(k)], disk, es)
  {
    hide BlockData;
    forall pos: nat
      ensures FileByte(disk', bs, es', pos) == ByteAfter([Cut(k)], bs, pos, FileByte(disk, bs, es, pos))
    {
      CutAt(bs, pos, k);
      OneEdit(Cut(k), bs, pos, FileByte(disk, bs, es, pos));
    }
  }

  lemma WriteBytes(bs: nat, disk: Disk, es: seq<Extent>, disk': Disk, es': seq<Extent>, off: nat, data: Bytes)
    requires bs > 0
    requires forall pos: nat :: FileByte(disk', bs, es', pos) ==
                                if off <= pos < off + |data| then data[pos - off] else FileByte(disk, bs, es, pos)
    ensures Reads(disk', bs, es', [Write(off, data)], disk, es)
  {
    hide FileByte;
    forall pos: nat
      ensures FileByte(disk', bs, es', pos) == ByteAfter([Write(off, data)], bs, pos, FileByte(disk, bs, es, pos))
    {
      OneEdit(Write(off, data), bs, pos, FileByte(disk, bs, es, pos));
    }
  }

  /** Runs the edits in order, up to the first write that fails. */
  method Run(alloc: Allocator, txn: Transaction, root: Node, size: nat, ino: nat, edits: seq<Edit>, ghost v: View,
             ghost began: Disk) returns (r: Result<Node, WriteError>)
    requires FileOk(alloc, txn, root, v) && alloc.fs.blockSize > 0 && Redoes(alloc.fs, began, Now(alloc, txn))
    requires AllAllowed(EndOf(All(v)), edits, alloc.fs.blockSize)
    modifies alloc`counts, alloc`free, alloc.dev`disk, txn`blocks, txn`revoked
    ensures r.Ok? ==>
              var v' := ViewOf(alloc.dev.disk, alloc.fs.blockSize, r.value);
              && FileOk(alloc, txn, r.value, v')
              && alloc.free + FileBlocks(v', r.value) == old(alloc.free) + FileBlocks(v, root)
              && Redoes(alloc.fs, began, Now(alloc, txn))
              && Reads(alloc.dev.disk, alloc.fs.blockSize, All(v'), edits, old(alloc.dev.disk), All(v))
  {
    hide FileOk, ViewOf, FileBlocks, Redoes, EndOf, Flatten, Allowed, EndAfter, Reads;
    var i, cur := 0, root;
    ghost var u, bs, blocks := v, alloc.fs.blockSize, alloc.free + FileBlocks(v, root);
    NoEdits(alloc.dev.disk, bs, All(v));
    FileOkView(alloc, txn, root, v);
    while i < |edits|
      invariant 0 <= i <= |edits| && u == ViewOf(alloc.dev.disk, alloc.fs.blockSize, cur)
      invariant Kept(alloc, txn, cur, u, blocks, began) && AllAllowed(EndOf(All(u)), edits[i..], bs)
      invariant Reads(alloc.dev.disk, bs, All(u), edits[..i], old(alloc.dev.disk), All(v))
    {
      ghost var disk := alloc.dev.disk;
      assert edits[i..][0] == edits[i] && edits[i..][1..] == edits[i + 1..];
      r := Apply(alloc, txn, cur, size, ino, edits[i], u, blocks, began);
      if r.Err? { return; }
      ghost var u' := ViewOf(alloc.dev.disk, bs, r.value);
      OneMoreEdit(bs, old(alloc.dev.disk), All(v), disk, All(u), alloc.dev.disk, All(u'), edits, i);
      cur, i := r.value, i + 1;
      u := u';
    }
    assert edits[..i] == edits;
    r := Ok(cur);
  }

  lemma NoEdits(disk: Disk, bs: nat, es: seq<Extent>)
    requires bs > 0
    ensures Reads(disk, bs, es, [], disk, es)
  {
    hide BlockData;
  }

  lemma OneMoreEdit(bs: nat, d0: Disk, e0: seq<Extent>, d1: Disk, e1: seq<Extent>, d2: Disk, e2: seq<Extent>,
                    edits: seq<Edit>, i: nat)
    requires bs > 0 && i < |edits| && Reads(d1, bs, e1, edits[..i], d0, e0) && Reads(d2, bs, e2, [edits[i]], d1, e1)
    ensures Reads(d2, bs, e2, edits[..i + 1], d0, e0)
  {
    hide FileByte;
    forall pos: nat
      ensures FileByte(d2, bs, e2, pos) == ByteAfter(edits[..i + 1], bs, pos, FileByte(d0, bs, e0, pos))
    {
      assert edits[..i + 1][..i] == edits[..i];
      OneEdit(edits[i], bs, pos, FileByte(d1, bs, e1, pos));
      assert FileByte(d1, bs, e1, pos) == ByteAfter(edits[..i], bs, pos, FileByte(d0, bs, e0, pos));
    }
  }

  /** What commit writes home, or a replay after it, over the device as it was when the transaction began, is
      the device as the run left it, but for the descriptors. */
  lemma RedoneByReplay(fs: Layout, began: Disk, x: Snapshot, c: nat)
    requires Redoes(fs, began, x) && JournalLog.Sized(x.pins, fs.blockSize) && c != fs.descBlock
    ensures ReadAt(JournalLog.Applied(began, x.pins), fs.blockSize, c) == ReadAt(x.disk, fs.blockSize, c)
  {
    hide ReadAt;
    JournalLog.AppliedView(began, x.pins, fs.blockSize, c);
    assert Device.View(x.pins, began, fs.blockSize, c) == ReadAt(x.disk, fs.blockSize, c);
  }
}

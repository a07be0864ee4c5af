/** Reading a file: the reader collects the leaf extents once, resolves each logical block by
    bisection and copies block by block. */
module FileRead {
  import opened Base
  import opened Device
  import opened BlockAlloc
  import opened ExtentNode
  import opened ExtentMap
  import opened ExtentLookup
  import opened ExtentView
  import opened ExtentAppend
  import opened FileData
  import opened FileWrite

  /** The bytes following `x` in its block. */
  lemma SameBlock(bs: nat, x: nat, d: nat)
    requires bs > 0 && d < bs - x % bs
    ensures (x + d) / bs == x / bs && (x + d) % bs == x % bs + d
  {
    var q, i := x / bs, x % bs;
    assert q * bs + i == x;
    CutAt(bs, x + d, q);
    CutAt(bs, x + d, q + 1);
    assert (q + 1) * bs == q * bs + bs;
  }

  /** The byte `d` after `at` in the block that `at` lies in. */
  lemma Piece(disk: Disk, bs: nat, es: seq<Extent>, at: nat, d: nat)
    requires bs > 0 && d < bs - at % bs
    ensures FileByte(disk, bs, es, at + d) == BlockData(disk, bs, es, at / bs)[at % bs + d]
  {
    hide BlockData;
    SameBlock(bs, at, d);
  }

  class FileReader {
    const dev: BlockDevice
    const size: nat
    const leaves: seq<Extent>
    var position: nat

    ghost predicate Valid() {
      Sorted(leaves) && dev.blockSize > 0
    }

    constructor (dev: BlockDevice, size: nat, leaves: seq<Extent>)
      requires Sorted(leaves) && dev.blockSize > 0
      ensures Valid() && this.dev == dev && this.size == size && this.leaves == leaves && position == 0
    {
      this.dev, this.size, this.leaves, position := dev, size, leaves, 0;
    }

    /** Copies `count` bytes of logical block `l`, from its byte `from` on, to `buf[n..]`. */
    method CopyPiece(buf: array<byte>, n: nat, count: nat, l: nat, from: nat)
      requires Valid() && n + count <= buf.Length && from + count <= dev.blockSize
      modifies buf
      ensures forall i {:trigger buf[i]} :: n <= i < n + count ==>
                buf[i] == BlockData(dev.disk, dev.blockSize, leaves, l)[from + (i - n)]
      ensures forall i :: 0 <= i < n || n + count <= i < buf.Length ==> buf[i] == old(buf[i])
    {
      hide FindPhys, ReadAt, PartitionPoint;
      var p := ResolveLblock(leaves, l);
      ResolveIsFind(leaves, l);
      match p
      case None =>
        forall i | n <= i < n + count { buf[i] := 0; }
      case Some(b) =>
        var block := dev.Read(b);
        forall i | n <= i < n + count { buf[i] := block[from + (i - n)]; }
    }

    /** Reads from the current position on, up to the end of the file or of `buf`; holes and
        uninitialised extents read as zeros. */
    method Read(buf: array<byte>) returns (n: nat)
      requires Valid()
      modifies this`position, buf
      ensures n == if old(position) >= size then 0 else Min(buf.Length, size - old(position))
      ensures forall i :: 0 <= i < n ==> buf[i] == FileByte(dev.disk, dev.blockSize, leaves, old(position) + i)
      ensures forall i :: n <= i < buf.Length ==> buf[i] == old(buf[i])
      ensures position == old(position) + n
    {
      hide FileByte, BlockData;
      if position >= size { return 0; }
      var toRead, bs := Min(buf.Length, size - position), dev.blockSize;
      n := 0;
      while n < toRead
        invariant 0 <= n <= toRead && position == old(position)
        invariant forall i :: 0 <= i < n ==> buf[i] == FileByte(dev.disk, bs, leaves, position + i)
        invariant forall i :: n <= i < buf.Length ==> buf[i] == old(buf[i])
        decreases toRead - n
      {
        var at := position + n;
        var l, from := at / bs, at % bs;
        var canTake := Min(bs - from, toRead - n);
        CopyPiece(buf, n, canTake, l, from);
        forall i | n <= i < n + canTake ensures buf[i] == FileByte(dev.disk, bs, leaves, position + i) {
          Piece(dev.disk, bs, leaves, at, i - n);
        }
        n := n + canTake;
      }
      position := position + n;
    }
  }

  const MAX_LEAF_EXTENTS: nat := 5460  // entries of the largest leaf block, 64 KiB

  lemma {:induction false} FlattenLength(leaves: seq<seq<Extent>>)
    requires forall i :: 0 <= i < |leaves| ==> |leaves[i]| <= MAX_LEAF_EXTENTS
    ensures |Flatten(leaves)| <= MAX_LEAF_EXTENTS * |leaves|
  {
    if leaves != [] { FlattenLength(leaves[..|leaves| - 1]); }
  }

  /** No tree that writes build has too many extents to be read. */
  lemma FewExtents(v: View, bs: nat)
    requires 1024 <= bs <= U16 && DenseTree(v, LeafMaxEntries(bs))
    ensures |All(v)| <= MAX_TOTAL_LEAVES
  {
    hide KeysExact, Dense, Flatten, Keyed;
    assert LeafMaxEntries(bs) <= MAX_LEAF_EXTENTS;
    FlattenLength(v.leaves);
  }

  /** Opens a file of any tree: its reader holds the extents of the tree, in order. It fails exactly on
      a tree with too many of them. */
  method Open(dev: BlockDevice, root: Node, size: nat, ghost lo: nat, ghost hi: nat)
      returns (r: Result<FileReader, ExtentError>)
    requires dev.blockSize > 0 && WellFormed(dev.disk, dev.blockSize, root, lo, hi)
    requires Levels(dev.disk, dev.blockSize, root)
    ensures r.Ok? <==> |Collect(dev.disk, dev.blockSize, root)| <= MAX_TOTAL_LEAVES
    ensures r.Err? ==> r.error == TooManyLeaves
    ensures r.Ok? ==>
              && fresh(r.value) && r.value.Valid() && r.value.dev == dev && r.value.size == size
              && r.value.leaves == Collect(dev.disk, dev.blockSize, root) && r.value.position == 0
  {
    hide WellFormed, Levels, Collect, Sorted;
    CollectSorted(dev.disk, dev.blockSize, root, lo, hi);
    var leaves := CollectLeaves(dev, root, [], lo, hi);
    if leaves.Err? { return Err(leaves.error); }
    assert [] + Collect(dev.disk, dev.blockSize, root) == Collect(dev.disk, dev.blockSize, root);
    var reader := new FileReader(dev, size, leaves.value);
    r := Ok(reader);
  }

  /** A dense file can always be opened. */
  lemma DenseOpens(alloc: Allocator, txn: Transaction, root: Node, v: View)
    requires FileOk(alloc, txn, root, v) && alloc.fs.blockSize >= 12
    ensures WellFormed(alloc.dev.disk, alloc.fs.blockSize, root, 0, U32 - 1)
    ensures Levels(alloc.dev.disk, alloc.fs.blockSize, root)
    ensures Collect(alloc.dev.disk, alloc.fs.blockSize, root) == All(v) && |All(v)| <= MAX_TOTAL_LEAVES
  {
    hide Ready, ViewOf, Owns, Flatten, LeafMaxEntries, NodesOk, KeysExact, WellShaped, WellFormed, Levels, Collect;
    ReadyBounds(alloc, txn, root);
    DenseTreeFacts(v, LeafMaxEntries(alloc.fs.blockSize));
    ViewIsTree(alloc.dev.disk, alloc.fs.blockSize, root, LeafMaxEntries(alloc.fs.blockSize), 0);
    FewExtents(v, alloc.fs.blockSize);
  }

  /** A successful write followed by a read of the same range returns what was written. */
  method WriteThenRead(alloc: Allocator, txn: Transaction, root: Node, size: nat, ino: nat, off: nat, data: Bytes,
                       buf: array<byte>, ghost v: View) returns (r: Result<nat, WriteError>)
    requires FileOk(alloc, txn, root, v) && alloc.fs.blockSize > 0 && BlockOf(off, alloc.fs.blockSize) <= EndOf(All(v))
    requires data != [] ==> BlockOf(off + |data| - 1, alloc.fs.blockSize) + 1 < U32
    requires buf.Length == |data|
    modifies alloc`counts, alloc`free, alloc.dev`disk, txn`blocks, buf
    ensures r.Ok? ==> r.value == |data| && buf[..] == data
  {
    hide FileOk, ViewOf, FileByte, Flatten, EndOf, MetaBlocks, FileBlocks, BlockOf;
    var w, _, _ := WriteFileData(alloc, txn, root, size, ino, off, data, v);
    if w.Err? { return Err(w.error); }
    ghost var v' := ViewOf(alloc.dev.disk, alloc.fs.blockSize, w.value);
    FileOkView(alloc, txn, w.value, v');
    DenseOpens(alloc, txn, w.value, v');
    var f := Open(alloc.dev, w.value, Max(size, off + |data|), 0, U32 - 1);
    f.value.position := off;
    var n := f.value.Read(buf);
    forall i | 0 <= i < |data| ensures buf[i] == data[i] {
      assert buf[i] == FileByte(alloc.dev.disk, alloc.fs.blockSize, All(v'), off + i);
    }
    r := Ok(n);
  }
}

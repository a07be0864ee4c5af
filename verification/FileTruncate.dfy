/** What appending and truncating mean to a reader: the map that lookups see, and the bytes of the file. */
module FileTruncate {
  import opened Base
  import opened Device
  import opened BlockAlloc
  import opened ExtentNode
  import opened ExtentMap
  import opened ExtentLookup
  import opened ExtentView
  import opened ExtentAppend
  import opened ExtentTruncate
  import opened FileData
  import opened FileWrite

  /** After a successful append, in whichever of its ways, lookups find the appended run right after the
      old end of the file and every other block where it was. */
  lemma LookupAfterAppend(disk: Disk, root: Node, disk': Disk, root': Node, bs: nat, phys: nat, count: nat, l: nat)
    requires 1024 <= bs && NodesOk(disk, bs, root) && NodesOk(disk', bs, root')
    requires WellShaped(ViewOf(disk, bs, root), LeafMaxEntries(bs)) && 1 <= count <= MAX_EXTENT_LEN
    requires EndOf(All(ViewOf(disk, bs, root))) + count < U32
    requires AppendView(ViewOf(disk, bs, root), LeafMaxEntries(bs), phys, count) == Ok(ViewOf(disk', bs, root'))
    ensures Levels(disk, bs, root) && Levels(disk', bs, root')
    ensures var n := EndOf(All(ViewOf(disk, bs, root)));
            Lookup(disk', bs, root', l) ==
            if n <= l < n + count then Ok(Some(phys + (l - n))) else Lookup(disk, bs, root, l)
  {
    hide NodesOk, ViewOf, AppendView, WellShaped, Lookup, Levels, WellFormed, Collect, AppendExtents, FindPhys, Sorted;
    var v, m := ViewOf(disk, bs, root), LeafMaxEntries(bs);
    AppendKeepsShape(v, m, phys, count);
    AppendFlattens(v, m, phys, count);
    ShapeSorted(v, m);
    AppendExtendsMap(All(v), phys, count, l);
    ViewIsTree(disk, bs, root, m, l);
    ViewIsTree(disk', bs, root', m, l);
  }

  /** After a truncation of any well-formed tree, sparse or not, lookups find the blocks below `k` where
      they were and nothing else. */
  lemma LookupAfterTruncate(disk: Disk, root: Node, disk': Disk, root': Node, bs: nat, k: nat, l: nat)
    requires 1024 <= bs && NodesOk(disk, bs, root) && NodesOk(disk', bs, root')
    requires WellShaped(ViewOf(disk, bs, root), LeafMaxEntries(bs))
    requires ViewOf(disk', bs, root') == TruncView(ViewOf(disk, bs, root), k)
    ensures Levels(disk, bs, root) && Levels(disk', bs, root')
    ensures Lookup(disk', bs, root', l) == if l < k then Lookup(disk, bs, root, l) else Ok(None)
  {
    hide NodesOk, ViewOf, TruncView, WellShaped, Ordered, Lookup, Levels, WellFormed, Collect, TruncExtents, FindPhys;
    var v, m := ViewOf(disk, bs, root), LeafMaxEntries(bs);
    TruncKeepsOrdered(v, m, k);
    TruncFlattens(v, m, k);
    TruncRestrictsMap(All(v), k, l);
    OrderedIsTree(disk, bs, root, l);
    OrderedIsTree(disk', bs, root', l);
  }

  lemma {:induction false} KeyedAddressable(leaves: seq<seq<Extent>>, keys: seq<nat>, hi: nat, i: nat, k: nat)
    requires |keys| == |leaves| && Keyed(leaves, keys, hi) && hi < U32 && i < |leaves|
    ensures Addressable(leaves[i], k)
  {
    var n := |leaves| - 1;
    if i == n { SortedPairs(leaves[n]); } else { KeyedAddressable(leaves[..n], keys[..n], keys[n], i, k); }
  }

  lemma ShapeAddressable(v: View, m: nat, k: nat)
    requires WellShaped(v, m)
    ensures forall i :: 0 <= i < |v.leaves| ==> Addressable(v.leaves[i], k)
  {
    forall i | 0 <= i < |v.leaves| ensures Addressable(v.leaves[i], k) {
      if v.deep { KeyedAddressable(v.leaves, v.keys, U32 - 1, i, k); } else { SortedPairs(v.leaves[0]); }
    }
  }

  /** Bytes of the kept blocks stay, everything from block `k` on reads as zeros. */
  lemma TruncatedData(bs: nat, disk: Disk, disk': Disk, es: seq<Extent>, k: nat, except: set<nat>, l: nat)
    requires SameOutside(disk, disk', bs, except) && DataBlocks(es) !! except
    ensures BlockData(disk', bs, TruncExtents(es, k), l) == if l < k then BlockData(disk, bs, es, l) else Zeros(bs)
  {
    hide ReadAt, DataBlocks, TruncExtents, FindPhys;
    TruncRestrictsMap(es, k, l);
    FindsData(es, l);
  }

  /** Truncates a dense file. It stays a dense file, its first `k` blocks keep their bytes, everything
      behind them reads as zeros, and the blocks it gives up are free. An index is never left empty,
      because a deep tree is truncated to more than nothing. */
  method TruncateFile(alloc: Allocator, txn: Transaction, root: Node, k: nat, ghost v: View)
      returns (r: Result<Node, AllocError>)
    requires FileOk(alloc, txn, root, v) && (v.deep ==> k > 0)
    modifies alloc`counts, alloc`free, alloc.dev`disk, txn`blocks, txn`revoked
    ensures r.Ok?
    ensures var v' := ViewOf(alloc.dev.disk, alloc.fs.blockSize, r.value);
            && FileOk(alloc, txn, r.value, v') && EndOf(All(v')) == Min(EndOf(All(v)), k)
            && (forall l: nat :: BlockData(alloc.dev.disk, alloc.fs.blockSize, All(v'), l) ==
                  if l < k then BlockData(old(alloc.dev.disk), alloc.fs.blockSize, All(v), l)
                  else Zeros(alloc.fs.blockSize))
            && FileBlocks(v', r.value) <= FileBlocks(v, root)
            && alloc.free == old(alloc.free) + (FileBlocks(v, root) - FileBlocks(v', r.value))
            && RevokedTwice(old(txn.revoked), txn.revoked, FileBlocks(v, root) - FileBlocks(v', r.value))
    ensures Journaled(alloc.fs, old(Now(alloc, txn)), Now(alloc, txn), Children(root) + MetaBlocks(alloc.fs), {})
  {
    hide RevokedTwice, Ready, ViewOf, TruncView, WellShaped, KeysExact, Flatten, DataBlocks, DisjointData, TruncExtents,
      BlockData, ReadAt, Dense, SameOutside, Children, MetaBlocks, Volume, Addressable, LeafMaxEntries,
      Journaled;
    var bs := alloc.fs.blockSize;
    ReadyBounds(alloc, txn, root);
    ghost var was, m := alloc.dev.disk, LeafMaxEntries(bs);
    ghost var except := Children(root) + MetaBlocks(alloc.fs);
    ShapeAddressable(v, m, k);
    assert DataBlocks(All(v)) !! except;
    ghost var s0 := Now(alloc, txn);
    r := TruncateTo(alloc, txn, root, k, v);
    JournaledSame(alloc.fs, s0, Now(alloc, txn), except);
    TruncKeepsDenseTree(v, m, k);
    TruncFlattens(v, m, k);
    TruncKeepsDense(All(v), k);
    forall l: nat
      ensures BlockData(alloc.dev.disk, bs, TruncExtents(All(v), k), l) ==
              if l < k then BlockData(was, bs, All(v), l) else Zeros(bs)
    {
      TruncatedData(bs, was, alloc.dev.disk, All(v), k, except, l);
    }
  }
}

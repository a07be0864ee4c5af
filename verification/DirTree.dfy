/** Directories of several blocks, read and edited through the transaction, and rename within and across
    directories as an update of the maps from names to inodes. */
module DirTree {
  import opened Base
  import opened Device
  import opened DirBlock

  /** The chains of a directory's blocks, in order. */
  type Chains = seq<seq<Record>>

  // ---- a directory as a list of blocks ----

  /** Block `b` is tiled by `recs`, as the transaction sees it. */
  ghost predicate BlockHolds(pins: Pins, disk: Disk, bs: nat, b: nat, recs: seq<Record>)
    requires WholePins(pins, bs)
  {
    |View(pins, disk, bs, b)| == bs && Tiles(View(pins, disk, bs, b), 0, bs, recs)
  }

  ghost predicate DirHolds(pins: Pins, disk: Disk, bs: nat, blocks: seq<nat>, chains: Chains)
    requires WholePins(pins, bs)
  {
    && |chains| == |blocks|
    && (forall i :: 0 <= i < |blocks| ==> BlockHolds(pins, disk, bs, blocks[i], chains[i]))
    && forall i, j :: 0 <= i < j < |blocks| ==> blocks[i] != blocks[j]
  }

  /** All live entries of a directory, in order. */
  function Entries(chains: Chains): seq<Entry> {
    if chains == [] then [] else LiveEntries(chains[0]) + Entries(chains[1..])
  }

  /** Insertion: into the first block that takes the entry, or into a new block of its own. */
  function DirInserted(chains: Chains, e: Entry, bs: nat): (r: Chains)
    ensures |chains| <= |r| <= |chains| + 1
  {
    if chains == [] then [[Record(WrittenEntry(e), bs)]]
    else
      match Inserted(chains[0], WrittenEntry(e), MinRecLen(|e.name|))
      case Some(recs) => [recs] + chains[1..]
      case None => [chains[0]] + DirInserted(chains[1..], e, bs)
  }

  /** Removal: from the first block that has a live record of that name. */
  function DirRemoved(chains: Chains, name: Bytes): (r: Chains)
    ensures |r| == |chains|
  {
    if chains == [] then []
    else
      match Match(chains[0], name)
      case Some(m) => [Removed(chains[0], m)] + chains[1..]
      case None => [chains[0]] + DirRemoved(chains[1..], name)
  }

  /** The first live entry of that name. */
  function DirFind(chains: Chains, name: Bytes): Option<Entry> {
    if chains == [] then None
    else
      match Match(chains[0], name)
      case Some(m) => Some(chains[0][m].entry)
      case None => DirFind(chains[1..], name)
  }

  lemma SkipsFull(c: seq<Record>, rest: Chains, e: Entry, bs: nat)
    requires Inserted(c, WrittenEntry(e), MinRecLen(|e.name|)).None?
    ensures DirInserted([c] + rest, e, bs) == [c] + DirInserted(rest, e, bs)
  {
    hide MinRecLen, Inserted;
    assert ([c] + rest)[1..] == rest;
  }

  lemma {:induction false} InsertedAt(chains: Chains, i: nat, e: Entry, bs: nat)
    requires i <= |chains| && forall j :: 0 <= j < i ==> Inserted(chains[j], WrittenEntry(e), MinRecLen(|e.name|)).None?
    ensures DirInserted(chains, e, bs) == chains[..i] + DirInserted(chains[i..], e, bs)
    decreases i
  {
    hide MinRecLen, Inserted, DirInserted;
    if i > 0 {
      assert chains == chains[..i - 1] + ([chains[i - 1]] + chains[i..]);
      InsertedAt(chains, i - 1, e, bs);
      assert chains[i - 1..] == [chains[i - 1]] + chains[i..];
      SkipsFull(chains[i - 1], chains[i..], e, bs);
      Regroup(chains[..i - 1], [chains[i - 1]], DirInserted(chains[i..], e, bs));
      assert chains[..i - 1] + [chains[i - 1]] == chains[..i];
    } else {
      assert chains[0..] == chains && chains[..0] + DirInserted(chains, e, bs) == DirInserted(chains, e, bs);
    }
  }

  lemma InsertedNew(e: Entry, bs: nat)
    ensures DirInserted([], e, bs) == [[Record(WrittenEntry(e), bs)]]
  {
  }

  /** Where insertion goes when block `i` is the first to take the entry. */
  lemma InsertedHereInDir(chains: Chains, i: nat, e: Entry, bs: nat)
    requires i < |chains| && forall j :: 0 <= j < i ==> Inserted(chains[j], WrittenEntry(e), MinRecLen(|e.name|)).None?
    requires Inserted(chains[i], WrittenEntry(e), MinRecLen(|e.name|)).Some?
    ensures DirInserted(chains, e, bs) == chains[i := Inserted(chains[i], WrittenEntry(e), MinRecLen(|e.name|)).value]
  {
    hide MinRecLen, Inserted;
    InsertedAt(chains, i, e, bs);
    assert chains[i..][0] == chains[i] && chains[i..][1..] == chains[i + 1..];
  }

  lemma {:induction false} RemovedAt(chains: Chains, i: nat, name: Bytes)
    requires i < |chains| && (forall j :: 0 <= j < i ==> Match(chains[j], name).None?) && Match(chains[i], name).Some?
    ensures DirRemoved(chains, name) == chains[i := Removed(chains[i], Match(chains[i], name).value)]
    ensures DirFind(chains, name) == Some(chains[i][Match(chains[i], name).value].entry)
    decreases i
  {
    hide Match, Removed;
    if i > 0 {
      assert Match(chains[0], name).None?;
      forall j | 0 <= j < i - 1 ensures Match(chains[1..][j], name).None? { assert chains[1..][j] == chains[j + 1]; }
      RemovedAt(chains[1..], i - 1, name);
      assert chains == [chains[0]] + chains[1..];
    }
  }

  lemma {:induction false} FoundNowhere(chains: Chains, name: Bytes)
    requires forall j :: 0 <= j < |chains| ==> Match(chains[j], name).None?
    ensures DirFind(chains, name) == None && DirRemoved(chains, name) == chains
  {
    hide Match, Removed;
    if chains != [] {
      forall j | 0 <= j < |chains| - 1 ensures Match(chains[1..][j], name).None? {
        assert chains[1..][j] == chains[j + 1];
      }
      FoundNowhere(chains[1..], name);
    }
  }

  /** Writing one block of a directory. */
  lemma BlockPinned(pins: Pins, pins': Pins, disk: Disk, bs: nat, blocks: seq<nat>, chains: Chains, i: nat, data: Bytes,
                    recs: seq<Record>)
    requires WholePins(pins, bs) && DirHolds(pins, disk, bs, blocks, chains) && i < |blocks|
    requires |data| == bs && Tiles(data, 0, bs, recs)
    requires forall c :: Pinned(pins', c) == if c == blocks[i] then Some(data) else Pinned(pins, c)
    ensures WholePins(pins', bs) && DirHolds(pins', disk, bs, blocks, chains[i := recs])
  {
    hide Tiles, Pinned;
    forall j | 0 <= j < |blocks| ensures BlockHolds(pins', disk, bs, blocks[j], chains[i := recs][j]) {
      if j != i { assert BlockHolds(pins, disk, bs, blocks[j], chains[j]); }
    }
  }

  lemma BlockAppended(pins: Pins, pins': Pins, disk: Disk, bs: nat, blocks: seq<nat>, chains: Chains, b: nat,
                      data: Bytes,
                      recs: seq<Record>)
    requires WholePins(pins, bs) && DirHolds(pins, disk, bs, blocks, chains) && b !in blocks
    requires |data| == bs && Tiles(data, 0, bs, recs)
    requires forall c :: Pinned(pins', c) == if c == b then Some(data) else Pinned(pins, c)
    ensures WholePins(pins', bs) && DirHolds(pins', disk, bs, blocks + [b], chains + [recs])
  {
    hide Tiles, Pinned;
    forall j | 0 <= j < |blocks| ensures BlockHolds(pins', disk, bs, blocks[j], chains[j]) {
      assert BlockHolds(pins, disk, bs, blocks[j], chains[j]);
    }
  }

  /** Only blocks of `s` look different through the transaction. */
  ghost predicate OnlyPins(pins: Pins, pins': Pins, s: set<nat>) {
    forall c :: c !in s ==> Pinned(pins', c) == Pinned(pins, c)
  }

  /** Adds an entry to a directory. `newBlock` is what the allocator hands out if no block has room. */
  method DirInsert(dev: BlockDevice, txn: Transaction, blocks: seq<nat>, e: Entry, newBlock: nat, ghost chains: Chains)
      returns (blocks': seq<nat>)
    requires txn.Valid() && 1024 <= dev.blockSize < U16 && WholePins(txn.blocks, dev.blockSize)
    requires DirHolds(txn.blocks, dev.disk, dev.blockSize, blocks, chains) && newBlock !in blocks
    requires 8 + |e.name| <= dev.blockSize
    modifies txn`blocks
    ensures txn.Valid() && WholePins(txn.blocks, dev.blockSize)
    ensures DirHolds(txn.blocks, dev.disk, dev.blockSize, blocks', DirInserted(chains, e, dev.blockSize))
    ensures blocks' == blocks || blocks' == blocks + [newBlock]
    ensures OnlyPins(old(txn.blocks), txn.blocks, SetOf(blocks'))
  {
    hide Tiles, MinRecLen, Inserted, Pinned, ReadAt, DirInserted;
    var bs := dev.blockSize;
    var i := 0;
    while i < |blocks|
      invariant 0 <= i <= |blocks| && txn.blocks == old(txn.blocks)
      invariant forall j :: 0 <= j < i ==> Inserted(chains[j], WrittenEntry(e), MinRecLen(|e.name|)).None?
    {
      assert BlockHolds(txn.blocks, dev.disk, bs, blocks[i], chains[i]);
      var data := ReadPinned(dev, txn, blocks[i]);
      var buf := new byte[bs](k requires 0 <= k < bs => data[k]);
      assert buf[..] == data;
      var ok := TryInsert(buf, e, chains[i]);
      if ok {
        txn.PinBlock(blocks[i], buf[..]);
        InsertedHereInDir(chains, i, e, bs);
        BlockPinned(old(txn.blocks), txn.blocks, dev.disk, bs, blocks, chains, i, buf[..],
                    Inserted(chains[i], WrittenEntry(e), MinRecLen(|e.name|)).value);
        return blocks;
      }
      i := i + 1;
    }
    InsertedAt(chains, i, e, bs);
    InsertedNew(e, bs);
    assert chains[i..] == [] && chains[..i] == chains;
    var block := Patch(Zeros(bs), 0, DirentBytes(e, bs));
    PatchedSlice(Zeros(bs), 0, DirentBytes(e, bs));
    DirentRoundTrip(block, 0, e, bs);
    txn.PinBlock(newBlock, block);
    BlockAppended(old(txn.blocks), txn.blocks, dev.disk, bs, blocks, chains, newBlock, block,
                  [Record(WrittenEntry(e), bs)]);
    return blocks + [newBlock];
  }

  /** Reads a block through the transaction: the pinned copy if there is one. */
  method ReadPinned(dev: BlockDevice, txn: Transaction, b: nat) returns (data: Bytes)
    ensures data == View(txn.blocks, dev.disk, dev.blockSize, b)
  {
    var pinned := Pinned(txn.blocks, b);
    if pinned.Some? { data := pinned.value; } else { data := dev.Read(b); }
  }

  /** Nothing deleted lies between a record of that name and the live record before it. */
  predicate Removable(chains: Chains, name: Bytes) {
    forall i :: 0 <= i < |chains| ==>
      (Match(chains[i], name).Some? ==> Adjacent(chains[i], Match(chains[i], name).value))
  }

  lemma CleanAt(chains: Chains, i: nat, name: Bytes)
    requires Removable(chains, name) && i < |chains| && Match(chains[i], name).Some?
    ensures Adjacent(chains[i], Match(chains[i], name).value)
  {
  }

  /** Block `i` is the first with an entry of that name. */
  predicate FirstWith(chains: Chains, i: nat, name: Bytes) {
    i < |chains| && Match(chains[i], name).Some? && forall j :: 0 <= j < i ==> Match(chains[j], name).None?
  }

  /** The first block with that name has become the bytes that removal leaves of it, and no other block of
      the directory has changed. */
  ghost predicate DirCut(pins: Pins, pins': Pins, disk: Disk, bs: nat, blocks: seq<nat>, chains: Chains, name: Bytes)
    requires WholePins(pins, bs) && DirHolds(pins, disk, bs, blocks, chains)
  {
    forall i :: 0 <= i < |blocks| ==>
      var was := View(pins, disk, bs, blocks[i]);
      View(pins', disk, bs, blocks[i])
      == if FirstWith(chains, i, name) then RemovalBytes(was, chains[i], Match(chains[i], name).value) else was
  }

  lemma CutPinned(pins: Pins, pins': Pins, disk: Disk, bs: nat, blocks: seq<nat>, chains: Chains, i: nat, name: Bytes,
                  data: Bytes)
    requires WholePins(pins, bs) && DirHolds(pins, disk, bs, blocks, chains) && FirstWith(chains, i, name)
    requires data == RemovalBytes(View(pins, disk, bs, blocks[i]), chains[i], Match(chains[i], name).value)
    requires forall c :: Pinned(pins', c) == if c == blocks[i] then Some(data) else Pinned(pins, c)
    ensures DirCut(pins, pins', disk, bs, blocks, chains, name)
    ensures WholePins(pins', bs) && OnlyPins(pins, pins', SetOf(blocks))
  {
    hide Tiles, Pinned, RemovalBytes, Match, ReadAt;
    assert BlockHolds(pins, disk, bs, blocks[i], chains[i]);
    forall j | 0 <= j < |blocks| && j != i
      ensures !FirstWith(chains, j, name) && View(pins', disk, bs, blocks[j]) == View(pins, disk, bs, blocks[j])
    {
      assert blocks[j] != blocks[i];
    }
  }

  /** Removes an entry from a directory: cleanly if nothing deleted lies before its record. */
  method DirRemove(dev: BlockDevice, txn: Transaction, blocks: seq<nat>, name: Bytes, ghost chains: Chains)
      returns (r: Option<nat>)
    requires txn.Valid() && 1024 <= dev.blockSize < U16 && WholePins(txn.blocks, dev.blockSize)
    requires DirHolds(txn.blocks, dev.disk, dev.blockSize, blocks, chains)
    modifies txn`blocks
    ensures txn.Valid() && WholePins(txn.blocks, dev.blockSize)
    ensures DirCut(old(txn.blocks), txn.blocks, dev.disk, dev.blockSize, blocks, chains, name)
    ensures Removable(chains, name) ==>
              DirHolds(txn.blocks, dev.disk, dev.blockSize, blocks, DirRemoved(chains, name))
    ensures r == match DirFind(chains, name) case None => None case Some(e) => Some(e.inode)
    ensures OnlyPins(old(txn.blocks), txn.blocks, SetOf(blocks))
  {
    hide Tiles, Pinned, ReadAt, DirRemoved, DirFind, Removed, Match, Adjacent, RemovalBytes, Removable;
    var bs := dev.blockSize;
    var i := 0;
    while i < |blocks|
      invariant 0 <= i <= |blocks| && txn.blocks == old(txn.blocks)
      invariant forall j :: 0 <= j < i ==> Match(chains[j], name).None?
    {
      assert BlockHolds(txn.blocks, dev.disk, bs, blocks[i], chains[i]);
      var data := ReadPinned(dev, txn, blocks[i]);
      var buf := new byte[bs](k requires 0 <= k < bs => data[k]);
      assert buf[..] == data;
      var inode := RemoveEntry(buf, name, chains[i]);
      if inode.Some? {
        ghost var m := Match(chains[i], name).value;
        txn.PinBlock(blocks[i], buf[..]);
        RemovedAt(chains, i, name);
        CutPinned(old(txn.blocks), txn.blocks, dev.disk, bs, blocks, chains, i, name, buf[..]);
        if Removable(chains, name) {
          CleanAt(chains, i, name);
          BlockPinned(old(txn.blocks), txn.blocks, dev.disk, bs, blocks, chains, i, buf[..], Removed(chains[i], m));
        }
        return inode;
      }
      i := i + 1;
    }
    FoundNowhere(chains, name);
    return None;
  }

  // ---- lookups on the device ----

  /** The position and the entry of the first live record of that name. */
  method FindEntry(buf: Bytes, name: Bytes, ghost recs: seq<Record>) returns (r: Option<(nat, Entry)>)
    requires Tiles(buf, 0, |buf|, recs)
    ensures r == match Match(recs, name) case None => None case Some(m) => Some((Start(recs, m), recs[m].entry))
    ensures r.Some? ==> 0 < r.value.1.inode < U32
  {
    hide RecordAt, Tiles;
    var n, pos := |buf|, 0;
    ghost var i := 0;
    TilesNothing(buf, 0);
    assert recs[0..] == recs && recs[..0] == [];
    while pos + 8 <= n
      invariant i <= |recs| && pos == Start(recs, i) <= n
      invariant Tiles(buf, 0, pos, recs[..i]) && Tiles(buf, pos, n, recs[i..])
      invariant forall j :: 0 <= j < i ==> !(recs[j].Live() && recs[j].entry.name == name)
      decreases n - pos
    {
      ChainHead(buf, pos, n, recs[i..]);
      assert recs[i..][0] == recs[i];
      var rec := RecordAt(buf, pos);
      if rec.Live() && rec.entry.name == name {
        assert Match(recs, name) == Some(i);
        return Some((pos, rec.entry));
      }
      ChainStep(buf, pos, n, recs, i);
      pos := pos + rec.recLen;
      i := i + 1;
    }
    ShortTail(buf, pos, n, recs[i..]);
    return None;
  }

  /** Looks a name up in the blocks on the device. */
  method DirLookup(dev: BlockDevice, blocks: seq<nat>, name: Bytes, ghost chains: Chains) returns (r: Option<Entry>)
    requires DirHolds([], dev.disk, dev.blockSize, blocks, chains)
    ensures r == DirFind(chains, name)
    ensures r.Some? ==> 0 < r.value.inode < U32
  {
    hide Tiles, ReadAt, DirFind, Match, DirRemoved;
    var i := 0;
    while i < |blocks|
      invariant 0 <= i <= |blocks|
      invariant forall j :: 0 <= j < i ==> Match(chains[j], name).None?
    {
      assert BlockHolds([], dev.disk, dev.blockSize, blocks[i], chains[i]);
      var data := dev.Read(blocks[i]);
      var f := FindEntry(data, name, chains[i]);
      if f.Some? {
        RemovedAt(chains, i, name);
        return Some(f.value.1);
      }
      i := i + 1;
    }
    FoundNowhere(chains, name);
    return None;
  }

  const DOT: Bytes := [46]
  const DOTDOT: Bytes := [46, 46]

  /** Only the two dot entries. */
  predicate OnlyDots(es: seq<Entry>) {
    forall i :: 0 <= i < |es| ==> es[i].name == DOT || es[i].name == DOTDOT
  }

  /** Whether a directory holds nothing but its dot entries, by a walk over its blocks. */
  method DirIsEmpty(dev: BlockDevice, blocks: seq<nat>, ghost chains: Chains) returns (empty: bool)
    requires DirHolds([], dev.disk, dev.blockSize, blocks, chains)
    ensures empty <==> OnlyDots(Entries(chains))
  {
    hide Tiles, ReadAt, LiveEntries, Entries, OnlyDots;
    var i := 0;
    assert chains[0..] == chains;
    while i < |blocks|
      invariant 0 <= i <= |blocks|
      invariant OnlyDots(Entries(chains)) <==> OnlyDots(Entries(chains[i..]))
    {
      assert BlockHolds([], dev.disk, dev.blockSize, blocks[i], chains[i]);
      var data := dev.Read(blocks[i]);
      var p := ParseBlock(data, [], chains[i]);
      assert [] + LiveEntries(chains[i]) == LiveEntries(chains[i]);
      assert chains[i..] == [chains[i]] + chains[i + 1..];
      EntriesHead(chains[i], chains[i + 1..]);
      DotsConcat(LiveEntries(chains[i]), Entries(chains[i + 1..]));
      var dots := AllDots(p.value);
      if !dots { return false; }
      i := i + 1;
    }
    assert chains[i..] == [];
    NoEntries();
    return true;
  }

  method AllDots(es: seq<Entry>) returns (r: bool)
    ensures r <==> OnlyDots(es)
  {
    var k := 0;
    while k < |es|
      invariant 0 <= k <= |es| && forall j :: 0 <= j < k ==> es[j].name == DOT || es[j].name == DOTDOT
    {
      if es[k].name != DOT && es[k].name != DOTDOT { return false; }
      k := k + 1;
    }
    return true;
  }

  lemma NoEntries()
    ensures OnlyDots(Entries([]))
  {
  }

  lemma EntriesHead(recs: seq<Record>, rest: Chains)
    ensures Entries([recs] + rest) == LiveEntries(recs) + Entries(rest)
  {
    assert ([recs] + rest)[1..] == rest;
  }

  lemma DotsConcat(a: seq<Entry>, b: seq<Entry>)
    ensures OnlyDots(a + b) <==> OnlyDots(a) && OnlyDots(b)
  {
    if OnlyDots(a + b) {
      forall i | 0 <= i < |a| ensures a[i].name == DOT || a[i].name == DOTDOT { assert (a + b)[i] == a[i]; }
      forall i | 0 <= i < |b| ensures b[i].name == DOT || b[i].name == DOTDOT { assert (a + b)[|a| + i] == b[i]; }
    }
  }

  /** The directory with the entry of that name pointing to another inode. */
  function DirRepointed(chains: Chains, name: Bytes, inode: nat): (r: Chains)
    ensures |r| == |chains|
  {
    if chains == [] then []
    else
      match Match(chains[0], name)
      case Some(m) => [chains[0][m := Renumbered(chains[0][m], inode)]] + chains[1..]
      case None => [chains[0]] + DirRepointed(chains[1..], name, inode)
  }

  lemma {:induction false} RepointedAt(chains: Chains, i: nat, name: Bytes, inode: nat)
    requires i < |chains| && (forall j :: 0 <= j < i ==> Match(chains[j], name).None?) && Match(chains[i], name).Some?
    ensures var m := Match(chains[i], name).value;
            DirRepointed(chains, name, inode) == chains[i := chains[i][m := Renumbered(chains[i][m], inode)]]
    decreases i
  {
    hide Match, Renumbered;
    if i > 0 {
      assert Match(chains[0], name).None?;
      forall j | 0 <= j < i - 1 ensures Match(chains[1..][j], name).None? { assert chains[1..][j] == chains[j + 1]; }
      RepointedAt(chains[1..], i - 1, name, inode);
      assert chains == [chains[0]] + chains[1..];
    }
  }

  lemma {:induction false} RepointedNowhere(chains: Chains, name: Bytes, inode: nat)
    requires forall j :: 0 <= j < |chains| ==> Match(chains[j], name).None?
    ensures DirRepointed(chains, name, inode) == chains
  {
    hide Match;
    if chains != [] {
      forall j | 0 <= j < |chains| - 1 ensures Match(chains[1..][j], name).None? {
        assert chains[1..][j] == chains[j + 1];
      }
      RepointedNowhere(chains[1..], name, inode);
    }
  }

  /** The directory after the block with the first entry of that name has been written back from the
      device, that entry pointing to another inode. `onDev` are the blocks as they are on the device. */
  function DirRewritten(chains: Chains, onDev: Chains, name: Bytes, inode: nat): (r: Chains)
    requires |onDev| <= |chains|
    ensures |r| == |chains|
  {
    if onDev == [] then chains
    else
      match Match(onDev[0], name)
      case Some(m) => [onDev[0][m := Renumbered(onDev[0][m], inode)]] + chains[1..]
      case None => [chains[0]] + DirRewritten(chains[1..], onDev[1..], name, inode)
  }

  /** For a directory the transaction has not changed this repoints the entry and nothing else. */
  lemma {:induction false} RewrittenIsRepointed(chains: Chains, name: Bytes, inode: nat)
    ensures DirRewritten(chains, chains, name, inode) == DirRepointed(chains, name, inode)
  {
    hide Match, Renumbered;
    if chains != [] { RewrittenIsRepointed(chains[1..], name, inode); }
  }

  lemma {:induction false} RewrittenAt(chains: Chains, onDev: Chains, i: nat, name: Bytes, inode: nat)
    requires i < |onDev| <= |chains| && (forall j :: 0 <= j < i ==> Match(onDev[j], name).None?)
    requires Match(onDev[i], name).Some?
    ensures var m := Match(onDev[i], name).value;
            DirRewritten(chains, onDev, name, inode) == chains[i := onDev[i][m := Renumbered(onDev[i][m], inode)]]
    decreases i
  {
    hide Match, Renumbered;
    if i > 0 {
      assert Match(onDev[0], name).None?;
      forall j | 0 <= j < i - 1 ensures Match(onDev[1..][j], name).None? { assert onDev[1..][j] == onDev[j + 1]; }
      RewrittenAt(chains[1..], onDev[1..], i - 1, name, inode);
      assert chains == [chains[0]] + chains[1..];
    }
  }

  lemma {:induction false} RewrittenNowhere(chains: Chains, onDev: Chains, name: Bytes, inode: nat)
    requires |onDev| <= |chains| && forall j :: 0 <= j < |onDev| ==> Match(onDev[j], name).None?
    ensures DirRewritten(chains, onDev, name, inode) == chains
    decreases |onDev|
  {
    hide Match;
    if onDev != [] {
      forall j | 0 <= j < |onDev| - 1 ensures Match(onDev[1..][j], name).None? { assert onDev[1..][j] == onDev[j + 1]; }
      RewrittenNowhere(chains[1..], onDev[1..], name, inode);
    }
  }

  /** Points the `..` entry of a moved directory to its new parent. The block is read from the device, not
      through the transaction: what the transaction did to that block is lost. `all` are the blocks the
      directory has by now, `onDev` and `chains` their contents on the device and in the transaction. */
  method UpdateDotDot(dev: BlockDevice, txn: Transaction, blocks: seq<nat>, parent: nat, ghost all: seq<nat>,
                      ghost onDev: Chains, ghost chains: Chains)
    requires txn.Valid() && 1024 <= dev.blockSize < U16 && WholePins(txn.blocks, dev.blockSize) && parent < U32
    requires DirHolds([], dev.disk, dev.blockSize, blocks, onDev) && blocks <= all
    requires DirHolds(txn.blocks, dev.disk, dev.blockSize, all, chains)
    modifies txn`blocks
    ensures txn.Valid() && WholePins(txn.blocks, dev.blockSize)
    ensures DirHolds(txn.blocks, dev.disk, dev.blockSize, all, DirRewritten(chains, onDev, DOTDOT, parent))
    ensures OnlyPins(old(txn.blocks), txn.blocks, SetOf(all))
  {
    hide Tiles, ReadAt, DirRewritten, Match, Renumbered, Patch, Pinned, Start;
    NoPins(dev.disk, dev.blockSize);
    var bs := dev.blockSize;
    var i := 0;
    while i < |blocks|
      invariant 0 <= i <= |blocks| && txn.blocks == old(txn.blocks)
      invariant forall j :: 0 <= j < i ==> Match(onDev[j], DOTDOT).None?
    {
      assert BlockHolds([], dev.disk, bs, blocks[i], onDev[i]) && blocks[i] == all[i];
      var data := dev.Read(blocks[i]);
      var f := FindEntry(data, DOTDOT, onDev[i]);
      if f.Some? {
        ghost var m := Match(onDev[i], DOTDOT).value;
        RecordFits(data, onDev[i], m);
        RenumberedTiles(data, onDev[i], m, parent);
        var edited := Patch(data, f.value.0, ToLe32(parent));
        txn.PinBlock(blocks[i], edited);
        RewrittenAt(chains, onDev, i, DOTDOT, parent);
        BlockPinned(old(txn.blocks), txn.blocks, dev.disk, bs, all, chains, i, edited,
                    onDev[i][m := Renumbered(onDev[i][m], parent)]);
        return;
      }
      i := i + 1;
    }
    RewrittenNowhere(chains, onDev, DOTDOT, parent);
  }

  lemma NoPins(disk: Disk, bs: nat)
    ensures WholePins([], bs) && forall b: nat :: View([], disk, bs, b) == ReadAt(disk, bs, b)
  {
  }

  lemma RecordFits(buf: Bytes, recs: seq<Record>, m: nat)
    requires Tiles(buf, 0, |buf|, recs) && m < |recs|
    ensures Start(recs, m) + 8 <= |buf|
  {
    hide Tiles, Start;
    TilesSplit(buf, |buf|, recs, m);
    RecordLength(buf, Start(recs, m), |buf|, recs[m..]);
  }

  // ---- directories as maps ----

  /** What an entry says about its name. */
  datatype Target = Target(inode: nat, fileType: byte)

  /** The map from names to inodes that lookups read; the first entry of a name counts. */
  function Names(es: seq<Entry>): map<Bytes, Target> {
    if es == [] then map[] else Names(es[1..])[es[0].name := Target(es[0].inode, es[0].fileType)]
  }

  /** No name occurs twice. */
  predicate Unique(es: seq<Entry>) {
    es == [] || (es[0].name !in Names(es[1..]) && Unique(es[1..]))
  }

  lemma {:induction false} NamesConcat(a: seq<Entry>, b: seq<Entry>)
    ensures forall n: Bytes :: n in Names(a + b) <==> n in Names(a) || n in Names(b)
    ensures forall n: Bytes :: n in Names(a + b) ==>
            Names(a + b)[n] == if n in Names(a) then Names(a)[n] else Names(b)[n]
    ensures Unique(a + b) <==> Unique(a) && Unique(b) && Names(a).Keys !! Names(b).Keys
  {
    if a == [] {
      assert a + b == b;
    } else {
      assert (a + b)[1..] == a[1..] + b;
      NamesConcat(a[1..], b);
    }
  }

  lemma OneName(e: Entry)
    ensures Names([e]) == map[e.name := Target(e.inode, e.fileType)] && Unique([e])
  {
    assert [e][1..] == [];
  }

  /** Putting in an entry of a new name, anywhere, adds that name. */
  lemma PutInNames(es: seq<Entry>, i: nat, e: Entry)
    requires i <= |es| && Unique(es) && e.name !in Names(es)
    ensures Names(PutIn(es, i, e)) == Names(es)[e.name := Target(e.inode, e.fileType)] && Unique(PutIn(es, i, e))
  {
    hide Names, Unique;
    assert es == es[..i] + es[i..] && PutIn(es, i, e) == es[..i] + ([e] + es[i..]);
    NamesConcat(es[..i], es[i..]);
    NamesConcat([e], es[i..]);
    NamesConcat(es[..i], [e] + es[i..]);
    OneName(e);
  }

  /** Taking out an entry removes its name. */
  lemma TakeOutNames(es: seq<Entry>, i: nat)
    requires i < |es| && Unique(es)
    ensures es[i].name in Names(es) && Names(es)[es[i].name] == Target(es[i].inode, es[i].fileType)
    ensures Names(TakeOut(es, i)) == Names(es) - {es[i].name} && Unique(TakeOut(es, i))
  {
    hide Names, Unique;
    assert es == es[..i] + ([es[i]] + es[i + 1..]) && TakeOut(es, i) == es[..i] + es[i + 1..];
    NamesConcat(es[..i], [es[i]] + es[i + 1..]);
    NamesConcat([es[i]], es[i + 1..]);
    NamesConcat(es[..i], es[i + 1..]);
    OneName(es[i]);
  }

  lemma PutInBefore(a: seq<Entry>, b: seq<Entry>, i: nat, e: Entry)
    requires i <= |a|
    ensures PutIn(a, i, e) + b == PutIn(a + b, i, e)
  {
  }

  lemma TakeOutParts(a: seq<Entry>, b: seq<Entry>, i: nat)
    ensures i < |a| ==> TakeOut(a, i) + b == TakeOut(a + b, i) && (a + b)[i] == a[i]
    ensures i < |b| ==> a + TakeOut(b, i) == TakeOut(a + b, |a| + i) && (a + b)[|a| + i] == b[i]
  {
  }

  /** Insertion into a directory adds one entry somewhere. */
  lemma {:induction false} DirInsertEntry(chains: Chains, e: Entry, bs: nat) returns (k: nat)
    requires 0 < e.inode < U32
    ensures k <= |Entries(chains)| && Entries(DirInserted(chains, e, bs)) == PutIn(Entries(chains), k, WrittenEntry(e))
  {
    hide MinRecLen, Inserted, LiveEntries, PutIn;
    if chains == [] {
      NewBlockEntries(WrittenEntry(e), bs);
      k := 0;
    } else {
      var need, first, rest := MinRecLen(|e.name|), chains[0], chains[1..];
      assert chains == [first] + rest;
      if Inserted(first, WrittenEntry(e), need).Some? {
        InsertAddsOne(first, WrittenEntry(e), need);
        k := InsertPoint(first, need);
        EntriesHead(Inserted(first, WrittenEntry(e), need).value, rest);
        PutInBefore(LiveEntries(first), Entries(rest), k, WrittenEntry(e));
      } else {
        k := DirInsertEntry(rest, e, bs);
        SkipsFull(first, rest, e, bs);
        EntriesHead(first, DirInserted(rest, e, bs));
        PutInAfter(LiveEntries(first), Entries(rest), k, WrittenEntry(e));
        k := |LiveEntries(first)| + k;
      }
    }
  }

  lemma NewBlockEntries(e: Entry, bs: nat)
    requires e.inode != 0
    ensures Entries([[Record(e, bs)]]) == PutIn([], 0, e)
  {
    EntriesHead([Record(e, bs)], []);
    LiveHead(Record(e, bs), []);
  }

  /** Removal takes out the entry that lookup finds. */
  lemma {:induction false} DirRemoveEntry(chains: Chains, name: Bytes) returns (k: nat)
    requires DirFind(chains, name).Some? && Removable(chains, name)
    ensures k < |Entries(chains)| && Entries(chains)[k] == DirFind(chains, name).value
    ensures Entries(chains)[k].name == name
    ensures Entries(DirRemoved(chains, name)) == TakeOut(Entries(chains), k)
  {
    hide LiveEntries, Match, Removed, TakeOut, Adjacent;
    var first, rest := chains[0], chains[1..];
    assert chains == [first] + rest;
    if Match(first, name).Some? {
      var m := Match(first, name).value;
      RemovedEntries(first, m);
      EntryAtLive(first, m);
      k := LiveBefore(first, m);
      EntriesHead(Removed(first, m), rest);
      TakeOutParts(LiveEntries(first), Entries(rest), k);
    } else {
      k := DirRemoveEntry(rest, name);
      EntriesHead(first, DirRemoved(rest, name));
      TakeOutParts(LiveEntries(first), Entries(rest), k);
      k := |LiveEntries(first)| + k;
    }
  }

  lemma EntryAtLive(recs: seq<Record>, m: nat)
    requires m < |recs| && recs[m].Live()
    ensures LiveBefore(recs, m) < |LiveEntries(recs)| && LiveEntries(recs)[LiveBefore(recs, m)] == recs[m].entry
  {
    hide LiveEntries;
    LiveAround(recs, m);
  }

  /** Lookup in a directory reads its map. */
  lemma {:induction false} FindIsName(chains: Chains, name: Bytes)
    ensures DirFind(chains, name).Some? <==> name in Names(Entries(chains))
    ensures DirFind(chains, name).Some? ==>
              var e := DirFind(chains, name).value; Names(Entries(chains))[name] == Target(e.inode, e.fileType)
  {
    hide LiveEntries, Match, Names;
    if chains != [] {
      MatchIsName(chains[0], name);
      FindIsName(chains[1..], name);
      NamesConcat(LiveEntries(chains[0]), Entries(chains[1..]));
    } else {
      NoNames();
    }
  }

  lemma NoNames()
    ensures Names([]) == map[]
  {
  }

  lemma {:induction false} MatchIsName(recs: seq<Record>, name: Bytes)
    ensures Match(recs, name).Some? <==> name in Names(LiveEntries(recs))
    ensures Match(recs, name).Some? ==>
              var e := recs[Match(recs, name).value].entry;
              Names(LiveEntries(recs))[name] == Target(e.inode, e.fileType)
  {
    hide Names, LiveEntries;
    if recs != [] {
      MatchIsName(recs[1..], name);
      assert recs == [recs[0]] + recs[1..];
      LiveHead(recs[0], recs[1..]);
      NamesConcat(LiveEntry(recs[0]), LiveEntries(recs[1..]));
      HeadName(recs[0]);
    } else {
      NoRecords();
    }
  }

  lemma HeadName(r: Record)
    ensures Names(LiveEntry(r))
            == if r.Live() then map[r.entry.name := Target(r.entry.inode, r.entry.fileType)] else map[]
  {
  }

  lemma NoRecords()
    ensures Names(LiveEntries([])) == map[]
  {
  }

  // ---- tidiness ----

  /** Only the first record of a block may be deleted. */
  predicate Tidy(recs: seq<Record>) {
    forall j :: 0 < j < |recs| ==> recs[j].Live()
  }

  lemma TidyAdjacent(recs: seq<Record>, m: nat)
    requires Tidy(recs) && m < |recs| && recs[m].Live()
    ensures Adjacent(recs, m)
  {
  }

  predicate AllTidy(chains: Chains) {
    forall i :: 0 <= i < |chains| ==> Tidy(chains[i])
  }

  predicate NoneDeleted(chains: Chains) {
    forall i :: 0 <= i < |chains| ==> AllLive(chains[i])
  }

  lemma {:induction false} InsertedTidy(recs: seq<Record>, e: Entry, needed: nat)
    requires Tidy(recs) && e.inode != 0 && Inserted(recs, e, needed).Some?
    ensures Tidy(Inserted(recs, e, needed).value)
    ensures AllLive(recs) ==> AllLive(Inserted(recs, e, needed).value)
  {
    hide MinRecLen;
    if Takes(recs, 0, needed) {
      InsertedHere(recs, 0, e, needed);
      assert recs[0..] == recs;
    } else {
      InsertedTidy(recs[1..], e, needed);
      if recs[1..] != [] { InsertedFirst(recs[1..], e, needed); }
    }
  }

  lemma InsertedFirst(recs: seq<Record>, e: Entry, needed: nat)
    requires AllLive(recs) && e.inode != 0 && Inserted(recs, e, needed).Some?
    ensures AllLive(Inserted(recs, e, needed).value)
  {
    InsertAppends(recs, e, needed);
  }

  lemma {:induction false} DirInsertedTidy(chains: Chains, e: Entry, bs: nat)
    requires AllTidy(chains) && 0 < e.inode < U32
    ensures AllTidy(DirInserted(chains, e, bs))
  {
    hide MinRecLen, Inserted, Tidy;
    if chains == [] {
      OneTidy(WrittenEntry(e), bs);
    } else {
      forall i | 0 <= i < |chains[1..]| ensures Tidy(chains[1..][i]) { assert chains[1..][i] == chains[i + 1]; }
      if Inserted(chains[0], WrittenEntry(e), MinRecLen(|e.name|)).Some? {
        InsertedTidy(chains[0], WrittenEntry(e), MinRecLen(|e.name|));
      } else {
        DirInsertedTidy(chains[1..], e, bs);
      }
    }
  }

  lemma OneTidy(e: Entry, bs: nat)
    ensures Tidy([Record(e, bs)])
  {
  }

  lemma {:induction false} DirRemovedTidy(chains: Chains, name: Bytes)
    requires NoneDeleted(chains)
    ensures AllTidy(DirRemoved(chains, name)) && AllTidy(chains)
  {
    hide Match, Removed, Tidy;
    forall i | 0 <= i < |chains| ensures Tidy(chains[i]) { LiveTidy(chains[i]); }
    if chains != [] {
      forall i | 0 <= i < |chains[1..]| ensures AllLive(chains[1..][i]) { assert chains[1..][i] == chains[i + 1]; }
      DirRemovedTidy(chains[1..], name);
      if Match(chains[0], name).Some? { RemovedTidy(chains[0], Match(chains[0], name).value); }
    }
  }

  lemma LiveTidy(recs: seq<Record>)
    requires AllLive(recs)
    ensures Tidy(recs)
  {
  }

  lemma RemovedTidy(recs: seq<Record>, m: nat)
    requires AllLive(recs) && m < |recs|
    ensures Tidy(Removed(recs, m))
  {
  }

  // ---- rename ----

  /** All directories: each one's chains, by inode number. */
  type Tree = map<nat, Chains>

  /** The directories as the transaction sees them; no block belongs to two of them. */
  ghost predicate TreeHolds(pins: Pins, disk: Disk, bs: nat, dirs: map<nat, seq<nat>>, tree: Tree)
    requires WholePins(pins, bs)
  {
    && dirs.Keys == tree.Keys
    && (forall d :: d in dirs ==> DirHolds(pins, disk, bs, dirs[d], tree[d]))
    && forall d, d', b :: d in dirs && d' in dirs && d != d' && b in dirs[d] ==> b !in dirs[d']
  }

  /** The entry a rename adds. */
  function Moved(tree: Tree, srcDir: nat, srcName: Bytes, dstName: Bytes): Entry
    requires srcDir in tree && DirFind(tree[srcDir], srcName).Some?
  {
    DirFind(tree[srcDir], srcName).value.(name := dstName)
  }

  /** The directories once the destination entry has been taken out, if there was one, and the new entry
      put in. */
  function Placed(tree: Tree, srcDir: nat, srcName: Bytes, dstDir: nat, dstName: Bytes, bs: nat): (r: Tree)
    requires srcDir in tree && dstDir in tree && DirFind(tree[srcDir], srcName).Some?
    ensures r.Keys == tree.Keys && forall d :: d in tree ==> |r[d]| >= |tree[d]|
  {
    var t1 := tree[dstDir := DirRemoved(tree[dstDir], dstName)];
    t1[dstDir := DirInserted(t1[dstDir], Moved(tree, srcDir, srcName, dstName), bs)]
  }

  /** The directories after a rename: then the source entry has been taken out, and the `..` of a directory
      that changed parents rewritten from what was on the device. */
  function Renamed(tree: Tree, srcDir: nat, srcName: Bytes, dstDir: nat, dstName: Bytes, bs: nat): (r: Tree)
    requires srcDir in tree && dstDir in tree && DirFind(tree[srcDir], srcName).Some?
    ensures r.Keys == tree.Keys
  {
    var moved, t2 := Moved(tree, srcDir, srcName, dstName).inode, Placed(tree, srcDir, srcName, dstDir, dstName, bs);
    var t3 := t2[srcDir := DirRemoved(t2[srcDir], srcName)];
    if moved in tree && srcDir != dstDir then t3[moved := DirRewritten(t3[moved], tree[moved], DOTDOT, dstDir)] else t3
  }

  /** Both removals of a rename take out what they should. */
  predicate CleanRemovals(tree: Tree, srcDir: nat, srcName: Bytes, dstDir: nat, dstName: Bytes, bs: nat)
    requires srcDir in tree && dstDir in tree && DirFind(tree[srcDir], srcName).Some?
  {
    Removable(tree[dstDir], dstName) && Removable(Placed(tree, srcDir, srcName, dstDir, dstName, bs)[srcDir], srcName)
  }

  /** They do in directories without deleted records. */
  lemma NoneDeletedRemovals(tree: Tree, srcDir: nat, srcName: Bytes, dstDir: nat, dstName: Bytes, bs: nat)
    requires srcDir in tree && dstDir in tree && DirFind(tree[srcDir], srcName).Some?
    requires NoneDeleted(tree[srcDir]) && NoneDeleted(tree[dstDir])
    requires 0 < DirFind(tree[srcDir], srcName).value.inode < U32
    ensures CleanRemovals(tree, srcDir, srcName, dstDir, dstName, bs)
  {
    hide DirRemoved, DirInserted, DirFind, Tidy, AllLive;
    DirRemovedTidy(tree[dstDir], dstName);
    DirRemovedTidy(tree[srcDir], srcName);
    DirInsertedTidy(DirRemoved(tree[dstDir], dstName), Moved(tree, srcDir, srcName, dstName), bs);
    TidyRemovable(tree[dstDir], dstName);
    TidyRemovable(Placed(tree, srcDir, srcName, dstDir, dstName, bs)[srcDir], srcName);
  }

  lemma TidyRemovable(chains: Chains, name: Bytes)
    requires forall i :: 0 <= i < |chains| ==> Tidy(chains[i])
    ensures Removable(chains, name)
  {
    hide Match, Adjacent, Tidy;
    forall i | 0 <= i < |chains| && Match(chains[i], name).Some?
      ensures Adjacent(chains[i], Match(chains[i], name).value)
    {
      TidyAdjacent(chains[i], Match(chains[i], name).value);
    }
  }

  /** None of the blocks of a directory is pinned. */
  ghost predicate Clean(pins: Pins, blocks: seq<nat>) {
    forall i :: 0 <= i < |blocks| ==> Pinned(pins, blocks[i]).None?
  }

  /** Editing the blocks of one directory leaves the others as they are. */
  lemma OneDirEdited(pins: Pins, pins': Pins, disk: Disk, bs: nat, dirs: map<nat, seq<nat>>, tree: Tree, d: nat,
                     blocks: seq<nat>, chains: Chains, s: set<nat>)
    requires WholePins(pins, bs) && WholePins(pins', bs) && TreeHolds(pins, disk, bs, dirs, tree) && d in dirs
    requires DirHolds(pins', disk, bs, blocks, chains) && OnlyPins(pins, pins', s) && forall b :: b in blocks ==> b in s
    requires forall d', b :: d' in dirs && d' != d && b in dirs[d'] ==> b !in s
    ensures TreeHolds(pins', disk, bs, dirs[d := blocks], tree[d := chains])
  {
    hide Tiles, Pinned;
    forall d' | d' in dirs && d' != d ensures DirHolds(pins', disk, bs, dirs[d'], tree[d']) {
      assert DirHolds(pins, disk, bs, dirs[d'], tree[d']);
      forall i | 0 <= i < |dirs[d']| ensures Pinned(pins', dirs[d'][i]) == Pinned(pins, dirs[d'][i]) {
        assert dirs[d'][i] in dirs[d'];
      }
      forall i | 0 <= i < |dirs[d']| ensures BlockHolds(pins', disk, bs, dirs[d'][i], tree[d'][i]) {
        assert BlockHolds(pins, disk, bs, dirs[d'][i], tree[d'][i]);
      }
    }
  }

  /** No block of a directory is pinned: it looks the same on the device. */
  lemma Unpinned(pins: Pins, disk: Disk, bs: nat, blocks: seq<nat>, chains: Chains)
    requires WholePins(pins, bs) && DirHolds(pins, disk, bs, blocks, chains)
    requires forall i :: 0 <= i < |blocks| ==> Pinned(pins, blocks[i]).None?
    ensures DirHolds([], disk, bs, blocks, chains)
  {
    hide Tiles;
    forall i | 0 <= i < |blocks| ensures BlockHolds([], disk, bs, blocks[i], chains[i]) {
      assert BlockHolds(pins, disk, bs, blocks[i], chains[i]);
    }
  }

  /** What all steps of a rename rely on and keep. */
  ghost predicate Ready(dev: BlockDevice, txn: Transaction, dirs: map<nat, seq<nat>>, tree: Tree)
    reads dev, txn
  {
    && txn.Valid() && 1024 <= dev.blockSize < U16 && WholePins(txn.blocks, dev.blockSize)
    && TreeHolds(txn.blocks, dev.disk, dev.blockSize, dirs, tree)
  }

  /** The blocks of some directories. */
  ghost function Held(dirs: map<nat, seq<nat>>, ds: set<nat>): set<nat> {
    set d, b | d in ds && d in dirs && b in dirs[d] :: b
  }

  lemma HeldByOne(dirs: map<nat, seq<nat>>, d: nat)
    requires d in dirs
    ensures Held(dirs, {d}) == SetOf(dirs[d])
  {
    assert forall b :: b in dirs[d] ==> d in {d} && b in Held(dirs, {d});
  }

  lemma OnlyPinsTogether(p0: Pins, p1: Pins, p2: Pins, s1: set<nat>, s2: set<nat>, s: set<nat>)
    requires OnlyPins(p0, p1, s1) && OnlyPins(p1, p2, s2) && s1 <= s && s2 <= s
    ensures OnlyPins(p0, p2, s)
  {
    hide Pinned;
  }

  lemma NothingPinned(pins: Pins, s: set<nat>)
    ensures OnlyPins(pins, pins, s)
  {
  }

  method RemoveStep(dev: BlockDevice, txn: Transaction, dirs: map<nat, seq<nat>>, d: nat, name: Bytes, ghost tree: Tree)
    requires Ready(dev, txn, dirs, tree) && d in dirs && Removable(tree[d], name)
    modifies txn`blocks
    ensures Ready(dev, txn, dirs, tree[d := DirRemoved(tree[d], name)])
    ensures OnlyPins(old(txn.blocks), txn.blocks, Held(dirs, {d}))
  {
    hide DirHolds, Pinned, DirRemoved, Removable, OnlyPins, DirFind;
    HeldByOne(dirs, d);
    ghost var pins, chains := txn.blocks, DirRemoved(tree[d], name);
    var r := DirRemove(dev, txn, dirs[d], name, tree[d]);
    OneDirEdited(pins, txn.blocks, dev.disk, dev.blockSize, dirs, tree, d, dirs[d], chains, SetOf(dirs[d]));
    assert dirs[d := dirs[d]] == dirs;
  }

  method InsertStep(dev: BlockDevice, txn: Transaction, dirs: map<nat, seq<nat>>, d: nat, e: Entry, newBlock: nat,
                    ghost tree: Tree) returns (dirs': map<nat, seq<nat>>)
    requires Ready(dev, txn, dirs, tree) && d in dirs && 8 + |e.name| <= dev.blockSize
    requires forall d' :: d' in dirs ==> newBlock !in dirs[d']
    modifies txn`blocks
    ensures Ready(dev, txn, dirs', tree[d := DirInserted(tree[d], e, dev.blockSize)])
    ensures dirs' == dirs || dirs' == dirs[d := dirs[d] + [newBlock]]
    ensures OnlyPins(old(txn.blocks), txn.blocks, Held(dirs', {d}))
  {
    hide DirHolds, Pinned, DirInserted, OnlyPins;
    ghost var pins := txn.blocks;
    var blocks := DirInsert(dev, txn, dirs[d], e, newBlock, tree[d]);
    OneDirEdited(pins, txn.blocks, dev.disk, dev.blockSize, dirs, tree, d, blocks,
                 DirInserted(tree[d], e, dev.blockSize), SetOf(blocks));
    dirs' := dirs[d := blocks];
    HeldByOne(dirs', d);
    assert dirs[d := dirs[d]] == dirs;
  }

  method DotDotStep(dev: BlockDevice, txn: Transaction, dirs: map<nat, seq<nat>>, d: nat, blocks: seq<nat>, parent: nat,
                    ghost tree: Tree, ghost onDev: Chains)
    requires Ready(dev, txn, dirs, tree) && d in dirs && parent < U32
    requires DirHolds([], dev.disk, dev.blockSize, blocks, onDev) && blocks <= dirs[d] && |onDev| <= |tree[d]|
    modifies txn`blocks
    ensures Ready(dev, txn, dirs, tree[d := DirRewritten(tree[d], onDev, DOTDOT, parent)])
    ensures OnlyPins(old(txn.blocks), txn.blocks, Held(dirs, {d}))
  {
    hide DirHolds, Pinned, DirRewritten, OnlyPins;
    HeldByOne(dirs, d);
    ghost var pins, chains := txn.blocks, DirRewritten(tree[d], onDev, DOTDOT, parent);
    UpdateDotDot(dev, txn, blocks, parent, dirs[d], onDev, tree[d]);
    OneDirEdited(pins, txn.blocks, dev.disk, dev.blockSize, dirs, tree, d, dirs[d], chains, SetOf(dirs[d]));
    assert dirs[d := dirs[d]] == dirs;
  }

  datatype RenameError = NotFound | NotEmpty

  /** Whether the destination is a directory that still holds something. */
  ghost predicate Occupied(tree: Tree, dstDir: nat, dstName: Bytes)
    requires dstDir in tree
  {
    match DirFind(tree[dstDir], dstName)
    case None => false
    case Some(e) => e.inode in tree && !OnlyDots(Entries(tree[e.inode]))
  }

  /** Renames within one transaction that has not touched the directories yet. Lookups read the device,
      edits go through the transaction. */
  method Rename(dev: BlockDevice, txn: Transaction, dirs: map<nat, seq<nat>>, srcDir: nat, srcName: Bytes, dstDir: nat,
                dstName: Bytes, newBlock: nat, ghost tree: Tree) returns (r: Result<map<nat, seq<nat>>, RenameError>)
    requires Ready(dev, txn, dirs, tree) && srcDir in dirs && dstDir in dirs && dstDir < U32
    requires 8 + |dstName| <= dev.blockSize
    requires (forall d :: d in dirs ==> newBlock !in dirs[d]) && forall d :: d in dirs ==> Clean(txn.blocks, dirs[d])
    requires DirFind(tree[srcDir], srcName).Some? ==>
            CleanRemovals(tree, srcDir, srcName, dstDir, dstName, dev.blockSize)
    modifies txn`blocks
    ensures r == Err(NotFound) <==> DirFind(tree[srcDir], srcName).None?
    ensures r == Err(NotEmpty) <==> DirFind(tree[srcDir], srcName).Some? && Occupied(tree, dstDir, dstName)
    ensures r.Err? ==> txn.blocks == old(txn.blocks)
    ensures r.Ok? ==> Ready(dev, txn, r.value, Renamed(tree, srcDir, srcName, dstDir, dstName, dev.blockSize))
    ensures r.Ok? ==> r.value == dirs || r.value == dirs[dstDir := dirs[dstDir] + [newBlock]]
    ensures r.Ok? ==> OnlyPins(old(txn.blocks), txn.blocks,
                               Held(r.value, {srcDir, dstDir, DirFind(tree[srcDir], srcName).value.inode}))
  {
    hide DirHolds, Pinned, DirRemoved, DirInserted, DirFind, OnlyPins, Entries, OnlyDots, Clean, CleanRemovals, Renamed;
    LookupsClean(dev, txn, dirs, tree, srcDir);
    LookupsClean(dev, txn, dirs, tree, dstDir);
    var src := DirLookup(dev, dirs[srcDir], srcName, tree[srcDir]);
    if src.None? { return Err(NotFound); }
    var dst := DirLookup(dev, dirs[dstDir], dstName, tree[dstDir]);
    if dst.Some? && dst.value.inode in dirs {
      LookupsClean(dev, txn, dirs, tree, dst.value.inode);
      var empty := DirIsEmpty(dev, dirs[dst.value.inode], tree[dst.value.inode]);
      if !empty { return Err(NotEmpty); }
    }
    var moved := RenameSteps(dev, txn, dirs, srcDir, srcName, dstDir, dstName, src.value, dst.Some?, newBlock, tree);
    r := Ok(moved);
  }

  lemma LookupsClean(dev: BlockDevice, txn: Transaction, dirs: map<nat, seq<nat>>, tree: Tree, d: nat)
    requires Ready(dev, txn, dirs, tree) && d in dirs && Clean(txn.blocks, dirs[d])
    ensures DirHolds([], dev.disk, dev.blockSize, dirs[d], tree[d])
  {
    hide DirHolds, Pinned;
    Unpinned(txn.blocks, dev.disk, dev.blockSize, dirs[d], tree[d]);
  }

  /** The edits of a rename whose lookups have succeeded. */
  method RenameSteps(dev: BlockDevice, txn: Transaction, dirs: map<nat, seq<nat>>, srcDir: nat, srcName: Bytes,
                     dstDir: nat,
                     dstName: Bytes, src: Entry, taken: bool, newBlock: nat, ghost tree: Tree)
      returns (dirs': map<nat, seq<nat>>)
    requires Ready(dev, txn, dirs, tree) && srcDir in dirs && dstDir in dirs && dstDir < U32
    requires 8 + |dstName| <= dev.blockSize
    requires (forall d :: d in dirs ==> newBlock !in dirs[d]) && forall d :: d in dirs ==> Clean(txn.blocks, dirs[d])
    requires DirFind(tree[srcDir], srcName) == Some(src) && (taken <==> DirFind(tree[dstDir], dstName).Some?)
    requires CleanRemovals(tree, srcDir, srcName, dstDir, dstName, dev.blockSize)
    modifies txn`blocks
    ensures Ready(dev, txn, dirs', Renamed(tree, srcDir, srcName, dstDir, dstName, dev.blockSize))
    ensures dirs' == dirs || dirs' == dirs[dstDir := dirs[dstDir] + [newBlock]]
    ensures OnlyPins(old(txn.blocks), txn.blocks, Held(dirs', {srcDir, dstDir, src.inode}))
  {
    hide DirHolds, Pinned, DirRemoved, DirInserted, DirRewritten, DirFind, OnlyPins, Removable, Clean, BlockHolds, Held;
    ghost var p0 := txn.blocks;
    NothingPinned(p0, Held(dirs, {dstDir}));
    ghost var t1 := tree[dstDir := DirRemoved(tree[dstDir], dstName)];
    if src.inode in dirs { LookupsClean(dev, txn, dirs, tree, src.inode); }
    if taken {
      RemoveStep(dev, txn, dirs, dstDir, dstName, tree);
    } else {
      NothingToRemove(tree[dstDir], dstName);
      assert t1 == tree;
    }
    ghost var p1 := txn.blocks;
    dirs' := InsertStep(dev, txn, dirs, dstDir, src.(name := dstName), newBlock, t1);
    ghost var p2, s := txn.blocks, Held(dirs', {srcDir, dstDir, src.inode});
    HeldParts(dirs, dirs', dstDir, newBlock, srcDir, src.inode);
    OnlyPinsTogether(p0, p1, p2, Held(dirs, {dstDir}), Held(dirs', {dstDir}), s);
    ghost var t2 := Placed(tree, srcDir, srcName, dstDir, dstName, dev.blockSize);
    RemoveStep(dev, txn, dirs', srcDir, srcName, t2);
    ghost var p3 := txn.blocks;
    OnlyPinsTogether(p0, p2, p3, s, Held(dirs', {srcDir}), s);
    if src.inode in dirs && srcDir != dstDir {
      DotDotStep(dev, txn, dirs', src.inode, dirs[src.inode], dstDir, t2[srcDir := DirRemoved(t2[srcDir], srcName)],
                 tree[src.inode]);
      OnlyPinsTogether(p0, p3, txn.blocks, s, Held(dirs', {src.inode}), s);
    }
  }

  lemma HeldParts(dirs: map<nat, seq<nat>>, dirs': map<nat, seq<nat>>, d: nat, b: nat, d1: nat, d2: nat)
    requires d in dirs && (dirs' == dirs || dirs' == dirs[d := dirs[d] + [b]])
    ensures Held(dirs, {d}) <= Held(dirs', {d1, d, d2}) && Held(dirs', {d}) <= Held(dirs', {d1, d, d2})
    ensures Held(dirs', {d1}) <= Held(dirs', {d1, d, d2}) && Held(dirs', {d2}) <= Held(dirs', {d1, d, d2})
  {
    forall c | c in Held(dirs, {d}) ensures c in Held(dirs', {d1, d, d2}) {
      assert d in {d1, d, d2} && c in dirs'[d];
    }
  }

  lemma {:induction false} NothingToRemove(chains: Chains, name: Bytes)
    requires DirFind(chains, name).None?
    ensures DirRemoved(chains, name) == chains
  {
    hide Match, Removed;
    if chains != [] { NothingToRemove(chains[1..], name); }
  }

  // ---- rename as an update of maps ----

  /** The map of one directory. */
  function NamesOf(chains: Chains): map<Bytes, Target> { Names(Entries(chains)) }

  predicate UniqueIn(chains: Chains) { Unique(Entries(chains)) }

  lemma RemoveNames(chains: Chains, name: Bytes)
    requires UniqueIn(chains) && Removable(chains, name)
    ensures NamesOf(DirRemoved(chains, name)) == NamesOf(chains) - {name} && UniqueIn(DirRemoved(chains, name))
  {
    hide Names, Unique, Entries, DirFind, DirRemoved, Removable;
    FindIsName(chains, name);
    if DirFind(chains, name).Some? {
      var k := DirRemoveEntry(chains, name);
      TakeOutNames(Entries(chains), k);
    } else {
      NothingToRemove(chains, name);
    }
  }

  lemma InsertNames(chains: Chains, e: Entry, bs: nat)
    requires UniqueIn(chains) && Stored(e.name) !in NamesOf(chains) && 0 < e.inode < U32
    ensures NamesOf(DirInserted(chains, e, bs)) == NamesOf(chains)[Stored(e.name) := Target(e.inode, e.fileType)]
    ensures UniqueIn(DirInserted(chains, e, bs))
  {
    hide Names, Unique, Entries, DirInserted;
    var k := DirInsertEntry(chains, e, bs);
    PutInNames(Entries(chains), k, WrittenEntry(e));
  }

  /** The list with entry `k` pointing elsewhere. */
  lemma RepointedEntries(es: seq<Entry>, k: nat, inode: nat)
    requires k < |es| && Unique(es)
    ensures Names(es[k := es[k].(inode := inode)]) == Names(es)[es[k].name := Target(inode, es[k].fileType)]
    ensures Unique(es[k := es[k].(inode := inode)])
  {
    hide Names, Unique;
    var e := es[k].(inode := inode);
    assert es == es[..k] + ([es[k]] + es[k + 1..]) && es[k := e] == es[..k] + ([e] + es[k + 1..]);
    NamesConcat(es[..k], [es[k]] + es[k + 1..]);
    NamesConcat([es[k]], es[k + 1..]);
    NamesConcat(es[..k], [e] + es[k + 1..]);
    NamesConcat([e], es[k + 1..]);
    OneName(es[k]);
    OneName(e);
  }

  lemma {:induction false} DirRepointEntry(chains: Chains, name: Bytes, inode: nat) returns (k: nat)
    requires DirFind(chains, name).Some? && inode != 0
    ensures k < |Entries(chains)| && Entries(chains)[k] == DirFind(chains, name).value
    ensures Entries(chains)[k].name == name
    ensures Entries(DirRepointed(chains, name, inode)) == Entries(chains)[k := Entries(chains)[k].(inode := inode)]
  {
    hide LiveEntries, Match, Renumbered;
    var first, rest := chains[0], chains[1..];
    assert chains == [first] + rest;
    if Match(first, name).Some? {
      var m := Match(first, name).value;
      EntryAtLive(first, m);
      RenumberedEntries(first, m, inode);
      k := LiveBefore(first, m);
      EntriesHead(first[m := Renumbered(first[m], inode)], rest);
    } else {
      k := DirRepointEntry(rest, name, inode);
      EntriesHead(first, DirRepointed(rest, name, inode));
      k := |LiveEntries(first)| + k;
    }
  }

  lemma RenumberedEntries(recs: seq<Record>, m: nat, inode: nat)
    requires m < |recs| && recs[m].Live() && inode != 0 && LiveBefore(recs, m) < |LiveEntries(recs)|
    ensures LiveEntries(recs[m := Renumbered(recs[m], inode)])
            == LiveEntries(recs)[LiveBefore(recs, m) := recs[m].entry.(inode := inode)]
  {
    hide LiveEntries;
    var recs' := recs[m := Renumbered(recs[m], inode)];
    assert recs'[..m] == recs[..m] && recs'[m + 1..] == recs[m + 1..];
    LiveAround(recs, m);
    LiveAround(recs', m);
  }

  lemma RepointNames(chains: Chains, name: Bytes, inode: nat)
    requires UniqueIn(chains) && inode != 0
    ensures NamesOf(DirRepointed(chains, name, inode)) ==
            if name in NamesOf(chains) then NamesOf(chains)[name := Target(inode, NamesOf(chains)[name].fileType)]
            else NamesOf(chains)
  {
    hide Names, Unique, Entries, DirFind, DirRepointed;
    FindIsName(chains, name);
    if DirFind(chains, name).Some? {
      var k := DirRepointEntry(chains, name, inode);
      RepointedEntries(Entries(chains), k, inode);
    } else {
      NothingToRepoint(chains, name, inode);
    }
  }

  lemma {:induction false} NothingToRepoint(chains: Chains, name: Bytes, inode: nat)
    requires DirFind(chains, name).None?
    ensures DirRepointed(chains, name, inode) == chains
  {
    hide Match;
    if chains != [] { NothingToRepoint(chains[1..], name, inode); }
  }

  /** The maps of the directories a rename is about. */
  ghost predicate Renamable(tree: Tree, srcDir: nat, srcName: Bytes, dstDir: nat, dstName: Bytes, bs: nat) {
    && srcDir in tree && dstDir in tree && dstDir != 0
    && (forall d :: d in tree ==> UniqueIn(tree[d]))
    && DirFind(tree[srcDir], srcName).Some? && 0 < DirFind(tree[srcDir], srcName).value.inode < U32
    && CleanRemovals(tree, srcDir, srcName, dstDir, dstName, bs)
  }

  /** Rename is a map update: source and destination lose and gain the name, a directory that changed
      parents has its `..` repointed, and every other name of every directory stays. The name gained is
      the part of the new name that its length byte covers. */
  lemma RenameIsMapUpdate(tree: Tree, srcDir: nat, srcName: Bytes, dstDir: nat, dstName: Bytes, bs: nat, d: nat)
    requires Renamable(tree, srcDir, srcName, dstDir, dstName, bs) && d in tree
    requires srcDir != dstDir || srcName != Stored(dstName)
    requires srcDir != dstDir ==> DirFind(tree[srcDir], srcName).value.inode !in {srcDir, dstDir}
    requires |dstName| < 256 || (Stored(dstName) !in NamesOf(tree[dstDir]) && dstName !in NamesOf(tree[dstDir]))
    ensures var e, stored := DirFind(tree[srcDir], srcName).value, Stored(dstName);
            var was, now := NamesOf(tree[d]), NamesOf(Renamed(tree, srcDir, srcName, dstDir, dstName, bs)[d]);
            now ==
            if d == dstDir && d == srcDir then (was - {srcName})[stored := Target(e.inode, e.fileType)]
            else if d == dstDir then was[stored := Target(e.inode, e.fileType)]
            else if d == srcDir then was - {srcName}
            else if d == e.inode && srcDir != dstDir && DOTDOT in was then
              was[DOTDOT := Target(dstDir, was[DOTDOT].fileType)]
            else was
  {
    hide NamesOf, UniqueIn, DirRemoved, DirInserted, DirRepointed, DirRewritten, DirFind, Removable;
    var e := Moved(tree, srcDir, srcName, dstName);
    var c1 := DirRemoved(tree[dstDir], dstName);
    RemoveNames(tree[dstDir], dstName);
    InsertNames(c1, e, bs);
    var c2 := DirInserted(c1, e, bs);
    RemoveNames(if srcDir == dstDir then c2 else tree[srcDir], srcName);
    if d == e.inode && srcDir != dstDir {
      RepointNames(tree[d], DOTDOT, dstDir);
      RewrittenIsRepointed(tree[d], DOTDOT, dstDir);
    }
  }

  /** Renaming an entry onto itself loses it: the new entry is the one taken out at the end. */
  lemma RenameOntoItself(tree: Tree, dir: nat, name: Bytes, bs: nat)
    requires Renamable(tree, dir, name, dir, name, bs) && |name| < 256
    ensures NamesOf(Renamed(tree, dir, name, dir, name, bs)[dir]) == NamesOf(tree[dir]) - {name}
  {
    hide NamesOf, UniqueIn, DirRemoved, DirInserted, DirRewritten, DirFind, Removable;
    var e := Moved(tree, dir, name, name);
    var c1 := DirRemoved(tree[dir], name);
    RemoveNames(tree[dir], name);
    InsertNames(c1, e, bs);
    RemoveNames(DirInserted(c1, e, bs), name);
  }

  // ---- moving a directory into itself ----

  /** The first block with a live record of that name, the number of blocks if there is none. */
  function BlockOfName(chains: Chains, name: Bytes): (i: nat)
    ensures i <= |chains| && (forall j :: 0 <= j < i ==> Match(chains[j], name).None?)
    ensures i < |chains| ==> Match(chains[i], name).Some?
  {
    if chains == [] || Match(chains[0], name).Some? then 0 else 1 + BlockOfName(chains[1..], name)
  }

  /** The block an entry is inserted into, the number of blocks if it gets one of its own. */
  function BlockTaking(chains: Chains, e: Entry): (i: nat)
    ensures i <= |chains|
    ensures (forall j :: 0 <= j < i ==> Inserted(chains[j], WrittenEntry(e), MinRecLen(|e.name|)).None?)
    ensures i < |chains| ==> Inserted(chains[i], WrittenEntry(e), MinRecLen(|e.name|)).Some?
  {
    if chains == [] || Inserted(chains[0], WrittenEntry(e), MinRecLen(|e.name|)).Some? then 0
    else 1 + BlockTaking(chains[1..], e)
  }

  /** Moving a directory into itself, which the code does not refuse: the source entry goes, and the new
      one is lost as well if and only if it was put into the block with the `..` entry, because that block
      is then written back from the device. */
  lemma MoveIntoItself(tree: Tree, srcDir: nat, srcName: Bytes, dstDir: nat, dstName: Bytes, bs: nat)
    requires Renamable(tree, srcDir, srcName, dstDir, dstName, bs) && srcDir != dstDir && |dstName| < 256
    requires DirFind(tree[srcDir], srcName).value.inode == dstDir && DirFind(tree[dstDir], dstName).None?
    ensures var now := Renamed(tree, srcDir, srcName, dstDir, dstName, bs);
            var into := BlockTaking(tree[dstDir], Moved(tree, srcDir, srcName, dstName));
            && NamesOf(now[srcDir]) == NamesOf(tree[srcDir]) - {srcName}
            && (dstName !in NamesOf(now[dstDir])
                <==> into < |tree[dstDir]| && into == BlockOfName(tree[dstDir], DOTDOT))
  {
    hide NamesOf, UniqueIn, DirRemoved, DirInserted, DirRewritten, DirFind, Removable, BlockTaking, BlockOfName;
    NothingToRemove(tree[dstDir], dstName);
    RemoveNames(tree[srcDir], srcName);
    InsertThenRewrite(tree[dstDir], Moved(tree, srcDir, srcName, dstName), bs, dstDir);
  }

  lemma InsertThenRewrite(chains: Chains, e: Entry, bs: nat, parent: nat)
    requires UniqueIn(chains) && DirFind(chains, e.name).None? && 0 < e.inode < U32 && |e.name| < 256 && parent != 0
    ensures var i, into := BlockOfName(chains, DOTDOT), BlockTaking(chains, e);
            e.name !in NamesOf(DirRewritten(DirInserted(chains, e, bs), chains, DOTDOT, parent))
            <==> into < |chains| && into == i
  {
    hide NamesOf, UniqueIn, DirInserted, DirRewritten, DirFind, Match, Inserted, MinRecLen, Renumbered, DirRepointed;
    var i, into, with := BlockOfName(chains, DOTDOT), BlockTaking(chains, e), DirInserted(chains, e, bs);
    var now := DirRewritten(with, chains, DOTDOT, parent);
    FindNames(chains, e.name);
    InsertedBlock(chains, e, bs);
    if i < |chains| {
      RewrittenAt(with, chains, i, DOTDOT, parent);
    } else {
      RewrittenNowhere(with, chains, DOTDOT, parent);
    }
    if into < |chains| && into == i {
      RepointedAt(chains, i, DOTDOT, parent);
      assert now == DirRepointed(chains, DOTDOT, parent);
      RepointNames(chains, DOTDOT, parent);
      FindNames(chains, DOTDOT);
      FoundSomewhere(chains, i, DOTDOT);
    } else {
      FoundSomewhere(now, into, e.name);
      FindNames(now, e.name);
    }
  }

  lemma FindNames(chains: Chains, name: Bytes)
    ensures DirFind(chains, name).Some? <==> name in NamesOf(chains)
  {
    hide DirFind, Names, Entries;
    FindIsName(chains, name);
  }

  lemma {:induction false} FoundSomewhere(chains: Chains, i: nat, name: Bytes)
    requires i < |chains| && Match(chains[i], name).Some?
    ensures DirFind(chains, name).Some?
    decreases i
  {
    hide Match;
    if i > 0 { FoundSomewhere(chains[1..], i - 1, name); }
  }

  /** The block an entry was put into has it, and differs from the rest alone. */
  lemma InsertedBlock(chains: Chains, e: Entry, bs: nat)
    requires 0 < e.inode < U32 && |e.name| < 256
    ensures var into, with := BlockTaking(chains, e), DirInserted(chains, e, bs);
            && into < |with| && Match(with[into], e.name).Some? && |chains| <= |with|
            && (into < |chains| ==> with == chains[into := with[into]])
            && (into == |chains| ==> |with| == |chains| + 1)
  {
    hide Match, Inserted, MinRecLen, DirInserted;
    var into := BlockTaking(chains, e);
    if into < |chains| {
      InsertedHereInDir(chains, into, e, bs);
      InsertedMatches(chains[into], WrittenEntry(e), MinRecLen(|e.name|));
    } else {
      InsertedAt(chains, into, e, bs);
      InsertedNew(e, bs);
      assert chains[into..] == [] && chains[..into] == chains;
      MatchHead(Record(WrittenEntry(e), bs), [], e.name);
      assert [Record(WrittenEntry(e), bs)] + [] == [Record(WrittenEntry(e), bs)];
    }
  }

  lemma InsertedMatches(recs: seq<Record>, e: Entry, needed: nat)
    requires e.inode != 0 && Inserted(recs, e, needed).Some?
    ensures Match(Inserted(recs, e, needed).value, e.name).Some?
  {
    hide Match, Inserted, LiveEntries, Names;
    InsertAddsOne(recs, e, needed);
    var es, k := LiveEntries(recs), InsertPoint(recs, needed);
    NamesConcat(es[..k] + [e], es[k..]);
    NamesConcat(es[..k], [e]);
    OneName(e);
    MatchIsName(Inserted(recs, e, needed).value, e.name);
  }
}

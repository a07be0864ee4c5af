/** Inodes in their tables: where an inode lives, by three formulas, and read-modify-write of its 128
    bytes through the transaction, so that no update to a neighbour is lost. */
module InodeTable {
  import opened Base
  import opened Device
  import ExtentNode

  const INODE_BYTES: nat := 128

  // ---- addresses ----

  /** The geometry of the superblock, and the first table block of every group. */
  datatype Geometry = Geometry(bs: nat, inodeSize: nat, perGroup: nat, count: nat, tables: seq<nat>) {
    /** The checks made when the superblock is parsed. */
    predicate Parsed() {
      && bs in {1024, 2048, 4096, 8192, 16384, 32768, 65536}
      && inodeSize in {128, 256, 512, 1024} && perGroup > 0
    }

    /** The blocks one table takes. */
    function TableBlocks(): nat
      requires Parsed()
    {
      DivCeil(perGroup * inodeSize, bs)
    }

    /** The tables of different groups do not overlap. */
    ghost predicate TablesApart()
      requires Parsed()
    {
      forall g, h :: 0 <= g < h < |tables| ==>
        tables[g] + TableBlocks() <= tables[h] || tables[h] + TableBlocks() <= tables[g]
    }

    predicate Exists(n: nat)
      requires Parsed()
    {
      1 <= n <= count && (n - 1) / perGroup < |tables|
    }

    function Table(n: nat): nat
      requires Parsed() && Exists(n)
    {
      tables[(n - 1) / perGroup]
    }

    function Index(n: nat): (i: nat)
      requires Parsed() && Exists(n)
      ensures i < perGroup
    {
      (n - 1) % perGroup
    }
  }

  /** A block and an offset in it. */
  datatype Location = Location(block: nat, offset: nat)

  /** By slot: so many inodes to a block. */
  function SlotLocation(g: Geometry, n: nat): Location
    requires g.Parsed() && g.Exists(n)
  {
    Positive(g);
    var perBlock := g.bs / g.inodeSize;
    Location(g.Table(n) + g.Index(n) / perBlock, g.Index(n) % perBlock * g.inodeSize)
  }

  /** By the byte offset in the table, split by the block size. */
  function OffsetLocation(g: Geometry, n: nat): Location
    requires g.Parsed() && g.Exists(n)
  {
    var offset := g.Index(n) * g.inodeSize;
    Location(g.Table(n) + offset / g.bs, offset % g.bs)
  }

  /** By the byte address on the device, split into sectors. */
  function SectorLocation(g: Geometry, n: nat): Location
    requires g.Parsed() && g.Exists(n)
  {
    var address := g.Table(n) * g.bs + g.Index(n) * g.inodeSize;
    Location(address / 512, address % 512)
  }

  lemma WholeInodes(g: Geometry)
    requires g.Parsed()
    ensures g.bs / g.inodeSize >= 1 && (g.bs / g.inodeSize) * g.inodeSize == g.bs
  {
  }

  /** The parts of an inode's place in its table. */
  lemma SlotParts(g: Geometry, n: nat)
    requires g.Parsed() && g.Exists(n)
    ensures var perBlock, i := g.bs / g.inodeSize, g.Index(n);
            && i * g.inodeSize == (i / perBlock) * g.bs + (i % perBlock) * g.inodeSize
            && (i % perBlock) * g.inodeSize + g.inodeSize <= g.bs
  {
    WholeInodes(g);
    Packed(g.Index(n), g.bs / g.inodeSize, g.inodeSize);
  }

  /** The bytes of an inode lie within one block. */
  lemma FitsBlock(g: Geometry, n: nat)
    requires g.Parsed() && g.Exists(n)
    ensures SlotLocation(g, n).offset + INODE_BYTES <= SlotLocation(g, n).offset + g.inodeSize <= g.bs
  {
    hide Geometry.Table, Geometry.Index;
    SlotParts(g, n);
  }

  /** All three formulas name the same bytes of the device. */
  lemma FormulasAgree(g: Geometry, n: nat)
    requires g.Parsed() && g.Exists(n)
    ensures OffsetLocation(g, n) == SlotLocation(g, n)
    ensures SectorLocation(g, n).block * 512 + SectorLocation(g, n).offset
            == SlotLocation(g, n).block * g.bs + SlotLocation(g, n).offset
    ensures SlotLocation(g, n).offset + INODE_BYTES <= g.bs
  {
    hide Geometry.Table, Geometry.Index, Geometry.Parsed;
    FitsBlock(g, n);
    SlotParts(g, n);
    Positive(g);
    var perBlock, i := g.bs / g.inodeSize, g.Index(n);
    Quotient(i * g.inodeSize, g.bs, i / perBlock, (i % perBlock) * g.inodeSize);
    Distribute(g.Table(n), i / perBlock, g.bs);
    SectorSplit(g.Table(n) * g.bs + i * g.inodeSize);
  }

  /** Inodes are numbered group by group from 1 on: the i-th of group k is number k * perGroup + i + 1, and
      lies i inodes into the table of the group. */
  lemma InodeNumbering(g: Geometry, k: nat, i: nat)
    requires g.Parsed() && k < |g.tables| && i < g.perGroup && k * g.perGroup + i + 1 <= g.count
    ensures var n := k * g.perGroup + i + 1;
            && g.Exists(n) && g.Table(n) == g.tables[k] && g.Index(n) == i
            && SectorLocation(g, n).block * 512 + SectorLocation(g, n).offset == g.tables[k] * g.bs + i * g.inodeSize
  {
    Quotient(k * g.perGroup + i, g.perGroup, k, i);
    SectorSplit(g.tables[k] * g.bs + i * g.inodeSize);
  }

  lemma Positive(g: Geometry)
    requires g.Parsed()
    ensures g.inodeSize > 0 && g.bs > 0 && g.bs / g.inodeSize > 0
  {
  }

  lemma SectorSplit(x: nat)
    ensures x / 512 * 512 + x % 512 == x
  {
  }

  /** The table block of an inode lies within its table. */
  lemma InTable(g: Geometry, n: nat)
    requires g.Parsed() && g.Exists(n)
    ensures g.Table(n) <= SlotLocation(g, n).block < g.Table(n) + g.TableBlocks()
  {
    hide Geometry.Table, DivCeil;
    SlotParts(g, n);
    var i, q, total := g.Index(n), g.Index(n) / (g.bs / g.inodeSize), g.perGroup * g.inodeSize;
    Times(i + 1, g.perGroup, g.inodeSize);
    Distribute(i, 1, g.inodeSize);
    ChunkBelow(g.bs, q, total);
  }

  lemma ChunkBelow(bs: nat, q: nat, total: nat)
    requires bs > 0 && q * bs < total
    ensures q < DivCeil(total, bs)
  {
    CeilBound(total, bs, q);
  }

  /** Different inodes live in different bytes. */
  lemma InodesApart(g: Geometry, n: nat, m: nat)
    requires g.Parsed() && g.TablesApart() && g.Exists(n) && g.Exists(m) && n != m
    ensures var a, b := SlotLocation(g, n), SlotLocation(g, m);
            a.block != b.block || a.offset + INODE_BYTES <= b.offset || b.offset + INODE_BYTES <= a.offset
  {
    if (n - 1) / g.perGroup == (m - 1) / g.perGroup {
      hide Geometry.TablesApart;
      SameGroup(n - 1, m - 1, g.perGroup);
      SlotsApart(g.Index(n), g.Index(m), g.bs / g.inodeSize, g.inodeSize);
    } else {
      OtherTable(g, n, m);
    }
  }

  lemma OtherTable(g: Geometry, n: nat, m: nat)
    requires g.Parsed() && g.TablesApart() && g.Exists(n) && g.Exists(m) && (n - 1) / g.perGroup != (m - 1) / g.perGroup
    ensures SlotLocation(g, n).block != SlotLocation(g, m).block
  {
    hide Geometry.TableBlocks, SlotLocation;
    InTable(g, n);
    InTable(g, m);
  }

  lemma SameGroup(x: nat, y: nat, d: nat)
    requires d > 0 && x / d == y / d && x != y
    ensures x % d != y % d
  {
    assert x == x / d * d + x % d && y == y / d * d + y % d;
  }

  /** Two different slots: in different chunks, or a whole slot apart. */
  lemma SlotsApart(i: nat, j: nat, d: nat, s: nat)
    requires d > 0 && i != j
    ensures i / d != j / d || (i % d) * s + s <= (j % d) * s || (j % d) * s + s <= (i % d) * s
  {
    if i / d == j / d {
      SameGroup(i, j, d);
      var a, b := i % d, j % d;
      Distribute(a, 1, s);
      Distribute(b, 1, s);
      if a < b { Times(a + 1, b, s); } else { Times(b + 1, a, s); }
    }
  }

  // ---- the fields ----

  datatype Inode = Inode(mode: nat, uid: nat, gid: nat, size: nat, atime: nat, ctime: nat, mtime: nat, dtime: nat,
                         links: nat, flags: nat, block: Bytes)

  /** Owner and group have their high halves at 120 and 122, the size its high half at 108. */
  function ParseRaw(raw: Bytes): Inode
    requires |raw| == INODE_BYTES
  {
    Inode(Le16(raw, 0), Le16(raw, 2) + U16 * Le16(raw, 120), Le16(raw, 24) + U16 * Le16(raw, 122),
          Le32(raw, 4) + U32 * Le32(raw, 108), Le32(raw, 8), Le32(raw, 12), Le32(raw, 16), Le32(raw, 20),
          Le16(raw, 26), Le32(raw, 32), raw[40..100])
  }

  /** The fields an update may set. */
  datatype Update = Update(size: Option<nat>, mode: Option<nat>, uid: Option<nat>, gid: Option<nat>, atime: Option<nat>,
                           mtime: Option<nat>, ctime: Option<nat>, links: Option<nat>, flags: Option<nat>)

  function Put16(raw: Bytes, off: nat, v: Option<nat>): (r: Bytes)
    requires off + 2 <= |raw|
    ensures |r| == |raw|
  {
    match v case None => raw case Some(x) => Patch(raw, off, ToLe16(x))
  }

  function Put32(raw: Bytes, off: nat, v: Option<nat>): (r: Bytes)
    requires off + 4 <= |raw|
    ensures |r| == |raw|
  {
    match v case None => raw case Some(x) => Patch(raw, off, ToLe32(x))
  }

  /** The part of a value above its low `unit`. */
  function High(v: Option<nat>, unit: nat): Option<nat>
    requires unit > 0
  {
    match v case None => None case Some(x) => Some(x / unit)
  }

  /** The bytes of an inode with an update made in place, field by field. */
  function Updated(raw: Bytes, u: Update): (r: Bytes)
    requires |raw| == INODE_BYTES
    ensures |r| == INODE_BYTES
  {
    var sized := Put32(Put32(raw, 4, u.size), 108, High(u.size, U32));
    var moded := Put16(sized, 0, u.mode);
    var timed := Put32(Put32(Put32(moded, 8, u.atime), 16, u.mtime), 12, u.ctime);
    var linked := Put32(Put16(timed, 26, u.links), 32, u.flags);
    var owned := Put16(Put16(linked, 2, u.uid), 120, High(u.uid, U16));
    Put16(Put16(owned, 24, u.gid), 122, High(u.gid, U16))
  }

  function Or(v: Option<nat>, was: nat, limit: nat): nat
    requires limit > 0
  {
    match v case None => was case Some(x) => x % limit
  }

  lemma Field16(raw: Bytes, off: nat, v: Option<nat>)
    requires off + 2 <= |raw|
    ensures Le16(Put16(raw, off, v), off) == Or(v, Le16(raw, off), U16)
    ensures forall o: nat {:trigger Le16(Put16(raw, off, v), o)} :: o + 2 <= off || off + 2 <= o <= |raw| - 2 ==>
              Le16(Put16(raw, off, v), o) == Le16(raw, o)
    ensures forall o: nat {:trigger Le32(Put16(raw, off, v), o)} :: o + 4 <= off || off + 2 <= o <= |raw| - 4 ==>
              Le32(Put16(raw, off, v), o) == Le32(raw, o)
    ensures off + 2 <= 40 || 100 <= off ==> |raw| >= 100 ==> Put16(raw, off, v)[40..100] == raw[40..100]
  {
    if v.Some? {
      var r := Patch(raw, off, ToLe16(v.value));
      assert ToLe16(v.value)[0] == r[off] && ToLe16(v.value)[1] == r[off + 1];
    }
  }

  lemma Field32(raw: Bytes, off: nat, v: Option<nat>)
    requires off + 4 <= |raw|
    ensures Le32(Put32(raw, off, v), off) == Or(v, Le32(raw, off), U32)
    ensures forall o: nat {:trigger Le16(Put32(raw, off, v), o)} :: o + 2 <= off || off + 4 <= o <= |raw| - 2 ==>
              Le16(Put32(raw, off, v), o) == Le16(raw, o)
    ensures forall o: nat {:trigger Le32(Put32(raw, off, v), o)} :: o + 4 <= off || off + 4 <= o <= |raw| - 4 ==>
              Le32(Put32(raw, off, v), o) == Le32(raw, o)
    ensures off + 4 <= 40 || 100 <= off ==> |raw| >= 100 ==> Put32(raw, off, v)[40..100] == raw[40..100]
  {
    hide ToLe32;
    if v.Some? {
      var b, r := ToLe32(v.value), Patch(raw, off, ToLe32(v.value));
      assert b[0] == r[off] && b[1] == r[off + 1] && b[2] == r[off + 2] && b[3] == r[off + 3];
    }
  }

  /** An update sets exactly the fields it names, each cut to its width. */
  lemma UpdateSetsFields(raw: Bytes, u: Update)
    requires |raw| == INODE_BYTES
    ensures ParseRaw(Updated(raw, u)) == ParseRaw(raw).(
              size := Or(u.size, ParseRaw(raw).size, U32 * U32), mode := Or(u.mode, ParseRaw(raw).mode, U16),
              uid := Or(u.uid, ParseRaw(raw).uid, U32), gid := Or(u.gid, ParseRaw(raw).gid, U32),
              atime := Or(u.atime, ParseRaw(raw).atime, U32), mtime := Or(u.mtime, ParseRaw(raw).mtime, U32),
              ctime := Or(u.ctime, ParseRaw(raw).ctime, U32), links := Or(u.links, ParseRaw(raw).links, U16),
              flags := Or(u.flags, ParseRaw(raw).flags, U32))
  {
    hide Le16, Le32, Put16, Put32, Or, High;
    var r1 := Put32(raw, 4, u.size);
    var r2 := Put32(r1, 108, High(u.size, U32));
    var r3 := Put16(r2, 0, u.mode);
    var r4 := Put32(r3, 8, u.atime);
    var r5 := Put32(r4, 16, u.mtime);
    var r6 := Put32(r5, 12, u.ctime);
    var r7 := Put16(r6, 26, u.links);
    var r8 := Put32(r7, 32, u.flags);
    var r9 := Put16(r8, 2, u.uid);
    var r10 := Put16(r9, 120, High(u.uid, U16));
    var r11 := Put16(r10, 24, u.gid);
    Field32(raw, 4, u.size);
    Field32(r1, 108, High(u.size, U32));
    Field16(r2, 0, u.mode);
    Field32(r3, 8, u.atime);
    Field32(r4, 16, u.mtime);
    Field32(r5, 12, u.ctime);
    Field16(r6, 26, u.links);
    Field32(r7, 32, u.flags);
    Field16(r8, 2, u.uid);
    Field16(r9, 120, High(u.uid, U16));
    Field16(r10, 24, u.gid);
    Field16(r11, 122, High(u.gid, U16));
    BothHalves(u.size, Le32(raw, 4), Le32(raw, 108), U32);
    BothHalves(u.uid, Le16(raw, 2), Le16(raw, 120), U16);
    BothHalves(u.gid, Le16(raw, 24), Le16(raw, 122), U16);
  }

  /** A value stored in two halves. */
  lemma BothHalves(v: Option<nat>, lo: nat, hi: nat, unit: nat)
    requires unit == U16 || unit == U32
    ensures Or(v, lo, unit) + unit * Or(High(v, unit), hi, unit) == Or(v, lo + unit * hi, unit * unit)
  {
    if v.Some? { TwoDigits(v.value, unit); }
  }

  lemma TwoDigits(v: nat, unit: nat)
    requires unit == U16 || unit == U32
    ensures v % unit + unit * (v / unit % unit) == v % (unit * unit)
  {
    var h := v / unit;
    assert v == h * unit + v % unit && h == h / unit * unit + h % unit;
    Distribute(h / unit * unit, h % unit, unit);
    Associate(h / unit, unit, unit);
    Times(h % unit + 1, unit, unit);
    Distribute(h % unit, 1, unit);
    Quotient(v, unit * unit, h / unit, (h % unit) * unit + v % unit);
  }

  const EXTENTS_FL: nat := 0x8_0000

  /** The header of an empty extent tree: magic 0xF30A, no entries, room for four, depth 0. */
  const EMPTY_TREE: Bytes := [0x0A, 0xF3, 0, 0, 4, 0, 0, 0, 0, 0, 0, 0]

  /** The tree of a fresh inode is read by every extent operation as a leaf without entries. */
  lemma FreshTree()
    ensures ExtentNode.DecodeNode(EMPTY_TREE + Zeros(48)) == Ok(ExtentNode.Leaf(4, []))
  {
    var tree := EMPTY_TREE + Zeros(48);
    assert Le16(tree, 0) == 0xF30A && Le16(tree, 2) == 0 && Le16(tree, 4) == 4 && Le16(tree, 6) == 0;
    assert ExtentNode.DecodeExtents(tree, 0) == [];
  }

  /** The bytes of a freshly initialised inode. */
  function Initial(mode: nat, uid: nat, gid: nat, now: nat): (r: Bytes)
    ensures |r| == INODE_BYTES
  {
    Patch(Updated(Zeros(INODE_BYTES), Update(None, Some(mode), Some(uid), Some(gid), Some(now), Some(now), Some(now),
                                             Some(1), Some(EXTENTS_FL))), 40, EMPTY_TREE)
  }

  /** A write to the tree area of an inode leaves all other fields alone. */
  lemma TreeArea(raw: Bytes, tree: Bytes)
    requires |raw| == INODE_BYTES && |tree| <= 60
    ensures ParseRaw(Patch(raw, 40, tree)) == ParseRaw(raw).(block := Patch(raw, 40, tree)[40..100])
  {
  }

  /** A fresh inode has one link, no size, an empty extent tree, and the owner, mode and time given. */
  lemma InitialFields(mode: nat, uid: nat, gid: nat, now: nat)
    ensures var t := now % U32;
            ParseRaw(Initial(mode, uid, gid, now)) ==
            Inode(mode % U16, uid % U32, gid % U32, 0, t, t, t, 0, 1, 0x8_0000, EMPTY_TREE + Zeros(48))
  {
    hide Updated, Le16, Le32;
    var u := Update(None, Some(mode), Some(uid), Some(gid), Some(now), Some(now), Some(now), Some(1), Some(EXTENTS_FL));
    UpdateSetsFields(Zeros(INODE_BYTES), u);
    ZeroFields();
    TreeArea(Updated(Zeros(INODE_BYTES), u), EMPTY_TREE);
    assert ParseRaw(Updated(Zeros(INODE_BYTES), u)).block == Zeros(60);
    TreeBytes(Updated(Zeros(INODE_BYTES), u));
  }

  lemma ZeroFields()
    ensures ParseRaw(Zeros(INODE_BYTES)) == Inode(0, 0, 0, 0, 0, 0, 0, 0, 0, 0, Zeros(60))
  {
    assert Zeros(INODE_BYTES)[40..100] == Zeros(60);
  }

  lemma TreeBytes(raw: Bytes)
    requires |raw| == INODE_BYTES && raw[40..100] == Zeros(60)
    ensures Patch(raw, 40, EMPTY_TREE)[40..100] == EMPTY_TREE + Zeros(48)
  {
    assert forall i :: 52 <= i < 100 ==> raw[i] == raw[40..100][i - 40];
  }

  // ---- reading through the transaction ----

  /** The 128 bytes of an inode as the transaction sees them. */
  function InodeView(g: Geometry, pins: Pins, disk: Disk, n: nat): (raw: Bytes)
    requires g.Parsed() && g.Exists(n) && WholePins(pins, g.bs)
    ensures |raw| == INODE_BYTES
  {
    FormulasAgree(g, n);
    var l := SlotLocation(g, n);
    View(pins, disk, g.bs, l.block)[l.offset..l.offset + INODE_BYTES]
  }

  /** `count` bytes of the device from `address` on. */
  function DeviceBytes(disk: Disk, bs: nat, address: nat, count: nat): (r: Bytes)
    requires bs > 0
    ensures |r| == count
  {
    seq(count, i requires 0 <= i < count => ReadAt(disk, bs, (address + i) / bs)[(address + i) % bs])
  }

  lemma BytesInBlock(disk: Disk, bs: nat, block: nat, offset: nat, count: nat)
    requires bs > 0 && offset + count <= bs
    ensures DeviceBytes(disk, bs, block * bs + offset, count) == ReadAt(disk, bs, block)[offset..offset + count]
  {
    var l, r := DeviceBytes(disk, bs, block * bs + offset, count), ReadAt(disk, bs, block)[offset..offset + count];
    forall i | 0 <= i < count ensures l[i] == r[i] {
      Quotient(block * bs + offset + i, bs, block, offset + i);
    }
  }

  datatype InodeError = OutOfRange(n: nat, max: nat) | NoGroup(group: nat) | Deleted(n: nat)

  /** Reads an inode: from the pinned table block if there is one, from the sectors of the device
      otherwise. */
  method ReadInode(dev: BlockDevice, txn: Transaction, g: Geometry, n: nat) returns (r: Result<Inode, InodeError>)
    requires g.Parsed() && dev.blockSize == g.bs && WholePins(txn.blocks, g.bs)
    ensures n == 0 || n > g.count ==> r == Err(OutOfRange(n, g.count))
    ensures 1 <= n <= g.count && !g.Exists(n) ==> r == Err(NoGroup((n - 1) / g.perGroup))
    ensures g.Exists(n) ==>
              var inode := ParseRaw(InodeView(g, txn.blocks, dev.disk, n));
              r == if inode.dtime != 0 then Err(Deleted(n)) else Ok(inode)
  {
    hide SlotLocation, SectorLocation, ParseRaw, DeviceBytes, Pinned, ReadAt;
    if n == 0 || n > g.count { return Err(OutOfRange(n, g.count)); }
    var group := (n - 1) / g.perGroup;
    if group >= |g.tables| { return Err(NoGroup(group)); }
    FormulasAgree(g, n);
    var l := SlotLocation(g, n);
    var raw: Bytes;
    var pinned := Pinned(txn.blocks, l.block);
    if pinned.Some? {
      raw := pinned.value[l.offset..l.offset + INODE_BYTES];
    } else {
      var s := SectorLocation(g, n);
      BytesInBlock(dev.disk, g.bs, l.block, l.offset, INODE_BYTES);
      raw := DeviceBytes(dev.disk, g.bs, s.block * 512 + s.offset, INODE_BYTES);
    }
    var inode := ParseRaw(raw);
    r := if inode.dtime != 0 then Err(Deleted(n)) else Ok(inode);
  }

  // ---- read-modify-write ----

  /** What writers do to inodes. */
  datatype InodeOp =
    | Init(n: nat, mode: nat, uid: nat, gid: nat, now: nat)
    | Change(n: nat, update: Update)
    | Free(n: nat, now: nat)
    | FlushRoot(n: nat, root: Bytes, sectors: nat)
  {
    /** The root area of an inode has 60 bytes. */
    predicate Sound() { FlushRoot? ==> |root| == 60 }
  }

  /** What it makes of the inode's own bytes. Flushing an extent root rewrites the tree area and the
      sector count of the bytes read before through the transaction. */
  function Effect(op: InodeOp, raw: Bytes): (r: Bytes)
    requires |raw| == INODE_BYTES && op.Sound()
    ensures |r| == INODE_BYTES
  {
    match op
    case Init(_, mode, uid, gid, now) => Initial(mode, uid, gid, now)
    case Change(_, u) => Updated(raw, u)
    case Free(_, now) => Put32(raw, 20, Some(now))
    case FlushRoot(_, root, sectors) => Patch(Put32(raw, 28, Some(sectors)), 40, root)
  }

  /** A root flush sets the extent root and the sector count and no other field. */
  lemma FlushSetsRoot(raw: Bytes, op: InodeOp)
    requires |raw| == INODE_BYTES && op.Sound() && op.FlushRoot?
    ensures ParseRaw(Effect(op, raw)) == ParseRaw(raw).(block := op.root)
    ensures Le32(Effect(op, raw), 28) == op.sectors % U32
  {
    hide Le16, Le32, Put16, Put32;
    var counted := Put32(raw, 28, Some(op.sectors));
    Field32(raw, 28, Some(op.sectors));
    TreeArea(counted, op.root);
    assert Patch(counted, 40, op.root)[40..100] == op.root;
    SameWord(counted, Patch(counted, 40, op.root), 28);
  }

  /** Freeing an inode sets its deletion time and no other field. */
  lemma FreeSetsDeletion(raw: Bytes, op: InodeOp)
    requires |raw| == INODE_BYTES && op.Free?
    ensures ParseRaw(Effect(op, raw)) == ParseRaw(raw).(dtime := op.now % U32)
    ensures Le32(Effect(op, raw), 28) == Le32(raw, 28)
  {
    hide Le16, Le32, Put16, Put32;
    Field32(raw, 20, Some(op.now));
  }

  /** What an operation makes of the fields of an inode, without any bytes. */
  function FieldsAfter(op: InodeOp, was: Inode): Inode {
    match op
    case Init(_, mode, uid, gid, now) =>
      Inode(mode % U16, uid % U32, gid % U32, 0, now % U32, now % U32, now % U32, 0, 1, 0x8_0000,
            EMPTY_TREE + Zeros(48))
    case Change(_, u) =>
      was.(size := Or(u.size, was.size, U32 * U32), mode := Or(u.mode, was.mode, U16), uid := Or(u.uid, was.uid, U32),
           gid := Or(u.gid, was.gid, U32), atime := Or(u.atime, was.atime, U32), mtime := Or(u.mtime, was.mtime, U32),
           ctime := Or(u.ctime, was.ctime, U32), links := Or(u.links, was.links, U16),
           flags := Or(u.flags, was.flags, U32))
    case Free(_, now) => was.(dtime := now % U32)
    case FlushRoot(_, root, _) => was.(block := root)
  }

  /** Editing the bytes in place is editing the fields. */
  lemma EffectOnFields(raw: Bytes, op: InodeOp)
    requires |raw| == INODE_BYTES && op.Sound()
    ensures ParseRaw(Effect(op, raw)) == FieldsAfter(op, ParseRaw(raw))
  {
    hide ParseRaw, Effect, Updated, Initial, Or;
    match op {
      case Init(_, mode, uid, gid, now) => EffectCases(raw, op); InitialFields(mode, uid, gid, now);
      case Change(_, u) => EffectCases(raw, op); UpdateSetsFields(raw, u);
      case Free(_, _) => FreeSetsDeletion(raw, op);
      case FlushRoot(_, _, _) => FlushSetsRoot(raw, op);
    }
  }

  lemma EffectCases(raw: Bytes, op: InodeOp)
    requires |raw| == INODE_BYTES && op.Sound()
    ensures op.Init? ==> Effect(op, raw) == Initial(op.mode, op.uid, op.gid, op.now)
    ensures op.Change? ==> Effect(op, raw) == Updated(raw, op.update)
  {
  }

  /** The bytes an operation may change: those of the fields it sets. */
  predicate MayChange(op: InodeOp, i: nat) {
    match op
    case Init(_, _, _, _, _) => true
    case Change(_, _) => i < 20 || 24 <= i < 28 || 32 <= i < 36 || 108 <= i < 112 || 120 <= i < 124
    case Free(_, _) => 20 <= i < 24
    case FlushRoot(_, _, _) => 28 <= i < 32 || 40 <= i < 100
  }

  lemma Put16Stays(raw: Bytes, off: nat, v: Option<nat>, i: nat)
    requires off + 2 <= |raw| && i < |raw| && !(off <= i < off + 2)
    ensures Put16(raw, off, v)[i] == raw[i]
  {
  }

  lemma Put32Stays(raw: Bytes, off: nat, v: Option<nat>, i: nat)
    requires off + 4 <= |raw| && i < |raw| && !(off <= i < off + 4)
    ensures Put32(raw, off, v)[i] == raw[i]
  {
  }

  lemma UpdatedStays(raw: Bytes, u: Update, i: nat)
    requires |raw| == INODE_BYTES && i < INODE_BYTES && !MayChange(Change(0, u), i)
    ensures Updated(raw, u)[i] == raw[i]
  {
    hide Put16, Put32, High;
    var r1 := Put32(raw, 4, u.size);
    var r2 := Put32(r1, 108, High(u.size, U32));
    var r3 := Put16(r2, 0, u.mode);
    var r4 := Put32(r3, 8, u.atime);
    var r5 := Put32(r4, 16, u.mtime);
    var r6 := Put32(r5, 12, u.ctime);
    var r7 := Put16(r6, 26, u.links);
    var r8 := Put32(r7, 32, u.flags);
    var r9 := Put16(r8, 2, u.uid);
    var r10 := Put16(r9, 120, High(u.uid, U16));
    var r11 := Put16(r10, 24, u.gid);
    Put32Stays(raw, 4, u.size, i);
    Put32Stays(r1, 108, High(u.size, U32), i);
    Put16Stays(r2, 0, u.mode, i);
    Put32Stays(r3, 8, u.atime, i);
    Put32Stays(r4, 16, u.mtime, i);
    Put32Stays(r5, 12, u.ctime, i);
    Put16Stays(r6, 26, u.links, i);
    Put32Stays(r7, 32, u.flags, i);
    Put16Stays(r8, 2, u.uid, i);
    Put16Stays(r9, 120, High(u.uid, U16), i);
    Put16Stays(r10, 24, u.gid, i);
    Put16Stays(r11, 122, High(u.gid, U16), i);
  }

  /** No operation but an initialisation touches a byte of another field, read by the model or not. */
  lemma OtherBytesStay(raw: Bytes, op: InodeOp, i: nat)
    requires |raw| == INODE_BYTES && op.Sound() && i < INODE_BYTES && !MayChange(op, i)
    ensures Effect(op, raw)[i] == raw[i]
  {
    hide Updated, Put32;
    match op {
      case Init(_, _, _, _, _) =>
      case Change(_, u) => UpdatedStays(raw, u, i);
      case Free(_, now) => Put32Stays(raw, 20, Some(now), i);
      case FlushRoot(_, _, sectors) => Put32Stays(raw, 28, Some(sectors), i);
    }
  }

  lemma SameWord(a: Bytes, b: Bytes, off: nat)
    requires off + 4 <= |a| == |b| && a[off..off + 4] == b[off..off + 4]
    ensures Le32(a, off) == Le32(b, off)
  {
    var u, v := a[off..off + 4], b[off..off + 4];
    assert u[0] == a[off] && u[1] == a[off + 1] && u[2] == a[off + 2] && u[3] == a[off + 3];
    assert v[0] == b[off] && v[1] == b[off + 1] && v[2] == b[off + 2] && v[3] == b[off + 3];
  }

  /** Storing 128 bytes at one slot of a block leaves all other inodes alone. */
  lemma StoredSlot(g: Geometry, pins: Pins, disk: Disk, pins': Pins, disk': Disk, n: nat, raw: Bytes, m: nat)
    requires g.Parsed() && g.TablesApart() && g.Exists(n) && g.Exists(m) && |raw| == INODE_BYTES
    requires WholePins(pins, g.bs) && WholePins(pins', g.bs)
    requires SlotLocation(g, n).offset + INODE_BYTES <= g.bs
    requires var l := SlotLocation(g, n);
             && View(pins', disk', g.bs, l.block) == Patch(View(pins, disk, g.bs, l.block), l.offset, raw)
             && forall b :: b != l.block ==> View(pins', disk', g.bs, b) == View(pins, disk, g.bs, b)
    ensures InodeView(g, pins', disk', m) == if m == n then raw else InodeView(g, pins, disk, m)
  {
    hide SlotLocation, Geometry.TablesApart, View, Geometry.Exists, Geometry.Parsed, OffsetLocation, SectorLocation,
      Patch, WholePins;
    FormulasAgree(g, m);
    var a, b := SlotLocation(g, n), SlotLocation(g, m);
    if m != n { InodesApart(g, n, m); }
    ViewWhole(pins, disk, g.bs, a.block);
    if a.block == b.block {
      PatchSlices(View(pins, disk, g.bs, a.block), a.offset, raw, b.offset, INODE_BYTES);
    }
  }

  lemma ViewWhole(pins: Pins, disk: Disk, bs: nat, b: nat)
    requires WholePins(pins, bs)
    ensures |View(pins, disk, bs, b)| == bs
  {
  }

  lemma PatchSlices(buf: Bytes, off: nat, bytes: Bytes, o: nat, n: nat)
    requires off + |bytes| <= |buf| && o + n <= |buf|
    ensures o == off && n == |bytes| ==> Patch(buf, off, bytes)[o..o + n] == bytes
    ensures o + n <= off || off + |bytes| <= o ==> Patch(buf, off, bytes)[o..o + n] == buf[o..o + n]
  {
  }

  /** Every block of `blocks` is pinned, and no other block is changed, neither on the device nor by a pin. */
  ghost predicate Stored(g: Geometry, blocks: set<nat>, pins: Pins, disk: Disk, pins': Pins, disk': Disk) {
    && (forall b :: b in blocks ==> Pinned(pins', b).Some?)
    && (forall b :: b !in blocks ==> Pinned(pins', b) == Pinned(pins, b))
    && SameOutside(disk, disk', g.bs, blocks)
  }

  lemma StoredTwice(g: Geometry, s: set<nat>, t: set<nat>, p0: Pins, d0: Disk, p1: Pins, d1: Disk, p2: Pins, d2: Disk)
    requires Stored(g, s, p0, d0, p1, d1) && Stored(g, t, p1, d1, p2, d2)
    ensures Stored(g, s + t, p0, d0, p2, d2)
  {
    hide Pinned, ReadAt;
    forall b | b in s + t ensures Pinned(p2, b).Some? {
      if b !in t { assert Pinned(p2, b) == Pinned(p1, b); }
    }
  }

  /** The table blocks that hold the inodes of the operations. */
  ghost function Touched(g: Geometry, ops: seq<InodeOp>): set<nat>
    requires g.Parsed() && forall op :: op in ops ==> g.Exists(op.n)
  {
    set op | op in ops :: SlotLocation(g, op.n).block
  }

  lemma NoneStored(g: Geometry, pins: Pins, disk: Disk)
    requires g.Parsed()
    ensures Stored(g, Touched(g, []), pins, disk, pins, disk)
  {
  }

  lemma TouchedOneMore(g: Geometry, ops: seq<InodeOp>, i: nat)
    requires g.Parsed() && i < |ops| && forall op :: op in ops ==> g.Exists(op.n)
    ensures Touched(g, ops[..i + 1]) == Touched(g, ops[..i]) + {SlotLocation(g, ops[i].n).block}
  {
    hide SlotLocation, Geometry.Exists, Geometry.Parsed;
    assert ops[..i + 1] == ops[..i] + [ops[i]];
    assert forall op :: op in ops[..i + 1] <==> op in ops[..i] || op == ops[i];
  }

  /** One operation on one inode: the table block is read through the transaction, edited, and pinned;
      all but updates also write it through to the device. */
  method Apply(dev: BlockDevice, txn: Transaction, g: Geometry, op: InodeOp)
    requires g.Parsed() && g.TablesApart() && g.Exists(op.n) && op.Sound() && dev.blockSize == g.bs
    requires txn.Valid() && WholePins(txn.blocks, g.bs)
    modifies dev`disk, txn`blocks
    ensures txn.Valid() && WholePins(txn.blocks, g.bs)
    ensures forall m :: g.Exists(m) ==>
              InodeView(g, txn.blocks, dev.disk, m) ==
              if m == op.n then Effect(op, InodeView(g, old(txn.blocks), old(dev.disk), m))
              else InodeView(g, old(txn.blocks), old(dev.disk), m)
    ensures Stored(g, {SlotLocation(g, op.n).block}, old(txn.blocks), old(dev.disk), txn.blocks, dev.disk)
    ensures dev.disk == if op.Change? then old(dev.disk)
                        else var b := SlotLocation(g, op.n).block; old(dev.disk)[b := Pinned(txn.blocks, b).value]
  {
    hide SlotLocation, OffsetLocation, SectorLocation, Effect, Pinned, ReadAt, Patch, Geometry.TablesApart, InodeView,
      Geometry.Exists;
    FormulasAgree(g, op.n);
    ghost var pins, disk := txn.blocks, dev.disk;
    var l := if op.Change? then OffsetLocation(g, op.n) else SlotLocation(g, op.n);
    var block: Bytes;
    var pinned := Pinned(txn.blocks, l.block);
    if pinned.Some? { block := pinned.value; } else { block := dev.Read(l.block); }
    InodeViewIs(g, txn.blocks, dev.disk, op.n);
    var raw := Effect(op, block[l.offset..l.offset + INODE_BYTES]);
    block := Patch(block, l.offset, raw);
    if !op.Change? { dev.Write(l.block, block); }
    txn.PinBlock(l.block, block);
    forall m | g.Exists(m)
      ensures InodeView(g, txn.blocks, dev.disk, m) == if m == op.n then raw else InodeView(g, pins, disk, m)
    {
      StoredSlot(g, pins, disk, txn.blocks, dev.disk, op.n, raw, m);
    }
  }

  lemma InodeViewIs(g: Geometry, pins: Pins, disk: Disk, n: nat)
    requires g.Parsed() && g.Exists(n) && WholePins(pins, g.bs)
    ensures SlotLocation(g, n).offset + INODE_BYTES <= g.bs
    ensures var at := SlotLocation(g, n);
            InodeView(g, pins, disk, n) == View(pins, disk, g.bs, at.block)[at.offset..at.offset + INODE_BYTES]
  {
    FormulasAgree(g, n);
  }

  /** What a sequence of operations makes of the bytes of inode `m`: only its own operations count. */
  function Outcome(ops: seq<InodeOp>, m: nat, raw: Bytes): (r: Bytes)
    requires |raw| == INODE_BYTES && forall op :: op in ops ==> op.Sound()
    ensures |r| == INODE_BYTES
  {
    if ops == [] then raw
    else
      var before := Outcome(ops[..|ops| - 1], m, raw);
      if ops[|ops| - 1].n == m then Effect(ops[|ops| - 1], before) else before
  }

  /** The fields of inode `m` after a sequence of operations. */
  function FieldsOf(ops: seq<InodeOp>, m: nat, was: Inode): Inode {
    if ops == [] then was
    else
      var before := FieldsOf(ops[..|ops| - 1], m, was);
      if ops[|ops| - 1].n == m then FieldsAfter(ops[|ops| - 1], before) else before
  }

  lemma {:induction false} OutcomeFields(ops: seq<InodeOp>, m: nat, raw: Bytes)
    requires |raw| == INODE_BYTES && forall op :: op in ops ==> op.Sound()
    ensures ParseRaw(Outcome(ops, m, raw)) == FieldsOf(ops, m, ParseRaw(raw))
  {
    hide ParseRaw, Effect, FieldsAfter;
    if ops != [] {
      OutcomeFields(ops[..|ops| - 1], m, raw);
      EffectOnFields(Outcome(ops[..|ops| - 1], m, raw), ops[|ops| - 1]);
    }
  }

  /** The last operation on inode `m` is the i-th. */
  predicate LastOn(ops: seq<InodeOp>, m: nat, i: nat) {
    i < |ops| && ops[i].n == m && forall j :: i < j < |ops| ==> ops[j].n != m
  }

  lemma {:induction false} LastDecides(ops: seq<InodeOp>, m: nat, i: nat, was: Inode)
    requires LastOn(ops, m, i)
    ensures FieldsOf(ops, m, was) == FieldsAfter(ops[i], FieldsOf(ops[..i], m, was))
  {
    hide FieldsAfter;
    var n := |ops| - 1;
    if i < n {
      LastDecides(ops[..n], m, i, was);
      assert ops[..n][..i] == ops[..i] && ops[..n][i] == ops[i];
    }
  }

  /** No update is lost: after any interleaving of operations within one transaction, every inode reads,
      through the transaction, as its own operations left it. */
  method ApplyAll(dev: BlockDevice, txn: Transaction, g: Geometry, ops: seq<InodeOp>)
    requires g.Parsed() && g.TablesApart() && dev.blockSize == g.bs
    requires forall op :: op in ops ==> g.Exists(op.n) && op.Sound()
    requires txn.Valid() && WholePins(txn.blocks, g.bs)
    modifies dev`disk, txn`blocks
    ensures txn.Valid() && WholePins(txn.blocks, g.bs)
    ensures Stored(g, Touched(g, ops), old(txn.blocks), old(dev.disk), txn.blocks, dev.disk)
    ensures (forall op :: op in ops ==> op.Change?) ==> dev.disk == old(dev.disk)
    ensures forall m :: g.Exists(m) ==>
              InodeView(g, txn.blocks, dev.disk, m) == Outcome(ops, m, InodeView(g, old(txn.blocks), old(dev.disk), m))
    ensures forall m :: g.Exists(m) ==>
              ParseRaw(InodeView(g, txn.blocks, dev.disk, m))
              == FieldsOf(ops, m, ParseRaw(InodeView(g, old(txn.blocks), old(dev.disk), m)))
  {
    hide InodeView, Effect, Geometry.Exists, ParseRaw, SlotLocation, Stored, Touched, Pinned, ReadAt, FieldsOf;
    NoneStored(g, txn.blocks, dev.disk);
    var i := 0;
    assert ops[..0] == [];
    while i < |ops|
      invariant 0 <= i <= |ops|
      invariant txn.Valid() && WholePins(txn.blocks, g.bs)
      invariant forall m :: g.Exists(m) ==>
                  InodeView(g, txn.blocks, dev.disk, m)
                  == Outcome(ops[..i], m, InodeView(g, old(txn.blocks), old(dev.disk), m))
      invariant Stored(g, Touched(g, ops[..i]), old(txn.blocks), old(dev.disk), txn.blocks, dev.disk)
      invariant (forall op :: op in ops ==> op.Change?) ==> dev.disk == old(dev.disk)
    {
      TouchedOneMore(g, ops, i);
      ghost var pins, disk := txn.blocks, dev.disk;
      Apply(dev, txn, g, ops[i]);
      StoredTwice(g, Touched(g, ops[..i]), {SlotLocation(g, ops[i].n).block}, old(txn.blocks), old(dev.disk), pins,
                  disk, txn.blocks, dev.disk);
      assert ops[..i + 1][..i] == ops[..i];
      i := i + 1;
    }
    assert ops[..i] == ops;
    forall m | g.Exists(m)
      ensures ParseRaw(InodeView(g, txn.blocks, dev.disk, m))
              == FieldsOf(ops, m, ParseRaw(InodeView(g, old(txn.blocks), old(dev.disk), m)))
    {
      OutcomeFields(ops, m, InodeView(g, old(txn.blocks), old(dev.disk), m));
    }
  }

  /** An inode read after any interleaving of operations of which the last on it, the i-th, is to free it
      is reported deleted, as long as the time is not a multiple of 2^32; if the last is to initialise it,
      it reads as a fresh inode, whatever was there. */
  method ReadAfter(dev: BlockDevice, txn: Transaction, g: Geometry, ops: seq<InodeOp>, n: nat, ghost i: nat)
      returns (r: Result<Inode, InodeError>)
    requires g.Parsed() && g.TablesApart() && dev.blockSize == g.bs && g.Exists(n)
    requires forall op :: op in ops ==> g.Exists(op.n) && op.Sound()
    requires txn.Valid() && WholePins(txn.blocks, g.bs) && LastOn(ops, n, i)
    modifies dev`disk, txn`blocks
    ensures ops[i].Free? && ops[i].now % U32 != 0 ==> r == Err(Deleted(n))
    ensures ops[i].Init? ==>
              r == Ok(Inode(ops[i].mode % U16, ops[i].uid % U32, ops[i].gid % U32, 0, ops[i].now % U32,
                            ops[i].now % U32, ops[i].now % U32, 0, 1, 0x8_0000, EMPTY_TREE + Zeros(48)))
    ensures r == var inode := FieldsOf(ops, n, ParseRaw(InodeView(g, old(txn.blocks), old(dev.disk), n)));
                 if inode.dtime != 0 then Err(Deleted(n)) else Ok(inode)
  {
    hide InodeView, Geometry.Exists, ParseRaw, FieldsOf;
    LastDecides(ops, n, i, ParseRaw(InodeView(g, txn.blocks, dev.disk, n)));
    ApplyAll(dev, txn, g, ops);
    r := ReadInode(dev, txn, g, n);
  }
}

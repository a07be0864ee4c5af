/** The block allocator: one bitmap block per group on the device, one free count per group
    in memory. Block b of the filesystem is bit b % blocksPerGroup of group b / blocksPerGroup. */
module BlockAlloc {
  import opened Base
  import opened Device
  import opened BlockBitmap

  datatype AllocError = NoFreeBlocks | DoubleFreed(block: nat) | GroupOutOfRange(index: nat)

  /** What never changes while the filesystem is mounted: the superblock's geometry, group by group the
      block its bitmap lives in, and the block and the size of the group descriptors. */
  datatype Layout = Layout(blockSize: nat, blocksPerGroup: nat, bitmaps: seq<nat>, descBlock: nat, descSize: nat)

  // ---- specification ----

  function GroupBits(disk: Disk, fs: Layout, g: nat): (data: Bytes)
    requires g < |fs.bitmaps|
    ensures |data| == fs.blockSize
  {
    ReadAt(disk, fs.blockSize, fs.bitmaps[g])
  }

  function FreeBits(data: Bytes, limit: nat): (free: set<nat>)
    requires limit <= 8 * |data|
  {
    set i: nat | 0 <= i < limit && !BitSet(data, i)
  }

  /** Block `i` of group `g`, `g * blocksPerGroup + i`. */
  function BlockAt(bpg: nat, g: nat, i: nat): nat {
    if g == 0 then i else bpg + BlockAt(bpg, g - 1, i)
  }

  predicate Geometry(fs: Layout) {
    0 < fs.blocksPerGroup <= 8 * fs.blockSize
  }

  /** The group of block `b`, `b / blocksPerGroup`, by repeated subtraction: the specification
      stays linear and lemma `SplitAddress` gives the quotient and remainder the code computes. */
  function GroupOf(bpg: nat, b: nat): (g: nat)
    requires bpg > 0
  {
    if b < bpg then 0 else 1 + GroupOf(bpg, b - bpg)
  }

  /** The bit of block `b` within its group, `b % blocksPerGroup`. */
  function BitIn(bpg: nat, b: nat): (i: nat)
    requires bpg > 0
    ensures i < bpg
  {
    if b < bpg then b else BitIn(bpg, b - bpg)
  }

  /** Bit `i` of group `g` is clear. */
  predicate FreeIn(disk: Disk, fs: Layout, g: nat, i: nat)
    requires Geometry(fs) && i < fs.blocksPerGroup
  {
    g < |fs.bitmaps| && !BitSet(GroupBits(disk, fs, g), i)
  }

  /** Block `b` belongs to a group and its bit is clear. */
  predicate IsFree(disk: Disk, fs: Layout, b: nat)
    requires Geometry(fs)
  {
    FreeIn(disk, fs, GroupOf(fs.blocksPerGroup, b), BitIn(fs.blocksPerGroup, b))
  }

  /** The number of blocks in all groups. */
  function Volume(fs: Layout): nat {
    BlockAt(fs.blocksPerGroup, |fs.bitmaps|, 0)
  }

  /** The free blocks of the volume. */
  ghost function FreeSet(disk: Disk, fs: Layout): set<nat>
    requires Geometry(fs)
  {
    set b: nat | b < Volume(fs) && IsFree(disk, fs, b)
  }

  /** Block `b` belongs to a group and its bit is set. */
  predicate IsAllocated(disk: Disk, fs: Layout, b: nat)
    requires Geometry(fs)
  {
    GroupOf(fs.blocksPerGroup, b) < |fs.bitmaps| && !IsFree(disk, fs, b)
  }

  /** Where the allocator keeps its books: the bitmaps and the first block of group descriptors. */
  function MetaBlocks(fs: Layout): set<nat> {
    (set g | 0 <= g < |fs.bitmaps| :: fs.bitmaps[g]) + {fs.descBlock}
  }

  /** Groups have bitmap blocks of their own, apart from the descriptors, and all these blocks are
      themselves allocated. */
  ghost predicate MetaPlaced(disk: Disk, fs: Layout)
    requires Geometry(fs)
  {
    (forall g, h :: 0 <= g < h < |fs.bitmaps| ==> fs.bitmaps[g] != fs.bitmaps[h])
    && fs.descBlock !in fs.bitmaps
    && forall b :: b in MetaBlocks(fs) ==> IsAllocated(disk, fs, b)
  }

  /** The in-memory free count of every group is the number of its clear bits. */
  ghost predicate CountsAgree(disk: Disk, fs: Layout, counts: seq<nat>)
    requires Geometry(fs)
  {
    |counts| == |fs.bitmaps|
    && forall g :: 0 <= g < |counts| ==> counts[g] == |FreeBits(GroupBits(disk, fs, g), fs.blocksPerGroup)|
  }

  ghost predicate Consistent(disk: Disk, fs: Layout, counts: seq<nat>) {
    Geometry(fs) && CountsAgree(disk, fs, counts) && MetaPlaced(disk, fs)
  }

  /** Group `g` has a run of `count` free blocks. */
  ghost predicate GroupHasRun(disk: Disk, fs: Layout, g: nat, count: nat)
    requires Geometry(fs) && g < |fs.bitmaps|
  {
    HasRun(GroupBits(disk, fs, g), fs.blocksPerGroup, count)
  }

  /** The i-th group the cyclic search from `hint` looks at. */
  function Candidate(fs: Layout, hint: nat, i: nat): (g: nat)
    requires |fs.bitmaps| > 0 && Geometry(fs)
    ensures g < |fs.bitmaps|
  {
    (GroupOf(fs.blocksPerGroup, hint) + i) % |fs.bitmaps|
  }

  /** `start` is the lowest run of `count` free blocks in the first group, in cyclic order from
      the group of `hint`, that has such a run. */
  ghost predicate FirstFit(disk: Disk, fs: Layout, count: nat, hint: nat, start: nat)
    requires Geometry(fs)
  {
    var g := GroupOf(fs.blocksPerGroup, start);
    g < |fs.bitmaps|
    && LowestRun(GroupBits(disk, fs, g), fs.blocksPerGroup, BitIn(fs.blocksPerGroup, start), count)
    && exists i :: 0 <= i < |fs.bitmaps| && g == Candidate(fs, hint, i)
         && forall j :: 0 <= j < i ==> !GroupHasRun(disk, fs, Candidate(fs, hint, j), count)
  }

  // ---- the same on block numbers ----

  /** The run [b, b + count) lies within one group of the volume, and all its blocks are free. */
  ghost predicate RunAt(fs: Layout, free: set<nat>, b: nat, count: nat)
    requires Geometry(fs)
  {
    && GroupOf(fs.blocksPerGroup, b) < |fs.bitmaps| && BitIn(fs.blocksPerGroup, b) + count <= fs.blocksPerGroup
    && Range(b, count) <= free
  }

  /** How many groups lie between group `h` and group `g` on the cyclic way up. */
  function Ahead(n: nat, h: nat, g: nat): nat
    requires h < n
  {
    if g >= h then g - h else n - h + g
  }

  /** How many groups a search from `hint` passes on the way up, back to the first after the last, before
      it comes to that of block `b`. */
  function Passed(fs: Layout, hint: nat, b: nat): nat
    requires Geometry(fs) && fs.bitmaps != []
  {
    Ahead(|fs.bitmaps|, BitIn(|fs.bitmaps|, GroupOf(fs.blocksPerGroup, hint)), GroupOf(fs.blocksPerGroup, b))
  }

  /** `start` is, of all free runs of `count` blocks, the first on the way up from the group of `hint`, and
      the lowest in its group. */
  ghost predicate Nearest(fs: Layout, free: set<nat>, count: nat, hint: nat, start: nat)
    requires Geometry(fs)
  {
    && RunAt(fs, free, start, count)
    && forall b: nat :: RunAt(fs, free, b, count) ==>
         Passed(fs, hint, start) < Passed(fs, hint, b) || (Passed(fs, hint, start) == Passed(fs, hint, b) && start <= b)
  }

  /** The free blocks the group counts add up to. */
  function Total(counts: seq<nat>): int {
    if counts == [] then 0 else Total(counts[..|counts| - 1]) + counts[|counts| - 1]
  }

  // ---- what reaches the journal ----

  /** The device, the pinned copies and the free counts at one moment. */
  datatype Snapshot = Snapshot(disk: Disk, pins: Pins, counts: seq<nat>)

  /** Block `c` has changed neither on the device nor in the pins. */
  ghost predicate Untouched(fs: Layout, a: Snapshot, b: Snapshot, c: nat) {
    ReadAt(b.disk, fs.blockSize, c) == ReadAt(a.disk, fs.blockSize, c) && Pinned(b.pins, c) == Pinned(a.pins, c)
  }

  /** The descriptors are not written to the device; if a count has changed, they are pinned with the count of
      one group, the one changed last. */
  ghost predicate CountsJournaled(fs: Layout, a: Snapshot, b: Snapshot) {
    && |b.counts| == |a.counts|
    && ReadAt(b.disk, fs.blockSize, fs.descBlock) == ReadAt(a.disk, fs.blockSize, fs.descBlock)
    && ((b.counts == a.counts && Pinned(b.pins, fs.descBlock) == Pinned(a.pins, fs.descBlock))
        || exists g: nat :: g < |b.counts| && CountPinned(b.pins, b.disk, fs, g, b.counts))
  }

  /** From `a` to `b`, only blocks of `s` and `loose` have changed. Those of `s` that have are pinned as the
      device has them now; those of `loose` are written without a pin. */
  ghost predicate Journaled(fs: Layout, a: Snapshot, b: Snapshot, s: set<nat>, loose: set<nat>) {
    && (forall c :: c !in loose && c != fs.descBlock ==>
          Untouched(fs, a, b, c) || (c in s && Pinned(b.pins, c) == Some(ReadAt(b.disk, fs.blockSize, c))))
    && (forall c :: c in loose && c != fs.descBlock ==> Pinned(b.pins, c) == Pinned(a.pins, c))
    && CountsJournaled(fs, a, b)
  }

  lemma JournaledTwice(fs: Layout, a: Snapshot, b: Snapshot, c: Snapshot, s: set<nat>, loose: set<nat>)
    requires Journaled(fs, a, b, s, loose) && Journaled(fs, b, c, s, loose)
    ensures Journaled(fs, a, c, s, loose)
  {
    hide ReadAt, Pinned, CountsJournaled;
    CountsTwice(fs, a, b, c);
  }

  lemma CountsTwice(fs: Layout, a: Snapshot, b: Snapshot, c: Snapshot)
    requires CountsJournaled(fs, a, b) && CountsJournaled(fs, b, c)
    ensures CountsJournaled(fs, a, c)
  {
    hide ReadAt, Pinned, DescriptorImage;
    if c.counts == b.counts && Pinned(c.pins, fs.descBlock) == Pinned(b.pins, fs.descBlock)
       && exists g: nat :: g < |b.counts| && CountPinned(b.pins, b.disk, fs, g, b.counts) {
      var g: nat :| g < |b.counts| && CountPinned(b.pins, b.disk, fs, g, b.counts);
      assert CountPinned(c.pins, c.disk, fs, g, c.counts);
    }
  }

  lemma JournaledMore(fs: Layout, a: Snapshot, b: Snapshot, s: set<nat>, loose: set<nat>, s': set<nat>,
                      loose': set<nat>)
    requires Journaled(fs, a, b, s, loose) && s <= s' && loose <= loose' && loose' !! s
    ensures Journaled(fs, a, b, s', loose')
  {
    hide ReadAt, Pinned, CountsJournaled;
  }

  /** Blocks elsewhere are as they were. */
  lemma JournaledSame(fs: Layout, a: Snapshot, b: Snapshot, s: set<nat>)
    requires Journaled(fs, a, b, s, {})
    ensures SameOutside(a.disk, b.disk, fs.blockSize, s)
    ensures forall c :: c !in s && c != fs.descBlock ==> Pinned(b.pins, c) == Pinned(a.pins, c)
  {
    hide ReadAt, Pinned;
    forall c: nat | c !in s ensures ReadAt(b.disk, fs.blockSize, c) == ReadAt(a.disk, fs.blockSize, c) {
      if c != fs.descBlock { assert Untouched(fs, a, b, c); }
    }
  }

  /** Replaying the pins over the device as it was when the transaction began gives the device as it is, but for
      the descriptors. */
  ghost predicate Redoes(fs: Layout, began: Disk, x: Snapshot) {
    forall c :: c != fs.descBlock ==> View(x.pins, began, fs.blockSize, c) == ReadAt(x.disk, fs.blockSize, c)
  }

  lemma JournaledRedoes(fs: Layout, began: Disk, a: Snapshot, b: Snapshot, s: set<nat>)
    requires Redoes(fs, began, a) && Journaled(fs, a, b, s, {})
    ensures Redoes(fs, began, b)
  {
    hide ReadAt, Pinned, CountsJournaled;
    forall c | c != fs.descBlock ensures View(b.pins, began, fs.blockSize, c) == ReadAt(b.disk, fs.blockSize, c) {
      assert View(a.pins, began, fs.blockSize, c) == ReadAt(a.disk, fs.blockSize, c);
    }
  }

  /** Only the allocator's own blocks have changed. */
  ghost predicate OnlyMeta(fs: Layout, a: Snapshot, b: Snapshot) { Journaled(fs, a, b, MetaBlocks(fs), {}) }

  lemma OnlyMetaTwice(fs: Layout, a: Snapshot, b: Snapshot, c: Snapshot)
    requires OnlyMeta(fs, a, b) && OnlyMeta(fs, b, c)
    ensures OnlyMeta(fs, a, c)
  {
    hide Journaled;
    JournaledTwice(fs, a, b, c, MetaBlocks(fs), {});
  }

  lemma OnlyMetaSame(fs: Layout, a: Snapshot, b: Snapshot)
    requires OnlyMeta(fs, a, b)
    ensures SameOutside(a.disk, b.disk, fs.blockSize, MetaBlocks(fs))
    ensures forall c :: c !in MetaBlocks(fs) ==> Pinned(b.pins, c) == Pinned(a.pins, c)
  {
    hide Journaled, SameOutside, Pinned;
    JournaledSame(fs, a, b, MetaBlocks(fs));
  }

  lemma NothingTouched(fs: Layout, a: Snapshot, s: set<nat>)
    ensures Journaled(fs, a, a, s, {}) && OnlyMeta(fs, a, a)
  {
    hide ReadAt, Pinned;
  }

  lemma JournaledTogether(fs: Layout, a: Snapshot, b: Snapshot, c: Snapshot, s1: set<nat>, s2: set<nat>, s: set<nat>)
    requires Journaled(fs, a, b, s1, {}) && Journaled(fs, b, c, s2, {}) && s1 <= s && s2 <= s
    ensures Journaled(fs, a, c, s, {})
  {
    hide Journaled;
    JournaledMore(fs, a, b, s1, {}, s, {});
    JournaledMore(fs, b, c, s2, {}, s, {});
    JournaledTwice(fs, a, b, c, s, {});
  }

  /** The descriptor at `off` with another free count; one past the end of the block is not reached. */
  function WithCount(buf: Bytes, off: nat, wide: bool, count: nat): (r: Bytes)
    ensures |r| == |buf|
  {
    if off + 16 > |buf| then buf
    else
      var low := Patch(buf, off + 12, ToLe16(count % U16));
      if wide && off + 46 <= |buf| then Patch(low, off + 44, ToLe16(count / U16 % U16)) else low
  }

  /** The count reads back, in the width the descriptor has, and nothing else changes. */
  lemma CountReadsBack(buf: Bytes, off: nat, wide: bool, count: nat)
    requires off + (if wide then 46 else 16) <= |buf| && count < U32
    ensures var r := WithCount(buf, off, wide, count);
            && Le16(r, off + 12) == count % U16
            && (wide ==> Le16(r, off + 12) + U16 * Le16(r, off + 44) == count)
            && forall i :: 0 <= i < |buf| && !(off + 12 <= i < off + 14) && !(wide && off + 44 <= i < off + 46) ==>
              r[i] == buf[i]
  {
    hide ToLe16, Le16, Patch;
    var lo, hi := count % U16, count / U16 % U16;
    var low := Patch(buf, off + 12, ToLe16(lo));
    FieldAt(buf, off + 12, lo);
    if wide {
      FieldAt(low, off + 44, hi);
      var both := Patch(low, off + 44, ToLe16(hi));
      assert both[off + 12..off + 14] == ToLe16(lo);
      Le16At(both, off + 12, lo);
    }
  }

  lemma FieldAt(buf: Bytes, off: nat, v: nat)
    requires off + 2 <= |buf| && v < U16
    ensures Patch(buf, off, ToLe16(v))[off..off + 2] == ToLe16(v) && Le16(Patch(buf, off, ToLe16(v)), off) == v
  {
    hide ToLe16, Le16;
    var p := Patch(buf, off, ToLe16(v));
    assert p[off..off + 2] == ToLe16(v);
    Le16At(p, off, v);
  }

  /** Rewriting one descriptor leaves the counts of all others as they were in `buf`: an image built from
      the device afresh carries none of the counts that are only pinned. */
  lemma OtherCountsStay(buf: Bytes, off: nat, wide: bool, count: nat, other: nat)
    requires off + (if wide then 46 else 16) <= |buf| && other + 46 <= |buf| && count < U32
    requires off + 46 <= other + 12 || other + 46 <= off + 12
    ensures Le16(WithCount(buf, off, wide, count), other + 12) == Le16(buf, other + 12)
    ensures Le16(WithCount(buf, off, wide, count), other + 44) == Le16(buf, other + 44)
  {
    hide WithCount;
    CountReadsBack(buf, off, wide, count);
  }

  /** The block of group descriptors with the free count of group `g` rewritten. */
  function DescriptorImage(buf: Bytes, fs: Layout, g: nat, count: nat): (r: Bytes)
    ensures |r| == |buf|
  {
    WithCount(buf, g * fs.descSize, fs.descSize >= 64, count)
  }

  /** The free count that descriptor `g` of the block stores; descriptors of 64 bytes and more have a high
      half at 44. */
  function StoredCount(buf: Bytes, fs: Layout, g: nat): nat
    requires fs.descSize >= 32 && g * fs.descSize + fs.descSize <= |buf|
  {
    var off := g * fs.descSize;
    Le16(buf, off + 12) + if fs.descSize >= 64 then U16 * Le16(buf, off + 44) else 0
  }

  /** The rewritten block of descriptors stores the new count for group `g`, as far as its width goes, and
      for every other group the one it had. */
  lemma ImageCounts(buf: Bytes, fs: Layout, g: nat, count: nat, h: nat)
    requires fs.descSize >= 32 && g * fs.descSize + fs.descSize <= |buf| && h * fs.descSize + fs.descSize <= |buf|
    requires count < U32
    ensures StoredCount(DescriptorImage(buf, fs, g, count), fs, h)
            == if h != g then StoredCount(buf, fs, h) else if fs.descSize >= 64 then count else count % U16
  {
    hide WithCount, Le16;
    CountReadsBack(buf, g * fs.descSize, fs.descSize >= 64, count);
    if h != g {
      OtherSlot(g, h, fs.descSize);
      OtherDescriptor(buf, g * fs.descSize, fs.descSize >= 64, count, h * fs.descSize);
    }
  }

  lemma OtherSlot(g: nat, h: nat, size: nat)
    requires g != h
    ensures g * size + size <= h * size || h * size + size <= g * size
  {
    Distribute(g, 1, size);
    Distribute(h, 1, size);
    if h < g { Times(h + 1, g, size); } else { Times(g + 1, h, size); }
  }

  lemma OtherDescriptor(buf: Bytes, off: nat, wide: bool, count: nat, other: nat)
    requires var size := if wide then 64 else 32;
             off + size <= |buf| && other + size <= |buf| && (off + size <= other || other + size <= off)
    requires count < U32
    ensures Le16(WithCount(buf, off, wide, count), other + 12) == Le16(buf, other + 12)
    ensures wide ==> Le16(WithCount(buf, off, wide, count), other + 44) == Le16(buf, other + 44)
  {
    hide WithCount, Le16;
    CountReadsBack(buf, off, wide, count);
    SameCount(buf, WithCount(buf, off, wide, count), other + 12);
    if wide { SameCount(buf, WithCount(buf, off, wide, count), other + 44); }
  }

  lemma SameCount(a: Bytes, b: Bytes, off: nat)
    requires off + 2 <= |a| == |b| && a[off] == b[off] && a[off + 1] == b[off + 1]
    ensures Le16(a, off) == Le16(b, off)
  {
  }

  // ---- arithmetic of block addresses ----

  lemma {:induction false} Address(bpg: nat, g: nat, i: nat)
    requires i < bpg
    ensures GroupOf(bpg, BlockAt(bpg, g, i)) == g && BitIn(bpg, BlockAt(bpg, g, i)) == i
  {
    if g > 0 { Address(bpg, g - 1, i); }
  }

  lemma {:induction false} JoinAddress(bpg: nat, g: nat, i: nat)
    ensures BlockAt(bpg, g, i) == g * bpg + i
  {
    if g > 0 { JoinAddress(bpg, g - 1, i); }
  }

  lemma {:induction false} Offset(bpg: nat, g: nat, i: nat)
    ensures BlockAt(bpg, g, i) == BlockAt(bpg, g, 0) + i
  {
    if g > 0 { Offset(bpg, g - 1, i); }
  }

  lemma {:induction false} AddressOf(bpg: nat, b: nat)
    requires bpg > 0
    ensures BlockAt(bpg, GroupOf(bpg, b), BitIn(bpg, b)) == b
  {
    if b >= bpg { AddressOf(bpg, b - bpg); }
  }

  /** Group and bit are the quotient and the remainder by `blocksPerGroup`. */
  lemma SplitAddress(bpg: nat, b: nat)
    requires bpg > 0
    ensures GroupOf(bpg, b) == b / bpg && BitIn(bpg, b) == b % bpg
  {
    AddressOf(bpg, b);
    JoinAddress(bpg, GroupOf(bpg, b), BitIn(bpg, b));
    Quotient(b, bpg, GroupOf(bpg, b), BitIn(bpg, b));
  }

  lemma {:induction false} SameAddress(bpg: nat, b: nat, c: nat)
    requires bpg > 0
    ensures GroupOf(bpg, b) == GroupOf(bpg, c) && BitIn(bpg, b) == BitIn(bpg, c) <==> b == c
  {
    if b >= bpg && c >= bpg { SameAddress(bpg, b - bpg, c - bpg); }
  }

  lemma {:induction false} InVolume(bpg: nat, n: nat, b: nat)
    requires bpg > 0 && GroupOf(bpg, b) < n
    ensures b < BlockAt(bpg, n, 0)
  {
    if b >= bpg { InVolume(bpg, n - 1, b - bpg); }
  }

  lemma {:induction false} OutsideVolume(bpg: nat, n: nat, b: nat)
    requires bpg > 0 && GroupOf(bpg, b) >= n
    ensures b >= BlockAt(bpg, n, 0)
  {
    if n > 0 { OutsideVolume(bpg, n - 1, b - bpg); }
  }

  lemma VolumeGroups(fs: Layout, b: nat)
    requires Geometry(fs)
    ensures b < Volume(fs) <==> GroupOf(fs.blocksPerGroup, b) < |fs.bitmaps|
  {
    if GroupOf(fs.blocksPerGroup, b) < |fs.bitmaps| {
      InVolume(fs.blocksPerGroup, |fs.bitmaps|, b);
    } else {
      OutsideVolume(fs.blocksPerGroup, |fs.bitmaps|, b);
    }
  }

  /** The blocks of a run inside one group are the bits of that run. */
  lemma {:induction false} RunAddress(bpg: nat, start: nat, count: nat, b: nat)
    requires bpg > 0 && BitIn(bpg, start) + count <= bpg
    ensures start <= b < start + count <==>
            GroupOf(bpg, b) == GroupOf(bpg, start) && BitIn(bpg, start) <= BitIn(bpg, b) < BitIn(bpg, start) + count
  {
    if start >= bpg && b >= bpg {
      RunAddress(bpg, start - bpg, count, b - bpg);
    }
  }

  // ---- the effect of rewriting one bitmap ----

  /** Replacing group g's bitmap by `data`, which keeps every bitmap block allocated, and its count
      by the number of clear bits of `data`. */
  lemma BitmapRewritten(disk: Disk, fs: Layout, counts: seq<nat>, g: nat, data: Bytes, free: nat)
    requires Consistent(disk, fs, counts) && g < |fs.bitmaps| && |data| == fs.blockSize
    requires free == |FreeBits(data, fs.blocksPerGroup)|
    requires forall b :: b in MetaBlocks(fs) && GroupOf(fs.blocksPerGroup, b) == g ==>
               BitSet(data, BitIn(fs.blocksPerGroup, b))
    ensures Consistent(disk[fs.bitmaps[g] := data], fs, counts[g := free])
    ensures forall h: nat, i: nat :: i < fs.blocksPerGroup ==>
              (FreeIn(disk[fs.bitmaps[g] := data], fs, h, i) <==>
               if h == g then !BitSet(data, i) else FreeIn(disk, fs, h, i))
  {
    var disk' := disk[fs.bitmaps[g] := data];
    forall h: nat, i: nat | i < fs.blocksPerGroup
      ensures FreeIn(disk', fs, h, i) <==> if h == g then !BitSet(data, i) else FreeIn(disk, fs, h, i)
    {
      assert h < |fs.bitmaps| && h != g ==> GroupBits(disk', fs, h) == GroupBits(disk, fs, h);
    }
    assert forall h :: 0 <= h < |fs.bitmaps| ==>
             GroupBits(disk', fs, h) == (if h == g then data else GroupBits(disk, fs, h));
    forall b | b in MetaBlocks(fs) ensures IsAllocated(disk', fs, b) {
      assert IsAllocated(disk, fs, b);
    }
  }

  /** Writes outside the bitmap blocks change no allocation state. */
  lemma ElsewhereKeepsAllocator(was: Disk, disk: Disk, fs: Layout, counts: seq<nat>)
    requires Consistent(was, fs, counts)
    requires forall b :: b in MetaBlocks(fs) ==> ReadAt(disk, fs.blockSize, b) == ReadAt(was, fs.blockSize, b)
    ensures Consistent(disk, fs, counts)
    ensures forall b: nat :: IsFree(disk, fs, b) <==> IsFree(was, fs, b)
  {
    forall g | 0 <= g < |fs.bitmaps| ensures GroupBits(disk, fs, g) == GroupBits(was, fs, g) {
      assert fs.bitmaps[g] in MetaBlocks(fs);
    }
    forall b | b in MetaBlocks(fs) ensures IsAllocated(disk, fs, b) {
      assert IsAllocated(was, fs, b);
    }
  }

  lemma RunCardinality(bits: set<nat>, s: nat, count: nat)
    requires forall i :: s <= i < s + count ==> i in bits
    ensures |bits - Range(s, count)| == |bits| - count
  {
    assert bits == (bits - Range(s, count)) + Range(s, count);
  }

  /** Marking a free run takes its length off the number of clear bits. */
  lemma FewerFree(was: Bytes, data: Bytes, limit: nat, s: nat, count: nat)
    requires |data| == |was| && limit <= 8 * |was| && s + count <= limit && ClearRun(was, s, count)
    requires forall j :: 0 <= j < 8 * |was| ==> (BitSet(data, j) <==> s <= j < s + count || BitSet(was, j))
    ensures |FreeBits(data, limit)| == |FreeBits(was, limit)| - count
  {
    RunCardinality(FreeBits(was, limit), s, count);
    assert FreeBits(data, limit) == FreeBits(was, limit) - Range(s, count);
  }

  /** The bitmap of group `g` with a free run marked. */
  lemma RunMarked(disk: Disk, fs: Layout, counts: seq<nat>, g: nat, marked: Bytes, s: nat, count: nat)
    requires Consistent(disk, fs, counts) && g < |fs.bitmaps| && |marked| == fs.blockSize
    requires s + count <= fs.blocksPerGroup && ClearRun(GroupBits(disk, fs, g), s, count)
    requires forall j :: 0 <= j < 8 * |marked| ==>
               (BitSet(marked, j) <==> s <= j < s + count || BitSet(GroupBits(disk, fs, g), j))
    ensures counts[g] >= count && |FreeBits(marked, fs.blocksPerGroup)| == counts[g] - count
    ensures forall b :: b in MetaBlocks(fs) && GroupOf(fs.blocksPerGroup, b) == g ==>
               BitSet(marked, BitIn(fs.blocksPerGroup, b))
    ensures forall i: nat :: i < fs.blocksPerGroup ==>
              (BitSet(marked, i) <==> !(FreeIn(disk, fs, g, i) && !(s <= i < s + count)))
  {
    FewerFree(GroupBits(disk, fs, g), marked, fs.blocksPerGroup, s, count);
    forall b | b in MetaBlocks(fs) && GroupOf(fs.blocksPerGroup, b) == g
      ensures BitSet(marked, BitIn(fs.blocksPerGroup, b))
    {
      assert IsAllocated(disk, fs, b);
    }
  }

  lemma OneFreed(was: Bytes, data: Bytes, limit: nat, bit: nat)
    requires |data| == |was| && bit < limit <= 8 * |was| && BitSet(was, bit)
    requires forall j :: 0 <= j < 8 * |was| ==> (BitSet(data, j) <==> j != bit && BitSet(was, j))
    ensures |FreeBits(data, limit)| == |FreeBits(was, limit)| + 1
  {
    assert FreeBits(data, limit) == FreeBits(was, limit) + {bit};
  }

  lemma FewerThanCount(data: Bytes, limit: nat, count: nat)
    requires limit <= 8 * |data| && |FreeBits(data, limit)| < count
    ensures !HasRun(data, limit, count)
  {
    if HasRun(data, limit, count) {
      var s :| 0 <= s && s + count <= limit && ClearRun(data, s, count);
      RunCardinality(FreeBits(data, limit), s, count);
    }
  }

  lemma {:induction false} TotalAfter(counts: seq<nat>, g: nat, free: nat)
    requires g < |counts|
    ensures Total(counts[g := free]) == Total(counts) - counts[g] + free
  {
    var n := |counts| - 1;
    if g < n {
      TotalAfter(counts[..n], g, free);
      assert counts[g := free][..n] == counts[..n][g := free];
    } else {
      assert counts[g := free][..n] == counts[..n];
    }
  }

  /** How many of the `k` numbers from `base` on satisfy `p`. */
  function Count(p: nat -> bool, base: nat, k: nat): nat {
    if k == 0 then 0 else Count(p, base, k - 1) + (if p(base + k - 1) then 1 else 0)
  }

  lemma {:induction false} CountSplit(p: nat -> bool, base: nat, j: nat, k: nat)
    ensures Count(p, base, j + k) == Count(p, base, j) + Count(p, base + j, k)
  {
    if k > 0 { CountSplit(p, base, j, k - 1); }
  }

  lemma {:induction false} CountFreeBits(data: Bytes, p: nat -> bool, base: nat, k: nat)
    requires k <= 8 * |data|
    requires forall i :: 0 <= i < k ==> (p(base + i) <==> !BitSet(data, i))
    ensures Count(p, base, k) == |FreeBits(data, k)|
  {
    if k > 0 {
      CountFreeBits(data, p, base, k - 1);
      OneMoreBit(data, k);
    } else {
      assert FreeBits(data, 0) == {};
    }
  }

  lemma OneMoreBit(data: Bytes, k: nat)
    requires 0 < k <= 8 * |data|
    ensures |FreeBits(data, k)| == |FreeBits(data, k - 1)| + (if BitSet(data, k - 1) then 0 else 1)
  {
    if BitSet(data, k - 1) {
      assert FreeBits(data, k) == FreeBits(data, k - 1);
    } else {
      assert FreeBits(data, k) == FreeBits(data, k - 1) + {k - 1};
    }
  }

  function FreePredicate(disk: Disk, fs: Layout): nat -> bool
    requires Geometry(fs)
  {
    (b: nat) => IsFree(disk, fs, b)
  }

  /** The number of free blocks among the first `n` groups. */
  function FreeBlocks(disk: Disk, fs: Layout, n: nat): nat
    requires Geometry(fs)
  {
    Count(FreePredicate(disk, fs), 0, BlockAt(fs.blocksPerGroup, n, 0))
  }

  lemma FreeInGroup(disk: Disk, fs: Layout, g: nat)
    requires Geometry(fs) && g < |fs.bitmaps|
    ensures Count(FreePredicate(disk, fs), BlockAt(fs.blocksPerGroup, g, 0), fs.blocksPerGroup)
            == |FreeBits(GroupBits(disk, fs, g), fs.blocksPerGroup)|
  {
    var data, p, base := GroupBits(disk, fs, g), FreePredicate(disk, fs), BlockAt(fs.blocksPerGroup, g, 0);
    forall i | 0 <= i < fs.blocksPerGroup ensures p(base + i) <==> !BitSet(data, i) {
      Address(fs.blocksPerGroup, g, i);
      Offset(fs.blocksPerGroup, g, i);
    }
    CountFreeBits(data, p, base, fs.blocksPerGroup);
  }

  /** Conservation: the counts of the groups add up to the number of free blocks of the filesystem. */
  lemma {:induction false} TotalIsFreeBlocks(disk: Disk, fs: Layout, counts: seq<nat>, n: nat)
    requires Geometry(fs) && CountsAgree(disk, fs, counts) && n <= |counts|
    ensures Total(counts[..n]) == FreeBlocks(disk, fs, n)
  {
    hide FreePredicate, GroupBits, FreeBits;
    if n > 0 {
      TotalIsFreeBlocks(disk, fs, counts, n - 1);
      assert counts[..n][..n - 1] == counts[..n - 1];
      CountSplit(FreePredicate(disk, fs), 0, BlockAt(fs.blocksPerGroup, n - 1, 0), fs.blocksPerGroup);
      assert BlockAt(fs.blocksPerGroup, n, 0) == BlockAt(fs.blocksPerGroup, n - 1, 0) + fs.blocksPerGroup;
      FreeInGroup(disk, fs, n - 1);
    }
  }

  /** The pinned descriptors carry the count of group `g`, on top of what the device had. */
  ghost predicate CountPinned(pins: Pins, was: Disk, fs: Layout, g: nat, counts: seq<nat>)
    requires g < |counts|
  {
    Pinned(pins, fs.descBlock) == Some(DescriptorImage(ReadAt(was, fs.blockSize, fs.descBlock), fs, g, counts[g]))
  }

  /** What such a pinned block says: the count of group `g` from memory, those of the others from the
      device. */
  lemma PinnedCounts(pins: Pins, was: Disk, fs: Layout, g: nat, counts: seq<nat>, h: nat)
    requires g < |counts| && CountPinned(pins, was, fs, g, counts) && counts[g] < U32 && fs.descSize >= 64
    requires g * fs.descSize + fs.descSize <= fs.blockSize && h * fs.descSize + fs.descSize <= fs.blockSize
    ensures Pinned(pins, fs.descBlock).Some? && |Pinned(pins, fs.descBlock).value| == fs.blockSize
    ensures StoredCount(Pinned(pins, fs.descBlock).value, fs, h)
            == if h == g then counts[g] else StoredCount(ReadAt(was, fs.blockSize, fs.descBlock), fs, h)
  {
    hide DescriptorImage, StoredCount;
    ImageCounts(ReadAt(was, fs.blockSize, fs.descBlock), fs, g, counts[g], h);
  }

  lemma BitmapJournaled(fs: Layout, a: Snapshot, b: Snapshot, g: nat, data: Bytes)
    requires g < |fs.bitmaps| == |a.counts| == |b.counts| && fs.bitmaps[g] != fs.descBlock
    requires ReadAt(b.disk, fs.blockSize, fs.bitmaps[g]) == data
    requires SameOutside(a.disk, b.disk, fs.blockSize, {fs.bitmaps[g]})
    requires Pinned(b.pins, fs.bitmaps[g]) == Some(data) && CountPinned(b.pins, a.disk, fs, g, b.counts)
    requires forall c :: c != fs.bitmaps[g] && c != fs.descBlock ==> Pinned(b.pins, c) == Pinned(a.pins, c)
    ensures OnlyMeta(fs, a, b)
  {
    hide ReadAt, Pinned, DescriptorImage;
    assert CountPinned(b.pins, b.disk, fs, g, b.counts);
    assert fs.bitmaps[g] in MetaBlocks(fs);
  }

  // ---- the allocator ----

  ghost function Now(alloc: Allocator, txn: Transaction): Snapshot
    reads alloc, alloc.dev, txn
  {
    Snapshot(alloc.dev.disk, txn.blocks, alloc.counts)
  }

  class Allocator {
    const fs: Layout
    const dev: BlockDevice
    var counts: seq<nat>
    ghost var free: set<nat>  // the free blocks of the volume

    /** The bitmaps on the device and the counts in memory agree. */
    ghost predicate Sound()
      reads this`counts, dev
    {
      dev.blockSize == fs.blockSize && Consistent(dev.disk, fs, counts)
    }

    ghost predicate Valid()
      reads this, dev
    {
      Sound() && forall b: nat :: b in free <==> IsFree(dev.disk, fs, b)
    }

    constructor (fs: Layout, dev: BlockDevice, counts: seq<nat>)
      requires dev.blockSize == fs.blockSize && Consistent(dev.disk, fs, counts)
      ensures Valid() && this.fs == fs && this.dev == dev && this.counts == counts
    {
      this.fs, this.dev, this.counts := fs, dev, counts;
      free := FreeSet(dev.disk, fs);
      new;
      forall b: nat ensures b in free <==> IsFree(dev.disk, fs, b) {
        if IsFree(dev.disk, fs, b) { InVolume(fs.blocksPerGroup, |fs.bitmaps|, b); }
      }
    }

    /** Writes a bitmap through to the device, pins it, sets the group's count, and pins the descriptors
        with that count. The descriptors are read from the device every time. */
    method FlushBitmap(txn: Transaction, g: nat, data: Bytes, free: nat)
      requires Sound() && txn.Valid() && g < |counts| && |data| == fs.blockSize
      requires free == |FreeBits(data, fs.blocksPerGroup)|
      requires forall b :: b in MetaBlocks(fs) && GroupOf(fs.blocksPerGroup, b) == g ==>
                 BitSet(data, BitIn(fs.blocksPerGroup, b))
      modifies this`counts, dev`disk, txn`blocks
      ensures Sound() && txn.Valid() && counts == old(counts)[g := free]
      ensures Total(counts) == Total(old(counts)) - old(counts[g]) + free
      ensures forall h: nat, i: nat :: i < fs.blocksPerGroup ==>
                (FreeIn(dev.disk, fs, h, i) <==> if h == g then !BitSet(data, i) else old(FreeIn(dev.disk, fs, h, i)))
      ensures OnlyMeta(fs, old(Now(this, txn)), Now(this, txn))
      ensures Pinned(txn.blocks, fs.bitmaps[g]) == Some(data)
      ensures Pinned(txn.blocks, fs.descBlock)
              == Some(DescriptorImage(ReadAt(old(dev.disk), fs.blockSize, fs.descBlock), fs, g, free))
    {
      hide Pinned, FreeBits, DescriptorImage, Total;
      BitmapRewritten(dev.disk, fs, counts, g, data, free);
      TotalAfter(counts, g, free);
      assert fs.bitmaps[g] in MetaBlocks(fs) && fs.descBlock in MetaBlocks(fs) && fs.bitmaps[g] in fs.bitmaps;
      dev.Write(fs.bitmaps[g], data);
      txn.PinBlock(fs.bitmaps[g], data);
      counts := counts[g := free];
      var image := dev.Read(fs.descBlock);
      txn.PinBlock(fs.descBlock, DescriptorImage(image, fs, g, free));
      BitmapJournaled(fs, old(Now(this, txn)), Now(this, txn), g, data);
    }

    static method MarkRun(bm: Bitmap, s: nat, count: nat)
      requires s + count <= 8 * bm.data.Length
      modifies bm.data
      ensures forall j :: 0 <= j < 8 * bm.data.Length ==>
                (BitSet(bm.data[..], j) <==> s <= j < s + count || BitSet(old(bm.data[..]), j))
    {
      var bit := s;
      while bit < s + count
        invariant s <= bit <= s + count
        invariant forall j :: 0 <= j < 8 * bm.data.Length ==>
                    (BitSet(bm.data[..], j) <==> s <= j < bit || BitSet(old(bm.data[..]), j))
      {
        var _ := bm.Allocate(bit);
        bit := bit + 1;
      }
    }

    /** Sets the bits of the run found and flushes the bitmap. */
    method TakeRun(txn: Transaction, g: nat, s: nat, count: nat, bm: Bitmap) returns (r: Result<nat, AllocError>)
      requires Sound() && txn.Valid() && g < |counts|
      requires bm.data[..] == GroupBits(dev.disk, fs, g)
      requires s + count <= fs.blocksPerGroup && ClearRun(bm.data[..], s, count)
      modifies this`counts, dev`disk, txn`blocks, bm.data
      ensures Sound() && txn.Valid()
      ensures r == Ok(BlockAt(fs.blocksPerGroup, g, s))
      ensures Total(counts) == Total(old(counts)) - count
      ensures forall h: nat, i: nat :: i < fs.blocksPerGroup ==>
                (FreeIn(dev.disk, fs, h, i) <==> old(FreeIn(dev.disk, fs, h, i)) && !(h == g && s <= i < s + count))
      ensures OnlyMeta(fs, old(Now(this, txn)), Now(this, txn))
      ensures |counts| == |old(counts)| && CountPinned(txn.blocks, old(dev.disk), fs, g, counts)
    {
      hide OnlyMeta, Pinned, Total, DescriptorImage, FreeBits;
      ghost var was := bm.data[..];
      var bpg := fs.blocksPerGroup;
      MarkRun(bm, s, count);
      var marked := bm.data[..];
      RunMarked(dev.disk, fs, counts, g, marked, s, count);
      FlushBitmap(txn, g, marked, counts[g] - count);
      JoinAddress(bpg, g, s);
      r := Ok(g * bpg + s);
    }

    /** Takes the run found in the `i`-th group of the search. */
    method TakeCandidate(txn: Transaction, count: nat, ghost hint: nat, ghost i: nat, g: nat, s: nat, bm: Bitmap)
        returns (r: Result<nat, AllocError>)
      requires Valid() && txn.Valid() && i < |fs.bitmaps| && g == Candidate(fs, hint, i)
      requires bm.data[..] == GroupBits(dev.disk, fs, g) && LowestRun(bm.data[..], fs.blocksPerGroup, s, count)
      requires forall j :: 0 <= j < i ==> !GroupHasRun(dev.disk, fs, Candidate(fs, hint, j), count)
      modifies this`counts, this`free, dev`disk, txn`blocks, bm.data
      ensures Valid() && txn.Valid()
      ensures r.Ok? && FirstFit(old(dev.disk), fs, count, hint, r.value)
      ensures Range(r.value, count) <= old(free) && free == old(free) - Range(r.value, count)
      ensures r.value + count <= Volume(fs) && Range(r.value, count) !! MetaBlocks(fs)
      ensures Total(counts) == Total(old(counts)) - count
      ensures OnlyMeta(fs, old(Now(this, txn)), Now(this, txn))
      ensures GroupOf(fs.blocksPerGroup, r.value) < |counts|
              && CountPinned(txn.blocks, old(dev.disk), fs, GroupOf(fs.blocksPerGroup, r.value), counts)
    {
      hide GroupBits, FreeBits, Candidate, CountPinned, Pinned, Total, OnlyMeta, MetaBlocks, Volume, MetaPlaced;
      ghost var was := dev.disk;
      r := TakeRun(txn, g, s, count, bm);
      RunChosen(dev.disk, was, fs, g, s, count, hint, i, r.value);
      RunInVolume(dev.disk, was, fs, r.value, count);
      free := free - Range(r.value, count);
    }

    /** Allocates the run of `count` contiguous blocks nearest to `hint`; fails only if there is none. */
    method AllocBlocks(txn: Transaction, count: nat, hint: nat) returns (r: Result<nat, AllocError>)
      requires Valid() && txn.Valid()
      modifies this`counts, this`free, dev`disk, txn`blocks
      ensures Valid() && txn.Valid()
      ensures r.Ok? ==> Nearest(fs, old(free), count, hint, r.value)
      ensures r.Ok? ==> Range(r.value, count) <= old(free) && free == old(free) - Range(r.value, count)
      ensures r.Ok? ==> r.value + count <= Volume(fs) && Range(r.value, count) !! MetaBlocks(fs)
      ensures r.Ok? ==> Total(counts) == Total(old(counts)) - count
      ensures r.Ok? ==> GroupOf(fs.blocksPerGroup, r.value) < |counts|
                        && CountPinned(txn.blocks, old(dev.disk), fs, GroupOf(fs.blocksPerGroup, r.value), counts)
      ensures r.Err? ==> r.error == NoFreeBlocks
      ensures r.Err? ==> dev.disk == old(dev.disk) && counts == old(counts) && free == old(free)
                         && txn.blocks == old(txn.blocks)
      ensures r.Err? ==> forall b: nat :: !RunAt(fs, free, b, count)
      ensures count == 1 && r.Err? ==> free == {}
      ensures OnlyMeta(fs, old(Now(this, txn)), Now(this, txn))
    {
      hide GroupBits, FreeBits, ClearRun, Candidate, CountPinned, Pinned, Total, OnlyMeta, MetaBlocks, Volume,
        MetaPlaced, FirstFit, LowestRun, HasRun, Nearest, RunAt;
      NothingTouched(fs, Now(this, txn), {});
      var n, bpg := |fs.bitmaps|, fs.blocksPerGroup;
      var i := 0;
      while i < n
        invariant 0 <= i <= n
        invariant Valid() && txn.Valid()
        invariant dev.disk == old(dev.disk) && counts == old(counts) && free == old(free)
        invariant txn.blocks == old(txn.blocks)
        invariant forall j :: 0 <= j < i ==> !GroupHasRun(dev.disk, fs, Candidate(fs, hint, j), count)
      {
        var g := Candidate(fs, hint, i);
        if counts[g] >= count {
          var bm := new Bitmap(GroupBits(dev.disk, fs, g));
          var run := bm.FirstFreeRun(count, bpg);
          if run.Some? {
            r := TakeCandidate(txn, count, hint, i, g, run.value, bm);
            FirstFitIsNearest(old(dev.disk), fs, old(free), count, hint, r.value);
            return;
          }
        } else {
          FewerThanCount(GroupBits(dev.disk, fs, g), bpg, count);
        }
        i := i + 1;
      }
      if n > 0 { NoGroupLeft(dev.disk, fs, count, hint); }
      NoRunAt(dev.disk, fs, free, count);
      if count == 1 {
        forall b | b in free ensures false { SomeBlockFree(dev.disk, fs, b); }
      }
      r := Err(NoFreeBlocks);
    }

    /** Flushes the bitmap of a group after the bit of `block`, which was set, has been cleared. */
    method FlushFreed(txn: Transaction, ghost block: nat, g: nat, ghost bit: nat, cleared: Bytes)
      requires Sound() && txn.Valid() && g < |counts| && |cleared| == fs.blockSize
      requires g == GroupOf(fs.blocksPerGroup, block) && bit == BitIn(fs.blocksPerGroup, block)
      requires block !in MetaBlocks(fs) && BitSet(GroupBits(dev.disk, fs, g), bit)
      requires forall j :: 0 <= j < 8 * |cleared| ==>
              (BitSet(cleared, j) <==> j != bit && BitSet(GroupBits(dev.disk, fs, g), j))
      modifies this`counts, dev`disk, txn`blocks
      ensures Sound() && txn.Valid() && Total(counts) == Total(old(counts)) + 1
      ensures forall b: nat :: IsFree(dev.disk, fs, b) <==> (old(IsFree(dev.disk, fs, b)) || b == block)
      ensures OnlyMeta(fs, old(Now(this, txn)), Now(this, txn))
      ensures |counts| == |old(counts)| && CountPinned(txn.blocks, old(dev.disk), fs, g, counts)
    {
      hide FreeBits, OnlyMeta, Pinned, Total, DescriptorImage, Volume, MetaBlocks;
      var bpg := fs.blocksPerGroup;
      OneFreed(GroupBits(dev.disk, fs, g), cleared, bpg, bit);
      forall b | b in MetaBlocks(fs) && GroupOf(bpg, b) == g ensures BitSet(cleared, BitIn(bpg, b)) {
        assert IsAllocated(dev.disk, fs, b);
        SameAddress(bpg, b, block);
      }
      FlushBitmap(txn, g, cleared, counts[g] + 1);
      forall b: nat ensures IsFree(dev.disk, fs, b) <==> (old(IsFree(dev.disk, fs, b)) || b == block) {
        SameAddress(bpg, b, block);
      }
    }

    /** Frees one block and revokes it; an error, and no change, if it is not allocated. */
    method FreeBlock(txn: Transaction, block: nat) returns (r: Result<(), AllocError>)
      requires Valid() && txn.Valid()
      requires block !in MetaBlocks(fs)
      modifies this`counts, this`free, dev`disk, txn`blocks, txn`revoked
      ensures Valid() && txn.Valid()
      ensures r.Ok? <==> block < Volume(fs) && block !in old(free)
      ensures r == Err(DoubleFreed(block)) <==> block in old(free)
      ensures r.Err? ==> dev.disk == old(dev.disk) && counts == old(counts) && free == old(free)
                         && txn.blocks == old(txn.blocks) && txn.revoked == old(txn.revoked)
      ensures r.Ok? ==> free == old(free) + {block}
      ensures r.Ok? ==> Total(counts) == Total(old(counts)) + 1
      ensures r.Ok? ==> txn.revoked == old(txn.revoked) + [block]
      ensures OnlyMeta(fs, old(Now(this, txn)), Now(this, txn))
      ensures r.Ok? ==> GroupOf(fs.blocksPerGroup, block) < |counts|
                        && CountPinned(txn.blocks, old(dev.disk), fs, GroupOf(fs.blocksPerGroup, block), counts)
    {
      hide FreeBits, OnlyMeta, Pinned, Total, DescriptorImage, MetaBlocks, CountPinned, MetaPlaced, Volume, BitSet;
      NothingTouched(fs, Now(this, txn), {});
      var bpg := fs.blocksPerGroup;
      var g, bit := block / bpg, block % bpg;
      SplitAddress(bpg, block);
      VolumeGroups(fs, block);
      if g >= |counts| { return Err(GroupOutOfRange(g)); }
      var bm := new Bitmap(GroupBits(dev.disk, fs, g));
      var done := bm.Free(bit);
      if !done { return Err(DoubleFreed(block)); }
      FlushFreed(txn, block, g, bit, bm.data[..]);
      free := free + {block};
      txn.RevokeBlock(block);
      r := Ok(());
    }
  }

  lemma NoGroupLeft(disk: Disk, fs: Layout, count: nat, hint: nat)
    requires Geometry(fs) && fs.bitmaps != []
    requires forall j :: 0 <= j < |fs.bitmaps| ==> !GroupHasRun(disk, fs, Candidate(fs, hint, j), count)
    ensures forall g :: 0 <= g < |fs.bitmaps| ==> !GroupHasRun(disk, fs, g, count)
  {
    hide GroupHasRun, Candidate;
    forall g | 0 <= g < |fs.bitmaps| ensures !GroupHasRun(disk, fs, g, count) {
      var j := CandidatesCover(fs, hint, g);
    }
  }

  lemma Remainder(n: nat, q: nat, r: nat)
    requires r < n
    ensures BlockAt(n, q, r) % n == r && BlockAt(n, q, r) == BlockAt(n, q, 0) + r
  {
    Address(n, q, r);
    SplitAddress(n, BlockAt(n, q, r));
    Offset(n, q, r);
  }

  lemma NextBlock(n: nat, q: nat)
    ensures BlockAt(n, q + 1, 0) == BlockAt(n, q, 0) + n
  {
  }

  /** The cyclic search looks at every group, and at group `g` after those between the group of the hint
      and `g`. */
  lemma CandidatesCover(fs: Layout, hint: nat, g: nat) returns (i: nat)
    requires Geometry(fs) && g < |fs.bitmaps|
    ensures i < |fs.bitmaps| && Candidate(fs, hint, i) == g
    ensures i == Ahead(|fs.bitmaps|, BitIn(|fs.bitmaps|, GroupOf(fs.blocksPerGroup, hint)), g)
  {
    hide GroupOf, BitIn, BlockAt;
    var n, h := |fs.bitmaps|, GroupOf(fs.blocksPerGroup, hint);
    var q, r := GroupOf(n, h), BitIn(n, h);
    i := Ahead(n, r, g);
    AddressOf(n, h);
    Remainder(n, q, r);
    Remainder(n, q, g);
    Remainder(n, q + 1, g);
    NextBlock(n, q);
  }

  /** The search does not come to the same group twice. */
  lemma CandidateAhead(fs: Layout, hint: nat, i: nat)
    requires Geometry(fs) && i < |fs.bitmaps|
    ensures i == Ahead(|fs.bitmaps|, BitIn(|fs.bitmaps|, GroupOf(fs.blocksPerGroup, hint)), Candidate(fs, hint, i))
  {
    hide GroupOf, BitIn;
    CyclicStep(|fs.bitmaps|, GroupOf(fs.blocksPerGroup, hint), i);
  }

  lemma CyclicStep(n: nat, h: nat, i: nat)
    requires i < n
    ensures (h + i) % n == if BitIn(n, h) + i < n then BitIn(n, h) + i else BitIn(n, h) + i - n
  {
    hide GroupOf, BitIn, BlockAt;
    var q, r := GroupOf(n, h), BitIn(n, h);
    AddressOf(n, h);
    Remainder(n, q, r);
    NextBlock(n, q);
    if r + i < n {
      Remainder(n, q, r + i);
      assert h + i == BlockAt(n, q, r + i);
    } else {
      Remainder(n, q + 1, r + i - n);
      assert h + i == BlockAt(n, q + 1, r + i - n);
    }
  }

  /** A free run by block numbers is a clear run in the bitmap of its group. */
  lemma RunAtIsClear(disk: Disk, fs: Layout, free: set<nat>, b: nat, count: nat)
    requires Geometry(fs) && (forall c: nat :: c in free <==> IsFree(disk, fs, c))
    requires GroupOf(fs.blocksPerGroup, b) < |fs.bitmaps| && BitIn(fs.blocksPerGroup, b) + count <= fs.blocksPerGroup
    ensures Range(b, count) <= free
            <==> ClearRun(GroupBits(disk, fs, GroupOf(fs.blocksPerGroup, b)), BitIn(fs.blocksPerGroup, b), count)
  {
    hide Range, BitSet, GroupBits, GroupOf, BitIn, BlockAt;
    var bpg, g, s := fs.blocksPerGroup, GroupOf(fs.blocksPerGroup, b), BitIn(fs.blocksPerGroup, b);
    if Range(b, count) <= free {
      forall i: nat | s <= i < s + count ensures !BitSet(GroupBits(disk, fs, g), i) {
        Address(bpg, g, i);
        RunAddress(bpg, b, count, BlockAt(bpg, g, i));
        assert BlockAt(bpg, g, i) in Range(b, count);
      }
    }
    if ClearRun(GroupBits(disk, fs, g), s, count) {
      forall c | c in Range(b, count) ensures c in free { RunAddress(bpg, b, count, c); }
    }
  }

  lemma RunAtInGroup(disk: Disk, fs: Layout, free: set<nat>, b: nat, count: nat)
    requires Geometry(fs) && (forall c: nat :: c in free <==> IsFree(disk, fs, c)) && RunAt(fs, free, b, count)
    ensures GroupHasRun(disk, fs, GroupOf(fs.blocksPerGroup, b), count)
    ensures ClearRun(GroupBits(disk, fs, GroupOf(fs.blocksPerGroup, b)), BitIn(fs.blocksPerGroup, b), count)
  {
    hide ClearRun, GroupBits, IsFree, GroupOf, BitIn;
    RunAtIsClear(disk, fs, free, b, count);
  }

  /** What the search by groups and bits finds is the nearest run. */
  lemma FirstFitIsNearest(disk: Disk, fs: Layout, free: set<nat>, count: nat, hint: nat, start: nat)
    requires Geometry(fs) && (forall c: nat :: c in free <==> IsFree(disk, fs, c))
    requires FirstFit(disk, fs, count, hint, start)
    ensures Nearest(fs, free, count, hint, start)
  {
    hide ClearRun, GroupBits, IsFree, Candidate, GroupHasRun, GroupOf, BitIn;
    var bpg := fs.blocksPerGroup;
    RunAtIsClear(disk, fs, free, start, count);
    var i :| 0 <= i < |fs.bitmaps| && GroupOf(bpg, start) == Candidate(fs, hint, i)
             && forall j :: 0 <= j < i ==> !GroupHasRun(disk, fs, Candidate(fs, hint, j), count);
    CandidateAhead(fs, hint, i);
    forall b: nat | RunAt(fs, free, b, count)
      ensures Passed(fs, hint, start) < Passed(fs, hint, b)
              || (Passed(fs, hint, start) == Passed(fs, hint, b) && start <= b)
    {
      RunAtInGroup(disk, fs, free, b, count);
      var j := CandidatesCover(fs, hint, GroupOf(bpg, b));
      if j == i { NotBelow(bpg, start, b); }
    }
  }

  lemma {:induction false} NotBelow(bpg: nat, b: nat, c: nat)
    requires bpg > 0 && GroupOf(bpg, b) == GroupOf(bpg, c) && BitIn(bpg, b) <= BitIn(bpg, c)
    ensures b <= c
  {
    if b >= bpg && c >= bpg { NotBelow(bpg, b - bpg, c - bpg); }
  }

  /** Without a run in any group there is none. */
  lemma NoRunAt(disk: Disk, fs: Layout, free: set<nat>, count: nat)
    requires Geometry(fs) && (forall c: nat :: c in free <==> IsFree(disk, fs, c))
    requires forall g :: 0 <= g < |fs.bitmaps| ==> !GroupHasRun(disk, fs, g, count)
    ensures forall b: nat :: !RunAt(fs, free, b, count)
  {
    hide GroupHasRun, IsFree, GroupBits, ClearRun, GroupOf, BitIn;
    forall b: nat ensures !RunAt(fs, free, b, count) {
      if RunAt(fs, free, b, count) { RunAtInGroup(disk, fs, free, b, count); }
    }
  }

  /** The facts about the block numbers of the run taken from group `g`. */
  lemma RunChosen(disk: Disk, was: Disk, fs: Layout, g: nat, s: nat, count: nat, hint: nat, i: nat, start: nat)
    requires Geometry(fs) && i < |fs.bitmaps| && g == Candidate(fs, hint, i)
    requires LowestRun(GroupBits(was, fs, g), fs.blocksPerGroup, s, count)
    requires forall j :: 0 <= j < i ==> !GroupHasRun(was, fs, Candidate(fs, hint, j), count)
    requires forall h: nat, i: nat :: i < fs.blocksPerGroup ==>
               (FreeIn(disk, fs, h, i) <==> FreeIn(was, fs, h, i) && !(h == g && s <= i < s + count))
    requires start == BlockAt(fs.blocksPerGroup, g, s)
    ensures FirstFit(was, fs, count, hint, start)
    ensures forall b: nat :: IsFree(disk, fs, b) <==> (IsFree(was, fs, b) && !(start <= b < start + count))
    ensures forall b: nat :: start <= b < start + count ==> IsFree(was, fs, b)
  {
    assert count == 0 ==> ClearRun(GroupBits(was, fs, g), 0, 0);
    Address(fs.blocksPerGroup, g, s);
    forall b: nat
      ensures IsFree(disk, fs, b) <==> (IsFree(was, fs, b) && !(start <= b < start + count))
      ensures start <= b < start + count ==> IsFree(was, fs, b)
    {
      RunAddress(fs.blocksPerGroup, start, count, b);
    }
  }

  lemma RunInVolume(disk: Disk, was: Disk, fs: Layout, start: nat, count: nat)
    requires Geometry(fs) && MetaPlaced(was, fs) && GroupOf(fs.blocksPerGroup, start) < |fs.bitmaps|
    requires forall b: nat :: start <= b < start + count ==> IsFree(was, fs, b)
    ensures start + count <= Volume(fs) && Range(start, count) !! MetaBlocks(fs)
  {
    if count > 0 { assert IsFree(was, fs, start + count - 1); }
    VolumeGroups(fs, if count > 0 then start + count - 1 else start);
    forall b | b in MetaBlocks(fs) ensures b !in Range(start, count) {
      assert IsAllocated(was, fs, b);
    }
  }

  /** One block can be allocated exactly when some block is free. */
  lemma SomeBlockFree(disk: Disk, fs: Layout, b: nat)
    requires Geometry(fs) && IsFree(disk, fs, b)
    ensures GroupHasRun(disk, fs, GroupOf(fs.blocksPerGroup, b), 1)
  {
    assert ClearRun(GroupBits(disk, fs, GroupOf(fs.blocksPerGroup, b)), BitIn(fs.blocksPerGroup, b), 1);
  }
}

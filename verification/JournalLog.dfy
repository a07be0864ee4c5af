/** The journal as a ring of blocks on the device, and lists of block writes. */
module JournalLog {
  import opened Base
  import opened Device
  import opened JournalFormat

  /** The geometry of the log: block size, first block of the ring, and number of journal blocks. */
  datatype Ring = Ring(bs: nat, first: nat, total: nat, has64: bool) {
    predicate Valid() { 1 <= first < total && 1024 <= bs }
  }

  /** The contents of the journal blocks, in journal order. */
  type Log = seq<Bytes>

  predicate IsLog(g: Ring, log: Log) {
    g.Valid() && |log| == g.total && forall i :: 0 <= i < |log| ==> |log[i]| == g.bs
  }

  predicate InRing(g: Ring, j: nat) { g.first <= j < g.total }

  /** The position after `j`, wrapping to the first block of the ring. */
  function Next(g: Ring, j: nat): (n: nat)
    requires g.Valid()
    ensures InRing(g, j) ==> InRing(g, n)
  {
    if j + 1 >= g.total then g.first else j + 1
  }

  function Skip(g: Ring, j: nat, n: nat): (r: nat)
    requires g.Valid()
    ensures InRing(g, j) ==> InRing(g, r)
    decreases n
  {
    if n == 0 then j else Skip(g, Next(g, j), n - 1)
  }

  // ---- the journal on the device ----

  /** How far `w` is ahead of `j`. */
  function Distance(g: Ring, j: nat, w: nat): nat
    requires g.Valid() && InRing(g, j) && InRing(g, w)
  {
    if j <= w then w - j else (g.total - j) + (w - g.first)
  }

  /** The log with `blocks` written from position `h` on. */
  function Put(g: Ring, log: Log, h: nat, blocks: seq<Bytes>): (r: Log)
    requires IsLog(g, log) && InRing(g, h) && forall b :: b in blocks ==> |b| == g.bs
    ensures IsLog(g, r)
    decreases |blocks|
  {
    if blocks == [] then log else Put(g, log[h := blocks[0]], Next(g, h), blocks[1..])
  }

  /** The log holds `blocks` from position `h` on. */
  predicate Holds(g: Ring, log: Log, h: nat, blocks: seq<Bytes>)
    requires IsLog(g, log) && InRing(g, h)
    decreases |blocks|
  {
    blocks == [] || (log[h] == blocks[0] && Holds(g, log, Next(g, h), blocks[1..]))
  }

  /** Positions further ahead than the blocks written are untouched. */
  lemma {:induction false} PutFrame(g: Ring, log: Log, h: nat, blocks: seq<Bytes>, p: nat)
    requires IsLog(g, log) && InRing(g, h) && InRing(g, p) && forall b :: b in blocks ==> |b| == g.bs
    requires Distance(g, h, p) >= |blocks|
    ensures Put(g, log, h, blocks)[p] == log[p]
    decreases |blocks|
  {
    if blocks != [] { PutFrame(g, log[h := blocks[0]], Next(g, h), blocks[1..], p); }
  }

  /** What fits the ring does not overwrite itself. */
  lemma {:induction false} PutHolds(g: Ring, log: Log, h: nat, blocks: seq<Bytes>)
    requires IsLog(g, log) && InRing(g, h) && forall b :: b in blocks ==> |b| == g.bs
    requires |blocks| <= g.total - g.first
    ensures Holds(g, Put(g, log, h, blocks), h, blocks)
    decreases |blocks|
  {
    if blocks != [] {
      PutFrame(g, log[h := blocks[0]], Next(g, h), blocks[1..], h);
      PutHolds(g, log[h := blocks[0]], Next(g, h), blocks[1..]);
    }
  }

  /** Every position holds what it held or one of the blocks written. */
  lemma {:induction false} PutFrom(g: Ring, log: Log, h: nat, blocks: seq<Bytes>, p: nat)
    requires IsLog(g, log) && InRing(g, h) && p < g.total && forall b :: b in blocks ==> |b| == g.bs
    ensures Put(g, log, h, blocks)[p] == log[p] || Put(g, log, h, blocks)[p] in blocks
    decreases |blocks|
  {
    if blocks != [] { PutFrom(g, log[h := blocks[0]], Next(g, h), blocks[1..], p); }
  }

  lemma {:induction false} PutTwice(g: Ring, log: Log, h: nat, a: seq<Bytes>, b: seq<Bytes>)
    requires IsLog(g, log) && InRing(g, h) && forall x :: x in a + b ==> |x| == g.bs
    ensures (forall x :: x in a ==> |x| == g.bs) && forall x :: x in b ==> |x| == g.bs
    ensures Put(g, log, h, a + b) == Put(g, Put(g, log, h, a), Skip(g, h, |a|), b)
    decreases |a|
  {
    assert forall x :: x in a ==> x in a + b;
    assert forall x :: x in b ==> x in a + b;
    if a == [] {
      assert a + b == b;
    } else {
      assert (a + b)[1..] == a[1..] + b;
      PutTwice(g, log[h := a[0]], Next(g, h), a[1..], b);
    }
  }

  lemma {:induction false} HoldsBoth(g: Ring, log: Log, h: nat, a: seq<Bytes>, b: seq<Bytes>)
    requires IsLog(g, log) && InRing(g, h)
    ensures Holds(g, log, h, a + b) <==> Holds(g, log, h, a) && Holds(g, log, Skip(g, h, |a|), b)
    decreases |a|
  {
    if a == [] {
      assert a + b == b;
    } else {
      assert (a + b)[1..] == a[1..] + b;
      HoldsBoth(g, log, Next(g, h), a[1..], b);
    }
  }

  /** A loaded journal: the device block of every journal block, and the superblock as it was read. */
  datatype Journal = Journal(blocks: seq<nat>, sb: JournalSuper) {
    function Geometry(bs: nat): Ring { Ring(bs, sb.first, sb.total, sb.Has64Bit()) }

    /** Every block of the ring has a device block of its own. */
    ghost predicate Valid(bs: nat) {
      && Geometry(bs).Valid() && |blocks| >= sb.total
      && forall i, j :: 0 <= i < j < sb.total ==> blocks[i] != blocks[j]
    }

    /** The device blocks of the journal, its superblock included. */
    ghost function Blocks(): set<nat>
      requires |blocks| >= sb.total
    {
      set i | 0 <= i < sb.total :: blocks[i]
    }
  }

  /** The log on a device. */
  function LogOn(disk: Disk, bs: nat, jn: Journal): (log: Log)
    requires jn.Geometry(bs).Valid() && |jn.blocks| >= jn.sb.total
    ensures IsLog(jn.Geometry(bs), log)
    ensures forall i :: 0 <= i < |log| ==> log[i] == ReadAt(disk, bs, jn.blocks[i])
  {
    seq(jn.sb.total, i requires 0 <= i < jn.sb.total => ReadAt(disk, bs, jn.blocks[i]))
  }

  /** The image after some writes, in order. */
  function Applied(disk: Disk, writes: Pins): Disk {
    if writes == [] then disk
    else Applied(disk, writes[..|writes| - 1])[writes[|writes| - 1].0 := writes[|writes| - 1].1]
  }

  /** Every written block has the size of a block. */
  predicate Sized(writes: Pins, bs: nat) {
    forall i :: 0 <= i < |writes| ==> |writes[i].1| == bs
  }

  lemma {:induction false} AppliedView(disk: Disk, writes: Pins, bs: nat, b: nat)
    requires Sized(writes, bs)
    ensures ReadAt(Applied(disk, writes), bs, b) == View(writes, disk, bs, b)
  {
    if writes != [] { AppliedView(disk, writes[..|writes| - 1], bs, b); }
  }

  lemma {:induction false} AppliedTwice(disk: Disk, a: Pins, b: Pins)
    ensures Applied(Applied(disk, a), b) == Applied(disk, a + b)
  {
    if b == [] {
      assert a + b == a;
    } else {
      assert (a + b)[..|a + b| - 1] == a + b[..|b| - 1];
      AppliedTwice(disk, a, b[..|b| - 1]);
    }
  }

  /** None of the writes goes to a block of `s`. */
  ghost predicate Avoids(writes: Pins, s: set<nat>) {
    forall i :: 0 <= i < |writes| ==> writes[i].0 !in s
  }

  lemma AvoidsParts(a: Pins, b: Pins, s: set<nat>)
    requires Avoids(a + b, s)
    ensures Avoids(a, s) && Avoids(b, s)
  {
    forall i | 0 <= i < |a| ensures a[i].0 !in s { assert (a + b)[i] == a[i]; }
    forall i | 0 <= i < |b| ensures b[i].0 !in s { assert (a + b)[|a| + i] == b[i]; }
  }

  lemma {:induction false} AppliedElsewhere(disk: Disk, writes: Pins, s: set<nat>)
    requires Avoids(writes, s)
    ensures forall b :: b in s ==> (b in Applied(disk, writes) <==> b in disk)
                                    && (b in disk ==> Applied(disk, writes)[b] == disk[b])
  {
    if writes != [] { AppliedElsewhere(disk, writes[..|writes| - 1], s); }
  }

  lemma LogUnchanged(disk: Disk, writes: Pins, bs: nat, jn: Journal)
    requires jn.Geometry(bs).Valid() && |jn.blocks| >= jn.sb.total && Avoids(writes, jn.Blocks())
    ensures LogOn(Applied(disk, writes), bs, jn) == LogOn(disk, bs, jn)
  {
    AppliedElsewhere(disk, writes, jn.Blocks());
    var disk' := Applied(disk, writes);
    forall i | 0 <= i < jn.sb.total ensures ReadAt(disk', bs, jn.blocks[i]) == ReadAt(disk, bs, jn.blocks[i]) {
      assert jn.blocks[i] in jn.Blocks();
    }
  }

  /** Writes blocks to the device, in order. */
  method WriteAll(dev: BlockDevice, writes: Pins)
    requires Sized(writes, dev.blockSize)
    modifies dev`disk
    ensures dev.disk == Applied(old(dev.disk), writes)
  {
    var i := 0;
    while i < |writes|
      invariant 0 <= i <= |writes|
      invariant dev.disk == Applied(old(dev.disk), writes[..i])
    {
      dev.Write(writes[i].0, writes[i].1);
      assert writes[..i + 1][..i] == writes[..i];
      i := i + 1;
    }
    assert writes[..i] == writes;
  }

  lemma NothingApplied(disk: Disk, s: set<nat>, bs: nat)
    ensures Applied(disk, []) == disk && Avoids([], s) && Sized([], bs)
  {
  }

  lemma MoreApplied(disk: Disk, done: Pins, pending: Pins, jn: Journal, bs: nat)
    requires jn.Geometry(bs).Valid() && |jn.blocks| >= jn.sb.total
    requires Avoids(done, jn.Blocks()) && Avoids(pending, jn.Blocks()) && Sized(done, bs) && Sized(pending, bs)
    ensures Applied(Applied(disk, done), pending) == Applied(disk, done + pending)
    ensures Avoids(done + pending, jn.Blocks()) && Sized(done + pending, bs)
    ensures LogOn(Applied(disk, done + pending), bs, jn) == LogOn(disk, bs, jn)
  {
    hide LogOn, Journal.Blocks, Applied;
    AppliedTwice(disk, done, pending);
    LogUnchanged(disk, done + pending, bs, jn);
  }
}

/** Mounting: recovery and then a writer, on a device that a crash may have left in the middle of a commit. */
module JournalMount {
  import opened Base
  import opened Device
  import opened JournalFormat
  import opened JournalLog
  import opened JournalReplay
  import opened JournalWriter
  import opened JournalRuns
  import opened JournalRecovery
  import opened JournalHistory

  // ---- the steps of a history on the device ----

  /** The journal on the device and its writer, as a state of a history. */
  ghost function StateOf(disk: Disk, w: JournalWriter): JournalState
    requires w.Valid()
    reads w`writeHead, w`nextSequence
  {
    JournalState(LogOn(disk, w.bs, w.jn), Some(Head(w.writeHead, w.nextSequence)))
  }

  lemma LoadedSuper(disk: Disk, bs: nat, jn: Journal)
    requires 1024 <= bs && jn.Valid(bs) && ParseSuper(ReadAt(disk, bs, jn.blocks[0])) == Ok(jn.sb)
    requires jn.sb.IsClean() || InRing(jn.Geometry(bs), jn.sb.start)
    ensures HasSuper(jn.Geometry(bs), LogOn(disk, bs, jn)) && Super(jn.Geometry(bs), LogOn(disk, bs, jn)) == jn.sb
  {
    hide ParseSuper;
  }

  /** Recovers the journal and builds a writer from the superblock that recovery returns. This is the
      mount step of a history. */
  method OpenJournal(dev: BlockDevice, blocks: seq<nat>) returns (r: Result<JournalWriter, RecoverError>)
    requires 1024 <= dev.blockSize && blocks != []
    requires ParseSuper(ReadAt(dev.disk, dev.blockSize, blocks[0])).Ok? ==>
               Replayable(dev.disk, dev.blockSize,
                          Journal(blocks, ParseSuper(ReadAt(dev.disk, dev.blockSize, blocks[0])).value))
               && ParseSuper(ReadAt(dev.disk, dev.blockSize, blocks[0])).value.blockSize == dev.blockSize
    modifies dev`disk
    ensures var parsed := ParseSuper(old(ReadAt(dev.disk, dev.blockSize, blocks[0])));
            && (r.Ok? <==> parsed.Ok? && parsed.value.errno == 0)
            && (r.Ok? ==> fresh(r.value) && r.value.Valid() && r.value.jn == Journal(blocks, parsed.value)
                          && r.value.bs == dev.blockSize && r.value.uuid == parsed.value.uuid)
    ensures forall raw: RawSuper :: raw.Fits() && raw.Layout() == old(ReadAt(dev.disk, dev.blockSize, blocks[0])) ==>
              && (r.Ok? <==> raw.Usable() && raw.errno == 0)
              && (r.Ok? ==> r.value.jn == Journal(blocks, raw.Super()))
    ensures r.Ok? ==>
              var g, log := r.value.jn.Geometry(dev.blockSize), LogOn(old(dev.disk), dev.blockSize, r.value.jn);
              Mountable(g, log) && StateOf(dev.disk, r.value) == AfterMount(g, JournalState(log, None), false)
  {
    hide ParseSuper, MarkedClean, LogOn, AllRevokes, Pass, Recovered, Replays, RawSuper.Layout, RawSuper.Fits,
      RawSuper.Usable, RawSuper.Fault, RawSuper.Super;
    ghost var was := dev.disk;
    var jn, o := CheckAndRecover(dev, blocks);
    if jn.Err? { return Err(jn.error); }
    LoadedSuper(was, dev.blockSize, jn.value);
    MountedLog(was, jn.value, dev.blockSize, o);
    var w := new JournalWriter(jn.value);
    r := Ok(w);
  }

  lemma MountedLog(disk: Disk, jn: Journal, bs: nat, o: Outcome)
    requires 1024 <= bs && Replayable(disk, bs, jn) && Replays(disk, bs, jn, o)
    requires HasSuper(jn.Geometry(bs), LogOn(disk, bs, jn)) && Super(jn.Geometry(bs), LogOn(disk, bs, jn)) == jn.sb
    ensures LogOn(Recovered(disk, bs, jn, o), bs, jn) == Mounted(jn.Geometry(bs), LogOn(disk, bs, jn))
  {
    hide ParseSuper, MarkedClean, LogOn, AllRevokes, Pass, Recovered;
    RecoveredLog(disk, jn, bs, o);
  }

  lemma AttemptedOwn(t: Txn, s: nat, uuid: Bytes, bs: nat)
    requires t.Sound(bs) && t.refused == [] && |uuid| == UUID_SIZE
    ensures Attempted(t, s, uuid, bs) ==
            if FitsLog(t.pins, bs) then LogBlocks(t.pins, t.revoked, s, uuid, bs) else RevokePart(t.revoked, s, bs)
  {
    hide LogBlocks, RevokePart, Txn.Log;
    if t.Fits(bs) { LogParts(t, s, uuid, bs); }
  }

  /** A commit, refused or not, is a full attempt of a history. */
  method CommitStep(w: JournalWriter, dev: BlockDevice, txn: Transaction) returns (r: Result<(), nat>)
    requires w.Valid() && dev.blockSize == w.bs && HasSuper(w.jn.Geometry(w.bs), LogOn(dev.disk, w.bs, w.jn))
    requires Txn(txn.blocks, txn.revoked, []).Sound(w.bs) && Avoids(txn.blocks, w.jn.Blocks())
    requires txn.sequence == w.nextSequence < U32
    modifies w`writeHead, w`nextSequence, dev`disk
    ensures w.Valid() && (r.Ok? <==> Txn(txn.blocks, txn.revoked, []).Fits(w.bs))
    ensures var g, t := w.jn.Geometry(w.bs), Txn(txn.blocks, txn.revoked, []);
            var full := Attempt(t, |Attempted(t, old(w.nextSequence), w.uuid, w.bs)|);
            && Legal(g, old(StateOf(dev.disk, w)), full, w.uuid)
            && StateOf(dev.disk, w) == AfterStep(g, old(StateOf(dev.disk, w)), full, w.uuid)
  {
    hide HasSuper, LogOn, Skip, LogBlocks, RevokePart, FitsLog, LogWrites, Applied, Put, Journal.Blocks, Attempted,
      Below;
    ghost var was, h, s, t := dev.disk, w.writeHead, w.nextSequence, Txn(txn.blocks, txn.revoked, []);
    ghost var whole := Attempted(t, s, w.uuid, w.bs);
    AttemptBelow(t, s, w.uuid, w.bs, |whole|);
    assert whole[..|whole|] == whole;
    AttemptedOwn(t, s, w.uuid, w.bs);
    r := w.Commit(dev, txn);
    CommitLog(was, w.jn, w.bs, h, whole, if r.Ok? then txn.blocks else []);
    assert LogWrites(w.jn, w.bs, h, whole) + [] == LogWrites(w.jn, w.bs, h, whole);
  }

  // ---- recovery after a crash ----

  /** A writer began on `before` at position `h` with number `s`; it committed `txns`, and went down with
      `k` block writes of `t` done. `jn` carries the superblock that the device has, which need not be the
      one the writer was built from. */
  ghost predicate WentDown(before: Disk, jn: Journal, bs: nat, h: nat, s: nat, txns: seq<Txn>, t: Txn, uuid: Bytes,
                           k: nat) {
    && jn.Valid(bs) && InRing(jn.Geometry(bs), h) && AllFit(txns, bs) && t.Fits(bs) && |uuid| == UUID_SIZE
    && s + |txns| < U32 && k <= |t.Log(s + |txns|, uuid, bs)| + |t.pins|
    && Avoids(AllPins(txns), jn.Blocks()) && Avoids(t.pins, jn.Blocks())
  }

  /** How many log blocks the commit that was cut short makes. */
  ghost function LogSize(t: Txn, s: nat, uuid: Bytes, bs: nat): nat
    requires t.Fits(bs) && |uuid| == UUID_SIZE
  {
    |t.Log(s, uuid, bs)|
  }

  /** The superblock records where the run began, and replay can restore the run. */
  ghost predicate Recorded(before: Disk, jn: Journal, bs: nat, h: nat, s: nat, txns: seq<Txn>, t: Txn, uuid: Bytes) {
    jn.sb.start == h && jn.sb.startSequence == s && Recoverable(before, jn, bs, h, s, txns, t, uuid)
  }

  /** A crash does not reach the superblock. */
  lemma DownSuper(before: Disk, jn: Journal, bs: nat, h: nat, s: nat, txns: seq<Txn>, t: Txn, uuid: Bytes, k: nat)
    requires WentDown(before, jn, bs, h, s, txns, t, uuid, k)
    ensures ReadAt(Crashed(before, jn, bs, h, s, txns, t, uuid, k), bs, jn.blocks[0])
            == ReadAt(before, bs, jn.blocks[0])
  {
    hide LogOn, Put, Journal.Blocks, Txn.Log, RunLog, Crashed, Skip;
    var g := jn.Geometry(bs);
    CrashedLog(before, jn, bs, h, s, txns, t, uuid, k);
    PutSuper(g, LogOn(before, bs, jn), h, LoggedSoFar(txns, t, s, uuid, bs, Min(k, |t.Log(s + |txns|, uuid, bs)|)));
  }

  /** Replay of the crashed image stays out of the journal and restores what was committed. */
  lemma CrashReplays(before: Disk, jn: Journal, bs: nat, h: nat, s: nat, txns: seq<Txn>, t: Txn, uuid: Bytes, k: nat)
    requires WentDown(before, jn, bs, h, s, txns, t, uuid, k) && Recorded(before, jn, bs, h, s, txns, t, uuid)
    requires !AllRevokes(jn.Geometry(bs), LogOn(Crashed(before, jn, bs, h, s, txns, t, uuid, k), bs, jn), s)
    ensures var g, crashed := jn.Geometry(bs), Crashed(before, jn, bs, h, s, txns, t, uuid, k);
            var run := Committed(txns, t, LogSize(t, s + |txns|, uuid, bs), k);
            && PassAvoids(g, LogOn(crashed, bs, jn), h, s, jn.Blocks())
            && var o := Pass(g, LogOn(crashed, bs, jn), h, s).value;
               o.sequence == s + |run| && Reads(Applied(crashed, o.writes), jn, bs, before, run)
  {
    hide LogOn, Journal.Blocks, Txn.Log, RunLog, RestSafe, AllRestorable, Crashed, Pass, AllRevokes, Reads, Applied,
      Avoids;
    CrashConsistency(before, jn, bs, h, s, txns, t, uuid, k);
  }

  /** Recovery after a crash. If the superblock records the start of the run, the filesystem reads as the
      transactions left it whose commit block was written, and the superblock left on the device carries
      the number after them. If it says clean, recovery leaves the crashed image as it is, whatever the
      writer had logged and wherever. */
  method RecoverCrashed(dev: BlockDevice, ghost before: Disk, jn: Journal, ghost h: nat, ghost s: nat,
                        ghost txns: seq<Txn>,
                        ghost t: Txn, ghost uuid: Bytes, ghost k: nat) returns (r: Result<Journal, RecoverError>)
    requires 1024 <= dev.blockSize && WentDown(before, jn, dev.blockSize, h, s, txns, t, uuid, k)
    requires dev.disk == Crashed(before, jn, dev.blockSize, h, s, txns, t, uuid, k)
    requires jn.blocks != [] && ParseSuper(ReadAt(before, dev.blockSize, jn.blocks[0])) == Ok(jn.sb) && jn.sb.errno == 0
    requires !jn.sb.IsClean() ==>
               && Recorded(before, jn, dev.blockSize, h, s, txns, t, uuid)
               && !AllRevokes(jn.Geometry(dev.blockSize), LogOn(dev.disk, dev.blockSize, jn), s)
    modifies dev`disk
    ensures r == Ok(jn)
    ensures jn.sb.IsClean() ==> dev.disk == old(dev.disk)
    ensures !jn.sb.IsClean() ==>
              var run := Committed(txns, t, LogSize(t, s + |txns|, uuid, dev.blockSize), k);
              && Reads(dev.disk, jn, dev.blockSize, before, run)
              && ParseSuper(ReadAt(dev.disk, dev.blockSize, jn.blocks[0]))
                 == Ok(jn.sb.(start := 0, startSequence := (s + |run|) % U32))
  {
    hide LogOn, Put, Journal.Blocks, Txn.Log, RunLog, RestSafe, AllRestorable, Crashed, ParseSuper, MarkedClean, Pass,
      AllRevokes, Reads, PassAvoids, Applied, Avoids, Sized, Recoverable;
    DownSuper(before, jn, dev.blockSize, h, s, txns, t, uuid, k);
    if !jn.sb.IsClean() { CrashReplays(before, jn, dev.blockSize, h, s, txns, t, uuid, k); }
    ghost var was, o := dev.disk, Outcome([], 0);
    r, o := CheckAndRecover(dev, jn.blocks);
    if !jn.sb.IsClean() {
      ReadsRecovered(was, jn, dev.blockSize, o, before,
                     Committed(txns, t, LogSize(t, s + |txns|, uuid, dev.blockSize), k));
    }
  }

  /** Marking the journal clean changes nothing outside it. */
  lemma ReadsRecovered(disk: Disk, jn: Journal, bs: nat, o: Outcome, before: Disk, run: seq<Txn>)
    requires 1024 <= bs && jn.Valid(bs) && !jn.sb.IsClean() && Reads(Applied(disk, o.writes), jn, bs, before, run)
    ensures Reads(Recovered(disk, bs, jn, o), jn, bs, before, run)
  {
    hide Applied, MarkedClean, View, AllPins;
    assert jn.blocks[0] in jn.Blocks();
    assert forall x: nat :: x !in jn.Blocks() ==>
        ReadAt(Recovered(disk, bs, jn, o), bs, x) == ReadAt(Applied(disk, o.writes), bs, x);
  }

  // ---- a crash that recovery does not undo ----

  /** What of `t` is in its place when its first `k` block writes are done. */
  function HomePart(t: Txn, logged: nat, k: nat): Pins
    requires k <= logged + |t.pins|
  {
    if k <= logged then [] else t.pins[..k - logged]
  }

  /** Outside the journal the crashed image reads as the run left it, with the home writes that were done. */
  lemma CrashedReads(before: Disk, jn: Journal, bs: nat, h: nat, s: nat, txns: seq<Txn>, t: Txn, uuid: Bytes, k: nat,
                     x: nat)
    requires jn.Valid(bs) && InRing(jn.Geometry(bs), h) && AllFit(txns, bs) && t.Fits(bs) && |uuid| == UUID_SIZE
    requires k <= |t.Log(s + |txns|, uuid, bs)| + |t.pins| && x !in jn.Blocks()
    ensures ReadAt(Crashed(before, jn, bs, h, s, txns, t, uuid, k), bs, x)
            == View(AllPins(txns) + HomePart(t, |t.Log(s + |txns|, uuid, bs)|, k), before, bs, x)
  {
    hide Journal.Blocks, Skip, Txn.Log, RunWrites, RunLog, CommitWrites, Pinned, Applied;
    var n, h' := |t.Log(s + |txns|, uuid, bs)|, Skip(jn.Geometry(bs), h, |RunLog(txns, s, uuid, bs)|);
    CrashedHome(jn, bs, h, s, txns, t, uuid, k, x);
    AppliedLookup(before, RunWrites(jn, bs, h, s, txns, uuid) + CommitWrites(jn, bs, h', s + |txns|, t, uuid)[..k], x);
    HomeSized(txns, t, bs, n, k);
    PinnedSized(AllPins(txns) + HomePart(t, n, k), bs, x);
  }

  lemma HomeSized(txns: seq<Txn>, t: Txn, bs: nat, n: nat, k: nat)
    requires AllFit(txns, bs) && t.Fits(bs) && k <= n + |t.pins|
    ensures Sized(AllPins(txns) + HomePart(t, n, k), bs)
  {
    AllPinsSized(txns, bs);
  }

  /** Without replay a commit is not atomic, wherever and under whatever number it was logged. If every
      block of `t` is pinned once and changes, the crashed image reads as the run without `t` or with it
      exactly when the home writes of `t` were not begun or all done: in between it is neither. */
  lemma TornExactly(before: Disk, jn: Journal, bs: nat, h: nat, s: nat, txns: seq<Txn>, t: Txn, uuid: Bytes, k: nat)
    requires jn.Valid(bs) && InRing(jn.Geometry(bs), h) && AllFit(txns, bs) && t.Fits(bs) && |uuid| == UUID_SIZE
    requires k <= |t.Log(s + |txns|, uuid, bs)| + |t.pins| && Avoids(t.pins, jn.Blocks()) && DistinctPins(t.pins)
    requires forall i :: 0 <= i < |t.pins| ==> t.pins[i].1 != View(AllPins(txns), before, bs, t.pins[i].0)
    ensures var disk, n := Crashed(before, jn, bs, h, s, txns, t, uuid, k), LogSize(t, s + |txns|, uuid, bs);
            && (Reads(disk, jn, bs, before, txns) <==> k <= n)
            && (Reads(disk, jn, bs, before, txns + [t]) <==> t.pins == [] || k == n + |t.pins|)
  {
    hide Crashed, Txn.Log, View, Journal.Blocks, AllPins;
    var disk, n := Crashed(before, jn, bs, h, s, txns, t, uuid, k), |t.Log(s + |txns|, uuid, bs)|;
    AllPinsSnoc(txns, t);
    forall x: nat | x !in jn.Blocks()
      ensures ReadAt(disk, bs, x) == View(AllPins(txns) + HomePart(t, n, k), before, bs, x)
    {
      CrashedReads(before, jn, bs, h, s, txns, t, uuid, k, x);
    }
    PartlyHome(AllPins(txns), t.pins, if k <= n then 0 else k - n, before, bs, jn.Blocks());
  }

  /** The two images agree outside `s`. */
  ghost predicate SameView(a: Pins, b: Pins, disk: Disk, bs: nat, s: set<nat>) {
    forall x: nat :: x !in s ==> View(a, disk, bs, x) == View(b, disk, bs, x)
  }

  /** Of changes to different blocks, the first `m` amount to none, or to all, only if they are. */
  lemma PartlyHome(a: Pins, pins: Pins, m: nat, disk: Disk, bs: nat, s: set<nat>)
    requires DistinctPins(pins) && m <= |pins| && Avoids(pins, s)
    requires forall i :: 0 <= i < |pins| ==> pins[i].1 != View(a, disk, bs, pins[i].0)
    ensures SameView(a + pins[..m], a, disk, bs, s) <==> m == 0
    ensures SameView(a + pins[..m], a + pins, disk, bs, s) <==> m == |pins|
  {
    hide View;
    assert a + [] == a && pins[..|pins|] == pins;
    if m > 0 {
      PinnedLast(a, pins[..m], disk, bs, 0);
      assert View(a + pins[..m], disk, bs, pins[0].0) != View(a, disk, bs, pins[0].0);
    }
    if m < |pins| {
      PinnedLast(a, pins, disk, bs, m);
      NotPinned(a, pins[..m], disk, bs, pins[m].0);
      assert View(a + pins[..m], disk, bs, pins[m].0) != View(a + pins, disk, bs, pins[m].0);
    }
  }

  lemma PinnedLast(a: Pins, b: Pins, disk: Disk, bs: nat, i: nat)
    requires DistinctPins(b) && i < |b|
    ensures View(a + b, disk, bs, b[i].0) == b[i].1
  {
    PinnedAt(b, b[i].0);
    PinnedConcat(a, b, b[i].0);
  }

  lemma NotPinned(a: Pins, b: Pins, disk: Disk, bs: nat, x: nat)
    requires DistinctPins(b) && forall i :: 0 <= i < |b| ==> b[i].0 != x
    ensures View(a + b, disk, bs, x) == View(a, disk, bs, x)
  {
    PinnedAt(b, x);
    PinnedConcat(a, b, x);
  }
}

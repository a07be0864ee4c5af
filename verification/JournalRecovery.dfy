/** Crash and recovery on the device: what a mounted filesystem finds after a commit was cut short at
    any block write, after recovery was itself cut short, and what recovery leaves in the superblock. */
module JournalRecovery {
  import opened Base
  import opened Device
  import opened JournalFormat
  import opened JournalLog
  import opened JournalReplay
  import opened JournalWriter
  import opened JournalRuns

  // ---- lists of writes ----

  lemma {:induction false} PinnedConcat(a: Pins, b: Pins, x: nat)
    ensures Pinned(a + b, x) == if Pinned(b, x).Some? then Pinned(b, x) else Pinned(a, x)
  {
    if b == [] {
      assert a + b == a;
    } else {
      assert (a + b)[..|a + b| - 1] == a + b[..|b| - 1];
      PinnedConcat(a, b[..|b| - 1], x);
    }
  }

  /** Writing a prefix of some writes before all of them makes no difference. */
  lemma PrefixFirst(prefix: Pins, all: Pins, x: nat)
    requires prefix <= all
    ensures Pinned(prefix + all, x) == Pinned(all, x)
  {
    PinnedConcat(prefix, all, x);
    PinnedConcat(prefix, all[|prefix|..], x);
    assert prefix + all[|prefix|..] == all;
  }

  lemma {:induction false} AppliedLookup(disk: Disk, writes: Pins, x: nat)
    ensures x in Applied(disk, writes) <==> Pinned(writes, x).Some? || x in disk
    ensures x in Applied(disk, writes) ==>
              Applied(disk, writes)[x] == if Pinned(writes, x).Some? then Pinned(writes, x).value else disk[x]
  {
    if writes != [] { AppliedLookup(disk, writes[..|writes| - 1], x); }
  }

  lemma PrefixThenAll(disk: Disk, prefix: Pins, all: Pins)
    requires prefix <= all
    ensures Applied(Applied(disk, prefix), all) == Applied(disk, all)
  {
    hide Applied, Pinned;
    AppliedTwice(disk, prefix, all);
    forall x: nat
      ensures x in Applied(disk, prefix + all) <==> x in Applied(disk, all)
      ensures x in Applied(disk, all) ==> Applied(disk, prefix + all)[x] == Applied(disk, all)[x]
    {
      AppliedLookup(disk, prefix + all, x);
      AppliedLookup(disk, all, x);
      PrefixFirst(prefix, all, x);
    }
  }

  /** Recovery is idempotent: however many of its in-place writes were done before it was cut short,
      running it again finds the same log, comes to the same outcome, and ends in the same image. */
  lemma RecoveryIsIdempotent(disk: Disk, jn: Journal, bs: nat, j: nat, s: nat, k: nat)
    requires jn.Valid(bs) && InRing(jn.Geometry(bs), j) && !AllRevokes(jn.Geometry(bs), LogOn(disk, bs, jn), s)
    requires var o := Pass(jn.Geometry(bs), LogOn(disk, bs, jn), j, s).value;
             Avoids(o.writes, jn.Blocks()) && k <= |o.writes|
    ensures var o := Pass(jn.Geometry(bs), LogOn(disk, bs, jn), j, s).value;
            var again := Applied(disk, o.writes[..k]);
            && Pass(jn.Geometry(bs), LogOn(again, bs, jn), j, s) == Some(o)
            && Applied(again, o.writes) == Applied(disk, o.writes)
  {
    hide Pass, Applied, LogOn, Journal.Blocks, AllRevokes;
    var o := Pass(jn.Geometry(bs), LogOn(disk, bs, jn), j, s).value;
    LogUnchanged(disk, o.writes[..k], bs, jn);
    PrefixThenAll(disk, o.writes[..k], o.writes);
  }

  // ---- crash and recovery ----

  lemma {:induction false} PutOnDevice(disk: Disk, jn: Journal, bs: nat, h: nat, blocks: seq<Bytes>)
    requires jn.Valid(bs) && InRing(jn.Geometry(bs), h) && forall b :: b in blocks ==> |b| == bs
    ensures LogOn(Applied(disk, LogWrites(jn, bs, h, blocks)), bs, jn)
            == Put(jn.Geometry(bs), LogOn(disk, bs, jn), h, blocks)
    decreases |blocks|
  {
    hide LogOn;
    if blocks != [] {
      var g, w, next := jn.Geometry(bs), (jn.blocks[h], blocks[0]), Next(jn.Geometry(bs), h);
      AppliedTwice(disk, [w], LogWrites(jn, bs, next, blocks[1..]));
      OneWrite(disk, jn, bs, h, blocks[0]);
      PutOnDevice(Applied(disk, [w]), jn, bs, next, blocks[1..]);
    } else {
      NothingApplied(disk, {}, bs);
    }
  }

  lemma OneWrite(disk: Disk, jn: Journal, bs: nat, h: nat, data: Bytes)
    requires jn.Valid(bs) && InRing(jn.Geometry(bs), h) && |data| == bs
    ensures LogOn(Applied(disk, [(jn.blocks[h], data)]), bs, jn) == LogOn(disk, bs, jn)[h := data]
  {
    var w: Pins := [(jn.blocks[h], data)];
    NothingApplied(disk, {}, bs);
    assert w[..|w| - 1] == [];
    assert Applied(disk, w) == disk[jn.blocks[h] := data];
  }

  lemma {:induction false} LogWritesInJournal(jn: Journal, bs: nat, h: nat, blocks: seq<Bytes>, x: nat)
    requires jn.Valid(bs) && InRing(jn.Geometry(bs), h) && x !in jn.Blocks()
    ensures Pinned(LogWrites(jn, bs, h, blocks), x) == None
    decreases |blocks|
  {
    if blocks != [] {
      var rest := LogWrites(jn, bs, Next(jn.Geometry(bs), h), blocks[1..]);
      LogWritesInJournal(jn, bs, Next(jn.Geometry(bs), h), blocks[1..], x);
      assert jn.blocks[h] in jn.Blocks();
      PinnedConcat([(jn.blocks[h], blocks[0])], rest, x);
      assert [(jn.blocks[h], blocks[0])][..0] == [];
    }
  }

  /** All block writes of one commit: the log, then the blocks' own places. */
  function CommitWrites(jn: Journal, bs: nat, h: nat, s: nat, t: Txn, uuid: Bytes): Pins
    requires jn.Geometry(bs).Valid() && |jn.blocks| >= jn.sb.total && InRing(jn.Geometry(bs), h)
    requires t.Fits(bs) && |uuid| == UUID_SIZE
  {
    LogWrites(jn, bs, h, t.Log(s, uuid, bs)) + t.pins
  }

  /** All block writes of a run of commits. */
  function RunWrites(jn: Journal, bs: nat, h: nat, s: nat, txns: seq<Txn>, uuid: Bytes): Pins
    requires jn.Geometry(bs).Valid() && |jn.blocks| >= jn.sb.total && InRing(jn.Geometry(bs), h)
    requires AllFit(txns, bs) && |uuid| == UUID_SIZE
    decreases |txns|
  {
    if txns == [] then []
    else
      CommitWrites(jn, bs, h, s, txns[0], uuid)
      + RunWrites(jn, bs, Skip(jn.Geometry(bs), h, |txns[0].Log(s, uuid, bs)|), s + 1, txns[1..], uuid)
  }

  /** The home writes of a commit do not touch the log. */
  lemma CommitLog(disk: Disk, jn: Journal, bs: nat, h: nat, blocks: seq<Bytes>, pins: Pins)
    requires jn.Valid(bs) && InRing(jn.Geometry(bs), h) && (forall b :: b in blocks ==> |b| == bs)
    requires Avoids(pins, jn.Blocks())
    ensures LogOn(Applied(disk, LogWrites(jn, bs, h, blocks) + pins), bs, jn)
            == Put(jn.Geometry(bs), LogOn(disk, bs, jn), h, blocks)
  {
    hide LogOn, Applied, Put, Journal.Blocks;
    AppliedTwice(disk, LogWrites(jn, bs, h, blocks), pins);
    PutOnDevice(disk, jn, bs, h, blocks);
    LogUnchanged(Applied(disk, LogWrites(jn, bs, h, blocks)), pins, bs, jn);
  }

  /** After a run of commits the device holds the log of the run. */
  lemma {:induction false} RunOnDevice(disk: Disk, jn: Journal, bs: nat, h: nat, s: nat, txns: seq<Txn>, uuid: Bytes)
    requires jn.Valid(bs) && InRing(jn.Geometry(bs), h) && AllFit(txns, bs) && |uuid| == UUID_SIZE
    requires Avoids(AllPins(txns), jn.Blocks())
    ensures LogOn(Applied(disk, RunWrites(jn, bs, h, s, txns, uuid)), bs, jn)
            == Put(jn.Geometry(bs), LogOn(disk, bs, jn), h, RunLog(txns, s, uuid, bs))
    decreases |txns|
  {
    hide LogOn, Applied, Put, Journal.Blocks, Skip, Txn.Log;
    if txns != [] {
      var g, t, rest := jn.Geometry(bs), txns[0], txns[1..];
      var whole := t.Log(s, uuid, bs);
      var h', disk' := Skip(g, h, |whole|), Applied(disk, CommitWrites(jn, bs, h, s, t, uuid));
      AvoidsParts(t.pins, AllPins(rest), jn.Blocks());
      TxnLogSized(t, s, uuid, bs);
      CommitLog(disk, jn, bs, h, whole, t.pins);
      AppliedTwice(disk, CommitWrites(jn, bs, h, s, t, uuid), RunWrites(jn, bs, h', s + 1, rest, uuid));
      RunOnDevice(disk', jn, bs, h', s + 1, rest, uuid);
      PutTwice(g, LogOn(disk, bs, jn), h, whole, RunLog(rest, s + 1, uuid, bs));
    } else {
      NothingApplied(disk, {}, bs);
      PutNothing(jn.Geometry(bs), LogOn(disk, bs, jn), h);
    }
  }

  lemma PutNothing(g: Ring, log: Log, h: nat)
    requires IsLog(g, log) && InRing(g, h)
    ensures Put(g, log, h, []) == log
  {
  }

  /** Outside the journal a run of commits writes what was pinned, in order. */
  lemma {:induction false} RunHome(jn: Journal, bs: nat, h: nat, s: nat, txns: seq<Txn>, uuid: Bytes, x: nat)
    requires jn.Valid(bs) && InRing(jn.Geometry(bs), h) && AllFit(txns, bs) && |uuid| == UUID_SIZE && x !in jn.Blocks()
    ensures Pinned(RunWrites(jn, bs, h, s, txns, uuid), x) == Pinned(AllPins(txns), x)
    decreases |txns|
  {
    hide Journal.Blocks, Skip, Txn.Log, LogWrites, Pinned;
    if txns != [] {
      var g, t, rest := jn.Geometry(bs), txns[0], txns[1..];
      var whole := t.Log(s, uuid, bs);
      var later := RunWrites(jn, bs, Skip(g, h, |whole|), s + 1, rest, uuid);
      LogWritesInJournal(jn, bs, h, whole, x);
      PinnedConcat(LogWrites(jn, bs, h, whole), t.pins, x);
      PinnedConcat(CommitWrites(jn, bs, h, s, t, uuid), later, x);
      RunHome(jn, bs, Skip(g, h, |whole|), s + 1, rest, uuid, x);
      PinnedConcat(t.pins, AllPins(rest), x);
    }
  }

  lemma {:induction false} LogWritesPrefix(jn: Journal, bs: nat, h: nat, blocks: seq<Bytes>, k: nat)
    requires jn.Valid(bs) && InRing(jn.Geometry(bs), h) && k <= |blocks|
    ensures LogWrites(jn, bs, h, blocks)[..k] == LogWrites(jn, bs, h, blocks[..k])
    decreases |blocks|
  {
    hide Next;
    if k > 0 {
      assert blocks[..k][1..] == blocks[1..][..k - 1];
      LogWritesPrefix(jn, bs, Next(jn.Geometry(bs), h), blocks[1..], k - 1);
    }
  }

  /** The writes of a commit that was cut short: a prefix of the log, or the log and a prefix of the
      home writes. */
  lemma PartialCommit(jn: Journal, bs: nat, h: nat, s: nat, t: Txn, uuid: Bytes, k: nat)
    requires jn.Valid(bs) && InRing(jn.Geometry(bs), h) && t.Fits(bs) && |uuid| == UUID_SIZE
    requires k <= |CommitWrites(jn, bs, h, s, t, uuid)|
    ensures var whole := t.Log(s, uuid, bs);
            CommitWrites(jn, bs, h, s, t, uuid)[..k] ==
            if k <= |whole| then LogWrites(jn, bs, h, whole[..k]) + []
            else LogWrites(jn, bs, h, whole[..|whole|]) + t.pins[..k - |whole|]
  {
    hide LogWrites, Txn.Log;
    var whole := t.Log(s, uuid, bs);
    if k <= |whole| { LogWritesPrefix(jn, bs, h, whole, k); } else { assert whole[..|whole|] == whole; }
  }

  /** The state after a crash: the run `txns` is committed, and of `t` the first `k` block writes are done. */
  function Crashed(disk: Disk, jn: Journal, bs: nat, h: nat, s: nat, txns: seq<Txn>, t: Txn, uuid: Bytes, k: nat): Disk
    requires jn.Geometry(bs).Valid() && |jn.blocks| >= jn.sb.total && InRing(jn.Geometry(bs), h)
    requires AllFit(txns, bs) && t.Fits(bs) && |uuid| == UUID_SIZE
    requires k <= |t.Log(s + |txns|, uuid, bs)| + |t.pins|
  {
    var h' := Skip(jn.Geometry(bs), h, |RunLog(txns, s, uuid, bs)|);
    Applied(disk, RunWrites(jn, bs, h, s, txns, uuid) + CommitWrites(jn, bs, h', s + |txns|, t, uuid)[..k])
  }

  /** The journal blocks after that crash: home writes do not touch them. */
  function CrashedJournal(log: Log, g: Ring, h: nat, s: nat, txns: seq<Txn>, t: Txn, uuid: Bytes, k: nat): Log
    requires IsLog(g, log) && InRing(g, h) && AllFit(txns, g.bs) && t.Fits(g.bs) && |uuid| == UUID_SIZE
    requires s + |txns| < U32
  {
    Put(g, log, h, LoggedSoFar(txns, t, s, uuid, g.bs, Min(k, |t.Log(s + |txns|, uuid, g.bs)|)))
  }

  lemma CrashedLog(disk: Disk, jn: Journal, bs: nat, h: nat, s: nat, txns: seq<Txn>, t: Txn, uuid: Bytes, k: nat)
    requires jn.Valid(bs) && InRing(jn.Geometry(bs), h) && AllFit(txns, bs) && t.Fits(bs) && |uuid| == UUID_SIZE
    requires Avoids(AllPins(txns), jn.Blocks()) && Avoids(t.pins, jn.Blocks()) && s + |txns| < U32
    requires k <= |t.Log(s + |txns|, uuid, bs)| + |t.pins|
    ensures LogOn(Crashed(disk, jn, bs, h, s, txns, t, uuid, k), bs, jn)
            == CrashedJournal(LogOn(disk, bs, jn), jn.Geometry(bs), h, s, txns, t, uuid, k)
  {
    hide LogOn, Applied, Put, Journal.Blocks, Skip, Txn.Log, LogWrites, RunWrites, RunLog, CommitWrites;
    var g, whole, run := jn.Geometry(bs), t.Log(s + |txns|, uuid, bs), RunLog(txns, s, uuid, bs);
    var h', part := Skip(g, h, |run|), whole[..Min(k, |whole|)];
    var writes, disk' := RunWrites(jn, bs, h, s, txns, uuid), Applied(disk, RunWrites(jn, bs, h, s, txns, uuid));
    CommitLength(jn, bs, h', s + |txns|, t, uuid);
    PrefixBelow(txns, t, s, uuid, bs, Min(k, |whole|));
    PartialCommit(jn, bs, h', s + |txns|, t, uuid, k);
    AppliedTwice(disk, writes, CommitWrites(jn, bs, h', s + |txns|, t, uuid)[..k]);
    RunOnDevice(disk, jn, bs, h, s, txns, uuid);
    AvoidsPrefix(t.pins, jn.Blocks(), if k <= |whole| then 0 else k - |whole|);
    forall b | b in part ensures |b| == bs { assert b in run + part; }
    CommitLog(disk', jn, bs, h', part, if k <= |whole| then [] else t.pins[..k - |whole|]);
    PutTwice(g, LogOn(disk, bs, jn), h, run, part);
  }

  lemma CommitLength(jn: Journal, bs: nat, h: nat, s: nat, t: Txn, uuid: Bytes)
    requires jn.Valid(bs) && InRing(jn.Geometry(bs), h) && t.Fits(bs) && |uuid| == UUID_SIZE
    ensures |CommitWrites(jn, bs, h, s, t, uuid)| == |t.Log(s, uuid, bs)| + |t.pins|
  {
    hide Txn.Log;
  }

  lemma AvoidsPrefix(pins: Pins, s: set<nat>, k: nat)
    requires Avoids(pins, s) && k <= |pins|
    ensures Avoids(pins[..k], s) && Avoids([], s)
  {
  }

  /** Outside the journal the crashed image holds what the run pinned, and then a prefix of what `t` did. */
  lemma CrashedHome(jn: Journal, bs: nat, h: nat, s: nat, txns: seq<Txn>, t: Txn, uuid: Bytes, k: nat, x: nat)
    requires jn.Valid(bs) && InRing(jn.Geometry(bs), h) && AllFit(txns, bs) && t.Fits(bs) && |uuid| == UUID_SIZE
    requires k <= |t.Log(s + |txns|, uuid, bs)| + |t.pins| && x !in jn.Blocks()
    ensures var h', n := Skip(jn.Geometry(bs), h, |RunLog(txns, s, uuid, bs)|), |t.Log(s + |txns|, uuid, bs)|;
            && k <= |CommitWrites(jn, bs, h', s + |txns|, t, uuid)|
            && Pinned(RunWrites(jn, bs, h, s, txns, uuid) + CommitWrites(jn, bs, h', s + |txns|, t, uuid)[..k], x)
               == Pinned(AllPins(txns) + (if k <= n then [] else t.pins[..k - n]), x)
  {
    hide Journal.Blocks, Skip, Txn.Log, LogWrites, Pinned, RunWrites, RunLog, CommitWrites;
    var g, whole := jn.Geometry(bs), t.Log(s + |txns|, uuid, bs);
    var h' := Skip(g, h, |RunLog(txns, s, uuid, bs)|);
    CommitLength(jn, bs, h', s + |txns|, t, uuid);
    PartialCommit(jn, bs, h', s + |txns|, t, uuid, k);
    var home := if k <= |whole| then [] else t.pins[..k - |whole|];
    var part := whole[..Min(k, |whole|)];
    RunHome(jn, bs, h, s, txns, uuid, x);
    LogWritesInJournal(jn, bs, h', part, x);
    PinnedConcat(LogWrites(jn, bs, h', part), home, x);
    PinnedConcat(RunWrites(jn, bs, h, s, txns, uuid), CommitWrites(jn, bs, h', s + |txns|, t, uuid)[..k], x);
    PinnedConcat(AllPins(txns), home, x);
  }

  lemma {:induction false} AllPinsSnoc(txns: seq<Txn>, t: Txn)
    ensures AllPins(txns + [t]) == AllPins(txns) + t.pins
  {
    if txns == [] {
      assert ([] + [t])[1..] == [];
    } else {
      assert (txns + [t])[1..] == txns[1..] + [t];
      AllPinsSnoc(txns[1..], t);
    }
  }

  lemma {:induction false} RestorablePrefix(txns: seq<Txn>, t: Txn, revoked: set<nat>, g: Ring)
    requires AllFit(txns, g.bs) && t.Fits(g.bs) && AllRestorable(txns + [t], revoked, g)
    ensures AllRestorable(txns, revoked, g)
    decreases |txns|
  {
    hide Restorable, Txn.Revokes;
    if txns != [] {
      assert (txns + [t])[1..] == txns[1..] + [t];
      RestorablePrefix(txns[1..], t, revoked + txns[0].Revokes(g.bs), g);
    }
  }

  lemma {:induction false} AllPinsSized(txns: seq<Txn>, bs: nat)
    requires AllFit(txns, bs)
    ensures Sized(AllPins(txns), bs)
  {
    if txns != [] {
      assert txns[0].Fits(bs);
      AllPinsSized(txns[1..], bs);
    }
  }

  /** Replay of the log on `disk`, from position `h` and sequence `s`, ends after `run` and stays out of
      the journal, with every block outside it as the pins of the run make it on `before`. */
  ghost predicate Restores(disk: Disk, jn: Journal, bs: nat, h: nat, s: nat, before: Disk, run: seq<Txn>)
    requires jn.Valid(bs) && InRing(jn.Geometry(bs), h)
  {
    match Pass(jn.Geometry(bs), LogOn(disk, bs, jn), h, s)
    case None => run == []
    case Some(o) =>
      && o.sequence == s + |run| && Avoids(o.writes, jn.Blocks())
      && Reads(Applied(disk, o.writes), jn, bs, before, run)
  }

  /** Outside the journal the image is `before` with the pins of the run on it. */
  ghost predicate Reads(disk: Disk, jn: Journal, bs: nat, before: Disk, run: seq<Txn>)
    requires |jn.blocks| >= jn.sb.total
  {
    forall x: nat :: x !in jn.Blocks() ==> ReadAt(disk, bs, x) == View(AllPins(run), before, bs, x)
  }

  /** A run and one more transaction that fit the ring and that replay can restore; what the run does not
      write over is no commit block with a number past it. */
  ghost predicate Recoverable(disk: Disk, jn: Journal, bs: nat, h: nat, s: nat, txns: seq<Txn>, t: Txn, uuid: Bytes) {
    && jn.Valid(bs) && InRing(jn.Geometry(bs), h) && AllFit(txns, bs) && t.Fits(bs) && |uuid| == UUID_SIZE
    && s + |txns| < U32 && RestSafe(jn.Geometry(bs), LogOn(disk, bs, jn), h, |RunLog(txns, s, uuid, bs)|, s + |txns|)
    && |RunLog(txns, s, uuid, bs)| + |t.Log(s + |txns|, uuid, bs)| <= jn.sb.total - jn.sb.first
    && Avoids(AllPins(txns), jn.Blocks()) && Avoids(t.pins, jn.Blocks())
    && AllFit(txns + [t], bs) && AllRestorable(txns + [t], {}, jn.Geometry(bs))
  }

  /** Crash consistency. Cut a commit short after any number of its block writes, log and home writes
      alike, and recover from the start of the run: every block outside the journal then reads as the
      run without the last transaction left it, or, exactly when its whole log was written, with it. */
  lemma CrashConsistency(disk: Disk, jn: Journal, bs: nat, h: nat, s: nat, txns: seq<Txn>, t: Txn, uuid: Bytes, k: nat)
    requires Recoverable(disk, jn, bs, h, s, txns, t, uuid) && k <= |t.Log(s + |txns|, uuid, bs)| + |t.pins|
    ensures Restores(Crashed(disk, jn, bs, h, s, txns, t, uuid, k), jn, bs, h, s, disk,
                     Committed(txns, t, |t.Log(s + |txns|, uuid, bs)|, k))
  {
    hide LogOn, Applied, Put, Journal.Blocks, Skip, Txn.Log, RunWrites, RunLog, CommitWrites, RestSafe, RunReplayed,
      AllRestorable, ReadAt, Pinned, Crashed, Pass, AllRevokes, View, AllPins;
    var g, n := jn.Geometry(bs), |t.Log(s + |txns|, uuid, bs)|;
    var crashed, run := Crashed(disk, jn, bs, h, s, txns, t, uuid, k), Committed(txns, t, n, k);
    CrashedLog(disk, jn, bs, h, s, txns, t, uuid, k);
    RestLater(g, LogOn(disk, bs, jn), h, |RunLog(txns, s, uuid, bs)|, s + |txns|,
              |RunLog(txns, s, uuid, bs)| + Min(k, n), s + |txns|);
    CommitIsAtomic(g, LogOn(disk, bs, jn), h, s, txns, t, uuid, Min(k, n));
    RestorablePrefix(txns, t, {}, g);
    RestoresExactly(run, {}, g);
    CommittedAvoids(txns, t, n, k, jn.Blocks());
    forall x: nat | x !in jn.Blocks()
      ensures ReadAt(Applied(crashed, AllPins(run)), bs, x) == View(AllPins(run), disk, bs, x)
    {
      RecoveredBlock(disk, jn, bs, h, s, txns, t, uuid, k, x);
    }
  }

  lemma CommittedAvoids(txns: seq<Txn>, t: Txn, n: nat, k: nat, s: set<nat>)
    requires Avoids(AllPins(txns), s) && Avoids(t.pins, s)
    ensures Avoids(AllPins(Committed(txns, t, n, k)), s)
  {
    hide AllPins;
    AllPinsSnoc(txns, t);
  }

  lemma {:induction false} PinnedSized(writes: Pins, bs: nat, x: nat)
    requires Sized(writes, bs)
    ensures Pinned(writes, x).Some? ==> |Pinned(writes, x).value| == bs
  {
    if writes != [] { PinnedSized(writes[..|writes| - 1], bs, x); }
  }

  /** Writes that leave at block `x` what a prefix of `pins` does are lost once all of `pins` are written. */
  lemma AppliedOver(disk: Disk, bs: nat, done: Pins, prefix: Pins, pins: Pins, x: nat)
    requires prefix <= pins && Pinned(done, x) == Pinned(prefix, x) && Sized(pins, bs)
    ensures ReadAt(Applied(Applied(disk, done), pins), bs, x) == View(pins, disk, bs, x)
  {
    hide Applied, Pinned;
    AppliedTwice(disk, done, pins);
    AppliedLookup(disk, done + pins, x);
    PinnedConcat(done, pins, x);
    PinnedConcat(prefix, pins, x);
    PrefixFirst(prefix, pins, x);
    PinnedSized(pins, bs, x);
  }

  lemma RecoveredBlock(disk: Disk, jn: Journal, bs: nat, h: nat, s: nat, txns: seq<Txn>, t: Txn, uuid: Bytes, k: nat,
                       x: nat)
    requires jn.Valid(bs) && InRing(jn.Geometry(bs), h) && AllFit(txns, bs) && t.Fits(bs) && |uuid| == UUID_SIZE
    requires k <= |t.Log(s + |txns|, uuid, bs)| + |t.pins| && x !in jn.Blocks()
    ensures var run := Committed(txns, t, |t.Log(s + |txns|, uuid, bs)|, k);
            ReadAt(Applied(Crashed(disk, jn, bs, h, s, txns, t, uuid, k), AllPins(run)), bs, x)
            == View(AllPins(run), disk, bs, x)
  {
    hide Applied, Journal.Blocks, Skip, Txn.Log, RunWrites, RunLog, CommitWrites, Pinned, AllPins, ReadAt, View;
    var n := |t.Log(s + |txns|, uuid, bs)|;
    var run := Committed(txns, t, n, k);
    var h' := Skip(jn.Geometry(bs), h, |RunLog(txns, s, uuid, bs)|);
    CrashedHome(jn, bs, h, s, txns, t, uuid, k, x);
    AllPinsSnoc(txns, t);
    AllPinsSized(run, bs);
    AppliedOver(disk, bs, RunWrites(jn, bs, h, s, txns, uuid) + CommitWrites(jn, bs, h', s + |txns|, t, uuid)[..k],
                AllPins(txns) + (if k <= n then [] else t.pins[..k - n]), AllPins(run), x);
  }

  // ---- mount ----

  datatype RecoverError = BadSuper(cause: SuperError) | JournalErrno(errno: nat)

  /** What recovery of a loaded journal relies on. */
  ghost predicate Replayable(disk: Disk, bs: nat, jn: Journal) {
    && jn.Valid(bs)
    && (!jn.sb.IsClean() ==>
          var g, log := jn.Geometry(bs), LogOn(disk, bs, jn);
          InRing(g, jn.sb.start) && PassAvoids(g, log, jn.sb.start, jn.sb.startSequence, jn.Blocks()))
  }

  /** The image after recovery: the writes of the pass and a superblock marked clean, or no change if
      the journal was clean. */
  function Recovered(disk: Disk, bs: nat, jn: Journal, o: Outcome): Disk
    requires 1024 <= bs && jn.blocks != []
  {
    if jn.sb.IsClean() then disk
    else Applied(disk, o.writes)[jn.blocks[0] := MarkedClean(ReadAt(disk, bs, jn.blocks[0]), o.sequence)]
  }

  /** The superblock on the device after recovery. */
  function Reloaded(sb: JournalSuper, o: Outcome): JournalSuper {
    if sb.IsClean() then sb else sb.(start := 0, startSequence := o.sequence % U32)
  }

  /** `o` is what replay of this journal comes to, and it stays out of the journal. */
  ghost predicate Replays(disk: Disk, bs: nat, jn: Journal, o: Outcome)
    requires Replayable(disk, bs, jn)
  {
    !jn.sb.IsClean() ==>
      && Pass(jn.Geometry(bs), LogOn(disk, bs, jn), jn.sb.start, jn.sb.startSequence) == Some(o)
      && Sized(o.writes, bs) && Avoids(o.writes, jn.Blocks())
  }

  /** Loads the journal and replays it if it is not clean. The superblock it returns is the one read
      before replay; the one on the device by then is another exactly when the journal was not clean. */
  method CheckAndRecover(dev: BlockDevice, blocks: seq<nat>)
      returns (r: Result<Journal, RecoverError>, ghost o: Outcome)
    requires 1024 <= dev.blockSize && blocks != []
    requires ParseSuper(ReadAt(dev.disk, dev.blockSize, blocks[0])).Ok? ==>
               Replayable(dev.disk, dev.blockSize,
                          Journal(blocks, ParseSuper(ReadAt(dev.disk, dev.blockSize, blocks[0])).value))
    modifies dev`disk
    ensures var parsed := ParseSuper(old(ReadAt(dev.disk, dev.blockSize, blocks[0])));
            && r == (match parsed
                     case Err(e) => Err(BadSuper(e))
                     case Ok(sb) => if sb.errno != 0 then Err(JournalErrno(sb.errno)) else Ok(Journal(blocks, sb)))
            && (r.Err? ==> dev.disk == old(dev.disk))
    ensures forall raw: RawSuper :: raw.Fits() && raw.Layout() == old(ReadAt(dev.disk, dev.blockSize, blocks[0])) ==>
              r == if !raw.Usable() then Err(BadSuper(raw.Fault()))
                   else if raw.errno != 0 then Err(JournalErrno(raw.errno)) else Ok(Journal(blocks, raw.Super()))
    ensures r.Ok? ==>
              && Replays(old(dev.disk), dev.blockSize, r.value, o)
              && dev.disk == Recovered(old(dev.disk), dev.blockSize, r.value, o)
              && ParseSuper(ReadAt(dev.disk, dev.blockSize, blocks[0])) == Ok(Reloaded(r.value.sb, o))
              && (Reloaded(r.value.sb, o) == r.value.sb <==> r.value.sb.IsClean())
  {
    hide ParseSuper, MarkedClean, Applied, LogOn, PassAvoids, AllRevokes, Pass, Avoids, Sized, RawSuper.Layout,
      RawSuper.Fits, RawSuper.Usable, RawSuper.Fault;
    var data := dev.Read(blocks[0]);
    var parsed := ParseSuper(data);
    forall raw: RawSuper | raw.Fits() && raw.Layout() == data
      ensures parsed == if raw.Usable() then Ok(raw.Super()) else Err(raw.Fault())
    {
      SuperRoundTrip(raw);
    }
    o := Outcome([], 0);
    if parsed.Err? { return Err(BadSuper(parsed.error)), o; }
    if parsed.value.errno != 0 { return Err(JournalErrno(parsed.value.errno)), o; }
    var jn := Journal(blocks, parsed.value);
    o := Replay(dev, jn);
    if !jn.sb.IsClean() { MarkedCleanParses(data, o.sequence); }
    r := Ok(jn);
  }

  /** Neither the replayed blocks nor the superblock lie in the ring: of the log, recovery changes the
      superblock alone. */
  lemma RecoveredLog(disk: Disk, jn: Journal, bs: nat, o: Outcome)
    requires 1024 <= bs && Replayable(disk, bs, jn) && Replays(disk, bs, jn, o)
    ensures LogOn(Recovered(disk, bs, jn, o), bs, jn)
            == if jn.sb.IsClean() then LogOn(disk, bs, jn)
               else LogOn(disk, bs, jn)[0 := MarkedClean(LogOn(disk, bs, jn)[0], o.sequence)]
  {
    hide Applied, MarkedClean, PassAvoids, AllRevokes, Pass;
    if !jn.sb.IsClean() {
      LogUnchanged(disk, o.writes, bs, jn);
      SuperWritten(Applied(disk, o.writes), jn, bs, MarkedClean(ReadAt(disk, bs, jn.blocks[0]), o.sequence));
    }
  }

  lemma SuperWritten(disk: Disk, jn: Journal, bs: nat, super: Bytes)
    requires jn.Valid(bs) && |super| == bs
    ensures LogOn(disk[jn.blocks[0] := super], bs, jn) == LogOn(disk, bs, jn)[0 := super]
  {
    var before, after := LogOn(disk, bs, jn), LogOn(disk[jn.blocks[0] := super], bs, jn);
    forall i | 0 <= i < jn.sb.total ensures after[i] == before[0 := super][i] {
      if i > 0 { assert jn.blocks[0] != jn.blocks[i]; }
    }
  }
}

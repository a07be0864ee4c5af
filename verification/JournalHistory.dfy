/** Ring safety over histories of commits, refused commits, crashes and mounts. A commit never records
    where its log starts, so the sequence number a mount hands to the next writer may be an old one. */
module JournalHistory {
  import opened Base
  import opened Device
  import opened JournalFormat
  import opened JournalLog
  import opened JournalReplay
  import opened JournalWriter
  import opened JournalRuns

  // ---- the highest commit block in the ring ----

  function TopBelow(g: Ring, log: Log, n: nat): nat
    requires IsLog(g, log) && n <= g.total
  {
    if n <= g.first then 0
    else
      Max(TopBelow(g, log, n - 1),
          if HasHeader(log[n - 1], COMMIT, Be32(log[n - 1], 8)) then Be32(log[n - 1], 8) + 1 else 0)
  }

  /** One past the highest sequence number of a commit block in the ring, 0 if there is none. */
  function Top(g: Ring, log: Log): nat
    requires IsLog(g, log)
  {
    TopBelow(g, log, g.total)
  }

  lemma {:induction false} TopBounds(g: Ring, log: Log, n: nat, next: nat)
    requires IsLog(g, log) && n <= g.total
    ensures TopBelow(g, log, n) <= next <==> forall i :: g.first <= i < n ==> Below(log[i], next)
  {
    hide Be32;
    if n > g.first { TopBounds(g, log, n - 1, next); }
  }

  /** The ring is safe for exactly the sequence numbers past every commit block in it. */
  lemma SafeFromTop(g: Ring, log: Log, next: nat)
    requires IsLog(g, log)
    ensures RingSafe(g, log, next) <==> Top(g, log) <= next
  {
    TopBounds(g, log, g.total, next);
  }

  // ---- states and steps ----

  /** A writer: where it logs next, and under which sequence number. */
  datatype Head = Head(at: nat, next: nat)

  /** The journal blocks, the superblock among them, and the writer while there is one. */
  datatype JournalState = JournalState(log: Log, writer: Option<Head>)

  /** The first journal block is a superblock of this geometry. */
  predicate HasSuper(g: Ring, log: Log) {
    IsLog(g, log) && ParseSuper(log[0]).Ok?
    && var sb := ParseSuper(log[0]).value;
       sb.total == g.total && sb.first == g.first && sb.Has64Bit() == g.has64 && (sb.IsClean() || InRing(g, sb.start))
  }

  function Super(g: Ring, log: Log): JournalSuper
    requires HasSuper(g, log)
  {
    ParseSuper(log[0]).value
  }

  /** Recovery ends: the journal is clean, or the ring is not all revoke blocks of the recorded number. */
  predicate Mountable(g: Ring, log: Log) {
    HasSuper(g, log) && (Super(g, log).IsClean() || !AllRevokes(g, log, Super(g, log).startSequence))
  }

  /** An attempt to commit of which `k` log blocks are written, all of them or fewer because the system
      went down; or a mount, whose writer is built from the superblock that recovery returns, or from
      the one it leaves on the device. */
  datatype Step = Attempt(txn: Txn, k: nat) | Mount(reload: bool)

  /** What an attempt logs: all of a transaction, or its revoke block alone if its tags do not fit. */
  function Attempted(t: Txn, s: nat, uuid: Bytes, bs: nat): (r: seq<Bytes>)
    requires t.Sound(bs) && |uuid| == UUID_SIZE
  {
    if t.Fits(bs) then t.Log(s, uuid, bs) else RevokePart(t.revoked, s, bs)
  }

  predicate Legal(g: Ring, st: JournalState, step: Step, uuid: Bytes) {
    HasSuper(g, st.log) && |uuid| == UUID_SIZE
    && match step
       case Attempt(t, k) => (
         st.writer.Some? && InRing(g, st.writer.value.at) && st.writer.value.next < U32
         && t.Sound(g.bs) && t.refused == [] && k <= |Attempted(t, st.writer.value.next, uuid, g.bs)|)
       case Mount(_) => Mountable(g, st.log)
  }

  /** Where replay stops, for a journal that is not clean. */
  ghost function StopsAt(g: Ring, log: Log): nat
    requires Mountable(g, log) && !Super(g, log).IsClean()
  {
    Pass(g, log, Super(g, log).start, Super(g, log).startSequence).value.sequence
  }

  /** The journal blocks after recovery: replay only rewrites the superblock, and only of a dirty journal. */
  ghost function Mounted(g: Ring, log: Log): Log
    requires Mountable(g, log)
  {
    if Super(g, log).IsClean() then log else log[0 := MarkedClean(log[0], StopsAt(g, log))]
  }

  lemma MountedSuper(g: Ring, log: Log)
    requires Mountable(g, log)
    ensures HasSuper(g, Mounted(g, log))
    ensures var sb := Super(g, log);
            Super(g, Mounted(g, log)) == if sb.IsClean() then sb
              else sb.(start := 0, startSequence := StopsAt(g, log) % U32)
  {
    hide ParseSuper, MarkedClean, AllRevokes, Pass;
    if !Super(g, log).IsClean() { MarkedCleanParses(log[0], StopsAt(g, log)); }
  }

  /** The writer a superblock gives rise to. */
  function WriterOf(sb: JournalSuper): Head {
    Head(if sb.IsClean() then sb.first else sb.start, sb.startSequence)
  }

  ghost function AfterMount(g: Ring, st: JournalState, reload: bool): JournalState
    requires Mountable(g, st.log)
  {
    MountedSuper(g, st.log);
    JournalState(Mounted(g, st.log), Some(WriterOf(Super(g, if reload then Mounted(g, st.log) else st.log))))
  }

  function AfterAttempt(g: Ring, st: JournalState, t: Txn, k: nat, uuid: Bytes): JournalState
    requires Legal(g, st, Attempt(t, k), uuid)
  {
    var h, s := st.writer.value.at, st.writer.value.next;
    var whole := Attempted(t, s, uuid, g.bs);
    AttemptBelow(t, s, uuid, g.bs, k);
    JournalState(Put(g, st.log, h, whole[..k]),
                 if k < |whole| then None else Some(Head(Skip(g, h, k), if t.Fits(g.bs) then s + 1 else s)))
  }

  ghost function AfterStep(g: Ring, st: JournalState, step: Step, uuid: Bytes): JournalState
    requires Legal(g, st, step, uuid)
  {
    match step
    case Attempt(t, k) => AfterAttempt(g, st, t, k, uuid)
    case Mount(reload) => AfterMount(g, st, reload)
  }

  /** No commit block has the writer's next sequence number or a later one. */
  ghost predicate Safe(g: Ring, st: JournalState)
    requires IsLog(g, st.log)
  {
    st.writer.Some? ==> RingSafe(g, st.log, st.writer.value.next)
  }

  // ---- one step ----

  /** Until its commit block is written, an attempt logs no commit block at all. */
  lemma AttemptBelow(t: Txn, s: nat, uuid: Bytes, bs: nat, k: nat)
    requires t.Sound(bs) && |uuid| == UUID_SIZE && s < U32 && k <= |Attempted(t, s, uuid, bs)|
    ensures var part := Attempted(t, s, uuid, bs)[..k];
            && (forall b :: b in part ==> |b| == bs)
            && forall b :: b in part ==> Below(b, if t.Fits(bs) && k == |Attempted(t, s, uuid, bs)| then s + 1 else 0)
  {
    hide Txn.Log, Below, RevokeBytes, RunLog;
    var whole := Attempted(t, s, uuid, bs);
    if t.Fits(bs) {
      TxnBlocksBelow(t, s, uuid, bs);
    } else if t.revoked != [] {
      RevokeBelow(t.revoked, s, bs);
    }
    forall b | b in whole[..k] ensures |b| == bs && Below(b, if t.Fits(bs) && k == |whole| then s + 1 else 0) {
      var i :| 0 <= i < k && whole[i] == b;
      assert whole[i] in whole;
    }
  }

  /** The superblock is not part of the ring. */
  lemma {:induction false} PutSuper(g: Ring, log: Log, h: nat, blocks: seq<Bytes>)
    requires IsLog(g, log) && InRing(g, h) && forall b :: b in blocks ==> |b| == g.bs
    ensures Put(g, log, h, blocks)[0] == log[0]
    decreases |blocks|
  {
    if blocks != [] { PutSuper(g, log[h := blocks[0]], Next(g, h), blocks[1..]); }
  }

  lemma AttemptKeepsSafe(g: Ring, st: JournalState, t: Txn, k: nat, uuid: Bytes)
    requires Legal(g, st, Attempt(t, k), uuid)
    ensures var st' := AfterAttempt(g, st, t, k, uuid);
            HasSuper(g, st'.log) && Super(g, st'.log) == Super(g, st.log) && (Safe(g, st) ==> Safe(g, st'))
  {
    hide ParseSuper, Put, Below, Txn.Log, RingSafe, Attempted;
    var h, s, st' := st.writer.value.at, st.writer.value.next, AfterAttempt(g, st, t, k, uuid);
    var part := Attempted(t, s, uuid, g.bs)[..k];
    AttemptBelow(t, s, uuid, g.bs, k);
    PutSuper(g, st.log, h, part);
    if RingSafe(g, st.log, s) && st'.writer.Some? {
      SaferLater(g, st.log, s, st'.writer.value.next);
      forall b | b in part ensures Below(b, st'.writer.value.next) {
        BelowMore(b, if t.Fits(g.bs) then s + 1 else 0, st'.writer.value.next);
      }
      PutKeepsSafe(g, st.log, h, part, st'.writer.value.next);
    }
  }

  /** Recovery leaves the ring as it is. */
  lemma SameRing(g: Ring, log: Log, super: Bytes, next: nat)
    requires IsLog(g, log) && |super| == g.bs
    ensures RingSafe(g, log[0 := super], next) <==> RingSafe(g, log, next)
  {
    hide Below;
    assert forall i :: g.first <= i < g.total ==> log[0 := super][i] == log[i];
  }

  /** The sequence number a mount hands on. */
  ghost function Taken(g: Ring, log: Log, reload: bool): nat
    requires Mountable(g, log)
  {
    if reload && !Super(g, log).IsClean() then StopsAt(g, log) % U32 else Super(g, log).startSequence
  }

  /** A mount meets a safe ring exactly when the sequence number it hands on is past every commit
      block in the ring. */
  lemma MountSafeExactly(g: Ring, st: JournalState, reload: bool)
    requires Mountable(g, st.log)
    ensures var st' := AfterMount(g, st, reload);
            && HasSuper(g, st'.log) && st'.writer.Some? && st'.writer.value.next == Taken(g, st.log, reload)
            && (Safe(g, st') <==> Top(g, st.log) <= Taken(g, st.log, reload))
  {
    hide ParseSuper, MarkedClean, AllRevokes, Pass, RingSafe, Top;
    var next := Taken(g, st.log, reload);
    MountedSuper(g, st.log);
    SafeFromTop(g, st.log, next);
    SameRing(g, st.log, MarkedClean(st.log[0], if Super(g, st.log).IsClean() then 0 else StopsAt(g, st.log)), next);
  }

  // ---- whole histories ----

  ghost predicate History(g: Ring, st: JournalState, steps: seq<Step>, uuid: Bytes)
    decreases |steps|
  {
    steps == [] || (Legal(g, st, steps[0], uuid) && History(g, AfterStep(g, st, steps[0], uuid), steps[1..], uuid))
  }

  /** The ring is safe for the writer in every state of the history. */
  ghost predicate SafeThroughout(g: Ring, st: JournalState, steps: seq<Step>, uuid: Bytes)
    requires IsLog(g, st.log) && History(g, st, steps, uuid)
    decreases |steps|
  {
    Safe(g, st)
    && (steps == [] || (StepKeepsLog(g, st, steps[0], uuid);
                        SafeThroughout(g, AfterStep(g, st, steps[0], uuid), steps[1..], uuid)))
  }

  /** Every mount of the history hands on a number past the commit blocks it finds. */
  ghost predicate MountsPastTop(g: Ring, st: JournalState, steps: seq<Step>, uuid: Bytes)
    requires History(g, st, steps, uuid)
    decreases |steps|
  {
    steps == []
    || ((steps[0].Mount? ==> Top(g, st.log) <= Taken(g, st.log, steps[0].reload))
        && MountsPastTop(g, AfterStep(g, st, steps[0], uuid), steps[1..], uuid))
  }

  lemma StepKeepsLog(g: Ring, st: JournalState, step: Step, uuid: Bytes)
    requires Legal(g, st, step, uuid)
    ensures IsLog(g, AfterStep(g, st, step, uuid).log) && HasSuper(g, AfterStep(g, st, step, uuid).log)
    ensures step.Attempt? && Safe(g, st) ==> Safe(g, AfterStep(g, st, step, uuid))
    ensures step.Mount? ==> (Safe(g, AfterStep(g, st, step, uuid)) <==> Top(g, st.log) <= Taken(g, st.log, step.reload))
  {
    hide AfterAttempt, AfterMount, Top, Taken, Safe, ParseSuper;
    match step
    case Attempt(t, k) => AttemptKeepsSafe(g, st, t, k, uuid);
    case Mount(reload) => MountSafeExactly(g, st, reload);
  }

  /** Over any history of commits, refused commits, crashes and mounts, however often the log wraps, the
      ring stays safe if and only if every mount hands on a number past the commit blocks it finds:
      nothing else can break it. */
  lemma {:induction false} HistorySafeExactly(g: Ring, st: JournalState, steps: seq<Step>, uuid: Bytes)
    requires IsLog(g, st.log) && Safe(g, st) && History(g, st, steps, uuid)
    ensures SafeThroughout(g, st, steps, uuid) <==> MountsPastTop(g, st, steps, uuid)
    decreases |steps|
  {
    hide AfterStep, Top, Taken, Safe, Legal;
    if steps != [] {
      var st' := AfterStep(g, st, steps[0], uuid);
      StepKeepsLog(g, st, steps[0], uuid);
      if Safe(g, st') { HistorySafeExactly(g, st', steps[1..], uuid); }
    }
  }

  // ---- one session, and the mount after it ----

  lemma {:induction false} DistanceSkip(g: Ring, h: nat, n: nat)
    requires g.Valid() && InRing(g, h) && n < g.total - g.first
    ensures Distance(g, h, Skip(g, h, n)) == n
  {
    if n > 0 {
      DistanceSkip(g, h, n - 1);
      SkipSnoc(g, h, n - 1);
    }
  }

  /** What is written behind a block does not reach it before it has gone round the ring. */
  lemma LastStays(g: Ring, log: Log, h: nat, init: seq<Bytes>, rest: seq<Bytes>)
    requires IsLog(g, log) && InRing(g, h) && 0 < |rest| <= g.total - g.first
    requires forall b :: b in init + rest ==> |b| == g.bs
    ensures Put(g, log, h, init + rest)[Skip(g, h, |init|)] == rest[0]
  {
    hide Skip, Distance, Put;
    PutTwice(g, log, h, init, rest);
    FirstStays(g, Put(g, log, h, init), Skip(g, h, |init|), rest);
  }

  lemma FirstStays(g: Ring, log: Log, p: nat, rest: seq<Bytes>)
    requires IsLog(g, log) && InRing(g, p) && 0 < |rest| <= g.total - g.first && forall b :: b in rest ==> |b| == g.bs
    ensures Put(g, log, p, rest)[p] == rest[0]
  {
    hide Distance;
    DistanceAround(g, p);
    PutFrame(g, log[p := rest[0]], Next(g, p), rest[1..], p);
  }

  lemma DistanceAround(g: Ring, p: nat)
    requires g.Valid() && InRing(g, p)
    ensures Distance(g, Next(g, p), p) == g.total - g.first - 1
  {
  }

  /** The log of a run ends with the commit block of its last transaction. */
  lemma RunLogEnds(txns: seq<Txn>, s: nat, uuid: Bytes, bs: nat) returns (init: seq<Bytes>)
    requires AllFit(txns, bs) && |uuid| == UUID_SIZE && txns != [] && bs >= 1024
    ensures RunLog(txns, s, uuid, bs) == init + [CommitBytes(s + |txns| - 1, bs)]
  {
    hide RunLog, CommitBytes, Txn.Log;
    var n := |txns| - 1;
    var t := txns[n];
    assert txns == txns[..n] + [t];
    assert t.Fits(bs);
    RunLogSnoc(txns[..n], t, s, uuid, bs);
    var before := EndsWithCommit(t, s + n, uuid, bs);
    init := RunLog(txns[..n], s, uuid, bs) + before;
    Regroup(RunLog(txns[..n], s, uuid, bs), before, [CommitBytes(s + n, bs)]);
  }

  /** After a session that committed at least one transaction, the last commit block is the top of the
      ring, unless what was logged behind it went all the way round. */
  lemma TopAfterSession(g: Ring, log: Log, h: nat, s: nat, txns: seq<Txn>, t: Txn, uuid: Bytes, k: nat)
    requires IsLog(g, log) && InRing(g, h) && AllFit(txns, g.bs) && t.Fits(g.bs) && |uuid| == UUID_SIZE
    requires s + |txns| < U32 && RingSafe(g, log, s + |txns|) && k <= |t.Log(s + |txns|, uuid, g.bs)|
    requires k < |t.Log(s + |txns|, uuid, g.bs)| ==> k < g.total - g.first
    ensures var whole := t.Log(s + |txns|, uuid, g.bs);
            var run, blocks := Committed(txns, t, |whole|, k), LoggedSoFar(txns, t, s, uuid, g.bs, k);
            && Top(g, Put(g, log, h, blocks)) <= s + |run|
            && (run != [] ==> Top(g, Put(g, log, h, blocks)) == s + |run|)
  {
    hide RunLog, RingSafe, Skip, Txn.Log, Txn.Fits, Put, Below, Top, CommitBytes;
    var whole := t.Log(s + |txns|, uuid, g.bs);
    var run, blocks := Committed(txns, t, |whole|, k), LoggedSoFar(txns, t, s, uuid, g.bs, k);
    PrefixBelow(txns, t, s, uuid, g.bs, k);
    SaferLater(g, log, s + |txns|, s + |run|);
    PutKeepsSafe(g, log, h, blocks, s + |run|);
    SafeFromTop(g, Put(g, log, h, blocks), s + |run|);
    if run != [] {
      assert blocks == RunLog(run, s, uuid, g.bs) + (if k == |whole| then [] else whole[..k]) by {
        if k == |whole| { RunLogSnoc(txns, t, s, uuid, g.bs); }
      }
      assert AllFit(run, g.bs);
      var init := RunLogEnds(run, s, uuid, g.bs);
      var c, tail := CommitBytes(s + |run| - 1, g.bs), if k == |whole| then [] else whole[..k];
      Regroup(init, [c], tail);
      LastStays(g, log, h, init, [c] + tail);
      CommitInRing(g, Put(g, log, h, blocks), Skip(g, h, |init|), s + |run| - 1);
    }
  }

  lemma CommitInRing(g: Ring, log: Log, p: nat, s: nat)
    requires IsLog(g, log) && InRing(g, p) && s < U32 && log[p] == CommitBytes(s, g.bs)
    ensures Top(g, log) > s
  {
    hide Top, Scan;
    ScanCommit(g, log, p, s, {}, 0);
    SafeFromTop(g, log, s);
    assert !Below(log[p], s);
  }

  /** A session of a writer that began at position `h` with number `s`, over the superblock that the
      journal has: it committed `txns`, and logged `k` blocks of `t`. */
  ghost predicate Session(g: Ring, log: Log, h: nat, s: nat, txns: seq<Txn>, t: Txn, uuid: Bytes, k: nat) {
    && HasSuper(g, log) && InRing(g, h) && AllFit(txns, g.bs) && t.Fits(g.bs) && |uuid| == UUID_SIZE
    && s + |txns| + 1 < U32 && RingSafe(g, log, s + |txns|) && k <= |t.Log(s + |txns|, uuid, g.bs)|
    && (k < |t.Log(s + |txns|, uuid, g.bs)| ==> k < g.total - g.first)
  }

  /** The journal after the session. */
  function SessionLog(g: Ring, log: Log, h: nat, s: nat, txns: seq<Txn>, t: Txn, uuid: Bytes, k: nat): Log
    requires Session(g, log, h, s, txns, t, uuid, k)
  {
    Put(g, log, h, LoggedSoFar(txns, t, s, uuid, g.bs, k))
  }

  lemma SessionSuper(g: Ring, log: Log, h: nat, s: nat, txns: seq<Txn>, t: Txn, uuid: Bytes, k: nat)
    requires Session(g, log, h, s, txns, t, uuid, k)
    ensures HasSuper(g, SessionLog(g, log, h, s, txns, t, uuid, k))
    ensures Super(g, SessionLog(g, log, h, s, txns, t, uuid, k)) == Super(g, log)
  {
    hide ParseSuper, RingSafe, RunLog, Txn.Log, Put, Below;
    PutSuper(g, log, h, LoggedSoFar(txns, t, s, uuid, g.bs, k));
  }

  /** The mount after a session, for the superblock the code uses, and for any if the journal was clean. If
      the session committed something, the ring is safe exactly if the recorded number is past its last
      one. If it committed nothing, a ring that was safe for the recorded number still is. */
  lemma MountAfterSession(g: Ring, log: Log, h: nat, s: nat, txns: seq<Txn>, t: Txn, uuid: Bytes, k: nat, reload: bool)
    requires Session(g, log, h, s, txns, t, uuid, k) && Mountable(g, SessionLog(g, log, h, s, txns, t, uuid, k))
    requires Super(g, log).IsClean() || !reload
    ensures var q, log' := Super(g, log).startSequence, SessionLog(g, log, h, s, txns, t, uuid, k);
            var run := Committed(txns, t, |t.Log(s + |txns|, uuid, g.bs)|, k);
            var st := AfterMount(g, JournalState(log', None), reload);
            && IsLog(g, st.log)
            && (run != [] ==> (Safe(g, st) <==> s + |run| <= q))
            && (run == [] && RingSafe(g, log, q) ==> Safe(g, st))
  {
    hide ParseSuper, RingSafe, RunLog, Txn.Log, Put, Below, Top, AfterMount, Safe, AllRevokes, Pass, Skip;
    var log' := SessionLog(g, log, h, s, txns, t, uuid, k);
    var run := Committed(txns, t, |t.Log(s + |txns|, uuid, g.bs)|, k);
    SessionSuper(g, log, h, s, txns, t, uuid, k);
    TopAfterSession(g, log, h, s, txns, t, uuid, k);
    MountSafeExactly(g, JournalState(log', None), reload);
    var q := Super(g, log).startSequence;
    if run == [] && RingSafe(g, log, q) { NoCommitKeepsTop(g, log, h, s, t, uuid, k, q); }
  }

  /** Blocks of a cut-off commit keep a ring safe for any number. */
  lemma NoCommitKeepsTop(g: Ring, log: Log, h: nat, s: nat, t: Txn, uuid: Bytes, k: nat, q: nat)
    requires IsLog(g, log) && InRing(g, h) && t.Fits(g.bs) && |uuid| == UUID_SIZE && s < U32 && RingSafe(g, log, q)
    requires k < |t.Log(s, uuid, g.bs)|
    ensures Top(g, Put(g, log, h, LoggedSoFar([], t, s, uuid, g.bs, k))) <= q
  {
    hide RingSafe, RunLog, Txn.Log, Put, Below, Top;
    var blocks, whole := LoggedSoFar([], t, s, uuid, g.bs, k), t.Log(s, uuid, g.bs);
    NoRun(s, uuid, g.bs);
    TxnBlocksBelow(t, s, uuid, g.bs);
    assert blocks == whole[..k];
    forall b | b in blocks ensures Below(b, q) {
      var i :| 0 <= i < k && whole[i] == b;
      BelowMore(b, 0, q);
    }
    PutKeepsSafe(g, log, h, blocks, q);
    SafeFromTop(g, Put(g, log, h, blocks), q);
  }

  /** A session that began from the superblock of its own journal, over a safe ring: the next mount, with
      the superblock the code uses, meets a safe ring exactly if the session committed nothing. */
  lemma MountAfterOwnSession(g: Ring, log: Log, txns: seq<Txn>, t: Txn, uuid: Bytes, k: nat)
    requires HasSuper(g, log) && RingSafe(g, log, Super(g, log).startSequence)
    requires var w := WriterOf(Super(g, log));
             && Session(g, log, w.at, w.next, txns, t, uuid, k)
             && Mountable(g, SessionLog(g, log, w.at, w.next, txns, t, uuid, k))
    ensures var w := WriterOf(Super(g, log));
            var st := AfterMount(g, JournalState(SessionLog(g, log, w.at, w.next, txns, t, uuid, k), None), false);
            IsLog(g, st.log) && (Safe(g, st) <==> txns == [] && k < |t.Log(w.next + |txns|, uuid, g.bs)|)
  {
    hide ParseSuper, RingSafe, RunLog, Txn.Log, Put, Below, Top, AfterMount, Safe, AllRevokes, Session, SessionLog,
      Mountable;
    var w := WriterOf(Super(g, log));
    SessionParts(g, log, w.at, w.next, txns, t, uuid, k);
    MountAfterSession(g, log, w.at, w.next, txns, t, uuid, k, false);
  }

  lemma SessionParts(g: Ring, log: Log, h: nat, s: nat, txns: seq<Txn>, t: Txn, uuid: Bytes, k: nat)
    requires Session(g, log, h, s, txns, t, uuid, k)
    ensures AllFit(txns, g.bs) && t.Fits(g.bs) && |uuid| == UUID_SIZE && k <= |t.Log(s + |txns|, uuid, g.bs)|
    ensures InRing(g, h) && s + |txns| + 1 < U32
  {
    hide ParseSuper, RingSafe, Txn.Log, Txn.Fits;
  }

  /** If recovery runs from the recorded start of a run that fits the ring, and the superblock is read
      again afterwards, the ring is safe for the writer. */
  lemma ReloadedMountIsSafe(g: Ring, log: Log, txns: seq<Txn>, t: Txn, uuid: Bytes, k: nat)
    requires HasSuper(g, log) && !Super(g, log).IsClean()
    requires var w := WriterOf(Super(g, log));
             && Session(g, log, w.at, w.next, txns, t, uuid, k)
             && Mountable(g, SessionLog(g, log, w.at, w.next, txns, t, uuid, k))
             && |RunLog(txns, w.next, uuid, g.bs)| + k <= g.total - g.first
    ensures var w := WriterOf(Super(g, log));
            var st := AfterMount(g, JournalState(SessionLog(g, log, w.at, w.next, txns, t, uuid, k), None), true);
            IsLog(g, st.log) && Safe(g, st)
  {
    hide ParseSuper, RingSafe, RunLog, Txn.Log, Put, Below, Top, AfterMount, Safe, AllRevokes, Pass, RunReplayed,
      RestSafe;
    var w := WriterOf(Super(g, log));
    SessionSuper(g, log, w.at, w.next, txns, t, uuid, k);
    TopAfterSession(g, log, w.at, w.next, txns, t, uuid, k);
    MountSafeExactly(g, JournalState(SessionLog(g, log, w.at, w.next, txns, t, uuid, k), None), true);
    SafeIsRestSafe(g, log, w.at, |RunLog(txns, w.next, uuid, g.bs)| + k, w.next + |txns|);
    CommitIsAtomic(g, log, w.at, w.next, txns, t, uuid, k);
  }

  // ---- mounting a dirty journal ----

  lemma {:induction false} ScanAdvances(g: Ring, log: Log, j: nat, s: nat, revoked: set<nat>, fuel: nat)
    requires IsLog(g, log) && InRing(g, j) && Scan(g, log, j, s, revoked, fuel).Some?
    ensures var o := Scan(g, log, j, s, revoked, fuel).value;
            && o.sequence >= s && (o.sequence == s ==> o.writes == []) && (o.sequence > s ==> !RingSafe(g, log, s))
    decreases fuel
  {
    hide Pending, TagsAt, CommitPosition, RevokedIn, Be32, HasMagic;
    if HasHeader(log[j], DESCRIPTOR, s) {
      var p := CommitPosition(g, log, j);
      if HasHeader(log[p], COMMIT, s) {
        assert !Below(log[p], s);
        ScanAdvances(g, log, Next(g, p), s + 1, revoked, fuel - 1);
      }
    } else if HasHeader(log[j], COMMIT, s) {
      assert !Below(log[j], s);
      ScanAdvances(g, log, Next(g, j), s + 1, revoked, fuel - 1);
    } else if HasHeader(log[j], REVOKE, s) {
      ScanAdvances(g, log, Next(g, j), s, revoked + RevokedIn(log[j]), fuel - 1);
    }
  }

  /** The writer of a dirty mount starts from the superblock read before replay. If the ring is safe for
      the number where replay stopped, it is safe for that writer exactly if replay applied nothing, not
      even an empty transaction. */
  lemma DirtyMountSafeExactly(g: Ring, log: Log)
    requires Mountable(g, log) && !Super(g, log).IsClean() && RingSafe(g, log, StopsAt(g, log))
    ensures var st := AfterMount(g, JournalState(log, None), false);
            && IsLog(g, st.log) && StopsAt(g, log) >= Super(g, log).startSequence
            && (Safe(g, st) <==> StopsAt(g, log) == Super(g, log).startSequence)
  {
    hide ParseSuper, RingSafe, Top, AfterMount, Safe, AllRevokes, Scan;
    var sb := Super(g, log);
    ScanAdvances(g, log, sb.start, sb.startSequence, {}, Enough(g, log, sb.start, sb.startSequence));
    MountSafeExactly(g, JournalState(log, None), false);
    SafeFromTop(g, log, sb.startSequence);
  }

  /** The commonest history loses the safety: mount a clean journal, commit one transaction, mount again.
      The new writer hands out the number of the commit block that is in the ring. */
  lemma RemountLosesSafety(g: Ring, log: Log, t: Txn, uuid: Bytes, reload: bool)
    requires HasSuper(g, log) && Super(g, log).IsClean() && t.Fits(g.bs) && t.refused == [] && |uuid| == UUID_SIZE
    requires Super(g, log).startSequence + 1 < U32 && RingSafe(g, log, Super(g, log).startSequence)
    ensures var first := AfterMount(g, JournalState(log, None), false);
            var commit := Attempt(t, |t.Log(first.writer.value.next, uuid, g.bs)|);
            && Safe(g, first) && Legal(g, first, commit, uuid)
            && var second := AfterStep(g, first, commit, uuid);
               && IsLog(g, second.log) && Safe(g, second) && Legal(g, second, Mount(reload), uuid)
               && var again := AfterStep(g, second, Mount(reload), uuid);
                  IsLog(g, again.log) && again.writer.value.next == first.writer.value.next && !Safe(g, again)
  {
    hide ParseSuper, RingSafe, Txn.Log, Put, Below, Top;
    var s := Super(g, log).startSequence;
    var first := AfterMount(g, JournalState(log, None), false);
    var n := |t.Log(s, uuid, g.bs)|;
    AttemptKeepsSafe(g, first, t, n, uuid);
    NoRun(s, uuid, g.bs);
    assert [] + t.Log(s, uuid, g.bs)[..n] == t.Log(s, uuid, g.bs)[..n];
    MountAfterSession(g, log, g.first, s, [], t, uuid, n, reload);
  }

  /** Whole blocks. */
  predicate WholeBlocks(blocks: seq<Bytes>, bs: nat) {
    forall b :: b in blocks ==> |b| == bs
  }

  /** The ring after the blocks `stale` of a commit from position `h` on, and then all but the last of
      the blocks `whole` of another commit over them. */
  function CutOff(g: Ring, log: Log, h: nat, stale: seq<Bytes>, whole: seq<Bytes>): (r: Log)
    requires IsLog(g, log) && InRing(g, h) && whole != [] && WholeBlocks(stale, g.bs) && WholeBlocks(whole, g.bs)
    ensures IsLog(g, r)
  {
    Put(g, Put(g, log, h, stale), h, whole[..|whole| - 1])
  }

  /** What such a ring can do: a transaction of the same length, logged under the same number and cut off
      before its commit block, is replayed as if it were committed. */
  lemma CutOffLooksCommitted(g: Ring, log: Log, h: nat, s: nat, stale: Txn, t: Txn, uuid: Bytes)
    requires IsLog(g, log) && InRing(g, h) && stale.Fits(g.bs) && t.Fits(g.bs) && |uuid| == UUID_SIZE && s < U32
    requires |stale.Log(s, uuid, g.bs)| == |t.Log(s, uuid, g.bs)| <= g.total - g.first
    ensures WholeBlocks(stale.Log(s, uuid, g.bs), g.bs) && WholeBlocks(t.Log(s, uuid, g.bs), g.bs)
    ensures t.Log(s, uuid, g.bs) != []
    ensures var cut := CutOff(g, log, h, stale.Log(s, uuid, g.bs), t.Log(s, uuid, g.bs));
            Pass(g, cut, h, s).Some? && Replayed(t.pins, t.Revokes(g.bs), g.has64) <= Pass(g, cut, h, s).value.writes
  {
    hide Txn.Log, Txn.Fits, Put, Skip, Holds, Pass, AllRevokes, Txn.Revokes, Replayed, Scan, CommitBytes, RunLog;
    TxnLogSized(stale, s, uuid, g.bs);
    TxnLogSized(t, s, uuid, g.bs);
    var whole := t.Log(s, uuid, g.bs);
    var c := CommitBytes(s, g.bs);
    var part := EndsWithCommit(t, s, uuid, g.bs);
    var before := EndsWithCommit(stale, s, uuid, g.bs);
    assert whole[..|part|] == part;
    var log' := Put(g, log, h, stale.Log(s, uuid, g.bs));
    LastStays(g, log, h, before, [c]);
    SameAsWhole(g, log', h, part, c);
    PutHolds(g, log', h, whole);
    ReplaysFirst(g, Put(g, log', h, part), h, s, t, uuid);
  }

  lemma EndsWithCommit(t: Txn, s: nat, uuid: Bytes, bs: nat) returns (init: seq<Bytes>)
    requires t.Fits(bs) && |uuid| == UUID_SIZE
    ensures t.Log(s, uuid, bs) == init + [CommitBytes(s, bs)]
  {
    LogParts(t, s, uuid, bs);
    init := RefusedBlocks(t.refused, s, bs) + RevokePart(t.revoked, s, bs) + DataPart(t.pins, s, uuid, bs);
  }

  /** Where the last block is there already, all blocks but the last make the same log as all. */
  lemma SameAsWhole(g: Ring, log: Log, h: nat, part: seq<Bytes>, c: Bytes)
    requires IsLog(g, log) && InRing(g, h) && |part| < g.total - g.first && forall b :: b in part + [c] ==> |b| == g.bs
    requires log[Skip(g, h, |part|)] == c
    ensures (forall b :: b in part ==> |b| == g.bs) && Put(g, log, h, part) == Put(g, log, h, part + [c])
  {
    hide Skip;
    var p := Skip(g, h, |part|);
    PutTwice(g, log, h, part, [c]);
    DistanceSkip(g, h, |part|);
    PutFrame(g, log, h, part, p);
    var log' := Put(g, log, h, part);
    assert [c][1..] == [];
    assert log'[p := c] == log';
  }

  lemma ReplaysFirst(g: Ring, log: Log, h: nat, s: nat, t: Txn, uuid: Bytes)
    requires IsLog(g, log) && InRing(g, h) && t.Fits(g.bs) && |uuid| == UUID_SIZE && s < U32
    requires Holds(g, log, h, t.Log(s, uuid, g.bs))
    ensures Pass(g, log, h, s).Some? && Replayed(t.pins, t.Revokes(g.bs), g.has64) <= Pass(g, log, h, s).value.writes
  {
    hide Txn.Log, Holds, Pass, AllRevokes, Txn.Revokes, Replayed, Scan, RunLog;
    RunLogHead(t, [], s, uuid, g.bs);
    NoRun(s + 1, uuid, g.bs);
    assert t.Log(s, uuid, g.bs) + [] == t.Log(s, uuid, g.bs);
    RunEnds(g, log, h, s, [t] + [], uuid);
    var fuel := Enough(g, log, h, s);
    PassIs(g, log, h, s, fuel);
    ScanMore(g, log, h, s, {}, fuel, fuel + Cost(t));
    ScanTxn(g, log, h, s, {}, t, uuid, fuel);
    assert {} + t.Revokes(g.bs) == t.Revokes(g.bs);
  }
}

/** The writer against replay: whole runs of committed transactions come back, a commit is atomic at
    every crash point, and in a ring without later commit blocks nothing behind a run is replayed. */
module JournalRuns {
  import opened Base
  import opened Device
  import opened JournalFormat
  import opened JournalLog
  import opened JournalReplay
  import opened JournalWriter

  /** The revoke blocks that refused commits have left in the log, one for each that revoked something. */
  function RefusedBlocks(lists: seq<seq<nat>>, seqno: nat, bs: nat): seq<Bytes>
    requires bs >= 1024
  {
    if lists == [] then [] else RevokePart(lists[0], seqno, bs) + RefusedBlocks(lists[1..], seqno, bs)
  }

  /** The block numbers that one revoke block carries. */
  function Carried(revoked: seq<nat>, bs: nat): set<nat> {
    RevokedNumbers(revoked, Min(|revoked|, RevokeCapacity(bs)))
  }

  function RefusedNumbers(lists: seq<seq<nat>>, bs: nat): set<nat> {
    if lists == [] then {} else Carried(lists[0], bs) + RefusedNumbers(lists[1..], bs)
  }

  /** A transaction at commit time, and the revoke lists of the commits that were refused since the one
      before it: their revoke blocks are in the log, under its own number. */
  datatype Txn = Txn(pins: Pins, revoked: seq<nat>, refused: seq<seq<nat>>) {
    predicate Sound(bs: nat) {
      bs >= 1024 && Sized(pins, bs) && |revoked| < U32 && forall i :: 0 <= i < |refused| ==> |refused[i]| < U32
    }

    predicate Fits(bs: nat) { Sound(bs) && FitsLog(pins, bs) }

    function Log(seqno: nat, uuid: Bytes, bs: nat): seq<Bytes>
      requires Fits(bs) && |uuid| == UUID_SIZE
    {
      RefusedBlocks(refused, seqno, bs) + LogBlocks(pins, revoked, seqno, uuid, bs)
    }

    /** The block numbers its own revoke block and those of the refused commits carry. */
    function Revokes(bs: nat): set<nat> { RefusedNumbers(refused, bs) + Carried(revoked, bs) }
  }

  /** What replay writes for the pinned blocks of one transaction. */
  function Replayed(pins: Pins, revoked: set<nat>, has64: bool): Pins
    requires forall i :: 0 <= i < |pins| ==> |pins[i].1| >= 4
  {
    if pins == [] then []
    else
      var block := TagBlock(pins[0].0, has64);
      (if block in revoked then [] else [(block, LoggedData(pins[0].1))]) + Replayed(pins[1..], revoked, has64)
  }

  // ---- one transaction ----

  lemma {:induction false} PendingIsReplayed(g: Ring, log: Log, pins: Pins, j: nat, revoked: set<nat>)
    requires IsLog(g, log) && InRing(g, j) && Sized(pins, g.bs) && Holds(g, log, j, LoggedBlocks(pins, g.bs))
    ensures Pending(g, log, WrittenTags(Addresses(pins), g.has64), j, revoked) == Replayed(pins, revoked, g.has64)
    decreases |pins|
  {
    hide LoggedData, TagBlock, Next;
    if pins != [] {
      assert WrittenTags(Addresses(pins), g.has64)[1..] == WrittenTags(Addresses(pins[1..]), g.has64);
      assert LoggedBlocks(pins, g.bs)[1..] == LoggedBlocks(pins[1..], g.bs);
      PendingIsReplayed(g, log, pins[1..], Next(g, j), revoked);
    }
  }

  lemma ScanCommit(g: Ring, log: Log, j: nat, s: nat, revoked: set<nat>, fuel: nat)
    requires IsLog(g, log) && InRing(g, j) && s < U32 && log[j] == CommitBytes(s, g.bs)
    ensures HasHeader(log[j], COMMIT, s)
    ensures Scan(g, log, j, s, revoked, fuel + 1) == Scan(g, log, Next(g, j), s + 1, revoked, fuel)
  {
    hide Header, Be32, Pending, TagsAt;
    HeaderRoundTrip(log[j], COMMIT, s);
  }

  lemma ScanRevoke(g: Ring, log: Log, j: nat, s: nat, revoked: set<nat>, list: seq<nat>, fuel: nat)
    requires IsLog(g, log) && InRing(g, j) && s < U32 && |list| < U32 && log[j] == RevokeBytes(list, s, g.bs)
    ensures Scan(g, log, j, s, revoked, fuel + 1) == Scan(g, log, Next(g, j), s, revoked + Carried(list, g.bs), fuel)
  {
    hide Header, Be32, Pending, TagsAt, RevokeBytes, RevokedIn, RevokedNumbers;
    RevokeRoundTrip(list, s, g.bs);
    HeaderRoundTrip(log[j], REVOKE, s);
  }

  lemma ScanData(g: Ring, log: Log, j: nat, s: nat, revoked: set<nat>, t: Txn, uuid: Bytes, fuel: nat)
    requires IsLog(g, log) && InRing(g, j) && s < U32 && t.Fits(g.bs) && t.pins != [] && |uuid| == UUID_SIZE
    requires Holds(g, log, j, DataPart(t.pins, s, uuid, g.bs) + [CommitBytes(s, g.bs)])
    ensures Scan(g, log, j, s, revoked, fuel + 1) ==
            After(Replayed(t.pins, revoked, g.has64), Scan(g, log, Skip(g, j, |t.pins| + 2), s + 1, revoked, fuel))
  {
    hide Header, Be32, DescriptorBytes, CommitBytes, ReadTags, Pending, Replayed, Scan, LoggedBlocks, Next, HasHeader;
    var d, c := DescriptorBytes(Addresses(t.pins), s, uuid, g.bs), CommitBytes(s, g.bs);
    var data := LoggedBlocks(t.pins, g.bs);
    assert DataPart(t.pins, s, uuid, g.bs) + [c] == [d] + (data + [c]);
    DescriptorHeld(g, log, j, d, data, c);
    DescriptorRoundTrip(Addresses(t.pins), s, uuid, g.bs, g.has64);
    HeaderRoundTrip(log[j], DESCRIPTOR, s);
    PendingIsReplayed(g, log, t.pins, Next(g, j), revoked);
    ScanCommit(g, log, Skip(g, Next(g, j), |t.pins|), s, revoked, 0);
    SkipSnoc(g, Next(g, j), |t.pins|);
    SkipFirst(g, j, |t.pins| + 1);
    HeaderHeld(log[j], DESCRIPTOR, s);
    ScanDescriptor(g, log, j, s, revoked, fuel);
  }

  lemma SkipFirst(g: Ring, j: nat, n: nat)
    requires g.Valid()
    ensures Skip(g, j, n + 1) == Skip(g, Next(g, j), n)
  {
  }

  lemma HeaderHeld(buf: Bytes, kind: nat, s: nat)
    requires |buf| >= HEADER_SIZE && HasMagic(buf) && Be32(buf, 4) == kind && Be32(buf, 8) == s % U32 && s < U32
    ensures HasHeader(buf, kind, s)
  {
    hide Be32;
  }

  /** A descriptor with its commit block where it has to be. */
  lemma ScanDescriptor(g: Ring, log: Log, j: nat, s: nat, revoked: set<nat>, fuel: nat)
    requires IsLog(g, log) && InRing(g, j) && HasHeader(log[j], DESCRIPTOR, s)
    requires HasHeader(log[CommitPosition(g, log, j)], COMMIT, s)
    ensures Scan(g, log, j, s, revoked, fuel + 1) ==
            After(Pending(g, log, TagsAt(g, log, j), Next(g, j), revoked),
                  Scan(g, log, Next(g, CommitPosition(g, log, j)), s + 1, revoked, fuel))
  {
    hide Pending, TagsAt, HasHeader, CommitPosition, Next;
  }

  lemma DescriptorHeld(g: Ring, log: Log, j: nat, d: Bytes, data: seq<Bytes>, c: Bytes)
    requires IsLog(g, log) && InRing(g, j) && Holds(g, log, j, [d] + (data + [c]))
    ensures log[j] == d && Holds(g, log, Next(g, j), data) && log[Skip(g, Next(g, j), |data|)] == c
  {
    assert ([d] + (data + [c]))[1..] == data + [c];
    HoldsBoth(g, log, Next(g, j), data, [c]);
  }

  function RevokeCost(revoked: seq<nat>): nat { if revoked == [] then 0 else 1 }

  function RefusedCost(lists: seq<seq<nat>>): nat {
    if lists == [] then 0 else RevokeCost(lists[0]) + RefusedCost(lists[1..])
  }

  /** Steps of the pass over one transaction. */
  function Cost(t: Txn): nat { RefusedCost(t.refused) + RevokeCost(t.revoked) + 1 }

  /** The pass over the revoke block of one commit, if it made one. */
  lemma ScanRevokePart(g: Ring, log: Log, j: nat, s: nat, revoked: set<nat>, list: seq<nat>, fuel: nat)
    requires IsLog(g, log) && InRing(g, j) && s < U32 && |list| < U32 && Holds(g, log, j, RevokePart(list, s, g.bs))
    ensures Scan(g, log, j, s, revoked, fuel + RevokeCost(list)) ==
            Scan(g, log, Skip(g, j, |RevokePart(list, s, g.bs)|), s, revoked + Carried(list, g.bs), fuel)
  {
    hide Scan, RevokeBytes, RevokedNumbers, Next, Skip;
    if list == [] {
      NothingCarried(g.bs);
      assert revoked + Carried(list, g.bs) == revoked;
      SkipNone(g, j);
    } else {
      ScanRevoke(g, log, j, s, revoked, list, fuel);
      SkipOne(g, j);
    }
  }

  lemma NothingCarried(bs: nat)
    ensures Carried([], bs) == {}
  {
  }

  /** Refused commits revoke for the transaction after them. */
  lemma {:induction false} ScanRefused(g: Ring, log: Log, j: nat, s: nat, revoked: set<nat>, lists: seq<seq<nat>>,
                                       fuel: nat)
    requires IsLog(g, log) && InRing(g, j) && s < U32 && forall i :: 0 <= i < |lists| ==> |lists[i]| < U32
    requires Holds(g, log, j, RefusedBlocks(lists, s, g.bs))
    ensures Scan(g, log, j, s, revoked, fuel + RefusedCost(lists)) ==
            Scan(g, log, Skip(g, j, |RefusedBlocks(lists, s, g.bs)|), s, revoked + RefusedNumbers(lists, g.bs), fuel)
    decreases |lists|
  {
    hide Scan, RevokePart, RevokeCost, Carried, Skip, Holds;
    if lists == [] {
      SkipNone(g, j);
      assert revoked + {} == revoked;
    } else {
      var here, rest := RevokePart(lists[0], s, g.bs), RefusedBlocks(lists[1..], s, g.bs);
      HoldsBoth(g, log, j, here, rest);
      SkipTwice(g, j, |here|, |rest|);
      ScanRevokePart(g, log, j, s, revoked, lists[0], fuel + RefusedCost(lists[1..]));
      ScanRefused(g, log, Skip(g, j, |here|), s, revoked + Carried(lists[0], g.bs), lists[1..], fuel);
      assert (revoked + Carried(lists[0], g.bs)) + RefusedNumbers(lists[1..], g.bs)
             == revoked + RefusedNumbers(lists, g.bs);
    }
  }

  /** The log of a transaction: revoke blocks, the rest, and the commit block last. */
  lemma LogParts(t: Txn, s: nat, uuid: Bytes, bs: nat)
    requires t.Fits(bs) && |uuid| == UUID_SIZE
    ensures t.Log(s, uuid, bs) == RefusedBlocks(t.refused, s, bs)
                                  + (RevokePart(t.revoked, s, bs)
                                     + (DataPart(t.pins, s, uuid, bs) + [CommitBytes(s, bs)]))
    ensures t.Log(s, uuid, bs) == (RefusedBlocks(t.refused, s, bs) + RevokePart(t.revoked, s, bs)
                                   + DataPart(t.pins, s, uuid, bs)) + [CommitBytes(s, bs)]
    ensures t.refused == [] ==> t.Log(s, uuid, bs) == LogBlocks(t.pins, t.revoked, s, uuid, bs)
  {
    hide RefusedBlocks, RevokePart, DataPart, CommitBytes;
    Regroup(RevokePart(t.revoked, s, bs), DataPart(t.pins, s, uuid, bs), [CommitBytes(s, bs)]);
    Regroup(RefusedBlocks(t.refused, s, bs), RevokePart(t.revoked, s, bs) + DataPart(t.pins, s, uuid, bs),
            [CommitBytes(s, bs)]);
    Regroup(RefusedBlocks(t.refused, s, bs), RevokePart(t.revoked, s, bs), DataPart(t.pins, s, uuid, bs));
    if t.refused == [] { NothingRefused(s, bs, LogBlocks(t.pins, t.revoked, s, uuid, bs)); }
  }

  lemma NothingRefused(s: nat, bs: nat, rest: seq<Bytes>)
    requires bs >= 1024
    ensures RefusedBlocks([], s, bs) == [] && [] + rest == rest
  {
  }

  /** The pass over one logged transaction applies its blocks, less everything revoked so far, by refused
      commits as well. */
  lemma ScanTxn(g: Ring, log: Log, j: nat, s: nat, revoked: set<nat>, t: Txn, uuid: Bytes, fuel: nat)
    requires IsLog(g, log) && InRing(g, j) && s < U32 && t.Fits(g.bs) && |uuid| == UUID_SIZE
    requires Holds(g, log, j, t.Log(s, uuid, g.bs))
    ensures var revoked' := revoked + t.Revokes(g.bs);
            Scan(g, log, j, s, revoked, fuel + Cost(t)) ==
            After(Replayed(t.pins, revoked', g.has64),
                  Scan(g, log, Skip(g, j, |t.Log(s, uuid, g.bs)|), s + 1, revoked', fuel))
  {
    hide Scan, Replayed, RevokePart, DataPart, CommitBytes, Skip, Next, Carried, RevokeCost, RefusedCost, RefusedBlocks,
      RefusedNumbers, Holds;
    var refused, revoke := RefusedBlocks(t.refused, s, g.bs), RevokePart(t.revoked, s, g.bs);
    var rest := DataPart(t.pins, s, uuid, g.bs) + [CommitBytes(s, g.bs)];
    LogParts(t, s, uuid, g.bs);
    HoldsBoth(g, log, j, refused, revoke + rest);
    HoldsBoth(g, log, Skip(g, j, |refused|), revoke, rest);
    SkipTwice(g, j, |refused|, |revoke + rest|);
    SkipTwice(g, Skip(g, j, |refused|), |revoke|, |rest|);
    var all := (revoked + RefusedNumbers(t.refused, g.bs)) + Carried(t.revoked, g.bs);
    assert all == revoked + t.Revokes(g.bs);
    ScanRefused(g, log, j, s, revoked, t.refused, fuel + 1 + RevokeCost(t.revoked));
    ScanRevokePart(g, log, Skip(g, j, |refused|), s, revoked + RefusedNumbers(t.refused, g.bs), t.revoked, fuel + 1);
    ScanRest(g, log, Skip(g, Skip(g, j, |refused|), |revoke|), s, all, t, uuid, fuel);
  }

  lemma SkipNone(g: Ring, j: nat)
    requires g.Valid()
    ensures Skip(g, j, 0) == j
  {
  }

  lemma SkipOne(g: Ring, j: nat)
    requires g.Valid()
    ensures Skip(g, j, 1) == Next(g, j)
  {
    SkipNone(g, Next(g, j));
  }

  lemma {:induction false} SkipTwice(g: Ring, j: nat, a: nat, b: nat)
    requires g.Valid()
    ensures Skip(g, j, a + b) == Skip(g, Skip(g, j, a), b)
    decreases a
  {
    hide Next;
    if a > 0 { SkipTwice(g, Next(g, j), a - 1, b); }
  }

  /** The part after the revoke block: descriptor, data and commit, or the commit alone. */
  lemma ScanRest(g: Ring, log: Log, j: nat, s: nat, revoked: set<nat>, t: Txn, uuid: Bytes, fuel: nat)
    requires IsLog(g, log) && InRing(g, j) && s < U32 && t.Fits(g.bs) && |uuid| == UUID_SIZE
    requires Holds(g, log, j, DataPart(t.pins, s, uuid, g.bs) + [CommitBytes(s, g.bs)])
    ensures Scan(g, log, j, s, revoked, fuel + 1) ==
            After(Replayed(t.pins, revoked, g.has64),
                  Scan(g, log, Skip(g, j, |DataPart(t.pins, s, uuid, g.bs) + [CommitBytes(s, g.bs)]|), s + 1, revoked,
                       fuel))
  {
    hide Scan, DescriptorBytes, CommitBytes, LoggedData, Next, TagBlock;
    if t.pins == [] {
      assert DataPart(t.pins, s, uuid, g.bs) + [CommitBytes(s, g.bs)] == [CommitBytes(s, g.bs)];
      ScanCommit(g, log, j, s, revoked, fuel);
      SkipOne(g, j);
      AfterNothing(Scan(g, log, Next(g, j), s + 1, revoked, fuel));
    } else {
      ScanData(g, log, j, s, revoked, t, uuid, fuel);
    }
  }

  lemma AfterNothing(rest: Option<Outcome>)
    ensures After([], rest) == rest
  {
    if rest.Some? { assert [] + rest.value.writes == rest.value.writes; }
  }

  lemma AfterTwice(a: Pins, b: Pins, rest: Option<Outcome>)
    ensures After(a, After(b, rest)) == After(a + b, rest)
  {
    if rest.Some? { Regroup(a, b, rest.value.writes); }
  }

  // ---- runs of transactions ----

  predicate AllFit(txns: seq<Txn>, bs: nat) {
    forall i :: 0 <= i < |txns| ==> txns[i].Fits(bs)
  }

  /** The log of a run: the transactions one after the other, numbered from `s` on. */
  function RunLog(txns: seq<Txn>, s: nat, uuid: Bytes, bs: nat): (r: seq<Bytes>)
    requires AllFit(txns, bs) && |uuid| == UUID_SIZE
    ensures forall b :: b in r ==> |b| == bs
  {
    hide Txn.Log, Txn.Fits;
    if txns == [] then []
    else
      TxnLogSized(txns[0], s, uuid, bs);
      txns[0].Log(s, uuid, bs) + RunLog(txns[1..], s + 1, uuid, bs)
  }

  lemma TxnLogSized(t: Txn, s: nat, uuid: Bytes, bs: nat)
    requires t.Fits(bs) && |uuid| == UUID_SIZE
    ensures forall b :: b in t.Log(s, uuid, bs) ==> |b| == bs
  {
    hide RevokeBytes, DescriptorBytes, CommitBytes, LoggedData, RefusedBlocks;
    RefusedSized(t.refused, s, bs);
  }

  lemma {:induction false} RefusedSized(lists: seq<seq<nat>>, s: nat, bs: nat)
    requires bs >= 1024
    ensures forall b :: b in RefusedBlocks(lists, s, bs) ==> |b| == bs
  {
    hide RevokeBytes;
    if lists != [] { RefusedSized(lists[1..], s, bs); }
  }

  /** Everything revoked after a run. */
  function RevokedAfter(txns: seq<Txn>, revoked: set<nat>, bs: nat): set<nat> {
    if txns == [] then revoked else RevokedAfter(txns[1..], revoked + txns[0].Revokes(bs), bs)
  }

  /** What replay writes for a run: each transaction less everything revoked up to and in it. */
  function RunReplayed(txns: seq<Txn>, revoked: set<nat>, g: Ring): Pins
    requires AllFit(txns, g.bs)
  {
    if txns == [] then []
    else
      var revoked' := revoked + txns[0].Revokes(g.bs);
      Replayed(txns[0].pins, revoked', g.has64) + RunReplayed(txns[1..], revoked', g)
  }

  function RunCost(txns: seq<Txn>): nat {
    if txns == [] then 0 else Cost(txns[0]) + RunCost(txns[1..])
  }

  lemma {:induction false} ScanRun(g: Ring, log: Log, j: nat, s: nat, revoked: set<nat>, txns: seq<Txn>, uuid: Bytes,
                                   fuel: nat)
    requires IsLog(g, log) && InRing(g, j) && s + |txns| <= U32 && AllFit(txns, g.bs) && |uuid| == UUID_SIZE
    requires Holds(g, log, j, RunLog(txns, s, uuid, g.bs))
    ensures Scan(g, log, j, s, revoked, fuel + RunCost(txns)) ==
            After(RunReplayed(txns, revoked, g),
                  Scan(g, log, Skip(g, j, |RunLog(txns, s, uuid, g.bs)|), s + |txns|,
                       RevokedAfter(txns, revoked, g.bs), fuel))
    decreases |txns|
  {
    hide Scan, Replayed, Txn.Log, Skip, Txn.Revokes, Next, Holds, Cost;
    if txns == [] {
      SkipNone(g, j);
      AfterNothing(Scan(g, log, j, s, revoked, fuel));
    } else {
      var t, rest := txns[0], txns[1..];
      var here, later := t.Log(s, uuid, g.bs), RunLog(rest, s + 1, uuid, g.bs);
      HoldsBoth(g, log, j, here, later);
      SkipTwice(g, j, |here|, |later|);
      ScanTxn(g, log, j, s, revoked, t, uuid, fuel + RunCost(rest));
      ScanRun(g, log, Skip(g, j, |here|), s + 1, revoked + t.Revokes(g.bs), rest, uuid, fuel);
      AfterTwice(Replayed(t.pins, revoked + t.Revokes(g.bs), g.has64),
                 RunReplayed(rest, revoked + t.Revokes(g.bs), g),
                 Scan(g, log, Skip(g, j, |here + later|), s + |txns|, RevokedAfter(txns, revoked, g.bs), fuel));
    }
  }

  // ---- ring safety ----

  /** The block is no commit block of sequence `next` or later. */
  predicate Below(buf: Bytes, next: nat)
    requires |buf| >= HEADER_SIZE
  {
    HasHeader(buf, COMMIT, Be32(buf, 8)) ==> Be32(buf, 8) < next
  }

  /** The ring holds no commit block of sequence `next` or later. */
  ghost predicate RingSafe(g: Ring, log: Log, next: nat)
    requires IsLog(g, log)
  {
    forall i :: g.first <= i < g.total ==> Below(log[i], next)
  }

  lemma OtherKind(buf: Bytes, kind: nat, s: nat, next: nat)
    requires |buf| >= HEADER_SIZE && buf[..HEADER_SIZE] == Header(kind, s) && (kind == DESCRIPTOR || kind == REVOKE)
    ensures Below(buf, next)
  {
    hide Be32, Header;
    HeaderRoundTrip(buf, kind, s);
  }

  /** Of the log blocks of a transaction only the last is a commit block. */
  lemma TxnBlocksBelow(t: Txn, s: nat, uuid: Bytes, bs: nat)
    requires t.Fits(bs) && |uuid| == UUID_SIZE && s < U32
    ensures var log := t.Log(s, uuid, bs);
            && log != [] && (forall b :: b in log ==> |b| == bs)
            && (forall i :: 0 <= i < |log| - 1 ==> Below(log[i], 0))
            && forall b :: b in log ==> Below(b, s + 1)
  {
    hide RevokeBytes, DescriptorBytes, CommitBytes, Below;
    TxnLogSized(t, s, uuid, bs);
    var log := t.Log(s, uuid, bs);
    forall i | 0 <= i < |log| - 1 ensures Below(log[i], 0) { NoCommitBefore(t, s, uuid, bs, i); }
    CommitBelow(s, bs);
    forall b | b in log ensures Below(b, s + 1) {
      var i :| 0 <= i < |log| && log[i] == b;
      if i < |log| - 1 { BelowMore(b, 0, s + 1); }
    }
  }

  lemma BelowMore(buf: Bytes, next: nat, next': nat)
    requires |buf| >= HEADER_SIZE && Below(buf, next) && next <= next'
    ensures Below(buf, next')
  {
  }

  lemma CommitBelow(s: nat, bs: nat)
    requires bs >= 1024 && s < U32
    ensures Below(CommitBytes(s, bs), s + 1)
  {
    hide Be32, Header;
    HeaderRoundTrip(CommitBytes(s, bs), COMMIT, s);
  }

  lemma NoCommitBefore(t: Txn, s: nat, uuid: Bytes, bs: nat, i: nat)
    requires t.Fits(bs) && |uuid| == UUID_SIZE && s < U32 && i < |t.Log(s, uuid, bs)| - 1
    requires |t.Log(s, uuid, bs)[i]| == bs
    ensures Below(t.Log(s, uuid, bs)[i], 0)
  {
    hide Be32, Header, RevokeBytes, DescriptorBytes, CommitBytes, RefusedBlocks, Below;
    var refused, revoke := RefusedBlocks(t.refused, s, bs), RevokePart(t.revoked, s, bs);
    var n := |refused| + |revoke|;
    if i < |refused| {
      RefusedBelow(t.refused, s, bs);
      assert refused[i] in refused;
    } else if i < n {
      RevokeBelow(t.revoked, s, bs);
    } else if i == n {
      DescriptorRoundTrip(Addresses(t.pins), s, uuid, bs, false);
      OtherKind(DescriptorBytes(Addresses(t.pins), s, uuid, bs), DESCRIPTOR, s, 0);
    } else {
      assert t.Log(s, uuid, bs)[i] == LoggedBlocks(t.pins, bs)[i - n - 1];
      DataBelow(t.pins[i - n - 1].1);
    }
  }

  lemma RevokeBelow(revoked: seq<nat>, s: nat, bs: nat)
    requires bs >= 1024 && |revoked| < U32 && s < U32
    ensures |RevokeBytes(revoked, s, bs)| == bs && Below(RevokeBytes(revoked, s, bs), 0)
  {
    hide Below, Header, RevokeBytes;
    RevokeRoundTrip(revoked, s, bs);
    OtherKind(RevokeBytes(revoked, s, bs), REVOKE, s, 0);
  }

  lemma {:induction false} RefusedBelow(lists: seq<seq<nat>>, s: nat, bs: nat)
    requires bs >= 1024 && s < U32 && forall i :: 0 <= i < |lists| ==> |lists[i]| < U32
    ensures forall b :: b in RefusedBlocks(lists, s, bs) ==> |b| == bs && Below(b, 0)
  {
    hide RevokeBytes, Below;
    if lists != [] {
      RevokeBelow(lists[0], s, bs);
      RefusedBelow(lists[1..], s, bs);
    }
  }

  lemma DataBelow(data: Bytes)
    requires |data| >= HEADER_SIZE
    ensures |LoggedData(data)| == |data| && Below(LoggedData(data), 0)
  {
    hide Be32;
  }

  lemma {:induction false} RunBlocksBelow(txns: seq<Txn>, s: nat, uuid: Bytes, bs: nat, next: nat)
    requires AllFit(txns, bs) && |uuid| == UUID_SIZE && s + |txns| <= U32 && s + |txns| <= next && bs >= 1024
    ensures forall b :: b in RunLog(txns, s, uuid, bs) ==> Below(b, next)
  {
    hide Txn.Log, Below;
    if txns != [] {
      TxnBlocksBelow(txns[0], s, uuid, bs);
      RunBlocksBelow(txns[1..], s + 1, uuid, bs, next);
      forall b | b in txns[0].Log(s, uuid, bs) ensures Below(b, next) { BelowMore(b, s + 1, next); }
    }
  }

  /** Writing blocks below `next` keeps the ring safe. */
  lemma PutKeepsSafe(g: Ring, log: Log, h: nat, blocks: seq<Bytes>, next: nat)
    requires IsLog(g, log) && InRing(g, h) && (forall b :: b in blocks ==> |b| == g.bs)
    requires RingSafe(g, log, next) && forall b :: b in blocks ==> Below(b, next)
    ensures RingSafe(g, Put(g, log, h, blocks), next)
  {
    hide Below;
    forall i | g.first <= i < g.total ensures Below(Put(g, log, h, blocks)[i], next) {
      PutFrom(g, log, h, blocks, i);
    }
  }

  /** Beyond the `n` blocks from `h` on, the ring holds no commit block of sequence `next` or later. */
  ghost predicate RestSafe(g: Ring, log: Log, h: nat, n: nat, next: nat)
    requires IsLog(g, log) && InRing(g, h)
  {
    forall i :: g.first <= i < g.total && Distance(g, h, i) >= n ==> Below(log[i], next)
  }

  lemma RestLater(g: Ring, log: Log, h: nat, n: nat, next: nat, n': nat, next': nat)
    requires IsLog(g, log) && InRing(g, h) && RestSafe(g, log, h, n, next) && n <= n' && next <= next'
    ensures RestSafe(g, log, h, n', next')
  {
  }

  lemma SafeIsRestSafe(g: Ring, log: Log, h: nat, n: nat, next: nat)
    requires IsLog(g, log) && InRing(g, h) && RingSafe(g, log, next)
    ensures RestSafe(g, log, h, n, next)
  {
    hide Below, Distance;
  }

  /** What is written over need not have been safe. */
  lemma PutMakesSafe(g: Ring, log: Log, h: nat, blocks: seq<Bytes>, next: nat)
    requires IsLog(g, log) && InRing(g, h) && (forall b :: b in blocks ==> |b| == g.bs) && |blocks| <= g.total - g.first
    requires RestSafe(g, log, h, |blocks|, next) && forall b :: b in blocks ==> Below(b, next)
    ensures RingSafe(g, Put(g, log, h, blocks), next)
  {
    hide Below, Put, Distance;
    forall i | g.first <= i < g.total ensures Below(Put(g, log, h, blocks)[i], next) {
      if Distance(g, h, i) >= |blocks| { PutFrame(g, log, h, blocks, i); } else { PutInside(g, log, h, blocks, i); }
    }
  }

  /** A position nearer than the number of blocks holds one of them. */
  lemma {:induction false} PutInside(g: Ring, log: Log, h: nat, blocks: seq<Bytes>, p: nat)
    requires IsLog(g, log) && InRing(g, h) && InRing(g, p) && forall b :: b in blocks ==> |b| == g.bs
    requires Distance(g, h, p) < |blocks| <= g.total - g.first
    ensures Put(g, log, h, blocks)[p] in blocks
    decreases |blocks|
  {
    if p == h {
      PutFrame(g, log[h := blocks[0]], Next(g, h), blocks[1..], h);
    } else {
      PutInside(g, log[h := blocks[0]], Next(g, h), blocks[1..], p);
    }
  }

  lemma SaferLater(g: Ring, log: Log, next: nat, next': nat)
    requires IsLog(g, log) && RingSafe(g, log, next) && next <= next'
    ensures RingSafe(g, log, next')
  {
  }

  /** In a safe ring the pass applies nothing once it has reached the next sequence number. */
  lemma {:induction false} TailStops(g: Ring, log: Log, j: nat, s: nat, revoked: set<nat>, fuel: nat)
    requires IsLog(g, log) && InRing(g, j) && RingSafe(g, log, s) && Scan(g, log, j, s, revoked, fuel).Some?
    ensures Scan(g, log, j, s, revoked, fuel) == Some(Outcome([], s))
    decreases fuel
  {
    hide Be32, Pending, TagsAt, CommitPosition, RevokedIn;
    NoCommitAt(g, log, j, s);
    if HasHeader(log[j], DESCRIPTOR, s) {
      NoCommitAt(g, log, CommitPosition(g, log, j), s);
    } else if HasHeader(log[j], REVOKE, s) {
      TailStops(g, log, Next(g, j), s, revoked + RevokedIn(log[j]), fuel - 1);
    }
  }

  lemma NoCommitAt(g: Ring, log: Log, j: nat, s: nat)
    requires IsLog(g, log) && InRing(g, j) && RingSafe(g, log, s)
    ensures !HasHeader(log[j], COMMIT, s)
  {
    assert Below(log[j], s);
  }

  // ---- round trip and atomicity ----

  /** The transactions that count as committed when the first `k` block writes of `t` were done, of
      which `logged` went to the log. */
  function Committed(txns: seq<Txn>, t: Txn, logged: nat, k: nat): seq<Txn> {
    if k >= logged then txns + [t] else txns
  }

  /** Replay from `h` and `s` applies exactly `run` and ends behind it, if it ends at all; it ends for
      every run with a transaction in it. */
  ghost predicate ReplaysTo(g: Ring, log: Log, h: nat, s: nat, run: seq<Txn>)
    requires IsLog(g, log) && InRing(g, h) && AllFit(run, g.bs)
  {
    && Pass(g, log, h, s) == (if AllRevokes(g, log, s) then None else Some(Outcome(RunReplayed(run, {}, g), s + |run|)))
    && (run != [] ==> !AllRevokes(g, log, s))
  }

  /** A log that holds a run and no later commit block replays to exactly that run. */
  lemma ReplayEnds(g: Ring, log: Log, h: nat, s: nat, txns: seq<Txn>, uuid: Bytes)
    requires IsLog(g, log) && InRing(g, h) && s + |txns| <= U32 && AllFit(txns, g.bs) && |uuid| == UUID_SIZE
    requires Holds(g, log, h, RunLog(txns, s, uuid, g.bs)) && RingSafe(g, log, s + |txns|)
    ensures ReplaysTo(g, log, h, s, txns)
  {
    hide Scan, RunLog, RunReplayed, RingSafe, Holds, Skip, RunCost, RevokedAfter, AllRevokes, Pass;
    if txns != [] { RunEnds(g, log, h, s, txns, uuid); }
    if !AllRevokes(g, log, s) {
      var end, revoked := Skip(g, h, |RunLog(txns, s, uuid, g.bs)|), RevokedAfter(txns, {}, g.bs);
      var fuel := Enough(g, log, h, s);
      PassIs(g, log, h, s, fuel);
      ScanMore(g, log, h, s, {}, fuel, fuel + RunCost(txns));
      ScanRun(g, log, h, s, {}, txns, uuid, fuel);
      TailStops(g, log, end, s + |txns|, revoked, fuel);
      assert RunReplayed(txns, {}, g) + [] == RunReplayed(txns, {}, g);
    }
  }

  /** A log that holds a transaction is not all revoke blocks. */
  lemma RunEnds(g: Ring, log: Log, h: nat, s: nat, txns: seq<Txn>, uuid: Bytes)
    requires IsLog(g, log) && InRing(g, h) && AllFit(txns, g.bs) && |uuid| == UUID_SIZE && txns != [] && s < U32
    requires Holds(g, log, h, RunLog(txns, s, uuid, g.bs))
    ensures !AllRevokes(g, log, s)
  {
    hide Scan, CommitBytes, HasHeader;
    var whole, rest := txns[0].Log(s, uuid, g.bs), RunLog(txns[1..], s + 1, uuid, g.bs);
    var n := |whole| - 1;
    HoldsBoth(g, log, h, whole, rest);
    LogParts(txns[0], s, uuid, g.bs);
    assert whole == whole[..n] + [CommitBytes(s, g.bs)];
    HoldsBoth(g, log, h, whole[..n], [CommitBytes(s, g.bs)]);
    var w := Skip(g, h, n);
    ScanCommit(g, log, w, s, {}, 0);
    OneKind(log[w], s);
  }

  lemma RunLogHead(t: Txn, rest: seq<Txn>, s: nat, uuid: Bytes, bs: nat)
    requires t.Fits(bs) && AllFit(rest, bs) && |uuid| == UUID_SIZE
    ensures AllFit([t] + rest, bs)
    ensures RunLog([t] + rest, s, uuid, bs) == t.Log(s, uuid, bs) + RunLog(rest, s + 1, uuid, bs)
  {
    hide Txn.Log, Txn.Fits;
    assert ([t] + rest)[1..] == rest;
  }

  lemma {:induction false} RunLogSnoc(txns: seq<Txn>, t: Txn, s: nat, uuid: Bytes, bs: nat)
    requires AllFit(txns, bs) && t.Fits(bs) && |uuid| == UUID_SIZE
    ensures AllFit(txns + [t], bs)
    ensures RunLog(txns + [t], s, uuid, bs) == RunLog(txns, s, uuid, bs) + t.Log(s + |txns|, uuid, bs)
    decreases |txns|
  {
    hide Txn.Log, Txn.Fits, RunLog;
    if txns == [] {
      RunLogHead(t, [], s, uuid, bs);
      NoRun(s, uuid, bs);
      NoRun(s + 1, uuid, bs);
      assert [] + [t] == [t] + [];
      assert t.Log(s, uuid, bs) + [] == [] + t.Log(s, uuid, bs);
    } else {
      var first, rest := txns[0], txns[1..];
      assert txns + [t] == [first] + (rest + [t]) && txns == [first] + rest;
      RunLogSnoc(rest, t, s + 1, uuid, bs);
      RunLogHead(first, rest + [t], s, uuid, bs);
      RunLogHead(first, rest, s, uuid, bs);
    }
  }

  lemma NoRun(s: nat, uuid: Bytes, bs: nat)
    requires |uuid| == UUID_SIZE
    ensures RunLog([], s, uuid, bs) == []
  {
  }

  lemma PrefixBelow(txns: seq<Txn>, t: Txn, s: nat, uuid: Bytes, bs: nat, k: nat)
    requires AllFit(txns, bs) && t.Fits(bs) && |uuid| == UUID_SIZE && s + |txns| < U32
    requires k <= |t.Log(s + |txns|, uuid, bs)|
    ensures var whole := t.Log(s + |txns|, uuid, bs);
            var n := s + |txns| + (if k == |whole| then 1 else 0);
            && (forall b :: b in RunLog(txns, s, uuid, bs) + whole[..k] ==> |b| == bs)
            && forall b :: b in RunLog(txns, s, uuid, bs) + whole[..k] ==> Below(b, n)
  {
    hide RunLog, Txn.Log, Below;
    var whole := t.Log(s + |txns|, uuid, bs);
    var n := s + |txns| + (if k == |whole| then 1 else 0);
    RunBlocksBelow(txns, s, uuid, bs, n);
    TxnBlocksBelow(t, s + |txns|, uuid, bs);
    forall b | b in whole[..k] ensures |b| == bs && Below(b, n) {
      var i :| 0 <= i < k && whole[i] == b;
      assert whole[i] in whole;
      if k < |whole| { BelowMore(b, 0, n); }
    }
  }

  /** The log blocks of the run `txns`, and the first `k` of `t`. */
  function LoggedSoFar(txns: seq<Txn>, t: Txn, s: nat, uuid: Bytes, bs: nat, k: nat): (r: seq<Bytes>)
    requires AllFit(txns, bs) && t.Fits(bs) && |uuid| == UUID_SIZE && s + |txns| < U32
    requires k <= |t.Log(s + |txns|, uuid, bs)|
    ensures forall b :: b in r ==> |b| == bs
  {
    PrefixBelow(txns, t, s, uuid, bs, k);
    RunLog(txns, s, uuid, bs) + t.Log(s + |txns|, uuid, bs)[..k]
  }

  /** Atomicity over runs. After the transactions `txns` and the first `k` log writes of `t`, replay from
      the start of the run applies the run without `t`, or with all of it exactly when its commit block
      is among the `k`; and the ring stays safe at every point. */
  lemma CommitIsAtomic(g: Ring, log: Log, h: nat, s: nat, txns: seq<Txn>, t: Txn, uuid: Bytes, k: nat)
    requires IsLog(g, log) && InRing(g, h) && AllFit(txns, g.bs) && t.Fits(g.bs) && |uuid| == UUID_SIZE
    requires s + |txns| < U32 && k <= |t.Log(s + |txns|, uuid, g.bs)|
    requires |RunLog(txns, s, uuid, g.bs)| + k <= g.total - g.first
    requires RestSafe(g, log, h, |RunLog(txns, s, uuid, g.bs)| + k, s + |txns|)
    ensures var whole := t.Log(s + |txns|, uuid, g.bs);
            var run, blocks := Committed(txns, t, |whole|, k), LoggedSoFar(txns, t, s, uuid, g.bs, k);
            && AllFit(run, g.bs)
            && RingSafe(g, Put(g, log, h, blocks), s + |run|)
            && ReplaysTo(g, Put(g, log, h, blocks), h, s, run)
  {
    hide RunLog, RingSafe, Holds, Skip, Txn.Log, Txn.Fits, Put, Below, ReplaysTo;
    var whole := t.Log(s + |txns|, uuid, g.bs);
    var run, blocks := Committed(txns, t, |whole|, k), LoggedSoFar(txns, t, s, uuid, g.bs, k);
    PrefixBelow(txns, t, s, uuid, g.bs, k);
    RestLater(g, log, h, |blocks|, s + |txns|, |blocks|, s + |run|);
    PutMakesSafe(g, log, h, blocks, s + |run|);
    PutHolds(g, log, h, blocks);
    HoldsBoth(g, Put(g, log, h, blocks), h, RunLog(txns, s, uuid, g.bs), whole[..k]);
    if k == |whole| {
      RunLogSnoc(txns, t, s, uuid, g.bs);
      assert whole[..k] == whole;
    }
    ReplayEnds(g, Put(g, log, h, blocks), h, s, run, uuid);
  }

  /** Round trip: a run that fits the ring, wrapping included, is replayed from its start to its end,
      whatever the ring held before. */
  lemma RunRoundTrip(g: Ring, log: Log, h: nat, s: nat, txns: seq<Txn>, uuid: Bytes)
    requires IsLog(g, log) && InRing(g, h) && AllFit(txns, g.bs) && |uuid| == UUID_SIZE && txns != []
    requires s + |txns| <= U32 && |RunLog(txns, s, uuid, g.bs)| <= g.total - g.first
    requires RestSafe(g, log, h, |RunLog(txns, s, uuid, g.bs)|, s + |txns|)
    ensures Pass(g, Put(g, log, h, RunLog(txns, s, uuid, g.bs)), h, s)
            == Some(Outcome(RunReplayed(txns, {}, g), s + |txns|))
  {
    hide RunLog, RingSafe, Skip, Txn.Log, Put, Below, Pass, RunReplayed, AllRevokes;
    var blocks := RunLog(txns, s, uuid, g.bs);
    RunBlocksBelow(txns, s, uuid, g.bs, s + |txns|);
    PutMakesSafe(g, log, h, blocks, s + |txns|);
    PutHolds(g, log, h, blocks);
    ReplayEnds(g, Put(g, log, h, blocks), h, s, txns, uuid);
  }

  // ---- when replay writes exactly what was pinned ----

  function AllPins(txns: seq<Txn>): Pins {
    if txns == [] then [] else txns[0].pins + AllPins(txns[1..])
  }

  /** The block can be named by a tag, has not been revoked, and does not start with the magic. */
  predicate Restorable(block: nat, data: Bytes, revoked: set<nat>, has64: bool)
    requires |data| >= 4
  {
    TagBlock(block, has64) == block && block !in revoked && !HasMagic(data)
  }

  /** All pinned blocks of all transactions are restorable. */
  predicate AllRestorable(txns: seq<Txn>, revoked: set<nat>, g: Ring)
    requires AllFit(txns, g.bs)
  {
    txns == []
    || (var revoked' := revoked + txns[0].Revokes(g.bs);
        && (forall i :: 0 <= i < |txns[0].pins| ==>
              Restorable(txns[0].pins[i].0, txns[0].pins[i].1, revoked', g.has64))
        && AllRestorable(txns[1..], revoked', g))
  }

  lemma {:induction false} TxnRestored(pins: Pins, revoked: set<nat>, has64: bool)
    requires forall i :: 0 <= i < |pins| ==> |pins[i].1| >= 4
    ensures |Replayed(pins, revoked, has64)| <= |pins|
    ensures Replayed(pins, revoked, has64) == pins <==>
            forall i :: 0 <= i < |pins| ==> Restorable(pins[i].0, pins[i].1, revoked, has64)
  {
    hide TagBlock;
    if pins != [] {
      TxnRestored(pins[1..], revoked, has64);
      assert pins == [pins[0]] + pins[1..];
      assert forall i :: 0 <= i < |pins| - 1 ==> pins[1..][i] == pins[i + 1];
    }
  }

  /** Replay of a run writes exactly the pinned blocks, in order, if and only if no block was revoked in
      the same or an earlier transaction or by a commit refused before, none starts with the magic,
      and all numbers fit their tags. */
  lemma {:induction false} RestoresExactly(txns: seq<Txn>, revoked: set<nat>, g: Ring)
    requires AllFit(txns, g.bs)
    ensures |RunReplayed(txns, revoked, g)| <= |AllPins(txns)|
    ensures RunReplayed(txns, revoked, g) == AllPins(txns) <==> AllRestorable(txns, revoked, g)
    decreases |txns|
  {
    hide Replayed, Restorable, Txn.Revokes;
    if txns != [] {
      var revoked' := revoked + txns[0].Revokes(g.bs);
      TxnRestored(txns[0].pins, revoked', g.has64);
      RestoresExactly(txns[1..], revoked', g);
      SameParts(Replayed(txns[0].pins, revoked', g.has64), RunReplayed(txns[1..], revoked', g),
                txns[0].pins, AllPins(txns[1..]));
    }
  }

  lemma SameParts(a: Pins, b: Pins, c: Pins, d: Pins)
    requires |a| <= |c| && |b| <= |d|
    ensures a + b == c + d <==> (a == c && b == d)
  {
    if a + b == c + d {
      assert (a + b)[..|a|] == a && (c + d)[..|c|] == c && (a + b)[|a|..] == b && (c + d)[|c|..] == d;
    }
  }

  /** A revoked block is not written again in the same pass. */
  lemma {:induction false} RevokedNotReplayed(pins: Pins, revoked: set<nat>, has64: bool, x: nat)
    requires x in revoked && forall i :: 0 <= i < |pins| ==> |pins[i].1| >= 4
    ensures forall w :: w in Replayed(pins, revoked, has64) ==> w.0 != x
  {
    hide TagBlock, LoggedData;
    if pins != [] { RevokedNotReplayed(pins[1..], revoked, has64, x); }
  }

  lemma {:induction false} RevokedForGood(txns: seq<Txn>, revoked: set<nat>, g: Ring, x: nat)
    requires AllFit(txns, g.bs) && x in revoked
    ensures forall w :: w in RunReplayed(txns, revoked, g) ==> w.0 != x
    decreases |txns|
  {
    hide Replayed, Txn.Revokes;
    if txns != [] {
      var revoked' := revoked + txns[0].Revokes(g.bs);
      RevokedNotReplayed(txns[0].pins, revoked', g.has64, x);
      RevokedForGood(txns[1..], revoked', g, x);
    }
  }

  /** A commit that was refused still counts in replay: a block that it revoked is written by none of the
      transactions committed after it, however often they pin it. */
  lemma RefusedCommitDrops(txns: seq<Txn>, revoked: set<nat>, g: Ring, x: nat)
    requires AllFit(txns, g.bs) && txns != [] && x in RefusedNumbers(txns[0].refused, g.bs)
    ensures forall w :: w in RunReplayed(txns, revoked, g) ==> w.0 != x
  {
    hide Replayed, RefusedNumbers, Carried, RunReplayed;
    var revoked' := revoked + txns[0].Revokes(g.bs);
    RunReplayedHead(txns, revoked, g);
    RevokedNotReplayed(txns[0].pins, revoked', g.has64, x);
    RevokedForGood(txns[1..], revoked', g, x);
  }

  lemma RunReplayedHead(txns: seq<Txn>, revoked: set<nat>, g: Ring)
    requires AllFit(txns, g.bs) && txns != []
    ensures var revoked' := revoked + txns[0].Revokes(g.bs);
            RunReplayed(txns, revoked, g)
              == Replayed(txns[0].pins, revoked', g.has64) + RunReplayed(txns[1..], revoked', g)
  {
    hide Replayed, Txn.Revokes;
  }
}

/** Replaying the journal: a forward pass over the ring of log blocks that applies the blocks of every
    committed transaction and stops at the first block that does not continue the log. */
module JournalReplay {
  import opened Base
  import opened Device
  import opened JournalFormat
  import opened JournalLog

  // ---- what replay does, as a function of the log ----

  /** The writes a descriptor stands for: block and data of each tag that is neither deleted nor revoked. */
  function Pending(g: Ring, log: Log, tags: seq<Tag>, j: nat, revoked: set<nat>): Pins
    requires IsLog(g, log) && InRing(g, j)
    decreases |tags|
  {
    if tags == [] then []
    else
      (if tags[0].block in revoked || tags[0].deleted then []
       else [(tags[0].block, Unescaped(log[j], tags[0].escape))])
      + Pending(g, log, tags[1..], Next(g, j), revoked)
  }

  /** What a pass comes to: the writes it applies, in order, and the sequence number it stops at. */
  datatype Outcome = Outcome(writes: Pins, sequence: nat)

  function After(writes: Pins, rest: Option<Outcome>): Option<Outcome> {
    match rest
    case None => None
    case Some(o) => Some(Outcome(writes + o.writes, o.sequence))
  }

  /** The tags of the descriptor at `j`. */
  function TagsAt(g: Ring, log: Log, j: nat): seq<Tag>
    requires IsLog(g, log) && InRing(g, j)
  {
    ReadTags(log[j], HEADER_SIZE, g.has64)
  }

  /** Where the commit block of the descriptor at `j` has to be. */
  function CommitPosition(g: Ring, log: Log, j: nat): (p: nat)
    requires IsLog(g, log) && InRing(g, j)
    ensures InRing(g, p)
  {
    Skip(g, Next(g, j), |TagsAt(g, log, j)|)
  }

  /** The pass from position `j` with sequence number `s` and revoke set `revoked`; None if it takes
      more than `fuel` blocks and descriptors. */
  function Scan(g: Ring, log: Log, j: nat, s: nat, revoked: set<nat>, fuel: nat): Option<Outcome>
    requires IsLog(g, log) && InRing(g, j)
    decreases fuel
  {
    if fuel == 0 then None
    else if HasHeader(log[j], DESCRIPTOR, s) then
      var p := CommitPosition(g, log, j);
      if !HasHeader(log[p], COMMIT, s) then Some(Outcome([], s))
      else
        After(Pending(g, log, TagsAt(g, log, j), Next(g, j), revoked),
              Scan(g, log, Next(g, p), s + 1, revoked, fuel - 1))
    else if HasHeader(log[j], COMMIT, s) then Scan(g, log, Next(g, j), s + 1, revoked, fuel - 1)
    else if HasHeader(log[j], REVOKE, s) then Scan(g, log, Next(g, j), s, revoked + RevokedIn(log[j]), fuel - 1)
    else Some(Outcome([], s))
  }

  // ---- termination ----

  /** Every block of the ring is a revoke block of sequence `s`. */
  predicate AllRevokes(g: Ring, log: Log, s: nat)
    requires IsLog(g, log)
  {
    forall i :: g.first <= i < g.total ==> HasHeader(log[i], REVOKE, s)
  }

  /** How many of the first `n` blocks are commit blocks of sequence `s` or later. */
  function CommitsFrom(g: Ring, log: Log, n: nat, s: nat): nat
    requires IsLog(g, log) && n <= g.total
  {
    if n == 0 then 0
    else CommitsFrom(g, log, n - 1, s)
         + (if HasHeader(log[n - 1], COMMIT, Be32(log[n - 1], 8)) && Be32(log[n - 1], 8) >= s then 1 else 0)
  }

  lemma {:induction false} CommitsFall(g: Ring, log: Log, n: nat, s: nat)
    requires IsLog(g, log) && n <= g.total
    ensures CommitsFrom(g, log, n, s + 1) <= CommitsFrom(g, log, n, s)
  {
    if n > 0 { CommitsFall(g, log, n - 1, s); }
  }

  /** Passing a commit block of sequence `s` leaves fewer to come. */
  lemma {:induction false} CommitPassed(g: Ring, log: Log, n: nat, s: nat, p: nat)
    requires IsLog(g, log) && p < n <= g.total && HasHeader(log[p], COMMIT, s)
    ensures CommitsFrom(g, log, n, s + 1) < CommitsFrom(g, log, n, s)
  {
    if p < n - 1 { CommitPassed(g, log, n - 1, s, p); } else { CommitsFall(g, log, n - 1, s); }
  }

  lemma {:induction false} Terminating(g: Ring, log: Log, j: nat, s: nat, revoked: set<nat>, w: nat) returns (fuel: nat)
    requires IsLog(g, log) && InRing(g, j) && InRing(g, w) && !HasHeader(log[w], REVOKE, s)
    ensures Scan(g, log, j, s, revoked, fuel).Some?
    decreases CommitsFrom(g, log, g.total, s), Distance(g, j, w)
  {
    hide Pending, TagsAt, HasHeader, RevokedIn;
    if HasHeader(log[j], DESCRIPTOR, s) {
      var p := CommitPosition(g, log, j);
      if HasHeader(log[p], COMMIT, s) {
        CommitPassed(g, log, g.total, s, p);
        OneKind(log[p], s);
        fuel := Terminating(g, log, Next(g, p), s + 1, revoked, p);
        fuel := fuel + 1;
      } else {
        fuel := 1;
      }
    } else if HasHeader(log[j], COMMIT, s) {
      CommitPassed(g, log, g.total, s, j);
      OneKind(log[j], s);
      fuel := Terminating(g, log, Next(g, j), s + 1, revoked, j);
      fuel := fuel + 1;
    } else if HasHeader(log[j], REVOKE, s) {
      fuel := Terminating(g, log, Next(g, j), s, revoked + RevokedIn(log[j]), w);
      fuel := fuel + 1;
    } else {
      fuel := 1;
    }
  }

  /** A commit block is no revoke block of any sequence. */
  lemma OneKind(buf: Bytes, s: nat)
    requires |buf| >= HEADER_SIZE && HasHeader(buf, COMMIT, s)
    ensures forall t: nat :: !HasHeader(buf, REVOKE, t)
  {
  }

  lemma {:induction false} LoopsForever(g: Ring, log: Log, j: nat, s: nat, revoked: set<nat>, fuel: nat)
    requires IsLog(g, log) && InRing(g, j) && AllRevokes(g, log, s)
    ensures Scan(g, log, j, s, revoked, fuel) == None
    decreases fuel
  {
    if fuel > 0 {
      assert HasHeader(log[j], REVOKE, s);
      LoopsForever(g, log, Next(g, j), s, revoked + RevokedIn(log[j]), fuel - 1);
    }
  }

  /** Replay of any log, from any position and sequence number, terminates unless the whole ring
      consists of revoke blocks of that sequence number. */
  lemma TerminatesExactly(g: Ring, log: Log, j: nat, s: nat, revoked: set<nat>)
    requires IsLog(g, log) && InRing(g, j)
    ensures (exists fuel: nat :: Scan(g, log, j, s, revoked, fuel).Some?) <==> !AllRevokes(g, log, s)
  {
    hide Scan, HasHeader;
    if AllRevokes(g, log, s) {
      forall fuel: nat ensures Scan(g, log, j, s, revoked, fuel) == None { LoopsForever(g, log, j, s, revoked, fuel); }
    } else {
      var w :| g.first <= w < g.total && !HasHeader(log[w], REVOKE, s);
      var fuel := Terminating(g, log, j, s, revoked, w);
    }
  }

  /** More fuel changes nothing. */
  lemma {:induction false} ScanMore(g: Ring, log: Log, j: nat, s: nat, revoked: set<nat>, fuel: nat, more: nat)
    requires IsLog(g, log) && InRing(g, j) && Scan(g, log, j, s, revoked, fuel).Some? && fuel <= more
    ensures Scan(g, log, j, s, revoked, more) == Scan(g, log, j, s, revoked, fuel)
    decreases fuel
  {
    hide Pending, TagsAt, HasHeader, RevokedIn;
    if HasHeader(log[j], DESCRIPTOR, s) {
      var p := CommitPosition(g, log, j);
      if HasHeader(log[p], COMMIT, s) { ScanMore(g, log, Next(g, p), s + 1, revoked, fuel - 1, more - 1); }
    } else if HasHeader(log[j], COMMIT, s) {
      ScanMore(g, log, Next(g, j), s + 1, revoked, fuel - 1, more - 1);
    } else if HasHeader(log[j], REVOKE, s) {
      ScanMore(g, log, Next(g, j), s, revoked + RevokedIn(log[j]), fuel - 1, more - 1);
    }
  }

  /** Fuel enough for the pass from `j` and `s`. */
  ghost function Enough(g: Ring, log: Log, j: nat, s: nat): (fuel: nat)
    requires IsLog(g, log) && InRing(g, j) && !AllRevokes(g, log, s)
    ensures Scan(g, log, j, s, {}, fuel).Some?
  {
    TerminatesExactly(g, log, j, s, {});
    var fuel: nat :| Scan(g, log, j, s, {}, fuel).Some?;
    fuel
  }

  /** What replay from position `j` and sequence number `s` comes to; None if it never ends. */
  ghost function Pass(g: Ring, log: Log, j: nat, s: nat): (r: Option<Outcome>)
    requires IsLog(g, log) && InRing(g, j)
    ensures r.Some? <==> !AllRevokes(g, log, s)
  {
    if AllRevokes(g, log, s) then None else Scan(g, log, j, s, {}, Enough(g, log, j, s))
  }

  /** Any pass that ends within its fuel comes to that. */
  lemma PassIs(g: Ring, log: Log, j: nat, s: nat, fuel: nat)
    requires IsLog(g, log) && InRing(g, j) && Scan(g, log, j, s, {}, fuel).Some?
    ensures Pass(g, log, j, s) == Scan(g, log, j, s, {}, fuel)
  {
    hide Scan, AllRevokes;
    TerminatesExactly(g, log, j, s, {});
    var enough := Enough(g, log, j, s);
    if fuel <= enough { ScanMore(g, log, j, s, {}, fuel, enough); } else { ScanMore(g, log, j, s, {}, enough, fuel); }
  }

  // ---- replay on the device ----

  /** The pass from `j` and `s` ends and writes to none of these blocks. */
  ghost predicate PassAvoids(g: Ring, log: Log, j: nat, s: nat, blocks: set<nat>)
    requires IsLog(g, log) && InRing(g, j)
  {
    Pass(g, log, j, s).Some? && Avoids(Pass(g, log, j, s).value.writes, blocks)
  }

  lemma {:induction false} PendingSized(g: Ring, log: Log, tags: seq<Tag>, j: nat, revoked: set<nat>)
    requires IsLog(g, log) && InRing(g, j)
    ensures Sized(Pending(g, log, tags, j, revoked), g.bs)
    decreases |tags|
  {
    if tags != [] { PendingSized(g, log, tags[1..], Next(g, j), revoked); }
  }

  /** Reads the descriptor at `j`, and the data blocks of its live tags as it goes along. */
  method ParseDescriptor(dev: BlockDevice, jn: Journal, j: nat, revoked: set<nat>) returns (next: nat, pending: Pins)
    requires jn.Valid(dev.blockSize) && InRing(jn.Geometry(dev.blockSize), j)
    ensures next == CommitPosition(jn.Geometry(dev.blockSize), LogOn(dev.disk, dev.blockSize, jn), j)
    ensures pending == Pending(jn.Geometry(dev.blockSize), LogOn(dev.disk, dev.blockSize, jn),
                               TagsAt(jn.Geometry(dev.blockSize), LogOn(dev.disk, dev.blockSize, jn), j),
                               Next(jn.Geometry(dev.blockSize), j), revoked)
  {
    hide ReadAt, TagIn, AfterTag, IsLastTag, Pending, Skip, LogOn, Unescaped;
    var g := jn.Geometry(dev.blockSize);
    ghost var log := LogOn(dev.disk, dev.blockSize, jn);
    var buf := dev.Read(jn.blocks[j]);
    var off, last := HEADER_SIZE, false;
    next, pending := Next(g, j), [];
    ghost var tags := ReadTags(buf, off, g.has64);
    while !last && off + TAG_SIZE <= |buf|
      invariant InRing(g, next) && tags == if last then [] else ReadTags(buf, off, g.has64)
      invariant Skip(g, next, |tags|) == CommitPosition(g, log, j)
      invariant pending + Pending(g, log, tags, next, revoked)
                == Pending(g, log, TagsAt(g, log, j), Next(g, j), revoked)
      decreases |buf| - off
    {
      var tag := TagIn(buf, off, g.has64);
      last := IsLastTag(buf, off);
      off := AfterTag(buf, off);
      TagTaken(g, log, tag, if last then [] else ReadTags(buf, off, g.has64), next, revoked, pending);
      if tag.block !in revoked && !tag.deleted {
        var data := dev.Read(jn.blocks[next]);
        pending := pending + [(tag.block, Unescaped(data, tag.escape))];
      }
      next := Next(g, next);
      tags := if last then [] else ReadTags(buf, off, g.has64);
    }
    NoTags(g, log, next, revoked);
  }

  lemma NoTags(g: Ring, log: Log, j: nat, revoked: set<nat>)
    requires IsLog(g, log) && InRing(g, j)
    ensures Pending(g, log, [], j, revoked) == [] && Skip(g, j, 0) == j
  {
  }

  lemma TagTaken(g: Ring, log: Log, tag: Tag, rest: seq<Tag>, j: nat, revoked: set<nat>, pending: Pins)
    requires IsLog(g, log) && InRing(g, j)
    ensures Skip(g, j, |[tag] + rest|) == Skip(g, Next(g, j), |rest|)
    ensures (if tag.block in revoked || tag.deleted then pending
             else pending + [(tag.block, Unescaped(log[j], tag.escape))]) + Pending(g, log, rest, Next(g, j), revoked)
            == pending + Pending(g, log, [tag] + rest, j, revoked)
  {
    hide Unescaped, Next;
    var here := if tag.block in revoked || tag.deleted then [] else [(tag.block, Unescaped(log[j], tag.escape))];
    TagFirst(g, log, tag, rest, j, revoked);
    Regroup(pending, here, Pending(g, log, rest, Next(g, j), revoked));
    if tag.block in revoked || tag.deleted { assert pending + [] == pending; }
  }

  lemma TagFirst(g: Ring, log: Log, tag: Tag, rest: seq<Tag>, j: nat, revoked: set<nat>)
    requires IsLog(g, log) && InRing(g, j)
    ensures Pending(g, log, [tag] + rest, j, revoked) ==
            (if tag.block in revoked || tag.deleted then [] else [(tag.block, Unescaped(log[j], tag.escape))])
            + Pending(g, log, rest, Next(g, j), revoked)
  {
    hide Unescaped, Next;
    assert ([tag] + rest)[1..] == rest;
  }

  /** Records in the journal superblock that there is nothing to replay before `seqno`. */
  method MarkJournalClean(dev: BlockDevice, jn: Journal, seqno: nat)
    requires 1024 <= dev.blockSize && jn.Valid(dev.blockSize)
    modifies dev`disk
    ensures dev.disk == old(dev.disk)[jn.blocks[0] := MarkedClean(ReadAt(old(dev.disk), dev.blockSize, jn.blocks[0]),
                                                                  seqno)]
  {
    var data := dev.Read(jn.blocks[0]);
    data := Patch(Patch(data, 28, ToBe32(0)), 24, ToBe32(seqno));
    dev.Write(jn.blocks[0], data);
  }

  /** The next writes of a pass whose writes all stay out of the journal. */
  lemma PartApplied(disk: Disk, done: Pins, pending: Pins, rest: Pins, jn: Journal, bs: nat)
    requires jn.Geometry(bs).Valid() && |jn.blocks| >= jn.sb.total && Avoids(done, jn.Blocks())
    requires Avoids(done + (pending + rest), jn.Blocks()) && Sized(done, bs) && Sized(pending, bs)
    ensures done + (pending + rest) == (done + pending) + rest
    ensures Applied(Applied(disk, done), pending) == Applied(disk, done + pending)
    ensures Avoids(done + pending, jn.Blocks()) && Sized(done + pending, bs)
    ensures LogOn(Applied(disk, done + pending), bs, jn) == LogOn(disk, bs, jn)
  {
    hide LogOn, Applied, Avoids, Sized, Journal.Blocks;
    assert done + (pending + rest) == (done + pending) + rest;
    AvoidsParts(done, pending + rest, jn.Blocks());
    AvoidsParts(pending, rest, jn.Blocks());
    MoreApplied(disk, done, pending, jn, bs);
  }

  /** Replays the journal in place and marks it clean. `o` is what the pass over the log comes to. */
  method Replay(dev: BlockDevice, jn: Journal) returns (ghost o: Outcome)
    requires 1024 <= dev.blockSize && jn.Valid(dev.blockSize)
    requires !jn.sb.IsClean() ==>
               var g, log := jn.Geometry(dev.blockSize), LogOn(dev.disk, dev.blockSize, jn);
               InRing(g, jn.sb.start) && PassAvoids(g, log, jn.sb.start, jn.sb.startSequence, jn.Blocks())
    modifies dev`disk
    ensures jn.sb.IsClean() ==> dev.disk == old(dev.disk)
    ensures !jn.sb.IsClean() ==>
              && Pass(jn.Geometry(dev.blockSize), LogOn(old(dev.disk), dev.blockSize, jn), jn.sb.start,
                      jn.sb.startSequence)
                 == Some(o)
              && Sized(o.writes, dev.blockSize) && Avoids(o.writes, jn.Blocks())
              && dev.disk == Applied(old(dev.disk), o.writes)
                             [jn.blocks[0] := MarkedClean(ReadAt(old(dev.disk), dev.blockSize, jn.blocks[0]),
                                                          o.sequence)]
  {
    hide ReadAt, HasMagic, Be32, Pending, TagsAt, CommitPosition, RevokedIn, LogOn, Applied, MarkedClean, Avoids, Sized,
      Journal.Blocks;
    if jn.sb.IsClean() { o := Outcome([], jn.sb.startSequence); return; }
    var g, bs := jn.Geometry(dev.blockSize), dev.blockSize;
    ghost var log := LogOn(dev.disk, bs, jn);
    var j, s, revoked := jn.sb.start, jn.sb.startSequence, {};
    ghost var fuel := Enough(g, log, j, s);
    ghost var rest := Scan(g, log, j, s, {}, fuel).value;
    ghost var done: Pins := [];
    o := rest;
    PassIs(g, log, j, s, fuel);
    NothingApplied(dev.disk, jn.Blocks(), bs);
    while true
      invariant InRing(g, j) && Scan(g, log, j, s, revoked, fuel) == Some(rest)
      invariant o.writes == done + rest.writes && o.sequence == rest.sequence
      invariant LogOn(dev.disk, bs, jn) == log && dev.disk == Applied(old(dev.disk), done)
      invariant Avoids(o.writes, jn.Blocks()) && Avoids(done, jn.Blocks()) && Sized(done, bs)
      decreases fuel
    {
      var buf := dev.Read(jn.blocks[j]);
      if !HasMagic(buf) { break; }
      if Be32(buf, 8) != s { break; }
      fuel := fuel - 1;
      if Be32(buf, 4) == DESCRIPTOR {
        var next, pending := ParseDescriptor(dev, jn, j, revoked);
        var commit := dev.Read(jn.blocks[next]);
        if !HasHeader(commit, COMMIT, s) { break; }
        rest := Scan(g, log, Next(g, next), s + 1, revoked, fuel).value;
        PendingSized(g, log, TagsAt(g, log, j), Next(g, j), revoked);
        PartApplied(old(dev.disk), done, pending, rest.writes, jn, bs);
        WriteAll(dev, pending);
        done := done + pending;
        s := s + 1;
        j := Next(g, next);
      } else if Be32(buf, 4) == COMMIT {
        s := s + 1;
        j := Next(g, j);
      } else if Be32(buf, 4) == REVOKE {
        revoked := CollectRevoked(buf, revoked);
        j := Next(g, j);
      } else {
        break;
      }
    }
    assert o == Outcome(done, s);
    SuperUnchanged(old(dev.disk), done, jn, bs);
    MarkJournalClean(dev, jn, s);
  }

  lemma SuperUnchanged(disk: Disk, done: Pins, jn: Journal, bs: nat)
    requires jn.Geometry(bs).Valid() && |jn.blocks| >= jn.sb.total && Avoids(done, jn.Blocks())
    ensures ReadAt(Applied(disk, done), bs, jn.blocks[0]) == ReadAt(disk, bs, jn.blocks[0])
  {
    hide Applied;
    assert jn.blocks[0] in jn.Blocks();
    AppliedElsewhere(disk, done, jn.Blocks());
  }
}

/** Committing a transaction: its revoke, descriptor, data and commit blocks go to the log one after
    the other, then its blocks to their places in the filesystem. */
module JournalWriter {
  import opened Base
  import opened Device
  import opened JournalFormat
  import opened JournalLog

  // ---- what commit writes ----

  function Addresses(pins: Pins): (r: seq<nat>)
    ensures |r| == |pins|
    ensures forall i :: 0 <= i < |pins| ==> r[i] == pins[i].0
  {
    seq(|pins|, i requires 0 <= i < |pins| => pins[i].0)
  }

  function LoggedBlocks(pins: Pins, bs: nat): (r: seq<Bytes>)
    requires Sized(pins, bs) && bs >= 4
    ensures |r| == |pins|
    ensures forall i :: 0 <= i < |pins| ==> r[i] == LoggedData(pins[i].1)
  {
    seq(|pins|, i requires 0 <= i < |pins| => LoggedData(pins[i].1))
  }

  /** The revoke block, if there is anything to revoke. */
  function RevokePart(revoked: seq<nat>, seqno: nat, bs: nat): seq<Bytes>
    requires bs >= 1024
  {
    if revoked == [] then [] else [RevokeBytes(revoked, seqno, bs)]
  }

  /** The descriptor and the data, if there is anything to log. */
  function DataPart(pins: Pins, seqno: nat, uuid: Bytes, bs: nat): seq<Bytes>
    requires bs >= 1024 && |uuid| == UUID_SIZE && Sized(pins, bs) && FitsLog(pins, bs)
  {
    if pins == [] then [] else [DescriptorBytes(Addresses(pins), seqno, uuid, bs)] + LoggedBlocks(pins, bs)
  }

  predicate FitsLog(pins: Pins, bs: nat) { pins == [] || FitsDescriptor(|pins|, bs) }

  /** The log blocks of one transaction, in the order they are written. */
  function LogBlocks(pins: Pins, revoked: seq<nat>, seqno: nat, uuid: Bytes, bs: nat): (r: seq<Bytes>)
    requires bs >= 1024 && |uuid| == UUID_SIZE && Sized(pins, bs) && FitsLog(pins, bs)
  {
    RevokePart(revoked, seqno, bs) + DataPart(pins, seqno, uuid, bs) + [CommitBytes(seqno, bs)]
  }

  /** The block writes that put `blocks` into the log from position `h` on. */
  function LogWrites(jn: Journal, bs: nat, h: nat, blocks: seq<Bytes>): (r: Pins)
    requires jn.Geometry(bs).Valid() && |jn.blocks| >= jn.sb.total && InRing(jn.Geometry(bs), h)
    ensures |r| == |blocks|
    decreases |blocks|
  {
    if blocks == [] then []
    else [(jn.blocks[h], blocks[0])] + LogWrites(jn, bs, Next(jn.Geometry(bs), h), blocks[1..])
  }

  lemma {:induction false} LogWritesSnoc(jn: Journal, bs: nat, h: nat, blocks: seq<Bytes>, last: Bytes)
    requires jn.Geometry(bs).Valid() && |jn.blocks| >= jn.sb.total && InRing(jn.Geometry(bs), h)
    ensures LogWrites(jn, bs, h, blocks + [last])
            == LogWrites(jn, bs, h, blocks) + [(jn.blocks[Skip(jn.Geometry(bs), h, |blocks|)], last)]
    decreases |blocks|
  {
    hide Next;
    if blocks == [] {
      assert ([] + [last])[1..] == [];
    } else {
      assert (blocks + [last])[1..] == blocks[1..] + [last];
      LogWritesSnoc(jn, bs, Next(jn.Geometry(bs), h), blocks[1..], last);
    }
  }

  lemma {:induction false} SkipSnoc(g: Ring, h: nat, n: nat)
    requires g.Valid()
    ensures Skip(g, h, n + 1) == Next(g, Skip(g, h, n))
    decreases n
  {
    hide Next;
    if n > 0 { SkipSnoc(g, Next(g, h), n - 1); }
  }

  // ---- the writer ----

  class JournalWriter {
    const jn: Journal
    const bs: nat
    const uuid: Bytes
    var writeHead: nat
    var nextSequence: nat

    ghost predicate Valid()
      reads this`writeHead
    {
      bs >= 1024 && |uuid| == UUID_SIZE && jn.Valid(bs) && InRing(jn.Geometry(bs), writeHead)
    }

    /** A writer for a loaded journal starts at the log start, or at the first block of a clean ring. */
    constructor (jn: Journal)
      requires jn.sb.blockSize >= 1024 && |jn.sb.uuid| == UUID_SIZE && jn.Valid(jn.sb.blockSize)
      requires jn.sb.IsClean() || InRing(jn.Geometry(jn.sb.blockSize), jn.sb.start)
      ensures Valid() && this.jn == jn && bs == jn.sb.blockSize && uuid == jn.sb.uuid
      ensures writeHead == if jn.sb.IsClean() then jn.sb.first else jn.sb.start
      ensures nextSequence == jn.sb.startSequence
    {
      this.jn, bs, uuid := jn, jn.sb.blockSize, jn.sb.uuid;
      writeHead := if jn.sb.IsClean() then jn.sb.first else jn.sb.start;
      nextSequence := jn.sb.startSequence;
    }

    method BeginTransaction() returns (txn: Transaction)
      ensures fresh(txn) && txn.Valid() && txn.sequence == nextSequence && txn.blocks == [] && txn.revoked == []
    {
      txn := new Transaction(nextSequence);
    }

    method AdvanceWriteHead()
      requires Valid()
      modifies this`writeHead
      ensures Valid() && writeHead == Next(jn.Geometry(bs), old(writeHead))
    {
      writeHead := writeHead + 1;
      if writeHead >= jn.sb.total { writeHead := jn.sb.first; }
    }

    /** Writes one block at the head of the log; `done` are the blocks written since position `h`. */
    method WriteToJournal(dev: BlockDevice, data: Bytes, ghost was: Disk, ghost h: nat, ghost done: seq<Bytes>)
      requires Valid() && dev.blockSize == bs && |data| == bs && InRing(jn.Geometry(bs), h)
      requires writeHead == Skip(jn.Geometry(bs), h, |done|) && dev.disk == Applied(was, LogWrites(jn, bs, h, done))
      modifies this`writeHead, dev`disk
      ensures Valid() && writeHead == Skip(jn.Geometry(bs), h, |done + [data]|)
      ensures dev.disk == Applied(was, LogWrites(jn, bs, h, done + [data]))
    {
      hide Skip, Next, LogWrites;
      LogWritesSnoc(jn, bs, h, done, data);
      SkipSnoc(jn.Geometry(bs), h, |done|);
      ghost var writes := LogWrites(jn, bs, h, done + [data]);
      assert writes[..|writes| - 1] == LogWrites(jn, bs, h, done);
      dev.Write(jn.blocks[writeHead], data);
      AdvanceWriteHead();
    }

    /** Logs a transaction and writes its blocks home. It fails exactly when the descriptor cannot hold
        all tags; the revoke block is in the log by then. */
    method Commit(dev: BlockDevice, txn: Transaction) returns (r: Result<(), nat>)
      requires Valid() && dev.blockSize == bs && Sized(txn.blocks, bs)
      modifies this`writeHead, this`nextSequence, dev`disk
      ensures Valid()
      ensures r.Ok? <==> FitsLog(txn.blocks, bs)
      ensures r.Ok? ==>
                var log := LogBlocks(txn.blocks, txn.revoked, txn.sequence, uuid, bs);
                && dev.disk == Applied(old(dev.disk), LogWrites(jn, bs, old(writeHead), log) + txn.blocks)
                && writeHead == Skip(jn.Geometry(bs), old(writeHead), |log|) && nextSequence == old(nextSequence) + 1
      ensures r.Err? ==>
                var log := RevokePart(txn.revoked, txn.sequence, bs);
                && dev.disk == Applied(old(dev.disk), LogWrites(jn, bs, old(writeHead), log))
                && writeHead == Skip(jn.Geometry(bs), old(writeHead), |log|) && nextSequence == old(nextSequence)
    {
      hide Skip, Next, LogWrites, RevokeBytes, DataPart, CommitBytes, Applied;
      ghost var was, h, done := dev.disk, writeHead, [];
      NothingLogged(jn, bs, h, was);
      if txn.revoked != [] {
        var buf := BuildRevoke(txn.revoked, txn.sequence, bs);
        WriteToJournal(dev, buf, was, h, done);
        done := done + [buf];
      }
      assert done == RevokePart(txn.revoked, txn.sequence, bs);
      var ok: bool;
      ok, done := LogPinned(dev, txn.blocks, txn.sequence, was, h, done);
      if !ok { return Err(writeHead); }
      WriteToJournal(dev, CommitBytes(txn.sequence, bs), was, h, done);
      ghost var log := LogBlocks(txn.blocks, txn.revoked, txn.sequence, uuid, bs);
      assert done + [CommitBytes(txn.sequence, bs)] == log;
      AppliedTwice(was, LogWrites(jn, bs, h, log), txn.blocks);
      WriteAll(dev, txn.blocks);
      nextSequence := nextSequence + 1;
      r := Ok(());
    }

    /** Logs the descriptor and the data blocks, if there are any. */
    method LogPinned(dev: BlockDevice, pins: Pins, seqno: nat, ghost was: Disk, ghost h: nat, ghost before: seq<Bytes>)
        returns (ok: bool, ghost done: seq<Bytes>)
      requires Valid() && dev.blockSize == bs && Sized(pins, bs) && InRing(jn.Geometry(bs), h)
      requires writeHead == Skip(jn.Geometry(bs), h, |before|) && dev.disk == Applied(was, LogWrites(jn, bs, h, before))
      modifies this`writeHead, dev`disk
      ensures Valid() && (ok <==> FitsLog(pins, bs))
      ensures done == if ok then before + DataPart(pins, seqno, uuid, bs) else before
      ensures writeHead == Skip(jn.Geometry(bs), h, |done|) && dev.disk == Applied(was, LogWrites(jn, bs, h, done))
    {
      hide Skip, Next, LogWrites, DescriptorBytes, LoggedData, Applied;
      done := before;
      if pins == [] { return true, done; }
      var buf := BuildDescriptor(Addresses(pins), seqno, uuid, bs);
      if buf.None? { return false, done; }
      WriteToJournal(dev, buf.value, was, h, done);
      done := done + [buf.value];
      done := WriteDataBlocks(dev, pins, was, h, done);
      ok := true;
    }

    /** Logs the data blocks, each with a leading magic zeroed. */
    method WriteDataBlocks(dev: BlockDevice, pins: Pins, ghost was: Disk, ghost h: nat, ghost before: seq<Bytes>)
        returns (ghost done: seq<Bytes>)
      requires Valid() && dev.blockSize == bs && Sized(pins, bs) && InRing(jn.Geometry(bs), h)
      requires writeHead == Skip(jn.Geometry(bs), h, |before|) && dev.disk == Applied(was, LogWrites(jn, bs, h, before))
      modifies this`writeHead, dev`disk
      ensures Valid() && done == before + LoggedBlocks(pins, bs)
      ensures writeHead == Skip(jn.Geometry(bs), h, |done|) && dev.disk == Applied(was, LogWrites(jn, bs, h, done))
    {
      hide Skip, Next, LogWrites, LoggedData, Applied;
      done := before;
      var i := 0;
      while i < |pins|
        invariant 0 <= i <= |pins| && Valid()
        invariant done == before + LoggedBlocks(pins, bs)[..i]
        invariant writeHead == Skip(jn.Geometry(bs), h, |done|) && dev.disk == Applied(was, LogWrites(jn, bs, h, done))
      {
        var data := pins[i].1;
        if HasMagic(data) { data := Patch(data, 0, Zeros(4)); }
        EscapedByPatch(pins[i].1);
        WriteToJournal(dev, data, was, h, done);
        done := done + [data];
        i := i + 1;
      }
      assert LoggedBlocks(pins, bs)[..i] == LoggedBlocks(pins, bs);
    }
  }

  lemma EscapedByPatch(data: Bytes)
    requires |data| >= 4
    ensures LoggedData(data) == if HasMagic(data) then Patch(data, 0, Zeros(4)) else data
  {
  }

  lemma NothingLogged(jn: Journal, bs: nat, h: nat, disk: Disk)
    requires jn.Geometry(bs).Valid() && |jn.blocks| >= jn.sb.total && InRing(jn.Geometry(bs), h)
    ensures Applied(disk, LogWrites(jn, bs, h, [])) == disk && Skip(jn.Geometry(bs), h, 0) == h
  {
  }
}

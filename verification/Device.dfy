/** The block device and the in-memory transaction. The device is a total map from block
    number to block contents (a block nobody has written reads as zeros); one block write is
    atomic and never fails. */
module Device {
  import opened Base

  type Disk = map<nat, Bytes>

  /** The contents of block `b` on a device of `bs`-byte blocks. */
  function ReadAt(disk: Disk, bs: nat, b: nat): (data: Bytes)
    ensures |data| == bs
  {
    if b in disk && |disk[b]| == bs then disk[b] else Zeros(bs)
  }

  /** Every block outside `except` reads the same on both images. */
  ghost predicate SameOutside(d: Disk, d': Disk, bs: nat, except: set<nat>) {
    forall b: nat {:trigger ReadAt(d', bs, b)} :: b !in except ==> ReadAt(d', bs, b) == ReadAt(d, bs, b)
  }

  lemma SameOutsideTwice(d0: Disk, d1: Disk, d2: Disk, bs: nat, e1: set<nat>, e2: set<nat>, except: set<nat>)
    requires SameOutside(d0, d1, bs, e1) && SameOutside(d1, d2, bs, e2) && e1 <= except && e2 <= except
    ensures SameOutside(d0, d2, bs, except)
  {
  }

  class BlockDevice {
    const blockSize: nat
    var disk: Disk

    constructor (bs: nat, image: Disk)
      ensures blockSize == bs && disk == image
    {
      blockSize, disk := bs, image;
    }

    method Read(b: nat) returns (data: Bytes)
      ensures data == ReadAt(disk, blockSize, b)
    {
      data := if b in disk && |disk[b]| == blockSize then disk[b] else Zeros(blockSize);
    }

    method Write(b: nat, data: Bytes)
      requires |data| == blockSize
      modifies this`disk
      ensures disk == old(disk)[b := data]
      ensures ReadAt(disk, blockSize, b) == data
      ensures SameOutside(old(disk), disk, blockSize, {b})
    {
      disk := disk[b := data];
    }
  }

  /** The pinned copies of a transaction, in pin order. */
  type Pins = seq<(nat, Bytes)>

  ghost predicate DistinctPins(pins: Pins) {
    forall i, j :: 0 <= i < j < |pins| ==> pins[i].0 != pins[j].0
  }

  /** What a read through the transaction sees: the pinned copy if there is one, the device otherwise. */
  function Pinned(pins: Pins, b: nat): Option<Bytes> {
    if pins == [] then None
    else if pins[|pins| - 1].0 == b then Some(pins[|pins| - 1].1)
    else Pinned(pins[..|pins| - 1], b)
  }

  function View(pins: Pins, disk: Disk, bs: nat, b: nat): Bytes {
    match Pinned(pins, b)
    case Some(data) => data
    case None => ReadAt(disk, bs, b)
  }

  /** Every pinned copy is a whole block. */
  ghost predicate WholePins(pins: Pins, bs: nat) {
    forall b :: Pinned(pins, b).Some? ==> |Pinned(pins, b).value| == bs
  }

  lemma {:induction false} PinnedAt(pins: Pins, b: nat)
    requires DistinctPins(pins)
    ensures Pinned(pins, b).None? <==> forall i :: 0 <= i < |pins| ==> pins[i].0 != b
    ensures forall i :: 0 <= i < |pins| && pins[i].0 == b ==> Pinned(pins, b) == Some(pins[i].1)
  {
    if pins != [] {
      var n := |pins| - 1;
      PinnedAt(pins[..n], b);
      assert forall i :: 0 <= i < n ==> pins[..n][i] == pins[i];
    }
  }

  /** A pending transaction: the blocks it pins and the blocks it revokes. */
  class Transaction {
    const sequence: nat
    var blocks: Pins
    var revoked: seq<nat>

    ghost predicate Valid()
      reads this
    {
      DistinctPins(blocks)
    }

    constructor (seqno: nat)
      ensures Valid() && sequence == seqno && blocks == [] && revoked == []
    {
      sequence, blocks, revoked := seqno, [], [];
    }

    /** Pins `data` as the new contents of `b`; a block already pinned keeps its position. */
    method PinBlock(b: nat, data: Bytes)
      requires Valid()
      modifies this`blocks
      ensures Valid()
      ensures forall c :: Pinned(blocks, c) == if c == b then Some(data) else Pinned(old(blocks), c)
      ensures (forall i :: 0 <= i < |old(blocks)| ==> old(blocks)[i].0 != b) ==> blocks == old(blocks) + [(b, data)]
      ensures forall i :: 0 <= i < |old(blocks)| && old(blocks)[i].0 == b ==> blocks == old(blocks)[i := (b, data)]
    {
      var i := 0;
      while i < |blocks| && blocks[i].0 != b
        invariant 0 <= i <= |blocks|
        invariant blocks == old(blocks)
        invariant forall j :: 0 <= j < i ==> blocks[j].0 != b
      {
        i := i + 1;
      }
      if i < |blocks| {
        blocks := blocks[i := (b, data)];
      } else {
        blocks := blocks + [(b, data)];
      }
      ghost var was := old(blocks);
      forall c ensures Pinned(blocks, c) == if c == b then Some(data) else Pinned(was, c) {
        PinnedAt(was, c);
        PinnedAt(blocks, c);
        assert i < |was| ==> blocks[i].0 == b;
        assert i == |was| ==> blocks[|was|].0 == b;
        if c != b && Pinned(was, c).Some? {
          var k :| 0 <= k < |was| && was[k].0 == c;
          assert blocks[k] == was[k];
        } else if c != b {
          assert forall k :: 0 <= k < |blocks| && k < |was| && k != i ==> blocks[k] == was[k];
        }
      }
    }

    method RevokeBlock(b: nat)
      modifies this`revoked
      ensures revoked == old(revoked) + [b]
    {
      revoked := revoked + [b];
    }
  }
}

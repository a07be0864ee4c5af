/** One block of a directory: a chain of variable-length records that tiles the block exactly, edited
    in place by insertion and removal. */
module DirBlock {
  import opened Base

  /** A directory entry. */
  datatype Entry = Entry(inode: nat, fileType: byte, name: Bytes)

  /** A record of the chain; inode 0 marks a deleted one. */
  datatype Record = Record(entry: Entry, recLen: nat) {
    predicate Live() { entry.inode != 0 }
  }

  /** The shortest record for a name of `n` bytes: header and name, rounded up to four bytes. */
  function MinRecLen(n: nat): (r: nat)
    ensures 8 + n <= r < 8 + n + 4 && r % 4 == 0
  {
    (8 + n + 3) / 4 * 4
  }

  // ---- the chain in the bytes ----

  function RecordAt(buf: Bytes, pos: nat): (r: Record)
    requires pos + 8 <= |buf| && pos + 8 + (buf[pos + 6] as int) <= |buf|
    ensures r.entry.inode < U32
  {
    Record(Entry(Le32(buf, pos), buf[pos + 7], buf[pos + 8..pos + 8 + (buf[pos + 6] as int)]), Le16(buf, pos + 4))
  }

  /** A record lies at `pos`: it ends by `end` and its name lies inside it. */
  predicate Sound(buf: Bytes, pos: nat, end: nat)
    requires end <= |buf|
  {
    pos + 8 <= end && 8 + (buf[pos + 6] as int) <= Le16(buf, pos + 4) && pos + Le16(buf, pos + 4) <= end
  }

  /** The bytes [pos, end) are exactly the records `recs`, one after the other. */
  predicate Tiles(buf: Bytes, pos: nat, end: nat, recs: seq<Record>)
    requires end <= |buf|
    decreases |recs|
  {
    if recs == [] then pos == end
    else Sound(buf, pos, end) && RecordAt(buf, pos) == recs[0] && Tiles(buf, pos + recs[0].recLen, end, recs[1..])
  }

  /** The bytes the chain takes. */
  function Size(recs: seq<Record>): nat {
    if recs == [] then 0 else recs[0].recLen + Size(recs[1..])
  }

  lemma {:induction false} TilesSize(buf: Bytes, pos: nat, end: nat, recs: seq<Record>)
    requires end <= |buf| && Tiles(buf, pos, end, recs)
    ensures pos + Size(recs) == end
    decreases |recs|
  {
    if recs != [] { TilesSize(buf, pos + recs[0].recLen, end, recs[1..]); }
  }

  lemma {:induction false} TilesJoin(buf: Bytes, pos: nat, mid: nat, end: nat, a: seq<Record>, b: seq<Record>)
    requires mid <= end <= |buf| && Tiles(buf, pos, mid, a) && Tiles(buf, mid, end, b)
    ensures Tiles(buf, pos, end, a + b)
    decreases |a|
  {
    if a == [] {
      assert a + b == b;
    } else {
      assert (a + b)[1..] == a[1..] + b;
      TilesJoin(buf, pos + a[0].recLen, mid, end, a[1..], b);
    }
  }

  /** Only the bytes of a chain matter to it. */
  lemma {:induction false} TilesFrame(buf: Bytes, buf': Bytes, pos: nat, end: nat, recs: seq<Record>)
    requires end <= |buf| == |buf'| && Tiles(buf, pos, end, recs) && (forall i :: pos <= i < end ==> buf'[i] == buf[i])
    ensures Tiles(buf', pos, end, recs)
    decreases |recs|
  {
    if recs != [] {
      RecordFrame(buf, buf', pos, end);
      TilesFrame(buf, buf', pos + recs[0].recLen, end, recs[1..]);
    }
  }

  lemma RecordFrame(buf: Bytes, buf': Bytes, pos: nat, end: nat)
    requires end <= |buf| == |buf'| && Sound(buf, pos, end) && (forall i :: pos <= i < end ==> buf'[i] == buf[i])
    ensures Sound(buf', pos, end) && RecordAt(buf', pos) == RecordAt(buf, pos)
  {
  }

  /** A block has one chain. */
  lemma {:induction false} OneChain(buf: Bytes, pos: nat, end: nat, a: seq<Record>, b: seq<Record>)
    requires end <= |buf| && Tiles(buf, pos, end, a) && Tiles(buf, pos, end, b)
    ensures a == b
    decreases |a|
  {
    hide RecordAt;
    if a != [] && b != [] {
      OneChain(buf, pos + a[0].recLen, end, a[1..], b[1..]);
      assert a == [a[0]] + a[1..] && b == [b[0]] + b[1..];
    } else {
      if a != [] { TilesPositive(buf, pos, end, a); }
      if b != [] { TilesPositive(buf, pos, end, b); }
    }
  }

  lemma TilesPositive(buf: Bytes, pos: nat, end: nat, recs: seq<Record>)
    requires end <= |buf| && Tiles(buf, pos, end, recs) && recs != []
    ensures pos + 8 <= end
  {
  }

  // ---- parsing ----

  datatype DirError = InvalidRecLen(recLen: nat)

  /** One record: None when fewer than eight bytes are left. */
  function ParseDirent(buf: Bytes, pos: nat): Result<Option<Record>, DirError>
    requires pos <= |buf|
  {
    if |buf| - pos < 8 then Ok(None)
    else
      var recLen, nameLen := Le16(buf, pos + 4), buf[pos + 6] as int;
      if recLen < 8 || pos + recLen > |buf| || nameLen > recLen - 8 then Err(InvalidRecLen(recLen))
      else Ok(Some(RecordAt(buf, pos)))
  }

  /** The entry of a live record, and nothing for a deleted one. */
  function LiveEntry(r: Record): seq<Entry> {
    if r.Live() then [r.entry] else []
  }

  function LiveEntries(recs: seq<Record>): seq<Entry> {
    if recs == [] then [] else LiveEntry(recs[0]) + LiveEntries(recs[1..])
  }

  /** Appends the live entries of a block to `out`. A block that is tiled parses to its live records, in
      order; any block either parses or reports a bad record length. */
  method ParseBlock(buf: Bytes, out: seq<Entry>, ghost recs: seq<Record>) returns (r: Result<seq<Entry>, DirError>)
    ensures Tiles(buf, 0, |buf|, recs) ==> r == Ok(out + LiveEntries(recs))
  {
    hide Sound, RecordAt;
    var pos, acc := 0, out;
    ghost var rest := recs;
    assert acc + LiveEntries(rest) == out + LiveEntries(recs);
    while pos < |buf|
      invariant pos <= |buf|
      invariant Tiles(buf, 0, |buf|, recs) ==>
                  Tiles(buf, pos, |buf|, rest) && acc + LiveEntries(rest) == out + LiveEntries(recs)
      decreases |buf| - pos
    {
      if Tiles(buf, 0, |buf|, recs) { ParsedRecord(buf, pos, rest); }
      var d := ParseDirent(buf, pos);
      if d.Err? { return Err(d.error); }
      if d.value.None? { break; }
      ParsedLength(buf, pos);
      if d.value.value.Live() { acc := acc + [d.value.value.entry]; }
      pos := pos + d.value.value.recLen;
      rest := if rest == [] then [] else rest[1..];
    }
    if Tiles(buf, 0, |buf|, recs) { NoneLeft(buf, pos, rest); }
    assert acc + [] == acc;
    r := Ok(acc);
  }

  lemma ParsedLength(buf: Bytes, pos: nat)
    requires pos <= |buf| && ParseDirent(buf, pos).Ok? && ParseDirent(buf, pos).value.Some?
    ensures 8 <= ParseDirent(buf, pos).value.value.recLen && pos + ParseDirent(buf, pos).value.value.recLen <= |buf|
  {
  }

  lemma ParsedRecord(buf: Bytes, pos: nat, recs: seq<Record>)
    requires pos < |buf| && Tiles(buf, pos, |buf|, recs)
    ensures recs != [] && ParseDirent(buf, pos) == Ok(Some(recs[0]))
    ensures Tiles(buf, pos + recs[0].recLen, |buf|, recs[1..])
    ensures LiveEntries(recs) == LiveEntry(recs[0]) + LiveEntries(recs[1..])
  {
  }

  lemma NoneLeft(buf: Bytes, pos: nat, recs: seq<Record>)
    requires |buf| - 8 < pos <= |buf| && Tiles(buf, pos, |buf|, recs)
    ensures LiveEntries(recs) == []
  {
  }

  // ---- insertion ----

  /** The bytes of a record: header and name. The name length is cut to one byte. */
  function DirentBytes(e: Entry, recLen: nat): (r: Bytes)
    ensures |r| == 8 + |e.name|
  {
    ToLe32(e.inode) + ToLe16(recLen) + [|e.name| % 256, e.fileType] + e.name
  }

  /** The part of a name that its length byte covers. */
  function Stored(name: Bytes): (r: Bytes)
    ensures |r| < 256 && (r == name <==> |name| < 256)
  {
    name[..|name| % 256]
  }

  function WrittenEntry(e: Entry): Entry {
    e.(inode := e.inode % U32, name := Stored(e.name))
  }

  lemma DirentFields(buf: Bytes, pos: nat, e: Entry, recLen: nat)
    requires pos + 8 + |e.name| <= |buf| && buf[pos..pos + 8 + |e.name|] == DirentBytes(e, recLen)
    ensures Le32(buf, pos) == e.inode % U32 && Le16(buf, pos + 4) == recLen % U16
    ensures (buf[pos + 6] as int) == |e.name| % 256 && buf[pos + 7] == e.fileType
    ensures buf[pos + 8..pos + 8 + |e.name|] == e.name
  {
    hide ToLe32, ToLe16, Le32, Le16;
    var d := DirentBytes(e, recLen);
    assert d[0..4] == ToLe32(e.inode) && d[4..6] == ToLe16(recLen) && d[8..] == e.name;
    assert d[6] == |e.name| % 256 && d[7] == e.fileType;
    Subslice(buf, pos, 8 + |e.name|, 0, 4);
    Subslice(buf, pos, 8 + |e.name|, 4, 6);
    Subslice(buf, pos, 8 + |e.name|, 8, 8 + |e.name|);
    Le32At(buf, pos, e.inode);
    Le16At(buf, pos + 4, recLen);
    assert buf[pos + 6] == d[6] && buf[pos + 7] == d[7];
  }

  /** A record written in full reads back; a name longer than 255 bytes comes back cut. */
  lemma DirentRoundTrip(buf: Bytes, pos: nat, e: Entry, recLen: nat)
    requires pos + 8 + |e.name| <= pos + recLen <= |buf| && recLen < U16
    requires buf[pos..pos + 8 + |e.name|] == DirentBytes(e, recLen)
    ensures Tiles(buf, pos, pos + recLen, [Record(WrittenEntry(e), recLen)])
    ensures WrittenEntry(e) == e <==> |e.name| < 256 && e.inode < U32
  {
    hide Le32, Le16, DirentBytes, Tiles;
    DirentFields(buf, pos, e, recLen);
    var n := |e.name| % 256;
    Subslice(buf, pos + 8, |e.name|, 0, n);
    OneRecord(buf, pos, Record(WrittenEntry(e), recLen));
  }

  /** Where a new record of `needed` bytes goes: the first deleted record that is long enough, or else
      the slack of a live last record. */
  function Inserted(recs: seq<Record>, e: Entry, needed: nat): Option<seq<Record>> {
    if recs == [] then None
    else
      var r, actual := recs[0], MinRecLen(|recs[0].entry.name|);
      if !r.Live() && r.recLen >= needed then Some([Record(e, r.recLen)] + recs[1..])
      else if r.Live() && |recs| == 1 && r.recLen - actual >= needed then
        Some([r.(recLen := actual), Record(e, r.recLen - actual)])
      else
        match Inserted(recs[1..], e, needed)
        case None => None
        case Some(rest) => Some([r] + rest)
  }

  method Overwrite(buf: array<byte>, off: nat, bytes: Bytes)
    requires off + |bytes| <= buf.Length
    modifies buf
    ensures buf[..] == Patch(old(buf[..]), off, bytes)
  {
    forall i | 0 <= i < |bytes| { buf[off + i] := bytes[i]; }
  }

  lemma PatchedSlice(buf: Bytes, off: nat, bytes: Bytes)
    requires off + |bytes| <= |buf|
    ensures Patch(buf, off, bytes)[off..off + |bytes|] == bytes
  {
  }

  /** A record put over a deleted one. */
  lemma SlotReused(buf: Bytes, pos: nat, end: nat, recs: seq<Record>, e: Entry)
    requires end <= |buf| && Tiles(buf, pos, end, recs) && recs != []
    requires 8 + |e.name| <= recs[0].recLen
    ensures pos + 8 + |e.name| <= |buf|
    ensures var buf' := Patch(buf, pos, DirentBytes(e, recs[0].recLen));
            && Tiles(buf', pos, end, [Record(WrittenEntry(e), recs[0].recLen)] + recs[1..])
            && forall i :: 0 <= i < pos ==> buf'[i] == buf[i]
  {
    hide DirentBytes, RecordAt, Le16, Le32, Patch, Sound;
    RecordLength(buf, pos, end, recs);
    var next, buf' := pos + recs[0].recLen, Patch(buf, pos, DirentBytes(e, recs[0].recLen));
    TilesSize(buf, next, end, recs[1..]);
    PatchedSlice(buf, pos, DirentBytes(e, recs[0].recLen));
    DirentRoundTrip(buf', pos, e, recs[0].recLen);
    TilesFrame(buf, buf', next, end, recs[1..]);
    TilesJoin(buf', pos, next, end, [Record(WrittenEntry(e), recs[0].recLen)], recs[1..]);
  }

  lemma RecordLength(buf: Bytes, pos: nat, end: nat, recs: seq<Record>)
    requires end <= |buf| && Tiles(buf, pos, end, recs) && recs != []
    ensures pos + 8 <= end && recs[0].recLen == Le16(buf, pos + 4) && 8 + |recs[0].entry.name| <= recs[0].recLen < U16
    ensures pos + recs[0].recLen <= end
  {
  }

  /** Rewriting the length of a record changes that length only. */
  lemma Relength(buf: Bytes, pos: nat, end: nat, recs: seq<Record>, v: nat)
    requires end <= |buf| && Tiles(buf, pos, end, recs) && recs != []
    requires 8 + |recs[0].entry.name| <= v < U16 && pos + v <= |buf|
    ensures pos + 8 <= |buf|
    ensures var buf' := Patch(buf, pos + 4, ToLe16(v));
            && Tiles(buf', pos, pos + v, [recs[0].(recLen := v)])
            && forall i :: 0 <= i < |buf| && !(pos + 4 <= i < pos + 6) ==> buf'[i] == buf[i]
  {
    hide ToLe16, Patch, Le16, Le32;
    var buf' := Patch(buf, pos + 4, ToLe16(v));
    PatchedSlice(buf, pos + 4, ToLe16(v));
    Le16At(buf', pos + 4, v);
    LowFields(buf, buf', pos);
    OneRecord(buf', pos, recs[0].(recLen := v));
  }

  lemma OneRecord(buf: Bytes, pos: nat, r: Record)
    requires pos + 8 <= |buf| && 8 + (buf[pos + 6] as int) <= r.recLen == Le16(buf, pos + 4) && pos + r.recLen <= |buf|
    requires RecordAt(buf, pos) == r
    ensures Tiles(buf, pos, pos + r.recLen, [r])
  {
    hide RecordAt, Le16;
    assert [r][1..] == [];
  }

  lemma LowFields(buf: Bytes, buf': Bytes, pos: nat)
    requires pos + 8 <= |buf| == |buf'| && pos + 8 + (buf[pos + 6] as int) <= |buf|
    requires forall i :: 0 <= i < |buf| && !(pos + 4 <= i < pos + 6) ==> buf'[i] == buf[i]
    ensures Le32(buf', pos) == Le32(buf, pos) && buf'[pos + 6] == buf[pos + 6] && buf'[pos + 7] == buf[pos + 7]
    ensures buf'[pos + 8..pos + 8 + (buf[pos + 6] as int)] == buf[pos + 8..pos + 8 + (buf[pos + 6] as int)]
  {
  }

  /** A record put into the slack of the last one. */
  lemma SlackUsed(buf: Bytes, pos: nat, end: nat, r: Record, e: Entry)
    requires end <= |buf| && Tiles(buf, pos, end, [r])
    requires MinRecLen(|r.entry.name|) + 8 + |e.name| <= r.recLen
    ensures var actual := MinRecLen(|r.entry.name|);
            && pos + actual + 8 + |e.name| <= |buf| && r.recLen < U16
            && var buf' := Patch(Patch(buf, pos + 4, ToLe16(actual)), pos + actual, DirentBytes(e, r.recLen - actual));
               && Tiles(buf', pos, end, [r.(recLen := actual), Record(WrittenEntry(e), r.recLen - actual)])
               && forall i :: 0 <= i < pos ==> buf'[i] == buf[i]
  {
    hide DirentBytes, RecordAt, Le16, Le32, ToLe16, MinRecLen;
    var actual := MinRecLen(|r.entry.name|);
    var mid, rest := pos + actual, r.recLen - actual;
    RecordLength(buf, pos, end, [r]);
    TilesSize(buf, pos, end, [r]);
    OneSize(r);
    Relength(buf, pos, end, [r], actual);
    var buf1 := Patch(buf, pos + 4, ToLe16(actual));
    var buf2 := Patch(buf1, mid, DirentBytes(e, rest));
    PatchedSlice(buf1, mid, DirentBytes(e, rest));
    DirentRoundTrip(buf2, mid, e, rest);
    TilesFrame(buf1, buf2, pos, mid, [r.(recLen := actual)]);
    var added := Record(WrittenEntry(e), rest);
    TilesJoin(buf2, pos, mid, end, [r.(recLen := actual)], [added]);
    assert [r.(recLen := actual)] + [added] == [r.(recLen := actual), added];
  }

  lemma OneSize(r: Record)
    ensures Size([r]) == r.recLen
  {
    assert [r][1..] == [];
  }

  lemma SkipsRecord(r: Record, rest: seq<Record>, e: Entry, needed: nat)
    requires !Takes([r] + rest, 0, needed)
    ensures Inserted([r] + rest, e, needed) ==
            match Inserted(rest, e, needed)
            case None => None
            case Some(rest') => Some([r] + rest')
  {
    hide MinRecLen;
    assert ([r] + rest)[1..] == rest;
  }

  lemma {:induction false} InsertedTail(recs: seq<Record>, i: nat, e: Entry, needed: nat)
    requires i <= |recs|
    requires forall j :: 0 <= j < i ==> !Takes(recs, j, needed)
    ensures Inserted(recs, e, needed) ==
            match Inserted(recs[i..], e, needed)
            case None => None
            case Some(rest) => Some(recs[..i] + rest)
    decreases i
  {
    hide MinRecLen, Inserted;
    if i > 0 {
      InsertedTail(recs, i - 1, e, needed);
      assert recs[i - 1..] == [recs[i - 1]] + recs[i..];
      assert !Takes(recs, i - 1, needed);
      SkipsRecord(recs[i - 1], recs[i..], e, needed);
      if Inserted(recs[i..], e, needed).Some? {
        Regroup(recs[..i - 1], [recs[i - 1]], Inserted(recs[i..], e, needed).value);
        assert recs[..i - 1] + [recs[i - 1]] == recs[..i];
      }
    } else {
      assert recs[0..] == recs;
      if Inserted(recs, e, needed).Some? {
        assert recs[..0] + Inserted(recs, e, needed).value == Inserted(recs, e, needed).value;
      }
    }
  }

  /** Record `j` takes a new record: it is deleted and long enough, or live, last and slack enough. */
  predicate Takes(recs: seq<Record>, j: nat, needed: nat)
    requires j < |recs|
  {
    if recs[j].Live() then j + 1 == |recs| && recs[j].recLen - MinRecLen(|recs[j].entry.name|) >= needed
    else recs[j].recLen >= needed
  }

  lemma TilesNothing(buf: Bytes, pos: nat)
    requires pos <= |buf|
    ensures Tiles(buf, pos, pos, [])
  {
  }

  /** The record at the head of a chain. */
  lemma ChainHead(buf: Bytes, pos: nat, end: nat, recs: seq<Record>)
    requires pos < end <= |buf| && Tiles(buf, pos, end, recs)
    ensures recs != [] && pos + 8 <= end && pos + 8 + (buf[pos + 6] as int) <= |buf| && RecordAt(buf, pos) == recs[0]
    ensures 8 <= 8 + |recs[0].entry.name| <= recs[0].recLen < U16 && pos + recs[0].recLen <= end
    ensures pos + recs[0].recLen >= end <==> |recs| == 1
  {
    if |recs| > 1 { TilesPositive(buf, pos + recs[0].recLen, end, recs[1..]); }
  }

  /** A chain around an edit. */
  lemma ChainAround(buf: Bytes, buf': Bytes, pos: nat, end: nat, a: seq<Record>, b: seq<Record>)
    requires pos <= end <= |buf| == |buf'| && Tiles(buf, 0, pos, a) && Tiles(buf', pos, end, b)
    requires forall i :: 0 <= i < pos ==> buf'[i] == buf[i]
    ensures Tiles(buf', 0, end, a + b)
  {
    TilesFrame(buf, buf', 0, pos, a);
    TilesJoin(buf', 0, pos, end, a, b);
  }

  lemma ChainStep(buf: Bytes, pos: nat, end: nat, recs: seq<Record>, i: nat)
    requires pos < end <= |buf| && i < |recs| && Tiles(buf, 0, pos, recs[..i]) && Tiles(buf, pos, end, recs[i..])
    ensures var next := pos + recs[i].recLen;
            next <= end && Tiles(buf, 0, next, recs[..i + 1]) && Tiles(buf, next, end, recs[i + 1..])
  {
    var next := pos + recs[i].recLen;
    ChainHead(buf, pos, end, recs[i..]);
    assert recs[i..][1..] == recs[i + 1..];
    assert [recs[i]][1..] == [] && Tiles(buf, next, next, []);
    assert Tiles(buf, pos, next, [recs[i]]);
    TilesJoin(buf, 0, pos, next, recs[..i], [recs[i]]);
    assert recs[..i] + [recs[i]] == recs[..i + 1];
  }

  lemma ChainEnd(buf: Bytes, end: nat, recs: seq<Record>)
    requires end <= |buf| && Tiles(buf, end, end, recs)
    ensures recs == []
  {
  }

  lemma InsertedNone(e: Entry, needed: nat)
    ensures Inserted([], e, needed) == None
  {
  }

  /** What insertion does at a record that takes the entry. */
  lemma InsertedHere(recs: seq<Record>, i: nat, e: Entry, needed: nat)
    requires i < |recs| && Takes(recs, i, needed)
    ensures Inserted(recs[i..], e, needed) ==
            Some(if recs[i].Live() then
                   var actual := MinRecLen(|recs[i].entry.name|);
                   [recs[i].(recLen := actual), Record(e, recs[i].recLen - actual)]
                 else [Record(e, recs[i].recLen)] + recs[i..][1..])
  {
    hide MinRecLen;
  }

  /** Inserts an entry into a block, in place; false, with the block unchanged, when no record takes it. */
  method TryInsert(buf: array<byte>, e: Entry, ghost recs: seq<Record>) returns (ok: bool)
    requires Tiles(buf[..], 0, buf.Length, recs)
    modifies buf
    ensures ok <==> Inserted(recs, WrittenEntry(e), MinRecLen(|e.name|)).Some?
    ensures ok ==> Tiles(buf[..], 0, buf.Length, Inserted(recs, WrittenEntry(e), MinRecLen(|e.name|)).value)
    ensures !ok ==> buf[..] == old(buf[..])
  {
    hide MinRecLen, Inserted, RecordAt, DirentBytes, Patch, Tiles, Le16;
    var needed, n, pos := MinRecLen(|e.name|), buf.Length, 0;
    ghost var i, was, w := 0, buf[..], WrittenEntry(e);
    TilesNothing(was, 0);
    while pos < n
      invariant i <= |recs| && pos <= n && buf[..] == was
      invariant Tiles(was, 0, pos, recs[..i]) && Tiles(was, pos, n, recs[i..])
      invariant forall j :: 0 <= j < i ==> !Takes(recs, j, needed)
      decreases n - pos
    {
      ChainHead(was, pos, n, recs[i..]);
      var r := RecordAt(buf[..], pos);
      InsertedTail(recs, i, w, needed);
      if Takes(recs, i, needed) { InsertedHere(recs, i, w, needed); }
      if !r.Live() {
        if r.recLen >= needed {
          SlotReused(was, pos, n, recs[i..], e);
          Overwrite(buf, pos, DirentBytes(e, r.recLen));
          ChainAround(was, buf[..], pos, n, recs[..i], [Record(w, r.recLen)] + recs[i..][1..]);
          return true;
        }
      } else {
        var actual := MinRecLen(|r.entry.name|);
        if pos + r.recLen >= n && r.recLen >= actual && r.recLen - actual >= needed {
          assert recs[i..] == [r];
          SlackUsed(was, pos, n, r, e);
          Overwrite(buf, pos + 4, ToLe16(actual));
          Overwrite(buf, pos + actual, DirentBytes(e, r.recLen - actual));
          ChainAround(was, buf[..], pos, n, recs[..i], [r.(recLen := actual), Record(w, r.recLen - actual)]);
          return true;
        }
      }
      ChainStep(was, pos, n, recs, i);
      pos := pos + r.recLen;
      i := i + 1;
    }
    ChainEnd(was, n, recs[i..]);
    InsertedTail(recs, i, w, needed);
    InsertedNone(w, needed);
    ok := false;
  }

  // ---- what insertion means for the entries ----

  lemma LiveHead(r: Record, rest: seq<Record>)
    ensures LiveEntries([r] + rest) == LiveEntry(r) + LiveEntries(rest)
  {
    assert ([r] + rest)[1..] == rest;
  }

  lemma {:induction false} LiveConcat(a: seq<Record>, b: seq<Record>)
    ensures LiveEntries(a + b) == LiveEntries(a) + LiveEntries(b)
  {
    hide LiveEntry;
    if a == [] {
      assert a + b == b;
    } else {
      assert a + b == [a[0]] + (a[1..] + b);
      LiveConcat(a[1..], b);
      LiveHead(a[0], a[1..] + b);
      Regroup(LiveEntry(a[0]), LiveEntries(a[1..]), LiveEntries(b));
    }
  }

  /** The list `es` with `e` put in at `i`. */
  function PutIn(es: seq<Entry>, i: nat, e: Entry): seq<Entry>
    requires i <= |es|
  {
    es[..i] + [e] + es[i..]
  }

  lemma PutInAfter(a: seq<Entry>, es: seq<Entry>, i: nat, e: Entry)
    requires i <= |es|
    ensures a + PutIn(es, i, e) == PutIn(a + es, |a| + i, e)
  {
  }

  /** How many live entries come before the one inserted. */
  function InsertPoint(recs: seq<Record>, needed: nat): nat {
    if recs == [] then 0
    else |LiveEntry(recs[0])| + (if Takes(recs, 0, needed) then 0 else InsertPoint(recs[1..], needed))
  }

  /** Insertion puts one entry into the list of live entries, and changes no other; the chain keeps its
      size. */
  lemma {:induction false} InsertAddsOne(recs: seq<Record>, e: Entry, needed: nat)
    requires e.inode != 0 && Inserted(recs, e, needed).Some?
    ensures InsertPoint(recs, needed) <= |LiveEntries(recs)|
    ensures LiveEntries(Inserted(recs, e, needed).value) == PutIn(LiveEntries(recs), InsertPoint(recs, needed), e)
    ensures Size(Inserted(recs, e, needed).value) == Size(recs)
  {
    hide MinRecLen, PutIn;
    var r, recs' := recs[0], Inserted(recs, e, needed).value;
    if Takes(recs, 0, needed) {
      InsertedHere(recs, 0, e, needed);
      assert recs[0..] == recs;
      TakenEntries(recs, e, needed);
    } else {
      var rest' := Inserted(recs[1..], e, needed).value;
      InsertAddsOne(recs[1..], e, needed);
      LiveHead(r, rest');
      PutInAfter(LiveEntry(r), LiveEntries(recs[1..]), InsertPoint(recs[1..], needed), e);
      assert recs'[1..] == rest';
    }
  }

  /** The head record takes the entry. */
  lemma TakenEntries(recs: seq<Record>, e: Entry, needed: nat)
    requires recs != [] && Takes(recs, 0, needed) && e.inode != 0
    ensures var r, actual := recs[0], MinRecLen(|recs[0].entry.name|);
            var recs' := if r.Live() then [r.(recLen := actual), Record(e, r.recLen - actual)]
                         else [Record(e, r.recLen)] + recs[1..];
            LiveEntries(recs') == PutIn(LiveEntries(recs), |LiveEntry(r)|, e) && Size(recs') == Size(recs)
  {
    hide MinRecLen;
    var r, actual := recs[0], MinRecLen(|recs[0].entry.name|);
    if r.Live() {
      var a, b := r.(recLen := actual), Record(e, r.recLen - actual);
      assert [a, b][1..] == [b] && [b][1..] == [] && recs[1..] == [];
    } else {
      assert ([Record(e, r.recLen)] + recs[1..])[1..] == recs[1..];
    }
  }

  predicate AllLive(recs: seq<Record>) {
    forall j :: 0 <= j < |recs| ==> recs[j].Live()
  }

  /** Without deleted records the entry comes last, and there are none afterwards. */
  lemma {:induction false} InsertAppends(recs: seq<Record>, e: Entry, needed: nat)
    requires e.inode != 0 && Inserted(recs, e, needed).Some? && AllLive(recs)
    ensures var recs' := Inserted(recs, e, needed).value;
            && LiveEntries(recs') == LiveEntries(recs) + [e]
            && AllLive(recs') && |recs'| == |recs| + 1 && recs'[0].entry == recs[0].entry
  {
    hide MinRecLen;
    var r, recs' := recs[0], Inserted(recs, e, needed).value;
    if Takes(recs, 0, needed) {
      InsertedHere(recs, 0, e, needed);
      assert recs[0..] == recs && recs[1..] == [];
      assert recs'[1..] == [recs'[1]] && recs'[1..][1..] == [];
    } else {
      var rest' := Inserted(recs[1..], e, needed).value;
      InsertAppends(recs[1..], e, needed);
      LiveHead(r, rest');
      Regroup(LiveEntry(r), LiveEntries(recs[1..]), [e]);
    }
  }

  /** Without deleted records a block takes an entry exactly when the slack of its last record does. */
  lemma {:induction false} TakesAtEnd(recs: seq<Record>, e: Entry, needed: nat)
    requires recs != [] && AllLive(recs)
    ensures Inserted(recs, e, needed).Some? <==>
            recs[|recs| - 1].recLen - MinRecLen(|recs[|recs| - 1].entry.name|) >= needed
  {
    hide MinRecLen;
    if |recs| > 1 {
      TakesAtEnd(recs[1..], e, needed);
      assert recs[1..][|recs| - 2] == recs[|recs| - 1];
    }
  }

  // ---- removal ----

  /** The first live record with this name. */
  function Match(recs: seq<Record>, name: Bytes): (m: Option<nat>)
    ensures m.Some? ==> m.value < |recs| && recs[m.value].Live() && recs[m.value].entry.name == name
    ensures m.Some? ==> forall j :: 0 <= j < m.value ==> !(recs[j].Live() && recs[j].entry.name == name)
    ensures m.None? ==> forall j :: 0 <= j < |recs| ==> !(recs[j].Live() && recs[j].entry.name == name)
  {
    if recs == [] then None
    else if recs[0].Live() && recs[0].entry.name == name then Some(0)
    else match Match(recs[1..], name) case None => None case Some(m) => Some(m + 1)
  }

  /** The last live record before record `m`. */
  function LastLive(recs: seq<Record>, m: nat): (p: Option<nat>)
    requires m <= |recs|
    ensures p.Some? ==> p.value < m && recs[p.value].Live() && forall j :: p.value < j < m ==> !recs[j].Live()
    ensures p.None? ==> forall j :: 0 <= j < m ==> !recs[j].Live()
  {
    if m == 0 then None else if recs[m - 1].Live() then Some(m - 1) else LastLive(recs, m - 1)
  }

  /** A record with another inode number. */
  function Renumbered(r: Record, inode: nat): Record { r.(entry := r.entry.(inode := inode)) }

  /** A record marked deleted. */
  function Dead(r: Record): Record { Renumbered(r, 0) }

  /** The chain after record `m` has been taken out, when the live record before it is its neighbour or
      there is none: the neighbour grows over it, or it is marked deleted. */
  function Removed(recs: seq<Record>, m: nat): (r: seq<Record>)
    requires m < |recs|
    ensures |r| == if LastLive(recs, m).None? then |recs| else |recs| - 1
  {
    if LastLive(recs, m).None? then recs[m := Dead(recs[m])]
    else recs[..m][m - 1 := recs[m - 1].(recLen := recs[m - 1].recLen + recs[m].recLen)] + recs[m + 1..]
  }

  /** Nothing deleted lies between record `m` and the live record before it. */
  predicate Adjacent(recs: seq<Record>, m: nat)
    requires m < |recs|
  {
    LastLive(recs, m).Some? ==> LastLive(recs, m).value + 1 == m
  }

  /** Where record `i` starts. */
  function Start(recs: seq<Record>, i: nat): nat
    requires i <= |recs|
  {
    if i == 0 then 0 else Start(recs, i - 1) + recs[i - 1].recLen
  }

  lemma {:induction false} SizeSnoc(recs: seq<Record>, i: nat)
    requires i <= |recs|
    ensures Size(recs[..i]) == Start(recs, i)
  {
    if i > 0 {
      SizeSnoc(recs, i - 1);
      assert recs[..i] == recs[..i - 1] + [recs[i - 1]];
      SizeConcat(recs[..i - 1], [recs[i - 1]]);
      OneSize(recs[i - 1]);
    }
  }

  lemma {:induction false} SizeConcat(a: seq<Record>, b: seq<Record>)
    ensures Size(a + b) == Size(a) + Size(b)
  {
    if a == [] {
      assert a + b == b;
    } else {
      assert (a + b)[1..] == a[1..] + b;
      SizeConcat(a[1..], b);
    }
  }

  /** A chain cut at record `i`. */
  lemma {:induction false} TilesSplit(buf: Bytes, end: nat, recs: seq<Record>, i: nat)
    requires end <= |buf| && Tiles(buf, 0, end, recs) && i <= |recs|
    ensures Start(recs, i) <= end && Tiles(buf, 0, Start(recs, i), recs[..i])
    ensures Tiles(buf, Start(recs, i), end, recs[i..])
  {
    hide Tiles;
    if i == 0 {
      TilesNothing(buf, 0);
      assert recs[0..] == recs && recs[..0] == [];
    } else {
      TilesSplit(buf, end, recs, i - 1);
      TilesNonEmpty(buf, Start(recs, i - 1), end, recs[i - 1..]);
      ChainStep(buf, Start(recs, i - 1), end, recs, i - 1);
    }
  }

  lemma TilesNonEmpty(buf: Bytes, pos: nat, end: nat, recs: seq<Record>)
    requires end <= |buf| && Tiles(buf, pos, end, recs) && recs != []
    ensures pos < end
  {
  }

  /** What the removal writes: the grown length of the live record before, or a zero inode number. */
  function RemovalBytes(buf: Bytes, recs: seq<Record>, m: nat): (r: Bytes)
    requires m < |recs| && Tiles(buf, 0, |buf|, recs)
    ensures |r| == |buf|
  {
    TilesSplit(buf, |buf|, recs, m);
    TilesNonEmpty(buf, Start(recs, m), |buf|, recs[m..]);
    match LastLive(recs, m)
    case None =>
      RecordLength(buf, Start(recs, m), |buf|, recs[m..]);
      Patch(buf, Start(recs, m), ToLe32(0))
    case Some(p) =>
      TilesSplit(buf, |buf|, recs, p);
      RecordLength(buf, Start(recs, p), |buf|, recs[p..]);
      Patch(buf, Start(recs, p) + 4, ToLe16(recs[p].recLen + recs[m].recLen))
  }

  /** Erases record `m`, which starts at `pos`; `prev` is where the live record before it starts. */
  method Erase(buf: array<byte>, pos: nat, recLen: nat, prev: Option<nat>, ghost recs: seq<Record>, ghost m: nat)
    requires Tiles(buf[..], 0, buf.Length, recs) && buf.Length < U16 && m < |recs|
    requires pos == Start(recs, m) && recLen == recs[m].recLen
    requires prev == match LastLive(recs, m) case None => None case Some(p) => Some(Start(recs, p))
    modifies buf
    ensures buf[..] == RemovalBytes(old(buf[..]), recs, m)
    ensures Adjacent(recs, m) ==> Tiles(buf[..], 0, buf.Length, Removed(recs, m))
  {
    hide RecordAt, Patch, Tiles, Le16, Le32, Removed, RemovalBytes;
    ghost var was := buf[..];
    if prev.Some? {
      GrownBytes(was, recs, m);
      ghost var p := LastLive(recs, m).value;
      TilesSplit(was, buf.Length, recs, p);
      RecordLength(was, prev.value, buf.Length, recs[p..]);
      assert recs[p..][0] == recs[p];
      var prevLen := Le16(buf[..], prev.value + 4);
      Overwrite(buf, prev.value + 4, ToLe16(prevLen + recLen));
    } else {
      MarkedBytes(was, recs, m);
      Overwrite(buf, pos, ToLe32(0));
    }
    if Adjacent(recs, m) { RemovedTiles(was, recs, m); }
  }

  /** Removes the entry `name` from a block, in place. */
  method RemoveEntry(buf: array<byte>, name: Bytes, ghost recs: seq<Record>) returns (r: Option<nat>)
    requires Tiles(buf[..], 0, buf.Length, recs) && buf.Length < U16
    modifies buf
    ensures r.Some? <==> Match(recs, name).Some?
    ensures r.None? ==> buf[..] == old(buf[..])
    ensures r.Some? ==>
              var m := Match(recs, name).value;
              && r.value == recs[m].entry.inode && buf[..] == RemovalBytes(old(buf[..]), recs, m)
              && (Adjacent(recs, m) ==> Tiles(buf[..], 0, buf.Length, Removed(recs, m)))
  {
    hide RecordAt, Patch, Tiles, Le16, Le32, Removed, RemovalBytes;
    var n, pos := buf.Length, 0;
    var prev: Option<nat> := None;
    ghost var i, was := 0, buf[..];
    TilesNothing(was, 0);
    assert recs[0..] == recs && recs[..0] == [];
    while pos + 8 <= n
      invariant i <= |recs| && pos == Start(recs, i) <= n && buf[..] == was
      invariant Tiles(was, 0, pos, recs[..i]) && Tiles(was, pos, n, recs[i..])
      invariant forall j :: 0 <= j < i ==> !(recs[j].Live() && recs[j].entry.name == name)
      invariant prev.Some? <==> LastLive(recs, i).Some?
      invariant prev.Some? ==> prev.value == Start(recs, LastLive(recs, i).value)
      decreases n - pos
    {
      ChainHead(was, pos, n, recs[i..]);
      assert recs[i..][0] == recs[i];
      var rec := RecordAt(buf[..], pos);
      if rec.Live() && rec.entry.name == name {
        assert Match(recs, name) == Some(i);
        Erase(buf, pos, rec.recLen, prev, recs, i);
        return Some(rec.entry.inode);
      }
      ChainStep(was, pos, n, recs, i);
      if rec.Live() { prev := Some(pos); }
      pos := pos + rec.recLen;
      i := i + 1;
    }
    ShortTail(was, pos, n, recs[i..]);
    return None;
  }

  lemma ShortTail(buf: Bytes, pos: nat, end: nat, recs: seq<Record>)
    requires end < pos + 8 && end <= |buf| && Tiles(buf, pos, end, recs)
    ensures recs == []
  {
  }

  // ---- what removal means for the entries ----

  /** The list without its element `i`. */
  function TakeOut(es: seq<Entry>, i: nat): seq<Entry>
    requires i < |es|
  {
    es[..i] + es[i + 1..]
  }

  /** How many live entries come before record `m`. */
  function LiveBefore(recs: seq<Record>, m: nat): nat
    requires m <= |recs|
  {
    |LiveEntries(recs[..m])|
  }

  lemma LiveAround(recs: seq<Record>, m: nat)
    requires m < |recs|
    ensures LiveEntries(recs) == LiveEntries(recs[..m]) + LiveEntry(recs[m]) + LiveEntries(recs[m + 1..])
    ensures recs[m].Live() ==> LiveBefore(recs, m) < |LiveEntries(recs)|
                               && TakeOut(LiveEntries(recs), LiveBefore(recs, m))
                                  == LiveEntries(recs[..m]) + LiveEntries(recs[m + 1..])
  {
    assert recs == recs[..m] + ([recs[m]] + recs[m + 1..]);
    LiveConcat(recs[..m], [recs[m]] + recs[m + 1..]);
    LiveHead(recs[m], recs[m + 1..]);
  }

  lemma MarkedEntries(recs: seq<Record>, m: nat)
    requires m < |recs| && recs[m].Live()
    ensures LiveEntries(recs[m := Dead(recs[m])])
            == LiveEntries(recs[..m]) + LiveEntries(recs[m + 1..])
  {
    var dead := Dead(recs[m]);
    var recs' := recs[m := dead];
    assert recs'[..m] == recs[..m] && recs'[m + 1..] == recs[m + 1..];
    LiveAround(recs', m);
    assert LiveEntry(dead) == [] && LiveEntries(recs[..m]) + [] == LiveEntries(recs[..m]);
  }

  lemma MergedEntries(recs: seq<Record>, m: nat, len: nat)
    requires 0 < m < |recs| && recs[m - 1].Live()
    ensures LiveEntries(recs[..m][m - 1 := recs[m - 1].(recLen := len)] + recs[m + 1..])
            == LiveEntries(recs[..m]) + LiveEntries(recs[m + 1..])
  {
    var p, grown := m - 1, recs[m - 1].(recLen := len);
    assert recs[..m][p := grown] == recs[..p] + [grown] && recs[..m] == recs[..p] + [recs[p]];
    LiveConcat(recs[..p] + [grown], recs[m + 1..]);
    LiveConcat(recs[..p], [grown]);
    LiveConcat(recs[..p], [recs[p]]);
    LiveHead(grown, []);
    LiveHead(recs[p], []);
  }

  /** Removal next to the live record before it, or of the first live record, takes exactly one entry off
      the list. */
  lemma RemovedEntries(recs: seq<Record>, m: nat)
    requires m < |recs| && recs[m].Live() && Adjacent(recs, m)
    ensures LiveBefore(recs, m) < |LiveEntries(recs)|
    ensures LiveEntries(Removed(recs, m)) == TakeOut(LiveEntries(recs), LiveBefore(recs, m))
    ensures AllLive(recs) && m > 0 ==> AllLive(Removed(recs, m)) && Removed(recs, m)[0].entry == recs[0].entry
  {
    hide LiveEntries, LiveEntry;
    LiveAround(recs, m);
    if LastLive(recs, m).None? {
      MarkedEntries(recs, m);
    } else {
      MergedEntries(recs, m, recs[m - 1].recLen + recs[m].recLen);
    }
  }

  /** The bytes removal leaves are then the chain without that record. */
  lemma RemovedTiles(buf: Bytes, recs: seq<Record>, m: nat)
    requires |buf| < U16 && Tiles(buf, 0, |buf|, recs) && m < |recs| && Adjacent(recs, m)
    ensures Tiles(RemovalBytes(buf, recs, m), 0, |buf|, Removed(recs, m))
  {
    hide Tiles, RecordAt, Le16, Le32, Patch, Start, ToLe16, ToLe32, RemovalBytes, Removed, LastLive, Renumbered;
    RemovedForms(recs, m);
    if LastLive(recs, m).None? {
      MarkedBytes(buf, recs, m);
      RenumberedTiles(buf, recs, m, 0);
    } else {
      GrownBytes(buf, recs, m);
      MergedTiles(buf, recs, m);
    }
  }

  lemma RemovedForms(recs: seq<Record>, m: nat)
    requires m < |recs| && Adjacent(recs, m)
    ensures LastLive(recs, m).None? ==> Removed(recs, m) == recs[m := Renumbered(recs[m], 0)]
    ensures LastLive(recs, m).Some? ==>
              m > 0 && LastLive(recs, m) == Some(m - 1)
              && Removed(recs, m)
                 == recs[..m][m - 1 := recs[m - 1].(recLen := recs[m - 1].recLen + recs[m].recLen)] + recs[m + 1..]
  {
  }

  lemma StartNext(recs: seq<Record>, i: nat)
    requires i < |recs|
    ensures Start(recs, i + 1) == Start(recs, i) + recs[i].recLen
  {
  }

  lemma RenumberedAt(buf: Bytes, pos: nat, end: nat, recs: seq<Record>, inode: nat)
    requires end <= |buf| && Tiles(buf, pos, end, recs) && recs != [] && inode < U32
    ensures pos + 8 <= |buf|
    ensures var buf' := Patch(buf, pos, ToLe32(inode));
            && Tiles(buf', pos, end, [Renumbered(recs[0], inode)] + recs[1..])
            && forall i :: 0 <= i < pos ==> buf'[i] == buf[i]
  {
    hide Tiles, RecordAt, Le16, Le32, Patch, ToLe32;
    RecordLength(buf, pos, end, recs);
    TilesTail(buf, pos, end, recs);
    var buf', next := Patch(buf, pos, ToLe32(inode)), pos + recs[0].recLen;
    RenumberedRecord(buf, pos, end, recs, inode);
    TilesFrame(buf, buf', next, end, recs[1..]);
    TilesJoin(buf', pos, next, end, [Renumbered(recs[0], inode)], recs[1..]);
  }

  lemma TilesTail(buf: Bytes, pos: nat, end: nat, recs: seq<Record>)
    requires end <= |buf| && Tiles(buf, pos, end, recs) && recs != []
    ensures Tiles(buf, pos + recs[0].recLen, end, recs[1..])
  {
  }

  /** One record of a block renumbered in place. */
  lemma RenumberedTiles(buf: Bytes, recs: seq<Record>, m: nat, inode: nat)
    requires Tiles(buf, 0, |buf|, recs) && m < |recs| && Start(recs, m) + 4 <= |buf| && inode < U32
    ensures Tiles(Patch(buf, Start(recs, m), ToLe32(inode)), 0, |buf|, recs[m := Renumbered(recs[m], inode)])
  {
    hide Tiles, RecordAt, Le16, Le32, Patch, Start, ToLe32, Renumbered;
    TilesSplit(buf, |buf|, recs, m);
    RenumberedAt(buf, Start(recs, m), |buf|, recs[m..], inode);
    ChainAround(buf, Patch(buf, Start(recs, m), ToLe32(inode)), Start(recs, m), |buf|,
                recs[..m], [Renumbered(recs[m..][0], inode)] + recs[m..][1..]);
    Updated(recs, m, Renumbered(recs[m], inode));
  }

  lemma Updated(recs: seq<Record>, m: nat, r: Record)
    requires m < |recs|
    ensures recs[m..][0] == recs[m] && recs[..m] + ([r] + recs[m..][1..]) == recs[m := r]
  {
  }

  lemma MergedTiles(buf: Bytes, recs: seq<Record>, m: nat)
    requires |buf| < U16 && Tiles(buf, 0, |buf|, recs) && 0 < m < |recs| && Start(recs, m - 1) + 8 <= |buf|
    ensures var len := recs[m - 1].recLen + recs[m].recLen;
            Tiles(Patch(buf, Start(recs, m - 1) + 4, ToLe16(len)), 0, |buf|,
                  recs[..m][m - 1 := recs[m - 1].(recLen := len)] + recs[m + 1..])
  {
    hide Tiles, RecordAt, Le16, Patch, Start;
    var n, p := |buf|, m - 1;
    var grown := recs[p].(recLen := recs[p].recLen + recs[m].recLen);
    var buf' := Patch(buf, Start(recs, p) + 4, ToLe16(grown.recLen));
    StartNext(recs, p);
    StartNext(recs, m);
    TilesSplit(buf, n, recs, p);
    TilesSplit(buf, n, recs, m + 1);
    RecordLength(buf, Start(recs, p), n, recs[p..]);
    Relength(buf, Start(recs, p), n, recs[p..], grown.recLen);
    TilesFrame(buf, buf', Start(recs, m + 1), n, recs[m + 1..]);
    TilesJoin(buf', Start(recs, p), Start(recs, m + 1), n, [grown], recs[m + 1..]);
    ChainAround(buf, buf', Start(recs, p), n, recs[..p], [grown] + recs[m + 1..]);
    assert recs[..p] + ([grown] + recs[m + 1..]) == recs[..m][p := grown] + recs[m + 1..];
  }

  /** Rewriting the inode number of a record changes nothing else in it. */
  lemma RenumberedRecord(buf: Bytes, pos: nat, end: nat, recs: seq<Record>, inode: nat)
    requires end <= |buf| && Tiles(buf, pos, end, recs) && recs != [] && inode < U32
    ensures pos + 8 <= |buf|
    ensures var buf' := Patch(buf, pos, ToLe32(inode));
            && Tiles(buf', pos, pos + recs[0].recLen, [Renumbered(recs[0], inode)])
            && forall i :: 0 <= i < |buf| && !(pos <= i < pos + 4) ==> buf'[i] == buf[i]
  {
    hide ToLe32, Patch, Le16, Le32;
    var buf', r := Patch(buf, pos, ToLe32(inode)), Renumbered(recs[0], inode);
    PatchedSlice(buf, pos, ToLe32(inode));
    Le32At(buf', pos, inode);
    HighFields(buf, buf', pos);
    OneRecord(buf', pos, r);
  }

  lemma HighFields(buf: Bytes, buf': Bytes, pos: nat)
    requires pos + 8 <= |buf| == |buf'| && pos + 8 + (buf[pos + 6] as int) <= |buf|
    requires forall i :: 0 <= i < |buf| && !(pos <= i < pos + 4) ==> buf'[i] == buf[i]
    ensures Le16(buf', pos + 4) == Le16(buf, pos + 4) && buf'[pos + 6] == buf[pos + 6] && buf'[pos + 7] == buf[pos + 7]
    ensures buf'[pos + 8..pos + 8 + (buf[pos + 6] as int)] == buf[pos + 8..pos + 8 + (buf[pos + 6] as int)]
  {
  }

  /** `pos` is where a record of the chain starts, or its end. */
  ghost predicate IsStart(recs: seq<Record>, pos: nat) {
    exists i :: 0 <= i <= |recs| && Start(recs, i) == pos
  }

  /** The records of `recs'` start and end only where records of `recs` do. */
  ghost predicate StartsWithin(recs': seq<Record>, recs: seq<Record>) {
    forall i :: 0 <= i <= |recs'| ==> IsStart(recs, Start(recs', i))
  }

  /** The block is tiled again, only at places where records started before, and its live entries are the
      old ones less that of record `m`. */
  ghost predicate RemovesExactly(buf: Bytes, recs: seq<Record>, m: nat)
    requires m < |recs| && LiveBefore(recs, m) < |LiveEntries(recs)|
  {
    exists recs' ::
      && Tiles(buf, 0, |buf|, recs')
      && StartsWithin(recs', recs)
      && LiveEntries(recs') == TakeOut(LiveEntries(recs), LiveBefore(recs, m))
  }

  lemma {:induction false} StartsAscend(recs: seq<Record>, i: nat, j: nat)
    requires i <= j <= |recs| && forall r :: r in recs ==> r.recLen > 0
    ensures Start(recs, i) <= Start(recs, j) && (i < j ==> Start(recs, i) < Start(recs, j))
  {
    if i < j { StartsAscend(recs, i, j - 1); }
  }

  lemma {:induction false} RecordsPositive(buf: Bytes, pos: nat, end: nat, recs: seq<Record>)
    requires end <= |buf| && Tiles(buf, pos, end, recs)
    ensures forall r :: r in recs ==> r.recLen > 0
    decreases |recs|
  {
    hide RecordAt, Le16;
    if recs != [] {
      RecordLength(buf, pos, end, recs);
      RecordsPositive(buf, pos + recs[0].recLen, end, recs[1..]);
    }
  }

  /** Two chains over the same bytes agree as far as the shorter one goes. */
  lemma {:induction false} SharedPrefix(buf: Bytes, pos: nat, mid: nat, end: nat, a: seq<Record>, c: seq<Record>)
    requires mid <= end <= |buf| && Tiles(buf, pos, mid, a) && Tiles(buf, pos, end, c)
    ensures |a| <= |c| && a == c[..|a|] && Tiles(buf, mid, end, c[|a|..])
    decreases |a|
  {
    hide RecordAt, Le16;
    if a == [] {
      assert c[0..] == c;
    } else {
      TilesPositive(buf, pos, mid, a);
      SharedPrefix(buf, pos + a[0].recLen, mid, end, a[1..], c[1..]);
      assert a == [a[0]] + a[1..] && c == [c[0]] + c[1..];
      assert c[1..][|a| - 1..] == c[|a|..];
    }
  }

  lemma {:induction false} DeadBetween(recs: seq<Record>, i: nat, j: nat)
    requires i <= j <= |recs| && forall k :: i <= k < j ==> !recs[k].Live()
    ensures LiveEntries(recs[i..]) == LiveEntries(recs[j..])
    decreases j - i
  {
    if i < j {
      assert recs[i..] == [recs[i]] + recs[i + 1..];
      LiveHead(recs[i], recs[i + 1..]);
      DeadBetween(recs, i + 1, j);
    }
  }

  /** Removal with a live record before grows that record. */
  lemma GrownBytes(buf: Bytes, recs: seq<Record>, m: nat)
    requires Tiles(buf, 0, |buf|, recs) && m < |recs| && LastLive(recs, m).Some?
    ensures var p := LastLive(recs, m).value;
            && Start(recs, p) + 8 <= |buf|
            && RemovalBytes(buf, recs, m) == Patch(buf, Start(recs, p) + 4, ToLe16(recs[p].recLen + recs[m].recLen))
  {
    hide Tiles, RecordAt, Le16, Le32, Patch, Start, ToLe16, ToLe32;
    TilesSplit(buf, |buf|, recs, LastLive(recs, m).value);
    RecordLength(buf, Start(recs, LastLive(recs, m).value), |buf|, recs[LastLive(recs, m).value..]);
  }

  lemma MarkedBytes(buf: Bytes, recs: seq<Record>, m: nat)
    requires Tiles(buf, 0, |buf|, recs) && m < |recs| && LastLive(recs, m).None?
    ensures Start(recs, m) + 8 <= |buf| && RemovalBytes(buf, recs, m) == Patch(buf, Start(recs, m), ToLe32(0))
  {
    hide Tiles, RecordAt, Le16, Le32, Patch, Start, ToLe16, ToLe32;
    TilesSplit(buf, |buf|, recs, m);
    RecordLength(buf, Start(recs, m), |buf|, recs[m..]);
  }

  lemma NotAdjacent(recs: seq<Record>, m: nat)
    requires m < |recs| && !Adjacent(recs, m)
    ensures LastLive(recs, m).Some? && LastLive(recs, m).value + 1 < m
  {
  }

  /** With a deleted record in between, the grown record swallows less than it should or more: however
      the new bytes are tiled, if records start only where they did before, no entry has gone. */
  lemma NothingRemoved(buf: Bytes, recs: seq<Record>, m: nat, recs': seq<Record>)
    requires |buf| < U16 && Tiles(buf, 0, |buf|, recs) && m < |recs| && recs[m].Live() && !Adjacent(recs, m)
    requires Tiles(RemovalBytes(buf, recs, m), 0, |buf|, recs')
    requires StartsWithin(recs', recs)
    ensures LiveEntries(recs') == LiveEntries(recs)
  {
    hide Tiles, RecordAt, Le16, Le32, Patch, Start, LiveEntries, ToLe16, ToLe32, RemovalBytes,
      StartsWithin, Adjacent, LastLive;
    NotAdjacent(recs, m);
    GrownBytes(buf, recs, m);
    GrownKeepsAll(buf, recs, m, LastLive(recs, m).value, recs');
  }

  lemma GrownKeepsAll(buf: Bytes, recs: seq<Record>, m: nat, p: nat, recs': seq<Record>)
    requires |buf| < U16 && Tiles(buf, 0, |buf|, recs) && p + 1 < m < |recs| && Start(recs, p) + 8 <= |buf|
    requires forall k :: p < k < m ==> !recs[k].Live()
    requires Tiles(Patch(buf, Start(recs, p) + 4, ToLe16(recs[p].recLen + recs[m].recLen)), 0, |buf|, recs')
    requires StartsWithin(recs', recs)
    ensures LiveEntries(recs') == LiveEntries(recs)
  {
    hide Tiles, RecordAt, Le16, Patch, Start, LiveEntries, ToLe16, StartsWithin;
    var j := GrownChain(buf, recs, m, p, recs');
    DeadBetween(recs, p + 1, j);
    SameLive(recs, p, j, recs[p].recLen + recs[m].recLen);
  }

  lemma SameEntry(r: Record, len: nat)
    ensures LiveEntry(r.(recLen := len)) == LiveEntry(r)
  {
  }

  lemma SameLive(recs: seq<Record>, p: nat, j: nat, len: nat)
    requires p < j <= |recs| && LiveEntries(recs[p + 1..]) == LiveEntries(recs[j..])
    ensures LiveEntries(recs[..p] + ([recs[p].(recLen := len)] + recs[j..])) == LiveEntries(recs)
  {
    hide LiveEntries, LiveEntry;
    var grown := recs[p].(recLen := len);
    SameEntry(recs[p], len);
    assert recs == recs[..p] + ([recs[p]] + recs[p + 1..]);
    LiveConcat(recs[..p], [recs[p]] + recs[p + 1..]);
    LiveHead(recs[p], recs[p + 1..]);
    LiveConcat(recs[..p], [grown] + recs[j..]);
    LiveHead(grown, recs[j..]);
  }

  /** The chain after the record before has grown over less or more than record `m`. */
  lemma GrownChain(buf: Bytes, recs: seq<Record>, m: nat, p: nat, recs': seq<Record>) returns (j: nat)
    requires |buf| < U16 && Tiles(buf, 0, |buf|, recs) && p + 1 < m < |recs| && Start(recs, p) + 8 <= |buf|
    requires Tiles(Patch(buf, Start(recs, p) + 4, ToLe16(recs[p].recLen + recs[m].recLen)), 0, |buf|, recs')
    requires StartsWithin(recs', recs)
    ensures p + 1 < j <= m
    ensures recs' == recs[..p] + ([recs[p].(recLen := recs[p].recLen + recs[m].recLen)] + recs[j..])
  {
    hide Tiles, RecordAt, Le16, Patch, Start, ToLe16;
    var n := |buf|;
    var grown := recs[p].(recLen := recs[p].recLen + recs[m].recLen);
    var buf' := Patch(buf, Start(recs, p) + 4, ToLe16(grown.recLen));
    RecordsPositive(buf, 0, n, recs);
    StartNext(recs, p);
    StartNext(recs, m);
    StartsAscend(recs, p + 1, m);
    TilesSplit(buf, n, recs, p);
    TilesSplit(buf, n, recs, m + 1);
    RecordLength(buf, Start(recs, p), n, recs[p..]);
    Relength(buf, Start(recs, p), n, recs[p..], grown.recLen);
    TilesFrame(buf, buf', 0, Start(recs, p), recs[..p]);
    TilesJoin(buf', 0, Start(recs, p), Start(recs, p) + grown.recLen, recs[..p], [grown]);
    SharedPrefix(buf', 0, Start(recs, p) + grown.recLen, n, recs[..p] + [grown], recs');
    var q := Start(recs, p) + grown.recLen;
    StartOfPrefix(buf', q, n, recs', p + 1);
    j :| 0 <= j <= |recs| && Start(recs, j) == q;
    if j <= p + 1 { StartsAscend(recs, j, p + 1); }
    if j > m { StartsAscend(recs, m + 1, j); }
    TilesSplit(buf, n, recs, j);
    TilesFrame(buf, buf', q, n, recs[j..]);
    OneChain(buf', q, n, recs'[p + 1..], recs[j..]);
    assert recs' == recs'[..p + 1] + recs'[p + 1..];
    assert (recs[..p] + [grown]) + recs[j..] == recs[..p] + ([grown] + recs[j..]);
  }

  lemma StartOfPrefix(buf: Bytes, q: nat, end: nat, recs: seq<Record>, i: nat)
    requires q <= end <= |buf| && i <= |recs| && Tiles(buf, 0, q, recs[..i])
    ensures Start(recs, i) == q
  {
    TilesSize(buf, 0, q, recs[..i]);
    SizeSnoc(recs, i);
  }

  /** With records starting only where they did before, removal takes exactly the first entry of that
      name out of a block if and only if nothing deleted lies between its record and the live record
      before it. */
  lemma RemovalExact(buf: Bytes, recs: seq<Record>, m: nat)
    requires |buf| < U16 && Tiles(buf, 0, |buf|, recs) && m < |recs| && recs[m].Live()
    ensures LiveBefore(recs, m) < |LiveEntries(recs)|
    ensures RemovesExactly(RemovalBytes(buf, recs, m), recs, m) <==> Adjacent(recs, m)
  {
    hide Tiles, Start, LiveEntries, Removed, RemovalBytes, StartsWithin;
    LiveAround(recs, m);
    var buf' := RemovalBytes(buf, recs, m);
    if Adjacent(recs, m) {
      RemovedTiles(buf, recs, m);
      RemovedEntries(recs, m);
      RemovedStarts(recs, m);
      assert Tiles(buf', 0, |buf'|, Removed(recs, m));
    } else {
      forall recs' | Tiles(buf', 0, |buf|, recs') && StartsWithin(recs', recs)
        ensures LiveEntries(recs') != TakeOut(LiveEntries(recs), LiveBefore(recs, m))
      {
        NothingRemoved(buf, recs, m, recs');
      }
    }
  }

  /** A removal that is lost: behind one deleted record of the same length, the live record before grows
      over the deleted record instead, and every entry is still there. */
  lemma LostRemoval(buf: Bytes, recs: seq<Record>, m: nat)
    requires |buf| < U16 && Tiles(buf, 0, |buf|, recs) && 2 <= m < |recs|
    requires recs[m - 2].Live() && !recs[m - 1].Live() && recs[m].Live()
    requires recs[m - 1].recLen == recs[m].recLen
    ensures var recs' := recs[..m - 1][m - 2 := recs[m - 2].(recLen := recs[m - 2].recLen + recs[m].recLen)]
                         + recs[m..];
            && Tiles(RemovalBytes(buf, recs, m), 0, |buf|, recs')
            && LiveEntries(recs') == LiveEntries(recs)
  {
    hide Tiles, RecordAt, Le16, Le32, Patch, Start, LiveEntries, ToLe16, ToLe32, RemovalBytes;
    assert LastLive(recs, m) == Some(m - 2) by {
      assert LastLive(recs, m - 1) == Some(m - 2);
    }
    GrownBytes(buf, recs, m);
    MergedTiles(buf, recs, m - 1);
    MergedEntries(recs, m - 1, recs[m - 2].recLen + recs[m].recLen);
    LiveAround(recs, m - 1);
    assert LiveEntry(recs[m - 1]) == [] && LiveEntries(recs[..m - 1]) + [] == LiveEntries(recs[..m - 1]);
  }

  lemma RemovedStarts(recs: seq<Record>, m: nat)
    requires m < |recs| && Adjacent(recs, m)
    ensures StartsWithin(Removed(recs, m), recs)
  {
    forall i | 0 <= i <= |Removed(recs, m)| ensures IsStart(recs, Start(Removed(recs, m), i)) {
      RemovedStart(recs, m, i);
      var j := if LastLive(recs, m).None? || i < m then i else i + 1;
      assert Start(recs, j) == Start(Removed(recs, m), i);
    }
  }

  /** The lengths of the records left: the grown one spans two. */
  lemma RemovedLength(recs: seq<Record>, m: nat, i: nat)
    requires m < |recs| && Adjacent(recs, m) && i < |Removed(recs, m)|
    ensures Removed(recs, m)[i].recLen ==
            if LastLive(recs, m).None? || i + 1 < m then recs[i].recLen
            else if i + 1 == m then recs[i].recLen + recs[m].recLen else recs[i + 1].recLen
  {
  }

  lemma {:induction false} RemovedStart(recs: seq<Record>, m: nat, i: nat)
    requires m < |recs| && Adjacent(recs, m) && i <= |Removed(recs, m)|
    ensures Start(Removed(recs, m), i) == Start(recs, if LastLive(recs, m).None? || i < m then i else i + 1)
  {
    hide Removed, LastLive, Adjacent;
    if i > 0 {
      RemovedStart(recs, m, i - 1);
      RemovedLength(recs, m, i - 1);
    }
  }

  // ---- runs ----

  datatype DirOp = Insert(entry: Entry) | Remove(name: Bytes)

  /** Nothing deleted lies between the record to remove and the live record before it. */
  predicate LegalOp(recs: seq<Record>, op: DirOp) {
    match op
    case Insert(e) => 0 < e.inode < U32
    case Remove(name) => Match(recs, name).Some? ==> Adjacent(recs, Match(recs, name).value)
  }

  /** One operation on a block, and which place in the list of live entries it was about, if it was done. */
  function StepOp(recs: seq<Record>, op: DirOp): (seq<Record>, Option<nat>) {
    match op
    case Insert(e) => (
      match Inserted(recs, WrittenEntry(e), MinRecLen(|e.name|))
      case None => (recs, None)
      case Some(recs') => (recs', Some(InsertPoint(recs, MinRecLen(|e.name|)))))
    case Remove(name) => (
      match Match(recs, name)
      case None => (recs, None)
      case Some(m) => (Removed(recs, m), Some(LiveBefore(recs, m))))
  }

  /** The first entry with this name. */
  function Named(es: seq<Entry>, name: Bytes): (m: Option<nat>)
    ensures m.Some? ==> m.value < |es|
  {
    if es == [] then None
    else if es[0].name == name then Some(0)
    else match Named(es[1..], name) case None => None case Some(m) => Some(m + 1)
  }

  /** The same operation on the plain list of entries: put in at that place, or take out the first of
      that name. */
  function ListOp(es: seq<Entry>, op: DirOp, at: Option<nat>): seq<Entry> {
    match op
    case Insert(e) => if at.Some? && at.value <= |es| then PutIn(es, at.value, WrittenEntry(e)) else es
    case Remove(name) => if Named(es, name).Some? then TakeOut(es, Named(es, name).value) else es
  }

  function RunOps(recs: seq<Record>, ops: seq<DirOp>): (r: (seq<Record>, seq<Option<nat>>))
    ensures |r.1| == |ops|
    decreases |ops|
  {
    if ops == [] then (recs, [])
    else
      var first := StepOp(recs, ops[0]);
      var rest := RunOps(first.0, ops[1..]);
      (rest.0, [first.1] + rest.1)
  }

  function ListRun(es: seq<Entry>, ops: seq<DirOp>, at: seq<Option<nat>>): seq<Entry>
    requires |at| == |ops|
    decreases |ops|
  {
    if ops == [] then es else ListRun(ListOp(es, ops[0], at[0]), ops[1..], at[1..])
  }

  predicate LegalRun(recs: seq<Record>, ops: seq<DirOp>)
    decreases |ops|
  {
    ops == [] || (LegalOp(recs, ops[0]) && LegalRun(StepOp(recs, ops[0]).0, ops[1..]))
  }

  lemma SizeOfRemoved(recs: seq<Record>, m: nat)
    requires m < |recs| && Adjacent(recs, m)
    ensures Size(Removed(recs, m)) == Size(recs)
  {
    hide Removed;
    var recs' := Removed(recs, m);
    RemovedStart(recs, m, |recs'|);
    SizeSnoc(recs', |recs'|);
    SizeSnoc(recs, |recs|);
    assert recs'[..|recs'|] == recs' && recs[..|recs|] == recs;
  }

  /** The first live record of a name is the first entry of that name. */
  lemma {:induction false} NamedIsMatch(recs: seq<Record>, name: Bytes)
    ensures Named(LiveEntries(recs), name) ==
            match Match(recs, name) case None => None case Some(m) => Some(LiveBefore(recs, m))
  {
    hide Match, LiveEntry, Named;
    if recs != [] {
      NamedIsMatch(recs[1..], name);
      NamedHead(recs[0], recs[1..], name);
      assert recs == [recs[0]] + recs[1..];
      MatchHead(recs[0], recs[1..], name);
      if Match(recs[1..], name).Some? {
        var m := Match(recs[1..], name).value;
        assert recs[..m + 1] == [recs[0]] + recs[1..][..m];
        LiveHead(recs[0], recs[1..][..m]);
      }
    } else {
      MatchNothing(name);
    }
  }

  lemma MatchNothing(name: Bytes)
    ensures Match([], name) == None && Named([], name) == None
  {
  }

  lemma MatchHead(r: Record, rest: seq<Record>, name: Bytes)
    ensures Match([r] + rest, name) ==
            if r.Live() && r.entry.name == name then Some(0)
            else match Match(rest, name) case None => None case Some(m) => Some(m + 1)
  {
    assert ([r] + rest)[1..] == rest;
  }

  lemma NamedHead(r: Record, rest: seq<Record>, name: Bytes)
    ensures Named(LiveEntry(r) + LiveEntries(rest), name) ==
            if r.Live() && r.entry.name == name then Some(0)
            else match Named(LiveEntries(rest), name) case None => None case Some(m) => Some(|LiveEntry(r)| + m)
  {
    var es := LiveEntries(rest);
    assert [] + es == es && ([r.entry] + es)[1..] == es;
  }

  /** One operation keeps the chain's size and does to the entries what it does to a plain list. */
  lemma StepKeeps(recs: seq<Record>, op: DirOp)
    requires LegalOp(recs, op)
    ensures var (recs', at) := StepOp(recs, op);
            && Size(recs') == Size(recs) && LiveEntries(recs') == ListOp(LiveEntries(recs), op, at)
            && (op.Insert? && at.Some? ==> at.value <= |LiveEntries(recs)|)
            && (op.Remove? ==> at == Named(LiveEntries(recs), op.name))
  {
    hide LiveEntries, Inserted, Removed, MinRecLen, Size, InsertPoint, LiveBefore, Named, Adjacent;
    match op
    case Insert(e) =>
      if Inserted(recs, WrittenEntry(e), MinRecLen(|e.name|)).Some? {
        InsertAddsOne(recs, WrittenEntry(e), MinRecLen(|e.name|));
      }
    case Remove(name) =>
      NamedIsMatch(recs, name);
      if Match(recs, name).Some? {
        RemovedEntries(recs, Match(recs, name).value);
        SizeOfRemoved(recs, Match(recs, name).value);
      }
  }

  /** Every run of insertions and removals does to the entries of a block exactly what it does to a plain
      list, deleted records or not, and the records still add up to the whole block. */
  lemma {:induction false} RunKeeps(recs: seq<Record>, ops: seq<DirOp>)
    requires LegalRun(recs, ops)
    ensures var (recs', at) := RunOps(recs, ops);
            Size(recs') == Size(recs) && LiveEntries(recs') == ListRun(LiveEntries(recs), ops, at)
    decreases |ops|
  {
    hide LiveEntries, StepOp, ListOp, Size, LegalOp;
    if ops != [] {
      StepKeeps(recs, ops[0]);
      RunKeeps(StepOp(recs, ops[0]).0, ops[1..]);
    }
  }

  /** The run on the bytes: the block stays tiled exactly, with names inside records, and parsing it
      afterwards reads back the list. */
  method RunBlock(buf: array<byte>, ops: seq<DirOp>, ghost recs: seq<Record>)
      returns (parsed: Result<seq<Entry>, DirError>)
    requires Tiles(buf[..], 0, buf.Length, recs) && buf.Length < U16 && LegalRun(recs, ops)
    modifies buf
    ensures Tiles(buf[..], 0, buf.Length, RunOps(recs, ops).0)
    ensures parsed == Ok(ListRun(LiveEntries(recs), ops, RunOps(recs, ops).1))
  {
    hide Tiles, LiveEntries, StepOp, ListOp, LegalOp, ListRun;
    var i := 0;
    ghost var now := recs;
    assert ops[0..] == ops;
    while i < |ops|
      invariant 0 <= i <= |ops| && Tiles(buf[..], 0, buf.Length, now) && LegalRun(now, ops[i..])
      invariant RunOps(now, ops[i..]).0 == RunOps(recs, ops).0
    {
      assert ops[i..][0] == ops[i] && ops[i..][1..] == ops[i + 1..];
      ApplyOp(buf, ops[i], now);
      now := StepOp(now, ops[i]).0;
      i := i + 1;
    }
    RunKeeps(recs, ops);
    assert [] + LiveEntries(now) == LiveEntries(now);
    parsed := ParseBlock(buf[..], [], now);
  }

  method ApplyOp(buf: array<byte>, op: DirOp, ghost recs: seq<Record>)
    requires Tiles(buf[..], 0, buf.Length, recs) && buf.Length < U16 && LegalOp(recs, op)
    modifies buf
    ensures Tiles(buf[..], 0, buf.Length, StepOp(recs, op).0)
  {
    hide Tiles, Inserted, Removed, MinRecLen, InsertPoint, LiveBefore, Adjacent, RemovalBytes;
    match op {
      case Insert(e) => var ok := TryInsert(buf, e, recs);
      case Remove(name) => var r := RemoveEntry(buf, name, recs);
    }
  }

  // ---- runs in blocks without deleted records ----

  /** In such a block an operation that does not remove the first record is legal, leaves none deleted
      and keeps the first record; an entry comes last. */
  lemma StepAppends(recs: seq<Record>, op: DirOp)
    requires AllLive(recs) && recs != [] && (op.Remove? ==> op.name != recs[0].entry.name)
    requires op.Insert? ==> 0 < op.entry.inode < U32
    ensures LegalOp(recs, op)
    ensures var (recs', at) := StepOp(recs, op);
            && AllLive(recs') && recs' != [] && recs'[0].entry == recs[0].entry
            && (op.Insert? && at.Some? ==> LiveEntries(recs') == LiveEntries(recs) + [WrittenEntry(op.entry)])
  {
    hide LiveEntries, Inserted, Removed, MinRecLen, InsertPoint, LiveBefore;
    match op
    case Insert(e) =>
      if Inserted(recs, WrittenEntry(e), MinRecLen(|e.name|)).Some? {
        InsertAppends(recs, WrittenEntry(e), MinRecLen(|e.name|));
      }
    case Remove(name) =>
      if Match(recs, name).Some? {
        var m := Match(recs, name).value;
        assert LastLive(recs, m) == Some(m - 1);
        RemovedEntries(recs, m);
      }
  }

  /** The list after a run that only appends and takes out. */
  function PlainRun(es: seq<Entry>, ops: seq<DirOp>, at: seq<Option<nat>>): seq<Entry>
    requires |at| == |ops|
    decreases |ops|
  {
    if ops == [] then es
    else if ops[0].Insert? then
      PlainRun(if at[0].Some? then es + [WrittenEntry(ops[0].entry)] else es, ops[1..], at[1..])
    else PlainRun(ListOp(es, ops[0], at[0]), ops[1..], at[1..])
  }

  /** From a block without deleted records whose first record is never removed, every run is legal, leaves
      no deleted records, and appends what it inserts. */
  lemma {:induction false} RunAppends(recs: seq<Record>, ops: seq<DirOp>)
    requires AllLive(recs) && recs != []
    requires forall i :: 0 <= i < |ops| ==>
               if ops[i].Insert? then 0 < ops[i].entry.inode < U32 else ops[i].name != recs[0].entry.name
    ensures LegalRun(recs, ops)
    ensures var (recs', at) := RunOps(recs, ops);
            AllLive(recs') && LiveEntries(recs') == PlainRun(LiveEntries(recs), ops, at)
    decreases |ops|
  {
    hide LiveEntries, StepOp, ListOp, LegalOp;
    if ops != [] {
      StepAppends(recs, ops[0]);
      StepKeeps(recs, ops[0]);
      RunAppends(StepOp(recs, ops[0]).0, ops[1..]);
      NothingDone(recs, ops[0]);
    }
  }

  lemma NothingDone(recs: seq<Record>, op: DirOp)
    ensures StepOp(recs, op).1.None? ==> StepOp(recs, op).0 == recs
  {
  }
}

/** The blocks of the journal: headers, descriptor tags, revoke lists, escaped data and the journal
    superblock, byte by byte as the writer lays them out and as replay reads them back. */
module JournalFormat {
  import opened Base

  const JOURNAL_MAGIC: nat := 0xC03B3998
  const DESCRIPTOR: nat := 1
  const COMMIT: nat := 2
  const REVOKE: nat := 5

  const HEADER_SIZE: nat := 12
  const TAG_SIZE: nat := 12
  const UUID_SIZE: nat := 16

  // ---- block headers ----

  function Header(kind: nat, seqno: nat): (r: Bytes)
    ensures |r| == HEADER_SIZE
  {
    ToBe32(JOURNAL_MAGIC) + ToBe32(kind) + ToBe32(seqno)
  }

  /** The block starts with the journal magic. */
  predicate HasMagic(buf: Bytes)
    requires |buf| >= 4
  {
    Be32(buf, 0) == JOURNAL_MAGIC
  }

  predicate HasHeader(buf: Bytes, kind: nat, seqno: nat)
    requires |buf| >= HEADER_SIZE
  {
    HasMagic(buf) && Be32(buf, 4) == kind && Be32(buf, 8) == seqno
  }

  /** A block that starts with a header carries its kind and its sequence number. */
  lemma HeaderRoundTrip(buf: Bytes, kind: nat, seqno: nat)
    requires |buf| >= HEADER_SIZE && buf[..HEADER_SIZE] == Header(kind, seqno) && kind < U32
    ensures HasMagic(buf) && Be32(buf, 4) == kind && Be32(buf, 8) == seqno % U32
  {
    hide ToBe32, Be32;
    var h := Header(kind, seqno);
    assert h[0..4] == ToBe32(JOURNAL_MAGIC) && h[4..8] == ToBe32(kind) && h[8..12] == ToBe32(seqno);
    assert buf[0..4] == h[0..4] && buf[4..8] == h[4..8] && buf[8..12] == h[8..12];
    Be32At(buf, 0, JOURNAL_MAGIC);
    Be32At(buf, 4, kind);
    Be32At(buf, 8, seqno);
  }

  /** A commit block. */
  function CommitBytes(seqno: nat, bs: nat): (r: Bytes)
    requires bs >= HEADER_SIZE
    ensures |r| == bs
  {
    Header(COMMIT, seqno) + Zeros(bs - HEADER_SIZE)
  }

  // ---- data blocks ----

  /** A data block as logged: a leading magic is zeroed. */
  function LoggedData(data: Bytes): (r: Bytes)
    requires |data| >= 4
    ensures |r| == |data| && !HasMagic(r)
    ensures r == data <==> !HasMagic(data)
  {
    if HasMagic(data) then
      assert (Zeros(4) + data[4..])[0] == 0;
      Zeros(4) + data[4..]
    else data
  }

  /** What replay makes of a logged data block whose tag carries the escape flag. */
  function Unescaped(data: Bytes, escape: bool): (r: Bytes)
    requires |data| >= 4
    ensures |r| == |data|
  {
    if escape then [0xC0, 0x3B, 0x39, 0x98] + data[4..] else data
  }

  /** The escape flag is all that the writer leaves out: with it replay would restore every block, and
      without it only a block that does not start with the magic. */
  lemma EscapeRestores(data: Bytes, escape: bool)
    requires |data| >= 4
    ensures Unescaped(LoggedData(data), HasMagic(data)) == data
    ensures !escape ==> (Unescaped(LoggedData(data), escape) == data <==> !HasMagic(data))
  {
    if HasMagic(data) {
      var logged := LoggedData(data);
      assert Be32(data, 0) == 0xC03B3998;
      assert data[0] == 0xC0 && data[1] == 0x3B && data[2] == 0x39 && data[3] == 0x98;
      assert logged[4..] == data[4..];
    }
  }

  // ---- descriptor blocks ----

  /** One tag as replay reads it. */
  datatype Tag = Tag(block: nat, deleted: bool, escape: bool)

  /** Flags: 1 same UUID, 2 deleted, 4 escape, 8 last tag. */
  function TagFlags(i: nat, n: nat): nat {
    (if i > 0 then 1 else 0) + (if i + 1 == n then 8 else 0)
  }

  function TagBytes(block: nat, flags: nat): (r: Bytes)
    ensures |r| == TAG_SIZE
  {
    ToBe32(block) + ToBe16(flags) + ToBe16(block / U32) + Zeros(4)
  }

  /** The block number a tag can carry. */
  function TagBlock(block: nat, has64: bool): nat {
    if has64 then block % U48 else block % U32
  }

  /** The first `i` tags; the UUID follows the first. */
  function TagArea(blocks: seq<nat>, i: nat, uuid: Bytes): (r: Bytes)
    requires i <= |blocks| && |uuid| == UUID_SIZE
    ensures |r| == if i == 0 then 0 else TAG_SIZE * i + UUID_SIZE
  {
    if i == 0 then []
    else TagArea(blocks, i - 1, uuid) + TagBytes(blocks[i - 1], TagFlags(i - 1, |blocks|))
         + (if i == 1 then uuid else [])
  }

  /** Where tag `i` starts. */
  function TagOffset(i: nat): nat {
    if i == 0 then HEADER_SIZE else HEADER_SIZE + TAG_SIZE * i + UUID_SIZE
  }

  predicate FitsDescriptor(n: nat, bs: nat) { 28 + 12 * n <= bs }

  function DescriptorBytes(blocks: seq<nat>, seqno: nat, uuid: Bytes, bs: nat): (r: Bytes)
    requires FitsDescriptor(|blocks|, bs) && |uuid| == UUID_SIZE
    ensures |r| == bs
  {
    Header(DESCRIPTOR, seqno) + TagArea(blocks, |blocks|, uuid)
      + Zeros(bs - HEADER_SIZE - |TagArea(blocks, |blocks|, uuid)|)
  }

  /** Writes at `off` into a block whose bytes from there on are still zero. */
  lemma PatchZeros(done: Bytes, n: nat, bytes: Bytes)
    requires |bytes| <= n
    ensures Patch(done + Zeros(n), |done|, bytes) == done + bytes + Zeros(n - |bytes|)
  {
  }

  /** Lays out a descriptor block tag by tag; fails exactly when the tags do not fit. */
  method BuildDescriptor(blocks: seq<nat>, seqno: nat, uuid: Bytes, bs: nat) returns (r: Option<Bytes>)
    requires |uuid| == UUID_SIZE && bs >= 1024 && blocks != []
    ensures r.Some? <==> FitsDescriptor(|blocks|, bs)
    ensures r.Some? ==> r.value == DescriptorBytes(blocks, seqno, uuid, bs)
  {
    hide Header, TagBytes, TagFlags, Patch, Zeros;
    var buf, off, i := Header(DESCRIPTOR, seqno) + Zeros(bs - HEADER_SIZE), HEADER_SIZE, 0;
    ghost var h := Header(DESCRIPTOR, seqno);
    assert h + TagArea(blocks, 0, uuid) == h;
    while i < |blocks|
      invariant 0 <= i <= |blocks| && off == TagOffset(i) == HEADER_SIZE + |TagArea(blocks, i, uuid)| <= bs
      invariant buf == h + TagArea(blocks, i, uuid) + Zeros(bs - off)
    {
      if off + TAG_SIZE > bs { return None; }
      var tag := TagBytes(blocks[i], TagFlags(i, |blocks|));
      PatchZeros(h + TagArea(blocks, i, uuid), bs - off, tag);
      buf := Patch(buf, off, tag);
      off := off + TAG_SIZE;
      ghost var done := h + TagArea(blocks, i, uuid) + tag;
      if i == 0 {
        PatchZeros(done, bs - off, uuid);
        buf := Patch(buf, off, uuid);
        off := off + UUID_SIZE;
        assert done + uuid == h + TagArea(blocks, 1, uuid);
      } else {
        assert done == h + TagArea(blocks, i + 1, uuid);
      }
      i := i + 1;
    }
    return Some(buf);
  }

  /** The tag at `off`. */
  function TagIn(buf: Bytes, off: nat, has64: bool): Tag
    requires off + TAG_SIZE <= |buf|
  {
    var flags := Be16(buf, off + 4);
    Tag(Be32(buf, off) + (if has64 then U32 * Be16(buf, off + 6) else 0), flags / 2 % 2 == 1, flags / 4 % 2 == 1)
  }

  /** Where the tag after the one at `off` starts: a tag without the same-UUID flag has a UUID behind it. */
  function AfterTag(buf: Bytes, off: nat): (next: nat)
    requires off + TAG_SIZE <= |buf|
    ensures next >= off + TAG_SIZE
  {
    off + TAG_SIZE + (if Be16(buf, off + 4) % 2 == 1 then 0 else UUID_SIZE)
  }

  predicate IsLastTag(buf: Bytes, off: nat)
    requires off + TAG_SIZE <= |buf|
  {
    Be16(buf, off + 4) / 8 % 2 == 1
  }

  /** The flags of a tag: four that replay knows, and any others above them. */
  function Flags(sameUuid: bool, deleted: bool, escape: bool, last: bool, more: nat): nat {
    (if sameUuid then 1 else 0) + (if deleted then 2 else 0) + (if escape then 4 else 0) + (if last then 8 else 0)
    + 16 * more
  }

  lemma FlagsSplit(sameUuid: bool, deleted: bool, escape: bool, last: bool, more: nat)
    ensures var f := Flags(sameUuid, deleted, escape, last, more);
            && (f % 2 == 1 <==> sameUuid) && (f / 2 % 2 == 1 <==> deleted) && (f / 4 % 2 == 1 <==> escape)
            && (f / 8 % 2 == 1 <==> last) && (more < 4096 ==> f < U16)
  {
    var above3 := (if last then 1 else 0) + 2 * more;
    var above2 := (if escape then 1 else 0) + 2 * above3;
    var above1 := (if deleted then 1 else 0) + 2 * above2;
    var f := Flags(sameUuid, deleted, escape, last, more);
    assert f == (if sameUuid then 1 else 0) + 2 * above1;
    hide Flags;
    Halves(f, sameUuid, above1);
    Halves(above1, deleted, above2);
    Halves(above2, escape, above3);
    Halves(above3, last, more);
    assert f / 4 == f / 2 / 2 && f / 8 == f / 4 / 2;
  }

  lemma Halves(n: nat, bit: bool, rest: nat)
    requires n == (if bit then 1 else 0) + 2 * rest
    ensures n / 2 == rest && (n % 2 == 1 <==> bit)
  {
  }

  /** Any tag reads as its parts, whatever its other flags and its checksum. */
  lemma TagDecodes(buf: Bytes, off: nat, block: nat, sameUuid: bool, deleted: bool, escape: bool, last: bool, more: nat,
                   checksum: Bytes, has64: bool)
    requires off + TAG_SIZE <= |buf| && |checksum| == 4 && more < 4096
    requires buf[off..off + TAG_SIZE] == ToBe32(block) + ToBe16(Flags(sameUuid, deleted, escape, last, more))
                                         + ToBe16(block / U32) + checksum
    ensures TagIn(buf, off, has64) == Tag(if has64 then block % U48 else block % U32, deleted, escape)
    ensures AfterTag(buf, off) == if sameUuid then off + 12 else off + 12 + 16
    ensures IsLastTag(buf, off) <==> last
  {
    hide ToBe32, ToBe16, Be32, Be16, Flags;
    FlagsSplit(sameUuid, deleted, escape, last, more);
    TagParts(buf, off, block, Flags(sameUuid, deleted, escape, last, more), checksum);
    SplitBlock(block);
  }

  /** The tags replay finds from `off` on: up to the tag flagged last or the end of the block. */
  function ReadTags(buf: Bytes, off: nat, has64: bool): seq<Tag>
    decreases |buf| - off
  {
    if off + TAG_SIZE > |buf| then []
    else [TagIn(buf, off, has64)] + (if IsLastTag(buf, off) then [] else ReadTags(buf, AfterTag(buf, off), has64))
  }

  lemma {:induction false} TagAreaPrefix(blocks: seq<nat>, i: nat, j: nat, uuid: Bytes)
    requires i <= j <= |blocks| && |uuid| == UUID_SIZE
    ensures |TagArea(blocks, i, uuid)| <= |TagArea(blocks, j, uuid)|
    ensures TagArea(blocks, j, uuid)[..|TagArea(blocks, i, uuid)|] == TagArea(blocks, i, uuid)
  {
    hide TagBytes, TagFlags;
    if i < j { TagAreaPrefix(blocks, i, j - 1, uuid); }
  }

  lemma Laid(a: Bytes, b: Bytes, c: Bytes, d: Bytes)
    ensures var r := a + b + c + d;
            && r[..|a|] == a && r[|a|..|a| + |b|] == b && r[|a| + |b|..|a| + |b| + |c|] == c
  {
  }

  lemma TagAreaAt(blocks: seq<nat>, i: nat, uuid: Bytes)
    requires i < |blocks| && |uuid| == UUID_SIZE
    ensures var k := TagOffset(i) - HEADER_SIZE;
            && k + TAG_SIZE <= |TagArea(blocks, |blocks|, uuid)|
            && TagArea(blocks, |blocks|, uuid)[k..k + TAG_SIZE] == TagBytes(blocks[i], TagFlags(i, |blocks|))
  {
    hide TagBytes, TagFlags;
    TagAreaPrefix(blocks, i + 1, |blocks|, uuid);
    var area, upto, k := TagArea(blocks, |blocks|, uuid), TagArea(blocks, i + 1, uuid), TagOffset(i) - HEADER_SIZE;
    assert upto[k..k + TAG_SIZE] == TagBytes(blocks[i], TagFlags(i, |blocks|));
    assert area[k..k + TAG_SIZE] == area[..|upto|][k..k + TAG_SIZE];
  }

  lemma TagAt(blocks: seq<nat>, i: nat, seqno: nat, uuid: Bytes, bs: nat)
    requires i < |blocks| && FitsDescriptor(|blocks|, bs) && |uuid| == UUID_SIZE
    ensures var buf, off := DescriptorBytes(blocks, seqno, uuid, bs), TagOffset(i);
            off + TAG_SIZE <= bs && buf[off..off + TAG_SIZE] == TagBytes(blocks[i], TagFlags(i, |blocks|))
  {
    hide TagBytes, TagFlags, Header, TagArea;
    var h, area, k := Header(DESCRIPTOR, seqno), TagArea(blocks, |blocks|, uuid), TagOffset(i) - HEADER_SIZE;
    TagAreaAt(blocks, i, uuid);
    Laid(h, area, Zeros(bs - HEADER_SIZE - |area|), []);
    assert h + area + Zeros(bs - HEADER_SIZE - |area|) + [] == DescriptorBytes(blocks, seqno, uuid, bs);
    Subslice(DescriptorBytes(blocks, seqno, uuid, bs), HEADER_SIZE, |area|, k, k + TAG_SIZE);
  }

  lemma TagFields(buf: Bytes, off: nat, block: nat, flags: nat)
    requires off + TAG_SIZE <= |buf| && buf[off..off + TAG_SIZE] == TagBytes(block, flags) && flags < 16
    ensures Be32(buf, off) == block % U32 && Be16(buf, off + 4) == flags && Be16(buf, off + 6) == block / U32 % U16
  {
    hide ToBe32, ToBe16, Be32, Be16;
    TagParts(buf, off, block, flags, Zeros(4));
  }

  lemma TagParts(buf: Bytes, off: nat, block: nat, flags: nat, checksum: Bytes)
    requires off + TAG_SIZE <= |buf| && |checksum| == 4 && flags < U16
    requires buf[off..off + TAG_SIZE] == ToBe32(block) + ToBe16(flags) + ToBe16(block / U32) + checksum
    ensures Be32(buf, off) == block % U32 && Be16(buf, off + 4) == flags && Be16(buf, off + 6) == block / U32 % U16
  {
    hide ToBe32, ToBe16, Be32, Be16;
    var t := ToBe32(block) + ToBe16(flags) + ToBe16(block / U32) + checksum;
    assert t[0..4] == ToBe32(block) && t[4..6] == ToBe16(flags) && t[6..8] == ToBe16(block / U32);
    Subslice(buf, off, TAG_SIZE, 0, 4);
    Subslice(buf, off, TAG_SIZE, 4, 6);
    Subslice(buf, off, TAG_SIZE, 6, 8);
    Be32At(buf, off, block);
    Be16At(buf, off + 4, flags);
    Be16At(buf, off + 6, block / U32);
  }

  /** 48 bits are the low 32 bits and the next 16. */
  lemma SplitBlock(block: nat)
    ensures block % U32 + U32 * (block / U32 % U16) == block % U48
  {
    var lo, hi := block % U32, block / U32;
    assert block == hi * U32 + lo;
    var top, mid := hi / U16, hi % U16;
    assert hi == top * U16 + mid;
    assert block == top * U48 + (mid * U32 + lo);
    assert 0 <= mid * U32 + lo < U48;
  }

  function WrittenTags(blocks: seq<nat>, has64: bool): (r: seq<Tag>)
    ensures |r| == |blocks|
  {
    seq(|blocks|, i requires 0 <= i < |blocks| => Tag(TagBlock(blocks[i], has64), false, false))
  }

  lemma FlagBits(i: nat, n: nat)
    ensures var f := TagFlags(i, n);
            && f < 16 && (f % 2 == 1 <==> i > 0) && f / 2 % 2 == 0 && f / 4 % 2 == 0 && (f / 8 % 2 == 1 <==> i + 1 == n)
  {
  }

  /** Reading the tag at one offset of a descriptor block. */
  lemma TagRead(blocks: seq<nat>, i: nat, buf: Bytes, has64: bool)
    requires i < |blocks| && TagOffset(i) + TAG_SIZE <= |buf|
    requires buf[TagOffset(i)..TagOffset(i) + TAG_SIZE] == TagBytes(blocks[i], TagFlags(i, |blocks|))
    ensures TagIn(buf, TagOffset(i), has64) == Tag(TagBlock(blocks[i], has64), false, false)
    ensures AfterTag(buf, TagOffset(i)) == TagOffset(i + 1)
    ensures IsLastTag(buf, TagOffset(i)) <==> i + 1 == |blocks|
  {
    hide TagBytes, TagFlags, Be32, Be16;
    FlagBits(i, |blocks|);
    TagFields(buf, TagOffset(i), blocks[i], TagFlags(i, |blocks|));
    SplitBlock(blocks[i]);
  }

  lemma {:induction false} TagsFrom(blocks: seq<nat>, i: nat, seqno: nat, uuid: Bytes, bs: nat, has64: bool)
    requires i < |blocks| && FitsDescriptor(|blocks|, bs) && |uuid| == UUID_SIZE
    ensures ReadTags(DescriptorBytes(blocks, seqno, uuid, bs), TagOffset(i), has64) == WrittenTags(blocks, has64)[i..]
    decreases |blocks| - i
  {
    hide DescriptorBytes, TagBytes, TagOffset, TagBlock, TagIn, AfterTag, IsLastTag;
    TagAt(blocks, i, seqno, uuid, bs);
    TagRead(blocks, i, DescriptorBytes(blocks, seqno, uuid, bs), has64);
    var tags := WrittenTags(blocks, has64);
    assert tags[i..] == [tags[i]] + tags[i + 1..];
    if i + 1 < |blocks| { TagsFrom(blocks, i + 1, seqno, uuid, bs, has64); } else { assert tags[i + 1..] == []; }
  }

  /** Descriptor round trip: replay reads back the tags written, in order; block numbers survive up to
      32 bits, or 48 with the 64-bit feature. */
  lemma DescriptorRoundTrip(blocks: seq<nat>, seqno: nat, uuid: Bytes, bs: nat, has64: bool)
    requires blocks != [] && FitsDescriptor(|blocks|, bs) && |uuid| == UUID_SIZE
    ensures var buf := DescriptorBytes(blocks, seqno, uuid, bs);
            && buf[..HEADER_SIZE] == Header(DESCRIPTOR, seqno)
            && ReadTags(buf, HEADER_SIZE, has64) == WrittenTags(blocks, has64)
  {
    hide ReadTags, TagArea, Header;
    TagsFrom(blocks, 0, seqno, uuid, bs, has64);
    assert WrittenTags(blocks, has64)[0..] == WrittenTags(blocks, has64);
  }

  // ---- revoke blocks ----

  /** How many entries of a revoke list fit a block. */
  function RevokeCapacity(bs: nat): nat { if bs < 16 then 0 else (bs - 16) / 4 }

  function Entries(revoked: seq<nat>, n: nat): (r: Bytes)
    requires n <= |revoked|
    ensures |r| == 4 * n
  {
    if n == 0 then [] else Entries(revoked, n - 1) + ToBe32(revoked[n - 1])
  }

  /** A revoke block: the count of all revoked blocks, and as many of them as fit. */
  function RevokeBytes(revoked: seq<nat>, seqno: nat, bs: nat): (r: Bytes)
    requires bs >= 16
    ensures |r| == bs
  {
    var n := Min(|revoked|, RevokeCapacity(bs));
    Header(REVOKE, seqno) + ToBe32(|revoked|) + Entries(revoked, n) + Zeros(bs - 16 - 4 * n)
  }

  /** Lays out a revoke block entry by entry. */
  method BuildRevoke(revoked: seq<nat>, seqno: nat, bs: nat) returns (buf: Bytes)
    requires bs >= 16
    ensures buf == RevokeBytes(revoked, seqno, bs)
  {
    hide Header, Patch, Zeros, ToBe32;
    ghost var h := Header(REVOKE, seqno);
    buf := Header(REVOKE, seqno) + Zeros(bs - HEADER_SIZE);
    PatchZeros(h, bs - HEADER_SIZE, ToBe32(|revoked|));
    buf := Patch(buf, HEADER_SIZE, ToBe32(|revoked|));
    ghost var start := h + ToBe32(|revoked|);
    var off, i := 16, 0;
    assert start + Entries(revoked, 0) == start;
    while i < |revoked| && off + 4 <= bs
      invariant 0 <= i <= |revoked| && off == 16 + 4 * i <= bs
      invariant buf == start + Entries(revoked, i) + Zeros(bs - off)
    {
      PatchZeros(start + Entries(revoked, i), bs - off, ToBe32(revoked[i]));
      buf := Patch(buf, off, ToBe32(revoked[i]));
      assert start + Entries(revoked, i) + ToBe32(revoked[i]) == start + Entries(revoked, i + 1);
      off := off + 4;
      i := i + 1;
    }
    assert i == Min(|revoked|, RevokeCapacity(bs));
  }

  /** The first `n` entries of a revoke block. */
  function EntriesIn(buf: Bytes, n: nat): (r: set<nat>)
    requires 16 + 4 * n <= |buf|
  {
    if n == 0 then {} else EntriesIn(buf, n - 1) + {Be32(buf, 12 + 4 * n)}
  }

  /** The block numbers replay takes from a revoke block: as many as it announces, or as fit. */
  function RevokedIn(buf: Bytes): set<nat>
    requires |buf| >= 16
  {
    EntriesIn(buf, Min(Be32(buf, 12), RevokeCapacity(|buf|)))
  }

  /** Adds the block numbers of a revoke block to `revoked`. */
  method CollectRevoked(buf: Bytes, revoked: set<nat>) returns (r: set<nat>)
    requires |buf| >= 16
    ensures r == revoked + RevokedIn(buf)
  {
    hide Be32;
    var count, off, i := Be32(buf, 12), 16, 0;
    r := revoked;
    while i < count && off + 4 <= |buf|
      invariant 0 <= i <= count && off == 16 + 4 * i <= |buf|
      invariant r == revoked + EntriesIn(buf, i)
    {
      r := r + {Be32(buf, off)};
      off := off + 4;
      i := i + 1;
    }
    assert i == Min(count, RevokeCapacity(|buf|));
  }

  /** The numbers of the first `n` blocks of a list as a revoke block carries them. */
  function RevokedNumbers(revoked: seq<nat>, n: nat): (r: set<nat>)
    requires n <= |revoked|
  {
    if n == 0 then {} else RevokedNumbers(revoked, n - 1) + {revoked[n - 1] % U32}
  }

  lemma {:induction false} EntriesPrefix(revoked: seq<nat>, i: nat, j: nat)
    requires i <= j <= |revoked|
    ensures Entries(revoked, j)[..4 * i] == Entries(revoked, i)
  {
    hide ToBe32;
    if i < j { EntriesPrefix(revoked, i, j - 1); }
  }

  lemma EntryBytes(revoked: seq<nat>, i: nat, n: nat)
    requires i < n <= |revoked|
    ensures Entries(revoked, n)[4 * i..4 * i + 4] == ToBe32(revoked[i])
  {
    hide ToBe32;
    EntriesPrefix(revoked, i + 1, n);
    assert Entries(revoked, i + 1)[4 * i..4 * i + 4] == ToBe32(revoked[i]);
    assert Entries(revoked, n)[4 * i..4 * i + 4] == Entries(revoked, n)[..4 * (i + 1)][4 * i..4 * i + 4];
  }

  lemma EntryAt(revoked: seq<nat>, i: nat, n: nat, buf: Bytes)
    requires i < n <= |revoked| && 16 + 4 * n <= |buf| && buf[16..16 + 4 * n] == Entries(revoked, n)
    ensures Be32(buf, 16 + 4 * i) == revoked[i] % U32
  {
    hide ToBe32, Be32, Entries;
    EntryBytes(revoked, i, n);
    Subslice(buf, 16, 4 * n, 4 * i, 4 * i + 4);
    Be32At(buf, 16 + 4 * i, revoked[i]);
  }

  lemma {:induction false} EntriesBack(revoked: seq<nat>, i: nat, n: nat, buf: Bytes)
    requires i <= n <= |revoked| && 16 + 4 * n <= |buf| && buf[16..16 + 4 * n] == Entries(revoked, n)
    ensures EntriesIn(buf, i) == RevokedNumbers(revoked, i)
  {
    hide Entries, Be32;
    if i > 0 {
      EntriesBack(revoked, i - 1, n, buf);
      EntryAt(revoked, i - 1, n, buf);
    }
  }

  lemma RevokeLayout(revoked: seq<nat>, seqno: nat, bs: nat)
    requires bs >= 16
    ensures var buf, n := RevokeBytes(revoked, seqno, bs), Min(|revoked|, RevokeCapacity(bs));
            && 16 + 4 * n <= bs && buf[..HEADER_SIZE] == Header(REVOKE, seqno)
            && buf[12..16] == ToBe32(|revoked|) && buf[16..16 + 4 * n] == Entries(revoked, n)
  {
    hide ToBe32, Header, Entries;
    var n := Min(|revoked|, RevokeCapacity(bs));
    assert 16 + 4 * n <= bs;
    Laid(Header(REVOKE, seqno), ToBe32(|revoked|), Entries(revoked, n), Zeros(bs - 16 - 4 * n));
  }

  /** Revoke round trip: replay reads back the numbers that fit the block, cut to 32 bits. */
  lemma RevokeRoundTrip(revoked: seq<nat>, seqno: nat, bs: nat)
    requires bs >= 16 && |revoked| < U32
    ensures var buf := RevokeBytes(revoked, seqno, bs);
            && buf[..HEADER_SIZE] == Header(REVOKE, seqno)
            && RevokedIn(buf) == RevokedNumbers(revoked, Min(|revoked|, RevokeCapacity(bs)))
  {
    hide ToBe32, Be32, Header, Entries, EntriesIn, RevokedNumbers, RevokeBytes, RevokeCapacity;
    var n := Min(|revoked|, RevokeCapacity(bs));
    var buf := RevokeBytes(revoked, seqno, bs);
    RevokeLayout(revoked, seqno, bs);
    Be32At(buf, 12, |revoked|);
    EntriesBack(revoked, n, n, buf);
  }

  // ---- the journal superblock ----

  /** What the journal superblock says; `start` is 0 when the journal is clean. */
  datatype JournalSuper = JournalSuper(blockSize: nat, total: nat, first: nat, startSequence: nat, start: nat,
                                       errno: nat, incompat: nat, uuid: Bytes) {
    predicate IsClean() { start == 0 }

    predicate Has64Bit() { incompat / 2 % 2 == 1 }
  }

  datatype SuperError = BadMagic(magic: nat) | UnsupportedFeatures(flags: nat) | InvalidGeometry(total: nat, first: nat)

  /** Features 1, 2, 4, 8 and 16 are supported. */
  function ParseSuper(buf: Bytes): (r: Result<JournalSuper, SuperError>)
    requires |buf| >= 1024
    ensures r.Ok? ==> 0 < r.value.first < r.value.total && |r.value.uuid| == UUID_SIZE
  {
    var incompat, total, first := Be32(buf, 40), Be32(buf, 16), Be32(buf, 20);
    if !HasMagic(buf) then Err(BadMagic(Be32(buf, 0)))
    else if incompat / 32 != 0 then Err(UnsupportedFeatures(incompat / 32 * 32))
    else if first == 0 || first >= total then Err(InvalidGeometry(total, first))
    else Ok(JournalSuper(Be32(buf, 12), total, first, Be32(buf, 24), Be32(buf, 28), Be32(buf, 32), incompat,
                         buf[48..64]))
  }

  /** The fields of the journal superblock in the order in which they lie on the device. */
  datatype RawSuper = RawSuper(magic: nat, kind: nat, seqno: nat, blockSize: nat, maxLen: nat, first: nat,
                               sequence: nat, start: nat, errno: nat, compat: nat, incompat: nat, roCompat: nat,
                               uuid: Bytes, rest: Bytes)
  {
    /** The twelve words before the UUID. */
    function Words(): seq<nat> {
      [magic, kind, seqno, blockSize, maxLen, first, sequence, start, errno, compat, incompat, roCompat]
    }

    /** What is wrong with one that is not: the magic, or else the features, or else the geometry. */
    function Fault(): SuperError {
      if magic != 0xC03B3998 then BadMagic(magic)
      else if incompat >= 32 then UnsupportedFeatures(incompat - incompat % 32)
      else InvalidGeometry(maxLen, first)
    }

    predicate Fits() { |uuid| == 16 && |rest| >= 960 && forall w :: w in Words() ==> w < U32 }

    /** Word by word, then the UUID and the rest. */
    function Layout(): Bytes { Entries(Words(), 12) + uuid + rest }

    /** What can be read from it. */
    function Super(): JournalSuper {
      JournalSuper(blockSize, maxLen, first, sequence, start, errno, incompat, uuid)
    }

    /** The superblock of a journal that can be used: nothing unknown in it, and room for a log. */
    predicate Usable() { magic == 0xC03B3998 && incompat < 32 && 1 <= first && first + 1 <= maxLen }
  }

  lemma RawWord(raw: RawSuper, i: nat)
    requires raw.Fits() && i < 12
    ensures |raw.Layout()| >= 1024 && Be32(raw.Layout(), 4 * i) == raw.Words()[i]
  {
    hide ToBe32, Be32, Entries;
    var buf := raw.Layout();
    EntryBytes(raw.Words(), i, 12);
    assert buf[4 * i..4 * i + 4] == Entries(raw.Words(), 12)[4 * i..4 * i + 4];
    Be32At(buf, 4 * i, raw.Words()[i]);
    assert raw.Words()[i] in raw.Words();
  }

  /** Parsing the superblock gives back exactly its fields if it is usable, and otherwise says what is
      wrong with it: the magic first, then the features, then the geometry. */
  lemma SuperRoundTrip(raw: RawSuper)
    requires raw.Fits()
    ensures |raw.Layout()| >= 1024
    ensures raw.Usable() ==>
              && ParseSuper(raw.Layout()) == Ok(raw.Super())
              && (raw.Super().Has64Bit() <==> raw.incompat % 4 >= 2) && (raw.Super().IsClean() <==> raw.start < 1)
    ensures !raw.Usable() ==>
              ParseSuper(raw.Layout()) == Err(raw.Fault())
  {
    hide Be32, Entries, RawSuper.Layout;
    RawWord(raw, 0);
    RawWord(raw, 3);
    RawWord(raw, 4);
    RawWord(raw, 5);
    RawWord(raw, 6);
    RawWord(raw, 7);
    RawWord(raw, 8);
    RawWord(raw, 10);
    RawUuid(raw);
  }

  lemma RawUuid(raw: RawSuper)
    requires raw.Fits()
    ensures |raw.Layout()| >= 1024 && raw.Layout()[48..64] == raw.uuid
  {
    hide Entries;
  }

  /** The superblock marked clean: sequence and start are rewritten in place. */
  function MarkedClean(buf: Bytes, seqno: nat): (r: Bytes)
    requires |buf| >= 1024
    ensures |r| == |buf|
  {
    Patch(Patch(buf, 28, ToBe32(0)), 24, ToBe32(seqno))
  }

  lemma PatchedField(buf: Bytes, off: nat, v: nat)
    requires off + 4 <= |buf|
    ensures Be32(Patch(buf, off, ToBe32(v)), off) == v % U32
    ensures forall o: nat :: o + 4 <= off || off + 4 <= o <= |buf| - 4 ==>
              Be32(Patch(buf, off, ToBe32(v)), o) == Be32(buf, o)
  {
    hide ToBe32;
    var p := Patch(buf, off, ToBe32(v));
    assert p[off..off + 4] == ToBe32(v);
    Be32At(p, off, v);
  }

  /** Marking clean changes the start and the sequence the superblock parses to, and nothing else. */
  lemma MarkedCleanParses(buf: Bytes, seqno: nat)
    requires |buf| >= 1024 && ParseSuper(buf).Ok?
    ensures ParseSuper(MarkedClean(buf, seqno)) == Ok(ParseSuper(buf).value.(start := 0, startSequence := seqno % U32))
  {
    hide Patch, Be32, ToBe32;
    PatchedField(buf, 28, 0);
    PatchedField(Patch(buf, 28, ToBe32(0)), 24, seqno);
    assert MarkedClean(buf, seqno)[48..64] == buf[48..64];
  }
}

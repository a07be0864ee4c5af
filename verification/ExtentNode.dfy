/** Extent tree nodes and their on-disk form: a 12-byte header and 12-byte entries, leaf
    entries at depth 0 and index entries above. The 60-byte root area of an inode and a whole
    block have the same format. */
module ExtentNode {
  import opened Base
  import opened Device

  const EXTENT_MAGIC: nat := 0xF30A
  const MAX_DEPTH: nat := 5
  const ROOT_MAX_ENTRIES: nat := 4
  const MAX_EXTENT_LEN: nat := 32768

  /** `rawLen` above 32768 encodes an uninitialised extent of `rawLen - 32768` blocks. */
  datatype Extent = Extent(block: nat, rawLen: nat, start: nat) {
    predicate Uninit() { rawLen > MAX_EXTENT_LEN }

    function Len(): nat { if rawLen > MAX_EXTENT_LEN then rawLen - MAX_EXTENT_LEN else rawLen }

    function End(): nat { block + Len() }

    predicate InRange() { block < U32 && rawLen < U16 && start < U48 }
  }

  datatype Idx = Idx(key: nat, child: nat) {
    predicate InRange() { key < U32 && child < U48 }
  }

  datatype Node = Leaf(max: nat, extents: seq<Extent>) | Inner(depth: nat, max: nat, idx: seq<Idx>) {
    function Depth(): nat { if Leaf? then 0 else depth }

    function Entries(): nat { if Leaf? then |extents| else |idx| }

    /** The node fits `size` bytes and every field fits its width. */
    predicate Encodable(size: nat) {
      && 12 + 12 * Entries() <= size
      && max < U16 && Entries() < U16
      && (Leaf? ==> forall e :: e in extents ==> e.InRange())
      && (Inner? ==> 0 < depth <= MAX_DEPTH && forall x :: x in idx ==> x.InRange())
    }
  }

  datatype ExtentError = TruncatedNode | BadMagic(magic: nat) | DepthExceeded(depth: nat) | TooManyLeaves

  /** Entries that fit a block after the header. */
  function LeafMaxEntries(bs: nat): nat
    requires bs >= 12
  {
    (bs - 12) / 12
  }

  // ---- entries ----

  function EncodeExtent(e: Extent): (r: Bytes)
    ensures |r| == 12
  {
    ToLe32(e.block) + ToLe16(e.rawLen) + ToLe16(e.start / U32) + ToLe32(e.start)
  }

  function DecodeExtent(buf: Bytes, off: nat): Extent
    requires off + 12 <= |buf|
  {
    Extent(Le32(buf, off), Le16(buf, off + 4), U32 * Le16(buf, off + 6) + Le32(buf, off + 8))
  }

  function EncodeIdx(x: Idx): (r: Bytes)
    ensures |r| == 12
  {
    ToLe32(x.key) + ToLe32(x.child) + ToLe16(x.child / U32) + Zeros(2)
  }

  function DecodeIdx(buf: Bytes, off: nat): Idx
    requires off + 12 <= |buf|
  {
    Idx(Le32(buf, off), U32 * Le16(buf, off + 8) + Le32(buf, off + 4))
  }

  lemma ExtentRoundTrip(buf: Bytes, off: nat, e: Extent)
    requires off + 12 <= |buf| && e.InRange()
    requires buf[off..off + 12] == EncodeExtent(e)
    ensures DecodeExtent(buf, off) == e
  {
    hide ToLe16, ToLe32, Le16, Le32;
    var r := EncodeExtent(e);
    assert r[0..4] == ToLe32(e.block) && r[4..6] == ToLe16(e.rawLen) && r[6..8] == ToLe16(e.start / U32);
    assert r[8..12] == ToLe32(e.start);
    Subslice(buf, off, 12, 0, 4);
    Subslice(buf, off, 12, 4, 6);
    Subslice(buf, off, 12, 6, 8);
    Subslice(buf, off, 12, 8, 12);
    Le32At(buf, off, e.block);
    Le16At(buf, off + 4, e.rawLen);
    Le16At(buf, off + 6, e.start / U32);
    Le32At(buf, off + 8, e.start);
  }

  lemma IdxRoundTrip(buf: Bytes, off: nat, x: Idx)
    requires off + 12 <= |buf| && x.InRange()
    requires buf[off..off + 12] == EncodeIdx(x)
    ensures DecodeIdx(buf, off) == x
  {
    hide ToLe16, ToLe32, Le16, Le32;
    var r := EncodeIdx(x);
    assert r[0..4] == ToLe32(x.key) && r[4..8] == ToLe32(x.child) && r[8..10] == ToLe16(x.child / U32);
    Subslice(buf, off, 12, 0, 4);
    Subslice(buf, off, 12, 4, 8);
    Subslice(buf, off, 12, 8, 10);
    Le32At(buf, off, x.key);
    Le32At(buf, off + 4, x.child);
    Le16At(buf, off + 8, x.child / U32);
  }

  function EncodeExtents(es: seq<Extent>): (r: Bytes)
    ensures |r| == 12 * |es|
  {
    if es == [] then [] else EncodeExtents(es[..|es| - 1]) + EncodeExtent(es[|es| - 1])
  }

  function DecodeExtents(buf: Bytes, n: nat): (es: seq<Extent>)
    requires 12 + 12 * n <= |buf|
    ensures |es| == n
  {
    if n == 0 then [] else DecodeExtents(buf, n - 1) + [DecodeExtent(buf, 12 + 12 * (n - 1))]
  }

  function EncodeIndex(xs: seq<Idx>): (r: Bytes)
    ensures |r| == 12 * |xs|
  {
    if xs == [] then [] else EncodeIndex(xs[..|xs| - 1]) + EncodeIdx(xs[|xs| - 1])
  }

  function DecodeIndex(buf: Bytes, n: nat): (xs: seq<Idx>)
    requires 12 + 12 * n <= |buf|
    ensures |xs| == n
  {
    if n == 0 then [] else DecodeIndex(buf, n - 1) + [DecodeIdx(buf, 12 + 12 * (n - 1))]
  }

  lemma SliceOfConcat(buf: Bytes, off: nat, a: Bytes, b: Bytes)
    requires off + |a| + |b| <= |buf| && buf[off..off + (|a| + |b|)] == a + b
    ensures buf[off..off + |a|] == a && buf[off + |a|..off + |a| + |b|] == b
  {
    var s := buf[off..off + (|a| + |b|)];
    assert buf[off..off + |a|] == s[..|a|] && buf[off + |a|..off + |a| + |b|] == s[|a|..];
  }

  lemma {:induction false} ExtentsRoundTrip(buf: Bytes, es: seq<Extent>)
    requires 12 + 12 * |es| <= |buf| && forall e :: e in es ==> e.InRange()
    requires buf[12..12 + 12 * |es|] == EncodeExtents(es)
    ensures DecodeExtents(buf, |es|) == es
  {
    hide EncodeExtent, DecodeExtent;
    if es != [] {
      var n := |es| - 1;
      SliceOfConcat(buf, 12, EncodeExtents(es[..n]), EncodeExtent(es[n]));
      ExtentsRoundTrip(buf, es[..n]);
      ExtentRoundTrip(buf, 12 + 12 * n, es[n]);
    }
  }

  lemma {:induction false} IndexRoundTrip(buf: Bytes, xs: seq<Idx>)
    requires 12 + 12 * |xs| <= |buf| && forall x :: x in xs ==> x.InRange()
    requires buf[12..12 + 12 * |xs|] == EncodeIndex(xs)
    ensures DecodeIndex(buf, |xs|) == xs
  {
    hide EncodeIdx, DecodeIdx;
    if xs != [] {
      var n := |xs| - 1;
      SliceOfConcat(buf, 12, EncodeIndex(xs[..n]), EncodeIdx(xs[n]));
      IndexRoundTrip(buf, xs[..n]);
      IdxRoundTrip(buf, 12 + 12 * n, xs[n]);
    }
  }

  // ---- nodes ----

  function EncodeHeader(entries: nat, max: nat, depth: nat): (r: Bytes)
    ensures |r| == 12
  {
    ToLe16(EXTENT_MAGIC) + ToLe16(entries) + ToLe16(max) + ToLe16(depth) + Zeros(4)
  }

  lemma HeaderRoundTrip(buf: Bytes, entries: nat, max: nat, depth: nat)
    requires |buf| >= 12 && entries < U16 && max < U16 && depth < U16
    requires forall k :: 0 <= k < 12 ==> buf[k] == EncodeHeader(entries, max, depth)[k]
    ensures Le16(buf, 0) == EXTENT_MAGIC && Le16(buf, 2) == entries && Le16(buf, 4) == max && Le16(buf, 6) == depth
  {
    var r := EncodeHeader(entries, max, depth);
    var a, b, c, d := ToLe16(EXTENT_MAGIC), ToLe16(entries), ToLe16(max), ToLe16(depth);
    assert r[0] == a[0] && r[1] == a[1] && r[2] == b[0] && r[3] == b[1];
    assert r[4] == c[0] && r[5] == c[1] && r[6] == d[0] && r[7] == d[1];
    assert Le16(buf, 0) == Le16(a, 0) && Le16(buf, 2) == Le16(b, 0);
    assert Le16(buf, 4) == Le16(c, 0) && Le16(buf, 6) == Le16(d, 0);
  }

  function EncodeNode(n: Node, size: nat): (r: Bytes)
    requires n.Encodable(size)
    ensures |r| == size
  {
    EncodeHeader(n.Entries(), n.max, n.Depth())
    + (if n.Leaf? then EncodeExtents(n.extents) else EncodeIndex(n.idx))
    + Zeros(size - 12 - 12 * n.Entries())
  }

  /** Reads a node, with the checks every tree walk makes first. */
  function DecodeNode(buf: Bytes): Result<Node, ExtentError> {
    if |buf| < 12 then Err(TruncatedNode)
    else if Le16(buf, 0) != EXTENT_MAGIC then Err(BadMagic(Le16(buf, 0)))
    else if Le16(buf, 6) > MAX_DEPTH then Err(DepthExceeded(Le16(buf, 6)))
    else if |buf| < 12 + 12 * Le16(buf, 2) then Err(TruncatedNode)
    else if Le16(buf, 6) == 0 then Ok(Leaf(Le16(buf, 4), DecodeExtents(buf, Le16(buf, 2))))
    else Ok(Inner(Le16(buf, 6), Le16(buf, 4), DecodeIndex(buf, Le16(buf, 2))))
  }

  /** A node written to a block, or to the 60-byte root area, is read back unchanged. */
  lemma NodeRoundTrip(n: Node, size: nat)
    requires n.Encodable(size)
    ensures DecodeNode(EncodeNode(n, size)) == Ok(n)
  {
    var buf := EncodeNode(n, size);
    var h := EncodeHeader(n.Entries(), n.max, n.Depth());
    var body := if n.Leaf? then EncodeExtents(n.extents) else EncodeIndex(n.idx);
    assert forall k :: 0 <= k < 12 ==> buf[k] == h[k];
    HeaderRoundTrip(buf, n.Entries(), n.max, n.Depth());
    assert buf[12..12 + |body|] == body;
    if n.Leaf? {
      ExtentsRoundTrip(buf, n.extents);
    } else {
      IndexRoundTrip(buf, n.idx);
    }
  }

  lemma {:induction false} DecodedExtents(buf: Bytes, n: nat)
    requires 12 + 12 * n <= |buf|
    ensures forall e :: e in DecodeExtents(buf, n) ==> e.InRange()
  {
    if n > 0 { DecodedExtents(buf, n - 1); }
  }

  lemma {:induction false} DecodedIndex(buf: Bytes, n: nat)
    requires 12 + 12 * n <= |buf|
    ensures forall x :: x in DecodeIndex(buf, n) ==> x.InRange()
  {
    if n > 0 { DecodedIndex(buf, n - 1); }
  }

  /** A node read from a block can be written back to it. */
  lemma DecodedEncodable(buf: Bytes)
    requires DecodeNode(buf).Ok?
    ensures DecodeNode(buf).value.Encodable(|buf|)
  {
    if Le16(buf, 6) == 0 {
      DecodedExtents(buf, Le16(buf, 2));
    } else {
      DecodedIndex(buf, Le16(buf, 2));
    }
  }

  /** The node in block `b`. */
  function NodeAt(disk: Disk, bs: nat, b: nat): Result<Node, ExtentError> {
    DecodeNode(ReadAt(disk, bs, b))
  }
}

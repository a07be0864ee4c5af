/** Values shared by every part of the model: bytes, byte strings and the fixed-width
    integer codecs of the on-disk format. */
module Base {

  type byte = b: int | 0 <= b < 256

  /** The contents of one block, or of any other byte string. */
  type Bytes = seq<byte>

  datatype Option<+T> = None | Some(value: T)

  datatype Result<+T, +E> = Ok(value: T) | Err(error: E)

  const U16: int := 0x1_0000
  const U32: int := 0x1_0000_0000
  const U48: int := 0x1_0000_0000_0000

  function Min(a: int, b: int): int { if a < b then a else b }

  function Max(a: int, b: int): int { if a < b then b else a }

  function DivCeil(a: nat, b: nat): nat
    requires b > 0
  {
    (a + b - 1) / b
  }

  /** The numbers s, s + 1, ..., s + count - 1. */
  function Range(s: nat, count: nat): (r: set<nat>)
    ensures forall i: nat :: i in r <==> s <= i < s + count
    ensures |r| == count
  {
    if count == 0 then {} else Range(s, count - 1) + {s + count - 1}
  }

  /** The elements of a sequence. */
  ghost function SetOf(s: seq<nat>): set<nat> { set x | x in s }

  lemma {:induction false} Times(a: nat, b: nat, c: nat)
    requires a <= b
    ensures a * c <= b * c
  {
    if a < b { Times(a, b - 1, c); }
  }

  lemma Regroup<T>(a: seq<T>, b: seq<T>, c: seq<T>)
    ensures (a + b) + c == a + (b + c)
  {
  }

  lemma Distribute(a: int, b: int, c: int)
    ensures (a + b) * c == a * c + b * c
  {
  }

  lemma Associate(a: int, b: int, c: int)
    ensures (a * b) * c == a * (b * c)
  {
  }

  /** Where `pos` lies relative to the `l`-th of the chunks of `bs`. */
  lemma CutAt(bs: nat, pos: nat, l: nat)
    requires bs > 0
    ensures l < pos / bs ==> l * bs + bs <= pos
    ensures l == pos / bs ==> l * bs <= pos < l * bs + bs
    ensures l > pos / bs ==> pos < l * bs
  {
    var q := pos / bs;
    assert q * bs + pos % bs == pos;
    if l < q { Times(l + 1, q, bs); }
    if l > q { Times(q + 1, l, bs); }
    assert (l + 1) * bs == l * bs + bs && (q + 1) * bs == q * bs + bs;
  }

  /** The first `l` that is not below the rounded-up quotient is the first with `l * b` at or past `a`. */
  lemma CeilBound(a: nat, b: nat, l: nat)
    requires b > 0
    ensures l < DivCeil(a, b) <==> l * b < a
  {
    CutAt(b, a + b - 1, l);
  }

  /** Quotient and remainder are unique. */
  lemma Quotient(x: nat, d: nat, q: nat, r: nat)
    requires d > 0 && x == q * d + r && r < d
    ensures x / d == q && x % d == r
  {
    CutAt(d, x, q);
    assert x == (x / d) * d + x % d;
  }

  /** `i` things of size `s`, packed `d` to a chunk: whole chunks and a rest that leaves room for one more. */
  lemma Packed(i: nat, d: nat, s: nat)
    requires d > 0
    ensures i * s == (i / d) * (d * s) + (i % d) * s && (i % d) * s + s <= d * s
  {
    var q, r := i / d, i % d;
    assert i == q * d + r;
    Distribute(q * d, r, s);
    Associate(q, d, s);
    Times(r + 1, d, s);
    Distribute(r, 1, s);
  }

  function Zeros(n: nat): (z: Bytes)
    ensures |z| == n
    ensures forall i :: 0 <= i < n ==> z[i] == 0
  {
    seq(n, _ => 0)
  }

  /** `buf` with the bytes from `off` on overwritten by `bytes`. */
  function Patch(buf: Bytes, off: nat, bytes: Bytes): (r: Bytes)
    requires off + |bytes| <= |buf|
    ensures |r| == |buf|
    ensures forall i :: 0 <= i < |buf| ==> r[i] == if off <= i < off + |bytes| then bytes[i - off] else buf[i]
  {
    buf[..off] + bytes + buf[off + |bytes|..]
  }

  lemma Subslice(buf: Bytes, off: nat, n: nat, a: nat, b: nat)
    requires off + n <= |buf| && a <= b <= n
    ensures buf[off..off + n][a..b] == buf[off + a..off + b]
  {
    var l, r := buf[off..off + n][a..b], buf[off + a..off + b];
    assert |l| == |r| && forall i :: 0 <= i < |r| ==> l[i] == r[i];
  }

  // ---- little-endian fields (superblock, inodes, extents, directory records) ----

  function Le16(buf: Bytes, off: nat): (v: nat)
    requires off + 2 <= |buf|
    ensures v < U16
  {
    (buf[off] as int) + 256 * (buf[off + 1] as int)
  }

  function Le32(buf: Bytes, off: nat): (v: nat)
    requires off + 4 <= |buf|
    ensures v < U32
  {
    Le16(buf, off) + U16 * Le16(buf, off + 2)
  }

  /** The two low bytes of `v`: the cast to a 16-bit integer. */
  function ToLe16(v: nat): (r: Bytes)
    ensures |r| == 2
    ensures Le16(r, 0) == v % U16
  {
    [v % 256, v / 256 % 256]
  }

  function ToLe32(v: nat): (r: Bytes)
    ensures |r| == 4
    ensures Le32(r, 0) == v % U32
  {
    var lo, hi := ToLe16(v), ToLe16(v / U16);
    assert (lo + hi)[0] == lo[0] && (lo + hi)[1] == lo[1] && (lo + hi)[2] == hi[0] && (lo + hi)[3] == hi[1];
    lo + hi
  }

  lemma Le16At(buf: Bytes, off: nat, v: nat)
    requires off + 2 <= |buf| && buf[off..off + 2] == ToLe16(v)
    ensures Le16(buf, off) == v % U16
  {
    var r := buf[off..off + 2];
    assert r[0] == buf[off] && r[1] == buf[off + 1];
    assert Le16(ToLe16(v), 0) == v % U16;
  }

  lemma Le32At(buf: Bytes, off: nat, v: nat)
    requires off + 4 <= |buf| && buf[off..off + 4] == ToLe32(v)
    ensures Le32(buf, off) == v % U32
  {
    hide ToLe32;
    var r := buf[off..off + 4];
    assert r[0] == buf[off] && r[1] == buf[off + 1] && r[2] == buf[off + 2] && r[3] == buf[off + 3];
    assert Le32(ToLe32(v), 0) == v % U32;
  }

  // ---- big-endian fields (journal) ----

  function Be16(buf: Bytes, off: nat): (v: nat)
    requires off + 2 <= |buf|
    ensures v < U16
  {
    256 * (buf[off] as int) + (buf[off + 1] as int)
  }

  function Be32(buf: Bytes, off: nat): (v: nat)
    requires off + 4 <= |buf|
    ensures v < U32
  {
    U16 * Be16(buf, off) + Be16(buf, off + 2)
  }

  function ToBe16(v: nat): (r: Bytes)
    ensures |r| == 2
    ensures Be16(r, 0) == v % U16
  {
    [v / 256 % 256, v % 256]
  }

  function ToBe32(v: nat): (r: Bytes)
    ensures |r| == 4
    ensures Be32(r, 0) == v % U32
  {
    var hi, lo := ToBe16(v / U16), ToBe16(v);
    assert (hi + lo)[0] == hi[0] && (hi + lo)[1] == hi[1] && (hi + lo)[2] == lo[0] && (hi + lo)[3] == lo[1];
    hi + lo
  }

  lemma Be16At(buf: Bytes, off: nat, v: nat)
    requires off + 2 <= |buf| && buf[off..off + 2] == ToBe16(v)
    ensures Be16(buf, off) == v % U16
  {
    var r := buf[off..off + 2];
    assert r[0] == buf[off] && r[1] == buf[off + 1];
    assert Be16(ToBe16(v), 0) == v % U16;
  }

  lemma Be32At(buf: Bytes, off: nat, v: nat)
    requires off + 4 <= |buf| && buf[off..off + 4] == ToBe32(v)
    ensures Be32(buf, off) == v % U32
  {
    hide ToBe32;
    var r := buf[off..off + 4];
    assert r[0] == buf[off] && r[1] == buf[off + 1] && r[2] == buf[off + 2] && r[3] == buf[off + 3];
    assert Be32(ToBe32(v), 0) == v % U32;
  }
}

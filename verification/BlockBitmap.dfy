/** One group's block bitmap: bit i of the bitmap, least significant first within a byte,
    says whether block i of the group is allocated. */
module BlockBitmap {
  import opened Base

  /** `1 << i`. */
  function Weight(i: nat): (w: nat)
    ensures w > 0
  {
    if i == 0 then 1 else 2 * Weight(i - 1)
  }

  predicate BitOf(v: nat, i: nat) {
    if i == 0 then v % 2 == 1 else BitOf(v / 2, i - 1)
  }

  predicate BitSet(data: Bytes, i: nat)
    requires i < 8 * |data|
  {
    BitOf(data[i / 8], i % 8)
  }

  /** Bit i is bit i % 8 of byte i / 8, counted from the least significant. */
  lemma BitIsMask(data: Bytes, i: nat)
    requires i < 8 * |data|
    ensures BitSet(data, i) <==> data[i / 8] / [1, 2, 4, 8, 16, 32, 64, 128][i % 8] % 2 == 1
  {
    var v, w := data[i / 8], [1, 2, 4, 8, 16, 32, 64, 128][i % 8];
    assert Weight(3) == 8 && Weight(5) == 32 && Weight(7) == 128;
    ShiftedBit(v, i % 8, v / w, v % w);
  }

  lemma {:induction false} ShiftedBit(v: nat, i: nat, q: nat, r: nat)
    requires v == q * Weight(i) + r && r < Weight(i)
    ensures BitOf(v, i) <==> q % 2 == 1
  {
    if i > 0 {
      Associate(q, 2, Weight(i - 1));
      Associate(2, q, Weight(i - 1));
      ShiftedBit(v / 2, i - 1, q, r / 2);
    }
  }

  /** Setting a clear bit of an n-bit number changes that bit only. */
  lemma {:induction false} RaiseBit(v: nat, n: nat, i: nat, j: nat)
    requires i < n && v < Weight(n) && !BitOf(v, i)
    ensures v + Weight(i) < Weight(n)
    ensures BitOf(v + Weight(i), j) <==> i == j || BitOf(v, j)
  {
    if i == 0 {
      assert (v + 1) / 2 == v / 2;
    } else {
      RaiseBit(v / 2, n - 1, i - 1, if j == 0 then 0 else j - 1);
      assert (v + Weight(i)) / 2 == v / 2 + Weight(i - 1);
    }
  }

  /** Clearing a set bit changes that bit only. */
  lemma {:induction false} LowerBit(v: nat, i: nat, j: nat)
    requires BitOf(v, i)
    ensures v >= Weight(i)
    ensures BitOf(v - Weight(i), j) <==> i != j && BitOf(v, j)
  {
    if i == 0 {
      assert (v - 1) / 2 == v / 2;
    } else {
      LowerBit(v / 2, i - 1, if j == 0 then 0 else j - 1);
      assert (v - Weight(i)) / 2 == v / 2 - Weight(i - 1);
    }
  }

  /** Bits [s, s + count) are all clear. */
  ghost predicate ClearRun(data: Bytes, s: nat, count: nat)
    requires s + count <= 8 * |data|
  {
    forall i :: s <= i < s + count ==> !BitSet(data, i)
  }

  /** `s` starts the lowest run of `count` clear bits below `limit`. */
  ghost predicate LowestRun(data: Bytes, limit: nat, s: nat, count: nat)
    requires limit <= 8 * |data|
  {
    s + count <= limit && ClearRun(data, s, count)
    && forall t :: 0 <= t < s ==> !ClearRun(data, t, count)
  }

  ghost predicate HasRun(data: Bytes, limit: nat, count: nat)
    requires limit <= 8 * |data|
  {
    exists s :: 0 <= s && s + count <= limit && ClearRun(data, s, count)
  }

  class Bitmap {
    var data: array<byte>

    constructor (bytes: Bytes)
      ensures fresh(data) && data[..] == bytes
    {
      data := new byte[|bytes|](i requires 0 <= i < |bytes| => bytes[i]);
    }

    predicate IsAllocated(i: nat)
      requires i < 8 * data.Length
      reads this, data
    {
      BitOf(data[i / 8], i % 8)
    }

    /** Marks block `i` allocated; false, and no change, if it already is. */
    method Allocate(i: nat) returns (done: bool)
      requires i < 8 * data.Length
      modifies data
      ensures done == !old(BitSet(data[..], i))
      ensures forall j :: 0 <= j < 8 * data.Length ==> (BitSet(data[..], j) <==> j == i || BitSet(old(data[..]), j))
    {
      if IsAllocated(i) { return false; }
      ghost var v := data[i / 8];
      assert Weight(8) == 256;
      RaiseBit(v, 8, i % 8, i % 8);
      data[i / 8] := data[i / 8] + Weight(i % 8);
      forall j | 0 <= j < 8 * data.Length ensures BitSet(data[..], j) <==> j == i || BitSet(old(data[..]), j) {
        if j / 8 == i / 8 { RaiseBit(v, 8, i % 8, j % 8); }
      }
      return true;
    }

    /** Marks block `i` free; false, and no change, if it already is. */
    method Free(i: nat) returns (done: bool)
      requires i < 8 * data.Length
      modifies data
      ensures done == old(BitSet(data[..], i))
      ensures forall j :: 0 <= j < 8 * data.Length ==> (BitSet(data[..], j) <==> j != i && BitSet(old(data[..]), j))
    {
      if !IsAllocated(i) { return false; }
      ghost var v := data[i / 8];
      LowerBit(v, i % 8, i % 8);
      data[i / 8] := data[i / 8] - Weight(i % 8);
      forall j | 0 <= j < 8 * data.Length ensures BitSet(data[..], j) <==> j != i && BitSet(old(data[..]), j) {
        if j / 8 == i / 8 { LowerBit(v, i % 8, j % 8); }
      }
      return true;
    }

    /** The lowest run of `count` clear bits among the first `bitsInGroup`, or among all bits if the group
        has more than the bitmap. */
    method FirstFreeRun(count: nat, bitsInGroup: nat) returns (r: Option<nat>)
      ensures r.Some? ==> LowestRun(data[..], Min(bitsInGroup, 8 * data.Length), r.value, count)
      ensures r.None? ==> !HasRun(data[..], Min(bitsInGroup, 8 * data.Length), count)
    {
      if count == 0 { return Some(0); }
      var runStart, runLen, limit := 0, 0, Min(bitsInGroup, 8 * data.Length);
      var bit := 0;
      while bit < limit
        invariant 0 <= bit <= limit
        invariant runLen < count
        invariant runLen <= bit
        invariant runLen > 0 ==> runStart + runLen == bit
        invariant forall i :: bit - runLen <= i < bit ==> !BitSet(data[..], i)
        invariant runLen < bit ==> BitSet(data[..], bit - runLen - 1)
        invariant forall t :: 0 <= t && t + count <= bit ==> !ClearRun(data[..], t, count)
      {
        if !IsAllocated(bit) {
          if runLen == 0 { runStart := bit; }
          runLen := runLen + 1;
          if runLen >= count {
            assert !BitSet(data[..], bit);
            return Some(runStart);
          }
          bit := bit + 1;
        } else {
          assert BitSet(data[..], bit);
          runLen := 0;
          bit := bit + 1;
        }
        forall t | 0 <= t && t + count == bit ensures !ClearRun(data[..], t, count) {
          assert t <= bit - runLen - 1 < t + count;
        }
      }
      return None;
    }
  }
}

/** Reading an extent tree of any depth: the recursive descent, the list of all leaf extents,
    the binary search over that list and the block-by-block iterator all read one map. */
module ExtentLookup {
  import opened Base
  import opened Device
  import opened ExtentNode
  import opened ExtentMap

  const MAX_TOTAL_LEAVES: nat := 0x20_0000

  // ---- specification ----

  /** Children sit one level below their parent. The walks recurse on this. */
  ghost predicate Levels(disk: Disk, bs: nat, n: Node)
    decreases n.Depth(), 1
  {
    n.Inner? ==> n.depth > 0 && LevelsOf(disk, bs, n.idx, n.depth)
  }

  ghost predicate LevelsOf(disk: Disk, bs: nat, idx: seq<Idx>, depth: nat)
    requires depth > 0
    decreases depth, 0, |idx|
  {
    idx == []
    || (LevelsOf(disk, bs, idx[..|idx| - 1], depth)
        && (NodeAt(disk, bs, idx[|idx| - 1].child).Ok? ==>
              NodeAt(disk, bs, idx[|idx| - 1].child).value.Depth() == depth - 1
              && Levels(disk, bs, NodeAt(disk, bs, idx[|idx| - 1].child).value)))
  }

  /** The extents are sorted and lie within [lo, hi). */
  ghost predicate FitsIn(es: seq<Extent>, lo: nat, hi: nat) {
    Sorted(es) && EndOf(es) <= hi && (es != [] ==> lo <= es[0].block)
  }

  /** The subtree under `n` is well formed and maps only blocks of [lo, hi). */
  ghost predicate WellFormed(disk: Disk, bs: nat, n: Node, lo: nat, hi: nat)
    decreases n.Depth(), 1
  {
    match n
    case Leaf(_, es) => FitsIn(es, lo, hi)
    case Inner(d, _, idx) => d > 0 && WellFormedIndex(disk, bs, idx, d, lo, hi)
  }

  ghost predicate WellFormedIndex(disk: Disk, bs: nat, idx: seq<Idx>, depth: nat, lo: nat, hi: nat)
    requires depth > 0
    decreases depth, 0, |idx|
  {
    idx == []
    || (var x := idx[|idx| - 1];
        && lo <= x.key <= hi
        && NodeAt(disk, bs, x.child).Ok?
        && NodeAt(disk, bs, x.child).value.Depth() == depth - 1
        && WellFormed(disk, bs, NodeAt(disk, bs, x.child).value, x.key, hi)
        && WellFormedIndex(disk, bs, idx[..|idx| - 1], depth, lo, x.key))
  }

  /** All leaf extents under `n`, left to right. */
  ghost function Collect(disk: Disk, bs: nat, n: Node): seq<Extent>
    requires Levels(disk, bs, n)
    decreases n.Depth(), 1
  {
    match n
    case Leaf(_, es) => es
    case Inner(d, _, idx) => CollectIndex(disk, bs, idx, d)
  }

  ghost function CollectIndex(disk: Disk, bs: nat, idx: seq<Idx>, depth: nat): seq<Extent>
    requires depth > 0 && LevelsOf(disk, bs, idx, depth)
    decreases depth, 0, |idx|
  {
    if idx == [] then []
    else
      CollectIndex(disk, bs, idx[..|idx| - 1], depth)
      + match NodeAt(disk, bs, idx[|idx| - 1].child)
        case Ok(c) => Collect(disk, bs, c)
        case Err(_) => []
  }

  lemma {:induction false} WellFormedLevels(disk: Disk, bs: nat, n: Node, lo: nat, hi: nat)
    requires WellFormed(disk, bs, n, lo, hi)
    ensures Levels(disk, bs, n)
    decreases n.Depth(), 1
  {
    if n.Inner? { WellFormedIndexLevels(disk, bs, n.idx, n.depth, lo, hi); }
  }

  lemma {:induction false} WellFormedIndexLevels(disk: Disk, bs: nat, idx: seq<Idx>, depth: nat, lo: nat, hi: nat)
    requires depth > 0 && WellFormedIndex(disk, bs, idx, depth, lo, hi)
    ensures LevelsOf(disk, bs, idx, depth)
    decreases depth, 0, |idx|
  {
    if idx != [] {
      var x := idx[|idx| - 1];
      WellFormedLevels(disk, bs, NodeAt(disk, bs, x.child).value, x.key, hi);
      WellFormedIndexLevels(disk, bs, idx[..|idx| - 1], depth, lo, x.key);
    }
  }

  /** The collected extents are in order: the sort that follows every collection changes nothing. */
  lemma {:induction false} CollectSorted(disk: Disk, bs: nat, n: Node, lo: nat, hi: nat)
    requires WellFormed(disk, bs, n, lo, hi) && Levels(disk, bs, n)
    ensures FitsIn(Collect(disk, bs, n), lo, hi)
    decreases n.Depth(), 1
  {
    if n.Inner? { CollectIndexSorted(disk, bs, n.idx, n.depth, lo, hi); }
  }

  lemma {:induction false} CollectIndexSorted(disk: Disk, bs: nat, idx: seq<Idx>, depth: nat, lo: nat, hi: nat)
    requires depth > 0 && WellFormedIndex(disk, bs, idx, depth, lo, hi) && LevelsOf(disk, bs, idx, depth)
    ensures FitsIn(CollectIndex(disk, bs, idx, depth), lo, hi)
    decreases depth, 0, |idx|
  {
    if idx != [] {
      var x, init := idx[|idx| - 1], idx[..|idx| - 1];
      CollectSorted(disk, bs, NodeAt(disk, bs, x.child).value, x.key, hi);
      CollectIndexSorted(disk, bs, init, depth, lo, x.key);
      ConcatSorted(CollectIndex(disk, bs, init, depth), Collect(disk, bs, NodeAt(disk, bs, x.child).value));
    }
  }

  // ---- recursive descent ----

  /** The scan over index entries: the last one not past `l`, stopping at the first that is. */
  function BestChild(idx: seq<Idx>, l: nat, best: Option<nat>): Option<nat> {
    if idx == [] then best
    else if idx[0].key <= l then BestChild(idx[1..], l, Some(idx[0].child))
    else best
  }

  /** Resolves logical block `l` in the subtree of `n`. */
  function Lookup(disk: Disk, bs: nat, n: Node, l: nat): (r: Result<Option<nat>, ExtentError>)
    requires Levels(disk, bs, n)
    decreases n.Depth()
  {
    match n
    case Leaf(_, es) => Ok(FindPhys(es, l))
    case Inner(d, _, idx) =>
      match BestChild(idx, l, None)
      case None => Ok(None)
      case Some(b) =>
        BestChildIsListed(disk, bs, idx, d, l, None);
        match NodeAt(disk, bs, b)
        case Err(e) => Err(e)
        case Ok(c) => Lookup(disk, bs, c, l)
  }

  lemma {:induction false} LevelsSuffix(disk: Disk, bs: nat, idx: seq<Idx>, depth: nat)
    requires depth > 0 && idx != [] && LevelsOf(disk, bs, idx, depth)
    ensures LevelsOf(disk, bs, idx[1..], depth)
    ensures NodeAt(disk, bs, idx[0].child).Ok? ==>
              NodeAt(disk, bs, idx[0].child).value.Depth() == depth - 1
              && Levels(disk, bs, NodeAt(disk, bs, idx[0].child).value)
  {
    if |idx| > 1 {
      var n := |idx| - 1;
      LevelsSuffix(disk, bs, idx[..n], depth);
      assert idx[1..][..n - 1] == idx[..n][1..];
    }
  }

  lemma {:induction false} BestChildIsListed(disk: Disk, bs: nat, idx: seq<Idx>, depth: nat, l: nat, best: Option<nat>)
    requires depth > 0 && LevelsOf(disk, bs, idx, depth)
    requires best.Some? && NodeAt(disk, bs, best.value).Ok? ==>
               NodeAt(disk, bs, best.value).value.Depth() == depth - 1
               && Levels(disk, bs, NodeAt(disk, bs, best.value).value)
    ensures var b := BestChild(idx, l, best);
            b.Some? && NodeAt(disk, bs, b.value).Ok? ==>
              NodeAt(disk, bs, b.value).value.Depth() == depth - 1
              && Levels(disk, bs, NodeAt(disk, bs, b.value).value)
  {
    if idx != [] && idx[0].key <= l {
      LevelsSuffix(disk, bs, idx, depth);
      BestChildIsListed(disk, bs, idx[1..], depth, l, Some(idx[0].child));
    }
  }

  /** Where the keys ascend, the scan finds the last entry not past `l`. */
  lemma {:induction false} BestOfPrefix(disk: Disk, bs: nat, idx: seq<Idx>, depth: nat, lo: nat, hi: nat, l: nat,
                                        best: Option<nat>)
    requires depth > 0 && idx != [] && WellFormedIndex(disk, bs, idx, depth, lo, hi)
    ensures BestChild(idx, l, best) ==
            if idx[|idx| - 1].key <= l then Some(idx[|idx| - 1].child) else BestChild(idx[..|idx| - 1], l, best)
    decreases |idx|
  {
    var n := |idx| - 1;
    if n > 0 {
      IndexTail(disk, bs, idx, depth, lo, hi);
      assert idx[1..][|idx[1..]| - 1] == idx[n];
      assert idx[1..][..n - 1] == idx[..n][1..];
      BestOfPrefix(disk, bs, idx[1..], depth, idx[0].key, hi, l, Some(idx[0].child));
    }
  }

  lemma {:induction false} IndexTail(disk: Disk, bs: nat, idx: seq<Idx>, depth: nat, lo: nat, hi: nat)
    requires depth > 0 && |idx| > 1 && WellFormedIndex(disk, bs, idx, depth, lo, hi)
    ensures WellFormedIndex(disk, bs, idx[1..], depth, idx[0].key, hi)
    ensures idx[0].key <= idx[|idx| - 1].key
  {
    var n := |idx| - 1;
    var x := idx[n];
    assert idx[1..][|idx[1..]| - 1] == x;
    assert idx[1..][..n - 1] == idx[..n][1..];
    if n > 1 {
      IndexTail(disk, bs, idx[..n], depth, lo, x.key);
    } else {
      assert idx[..1][0] == idx[0];
    }
  }

  /** The descent resolves every block exactly as the scan over all extents does. */
  lemma {:induction false} LookupIsFind(disk: Disk, bs: nat, n: Node, lo: nat, hi: nat, l: nat)
    requires WellFormed(disk, bs, n, lo, hi) && Levels(disk, bs, n)
    ensures Lookup(disk, bs, n, l) == Ok(FindPhys(Collect(disk, bs, n), l))
    decreases n.Depth(), 1
  {
    if n.Inner? { LookupIndex(disk, bs, n.idx, n.depth, lo, hi, l); }
  }

  lemma {:induction false} LookupIndex(disk: Disk, bs: nat, idx: seq<Idx>, depth: nat, lo: nat, hi: nat, l: nat)
    requires depth > 0 && WellFormedIndex(disk, bs, idx, depth, lo, hi) && LevelsOf(disk, bs, idx, depth)
    ensures match BestChild(idx, l, None)
            case None => FindPhys(CollectIndex(disk, bs, idx, depth), l) == None
            case Some(b) => (
              && NodeAt(disk, bs, b).Ok? && Levels(disk, bs, NodeAt(disk, bs, b).value)
              && NodeAt(disk, bs, b).value.Depth() == depth - 1
              && Lookup(disk, bs, NodeAt(disk, bs, b).value, l) == Ok(FindPhys(CollectIndex(disk, bs, idx, depth), l)))
    decreases depth, 0, |idx|
  {
    if idx != [] {
      var x, init := idx[|idx| - 1], idx[..|idx| - 1];
      var c := NodeAt(disk, bs, x.child).value;
      var before, here := CollectIndex(disk, bs, init, depth), Collect(disk, bs, c);
      BestOfPrefix(disk, bs, idx, depth, lo, hi, l, None);
      FindInConcat(before, here, l);
      if x.key <= l {
        CollectIndexSorted(disk, bs, init, depth, lo, x.key);
        FindPast(before, l);
        LookupIsFind(disk, bs, c, x.key, hi, l);
      } else {
        CollectSorted(disk, bs, c, x.key, hi);
        FindBefore(here, l);
        LookupIndex(disk, bs, init, depth, lo, x.key, l);
      }
    }
  }

  lemma {:induction false} FindBefore(es: seq<Extent>, l: nat)
    requires Sorted(es) && (es != [] ==> l < es[0].block)
    ensures FindPhys(es, l) == None
  {
    if es != [] {
      var n := |es| - 1;
      FindBefore(es[..n], l);
      assert es == es[..n] + [es[n]];
      FindInConcat(es[..n], [es[n]], l);
      SortedPairs(es);
    }
  }

  // ---- collecting the leaves ----

  /** Appends all leaf extents under `n` to `out`. */
  method CollectLeaves(dev: BlockDevice, n: Node, out: seq<Extent>, ghost lo: nat, ghost hi: nat)
      returns (r: Result<seq<Extent>, ExtentError>)
    requires WellFormed(dev.disk, dev.blockSize, n, lo, hi) && Levels(dev.disk, dev.blockSize, n)
    ensures r.Ok? ==> r.value == out + Collect(dev.disk, dev.blockSize, n)
    ensures r.Err? ==> r.error == TooManyLeaves
                       && |out| + |Collect(dev.disk, dev.blockSize, n)| > MAX_TOTAL_LEAVES
    ensures r.Ok? && |out| <= MAX_TOTAL_LEAVES ==> |r.value| <= MAX_TOTAL_LEAVES
    decreases n.Depth(), 1
  {
    match n
    case Leaf(_, es) =>
      if |out| + |es| > MAX_TOTAL_LEAVES { return Err(TooManyLeaves); }
      return Ok(out + es);
    case Inner(d, _, idx) =>
      r := CollectChildren(dev, idx, d, out, lo, hi);
  }

  method CollectChildren(dev: BlockDevice, idx: seq<Idx>, depth: nat, out: seq<Extent>, ghost lo: nat, ghost hi: nat)
      returns (r: Result<seq<Extent>, ExtentError>)
    requires depth > 0 && WellFormedIndex(dev.disk, dev.blockSize, idx, depth, lo, hi)
    requires LevelsOf(dev.disk, dev.blockSize, idx, depth)
    ensures r.Ok? ==> r.value == out + CollectIndex(dev.disk, dev.blockSize, idx, depth)
    ensures r.Err? ==> r.error == TooManyLeaves
                       && |out| + |CollectIndex(dev.disk, dev.blockSize, idx, depth)| > MAX_TOTAL_LEAVES
    ensures r.Ok? && |out| <= MAX_TOTAL_LEAVES ==> |r.value| <= MAX_TOTAL_LEAVES
    decreases depth, 0, 1
  {
    var acc, i := out, 0;
    while i < |idx|
      invariant 0 <= i <= |idx|
      invariant LevelsOf(dev.disk, dev.blockSize, idx[..i], depth)
      invariant acc == out + CollectIndex(dev.disk, dev.blockSize, idx[..i], depth)
      invariant |out| <= MAX_TOTAL_LEAVES ==> |acc| <= MAX_TOTAL_LEAVES
    {
      var sub := CollectChild(dev, idx, depth, out, acc, i, lo, hi);
      if sub.Err? { return sub; }
      acc := sub.value;
      i := i + 1;
    }
    assert idx[..i] == idx;
    return Ok(acc);
  }

  method CollectChild(dev: BlockDevice, idx: seq<Idx>, depth: nat, ghost out: seq<Extent>, acc: seq<Extent>, i: nat,
                      ghost lo: nat, ghost hi: nat)
      returns (r: Result<seq<Extent>, ExtentError>)
    requires depth > 0 && WellFormedIndex(dev.disk, dev.blockSize, idx, depth, lo, hi) && i < |idx|
    requires LevelsOf(dev.disk, dev.blockSize, idx, depth) && LevelsOf(dev.disk, dev.blockSize, idx[..i], depth)
    requires acc == out + CollectIndex(dev.disk, dev.blockSize, idx[..i], depth)
    ensures LevelsOf(dev.disk, dev.blockSize, idx[..i + 1], depth)
    ensures r.Ok? ==> r.value == out + CollectIndex(dev.disk, dev.blockSize, idx[..i + 1], depth)
    ensures r.Err? ==> r.error == TooManyLeaves
                       && |out| + |CollectIndex(dev.disk, dev.blockSize, idx, depth)| > MAX_TOTAL_LEAVES
    ensures r.Ok? && |acc| <= MAX_TOTAL_LEAVES ==> |r.value| <= MAX_TOTAL_LEAVES
    decreases depth, 0, 0
  {
    hide DecodeNode, ReadAt, WellFormed, WellFormedIndex, Levels, LevelsOf, Collect, CollectIndex;
    ghost var a, b := ChildBounds(dev.disk, dev.blockSize, idx, depth, lo, hi, i);
    CollectNext(dev.disk, dev.blockSize, idx, depth, i);
    var data := dev.Read(idx[i].child);
    var child := DecodeNode(data).value;
    r := CollectLeaves(dev, child, acc, a, b);
    assert |acc + Collect(dev.disk, dev.blockSize, child)|
           == |out| + |CollectIndex(dev.disk, dev.blockSize, idx[..i + 1], depth)|;
  }

  lemma {:induction false} ChildBounds(disk: Disk, bs: nat, idx: seq<Idx>, depth: nat, lo: nat, hi: nat, i: nat)
      returns (a: nat, b: nat)
    requires depth > 0 && WellFormedIndex(disk, bs, idx, depth, lo, hi) && i < |idx|
    ensures NodeAt(disk, bs, idx[i].child).Ok? && NodeAt(disk, bs, idx[i].child).value.Depth() == depth - 1
    ensures WellFormed(disk, bs, NodeAt(disk, bs, idx[i].child).value, a, b)
  {
    var n := |idx| - 1;
    if i < n {
      a, b := ChildBounds(disk, bs, idx[..n], depth, lo, idx[n].key, i);
    } else {
      a, b := idx[n].key, hi;
    }
  }

  /** One more child: what the prefix collects, and that the prefix collects no more than the whole. */
  lemma {:induction false} CollectNext(disk: Disk, bs: nat, idx: seq<Idx>, depth: nat, i: nat)
    requires depth > 0 && LevelsOf(disk, bs, idx, depth) && i < |idx|
    requires NodeAt(disk, bs, idx[i].child).Ok?
    ensures LevelsOf(disk, bs, idx[..i], depth) && LevelsOf(disk, bs, idx[..i + 1], depth)
    ensures Levels(disk, bs, NodeAt(disk, bs, idx[i].child).value)
    ensures CollectIndex(disk, bs, idx[..i + 1], depth) ==
            CollectIndex(disk, bs, idx[..i], depth) + Collect(disk, bs, NodeAt(disk, bs, idx[i].child).value)
    ensures |CollectIndex(disk, bs, idx[..i + 1], depth)| <= |CollectIndex(disk, bs, idx, depth)|
  {
    var n := |idx| - 1;
    if i < n {
      CollectNext(disk, bs, idx[..n], depth, i);
      assert idx[..n][..i] == idx[..i] && idx[..n][..i + 1] == idx[..i + 1];
    } else {
      assert idx[..i + 1] == idx;
    }
  }

  // ---- binary search over the collected extents ----

  /** The number of leading extents that start at or before `l`, by bisection of [a, b). */
  function PartitionPoint(es: seq<Extent>, l: nat, a: nat, b: nat): (p: nat)
    requires a <= b <= |es| && Sorted(es)
    requires a > 0 ==> es[a - 1].block <= l
    requires b < |es| ==> es[b].block > l
    ensures p <= |es|
    ensures p > 0 ==> es[p - 1].block <= l
    ensures p < |es| ==> es[p].block > l
    decreases b - a
  {
    if a == b then a
    else
      var m := (a + b) / 2;
      if es[m].block <= l then PartitionPoint(es, l, m + 1, b) else PartitionPoint(es, l, a, m)
  }

  /** The file reader's resolution of a logical block over its cached extents. */
  function ResolveLblock(es: seq<Extent>, l: nat): (r: Option<nat>)
    requires Sorted(es)
  {
    var p := PartitionPoint(es, l, 0, |es|);
    if p == 0 then None
    else
      var e := es[p - 1];
      if e.rawLen > MAX_EXTENT_LEN then None
      else if l < e.block + e.rawLen then Some(e.start + (l - e.block))
      else None
  }

  lemma ResolveIsFind(es: seq<Extent>, l: nat)
    requires Sorted(es)
    ensures ResolveLblock(es, l) == FindPhys(es, l)
  {
    hide FindPhys, Sorted, PartitionPoint;
    var p := PartitionPoint(es, l, 0, |es|);
    if p == 0 {
      FindBefore(es, l);
    } else if l < es[p - 1].End() {
      FindCovered(es, p - 1, l);
    } else {
      FindGap(es, p, l);
    }
  }

  lemma {:induction false} FindGap(es: seq<Extent>, p: nat, l: nat)
    requires Sorted(es) && 0 < p <= |es| && es[p - 1].End() <= l && (p < |es| ==> l < es[p].block)
    ensures FindPhys(es, l) == None
  {
    var n := |es| - 1;
    if p <= n {
      FindGap(es[..n], p, l);
      assert es == es[..n] + [es[n]];
      FindInConcat(es[..n], [es[n]], l);
      SortedPairs(es);
    } else {
      FindPast(es, l);
    }
  }

  // ---- the iterator ----

  /** Yields (l, physical block of l) for l = 0, 1, 2, ... up to the size of the file. */
  class ExtentIter {
    const leaves: seq<Extent>
    const totalLblocks: nat
    var leafIdx: nat
    var nextLblock: nat

    ghost predicate Valid()
      reads this
    {
      Sorted(leaves) && leafIdx <= |leaves| && forall i :: 0 <= i < leafIdx ==> leaves[i].End() <= nextLblock
    }

    constructor (leaves: seq<Extent>, size: nat, bs: nat)
      requires Sorted(leaves) && bs > 0
      ensures Valid() && this.leaves == leaves && nextLblock == 0
      ensures totalLblocks * bs >= size && (totalLblocks > 0 ==> (totalLblocks - 1) * bs < size)
    {
      this.leaves, totalLblocks := leaves, DivCeil(size, bs);
      leafIdx, nextLblock := 0, 0;
      new;
      CeilBound(size, bs, totalLblocks);
      if totalLblocks > 0 { CeilBound(size, bs, totalLblocks - 1); }
    }

    method Next() returns (r: Option<(nat, Option<nat>)>)
      requires Valid()
      modifies this
      ensures Valid()
      ensures old(nextLblock) < totalLblocks ==>
                r == Some((old(nextLblock), FindPhys(leaves, old(nextLblock)))) && nextLblock == old(nextLblock) + 1
      ensures old(nextLblock) >= totalLblocks ==> r == None && nextLblock == old(nextLblock)
    {
      hide FindPhys;
      if nextLblock >= totalLblocks { return None; }
      var l := nextLblock;
      SortedPairs(leaves);
      while leafIdx < |leaves| && leaves[leafIdx].End() <= l
        invariant Valid() && nextLblock == l
        decreases |leaves| - leafIdx
      {
        leafIdx := leafIdx + 1;
      }
      nextLblock := nextLblock + 1;
      if leafIdx >= |leaves| {
        FindPast(leaves, l);
        return Some((l, None));
      }
      var e := leaves[leafIdx];
      if l < e.block {
        if leafIdx > 0 { FindGap(leaves, leafIdx, l); } else { FindBefore(leaves, l); }
        return Some((l, None));
      }
      FindCovered(leaves, leafIdx, l);
      return Some((l, if e.Uninit() then None else Some(e.start + (l - e.block))));
    }
  }

  /** Four readings of one tree: descent, scan, bisection and (by the contract of `Next`) iteration. */
  lemma LookupsAgree(disk: Disk, bs: nat, n: Node, lo: nat, hi: nat, l: nat)
    requires WellFormed(disk, bs, n, lo, hi)
    ensures Levels(disk, bs, n) && Sorted(Collect(disk, bs, n))
    ensures Lookup(disk, bs, n, l) == Ok(FindPhys(Collect(disk, bs, n), l))
    ensures ResolveLblock(Collect(disk, bs, n), l) == FindPhys(Collect(disk, bs, n), l)
  {
    WellFormedLevels(disk, bs, n, lo, hi);
    CollectSorted(disk, bs, n, lo, hi);
    LookupIsFind(disk, bs, n, lo, hi, l);
    ResolveIsFind(Collect(disk, bs, n), l);
  }
}

/** What a list of extents means: a partial map from logical to physical blocks. Appending and
    truncating are first described here, on the plain list of all extents of a file; the tree
    shapes that carry the list come in later modules. */
module ExtentMap {
  import opened Base
  import opened ExtentNode

  /** The scan over all extents that resolves a logical block; uninitialised extents are holes. */
  function FindPhys(es: seq<Extent>, l: nat): Option<nat> {
    if es == [] then None
    else if !es[0].Uninit() && es[0].block <= l < es[0].block + es[0].rawLen then Some(es[0].start + (l - es[0].block))
    else FindPhys(es[1..], l)
  }

  /** Extents in ascending order, none empty and none overlapping. */
  predicate Sorted(es: seq<Extent>) {
    es == []
    || (var init, e := es[..|es| - 1], es[|es| - 1];
        Sorted(init) && e.Len() >= 1 && EndOf(init) <= e.block)
  }

  /** Extents cover [0, n) without a gap and all are initialised. */
  predicate Dense(es: seq<Extent>) {
    es == []
    || (var init, e := es[..|es| - 1], es[|es| - 1];
        Dense(init) && 1 <= e.rawLen <= MAX_EXTENT_LEN && EndOf(init) == e.block)
  }

  /** The first logical block after the last extent. */
  function EndOf(es: seq<Extent>): nat {
    if es == [] then 0 else es[|es| - 1].End()
  }

  /** The logical block an append starts at; the 32-bit addition saturates. */
  function NextLogical(es: seq<Extent>): nat {
    Min(EndOf(es), U32 - 1)
  }

  /** The last extent can absorb `count` blocks at `phys`. */
  predicate CanCoalesce(es: seq<Extent>, phys: nat, count: nat) {
    && es != []
    && var e := es[|es| - 1];
       && 0 < e.rawLen <= MAX_EXTENT_LEN
       && e.start + e.rawLen == phys
       && e.rawLen + count <= MAX_EXTENT_LEN
  }

  function Coalesced(es: seq<Extent>, count: nat): (r: seq<Extent>)
    requires es != []
    ensures |r| == |es|
  {
    var n := |es| - 1;
    es[n := es[n].(rawLen := es[n].rawLen + count)]
  }

  /** The extent an append adds when it cannot coalesce. */
  function NewExtent(es: seq<Extent>, phys: nat, count: nat): Extent {
    Extent(NextLogical(es), count, phys)
  }

  function AppendExtents(es: seq<Extent>, phys: nat, count: nat): seq<Extent> {
    if CanCoalesce(es, phys, count) then Coalesced(es, count) else es + [NewExtent(es, phys, count)]
  }

  /** The extent cut off at logical block `k`, which lies inside it. */
  function Trimmed(e: Extent, k: nat): Extent
    requires e.block < k < e.End()
  {
    e.(rawLen := if e.Uninit() then k - e.block + MAX_EXTENT_LEN else k - e.block)
  }

  /** The list without the logical blocks from `k` on. */
  function TruncExtents(es: seq<Extent>, k: nat): (r: seq<Extent>)
    ensures |r| <= |es|
  {
    if es == [] then []
    else
      var rest := TruncExtents(es[..|es| - 1], k);
      var e := es[|es| - 1];
      if e.block >= k then rest
      else if e.End() > k then rest + [Trimmed(e, k)]
      else rest + [e]
  }

  // ---- the map of a concatenation ----

  lemma {:induction false} FindInConcat(a: seq<Extent>, b: seq<Extent>, l: nat)
    ensures FindPhys(a + b, l) == if FindPhys(a, l).Some? then FindPhys(a, l) else FindPhys(b, l)
  {
    if a == [] {
      assert a + b == b;
    } else {
      assert (a + b)[1..] == a[1..] + b;
      FindInConcat(a[1..], b, l);
    }
  }

  lemma {:induction false} SortedPairs(es: seq<Extent>)
    requires Sorted(es)
    ensures forall i :: 0 <= i < |es| ==> es[i].Len() >= 1 && es[i].End() <= EndOf(es)
    ensures forall i, j :: 0 <= i < j < |es| ==> es[i].End() <= es[j].block
  {
    if es != [] { SortedPairs(es[..|es| - 1]); }
  }

  /** Nothing is mapped from the end of the list on. */
  lemma {:induction false} FindPast(es: seq<Extent>, l: nat)
    requires Sorted(es) && EndOf(es) <= l
    ensures FindPhys(es, l) == None
  {
    if es != [] {
      var n := |es| - 1;
      FindPast(es[..n], l);
      assert es == es[..n] + [es[n]];
      FindInConcat(es[..n], [es[n]], l);
    }
  }

  /** In a sorted list only the extent around `l` matters. */
  lemma {:induction false} FindCovered(es: seq<Extent>, i: nat, l: nat)
    requires Sorted(es) && i < |es| && es[i].block <= l < es[i].End()
    ensures FindPhys(es, l) == if es[i].Uninit() then None else Some(es[i].start + (l - es[i].block))
  {
    var n := |es| - 1;
    assert es == es[..n] + [es[n]];
    FindInConcat(es[..n], [es[n]], l);
    if i == n {
      FindPast(es[..n], l);
    } else {
      FindCovered(es[..n], i, l);
      SortedPairs(es[..n]);
    }
  }

  lemma SortedSnoc(init: seq<Extent>, e: Extent)
    requires Sorted(init) && e.Len() >= 1 && EndOf(init) <= e.block
    ensures Sorted(init + [e]) && EndOf(init + [e]) == e.End()
    ensures Dense(init) && EndOf(init) == e.block && !e.Uninit() ==> Dense(init + [e])
  {
    assert (init + [e])[..|init|] == init;
  }

  lemma {:induction false} ConcatSorted(a: seq<Extent>, b: seq<Extent>)
    requires Sorted(a) && Sorted(b) && (b != [] ==> EndOf(a) <= b[0].block)
    ensures Sorted(a + b) && EndOf(a + b) == if b == [] then EndOf(a) else EndOf(b)
  {
    if b == [] {
      assert a + b == a;
    } else {
      var n := |b| - 1;
      ConcatSorted(a, b[..n]);
      assert (a + b)[..|a + b| - 1] == a + b[..n];
    }
  }

  /** Append refines map extension: the only change is [n, n + count) -> [phys, phys + count),
      where n is the end of the last extent. */
  lemma AppendExtendsMap(es: seq<Extent>, phys: nat, count: nat, l: nat)
    requires Sorted(es) && EndOf(es) + count < U32 && 1 <= count <= MAX_EXTENT_LEN
    ensures FindPhys(AppendExtents(es, phys, count), l) ==
            if EndOf(es) <= l < EndOf(es) + count then Some(phys + (l - EndOf(es))) else FindPhys(es, l)
  {
    if CanCoalesce(es, phys, count) {
      var n := |es| - 1;
      var grown := es[n].(rawLen := es[n].rawLen + count);
      assert es == es[..n] + [es[n]];
      assert Coalesced(es, count) == es[..n] + [grown];
      FindInConcat(es[..n], [es[n]], l);
      FindInConcat(es[..n], [grown], l);
      if l >= es[n].block { FindPast(es[..n], l); }
    } else {
      FindInConcat(es, [NewExtent(es, phys, count)], l);
      if l >= EndOf(es) { FindPast(es, l); }
    }
  }

  /** Append keeps the list sorted, and dense if it was. */
  lemma AppendKeepsOrder(es: seq<Extent>, phys: nat, count: nat)
    requires Sorted(es) && EndOf(es) + count < U32 && 1 <= count <= MAX_EXTENT_LEN
    ensures Sorted(AppendExtents(es, phys, count))
    ensures EndOf(AppendExtents(es, phys, count)) == EndOf(es) + count
    ensures Dense(es) ==> Dense(AppendExtents(es, phys, count))
  {
    if CanCoalesce(es, phys, count) {
      assert Coalesced(es, count)[..|es| - 1] == es[..|es| - 1];
    } else {
      assert (es + [NewExtent(es, phys, count)])[..|es|] == es;
    }
  }

  lemma {:induction false} DenseIsSorted(es: seq<Extent>)
    requires Dense(es)
    ensures Sorted(es) && forall e :: e in es ==> !e.Uninit()
  {
    if es != [] { DenseIsSorted(es[..|es| - 1]); }
  }

  /** A dense file maps every block below its end and nothing else. */
  lemma {:induction false} DenseMaps(es: seq<Extent>, l: nat)
    requires Dense(es)
    ensures FindPhys(es, l).Some? <==> l < EndOf(es)
  {
    if es != [] {
      var n := |es| - 1;
      DenseMaps(es[..n], l);
      assert es == es[..n] + [es[n]];
      FindInConcat(es[..n], [es[n]], l);
    }
  }

  // ---- truncation ----

  /** Truncation leaves exactly the map restricted to the blocks below `k`. */
  lemma {:induction false} TruncRestrictsMap(es: seq<Extent>, k: nat, l: nat)
    ensures FindPhys(TruncExtents(es, k), l) == if l < k then FindPhys(es, l) else None
  {
    if es != [] {
      var n := |es| - 1;
      var e, rest := es[n], TruncExtents(es[..n], k);
      TruncRestrictsMap(es[..n], k, l);
      assert es == es[..n] + [e];
      FindInConcat(es[..n], [e], l);
      if e.block < k {
        FindInConcat(rest, [if e.End() > k then Trimmed(e, k) else e], l);
      }
    }
  }

  lemma {:induction false} TruncConcat(a: seq<Extent>, b: seq<Extent>, k: nat)
    ensures TruncExtents(a + b, k) == TruncExtents(a, k) + TruncExtents(b, k)
  {
    if b == [] {
      assert a + b == a;
    } else {
      assert (a + b)[..|a + b| - 1] == a + b[..|b| - 1];
      TruncConcat(a, b[..|b| - 1], k);
    }
  }

  /** Nothing below `k` is touched. */
  lemma {:induction false} TruncNone(es: seq<Extent>, k: nat)
    requires Sorted(es) && EndOf(es) <= k
    ensures TruncExtents(es, k) == es
  {
    if es != [] { TruncNone(es[..|es| - 1], k); }
  }

  lemma {:induction false} TruncAll(es: seq<Extent>, k: nat)
    requires forall i :: 0 <= i < |es| ==> es[i].block >= k
    ensures TruncExtents(es, k) == []
  {
    if es != [] { TruncAll(es[..|es| - 1], k); }
  }

  /** Truncation keeps the list sorted; a first extent below `k` stays first. */
  lemma {:induction false} TruncKeepsOrder(es: seq<Extent>, k: nat)
    requires Sorted(es)
    ensures Sorted(TruncExtents(es, k))
    ensures EndOf(TruncExtents(es, k)) <= Min(EndOf(es), k)
    ensures es != [] && es[0].block < k ==>
              TruncExtents(es, k) != [] && TruncExtents(es, k)[0].block == es[0].block
  {
    if es != [] {
      var n := |es| - 1;
      var e, rest := es[n], TruncExtents(es[..n], k);
      TruncKeepsOrder(es[..n], k);
      if e.block < k {
        SortedSnoc(rest, if e.End() > k then Trimmed(e, k) else e);
      }
    }
  }

  lemma {:induction false} TruncKeepsDense(es: seq<Extent>, k: nat)
    requires Dense(es)
    ensures Dense(TruncExtents(es, k)) && EndOf(TruncExtents(es, k)) == Min(EndOf(es), k)
  {
    if es != [] {
      var n := |es| - 1;
      var e, rest := es[n], TruncExtents(es[..n], k);
      TruncKeepsDense(es[..n], k);
      DenseIsSorted(rest);
      if e.block < k {
        SortedSnoc(rest, if e.End() > k then Trimmed(e, k) else e);
      }
    }
  }

  // ---- the physical blocks of a list ----

  /** The physical blocks the extents cover. */
  function DataBlocks(es: seq<Extent>): set<nat> {
    if es == [] then {} else DataBlocks(es[..|es| - 1]) + Range(es[|es| - 1].start, es[|es| - 1].Len())
  }

  /** No physical block is covered twice. */
  ghost predicate DisjointData(es: seq<Extent>) {
    es == []
    || (var init, e := es[..|es| - 1], es[|es| - 1];
        DisjointData(init) && DataBlocks(init) !! Range(e.start, e.Len()))
  }

  /** The blocks of one extent that a truncation at `k` drops: a run of `count` from `start`. */
  function DroppedRun(e: Extent, k: nat): (run: (nat, nat))
    ensures run.0 >= e.start && run.0 + run.1 == e.start + e.Len()
  {
    if e.block >= k then (e.start, e.Len())
    else if e.End() > k then (e.start + (k - e.block), e.End() - k)
    else (e.start + e.Len(), 0)
  }

  /** The physical blocks a truncation at `k` drops. */
  function Dropped(es: seq<Extent>, k: nat): set<nat> {
    if es == [] then {}
    else
      var run := DroppedRun(es[|es| - 1], k);
      Dropped(es[..|es| - 1], k) + Range(run.0, run.1)
  }

  function DroppedCount(es: seq<Extent>, k: nat): nat {
    if es == [] then 0 else DroppedCount(es[..|es| - 1], k) + DroppedRun(es[|es| - 1], k).1
  }

  lemma {:induction false} DataConcat(a: seq<Extent>, b: seq<Extent>)
    ensures DataBlocks(a + b) == DataBlocks(a) + DataBlocks(b)
    ensures DisjointData(a + b) <==> DisjointData(a) && DisjointData(b) && DataBlocks(a) !! DataBlocks(b)
  {
    if b == [] {
      assert a + b == a;
    } else {
      assert (a + b)[..|a + b| - 1] == a + b[..|b| - 1];
      DataConcat(a, b[..|b| - 1]);
    }
  }

  lemma RangeSplit(s: nat, a: nat, b: nat)
    ensures Range(s, a + b) == Range(s, a) + Range(s + a, b) && Range(s, a) !! Range(s + a, b)
  {
  }

  /** What a truncation at `k` leaves of one extent. */
  function Kept(e: Extent, k: nat): seq<Extent> {
    if e.block >= k then [] else if e.End() > k then [Trimmed(e, k)] else [e]
  }

  lemma KeptData(e: Extent, k: nat)
    ensures var run := DroppedRun(e, k);
            && Range(e.start, e.Len()) == DataBlocks(Kept(e, k)) + Range(run.0, run.1)
            && DataBlocks(Kept(e, k)) !! Range(run.0, run.1)
            && DisjointData(Kept(e, k))
  {
    hide Range;
    var run := DroppedRun(e, k);
    RangeSplit(e.start, run.0 - e.start, run.1);
    if e.block < k {
      SingleData(if e.End() > k then Trimmed(e, k) else e);
    }
  }

  /** Splitting two disjoint sets splits their union. */
  lemma SplitBoth(a: set<nat>, kept: set<nat>, freed: set<nat>, b: set<nat>, here: set<nat>, gone: set<nat>)
    requires a == kept + freed && kept !! freed && b == here + gone && here !! gone && a !! b
    ensures a + b == (kept + here) + (freed + gone) && (kept + here) !! (freed + gone) && kept !! here
    ensures |freed + gone| == |freed| + |gone|
  {
  }

  /** What a truncation does to the last extent of a list. */
  lemma TruncLast(es: seq<Extent>, k: nat)
    requires es != []
    ensures var n := |es| - 1;
            var run := DroppedRun(es[n], k);
            && TruncExtents(es, k) == TruncExtents(es[..n], k) + Kept(es[n], k)
            && Dropped(es, k) == Dropped(es[..n], k) + Range(run.0, run.1)
            && DroppedCount(es, k) == DroppedCount(es[..n], k) + run.1
  {
    hide Range, DroppedRun;
  }

  /** A truncation splits the blocks of a list into kept and dropped ones. */
  lemma {:induction false} TruncSplitsData(es: seq<Extent>, k: nat)
    requires DisjointData(es)
    ensures DataBlocks(es) == DataBlocks(TruncExtents(es, k)) + Dropped(es, k)
    ensures DataBlocks(TruncExtents(es, k)) !! Dropped(es, k)
    ensures DisjointData(TruncExtents(es, k))
    ensures |Dropped(es, k)| == DroppedCount(es, k)
  {
    hide Range, DataBlocks, DisjointData, DroppedRun, TruncExtents, Dropped, DroppedCount, Kept;
    if es != [] {
      var n := |es| - 1;
      var init, e := es[..n], es[n];
      var rest, run := TruncExtents(init, k), DroppedRun(e, k);
      assert es == init + [e];
      TruncLast(es, k);
      SingleData(e);
      KeptData(e, k);
      DataConcat(init, [e]);
      TruncSplitsData(init, k);
      SplitBoth(DataBlocks(init), DataBlocks(rest), Dropped(init, k),
                DataBlocks([e]), DataBlocks(Kept(e, k)), Range(run.0, run.1));
      DataConcat(rest, Kept(e, k));
    } else {
      EmptyData();
      NothingDropped(k);
    }
  }

  lemma NothingDropped(k: nat)
    ensures TruncExtents([], k) == [] && Dropped([], k) == {} && DroppedCount([], k) == 0
  {
  }

  lemma EmptyData()
    ensures DataBlocks([]) == {} && DisjointData([])
  {
  }

  lemma SingleData(e: Extent)
    ensures DataBlocks([e]) == Range(e.start, e.Len()) && DisjointData([e])
  {
    assert [e][..0] == [];
  }

  lemma CoalescedData(es: seq<Extent>, phys: nat, count: nat)
    requires DisjointData(es) && DataBlocks(es) !! Range(phys, count) && CanCoalesce(es, phys, count)
    ensures DisjointData(Coalesced(es, count))
    ensures DataBlocks(Coalesced(es, count)) == DataBlocks(es) + Range(phys, count)
  {
    hide Range, DataBlocks, DisjointData, Coalesced;
    CoalescedLast(es, phys, count);
    GrownData(es[..|es| - 1], es[|es| - 1], phys, count);
  }

  lemma GrownData(init: seq<Extent>, e: Extent, phys: nat, count: nat)
    requires DisjointData(init + [e]) && DataBlocks(init + [e]) !! Range(phys, count) && phys == e.start + e.rawLen
    requires e.Len() == e.rawLen && e.(rawLen := e.rawLen + count).Len() == e.rawLen + count
    ensures DisjointData(init + [e.(rawLen := e.rawLen + count)])
    ensures DataBlocks(init + [e.(rawLen := e.rawLen + count)]) == DataBlocks(init + [e]) + Range(phys, count)
  {
    hide Range, DataBlocks, DisjointData, Extent.Len;
    LastData(init, e);
    LastData(init, e.(rawLen := e.rawLen + count));
    RangeSplit(e.start, e.rawLen, count);
    Disjoint3(DataBlocks(init), Range(e.start, e.rawLen), Range(phys, count));
  }

  lemma Disjoint3(a: set<nat>, b: set<nat>, c: set<nat>)
    ensures a !! b && (a + b) !! c ==> a !! (b + c) && a + (b + c) == (a + b) + c
  {
  }

  lemma CoalescedLast(es: seq<Extent>, phys: nat, count: nat)
    requires CanCoalesce(es, phys, count)
    ensures var e := es[|es| - 1];
            && es == es[..|es| - 1] + [e] && Coalesced(es, count) == es[..|es| - 1] + [e.(rawLen := e.rawLen + count)]
            && phys == e.start + e.rawLen && e.Len() == e.rawLen
            && e.(rawLen := e.rawLen + count).Len() == e.rawLen + count
  {
  }

  lemma LastData(init: seq<Extent>, e: Extent)
    ensures DataBlocks(init + [e]) == DataBlocks(init) + Range(e.start, e.Len())
    ensures DisjointData(init + [e]) <==> DisjointData(init) && DataBlocks(init) !! Range(e.start, e.Len())
  {
    hide Range, DataBlocks, DisjointData;
    SingleData(e);
    DataConcat(init, [e]);
  }

  /** Append adds exactly the appended run to the blocks of the file. */
  lemma AppendAddsData(es: seq<Extent>, phys: nat, count: nat)
    requires DisjointData(es) && DataBlocks(es) !! Range(phys, count) && 1 <= count <= MAX_EXTENT_LEN
    ensures DisjointData(AppendExtents(es, phys, count))
    ensures DataBlocks(AppendExtents(es, phys, count)) == DataBlocks(es) + Range(phys, count)
  {
    hide Range, DataBlocks, DisjointData;
    if CanCoalesce(es, phys, count) {
      CoalescedData(es, phys, count);
    } else {
      var e := NewExtent(es, phys, count);
      SingleData(e);
      DataConcat(es, [e]);
    }
  }

  /** The blocks a lookup finds are blocks of the file. */
  lemma {:induction false} FindsData(es: seq<Extent>, l: nat)
    ensures FindPhys(es, l).Some? ==> FindPhys(es, l).value in DataBlocks(es)
  {
    if es != [] {
      var n := |es| - 1;
      FindsData(es[..n], l);
      assert es == es[..n] + [es[n]];
      FindInConcat(es[..n], [es[n]], l);
    }
  }

  /** Every data block of a dense file is found at some logical block. */
  lemma {:induction false} DataIsFound(es: seq<Extent>, c: nat) returns (l: nat)
    requires Dense(es) && c in DataBlocks(es)
    ensures FindPhys(es, l) == Some(c)
  {
    hide Dense, DataBlocks, FindPhys, EndOf;
    LastExtent(es, c);
    var init, e := es[..|es| - 1], es[|es| - 1];
    if c in DataBlocks(init) {
      l := DataIsFound(init, c);
    } else {
      l := e.block + (c - e.start);
      DenseMaps(init, l);
      FindInOne(e, l);
    }
    FindInConcat(init, [e], l);
  }

  lemma LastExtent(es: seq<Extent>, c: nat)
    requires Dense(es) && c in DataBlocks(es)
    ensures es != []
    ensures var init, e := es[..|es| - 1], es[|es| - 1];
            && es == init + [e] && Dense(init) && EndOf(init) == e.block && 1 <= e.rawLen <= MAX_EXTENT_LEN
            && (c in DataBlocks(init) || e.start <= c < e.start + e.rawLen)
  {
  }

  lemma FindInOne(e: Extent, l: nat)
    requires 1 <= e.rawLen <= MAX_EXTENT_LEN && e.block <= l < e.block + e.rawLen
    ensures FindPhys([e], l) == Some(e.start + (l - e.block))
  {
  }

  /** Different logical blocks are found at different physical blocks. */
  lemma {:induction false} FindInjective(es: seq<Extent>, l: nat, l': nat)
    requires DisjointData(es) && l != l' && FindPhys(es, l).Some? && FindPhys(es, l').Some?
    ensures FindPhys(es, l) != FindPhys(es, l')
  {
    hide Range;
    if es != [] {
      var n := |es| - 1;
      assert es == es[..n] + [es[n]];
      FindInConcat(es[..n], [es[n]], l);
      FindInConcat(es[..n], [es[n]], l');
      FindsData(es[..n], l);
      FindsData(es[..n], l');
      if FindPhys(es[..n], l).Some? && FindPhys(es[..n], l').Some? { FindInjective(es[..n], l, l'); }
    }
  }
}

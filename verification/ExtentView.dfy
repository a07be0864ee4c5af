/** The shapes the write path builds: a root of up to four extents, or a root of up to four index
    entries over leaf blocks of up to M extents. Append and truncate as functions on these shapes,
    the invariant they keep over every run, and the number of extents at which append gives up. */
module ExtentView {
  import opened Base
  import opened ExtentNode
  import opened ExtentMap

  /** `leaves` lists the extents leaf by leaf. A shallow tree is one leaf held in the root; in a
      deep tree `keys[i]` is the index key over leaf i. */
  datatype View = View(deep: bool, leaves: seq<seq<Extent>>, keys: seq<nat>)

  function Flatten(leaves: seq<seq<Extent>>): seq<Extent> {
    if leaves == [] then [] else Flatten(leaves[..|leaves| - 1]) + leaves[|leaves| - 1]
  }

  function All(v: View): seq<Extent> { Flatten(v.leaves) }

  const EMPTY: View := View(false, [[]], [])

  datatype AppendError = DepthLimitExceeded

  // ---- append ----

  /** Places a new extent in the last leaf of a deep tree, splitting the leaf if it is full. */
  function AppendDeep(v: View, m: nat, e: Extent): Result<View, AppendError>
    requires v.deep && v.leaves != []
  {
    var n := |v.leaves| - 1;
    var last := v.leaves[n];
    if |last| < m then Ok(v.(leaves := v.leaves[n := last + [e]]))
    else if |v.leaves| >= ROOT_MAX_ENTRIES then Err(DepthLimitExceeded)
    else
      var s := |last| / 2;
      Ok(View(true, v.leaves[n := last[..s]] + [last[s..] + [e]],
              v.keys + [if s < |last| then last[s].block else 0]))
  }

  function AppendView(v: View, m: nat, phys: nat, count: nat): Result<View, AppendError>
    requires v.leaves != []
  {
    var n := |v.leaves| - 1;
    var last := v.leaves[n];
    if CanCoalesce(last, phys, count) then Ok(v.(leaves := v.leaves[n := Coalesced(last, count)]))
    else
      var e := NewExtent(last, phys, count);
      if v.deep then AppendDeep(v, m, e)
      else if |last| < ROOT_MAX_ENTRIES then Ok(v.(leaves := v.leaves[n := last + [e]]))
      else AppendDeep(View(true, [last], [0]), m, e)
  }

  /** The append needs a block for one more node: the run does not coalesce, and the last leaf is full. */
  predicate NeedsNode(v: View, m: nat, phys: nat, count: nat)
    requires v.leaves != []
  {
    var last := v.leaves[|v.leaves| - 1];
    !CanCoalesce(last, phys, count) && |last| >= (if v.deep then m else ROOT_MAX_ENTRIES)
  }

  // ---- truncate ----

  /** Leaf by leaf: drop a leaf whose key is not below `k`, trim the others. At k == 0 every leaf
      ends up empty and is dropped. */
  function TruncLeaves(leaves: seq<seq<Extent>>, keys: seq<nat>, k: nat): (r: (seq<seq<Extent>>, seq<nat>))
    requires |keys| == |leaves|
    ensures |r.0| == |r.1|
  {
    if leaves == [] then ([], [])
    else
      var n := |leaves| - 1;
      var rest := TruncLeaves(leaves[..n], keys[..n], k);
      if k == 0 || keys[n] >= k then rest
      else (rest.0 + [TruncExtents(leaves[n], k)], rest.1 + [keys[n]])
  }

  function TruncView(v: View, k: nat): View
    requires v.deep ==> |v.keys| == |v.leaves|
  {
    if !v.deep then v.(leaves := seq(|v.leaves|, i requires 0 <= i < |v.leaves| => TruncExtents(v.leaves[i], k)))
    else var (leaves, keys) := TruncLeaves(v.leaves, v.keys, k); View(true, leaves, keys)
  }

  // ---- the invariants ----

  /** Keys ascend and each leaf's extents lie between its key and the next one. */
  predicate Keyed(leaves: seq<seq<Extent>>, keys: seq<nat>, hi: nat)
    requires |keys| == |leaves|
  {
    leaves == []
    || (var n := |leaves| - 1;
        && keys[n] <= hi
        && Sorted(leaves[n]) && EndOf(leaves[n]) <= hi && (leaves[n] != [] ==> keys[n] <= leaves[n][0].block)
        && Keyed(leaves[..n], keys[..n], keys[n]))
  }

  /** Fill limits; every leaf of a deep tree holds an extent. */
  predicate Filled(v: View, m: nat) {
    if v.deep then 1 <= |v.leaves| <= ROOT_MAX_ENTRIES && forall i :: 0 <= i < |v.leaves| ==> 1 <= |v.leaves[i]| <= m
    else |v.leaves| == 1 && |v.leaves[0]| <= ROOT_MAX_ENTRIES
  }

  /** A well-formed shape of either depth. */
  predicate WellShaped(v: View, m: nat) {
    && Filled(v, m)
    && |v.keys| == (if v.deep then |v.leaves| else 0)
    && (if v.deep then Keyed(v.leaves, v.keys, U32 - 1) else Sorted(v.leaves[0]) && EndOf(v.leaves[0]) <= U32 - 1)
  }

  /** Each key is exactly the first block of its leaf. */
  predicate KeysExact(v: View) {
    v.deep ==> |v.keys| == |v.leaves|
               && forall i :: 0 <= i < |v.leaves| ==> v.leaves[i] != [] && v.keys[i] == v.leaves[i][0].block
  }

  /** The tree invariant of a dense file. */
  predicate DenseTree(v: View, m: nat) {
    WellShaped(v, m) && Dense(All(v)) && KeysExact(v)
  }

  // ---- flattening ----

  lemma FlattenSnoc(init: seq<seq<Extent>>, leaf: seq<Extent>)
    ensures Flatten(init + [leaf]) == Flatten(init) + leaf
  {
    assert (init + [leaf])[..|init|] == init;
  }

  lemma OneLeaf(es: seq<Extent>)
    ensures Flatten([es]) == es
  {
    FlattenSnoc([], es);
    assert [] + [es] == [es];
  }

  lemma FlattenLast(leaves: seq<seq<Extent>>, leaf: seq<Extent>)
    requires leaves != []
    ensures Flatten(leaves[|leaves| - 1 := leaf]) == Flatten(leaves[..|leaves| - 1]) + leaf
  {
    assert leaves[|leaves| - 1 := leaf] == leaves[..|leaves| - 1] + [leaf];
    FlattenSnoc(leaves[..|leaves| - 1], leaf);
  }

  lemma {:induction false} KeyedFlatten(leaves: seq<seq<Extent>>, keys: seq<nat>, hi: nat)
    requires |keys| == |leaves| && Keyed(leaves, keys, hi)
    ensures Sorted(Flatten(leaves)) && EndOf(Flatten(leaves)) <= hi
    ensures leaves != [] && leaves[|leaves| - 1] != [] ==> EndOf(Flatten(leaves)) == EndOf(leaves[|leaves| - 1])
  {
    if leaves != [] {
      var n := |leaves| - 1;
      KeyedFlatten(leaves[..n], keys[..n], keys[n]);
      ConcatSorted(Flatten(leaves[..n]), leaves[n]);
    }
  }

  /** The shape of a well-formed tree lists sorted extents, and the list ends where its last leaf does. */
  lemma ShapeSorted(v: View, m: nat)
    requires WellShaped(v, m)
    ensures Sorted(All(v)) && EndOf(All(v)) <= U32 - 1 && EndOf(v.leaves[|v.leaves| - 1]) == EndOf(All(v))
  {
    if v.deep {
      KeyedFlatten(v.leaves, v.keys, U32 - 1);
    } else {
      assert v.leaves == [] + [v.leaves[0]];
      FlattenSnoc([], v.leaves[0]);
      assert Flatten([]) + v.leaves[0] == v.leaves[0];
    }
  }

  // ---- append refines the append on the list of all extents ----

  /** Whatever an append does to the shape (coalesce, fill, grow or split), on the list of all
      extents it is `AppendExtents`. */
  lemma AppendFlattens(v: View, m: nat, phys: nat, count: nat)
    requires WellShaped(v, m) && AppendView(v, m, phys, count).Ok?
    ensures All(AppendView(v, m, phys, count).value) == AppendExtents(All(v), phys, count)
  {
    hide Flatten, Coalesced;
    var n := |v.leaves| - 1;
    var last := v.leaves[n];
    SameLastExtent(v, m, phys, count);
    if CanCoalesce(last, phys, count) {
      FlattenLast(v.leaves, last);
      assert v.leaves[n := last] == v.leaves;
      FlattenLast(v.leaves, Coalesced(last, count));
      CoalescedBehind(Flatten(v.leaves[..n]), last, count);
    } else {
      NewExtentFlattens(v, m, NewExtent(last, phys, count));
    }
  }

  /** Append decisions look at the last leaf; the list of all extents would give the same answers. */
  lemma CoalescedBehind(init: seq<Extent>, last: seq<Extent>, count: nat)
    requires last != []
    ensures init + Coalesced(last, count) == Coalesced(init + last, count)
  {
  }

  lemma SameLastExtent(v: View, m: nat, phys: nat, count: nat)
    requires WellShaped(v, m)
    ensures var last := v.leaves[|v.leaves| - 1];
            && CanCoalesce(All(v), phys, count) == CanCoalesce(last, phys, count)
            && NewExtent(All(v), phys, count) == NewExtent(last, phys, count)
  {
    var n := |v.leaves| - 1;
    var init, last := Flatten(v.leaves[..n]), v.leaves[n];
    ShapeSorted(v, m);
    assert All(v) == init + last;
    if last == [] {
      assert n == 0;
    } else {
      LastOfConcat(init, last);
    }
  }

  lemma LastOfConcat(a: seq<Extent>, b: seq<Extent>)
    requires b != []
    ensures (a + b)[|a + b| - 1] == b[|b| - 1]
  {
  }

  lemma NewExtentFlattens(v: View, m: nat, e: Extent)
    requires WellShaped(v, m)
    requires v.deep ==> AppendDeep(v, m, e).Ok?
    requires !v.deep && |v.leaves[0]| >= ROOT_MAX_ENTRIES ==> AppendDeep(View(true, [v.leaves[0]], [0]), m, e).Ok?
    ensures var n := |v.leaves| - 1;
            var v' := if v.deep then AppendDeep(v, m, e).value
                      else if |v.leaves[0]| < ROOT_MAX_ENTRIES then v.(leaves := v.leaves[n := v.leaves[n] + [e]])
                      else AppendDeep(View(true, [v.leaves[0]], [0]), m, e).value;
            All(v') == All(v) + [e]
  {
    var n := |v.leaves| - 1;
    var last, init := v.leaves[n], Flatten(v.leaves[..n]);
    if v.deep {
      AppendDeepFlattens(v, m, e);
    } else if |last| < ROOT_MAX_ENTRIES {
      FlattenLast(v.leaves, last + [e]);
      assert init + (last + [e]) == (init + last) + [e];
    } else {
      assert v.leaves == [last];
      AppendDeepFlattens(View(true, [last], [0]), m, e);
    }
  }

  lemma AppendDeepFlattens(v: View, m: nat, e: Extent)
    requires v.deep && v.leaves != [] && AppendDeep(v, m, e).Ok?
    ensures All(AppendDeep(v, m, e).value) == All(v) + [e]
  {
    var n := |v.leaves| - 1;
    var last, init := v.leaves[n], Flatten(v.leaves[..n]);
    if |last| < m {
      FlattenLast(v.leaves, last + [e]);
      assert init + (last + [e]) == (init + last) + [e];
    } else {
      var s := |last| / 2;
      FlattenLast(v.leaves, last[..s]);
      FlattenSnoc(v.leaves[n := last[..s]], last[s..] + [e]);
      assert last == last[..s] + last[s..];
      assert (init + last[..s]) + (last[s..] + [e]) == (init + last) + [e];
    }
  }

  // ---- append keeps the shape well formed ----

  lemma AppendKeepsShape(v: View, m: nat, phys: nat, count: nat)
    requires WellShaped(v, m) && AppendView(v, m, phys, count).Ok? && m > ROOT_MAX_ENTRIES
    requires EndOf(All(v)) + count < U32 && 1 <= count <= MAX_EXTENT_LEN
    ensures WellShaped(AppendView(v, m, phys, count).value, m)
  {
    hide Sorted, Keyed, Flatten, CanCoalesce;
    ShapeSorted(v, m);
    LastLeafSorted(v, m);
    if CanCoalesce(v.leaves[|v.leaves| - 1], phys, count) {
      hide AppendDeep, WellShaped;
      AppendKeepsOrder(v.leaves[|v.leaves| - 1], phys, count);
      LastGrown(v, m, Coalesced(v.leaves[|v.leaves| - 1], count));
    } else {
      hide AppendView, AppendDeep, WellShaped;
      NewKeepsShape(v, m, phys, count);
    }
  }

  /** The same when the run does not coalesce. */
  lemma NewKeepsShape(v: View, m: nat, phys: nat, count: nat)
    requires WellShaped(v, m) && AppendView(v, m, phys, count).Ok? && m > ROOT_MAX_ENTRIES
    requires var last := v.leaves[|v.leaves| - 1];
             Sorted(last) && EndOf(last) + count < U32 && 1 <= count <= MAX_EXTENT_LEN
             && !CanCoalesce(last, phys, count)
    ensures WellShaped(AppendView(v, m, phys, count).value, m)
  {
    hide Sorted, Keyed, CanCoalesce, AppendDeep;
    var last := v.leaves[|v.leaves| - 1];
    if v.deep {
      hide WellShaped;
      AppendDeepKeepsShape(v, m, NewExtent(last, phys, count));
    } else if |last| < ROOT_MAX_ENTRIES {
      AppendKeepsOrder(last, phys, count);
    } else {
      GrownShape(last, m);
      AppendDeepKeepsShape(View(true, [last], [0]), m, NewExtent(last, phys, count));
    }
  }

  lemma GrownShape(last: seq<Extent>, m: nat)
    requires Sorted(last) && EndOf(last) <= U32 - 1 && 1 <= |last| <= m
    ensures WellShaped(View(true, [last], [0]), m)
  {
    hide Sorted, EndOf;
    var grown := View(true, [last], [0]);
    assert grown.leaves[..0] == [] && Keyed(grown.leaves[..0], grown.keys[..0], 0);
  }

  /** Replacing the last leaf by one with as many extents and the same start. */
  lemma LastGrown(v: View, m: nat, leaf: seq<Extent>)
    requires WellShaped(v, m)
    requires var last := v.leaves[|v.leaves| - 1];
             && |leaf| == |last| && Sorted(leaf) && EndOf(leaf) <= U32 - 1
             && (leaf != [] ==> leaf[0].block == last[0].block)
    ensures WellShaped(v.(leaves := v.leaves[|v.leaves| - 1 := leaf]), m)
  {
    var n := |v.leaves| - 1;
    assert v.leaves[n := leaf][..n] == v.leaves[..n];
  }

  lemma LastLeafSorted(v: View, m: nat)
    requires WellShaped(v, m)
    ensures Sorted(v.leaves[|v.leaves| - 1])
  {
  }

  lemma AppendDeepKeepsShape(v: View, m: nat, e: Extent)
    requires WellShaped(v, m) && v.deep && AppendDeep(v, m, e).Ok? && m >= 2
    requires EndOf(v.leaves[|v.leaves| - 1]) <= e.block && e.Len() >= 1 && e.End() <= U32 - 1
    ensures WellShaped(AppendDeep(v, m, e).value, m)
  {
    hide Sorted, EndOf;
    var n := |v.leaves| - 1;
    var last := v.leaves[n];
    LastLeafSorted(v, m);
    if |last| < m {
      SortedSnoc(last, e);
      assert v.leaves[n := last + [e]][..n] == v.leaves[..n];
    } else {
      var s := |last| / 2;
      SplitSorted(last, s);
      SortedSnoc(last[s..], e);
      SplitKeepsKeyed(v.leaves, v.keys, U32 - 1, s, last[s..] + [e]);
    }
  }

  /** Cutting the last leaf at `s` and adding `tail`, which starts with its extent `s`, as a leaf of its own. */
  lemma SplitKeepsKeyed(leaves: seq<seq<Extent>>, keys: seq<nat>, hi: nat, s: nat, tail: seq<Extent>)
    requires |keys| == |leaves| && leaves != [] && Keyed(leaves, keys, hi)
    requires var last := leaves[|leaves| - 1];
             && 0 < s < |last| && Sorted(last[..s]) && EndOf(last[..s]) <= last[s].block <= hi
             && keys[|leaves| - 1] <= last[s].block
             && tail != [] && tail[0] == last[s] && Sorted(tail) && EndOf(tail) <= hi
    ensures var n := |leaves| - 1;
            Keyed(leaves[n := leaves[n][..s]] + [tail], keys + [leaves[n][s].block], hi)
  {
    var n := |leaves| - 1;
    var cut := leaves[n := leaves[n][..s]];
    assert (cut + [tail])[..n + 1] == cut && (keys + [leaves[n][s].block])[..n + 1] == keys;
    assert cut[..n] == leaves[..n];
  }

  lemma {:induction false} SplitSorted(es: seq<Extent>, s: nat)
    requires Sorted(es) && 0 < s < |es|
    ensures Sorted(es[..s]) && Sorted(es[s..]) && EndOf(es[..s]) <= es[s].block && EndOf(es[s..]) == EndOf(es)
    ensures es[0].block <= es[s].block <= EndOf(es)
  {
    var n := |es| - 1;
    if s < n {
      SplitSorted(es[..n], s);
      assert es[..n][..s] == es[..s] && es[s..][..n - s] == es[..n][s..];
    } else {
      SortedSnoc([], es[n]);
      SortedPairs(es);
      assert es[s..] == [] + [es[n]];
    }
  }

  lemma AppendKeepsKeys(v: View, m: nat, phys: nat, count: nat)
    requires WellShaped(v, m) && KeysExact(v) && Dense(All(v)) && m > ROOT_MAX_ENTRIES
    requires AppendView(v, m, phys, count).Ok?
    ensures KeysExact(AppendView(v, m, phys, count).value)
  {
    hide Keyed, Sorted, Flatten, CanCoalesce, Dense;
    var n := |v.leaves| - 1;
    var last := v.leaves[n];
    if !v.deep && |last| >= ROOT_MAX_ENTRIES {
      assert v.leaves == [last];
      OneLeaf(last);
      DenseStart(last);
    }
  }

  lemma {:induction false} DenseStart(es: seq<Extent>)
    requires Dense(es) && es != []
    ensures es[0].block == 0
  {
    if |es| > 1 { DenseStart(es[..|es| - 1]); }
  }

  /** Append keeps the whole invariant of a dense file. */
  lemma AppendKeepsDenseTree(v: View, m: nat, phys: nat, count: nat)
    requires DenseTree(v, m) && m > ROOT_MAX_ENTRIES && AppendView(v, m, phys, count).Ok?
    requires EndOf(All(v)) + count < U32 && 1 <= count <= MAX_EXTENT_LEN
    ensures DenseTree(AppendView(v, m, phys, count).value, m)
  {
    AppendKeepsShape(v, m, phys, count);
    AppendKeepsKeys(v, m, phys, count);
    AppendFlattens(v, m, phys, count);
    DenseIsSorted(All(v));
    AppendKeepsOrder(All(v), phys, count);
  }

  // ---- truncate refines the truncation of the list of all extents ----

  lemma TruncFlattens(v: View, m: nat, k: nat)
    requires WellShaped(v, m)
    ensures All(TruncView(v, k)) == TruncExtents(All(v), k)
  {
    hide Flatten, TruncExtents, Keyed, Sorted;
    if v.deep {
      hide TruncLeaves;
      WellKeyed(v, m);
      TruncLeavesFlatten(v.leaves, v.keys, U32 - 1, k);
    } else {
      var es := v.leaves[0];
      OneLeaf(es);
      OneLeaf(TruncExtents(es, k));
      assert v.leaves == [es] && TruncView(v, k).leaves == [TruncExtents(es, k)];
    }
  }

  lemma WellKeyed(v: View, m: nat)
    requires WellShaped(v, m) && v.deep
    ensures |v.keys| == |v.leaves| && Keyed(v.leaves, v.keys, U32 - 1)
  {
  }

  lemma {:induction false} TruncLeavesFlatten(leaves: seq<seq<Extent>>, keys: seq<nat>, hi: nat, k: nat)
    requires |keys| == |leaves| && Keyed(leaves, keys, hi)
    ensures Flatten(TruncLeaves(leaves, keys, k).0) == TruncExtents(Flatten(leaves), k)
  {
    if leaves != [] {
      var n := |leaves| - 1;
      var rest := TruncLeaves(leaves[..n], keys[..n], k);
      TruncLeavesFlatten(leaves[..n], keys[..n], keys[n], k);
      TruncConcat(Flatten(leaves[..n]), leaves[n], k);
      if k == 0 || keys[n] >= k {
        StartsFrom(leaves[n]);
        TruncAll(leaves[n], k);
        assert Flatten(rest.0) + [] == Flatten(rest.0);
      } else {
        FlattenSnoc(rest.0, TruncExtents(leaves[n], k));
      }
    }
  }

  /** No extent of a sorted list starts before its first. */
  lemma {:induction false} StartsFrom(es: seq<Extent>)
    requires Sorted(es)
    ensures forall i :: 0 <= i < |es| ==> es[0].block <= es[i].block
  {
    SortedPairs(es);
  }

  // ---- truncate keeps the invariant ----

  lemma {:induction false} TruncKeepsKeyed(leaves: seq<seq<Extent>>, keys: seq<nat>, hi: nat, k: nat)
    requires |keys| == |leaves| && Keyed(leaves, keys, hi)
    ensures var (leaves', keys') := TruncLeaves(leaves, keys, k); Keyed(leaves', keys', hi)
  {
    if leaves != [] {
      var n := |leaves| - 1;
      var rest := TruncLeaves(leaves[..n], keys[..n], k);
      TruncKeepsKeyed(leaves[..n], keys[..n], keys[n], k);
      if k == 0 || keys[n] >= k {
        KeyedWider(rest.0, rest.1, keys[n], hi);
      } else {
        var leaf := TruncExtents(leaves[n], k);
        TruncKeepsOrder(leaves[n], k);
        TruncFirst(leaves[n], k);
        assert (rest.0 + [leaf])[..|rest.0|] == rest.0 && (rest.1 + [keys[n]])[..|rest.0|] == rest.1;
      }
    }
  }

  /** Keys and extents ascend, whatever the leaves hold. */
  predicate Ordered(v: View) {
    && |v.keys| == (if v.deep then |v.leaves| else 0)
    && (if v.deep then Keyed(v.leaves, v.keys, U32 - 1)
        else |v.leaves| == 1 && Sorted(v.leaves[0]) && EndOf(v.leaves[0]) <= U32 - 1)
  }

  /** Truncation at any block keeps the order, even if it leaves an index without leaves. */
  lemma TruncKeepsOrdered(v: View, m: nat, k: nat)
    requires WellShaped(v, m)
    ensures Ordered(v) && Ordered(TruncView(v, k))
  {
    hide TruncLeaves, TruncExtents, Sorted, Keyed;
    if v.deep { TruncKeepsKeyed(v.leaves, v.keys, U32 - 1, k); } else { TruncKeepsOrder(v.leaves[0], k); }
  }

  lemma KeyedWider(leaves: seq<seq<Extent>>, keys: seq<nat>, hi: nat, hi': nat)
    requires |keys| == |leaves| && Keyed(leaves, keys, hi) && hi <= hi'
    ensures Keyed(leaves, keys, hi')
  {
  }

  /** The first extent of a truncated list starts no earlier than before. */
  lemma {:induction false} TruncFirst(es: seq<Extent>, k: nat)
    requires Sorted(es)
    ensures TruncExtents(es, k) != [] ==> es[0].block <= TruncExtents(es, k)[0].block
  {
    if es != [] {
      TruncFirst(es[..|es| - 1], k);
      StartsFrom(es);
    }
  }

  /** With exact keys a leaf survives a truncation at k > 0 only with its first block. */
  lemma {:induction false} TruncKeepsFilled(leaves: seq<seq<Extent>>, keys: seq<nat>, hi: nat, m: nat, k: nat)
    requires |keys| == |leaves| && Keyed(leaves, keys, hi) && k > 0
    requires forall i :: 0 <= i < |leaves| ==> 1 <= |leaves[i]| <= m && keys[i] == leaves[i][0].block
    ensures var (leaves', keys') := TruncLeaves(leaves, keys, k);
            && |leaves'| <= |leaves|
            && (leaves != [] && keys[0] == 0 ==> leaves' != [])
            && forall i :: 0 <= i < |leaves'| ==> 1 <= |leaves'[i]| <= m && keys'[i] == leaves'[i][0].block
  {
    if leaves != [] {
      var n := |leaves| - 1;
      TruncKeepsFilled(leaves[..n], keys[..n], keys[n], m, k);
      TruncKeepsOrder(leaves[n], k);
    }
  }

  lemma {:induction false} FirstKeyZero(leaves: seq<seq<Extent>>, keys: seq<nat>)
    requires |keys| == |leaves| && leaves != [] && Dense(Flatten(leaves))
    requires forall i :: 0 <= i < |leaves| ==> leaves[i] != [] && keys[i] == leaves[i][0].block
    ensures keys[0] == 0
  {
    var n := |leaves| - 1;
    var init, last := Flatten(leaves[..n]), leaves[n];
    DensePrefix(init, last);
    if n > 0 {
      FirstKeyZero(leaves[..n], keys[..n]);
    } else {
      assert init + last == last;
      DenseStart(last);
    }
  }

  lemma {:induction false} DensePrefix(a: seq<Extent>, b: seq<Extent>)
    requires Dense(a + b)
    ensures Dense(a)
  {
    if b == [] {
      assert a + b == a;
    } else {
      assert (a + b)[..|a + b| - 1] == a + b[..|b| - 1];
      DensePrefix(a, b[..|b| - 1]);
    }
  }

  /** Truncate keeps the invariant of a dense file, and reaches an empty deep root only at k == 0. */
  lemma TruncKeepsDenseTree(v: View, m: nat, k: nat)
    requires DenseTree(v, m) && (v.deep ==> k > 0)
    ensures DenseTree(TruncView(v, k), m)
  {
    hide TruncExtents, Sorted, EndOf, Dense, Flatten, TruncLeaves, Keyed;
    TruncFlattens(v, m, k);
    TruncKeepsDense(All(v), k);
    if v.deep {
      TruncKeepsKeyed(v.leaves, v.keys, U32 - 1, k);
      FirstKeyZero(v.leaves, v.keys);
      TruncKeepsFilled(v.leaves, v.keys, U32 - 1, m, k);
    } else {
      TruncKeepsOrder(v.leaves[0], k);
    }
  }

  /** Truncating a deep tree to nothing leaves a deep root without entries. */
  lemma {:induction false} TruncToZero(leaves: seq<seq<Extent>>, keys: seq<nat>)
    requires |keys| == |leaves|
    ensures TruncLeaves(leaves, keys, 0) == ([], [])
  {
    if leaves != [] { TruncToZero(leaves[..|leaves| - 1], keys[..|leaves| - 1]); }
  }

  /** A truncated dense file has no leaf left, so that the next append rejects it, exactly when a deep
      tree was truncated to nothing. */
  lemma EmptiedExactlyAtZero(v: View, m: nat, k: nat)
    requires DenseTree(v, m)
    ensures TruncView(v, k).leaves == [] <==> v.deep && k == 0
  {
    if v.deep && k == 0 { TruncToZero(v.leaves, v.keys); } else { TruncKeepsDenseTree(v, m, k); }
  }

  // ---- runs ----

  datatype Op = Append(phys: nat, count: nat) | Truncate(k: nat)

  predicate OnlyAppends(ops: seq<Op>) { forall op :: op in ops ==> op.Append? }

  /** The operation is one the file system issues: 1 to 32768 blocks, within 32-bit logical
      addresses; a truncation of a deep tree keeps something. */
  predicate Legal(v: View, op: Op) {
    match op
    case Append(_, count) => 1 <= count <= MAX_EXTENT_LEN && EndOf(All(v)) + count < U32
    case Truncate(k) => v.deep ==> k > 0
  }

  function Step(v: View, m: nat, op: Op): Result<View, AppendError>
    requires v.leaves != [] && (v.deep ==> |v.keys| == |v.leaves|)
  {
    match op
    case Append(phys, count) => AppendView(v, m, phys, count)
    case Truncate(k) => Ok(TruncView(v, k))
  }

  /** The operation is legal on `v`, succeeds, and makes `v'` of it. */
  predicate StepsTo(v: View, m: nat, op: Op, v': View) {
    v.leaves != [] && (v.deep ==> |v.keys| == |v.leaves|) && Legal(v, op) && Step(v, m, op) == Ok(v')
  }

  /** The operations succeed one after the other, with `views` before and after each. */
  predicate Runs(views: seq<View>, m: nat, ops: seq<Op>) {
    |views| == |ops| + 1 && forall i :: 0 <= i < |ops| ==> StepsTo(views[i], m, ops[i], views[i + 1])
  }

  lemma StepKeepsDenseTree(v: View, m: nat, op: Op, v': View)
    requires DenseTree(v, m) && StepsTo(v, m, op, v') && m > ROOT_MAX_ENTRIES
    ensures DenseTree(v', m)
  {
    hide DenseTree, AppendView, TruncView;
    match op {
      case Append(phys, count) => AppendKeepsDenseTree(v, m, phys, count);
      case Truncate(k) => TruncKeepsDenseTree(v, m, k);
    }
  }

  /** Every run of successful appends and truncations keeps the invariant at every step: depth at most
      one, fill limits, dense sorted extents, exact keys, no empty leaf. */
  lemma {:induction false} RunKeepsDenseTree(views: seq<View>, m: nat, ops: seq<Op>, i: nat)
    requires Runs(views, m, ops) && DenseTree(views[0], m) && m > ROOT_MAX_ENTRIES && i <= |ops|
    ensures DenseTree(views[i], m)
  {
    hide DenseTree, StepsTo;
    if i > 0 {
      RunKeepsDenseTree(views, m, ops, i - 1);
      StepKeepsDenseTree(views[i - 1], m, ops[i - 1], views[i]);
    }
  }

  lemma EmptyIsDenseTree(m: nat)
    ensures DenseTree(EMPTY, m)
  {
    assert EMPTY.leaves == [] + [[]];
    FlattenSnoc([], []);
  }

  // ---- capacity ----

  /** Only the last leaf of an append-only file is not half full. */
  predicate Packed(v: View, m: nat) {
    v.deep ==> forall i :: 0 <= i < |v.leaves| - 1 ==> |v.leaves[i]| == m / 2
  }

  function Capacity(m: nat): nat { 3 * (m / 2) + m }

  lemma AppendKeepsPacked(v: View, m: nat, phys: nat, count: nat)
    requires Filled(v, m) && Packed(v, m) && AppendView(v, m, phys, count).Ok? && m > ROOT_MAX_ENTRIES
    ensures Packed(AppendView(v, m, phys, count).value, m)
  {
  }

  lemma {:induction false} AppendRunPacked(views: seq<View>, m: nat, ops: seq<Op>, i: nat)
    requires Runs(views, m, ops) && DenseTree(views[0], m) && Packed(views[0], m) && m > ROOT_MAX_ENTRIES
    requires OnlyAppends(ops) && i <= |ops|
    ensures Packed(views[i], m)
  {
    hide DenseTree, Packed, AppendView, Legal;
    if i > 0 {
      AppendRunPacked(views, m, ops, i - 1);
      RunKeepsDenseTree(views, m, ops, i - 1);
      DenseTreeFilled(views[i - 1], m);
      assert StepsTo(views[i - 1], m, ops[i - 1], views[i]);
      AppendKeepsPacked(views[i - 1], m, ops[i - 1].phys, ops[i - 1].count);
    }
  }

  lemma DenseTreeFilled(v: View, m: nat)
    requires DenseTree(v, m)
    ensures Filled(v, m)
  {
  }

  lemma {:induction false} PackedLength(leaves: seq<seq<Extent>>, h: nat)
    requires forall i :: 0 <= i < |leaves| ==> |leaves[i]| == h
    ensures |leaves| == 0 ==> |Flatten(leaves)| == 0
    ensures |leaves| == 1 ==> |Flatten(leaves)| == h
    ensures |leaves| == 2 ==> |Flatten(leaves)| == 2 * h
    ensures |leaves| == 3 ==> |Flatten(leaves)| == 3 * h
  {
    if leaves != [] { PackedLength(leaves[..|leaves| - 1], h); }
  }

  /** An append-only file holds at most 3 * (m / 2) + m extents: the append that would need one more
      is exactly the one that fails. */
  lemma AppendFailsAtCapacity(views: seq<View>, m: nat, ops: seq<Op>, phys: nat, count: nat)
    requires Runs(views, m, ops) && views[0] == EMPTY && OnlyAppends(ops) && m > ROOT_MAX_ENTRIES
    ensures var v := views[|ops|];
            && v.leaves != []
            && (AppendView(v, m, phys, count).Err? <==> |AppendExtents(All(v), phys, count)| > Capacity(m))
  {
    hide StepsTo;
    EmptyIsDenseTree(m);
    AppendRunPacked(views, m, ops, |ops|);
    RunKeepsDenseTree(views, m, ops, |ops|);
    FailsWhenPacked(views[|ops|], m, phys, count);
  }

  lemma FailsWhenPacked(v: View, m: nat, phys: nat, count: nat)
    requires DenseTree(v, m) && Packed(v, m) && m > ROOT_MAX_ENTRIES
    ensures v.leaves != []
    ensures AppendView(v, m, phys, count).Err? <==> |AppendExtents(All(v), phys, count)| > Capacity(m)
  {
    var n := |v.leaves| - 1;
    var last, init := v.leaves[n], v.leaves[..n];
    if v.deep { PackedLength(init, m / 2); } else { assert init == []; }
    assert All(v) == Flatten(init) + last;
    SameLastExtent(v, m, phys, count);
  }

  // ---- room ----

  /** The places that `splits` more leaves bring, `half` each. */
  function SplitRoom(splits: int, half: nat): nat
    decreases splits
  {
    if splits <= 0 then 0 else SplitRoom(splits - 1, half) + half
  }

  /** How many more extents appends can place in a tree of this shape: what the last leaf still takes, and
      half a leaf for every split to come. */
  function Room(v: View, m: nat): int
    requires v.leaves != []
  {
    m - |v.leaves[|v.leaves| - 1]|
    + SplitRoom(if v.deep then ROOT_MAX_ENTRIES - |v.leaves| else ROOT_MAX_ENTRIES - 1, m / 2)
  }

  /** An append fails exactly when there is no room and the run does not coalesce; a success uses up one
      place exactly when it does not coalesce. */
  lemma RoomStep(v: View, m: nat, phys: nat, count: nat)
    requires Filled(v, m) && m > ROOT_MAX_ENTRIES
    ensures v.leaves != [] && Room(v, m) >= 0
    ensures var joins := CanCoalesce(v.leaves[|v.leaves| - 1], phys, count);
            && (AppendView(v, m, phys, count).Err? <==> Room(v, m) == 0 && !joins)
            && (AppendView(v, m, phys, count).Ok? ==>
                  AppendView(v, m, phys, count).value.leaves != []
                  && Room(AppendView(v, m, phys, count).value, m) == Room(v, m) - (if joins then 0 else 1))
  {
    hide CanCoalesce, NewExtent;
  }

  /** Extents placed and places left always add up to the same. */
  lemma RoomConserved(v: View, m: nat, phys: nat, count: nat)
    requires WellShaped(v, m) && m > ROOT_MAX_ENTRIES && v.leaves != [] && AppendView(v, m, phys, count).Ok?
    ensures var v' := AppendView(v, m, phys, count).value;
            v'.leaves != [] && Room(v', m) + |All(v')| == Room(v, m) + |All(v)|
  {
    hide AppendView, Room, Keyed, Sorted, Flatten;
    RoomStep(v, m, phys, count);
    AppendFlattens(v, m, phys, count);
    SameLastExtent(v, m, phys, count);
  }
}

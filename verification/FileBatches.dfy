/** How the blocks of a write are provisioned: which blocks are granted, one batch after the other, as
    steps on shapes of the extent tree and sets of free blocks. Every step is determined by the one before. */
module FileBatches {
  import opened Base
  import opened BlockAlloc
  import opened ExtentMap
  import opened ExtentView
  import opened ExtentAppend

  const EXTENT_BATCH_MAX: nat := 32768

  // ---- one request ----

  /** `most` halved `k` times. */
  function Halved(most: nat, k: nat): nat {
    if k == 0 then most else Halved(most, k - 1) / 2
  }

  /** There is no free run of any of the first `k` of most, most / 2, most / 4, ... blocks. */
  ghost predicate NoneFree(fs: Layout, free: set<nat>, most: nat, k: nat)
    requires Geometry(fs)
  {
    forall j, b: nat :: 0 <= j < k ==> !RunAt(fs, free, b, Halved(most, j))
  }

  /** A request for `most` blocks near `hint` is granted the first of most, most / 2, most / 4, ... blocks
      of which there is a free run, in the nearest such run. */
  ghost predicate Granted(fs: Layout, free: set<nat>, most: nat, hint: nat, start: nat, got: nat)
    requires Geometry(fs)
  {
    && got >= 1 && Nearest(fs, free, got, hint, start)
    && exists k: nat :: got == Halved(most, k) && NoneFree(fs, free, most, k)
  }

  lemma ShorterRun(fs: Layout, free: set<nat>, b: nat, count: nat, shorter: nat)
    requires Geometry(fs) && RunAt(fs, free, b, count) && shorter <= count
    ensures RunAt(fs, free, b, shorter)
  {
    assert Range(b, shorter) <= Range(b, count);
  }

  /** No free run within the request is longer than twice what is granted. */
  lemma GrantIsLarge(fs: Layout, free: set<nat>, most: nat, hint: nat, start: nat, got: nat, b: nat, count: nat)
    requires Geometry(fs) && Granted(fs, free, most, hint, start, got)
    requires RunAt(fs, free, b, count) && count <= most
    ensures count <= 2 * got
  {
    hide RunAt, Nearest;
    var k: nat :| got == Halved(most, k) && NoneFree(fs, free, most, k);
    if k > 0 && count > 2 * got {
      assert Halved(most, k - 1) <= 2 * got + 1;
      ShorterRun(fs, free, b, count, Halved(most, k - 1));
    }
  }

  lemma NearestUnique(fs: Layout, free: set<nat>, count: nat, hint: nat, s: nat, t: nat)
    requires Geometry(fs) && Nearest(fs, free, count, hint, s) && Nearest(fs, free, count, hint, t)
    ensures s == t
  {
    hide RunAt, Passed;
  }

  /** What is granted is determined by the free blocks, the request and the hint. */
  lemma GrantUnique(fs: Layout, free: set<nat>, most: nat, hint: nat, s: nat, got: nat, t: nat, got': nat)
    requires Geometry(fs) && Granted(fs, free, most, hint, s, got) && Granted(fs, free, most, hint, t, got')
    ensures s == t && got == got'
  {
    hide RunAt, Passed;
    var k: nat :| got == Halved(most, k) && NoneFree(fs, free, most, k);
    var k': nat :| got' == Halved(most, k') && NoneFree(fs, free, most, k');
    assert RunAt(fs, free, s, Halved(most, k)) && RunAt(fs, free, t, Halved(most, k'));
    assert k == k';
    NearestUnique(fs, free, got, hint, s, t);
  }

  // ---- one batch ----

  /** The shape of the tree and the free blocks, between two batches. */
  datatype Stage = Stage(shape: View, free: set<nat>)

  /** One batch: the granted run is appended to the tree, and a node block is taken if the append needs one. */
  ghost predicate BatchStep(fs: Layout, m: nat, most: nat, hint: nat, ino: nat, a: Stage, b: Stage, start: nat,
                            got: nat)
    requires Geometry(fs)
  {
    var rest := a.free - Range(start, got);
    && a.shape.leaves != [] && Granted(fs, a.free, most, hint, start, got)
    && AppendView(a.shape, m, start, got) == Ok(b.shape)
    && (if NeedsNode(a.shape, m, start, got) then exists nb :: Nearest(fs, rest, 1, ino, nb) && b.free == rest - {nb}
        else b.free == rest)
  }

  /** Why a batch cannot be made: nothing is free; or the append needs a node, and nothing else is free, or
      the root has no place for it. */
  ghost predicate Refused(fs: Layout, m: nat, most: nat, hint: nat, a: Stage, e: WriteError)
    requires Geometry(fs) && a.shape.leaves != []
  {
    match e
    case Alloc(cause) =>
      cause == NoFreeBlocks
      && (a.free == {} || exists start, got :: Granted(fs, a.free, most, hint, start, got)
                                               && NeedsNode(a.shape, m, start, got) && a.free - Range(start, got) == {})
    case DepthLimit =>
      exists start, got :: Granted(fs, a.free, most, hint, start, got) && AppendView(a.shape, m, start, got).Err?
                           && a.free - Range(start, got) != {}
    case CorruptTree(_) => false
  }

  /** A batch leads to one stage only. */
  lemma StepUnique(fs: Layout, m: nat, most: nat, hint: nat, ino: nat, a: Stage, b: Stage, c: Stage, s: nat, got: nat,
                   t: nat, got': nat)
    requires Geometry(fs) && BatchStep(fs, m, most, hint, ino, a, b, s, got)
    requires BatchStep(fs, m, most, hint, ino, a, c, t, got')
    ensures b == c && s == t && got == got'
  {
    hide Granted, AppendView, NeedsNode, Nearest;
    GrantUnique(fs, a.free, most, hint, s, got, t, got');
    if NeedsNode(a.shape, m, s, got) {
      var rest := a.free - Range(s, got);
      var x :| Nearest(fs, rest, 1, ino, x) && b.free == rest - {x};
      var y :| Nearest(fs, rest, 1, ino, y) && c.free == rest - {y};
      NearestUnique(fs, rest, 1, ino, x, y);
    }
  }

  /** Where a batch can be made it is not refused. */
  lemma StepOrRefused(fs: Layout, m: nat, most: nat, hint: nat, ino: nat, a: Stage, b: Stage, s: nat, got: nat,
                      e: WriteError)
    requires Geometry(fs) && BatchStep(fs, m, most, hint, ino, a, b, s, got)
    ensures !Refused(fs, m, most, hint, a, e)
  {
    hide AppendView, NeedsNode, RunAt, Passed;
    assert RunAt(fs, a.free, s, got);
    RunNotEmpty(fs, a.free, s, got);
    forall t, got' | Granted(fs, a.free, most, hint, t, got') ensures t == s && got' == got {
      GrantUnique(fs, a.free, most, hint, s, got, t, got');
    }
    if NeedsNode(a.shape, m, s, got) {
      var rest := a.free - Range(s, got);
      var nb :| Nearest(fs, rest, 1, ino, nb) && b.free == rest - {nb};
      assert RunAt(fs, rest, nb, 1);
      RunNotEmpty(fs, rest, nb, 1);
    }
  }

  /** A batch is refused for one reason only. */
  lemma RefusedOnce(fs: Layout, m: nat, most: nat, hint: nat, a: Stage, e: WriteError, e': WriteError)
    requires Geometry(fs) && a.shape.leaves != [] && Refused(fs, m, most, hint, a, e)
    requires Refused(fs, m, most, hint, a, e')
    ensures e == e'
  {
    hide AppendView, NeedsNode, RunAt, Passed, Nearest;
    forall s, got, t, got' | Granted(fs, a.free, most, hint, s, got) && Granted(fs, a.free, most, hint, t, got')
      ensures s == t && got == got' && a.free != {}
    {
      GrantUnique(fs, a.free, most, hint, s, got, t, got');
      GrantNotEmpty(fs, a.free, most, hint, s, got);
    }
  }

  lemma GrantNotEmpty(fs: Layout, free: set<nat>, most: nat, hint: nat, start: nat, got: nat)
    requires Geometry(fs) && Granted(fs, free, most, hint, start, got)
    ensures start in free
  {
    hide RunAt, Passed;
    RunNotEmpty(fs, free, start, got);
  }

  lemma RunNotEmpty(fs: Layout, free: set<nat>, b: nat, count: nat)
    requires Geometry(fs) && RunAt(fs, free, b, count) && count >= 1
    ensures b in free
  {
    assert b in Range(b, count);
  }

  // ---- all batches of a write ----

  /** The blocks of a write from `n` on, the end of the file, are requested in chunks: where the chunk of
      block `l` begins. */
  function ChunkStart(n: nat, l: nat): nat
    requires n <= l
  {
    n + (l - n) / EXTENT_BATCH_MAX * EXTENT_BATCH_MAX
  }

  /** How many blocks are requested at block `l`: the rest of its chunk, up to block `last`. */
  function MostAt(n: nat, last: nat, l: nat): nat
    requires n <= l <= last
  {
    Min(last + 1, ChunkStart(n, l) + EXTENT_BATCH_MAX) - l
  }

  /** The hint for the chunk of block `l`: its start, or the size of the file in blocks if that is more. */
  function HintAt(sizeBlocks: nat, n: nat, l: nat): nat
    requires n <= l
  {
    Max(sizeBlocks, ChunkStart(n, l))
  }

  lemma SameChunk(n: nat, c: nat, l: nat)
    requires n <= c <= l < c + EXTENT_BATCH_MAX && ChunkStart(n, c) == c
    ensures ChunkStart(n, l) == c
  {
  }

  lemma NextChunk(n: nat, c: nat)
    requires n <= c && ChunkStart(n, c) == c
    ensures ChunkStart(n, c + EXTENT_BATCH_MAX) == c + EXTENT_BATCH_MAX
  {
  }

  /** The stages of a write and the run placed between each and the next. */
  datatype Trace = Trace(stages: seq<Stage>, runs: seq<(nat, nat)>) {
    predicate Sound() { |stages| == |runs| + 1 }

    /** Where the batches have led so far. */
    function Last(): Stage
      requires Sound()
    {
      stages[|runs|]
    }

    function Extended(run: (nat, nat), stage: Stage): Trace { Trace(stages + [stage], runs + [run]) }
  }

  /** The stages follow from each other batch by batch: at each the request is for the block at the end of
      the file and those behind it. */
  ghost predicate Provisions(fs: Layout, m: nat, n: nat, last: nat, sizeBlocks: nat, ino: nat, t: Trace)
    requires Geometry(fs)
  {
    && t.Sound()
    && forall i :: 0 <= i < |t.runs| ==>
      Follows(fs, m, n, last, sizeBlocks, ino, t.stages[i], t.stages[i + 1], t.runs[i])
  }

  ghost predicate Follows(fs: Layout, m: nat, n: nat, last: nat, sizeBlocks: nat, ino: nat, a: Stage, b: Stage,
                          run: (nat, nat))
    requires Geometry(fs)
  {
    var l := EndOf(All(a.shape));
    && n <= l <= last
    && BatchStep(fs, m, MostAt(n, last, l), HintAt(sizeBlocks, n, l), ino, a, b, run.0, run.1)
  }

  /** The batch after the last stage cannot be made, for this reason. */
  ghost predicate Stuck(fs: Layout, m: nat, n: nat, last: nat, sizeBlocks: nat, t: Trace, e: WriteError)
    requires Geometry(fs) && t.Sound()
  {
    var a := t.Last();
    var l := EndOf(All(a.shape));
    n <= l <= last && a.shape.leaves != [] && Refused(fs, m, MostAt(n, last, l), HintAt(sizeBlocks, n, l), a, e)
  }

  lemma OneStage(fs: Layout, m: nat, n: nat, last: nat, sizeBlocks: nat, ino: nat, s: Stage)
    requires Geometry(fs)
    ensures Trace([s], []).Sound() && Trace([s], []).Last() == s && Trace([s], []).stages[0] == s
    ensures Provisions(fs, m, n, last, sizeBlocks, ino, Trace([s], []))
  {
  }

  lemma OneMoreStage(fs: Layout, m: nat, n: nat, last: nat, sizeBlocks: nat, ino: nat, t: Trace, run: (nat, nat),
                     s: Stage)
    requires Geometry(fs) && Provisions(fs, m, n, last, sizeBlocks, ino, t)
    requires Follows(fs, m, n, last, sizeBlocks, ino, t.Last(), s, run)
    ensures Provisions(fs, m, n, last, sizeBlocks, ino, t.Extended(run, s)) && t.Extended(run, s).Last() == s
  {
    hide Follows;
  }

  /** A write has one trace: of two from the same stage one goes on where the other ends. */
  lemma {:induction false} TraceUnique(fs: Layout, m: nat, n: nat, last: nat, sizeBlocks: nat, ino: nat, t: Trace,
                                       u: Trace, i: nat)
    requires Geometry(fs) && Provisions(fs, m, n, last, sizeBlocks, ino, t)
    requires Provisions(fs, m, n, last, sizeBlocks, ino, u)
    requires t.stages[0] == u.stages[0] && i <= |t.runs| && i <= |u.runs|
    ensures t.stages[i] == u.stages[i] && t.runs[..i] == u.runs[..i]
  {
    hide BatchStep;
    if i > 0 {
      TraceUnique(fs, m, n, last, sizeBlocks, ino, t, u, i - 1);
      var l := EndOf(All(t.stages[i - 1].shape));
      assert Follows(fs, m, n, last, sizeBlocks, ino, t.stages[i - 1], t.stages[i], t.runs[i - 1]);
      assert Follows(fs, m, n, last, sizeBlocks, ino, u.stages[i - 1], u.stages[i], u.runs[i - 1]);
      StepUnique(fs, m, MostAt(n, last, l), HintAt(sizeBlocks, n, l), ino, t.stages[i - 1], t.stages[i], u.stages[i],
                 t.runs[i - 1].0, t.runs[i - 1].1, u.runs[i - 1].0, u.runs[i - 1].1);
      assert t.runs[..i] == t.runs[..i - 1] + [t.runs[i - 1]] && u.runs[..i] == u.runs[..i - 1] + [u.runs[i - 1]];
    }
  }

  /** Where a write gets stuck no trace of it goes on. */
  lemma StuckIsFinal(fs: Layout, m: nat, n: nat, last: nat, sizeBlocks: nat, ino: nat, t: Trace, u: Trace,
                     e: WriteError)
    requires Geometry(fs) && Provisions(fs, m, n, last, sizeBlocks, ino, t)
    requires Provisions(fs, m, n, last, sizeBlocks, ino, u) && t.stages[0] == u.stages[0]
    requires Stuck(fs, m, n, last, sizeBlocks, t, e)
    ensures |u.runs| <= |t.runs|
  {
    hide BatchStep, Refused;
    var i := |t.runs|;
    if i < |u.runs| {
      TraceUnique(fs, m, n, last, sizeBlocks, ino, t, u, i);
      var l := EndOf(All(u.stages[i].shape));
      assert Follows(fs, m, n, last, sizeBlocks, ino, u.stages[i], u.stages[i + 1], u.runs[i]);
      StepOrRefused(fs, m, MostAt(n, last, l), HintAt(sizeBlocks, n, l), ino, u.stages[i], u.stages[i + 1],
                    u.runs[i].0, u.runs[i].1, e);
    }
  }
}

/** The state of a running graph load as a value, the invariant every step keeps and
    the steps themselves (GraphLoadContext,
    src/elf/linking/elf32_dependency_loader.cpp:164-331). */
module LoadContexts {
  import opened Words
  import opened Loader
  import opened Objects
  import opened Graphs
  import opened Placement
  import opened DependencyResolver

  datatype Source = Source(identity: Name, image: seq<u8>)

  datatype ObjectState = Discovered | Loading | Loaded

  datatype LoadOptions = LoadOptions(maxObjects: u32, maxDepth: u32, maxOccurrences: nat, maxImageBytes: nat,
                                     maxTotalBytes: nat, maxStringBytes: u32, placement: Window)

  /** One dependency handed over by the provider, and who asked for it. */
  datatype Acquisition = Acquisition(requester: Name, dependency: Dependency)

  /** The fields of the context and, for the proofs, everything acquired so far, in order. */
  datatype Context = Context(objects: Graph, indices: map<Name, nat>, states: seq<ObjectState>, loads: seq<Load>,
                             occurrences: nat, total: nat, acquired: seq<Acquisition>)

  /** What stays fixed during one load: the options, the provider and its request count at the
      start, the root and the index it gets. */
  datatype Run = Run(options: LoadOptions, answer: Answering, calls: nat, root: Source, first: nat)

  // ----------------------------------------------------------------- what was acquired

  function LogBytes(log: seq<Acquisition>): nat {
    if log == [] then 0 else LogBytes(log[..|log| - 1]) + |log[|log| - 1].dependency.image|
  }

  /** Entry `k` is the answer to request `k` of this load, under the byte limit left at that time. */
  ghost predicate Answered(r: Run, log: seq<Acquisition>, k: nat)
    requires k < |log|
  {
    var left := r.options.maxTotalBytes - |r.root.image| - LogBytes(log[..k]);
    left >= 0 && Answer(r.answer, r.calls + k, log[k].requester, r.options.maxImageBytes, left, log[k].dependency)
  }

  ghost predicate GoodLog(r: Run, log: seq<Acquisition>) {
    && |log| <= r.options.maxOccurrences && |r.root.image| + LogBytes(log) <= r.options.maxTotalBytes
    && forall k :: 0 <= k < |log| ==> Answered(r, log, k)
  }

  /** The image was handed over under this identity. */
  predicate Handed(log: seq<Acquisition>, identity: Name, image: seq<u8>) {
    exists k :: 0 <= k < |log| && log[k].dependency.identity == identity && log[k].dependency.image == image
  }

  /** The requests of one object. */
  function Block(requester: Name, ds: seq<Dependency>): (b: seq<Acquisition>)
    ensures |b| == |ds| && forall k :: 0 <= k < |ds| ==> b[k] == Acquisition(requester, ds[k])
  {
    seq(|ds|, k requires 0 <= k < |ds| => Acquisition(requester, ds[k]))
  }

  lemma {:induction false} LogBytesBlock(log: seq<Acquisition>, requester: Name, ds: seq<Dependency>)
    ensures LogBytes(log + Block(requester, ds)) == LogBytes(log) + Acquired(ds)
    decreases |ds|
  {
    hide Acquired, Block;
    var all := log + Block(requester, ds);
    if ds == [] {
      assert all == log;
      NothingAcquired();
      return;
    }
    var n := |ds| - 1;
    LogBytesBlock(log, requester, ds[..n]);
    AcquiredPush(ds[..n], ds[n]);
    assert ds[..n] + [ds[n]] == ds;
    assert all[..|all| - 1] == log + Block(requester, ds[..n]);
    assert all[|all| - 1] == Acquisition(requester, ds[n]);
  }

  lemma {:induction false} NothingAcquired()
    ensures Acquired([]) == 0
  {
  }

  lemma {:induction false} AnsweredLater(r: Run, log: seq<Acquisition>, more: seq<Acquisition>, k: nat)
    requires k < |log| && Answered(r, log, k)
    ensures Answered(r, log + more, k)
  {
    hide LogBytes, Answer;
    assert (log + more)[..k] == log[..k];
  }

  lemma {:induction false} AnsweredBlock(r: Run, log: seq<Acquisition>, requester: Name, name: Name, ds: seq<Dependency>, j: nat)
    requires j < |ds| && |r.root.image| + LogBytes(log) <= r.options.maxTotalBytes
    requires GoodDependency(r.answer, r.calls + |log| + j, requester, name, r.options.maxImageBytes,
                            r.options.maxTotalBytes - |r.root.image| - LogBytes(log), ds, j)
    ensures Answered(r, log + Block(requester, ds), |log| + j)
  {
    hide LogBytes, Answer, Acquired;
    var all := log + Block(requester, ds);
    assert all[..|log| + j] == log + Block(requester, ds[..j]);
    LogBytesBlock(log, requester, ds[..j]);
    assert all[|log| + j] == Acquisition(requester, ds[j]);
  }

  /** A resolved block extends a good log. */
  lemma {:induction false} GoodLogBlock(r: Run, log: seq<Acquisition>, requester: Name, needed: seq<Name>, ds: seq<Dependency>)
    requires GoodLog(r, log) && |ds| == |needed| && |log| + |ds| <= r.options.maxOccurrences
    requires var left := r.options.maxTotalBytes - |r.root.image| - LogBytes(log);
             && Acquired(ds) <= left
             && forall k :: 0 <= k < |ds| ==>
                  GoodDependency(r.answer, r.calls + |log| + k, requester, needed[k], r.options.maxImageBytes, left, ds, k)
    ensures GoodLog(r, log + Block(requester, ds))
  {
    hide Answered, GoodDependency, LogBytes, Acquired;
    var all := log + Block(requester, ds);
    LogBytesBlock(log, requester, ds);
    forall k | 0 <= k < |all|
      ensures Answered(r, all, k)
    {
      if k < |log| {
        AnsweredLater(r, log, Block(requester, ds), k);
      } else {
        AnsweredBlock(r, log, requester, needed[k - |log|], ds, k - |log|);
      }
    }
  }

  // ------------------------------------------------------------------------ the invariant

  /** The index is the inverse of the identities; identities are unique. */
  ghost predicate Indexed(g: Graph, indices: map<Name, nat>) {
    && (forall i :: 0 <= i < |g| ==> g[i].identity != [] && g[i].identity in indices && indices[g[i].identity] == i)
    && (forall id :: id in indices ==> indices[id] < |g| && g[indices[id]].identity == id)
  }

  ghost predicate GoodEdges(g: Graph) {
    forall i, k :: 0 <= i < |g| && 0 <= k < |g[i].dependencies| ==>
      g[i].dependencies[k].requestedName != [] && g[i].dependencies[k].target < |g|
  }

  /** Request `k` of an object is for its `k`-th needed name. */
  ghost predicate AskFollows(log: seq<Acquisition>, o: Object, off: nat, k: nat)
    requires k < |o.strings.needed| && off + |o.strings.needed| <= |log|
  {
    log[off + k].requester == o.identity && log[off + k].dependency.requestedName == o.strings.needed[k]
  }

  /** Edge `k` of object `i` leads to what was handed over for its `k`-th needed name. */
  ghost predicate EdgeFollows(log: seq<Acquisition>, g: Graph, i: nat, off: nat, k: nat)
    requires i < |g| && k < |g[i].dependencies| <= |g[i].strings.needed| && off + |g[i].strings.needed| <= |log|
  {
    var e, d := g[i].dependencies[k], log[off + k].dependency;
    e.requestedName == g[i].strings.needed[k] && e.target < |g| && g[e.target].identity == d.identity && g[e.target].image == d.image
  }

  /** Object `i` asked for its needed names, in order, from log entry `off` on; its edges are
      the answers to the first of them. */
  ghost predicate FollowsAt(log: seq<Acquisition>, g: Graph, i: nat, off: nat) {
    && i < |g| && off + |g[i].strings.needed| <= |log| && |g[i].dependencies| <= |g[i].strings.needed|
    && (forall k :: 0 <= k < |g[i].strings.needed| ==> AskFollows(log, g[i], off, k))
    && (forall k :: 0 <= k < |g[i].dependencies| ==> EdgeFollows(log, g, i, off, k))
  }

  ghost predicate Follows(log: seq<Acquisition>, g: Graph, i: nat) {
    exists off :: FollowsAt(log, g, i, off)
  }

  ghost predicate Rooted(g: Graph, first: nat) {
    forall i: nat :: first <= i < |g| ==> Reaches(g, first, i)
  }

  /** The recorded loads are the loads of the new objects. */
  ghost predicate LoadsMatch(c: Context, first: nat) {
    && (forall l :: l in c.loads ==> exists i :: first <= i < |c.objects| && c.objects[i].load == Some(l))
    && (forall i :: first <= i < |c.objects| && c.objects[i].load.Some? ==> c.objects[i].load.value in c.loads)
  }

  function ImageBytes(g: Graph, first: nat): nat
    decreases |g|
  {
    if |g| <= first then 0 else ImageBytes(g[..|g| - 1], first) + |g[|g| - 1].image|
  }

  /** The needed names of the new objects, except those of the object at `busy`. */
  function NeededTotal(g: Graph, first: nat, busy: int): nat
    decreases |g|
  {
    if |g| <= first then 0
    else NeededTotal(g[..|g| - 1], first, busy) + if |g| - 1 == busy then 0 else |g[|g| - 1].strings.needed|
  }

  /** Bytes counted but not yet owned by a new object. */
  function Slack(r: Run, c: Context): int { c.total - ImageBytes(c.objects, r.first) }

  /** Object `i`: untouched until it is loaded; then, unless it is still being prepared, it has
      asked for its names and follows the answers; complete when it is Loaded. */
  ghost predicate ObjectInvariant(c: Context, i: nat, busy: int)
    requires i < |c.objects| == |c.states|
  {
    var o := c.objects[i];
    && (c.states[i] == Discovered ==> o.load.None?)
    && (o.load.None? ==> o == NewObject(o.identity, o.image) && c.states[i] != Loaded)
    && (o.load.Some? && i != busy ==> Follows(c.acquired, c.objects, i))
    && (c.states[i] == Loaded ==> i != busy && |o.dependencies| == |o.strings.needed|)
  }

  ghost predicate StateInvariant(r: Run, c: Context, busy: int) {
    && |c.states| == |c.objects|
    && (forall i :: 0 <= i < r.first && i < |c.objects| ==> c.states[i] == Loaded)
    && (forall i :: r.first <= i < |c.objects| ==> ObjectInvariant(c, i, busy))
    && (busy != -1 ==> && r.first <= busy < |c.objects| && c.states[busy] == Loading && c.objects[busy].load.Some?
                       && c.objects[busy].dependencies == [])
  }

  /** The first new object is the root; the others were handed over by the provider. */
  ghost predicate Provided(r: Run, c: Context)
    requires r.first < |c.objects|
  {
    && c.objects[r.first].identity == r.root.identity && c.objects[r.first].image == r.root.image
    && forall i :: r.first < i < |c.objects| ==> Handed(c.acquired, c.objects[i].identity, c.objects[i].image)
  }

  /** Every needed name of a prepared object was asked for once, and all bytes are accounted for. */
  ghost predicate Accounts(r: Run, c: Context, busy: int) {
    && GoodLog(r, c.acquired)
    && c.occurrences == |c.acquired| == NeededTotal(c.objects, r.first, busy)
    && c.total == |r.root.image| + LogBytes(c.acquired)
    && |c.objects| <= r.options.maxObjects && Slack(r, c) >= 0
  }

  /** `busy` is the object that is loaded but has not asked for its names yet, or -1. */
  ghost predicate Invariant(r: Run, c: Context, busy: int) {
    && r.first < |c.objects|
    && Indexed(c.objects, c.indices)
    && GoodEdges(c.objects)
    && StateInvariant(r, c, busy)
    && Provided(r, c)
    && Rooted(c.objects, r.first)
    && LoadsMatch(c, r.first)
    && Accounts(r, c, busy)
  }

  // ---------------------------------------------------------------------------- progress

  /** Edges are only added. */
  ghost predicate EdgesKept(g: Graph, h: Graph) {
    forall a: nat, b: nat :: Adjacent(g, a, b) ==> Adjacent(h, a, b)
  }

  lemma {:induction false} EdgesKeptTransitive(g: Graph, h: Graph, k: Graph)
    requires EdgesKept(g, h) && EdgesKept(h, k)
    ensures EdgesKept(g, k)
  {
  }

  lemma {:induction false} EdgesKeptSelf(g: Graph)
    ensures EdgesKept(g, g)
  {
  }

  lemma {:induction false} PathKept(g: Graph, h: Graph, p: seq<nat>, u: nat, w: nat)
    requires EdgesKept(g, h) && IsPath(g, p, u, w)
    ensures IsPath(h, p, u, w)
  {
    forall k | 0 <= k < |p| - 1 ensures Adjacent(h, p[k], p[k + 1]) {
      assert Adjacent(g, p[k], p[k + 1]);
    }
  }

  /** Objects keep their identity and image. */
  ghost predicate SameSources(g: Graph, h: Graph) {
    |g| <= |h| && forall i :: 0 <= i < |g| ==> h[i].identity == g[i].identity && h[i].image == g[i].image
  }

  /** Objects, edges and acquisitions are only added, identities and images stay, and the
      objects before the root are left alone. */
  ghost predicate Onward(r: Run, c: Context, d: Context) {
    && SameSources(c.objects, d.objects) && EdgesKept(c.objects, d.objects) && c.acquired <= d.acquired
    && r.first <= |c.objects| && d.objects[..r.first] == c.objects[..r.first]
  }

  lemma {:induction false} OnwardTransitive(r: Run, c: Context, d: Context, e: Context)
    requires Onward(r, c, d) && Onward(r, d, e)
    ensures Onward(r, c, e)
  {
    hide EdgesKept;
    EdgesKeptTransitive(c.objects, d.objects, e.objects);
  }

  /** Onward; besides, an object that is not waiting to be loaded is left alone, except the one
      at `at`, which may also be Loading afterwards; nothing new is left waiting. */
  ghost predicate Progress(c: Context, c': Context, at: int) {
    && |c.objects| == |c.states| && |c'.objects| == |c'.states|
    && SameSources(c.objects, c'.objects)
    && (forall i :: 0 <= i < |c.objects| && c.states[i] != Discovered && i != at ==>
          c'.objects[i] == c.objects[i] && c'.states[i] == c.states[i])
    && (forall i :: 0 <= i < |c'.objects| && c'.states[i] == Discovered ==> i < |c.objects| && c.states[i] == Discovered)
    && (forall i :: 0 <= i < |c'.objects| && c'.states[i] == Loading && i != at ==> i < |c.objects| && c.states[i] == Loading)
    && EdgesKept(c.objects, c'.objects) && c.acquired <= c'.acquired
  }

  lemma {:induction false} ProgressTransitive(c: Context, d: Context, e: Context, at: int)
    requires Progress(c, d, at) && Progress(d, e, at)
    ensures Progress(c, e, at)
  {
    hide EdgesKept;
    EdgesKeptTransitive(c.objects, d.objects, e.objects);
  }

  /** Progress with no exception is progress with one. */
  lemma {:induction false} ProgressWeaken(c: Context, d: Context, at: int)
    requires Progress(c, d, -1)
    ensures Progress(c, d, at)
  {
    hide EdgesKept;
  }

  lemma {:induction false} ProgressSelf(c: Context, at: int)
    requires |c.objects| == |c.states|
    ensures Progress(c, c, at)
  {
    hide EdgesKept;
    EdgesKeptSelf(c.objects);
  }

  /** Progress goes onward: objects before the root are Loaded and so never touched. */
  lemma {:induction false} ProgressOnward(r: Run, c: Context, d: Context, at: int)
    requires Progress(c, d, at) && r.first <= |c.objects| && (at < 0 || r.first <= at)
    requires forall i :: 0 <= i < r.first ==> c.states[i] == Loaded
    ensures Onward(r, c, d)
  {
    hide EdgesKept;
  }

  /** What progress says of one object. */
  lemma {:induction false} ProgressSame(c: Context, d: Context, at: int, i: nat)
    requires i < |c.objects| == |c.states| && Progress(c, d, at)
    ensures SameSources(c.objects, d.objects) && |d.objects| == |d.states| && c.acquired <= d.acquired
    ensures at != i && c.states[i] != Discovered ==> d.objects[i] == c.objects[i] && d.states[i] == c.states[i]
    ensures c.states[i] != Discovered ==> d.states[i] != Discovered
  {
    hide EdgesKept;
  }

  // ----------------------------------------------------------------------- small lemmas

  lemma {:induction false} ImageBytesSame(g: Graph, h: Graph, first: nat)
    requires |g| == |h| && forall i :: 0 <= i < |g| ==> g[i].image == h[i].image
    ensures ImageBytes(g, first) == ImageBytes(h, first)
    decreases |g|
  {
    if |g| > first {
      ImageBytesSame(g[..|g| - 1], h[..|h| - 1], first);
    }
  }

  /** Only the names of the objects other than `busy` matter. */
  lemma {:induction false} NeededTotalSame(g: Graph, h: Graph, first: nat, busy: int)
    requires |g| == |h| && forall i :: 0 <= i < |g| && i != busy ==> g[i].strings == h[i].strings
    ensures NeededTotal(g, first, busy) == NeededTotal(h, first, busy)
    decreases |g|
  {
    if |g| > first {
      NeededTotalSame(g[..|g| - 1], h[..|h| - 1], first, busy);
    }
  }

  lemma {:induction false} NeededTotalSettle(g: Graph, first: nat, i: nat)
    requires first <= i < |g|
    ensures NeededTotal(g, first, -1) == NeededTotal(g, first, i) + |g[i].strings.needed|
    decreases |g|
  {
    var n := |g| - 1;
    if i < n {
      NeededTotalSettle(g[..n], first, i);
    } else {
      NeededTotalBeyond(g[..n], first, i);
    }
  }

  lemma {:induction false} NeededTotalBeyond(g: Graph, first: nat, i: nat)
    requires |g| <= i
    ensures NeededTotal(g, first, -1) == NeededTotal(g, first, i)
    decreases |g|
  {
    if |g| > first {
      NeededTotalBeyond(g[..|g| - 1], first, i);
    }
  }

  lemma {:induction false} ReachesGrow(g: Graph, h: Graph, u: nat, w: nat)
    requires Reaches(g, u, w) && EdgesKept(g, h)
    ensures Reaches(h, u, w)
  {
    var p :| IsPath(g, p, u, w);
    PathKept(g, h, p, u, w);
  }

  /** An object keeps following while its names and edges stay and the log only grows. */
  lemma {:induction false} FollowsAtKept(log: seq<Acquisition>, g: Graph, log': seq<Acquisition>, h: Graph, i: nat, off: nat)
    requires FollowsAt(log, g, i, off) && log <= log' && SameSources(g, h)
    requires h[i].dependencies == g[i].dependencies && h[i].strings == g[i].strings
    ensures FollowsAt(log', h, i, off)
  {
    forall k | 0 <= k < |h[i].strings.needed|
      ensures AskFollows(log', h[i], off, k)
    {
      assert AskFollows(log, g[i], off, k);
    }
    forall k | 0 <= k < |h[i].dependencies|
      ensures EdgeFollows(log', h, i, off, k)
    {
      assert EdgeFollows(log, g, i, off, k);
    }
  }

  lemma {:induction false} FollowsKept(log: seq<Acquisition>, g: Graph, log': seq<Acquisition>, h: Graph, i: nat)
    requires Follows(log, g, i) && log <= log' && SameSources(g, h)
    requires h[i].dependencies == g[i].dependencies && h[i].strings == g[i].strings
    ensures Follows(log', h, i)
  {
    hide FollowsAt;
    var off :| FollowsAt(log, g, i, off);
    FollowsIndex(log, g, i, off);
    FollowsAtKept(log, g, log', h, i, off);
  }

  lemma {:induction false} FollowsIndex(log: seq<Acquisition>, g: Graph, i: nat, off: nat)
    requires FollowsAt(log, g, i, off)
    ensures i < |g|
  {
  }

  lemma {:induction false} HandedKept(log: seq<Acquisition>, log': seq<Acquisition>, identity: Name, image: seq<u8>)
    requires Handed(log, identity, image) && log <= log'
    ensures Handed(log', identity, image)
  {
    var k :| 0 <= k < |log| && log[k].dependency.identity == identity && log[k].dependency.image == image;
    assert log'[k] == log[k];
  }

  // --------------------------------------------------------------- changes to one object

  /** `d` keeps the states of `c` and every object but the loading one at `i`; it may add waiting
      objects. */
  ghost predicate OnlyAt(c: Context, d: Context, i: nat) {
    && |c.objects| == |c.states| <= |d.objects| == |d.states| && i < |c.objects| && c.states[i] == Loading
    && SameSources(c.objects, d.objects) && c.acquired <= d.acquired
    && (forall j :: 0 <= j < |c.objects| && j != i ==> d.objects[j] == c.objects[j])
    && (forall j :: 0 <= j < |c.objects| ==> d.states[j] == c.states[j])
    && (forall j :: |c.objects| <= j < |d.objects| ==>
          d.states[j] == Discovered && d.objects[j] == NewObject(d.objects[j].identity, d.objects[j].image))
    && EdgesKept(c.objects, d.objects)
  }

  /** The states are right again if the object at `i` is. */
  lemma {:induction false} OnlyAtStates(r: Run, c: Context, busy: int, d: Context, busy': int, i: nat)
    requires StateInvariant(r, c, busy) && OnlyAt(c, d, i) && r.first <= i
    requires (busy == -1 || busy == i) && (busy' == -1 || busy' == i)
    requires d.objects[i].load.Some?
    requires busy' == -1 ==> Follows(d.acquired, d.objects, i)
    requires busy' == i ==> d.objects[i].dependencies == []
    ensures StateInvariant(r, d, busy')
  {
    hide Follows, EdgesKept;
    forall j | r.first <= j < |d.objects|
      ensures ObjectInvariant(d, j, busy')
    {
      if j < |c.objects| && j != i {
        assert ObjectInvariant(c, j, busy);
        if c.objects[j].load.Some? {
          FollowsKept(c.acquired, c.objects, d.acquired, d.objects, j);
        }
      }
    }
  }

  /** Loads still match when the object at `i` keeps its load or gets the one new load. */
  lemma {:induction false} OnlyAtLoads(first: nat, c: Context, d: Context, i: nat)
    requires LoadsMatch(c, first) && OnlyAt(c, d, i) && first <= i
    requires (d.loads == c.loads && d.objects[i].load == c.objects[i].load)
             || (c.objects[i].load.None? && d.objects[i].load.Some? && d.loads == c.loads + [d.objects[i].load.value])
    ensures LoadsMatch(d, first)
  {
    hide EdgesKept;
    forall l | l in d.loads
      ensures exists j :: first <= j < |d.objects| && d.objects[j].load == Some(l)
    {
      if l in c.loads {
        var j :| first <= j < |c.objects| && c.objects[j].load == Some(l);
        assert d.objects[j].load == Some(l);
      } else {
        assert d.objects[i].load == Some(l);
      }
    }
  }

  lemma {:induction false} OnlyAtProvided(r: Run, c: Context, d: Context, i: nat)
    requires r.first < |c.objects| && Provided(r, c) && OnlyAt(c, d, i) && |d.objects| == |c.objects|
    ensures Provided(r, d)
  {
    hide Handed, EdgesKept;
    forall j | r.first < j < |d.objects|
      ensures Handed(d.acquired, d.objects[j].identity, d.objects[j].image)
    {
      HandedKept(c.acquired, d.acquired, c.objects[j].identity, c.objects[j].image);
    }
  }

  lemma {:induction false} OnlyAtProgress(c: Context, d: Context, i: nat)
    requires OnlyAt(c, d, i) && |d.objects| == |c.objects|
    ensures Progress(c, d, i)
  {
    hide EdgesKept;
  }

  // --------------------------------------------------------------------------- the steps

  function NewObject(identity: Name, image: seq<u8>): Object {
    Object(identity, image, None, [], NO_METADATA, Strings(None, []), [])
  }

  /** Object `i` starts loading. */
  function Begun(c: Context, i: nat): Context
    requires i < |c.states|
  {
    c.(states := c.states[i := Loading])
  }

  lemma {:induction false} BegunKeeps(r: Run, c: Context, i: nat)
    requires Invariant(r, c, -1) && r.first <= i < |c.objects| && c.states[i] == Discovered
    ensures Invariant(r, Begun(c, i), -1) && Progress(c, Begun(c, i), i) && Slack(r, Begun(c, i)) == Slack(r, c)
  {
    hide Indexed, GoodEdges, Rooted, Follows, EdgesKept, NewObject, GoodLog, Handed, NeededTotal, ImageBytes, LogBytes;
    EdgesKeptSelf(c.objects);
    forall j | r.first <= j < |c.objects|
      ensures ObjectInvariant(Begun(c, i), j, -1)
    {
      assert ObjectInvariant(c, j, -1);
    }
  }

  /** Object `i`, loading, is replaced by `o`; a new load is recorded. */
  function Replaced(c: Context, i: nat, o: Object, more: seq<Load>): Context
    requires i < |c.objects|
  {
    c.(objects := c.objects[i := o], loads := c.loads + more)
  }

  /** Replacing an object by one with the same identity, image and edges. */
  lemma {:induction false} ReplaceKeeps(g: Graph, indices: map<Name, nat>, first: nat, i: nat, o: Object)
    requires i < |g| && first < |g| && Indexed(g, indices) && GoodEdges(g) && Rooted(g, first)
    requires o.identity == g[i].identity && o.image == g[i].image && o.dependencies == g[i].dependencies
    ensures Indexed(g[i := o], indices) && GoodEdges(g[i := o]) && Rooted(g[i := o], first)
    ensures ImageBytes(g[i := o], first) == ImageBytes(g, first) && EdgesKept(g, g[i := o])
  {
    var h := g[i := o];
    ImageBytesSame(g, h, first);
    forall a: nat, b: nat | Adjacent(g, a, b) ensures Adjacent(h, a, b) {
      assert Targets(g, a) == Targets(h, a);
    }
    forall j: nat | first <= j < |h| ensures Reaches(h, first, j) {
      ReachesGrow(g, h, first, j);
    }
  }

  lemma {:induction false} ReplacedOnlyAt(c: Context, i: nat, o: Object, more: seq<Load>)
    requires i < |c.objects| == |c.states| && c.states[i] == Loading
    requires o.identity == c.objects[i].identity && o.image == c.objects[i].image
    requires EdgesKept(c.objects, c.objects[i := o])
    ensures OnlyAt(c, Replaced(c, i, o, more), i)
  {
    hide EdgesKept;
  }

  /** Object `i` gets its load and becomes the busy one. */
  lemma {:induction false} MappedKeeps(r: Run, c: Context, i: nat, l: Load)
    requires Invariant(r, c, -1) && r.first <= i < |c.objects| && c.states[i] == Loading && c.objects[i].load.None?
    ensures var d := Replaced(c, i, c.objects[i].(load := Some(l)), [l]);
            Invariant(r, d, i) && Progress(c, d, i) && Slack(r, d) == Slack(r, c)
  {
    hide Indexed, GoodEdges, Rooted, LoadsMatch, ImageBytes, EdgesKept, NeededTotal, GoodLog, LogBytes, Provided, OnlyAt, Follows;
    var o := c.objects[i].(load := Some(l));
    var d := Replaced(c, i, o, [l]);
    ReplaceKeeps(c.objects, c.indices, r.first, i, o);
    ReplacedOnlyAt(c, i, o, [l]);
    assert ObjectInvariant(c, i, -1);
    OnlyAtStates(r, c, -1, d, i, i);
    OnlyAtLoads(r.first, c, d, i);
    OnlyAtProvided(r, c, d, i);
    OnlyAtProgress(c, d, i);
    NeededTotalSettle(c.objects, r.first, i);
    NeededTotalSame(c.objects, d.objects, r.first, i);
  }

  /** The busy object gets its entries, metadata and names. */
  lemma {:induction false} InspectedKeeps(r: Run, c: Context, i: nat, o: Object)
    requires Invariant(r, c, i) && r.first <= i < |c.objects|
    requires o.identity == c.objects[i].identity && o.image == c.objects[i].image && o.dependencies == c.objects[i].dependencies
    requires o.load == c.objects[i].load
    ensures var d := Replaced(c, i, o, []);
            Invariant(r, d, i) && Progress(c, d, i) && Slack(r, d) == Slack(r, c)
  {
    hide Indexed, GoodEdges, Rooted, LoadsMatch, ImageBytes, EdgesKept, NeededTotal, GoodLog, LogBytes, Provided, OnlyAt, Follows;
    var d := Replaced(c, i, o, []);
    assert d.loads == c.loads;
    ReplaceKeeps(c.objects, c.indices, r.first, i, o);
    ReplacedOnlyAt(c, i, o, []);
    OnlyAtStates(r, c, i, d, i, i);
    OnlyAtLoads(r.first, c, d, i);
    OnlyAtProvided(r, c, d, i);
    OnlyAtProgress(c, d, i);
    NeededTotalSame(c.objects, d.objects, r.first, i);
  }

  /** The busy object has asked for its names. */
  function Counted(c: Context, i: nat, ds: seq<Dependency>): Context
    requires i < |c.objects|
  {
    c.(occurrences := c.occurrences + |ds|, total := c.total + Acquired(ds),
       acquired := c.acquired + Block(c.objects[i].identity, ds))
  }

  lemma {:induction false} CountedFollows(c: Context, i: nat, ds: seq<Dependency>)
    requires i < |c.objects| && c.objects[i].dependencies == [] && |ds| == |c.objects[i].strings.needed|
    requires forall k :: 0 <= k < |ds| ==> ds[k].requestedName == c.objects[i].strings.needed[k]
    ensures FollowsAt(Counted(c, i, ds).acquired, c.objects, i, |c.acquired|)
  {
  }

  lemma {:induction false} CountedOnlyAt(c: Context, i: nat, ds: seq<Dependency>)
    requires i < |c.objects| == |c.states| && c.states[i] == Loading
    ensures OnlyAt(c, Counted(c, i, ds), i)
  {
    hide EdgesKept;
    EdgesKeptSelf(c.objects);
  }

  lemma {:induction false} CountedKeeps(r: Run, c: Context, i: nat, ds: seq<Dependency>)
    requires Invariant(r, c, i) && r.first <= i < |c.objects| && |ds| == |c.objects[i].strings.needed|
    requires c.occurrences + |ds| <= r.options.maxOccurrences && Acquired(ds) <= r.options.maxTotalBytes - c.total
    requires forall k :: 0 <= k < |ds| ==>
               GoodDependency(r.answer, r.calls + c.occurrences + k, c.objects[i].identity, c.objects[i].strings.needed[k],
                              r.options.maxImageBytes, r.options.maxTotalBytes - c.total, ds, k)
    ensures var d := Counted(c, i, ds);
            && Invariant(r, d, -1) && Progress(c, d, i) && Slack(r, d) == Slack(r, c) + Acquired(ds)
            && FollowsAt(d.acquired, d.objects, i, |c.acquired|)
  {
    hide Indexed, GoodEdges, Rooted, LoadsMatch, ImageBytes, EdgesKept, NeededTotal, LogBytes, Provided, OnlyAt, GoodLog, FollowsAt;
    hide Answer;
    var d := Counted(c, i, ds);
    GoodLogBlock(r, c.acquired, c.objects[i].identity, c.objects[i].strings.needed, ds);
    LogBytesBlock(c.acquired, c.objects[i].identity, ds);
    assert forall k :: 0 <= k < |ds| ==> ds[k].requestedName == c.objects[i].strings.needed[k] by {
      forall k | 0 <= k < |ds|
        ensures ds[k].requestedName == c.objects[i].strings.needed[k]
      {
        assert GoodDependency(r.answer, r.calls + c.occurrences + k, c.objects[i].identity, c.objects[i].strings.needed[k],
                              r.options.maxImageBytes, r.options.maxTotalBytes - c.total, ds, k);
      }
    }
    CountedFollows(c, i, ds);
    CountedOnlyAt(c, i, ds);
    OnlyAtStates(r, c, i, d, -1, i);
    CountedLoads(r.first, c, i, ds);
    OnlyAtProvided(r, c, d, i);
    OnlyAtProgress(c, d, i);
    NeededTotalSettle(c.objects, r.first, i);
  }

  lemma {:induction false} CountedLoads(first: nat, c: Context, i: nat, ds: seq<Dependency>)
    requires LoadsMatch(c, first) && i < |c.objects|
    ensures LoadsMatch(Counted(c, i, ds), first)
  {
  }

  /** The edges of object `i` are complete. */
  function Finished(c: Context, i: nat): Context
    requires i < |c.states|
  {
    c.(states := c.states[i := Loaded])
  }

  lemma {:induction false} FinishedKeeps(r: Run, c: Context, i: nat)
    requires Invariant(r, c, -1) && r.first <= i < |c.objects| && c.states[i] == Loading && c.objects[i].load.Some?
    requires |c.objects[i].dependencies| == |c.objects[i].strings.needed|
    ensures Invariant(r, Finished(c, i), -1) && Slack(r, Finished(c, i)) == Slack(r, c)
  {
    hide Indexed, GoodEdges, Rooted, Follows, GoodLog, Handed, NeededTotal, ImageBytes, LogBytes, NewObject;
    forall j | r.first <= j < |c.objects|
      ensures ObjectInvariant(Finished(c, i), j, -1)
    {
      assert ObjectInvariant(c, j, -1);
    }
  }

  /** Loading and then finishing an object that was waiting is progress without exception. */
  lemma {:induction false} FinishedProgress(c: Context, d: Context, i: nat)
    requires Progress(c, d, i) && i < |c.objects| && c.states[i] == Discovered
    ensures Progress(c, Finished(d, i), -1)
  {
    hide EdgesKept;
  }

  function WithEdge(o: Object, e: Edge): Object { o.(dependencies := o.dependencies + [e]) }

  /** Object `i` gets an edge to a known object. */
  function Linked(c: Context, i: nat, e: Edge): Context
    requires i < |c.objects|
  {
    c.(objects := c.objects[i := WithEdge(c.objects[i], e)])
  }

  lemma {:induction false} LinkedEdges(g: Graph, i: nat, e: Edge, a: nat, b: nat)
    requires i < |g|
    ensures Adjacent(g, a, b) ==> Adjacent(g[i := WithEdge(g[i], e)], a, b)
    ensures Adjacent(g[i := WithEdge(g[i], e)], i, e.target)
  {
    var h := g[i := WithEdge(g[i], e)];
    if Adjacent(g, a, b) {
      var k :| 0 <= k < |Targets(g, a)| && Targets(g, a)[k] == b;
      assert Targets(h, a)[k] == b;
    }
    assert Targets(h, i)[|g[i].dependencies|] == e.target;
  }

  lemma {:induction false} LinkedGraph(g: Graph, indices: map<Name, nat>, first: nat, i: nat, e: Edge)
    requires first <= i < |g| && Indexed(g, indices) && GoodEdges(g) && Rooted(g, first)
    requires e.requestedName != [] && e.target < |g|
    ensures var h := g[i := WithEdge(g[i], e)];
            && Indexed(h, indices) && GoodEdges(h) && Rooted(h, first) && ImageBytes(h, first) == ImageBytes(g, first)
            && EdgesKept(g, h)
  {
    hide Reaches;
    var h := g[i := WithEdge(g[i], e)];
    ImageBytesSame(g, h, first);
    forall a: nat, b: nat | Adjacent(g, a, b) ensures Adjacent(h, a, b) {
      LinkedEdges(g, i, e, a, b);
    }
    forall j: nat | first <= j < |h| ensures Reaches(h, first, j) {
      ReachesGrow(g, h, first, j);
    }
  }

  /** The next edge of object `i` leads to what was handed over for its next needed name. */
  ghost predicate NextEdge(log: seq<Acquisition>, g: Graph, i: nat, off: nat, h: Graph, e: Edge) {
    && FollowsAt(log, g, i, off) && |g[i].dependencies| < |g[i].strings.needed| && e.target < |h|
    && e.requestedName == g[i].strings.needed[|g[i].dependencies|]
    && h[e.target].identity == log[off + |g[i].dependencies|].dependency.identity
    && h[e.target].image == log[off + |g[i].dependencies|].dependency.image
  }

  lemma {:induction false} NextEdgeFollows(log: seq<Acquisition>, g: Graph, i: nat, off: nat, h: Graph, e: Edge)
    requires NextEdge(log, g, i, off, h, e) && SameSources(g, h) && h[i] == WithEdge(g[i], e)
    ensures FollowsAt(log, h, i, off)
  {
    forall k | 0 <= k < |h[i].strings.needed|
      ensures AskFollows(log, h[i], off, k)
    {
      assert AskFollows(log, g[i], off, k);
    }
    forall k | 0 <= k < |h[i].dependencies|
      ensures EdgeFollows(log, h, i, off, k)
    {
      if k < |g[i].dependencies| {
        assert EdgeFollows(log, g, i, off, k);
      }
    }
  }

  lemma {:induction false} LinkedOnlyAt(c: Context, i: nat, e: Edge)
    requires i < |c.objects| == |c.states| && c.states[i] == Loading && EdgesKept(c.objects, Linked(c, i, e).objects)
    ensures OnlyAt(c, Linked(c, i, e), i)
  {
    hide EdgesKept;
  }

  lemma {:induction false} LinkedFollows(c: Context, i: nat, off: nat, e: Edge)
    requires i < |c.objects| && NextEdge(c.acquired, c.objects, i, off, c.objects, e)
    ensures FollowsAt(c.acquired, Linked(c, i, e).objects, i, off) && e.target < |c.objects|
  {
    hide FollowsAt;
    NextEdgeFollows(c.acquired, c.objects, i, off, Linked(c, i, e).objects, e);
  }

  lemma {:induction false} LinkedKeeps(r: Run, c: Context, i: nat, off: nat, e: Edge)
    requires Invariant(r, c, -1) && r.first <= i < |c.objects| && c.states[i] == Loading && c.objects[i].load.Some?
    requires e.requestedName != [] && NextEdge(c.acquired, c.objects, i, off, c.objects, e)
    ensures var d := Linked(c, i, e);
            && Invariant(r, d, -1) && Progress(c, d, i) && Slack(r, d) == Slack(r, c) && FollowsAt(d.acquired, d.objects, i, off)
  {
    hide Indexed, GoodEdges, Rooted, LoadsMatch, ImageBytes, EdgesKept, NeededTotal, GoodLog, LogBytes, Provided, OnlyAt, FollowsAt;
    LinkedFollows(c, i, off, e);
    hide NextEdge;
    var d := Linked(c, i, e);
    LinkedGraph(c.objects, c.indices, r.first, i, e);
    LinkedOnlyAt(c, i, e);
    OnlyAtStates(r, c, -1, d, -1, i);
    OnlyAtLoads(r.first, c, d, i);
    OnlyAtProvided(r, c, d, i);
    OnlyAtProgress(c, d, i);
    NeededTotalSame(c.objects, d.objects, r.first, -1);
  }

  // ------------------------------------------------------------------------- new objects

  function Grown(g: Graph, i: nat, d: Dependency): (h: Graph)
    requires i < |g|
    ensures |h| == |g| + 1 && h[i].load == g[i].load
  {
    (g + [NewObject(d.identity, d.image)])[i := WithEdge(g[i], Edge(d.requestedName, |g|))]
  }

  /** A new object is discovered and object `i` gets an edge to it. */
  function Attached(c: Context, i: nat, d: Dependency): Context
    requires i < |c.objects|
  {
    c.(objects := Grown(c.objects, i, d), indices := c.indices[d.identity := |c.objects|], states := c.states + [Discovered])
  }

  lemma {:induction false} AttachedRooted(g: Graph, first: nat, i: nat, o: Object, e: Edge)
    requires first <= i < |g| && Rooted(g, first) && e.target == |g| && o.dependencies == []
    ensures Rooted((g + [o])[i := WithEdge(g[i], e)], first) && EdgesKept(g, (g + [o])[i := WithEdge(g[i], e)])
  {
    var h := (g + [o])[i := WithEdge(g[i], e)];
    var k := g[i := WithEdge(g[i], e)];
    forall a: nat, b: nat | Adjacent(g, a, b) ensures Adjacent(h, a, b) {
      LinkedEdges(g, i, e, a, b);
      assert Targets(h, a) == Targets(k, a);
    }
    forall j: nat | first <= j < |h| ensures Reaches(h, first, j) {
      if j < |g| {
        ReachesGrow(g, h, first, j);
      } else {
        ReachesGrow(g, h, first, i);
        LinkedEdges(g, i, e, i, i);
        assert Targets(h, i) == Targets(k, i);
        ReachesStep(h, first, i, j);
      }
    }
  }

  lemma {:induction false} AttachedIndexed(g: Graph, indices: map<Name, nat>, i: nat, d: Dependency, e: Edge)
    requires i < |g| && Indexed(g, indices) && d.identity !in indices && d.identity != []
    ensures Indexed((g + [NewObject(d.identity, d.image)])[i := WithEdge(g[i], e)], indices[d.identity := |g|])
  {
    var h := (g + [NewObject(d.identity, d.image)])[i := WithEdge(g[i], e)];
    assert forall j :: 0 <= j < |g| ==> h[j].identity == g[j].identity;
    assert h[|g|].identity == d.identity;
  }

  lemma {:induction false} AttachedBytes(g: Graph, first: nat, i: nat, d: Dependency, e: Edge)
    requires first <= i < |g|
    ensures var h := (g + [NewObject(d.identity, d.image)])[i := WithEdge(g[i], e)];
            ImageBytes(h, first) == ImageBytes(g, first) + |d.image| && NeededTotal(h, first, -1) == NeededTotal(g, first, -1)
  {
    var h := (g + [NewObject(d.identity, d.image)])[i := WithEdge(g[i], e)];
    var plain := g[i := WithEdge(g[i], e)];
    assert h[..|h| - 1] == plain;
    ImageBytesSame(g, plain, first);
    NeededTotalSame(g, plain, first, -1);
  }

  lemma {:induction false} AttachedGoodEdges(g: Graph, i: nat, o: Object, e: Edge)
    requires i < |g| && GoodEdges(g) && o.dependencies == [] && e.requestedName != [] && e.target == |g|
    ensures GoodEdges((g + [o])[i := WithEdge(g[i], e)])
  {
    var h := (g + [o])[i := WithEdge(g[i], e)];
    assert forall j :: 0 <= j < |g| && j != i ==> h[j] == g[j];
  }

  lemma {:induction false} GrownKeeps(g: Graph, indices: map<Name, nat>, first: nat, i: nat, d: Dependency)
    requires first <= i < |g| && Indexed(g, indices) && GoodEdges(g) && Rooted(g, first)
    requires d.identity !in indices && d.identity != [] && d.requestedName != []
    ensures var h := Grown(g, i, d);
            && Indexed(h, indices[d.identity := |g|]) && GoodEdges(h) && Rooted(h, first) && EdgesKept(g, h)
            && ImageBytes(h, first) == ImageBytes(g, first) + |d.image| && NeededTotal(h, first, -1) == NeededTotal(g, first, -1)
  {
    hide Indexed, GoodEdges, Rooted, ImageBytes, EdgesKept, NeededTotal;
    var e := Edge(d.requestedName, |g|);
    AttachedRooted(g, first, i, NewObject(d.identity, d.image), e);
    AttachedIndexed(g, indices, i, d, e);
    AttachedBytes(g, first, i, d, e);
    AttachedGoodEdges(g, i, NewObject(d.identity, d.image), e);
  }

  lemma {:induction false} AttachedOnlyAt(c: Context, i: nat, d: Dependency)
    requires i < |c.objects| == |c.states| && c.states[i] == Loading && EdgesKept(c.objects, Grown(c.objects, i, d))
    ensures OnlyAt(c, Attached(c, i, d), i)
  {
    hide EdgesKept;
  }

  lemma {:induction false} AttachedProvided(r: Run, c: Context, i: nat, d: Dependency)
    requires r.first <= i < |c.objects| && Provided(r, c) && Handed(c.acquired, d.identity, d.image)
    ensures Provided(r, Attached(c, i, d))
  {
    hide Handed;
    var n := Attached(c, i, d);
    assert forall j :: 0 <= j < |c.objects| ==> n.objects[j].identity == c.objects[j].identity && n.objects[j].image == c.objects[j].image;
    assert n.objects[|c.objects|] == NewObject(d.identity, d.image);
  }

  /** What attaching does to the two objects it touches. */
  lemma {:induction false} AttachedFacts(c: Context, i: nat, d: Dependency)
    requires i < |c.objects| == |c.states|
    ensures var n := Attached(c, i, d);
            && |n.objects| == |n.states| == |c.objects| + 1 && n.states[..|c.states|] == c.states
            && n.states[|c.objects|] == Discovered
            && n.objects[|c.objects|].identity == d.identity && n.objects[|c.objects|].image == d.image
            && n.objects[i] == WithEdge(c.objects[i], Edge(d.requestedName, |c.objects|))
            && SameSources(c.objects, n.objects)
  {
  }

  lemma {:induction false} AttachedFollows(c: Context, i: nat, off: nat, d: Dependency)
    requires i < |c.objects| == |c.states| && FollowsAt(c.acquired, c.objects, i, off)
    requires |c.objects[i].dependencies| < |c.objects[i].strings.needed| && d == c.acquired[off + |c.objects[i].dependencies|].dependency
    ensures FollowsAt(c.acquired, Attached(c, i, d).objects, i, off) && Handed(c.acquired, d.identity, d.image)
  {
    AttachedFacts(c, i, d);
    assert AskFollows(c.acquired, c.objects[i], off, |c.objects[i].dependencies|);
    NextEdgeFollows(c.acquired, c.objects, i, off, Attached(c, i, d).objects, Edge(d.requestedName, |c.objects|));
  }

  lemma {:induction false} AttachedKeeps(r: Run, c: Context, i: nat, off: nat, d: Dependency)
    requires Invariant(r, c, -1) && r.first <= i < |c.objects| && c.states[i] == Loading && c.objects[i].load.Some?
    requires FollowsAt(c.acquired, c.objects, i, off) && |c.objects[i].dependencies| < |c.objects[i].strings.needed|
    requires d == c.acquired[off + |c.objects[i].dependencies|].dependency
    requires d.identity !in c.indices && d.identity != [] && d.requestedName != []
    requires |c.objects| < r.options.maxObjects && |d.image| <= Slack(r, c)
    ensures var n := Attached(c, i, d);
            && Invariant(r, n, -1) && OnlyAt(c, n, i) && Slack(r, n) == Slack(r, c) - |d.image|
            && FollowsAt(n.acquired, n.objects, i, off)
  {
    hide FollowsAt;
    AttachedFollows(c, i, off, d);
    hide Indexed, Rooted, GoodEdges, LoadsMatch, ImageBytes, Grown, OnlyAt, EdgesKept, NeededTotal, GoodLog, LogBytes, Provided;
    hide Handed;
    var n := Attached(c, i, d);
    GrownKeeps(c.objects, c.indices, r.first, i, d);
    AttachedOnlyAt(c, i, d);
    OnlyAtStates(r, c, -1, n, -1, i);
    OnlyAtLoads(r.first, c, n, i);
    AttachedProvided(r, c, i, d);
  }

  /** Once the waiting child is loaded, the whole step is progress. */
  lemma {:induction false} ChildDone(c: Context, d: Context, e: Context, at: nat)
    requires OnlyAt(c, d, at) && |d.objects| == |c.objects| + 1 && Progress(d, e, -1) && e.states[|c.objects|] == Loaded
    ensures Progress(c, e, at)
  {
    hide EdgesKept;
    EdgesKeptTransitive(c.objects, d.objects, e.objects);
  }
}

/** The recursive graph load and its rollback
    (src/elf/linking/elf32_dependency_loader.cpp:34-67 and 164-386). */
module DependencyLoader {
  import opened Words
  import opened Views
  import opened AddressSpaces
  import opened MappedMemory
  import opened Layers
  import opened Loader
  import opened LoadImages
  import opened Placement
  import opened Objects
  import opened Graphs
  import opened ObjectLoading
  import opened LoadContexts
  import opened LoadAccounts
  import opened GraphMeaning
  import R = DependencyResolver

  datatype Failure = Failure(error: DependencyError, identity: Name, requestedName: Name)

  /** rollback_failure: every mapping of the call is unmapped in reverse order. */
  method RollbackLoads(m: MappedGuestMemory, loads: seq<Load>, error: DependencyError, ghost base: Space) returns (e: DependencyError)
    requires m.Valid() && Salvage(base, loads, m.State(), m.HostReleases())
    modifies m, m.buffer
    ensures m.Valid() && KeepsMapped(base, m.State())
    ensures e == error || e == RollbackFailed(error)
    ensures m.HostReleases() ==> e == error && m.State() == base
  {
    hide Layered, Owned, KeepsMapped;
    var ok := Rollback(m, AllRanges(loads), base);
    return if ok then error else RollbackFailed(error);
  }

  // --------------------------------------------------------------------------- the context

  class ObjectGraph {
    var objects: Graph

    constructor (objects: Graph)
      ensures this.objects == objects
    {
      this.objects := objects;
    }
  }

  class GraphLoader {
    const memory: MappedGuestMemory
    const provider: R.Provider
    const graph: ObjectGraph
    const options: LoadOptions
    var indices: map<Name, nat>
    var states: seq<ObjectState>
    var loads: seq<Load>
    var occurrences: nat
    var total: nat
    ghost var acquired: seq<Acquisition>
    ghost const base: Space
    ghost const root: Source
    ghost const first: nat
    ghost const callsBefore: nat

    constructor (memory: MappedGuestMemory, provider: R.Provider, graph: ObjectGraph, options: LoadOptions,
                 indices: map<Name, nat>, states: seq<ObjectState>, total: nat, ghost root: Source, ghost first: nat)
      requires memory.Valid()
      ensures this.memory == memory && this.provider == provider && this.graph == graph && this.options == options
      ensures this.indices == indices && this.states == states && this.total == total && this.root == root && this.first == first
      ensures loads == [] && occurrences == 0 && acquired == [] && base == memory.State() && callsBefore == provider.calls
    {
      this.memory, this.provider, this.graph, this.options := memory, provider, graph, options;
      this.indices, this.states, this.total, this.root, this.first := indices, states, total, root, first;
      loads, occurrences, acquired, base, callsBefore := [], 0, [], memory.State(), provider.calls;
    }

    ghost function Now(): Context
      reads this, graph
    {
      Context(graph.objects, indices, states, loads, occurrences, total, acquired)
    }

    ghost function Fixed(): Run { Run(options, provider.answer, callsBefore, root, first) }

    /** Between steps the load is in a state it reaches, and has made the requests it counts. */
    ghost predicate At(busy: int, skip: int)
      reads this, graph, provider, memory, memory.buffer
    {
      && memory.Valid() && Reached(Fixed(), base, Halt(Now(), memory.State(), busy, skip))
      && |states| == |graph.objects| && provider.calls == callsBefore + occurrences
    }

    ghost predicate Good()
      reads this, graph, provider, memory, memory.buffer
    {
      At(-1, -1)
    }

    /** After a failure the context is the one of `h`, where the load is stuck; it was reached
        onward from `start`; the memory is the one of `h`, except for what a host that does not
        release pages has left behind; and the provider was not asked too often. */
    ghost predicate Halted(start: Context, h: Halt, e: DependencyError, identity: Name)
      reads this, graph, provider, memory, memory.buffer
    {
      && memory.Valid() && h.context == Now() && Onward(Fixed(), start, Now())
      && Stuck(Fixed(), base, memory.HostGrants(), h, e, identity)
      && h.memory.pageSize == memory.pageSize && KeepsMapped(h.memory, memory.State())
      && (memory.HostReleases() ==> memory.State() == h.memory)
      && provider.calls <= callsBefore + options.maxOccurrences
    }

    lemma {:induction false} HaltHere(busy: int, skip: int, e: DependencyError, identity: Name)
      requires At(busy, skip) && Cause(Fixed(), memory.HostGrants(), Halt(Now(), memory.State(), busy, skip), e, identity)
      ensures Halted(Now(), Halt(Now(), memory.State(), busy, skip), e, identity)
    {
      hide Cause, KeepsMapped, EdgesKept;
      KeepsItself(memory.State());
      EdgesKeptSelf(graph.objects);
      assert provider.calls <= callsBefore + options.maxOccurrences by { ReachedFacts(Fixed(), base, Halt(Now(), memory.State(), busy, skip)); }
      assert first <= |graph.objects| by { ReachedFacts(Fixed(), base, Halt(Now(), memory.State(), busy, skip)); }
    }

    lemma {:induction false} HaltBefore(start: Context, middle: Context, h: Halt, e: DependencyError, identity: Name)
      requires Onward(Fixed(), start, middle) && Halted(middle, h, e, identity)
      ensures Halted(start, h, e, identity)
    {
      hide Onward, Stuck, KeepsMapped;
      OnwardTransitive(Fixed(), start, middle, Now());
    }

    /** Object `index` starts loading and is mapped. */
    method LoadStep(index: nat, requireDynamic: bool) returns (error: Option<DependencyError>, ghost h: Halt)
      requires Good() && first <= index < |graph.objects| && states[index] == Discovered && requireDynamic == (index != first)
      modifies this, graph, memory, memory.buffer
      ensures |graph.objects| == old(|graph.objects|) && graph.objects[index].identity == old(graph.objects[index].identity)
      ensures error.Some? ==> Halted(old(Now()), h, error.value, old(graph.objects[index].identity))
      ensures error.None? ==> At(index, index) && Progress(old(Now()), Now(), index) && Slack(Fixed(), Now()) == old(Slack(Fixed(), Now()))
      ensures error.None? ==> states[index] == Loading
      ensures error.None? && index != first ==> DynamicImage(memory.pageSize, graph.objects[index].image)
    {
      hide Reached, Progress, Slack, LoadRanges, Settled, Layered, KeepsMapped, LoadProblem, NewObject, Onward, Stuck;
      ghost var start := Now();
      ghost var before := memory.State();
      ReachedFacts(Fixed(), base, Halt(start, before, -1, -1));
      states := states[index := Loading];
      BegunReached(Fixed(), base, start, before, index);
      ghost var begun := Now();
      h := Halt(begun, before, -1, -1);
      ProgressOnward(Fixed(), start, begun, index);
      var loaded := LoadObject(memory, graph.objects[index].image, options.placement, requireDynamic);
      if loaded.Err? {
        LoadStuck(h, index, loaded.error);
        return Some(loaded.error), h;
      }
      var o := graph.objects[index].(load := Some(loaded.value));
      graph.objects := graph.objects[index := o];
      loads := loads + [loaded.value];
      assert Now() == Replaced(begun, index, o, [loaded.value]);
      MappedReached(Fixed(), base, begun, before, memory.State(), index, loaded.value);
      ProgressTransitive(start, begun, Now(), index);
      return None, h;
    }

    lemma {:induction false} LoadStuck(h: Halt, i: nat, e: DependencyError)
      requires Reached(Fixed(), base, h) && first <= i < |h.context.objects| && h.context.objects[i].load.None?
      requires LoadProblem(h.memory, h.context.objects[i].image, options.placement, i != first, memory.HostGrants(), e)
      ensures Stuck(Fixed(), base, memory.HostGrants(), h, e, h.context.objects[i].identity)
    {
      hide Reached, LoadProblem, WellFormed;
      ReachedWellFormed(Fixed(), base, h);
      LoadProblemKinds(h.memory, h.context.objects[i].image, options.placement, i != first, memory.HostGrants(), e);
      assert NotMapped(Fixed(), h.context, i, h.context.objects[i].identity);
      assert Unloadable(Fixed(), memory.HostGrants(), h, e, h.context.objects[i].identity);
    }

    /** The object just mapped gets its dynamic entries, metadata and names. */
    method InspectStep(index: nat) returns (error: Option<DependencyError>, ghost h: Halt)
      requires At(index, index) && first <= index < |graph.objects|
      requires index != first ==> DynamicImage(memory.pageSize, graph.objects[index].image)
      modifies this, graph
      ensures error.Some? ==> Halted(old(Now()), h, error.value, old(graph.objects[index].identity))
      ensures error.None? ==> At(index, -1) && Progress(old(Now()), Now(), index) && Slack(Fixed(), Now()) == old(Slack(Fixed(), Now()))
      ensures |graph.objects| == old(|graph.objects|) && graph.objects[index].identity == old(graph.objects[index].identity)
    {
      hide Reached, Progress, Slack, Inspected, DynamicImage, Onward, KeepsMapped, Halted;
      ghost var start := Now();
      h := Halt(start, memory.State(), index, index);
      ReachedFacts(Fixed(), base, h);
      var view := memory.Contents();
      var inspected := InspectObject(view, graph.objects[index], options.maxStringBytes);
      if inspected.Err? {
        HaltHere(index, index, inspected.error, graph.objects[index].identity);
        return Some(inspected.error), h;
      }
      graph.objects := graph.objects[index := inspected.value];
      assert loads == start.loads + [];
      assert Now() == Replaced(start, index, inspected.value, []);
      InspectedReached(Fixed(), base, start, memory.State(), index, inspected.value);
      return None, h;
    }

    /** The first half of process_object: load the object and read its names. */
    method LoadAndInspect(index: nat, requireDynamic: bool) returns (error: Option<DependencyError>, ghost h: Halt)
      requires Good() && first <= index < |graph.objects| && states[index] == Discovered && requireDynamic == (index != first)
      modifies this, graph, memory, memory.buffer
      ensures |graph.objects| == old(|graph.objects|) && graph.objects[index].identity == old(graph.objects[index].identity)
      ensures error.Some? ==> Halted(old(Now()), h, error.value, old(graph.objects[index].identity))
      ensures error.None? ==> At(index, -1) && Progress(old(Now()), Now(), index) && Slack(Fixed(), Now()) == old(Slack(Fixed(), Now()))
    {
      hide Reached, Progress, Slack, DynamicImage, Onward, Stuck, KeepsMapped;
      ghost var start := Now();
      ReachedFacts(Fixed(), base, Halt(start, memory.State(), -1, -1));
      error, h := LoadStep(index, requireDynamic);
      if error.Some? {
        return;
      }
      ghost var mapped := Now();
      ProgressOnward(Fixed(), start, mapped, index);
      error, h := InspectStep(index);
      if error.Some? {
        HaltBefore(start, mapped, h, error.value, graph.objects[index].identity);
        return;
      }
      ProgressTransitive(start, mapped, Now(), index);
    }

    /** Ask the provider for the needed names of the busy object. */
    method Acquire(index: nat) returns (r: Result<seq<R.Dependency>, Failure>, ghost h: Halt)
      requires At(index, -1) && first <= index < |graph.objects|
      modifies this, provider
      ensures r.Err? ==> Halted(old(Now()), h, r.error.error, r.error.identity)
      ensures r.Ok? ==> && Good() && Progress(old(Now()), Now(), index) && |r.value| == |graph.objects[index].strings.needed|
                        && FollowsAt(acquired, graph.objects, index, |old(acquired)|)
                        && acquired == old(acquired) + Block(graph.objects[index].identity, r.value)
      ensures r.Ok? ==> forall k :: 0 <= k < |r.value| ==> r.value[k].requestedName != [] && r.value[k].identity != []
      ensures r.Ok? ==> Slack(Fixed(), Now()) == old(Slack(Fixed(), Now())) + R.Acquired(r.value) && states == old(states)
    {
      hide Reached, Progress, R.GoodDependency, R.Resolution, Slack, FollowsAt, Block, Onward, KeepsMapped, Stuck, Cause, WellFormed;
      var needed := graph.objects[index].strings.needed;
      var identity := graph.objects[index].identity;
      ghost var start := Now();
      h := Halt(start, memory.State(), index, -1);
      ReachedFacts(Fixed(), base, h);
      if |needed| > 0xffff_ffff || |needed| > options.maxOccurrences - occurrences {
        TooManyNames(index);
        return Err(Failure(TooManyDependencyOccurrences, identity, [])), h;
      }
      var remaining: nat := options.maxTotalBytes - total;
      var limits := R.ResolveOptions(|needed|, options.maxImageBytes, remaining, identity);
      ghost var asked := provider.calls;
      ResolutionHalts(index, limits);
      var resolved := R.ResolveDependencies(provider, needed, limits);
      if resolved.Err? {
        return Err(Failure(DependencyResolveFailed(resolved.error), identity, [])), h;
      }
      R.ResolutionMeaning(provider.answer, asked, needed, limits);
      occurrences := occurrences + |needed|;
      var bytes := SumBytes(resolved.value, remaining);
      total := total + bytes;
      acquired := acquired + Block(identity, resolved.value);
      assert Now() == Counted(start, index, resolved.value);
      CountedReached(Fixed(), base, start, memory.State(), index, resolved.value);
      NamesGiven(provider.answer, asked, limits, needed, resolved.value);
      return Ok(resolved.value), h;
    }

    lemma {:induction false} TooManyNames(index: nat)
      requires At(index, -1) && first <= index < |graph.objects|
      requires |graph.objects[index].strings.needed| > 0xffff_ffff
               || occurrences + |graph.objects[index].strings.needed| > options.maxOccurrences
      ensures Halted(Now(), Halt(Now(), memory.State(), index, -1), TooManyDependencyOccurrences, graph.objects[index].identity)
    {
      hide Reached, Halted;
      HaltHere(index, -1, TooManyDependencyOccurrences, graph.objects[index].identity);
    }

    /** If the resolution ends with an error, the load is stuck before it. */
    lemma {:induction false} ResolutionHalts(index: nat, limits: R.ResolveOptions)
      requires At(index, -1) && first <= index < |graph.objects| && |graph.objects[index].strings.needed| <= 0xffff_ffff
      requires total <= options.maxTotalBytes
      requires limits == R.ResolveOptions(|graph.objects[index].strings.needed|, options.maxImageBytes, options.maxTotalBytes - total,
                                          graph.objects[index].identity)
      ensures var x := R.Resolution(provider.answer, provider.calls, graph.objects[index].strings.needed, limits);
              x.Err? ==> Halted(Now(), Halt(Now(), memory.State(), index, -1), DependencyResolveFailed(x.error),
                                graph.objects[index].identity)
    {
      hide Reached, R.Resolution, Halted;
      var x := R.Resolution(provider.answer, provider.calls, graph.objects[index].strings.needed, limits);
      if x.Err? {
        HaltHere(index, -1, DependencyResolveFailed(x.error), graph.objects[index].identity);
      }
    }

    /** Load, inspect and acquire the dependencies of object `index`. */
    method Prepare(index: nat, requireDynamic: bool) returns (r: Result<seq<R.Dependency>, Failure>, ghost h: Halt, ghost off: nat)
      requires Good() && first <= index < |graph.objects| && states[index] == Discovered && requireDynamic == (index != first)
      modifies this, graph, provider, memory, memory.buffer
      ensures r.Err? ==> Halted(old(Now()), h, r.error.error, r.error.identity)
      ensures r.Ok? ==> Good() && Progress(old(Now()), Now(), index) && |graph.objects| == old(|graph.objects|)
      ensures r.Ok? ==> && states[index] == Loading && graph.objects[index].load.Some? && graph.objects[index].dependencies == []
                        && |r.value| == |graph.objects[index].strings.needed|
                        && off + |r.value| <= |acquired| && FollowsAt(acquired, graph.objects, index, off)
      ensures r.Ok? ==> forall k :: 0 <= k < |r.value| ==>
                          acquired[off + k].dependency == r.value[k] && r.value[k].requestedName != [] && r.value[k].identity != []
      ensures r.Ok? ==> Slack(Fixed(), Now()) == old(Slack(Fixed(), Now())) + R.Acquired(r.value)
    {
      hide Reached, Progress, Slack, FollowsAt, Onward, Stuck, KeepsMapped, Block, WellFormed, Halted;
      ghost var start := Now();
      ReachedFacts(Fixed(), base, Halt(start, memory.State(), -1, -1));
      off := 0;
      var loaded: Option<DependencyError>;
      loaded, h := LoadAndInspect(index, requireDynamic);
      if loaded.Some? {
        return Err(Failure(loaded.value, graph.objects[index].identity, [])), h, 0;
      }
      ghost var ready := Now();
      ReachedFacts(Fixed(), base, Halt(ready, memory.State(), index, -1));
      ProgressOnward(Fixed(), start, ready, index);
      off := |acquired|;
      r, h := Acquire(index);
      if r.Err? {
        HaltBefore(start, ready, h, r.error.error, r.error.identity);
        return;
      }
      ProgressTransitive(start, ready, Now(), index);
    }

    /** process_object: load object `index` and everything it needs that is not known yet.
        `trail` is the chain of objects being loaded from the root to this one. */
    method Process(index: nat, depth: nat, requireDynamic: bool, ghost trail: seq<nat>) returns (e: Option<Failure>, ghost h: Halt)
      requires Good() && first <= index < |graph.objects| && depth <= options.maxDepth + 1 && requireDynamic == (index != first)
      requires |trail| == depth + 1 && IsPath(graph.objects, trail, first, index) && Loadings(states, trail)
      modifies this, graph, provider, memory, memory.buffer
      ensures e.Some? ==> Halted(old(Now()), h, e.value.error, e.value.identity)
      ensures e.None? ==> Good() && Progress(old(Now()), Now(), -1) && Slack(Fixed(), Now()) >= old(Slack(Fixed(), Now()))
      ensures e.None? ==> |states| == |graph.objects| && index < |graph.objects|
      ensures e.None? && old(states[index]) == Discovered ==> states[index] == Loaded
      decreases options.maxDepth + 1 - depth, 2
    {
      hide Reached, Progress, Slack, FollowsAt, Onward, Stuck, KeepsMapped, IsPath, Loadings, Invariant, Cause;
      ghost var start := Now();
      h := Halt(start, memory.State(), -1, -1);
      ReachedFacts(Fixed(), base, h);
      ProgressSelf(start, -1);
      if states[index] != Discovered {
        return None, h;
      }
      if depth > options.maxDepth {
        TooDeep(trail, index);
        return Some(Failure(MaxDepthExceeded, graph.objects[index].identity, [])), h;
      }
      var prepared: Result<seq<R.Dependency>, Failure>;
      ghost var off: nat;
      prepared, h, off := Prepare(index, requireDynamic);
      if prepared.Err? {
        return Some(prepared.error), h;
      }
      ghost var ready := Now();
      ProgressOnward(Fixed(), start, ready, index);
      TrailKept(start, ready, index, trail, first, index);
      e, h := Follow(index, depth, prepared.value, off, trail);
      if e.Some? {
        HaltBefore(start, ready, h, e.value.error, e.value.identity);
        return;
      }
      ghost var followed := Now();
      ReachedFacts(Fixed(), base, Halt(followed, memory.State(), -1, -1));
      ProgressTransitive(start, ready, followed, index);
      states := states[index := Loaded];
      FinishedReached(Fixed(), base, followed, memory.State(), index);
      FinishedProgress(start, followed, index);
    }

    lemma {:induction false} TooDeep(trail: seq<nat>, index: nat)
      requires Good() && index < |graph.objects| && states[index] == Discovered && |trail| == options.maxDepth + 2
      requires IsPath(graph.objects, trail, first, index) && Loadings(states, trail)
      ensures Halted(Now(), Halt(Now(), memory.State(), -1, -1), MaxDepthExceeded, graph.objects[index].identity)
    {
      hide Reached, Loadings, Halted;
      assert DeepStack(Fixed(), Now(), trail, graph.objects[index].identity);
      HaltHere(-1, -1, MaxDepthExceeded, graph.objects[index].identity);
    }

    /** The edges of object `index`, in the order of its dependencies. */
    method Follow(index: nat, depth: nat, ds: seq<R.Dependency>, ghost off: nat, ghost trail: seq<nat>)
      returns (e: Option<Failure>, ghost h: Halt)
      requires Good() && first <= index < |graph.objects| && depth <= options.maxDepth
      requires |trail| == depth + 1 && IsPath(graph.objects, trail, first, index) && Loadings(states, trail)
      requires states[index] == Loading && graph.objects[index].load.Some? && graph.objects[index].dependencies == []
      requires |ds| == |graph.objects[index].strings.needed| && off + |ds| <= |acquired| && FollowsAt(acquired, graph.objects, index, off)
      requires forall k :: 0 <= k < |ds| ==>
                 acquired[off + k].dependency == ds[k] && ds[k].requestedName != [] && ds[k].identity != []
      requires R.Acquired(ds) <= Slack(Fixed(), Now())
      modifies this, graph, provider, memory, memory.buffer
      ensures e.Some? ==> Halted(old(Now()), h, e.value.error, e.value.identity)
      ensures e.None? ==> Good() && Progress(old(Now()), Now(), index)
      ensures e.None? ==> Slack(Fixed(), Now()) >= old(Slack(Fixed(), Now())) - R.Acquired(ds)
      ensures e.None? ==> index < |graph.objects| && states[index] == Loading && graph.objects[index].load.Some?
      ensures e.None? ==> |graph.objects[index].dependencies| == |graph.objects[index].strings.needed|
      decreases options.maxDepth + 1 - depth, 1
    {
      hide Reached, Progress, Slack, FollowsAt, Onward, Stuck, KeepsMapped, IsPath, Loadings, Halted;
      ghost var start := Now();
      h := Halt(start, memory.State(), -1, -1);
      ReachedFacts(Fixed(), base, h);
      ProgressSelf(start, index);
      for k := 0 to |ds|
        invariant Good() && Progress(start, Now(), index) && index < |graph.objects| && states[index] == Loading
        invariant Edged(graph.objects[index], start.objects[index], k)
        invariant Slack(Fixed(), Now()) >= Slack(Fixed(), start) - R.Acquired(ds) + R.Acquired(ds[k..])
        invariant FollowsAt(acquired, graph.objects, index, off) && start.acquired <= acquired
        invariant IsPath(graph.objects, trail, first, index) && Loadings(states, trail)
      {
        assert ds[k..][1..] == ds[k + 1..];
        ghost var before := Now();
        ProgressOnward(Fixed(), start, before, index);
        assert acquired[off + k] == start.acquired[off + k];
        e, h := FollowOne(index, depth, ds[k], off, trail);
        if e.Some? {
          HaltBefore(start, before, h, e.value.error, e.value.identity);
          return;
        }
        ProgressTransitive(start, before, Now(), index);
        ProgressSame(before, Now(), index, index);
        TrailKept(before, Now(), index, trail, first, index);
      }
      e := None;
    }

    /** One dependency: an edge to the object of that identity, loading it first if it is new. */
    method FollowOne(index: nat, depth: nat, d: R.Dependency, ghost off: nat, ghost trail: seq<nat>)
      returns (e: Option<Failure>, ghost h: Halt)
      requires Good() && first <= index < |graph.objects| && depth <= options.maxDepth
      requires |trail| == depth + 1 && IsPath(graph.objects, trail, first, index) && Loadings(states, trail)
      requires states[index] == Loading && graph.objects[index].load.Some? && d.requestedName != [] && d.identity != []
      requires Asked(acquired, graph.objects, index, off, d) && |d.image| <= Slack(Fixed(), Now())
      modifies this, graph, provider, memory, memory.buffer
      ensures e.Some? ==> Halted(old(Now()), h, e.value.error, e.value.identity)
      ensures e.None? ==> Good() && Progress(old(Now()), Now(), index) && Slack(Fixed(), Now()) >= old(Slack(Fixed(), Now())) - |d.image|
      ensures e.None? ==> index < |graph.objects| && states[index] == Loading && FollowsAt(acquired, graph.objects, index, off)
      ensures e.None? ==> Edged(graph.objects[index], old(graph.objects[index]), 1)
      decreases options.maxDepth + 1 - depth, 0, 1
    {
      hide Reached, Progress, Slack, FollowsAt, Onward, Stuck, KeepsMapped, IsPath, Loadings, Asked, Halted;
      if d.identity in indices {
        e, h := FollowKnown(index, depth, d, off, trail);
      } else {
        e, h := FollowNew(index, depth, d, off, trail);
      }
    }

    /** The dependency is known: its image must be the same; it gets an edge. */
    method FollowKnown(index: nat, depth: nat, d: R.Dependency, ghost off: nat, ghost trail: seq<nat>)
      returns (e: Option<Failure>, ghost h: Halt)
      requires Good() && first <= index < |graph.objects| && depth <= options.maxDepth && d.identity in indices
      requires |trail| == depth + 1 && IsPath(graph.objects, trail, first, index) && Loadings(states, trail)
      requires states[index] == Loading && graph.objects[index].load.Some? && d.requestedName != []
      requires Asked(acquired, graph.objects, index, off, d)
      modifies this, graph, provider, memory, memory.buffer
      ensures e.Some? ==> Halted(old(Now()), h, e.value.error, e.value.identity)
      ensures e.None? ==> Good() && Progress(old(Now()), Now(), index) && Slack(Fixed(), Now()) >= old(Slack(Fixed(), Now()))
      ensures e.None? ==> index < |graph.objects| && states[index] == Loading && FollowsAt(acquired, graph.objects, index, off)
      ensures e.None? ==> Edged(graph.objects[index], old(graph.objects[index]), 1)
      decreases options.maxDepth + 1 - depth, 0, 0
    {
      hide Reached, Progress, Slack, FollowsAt, Onward, Stuck, KeepsMapped, IsPath, Loadings, Asked, Halted;
      ghost var start := Now();
      h := Halt(start, memory.State(), -1, -1);
      ReachedFacts(Fixed(), base, h);
      KnownFacts(Fixed(), base, h, d.identity);
      var target := indices[d.identity];
      if graph.objects[target].image != d.image {
        Mismatched(index, off, d);
        return Some(Failure(IdentityImageMismatch, d.identity, d.requestedName)), h;
      }
      var edge := Edge(d.requestedName, target);
      graph.objects := graph.objects[index := WithEdge(graph.objects[index], edge)];
      LinkedReached(Fixed(), base, start, memory.State(), index, off, d, target);
      ghost var linked := Now();
      assert linked == Linked(start, index, edge);
      ReachedFacts(Fixed(), base, Halt(linked, memory.State(), -1, -1));
      ProgressOnward(Fixed(), start, linked, index);
      if states[target] == Discovered {
        TrailLinked(start.objects, index, edge, trail, first);
        LoadingsPush(states, trail, index, target);
        TrailRoot(graph.objects, trail + [target], first, target, states);
        e, h := Process(target, depth + 1, true, trail + [target]);
        if e.Some? {
          e := Some(WithName(e.value, d.requestedName));
          HaltBefore(start, linked, h, e.value.error, e.value.identity);
          return;
        }
        ProgressSame(linked, Now(), -1, index);
        FollowsAtKept(linked.acquired, linked.objects, acquired, graph.objects, index, off);
        ProgressWeaken(linked, Now(), index);
        ProgressTransitive(start, linked, Now(), index);
      } else {
        e := None;
      }
    }

    lemma {:induction false} Mismatched(index: nat, off: nat, d: R.Dependency)
      requires Good() && d.identity in indices && indices[d.identity] < |graph.objects|
      requires graph.objects[indices[d.identity]].image != d.image && Asked(acquired, graph.objects, index, off, d)
      ensures Halted(Now(), Halt(Now(), memory.State(), -1, -1), IdentityImageMismatch, d.identity)
    {
      hide Reached, Halted;
      AskedHanded(acquired, graph.objects, index, off, d);
      HaltHere(-1, -1, IdentityImageMismatch, d.identity);
    }

    /** The dependency is new: it is discovered, linked and loaded. */
    method FollowNew(index: nat, depth: nat, d: R.Dependency, ghost off: nat, ghost trail: seq<nat>)
      returns (e: Option<Failure>, ghost h: Halt)
      requires Good() && first <= index < |graph.objects| && depth <= options.maxDepth && d.identity !in indices
      requires |trail| == depth + 1 && IsPath(graph.objects, trail, first, index) && Loadings(states, trail)
      requires states[index] == Loading && graph.objects[index].load.Some? && d.requestedName != [] && d.identity != []
      requires Asked(acquired, graph.objects, index, off, d) && |d.image| <= Slack(Fixed(), Now())
      modifies this, graph, provider, memory, memory.buffer
      ensures e.Some? ==> Halted(old(Now()), h, e.value.error, e.value.identity)
      ensures e.None? ==> Good() && Progress(old(Now()), Now(), index) && Slack(Fixed(), Now()) >= old(Slack(Fixed(), Now())) - |d.image|
      ensures e.None? ==> index < |graph.objects| && states[index] == Loading && FollowsAt(acquired, graph.objects, index, off)
      ensures e.None? ==> Edged(graph.objects[index], old(graph.objects[index]), 1)
      decreases options.maxDepth + 1 - depth, 0, 0
    {
      hide Reached, Progress, Slack, FollowsAt, Onward, Stuck, KeepsMapped, IsPath, Loadings, Asked, Halted, OnlyAt, Grown;
      ghost var start := Now();
      h := Halt(start, memory.State(), -1, -1);
      ReachedFacts(Fixed(), base, h);
      var target := |graph.objects|;
      if |graph.objects| >= options.maxObjects {
        TooMany(index, off, d);
        return Some(Failure(TooManyObjects, d.identity, d.requestedName)), h;
      }
      graph.objects := graph.objects + [NewObject(d.identity, d.image)];
      states := states + [Discovered];
      indices := indices[d.identity := target];
      graph.objects := graph.objects[index := WithEdge(graph.objects[index], Edge(d.requestedName, target))];
      ghost var attached := Now();
      IsAttached(start, index, d, graph.objects);
      assert attached == Attached(start, index, d);
      AttachedReached(Fixed(), base, start, memory.State(), index, off, d);
      AttachedFacts(start, index, d);
      OnlyAtOnward(Fixed(), start, attached, index);
      TrailAttached(Fixed(), start, index, d, trail);
      LoadingsGrown(start.states, attached.states, trail);
      LoadingsPush(states, trail, index, target);
      TrailRoot(graph.objects, trail + [target], first, target, states);
      e, h := Process(target, depth + 1, true, trail + [target]);
      if e.Some? {
        e := Some(WithName(e.value, d.requestedName));
        HaltBefore(start, attached, h, e.value.error, e.value.identity);
        return;
      }
      ChildDone(start, attached, Now(), index);
      ProgressSame(attached, Now(), -1, index);
      FollowsAtKept(attached.acquired, attached.objects, acquired, graph.objects, index, off);
    }

    lemma {:induction false} TooMany(index: nat, off: nat, d: R.Dependency)
      requires Good() && d.identity !in indices && |graph.objects| >= options.maxObjects && Asked(acquired, graph.objects, index, off, d)
      ensures Halted(Now(), Halt(Now(), memory.State(), -1, -1), TooManyObjects, d.identity)
    {
      ReachedFacts(Fixed(), base, Halt(Now(), memory.State(), -1, -1));
      hide Reached, Halted;
      AskedHanded(acquired, graph.objects, index, off, d);
      HaltHere(-1, -1, TooManyObjects, d.identity);
    }
  }

  // ------------------------------------------------------------------------- small lemmas

  /** A failure without a requested name gets the one being followed. */
  function WithName(f: Failure, name: Name): Failure {
    if f.requestedName == [] then f.(requestedName := name) else f
  }

  /** `o` is `before` with `k` more edges. */
  predicate Edged(o: Object, before: Object, k: nat) {
    o.(dependencies := []) == before.(dependencies := []) && |o.dependencies| == |before.dependencies| + k
  }

  /** `d` is what was handed over for the next needed name of object `i`. */
  ghost predicate Asked(log: seq<Acquisition>, g: Graph, i: nat, off: nat, d: R.Dependency) {
    && FollowsAt(log, g, i, off) && |g[i].dependencies| < |g[i].strings.needed|
    && d == log[off + |g[i].dependencies|].dependency
  }

  lemma {:induction false} AskedHanded(log: seq<Acquisition>, g: Graph, i: nat, off: nat, d: R.Dependency)
    requires Asked(log, g, i, off, d)
    ensures Handed(log, d.identity, d.image)
  {
  }

  /** What every reached state says. */
  lemma {:induction false} ReachedWellFormed(r: Run, base: Space, h: Halt)
    requires Reached(r, base, h)
    ensures WellFormed(h.memory)
  {
    hide Invariant, AllGenuine, WellFormed;
  }

  lemma {:induction false} ReachedFacts(r: Run, base: Space, h: Halt)
    requires Reached(r, base, h)
    ensures var c := h.context;
            && c.occurrences <= r.options.maxOccurrences && c.total <= r.options.maxTotalBytes && Slack(r, c) >= 0
            && r.first < |c.objects| == |c.states| && |c.objects| <= r.options.maxObjects
            && (forall i :: 0 <= i < r.first ==> c.states[i] == Loaded)
            && (h.busy >= 0 ==> h.busy < |c.objects| && c.states[h.busy] == Loading && c.objects[h.busy].load.Some?
                                && c.objects[h.busy].dependencies == [])
  {
    hide Indexed, GoodEdges, Rooted, LoadsMatch, Provided, Holding, AllGenuine, JustMapped, Slack, ObjectInvariant;
  }

  lemma {:induction false} WaitingFacts(r: Run, c: Context, i: nat)
    requires Invariant(r, c, -1) && r.first <= i < |c.objects| && c.states[i] == Discovered
    ensures c.objects[i] == NewObject(c.objects[i].identity, c.objects[i].image) && c.objects[i].load.None?
  {
    hide Indexed, GoodEdges, Rooted, LoadsMatch, Provided, Accounts, Follows;
    assert ObjectInvariant(c, i, -1);
  }

  lemma {:induction false} KnownFacts(r: Run, base: Space, h: Halt, identity: Name)
    requires Reached(r, base, h) && identity in h.context.indices
    ensures h.context.indices[identity] < |h.context.objects| && h.context.objects[h.context.indices[identity]].identity == identity
  {
    hide GoodEdges, Rooted, LoadsMatch, Provided, Holding, AllGenuine, Accounts, StateInvariant, JustMapped;
  }

  lemma {:induction false} LoadProblemKinds(s: Space, image: seq<u8>, w: Window, requireDynamic: bool, grants: bool, e: DependencyError)
    requires WellFormed(s) && LoadProblem(s, image, w, requireDynamic, grants, e)
    ensures e.InvalidImage? || e.DependencyNotDynamic? || e.PlacementFailed? || e.LoadFailed?
  {
  }

  lemma {:induction false} MappedNow(r: Run, o: Object, source: Space, s: Space)
    requires WellFormed(source) && WellFormed(s) && source.pageSize == s.pageSize && o.load.Some?
    requires o == NewObject(o.identity, o.image).(load := o.load)
    requires Settled(source, o.image, r.options.placement, s, o.load.value)
    ensures JustMapped(r, o, s)
  {
    hide Settled, WellFormed;
    assert SettledFrom(source, o, r.options.placement, s);
  }

  lemma {:induction false} NamesGiven(answer: R.Answering, n: nat, o: R.ResolveOptions, needed: seq<Name>, ds: seq<R.Dependency>)
    requires |ds| == |needed|
    requires forall k :: 0 <= k < |ds| ==>
               R.GoodDependency(answer, n + k, o.requester, needed[k], o.maxImageBytes, o.maxTotalBytes, ds, k)
    ensures forall k :: 0 <= k < |ds| ==> ds[k].requestedName != [] && ds[k].identity != []
  {
    forall k | 0 <= k < |ds|
      ensures ds[k].requestedName != [] && ds[k].identity != []
    {
      assert R.GoodDependency(answer, n + k, o.requester, needed[k], o.maxImageBytes, o.maxTotalBytes, ds, k);
    }
  }

  /** The bytes of the acquired images; the budget check of the source cannot fire. */
  method SumBytes(ds: seq<R.Dependency>, remaining: nat) returns (acquired: nat)
    requires R.Acquired(ds) <= remaining
    ensures acquired == R.Acquired(ds)
  {
    acquired := 0;
    for i := 0 to |ds|
      invariant acquired + R.Acquired(ds[i..]) == R.Acquired(ds)
    {
      assert ds[i..][1..] == ds[i + 1..];
      assert |ds[i].image| <= remaining - acquired;
      acquired := acquired + |ds[i].image|;
    }
  }

  // ------------------------------------------------------------------ steps and their states

  lemma {:induction false} BegunReached(r: Run, base: Space, c: Context, s: Space, i: nat)
    requires Reached(r, base, Halt(c, s, -1, -1)) && r.first <= i < |c.objects| == |c.states| && c.states[i] == Discovered
    ensures Reached(r, base, Halt(Begun(c, i), s, -1, -1)) && Progress(c, Begun(c, i), i) && Slack(r, Begun(c, i)) == Slack(r, c)
    ensures c.objects[i] == NewObject(c.objects[i].identity, c.objects[i].image) && c.objects[i].load.None?
    ensures base.pageSize == s.pageSize
  {
    hide Invariant, AllGenuine, WellFormed, Progress, Slack;
    BegunKeeps(r, c, i);
    WaitingFacts(r, c, i);
    HoldingPageSize(base, c.loads, s);
  }

  lemma {:induction false} MappedReached(r: Run, base: Space, c: Context, s: Space, s': Space, i: nat, l: Load)
    requires Reached(r, base, Halt(c, s, -1, -1)) && r.first <= i < |c.objects| == |c.states| && c.states[i] == Loading
    requires c.objects[i] == NewObject(c.objects[i].identity, c.objects[i].image) && c.objects[i].load.None?
    requires WellFormed(s) && WellFormed(s') && s'.pageSize == s.pageSize
    requires Layered(s, LoadRanges(l), s') && Settled(s, c.objects[i].image, r.options.placement, s', l)
    ensures var d := Replaced(c, i, c.objects[i].(load := Some(l)), [l]);
            Reached(r, base, Halt(d, s', i, i)) && Progress(c, d, i) && Slack(r, d) == Slack(r, c)
  {
    hide Invariant, Holding, AllGenuine, WellFormed, Progress, Slack, LoadRanges, Settled, Layered, NewObject, JustMapped;
    var o := c.objects[i].(load := Some(l));
    MappedKeeps(r, c, i, l);
    HoldingPush(base, c.loads, s, l, s');
    AllGenuineKept(r, c.objects, s, -1, LoadRanges(l), s');
    AllGenuineBut(r, c.objects, s', i, o);
    MappedNow(r, o, s, s');
  }

  lemma {:induction false} InspectedReached(r: Run, base: Space, c: Context, s: Space, i: nat, o: Object)
    requires Reached(r, base, Halt(c, s, i, i)) && r.first <= i < |c.objects| && WellFormed(s)
    requires Inspected(ViewOf(s), c.objects[i], r.options.maxStringBytes) == Ok(o)
    requires i != r.first ==> DynamicImage(s.pageSize, c.objects[i].image)
    ensures var d := Replaced(c, i, o, []);
            Reached(r, base, Halt(d, s, i, -1)) && Progress(c, d, i) && Slack(r, d) == Slack(r, c)
  {
    hide Invariant, Holding, AllGenuine, WellFormed, Progress, Slack, DynamicImage, Settled, Inspected, NewObject;
    var source :| SettledFrom(source, c.objects[i], r.options.placement, s);
    GenuineNow(r, c.objects, i, o, source, s);
    InspectedKeeps(r, c, i, o);
    assert c.loads + [] == c.loads;
  }

  lemma {:induction false} CountedReached(r: Run, base: Space, c: Context, s: Space, i: nat, ds: seq<R.Dependency>)
    requires Reached(r, base, Halt(c, s, i, -1)) && r.first <= i < |c.objects| && |ds| == |c.objects[i].strings.needed|
    requires c.occurrences + |ds| <= r.options.maxOccurrences && R.Acquired(ds) <= r.options.maxTotalBytes - c.total
    requires forall k :: 0 <= k < |ds| ==>
               R.GoodDependency(r.answer, r.calls + c.occurrences + k, c.objects[i].identity, c.objects[i].strings.needed[k],
                                r.options.maxImageBytes, r.options.maxTotalBytes - c.total, ds, k)
    ensures var d := Counted(c, i, ds);
            && Reached(r, base, Halt(d, s, -1, -1)) && Progress(c, d, i) && Slack(r, d) == Slack(r, c) + R.Acquired(ds)
            && FollowsAt(d.acquired, d.objects, i, |c.acquired|)
  {
    hide Invariant, Holding, AllGenuine, WellFormed, Progress, Slack, FollowsAt, R.GoodDependency, R.Acquired, Block;
    CountedKeeps(r, c, i, ds);
  }

  lemma {:induction false} FinishedReached(r: Run, base: Space, c: Context, s: Space, i: nat)
    requires Reached(r, base, Halt(c, s, -1, -1)) && r.first <= i < |c.objects| == |c.states| && c.states[i] == Loading
    requires c.objects[i].load.Some? && |c.objects[i].dependencies| == |c.objects[i].strings.needed|
    ensures Reached(r, base, Halt(Finished(c, i), s, -1, -1)) && Slack(r, Finished(c, i)) == Slack(r, c)
  {
    hide Invariant, Holding, AllGenuine, WellFormed;
    FinishedKeeps(r, c, i);
  }

  lemma {:induction false} LinkedReached(r: Run, base: Space, c: Context, s: Space, i: nat, off: nat, d: R.Dependency, target: nat)
    requires Reached(r, base, Halt(c, s, -1, -1)) && r.first <= i < |c.objects| == |c.states| && c.states[i] == Loading
    requires c.objects[i].load.Some? && d.requestedName != [] && Asked(c.acquired, c.objects, i, off, d)
    requires target < |c.objects| && c.objects[target].identity == d.identity && c.objects[target].image == d.image
    ensures var n := Linked(c, i, Edge(d.requestedName, target));
            && Reached(r, base, Halt(n, s, -1, -1)) && Progress(c, n, i) && Slack(r, n) == Slack(r, c)
            && FollowsAt(n.acquired, n.objects, i, off) && Edged(n.objects[i], c.objects[i], 1)
  {
    hide Invariant, Holding, AllGenuine, WellFormed, FollowsAt, Progress, Slack;
    AskedEdge(c.acquired, c.objects, i, off, d, target);
    LinkedKeeps(r, c, i, off, Edge(d.requestedName, target));
    AllGenuineLinked(r, c.objects, s, -1, i, Edge(d.requestedName, target));
  }

  lemma {:induction false} AskedEdge(log: seq<Acquisition>, g: Graph, i: nat, off: nat, d: R.Dependency, target: nat)
    requires Asked(log, g, i, off, d) && target < |g| && g[target].identity == d.identity && g[target].image == d.image
    ensures NextEdge(log, g, i, off, g, Edge(d.requestedName, target))
  {
    assert AskFollows(log, g[i], off, |g[i].dependencies|);
  }

  lemma {:induction false} IsAttached(c: Context, i: nat, d: R.Dependency, g: Graph)
    requires i < |c.objects|
    requires g == (c.objects + [NewObject(d.identity, d.image)])
                  [i := WithEdge((c.objects + [NewObject(d.identity, d.image)])[i], Edge(d.requestedName, |c.objects|))]
    ensures g == Attached(c, i, d).objects
  {
  }

  lemma {:induction false} AttachedReached(r: Run, base: Space, c: Context, s: Space, i: nat, off: nat, d: R.Dependency)
    requires Reached(r, base, Halt(c, s, -1, -1)) && r.first <= i < |c.objects| == |c.states| && c.states[i] == Loading
    requires c.objects[i].load.Some? && d.requestedName != [] && d.identity != [] && d.identity !in c.indices
    requires Asked(c.acquired, c.objects, i, off, d) && |c.objects| < r.options.maxObjects && |d.image| <= Slack(r, c)
    ensures var n := Attached(c, i, d);
            && Reached(r, base, Halt(n, s, -1, -1)) && OnlyAt(c, n, i) && Slack(r, n) == Slack(r, c) - |d.image|
            && FollowsAt(n.acquired, n.objects, i, off) && Edged(n.objects[i], c.objects[i], 1)
  {
    hide Invariant, Holding, AllGenuine, WellFormed, FollowsAt, OnlyAt, Slack, Grown;
    AttachedKeeps(r, c, i, off, d);
    AttachedFacts(c, i, d);
    AllGenuineGrown(r, c.objects, s, -1, i, d);
  }

  lemma {:induction false} OnlyAtOnward(r: Run, c: Context, d: Context, i: nat)
    requires OnlyAt(c, d, i) && r.first <= i
    ensures Onward(r, c, d) && EdgesKept(c.objects, d.objects)
  {
    hide EdgesKept;
  }

  /** One object may change if it is the one skipped. */
  lemma {:induction false} AllGenuineBut(r: Run, g: Graph, t: Space, i: nat, o: Object)
    requires WellFormed(t) && AllGenuine(r, g, t, -1) && i < |g|
    ensures AllGenuine(r, g[i := o], t, i)
  {
    hide Genuine;
  }

  // ---------------------------------------------------------------------------- the chain

  lemma {:induction false} TrailKept(c: Context, d: Context, at: nat, trail: seq<nat>, u: nat, w: nat)
    requires Progress(c, d, at) && IsPath(c.objects, trail, u, w) && Loadings(c.states, trail) && w == at
    ensures IsPath(d.objects, trail, u, w) && Loadings(d.states, trail)
  {
    PathKept(c.objects, d.objects, trail, u, w);
    hide EdgesKept;
  }

  lemma {:induction false} TrailOn(g: Graph, trail: seq<nat>, u: nat, w: nat, x: nat)
    requires IsPath(g, trail, u, w) && Adjacent(g, w, x)
    ensures IsPath(g, trail + [x], u, x)
  {
    var q := trail + [x];
    forall k | 0 <= k < |q| - 1 ensures Adjacent(g, q[k], q[k + 1]) {
      if k < |trail| - 1 { assert Adjacent(g, trail[k], trail[k + 1]); }
    }
  }

  lemma {:induction false} TrailLinked(g: Graph, i: nat, e: Edge, trail: seq<nat>, u: nat)
    requires i < |g| && IsPath(g, trail, u, i)
    ensures IsPath(g[i := WithEdge(g[i], e)], trail + [e.target], u, e.target) && trail[|trail| - 1] == i
  {
    assert trail[|trail| - 1] == i;
    hide IsPath;
    var h := g[i := WithEdge(g[i], e)];
    forall a: nat, b: nat | Adjacent(g, a, b) ensures Adjacent(h, a, b) {
      LinkedEdges(g, i, e, a, b);
    }
    LinkedEdges(g, i, e, i, i);
    PathKept(g, h, trail, u, i);
    TrailOn(h, trail, u, i, e.target);
  }

  lemma {:induction false} TrailAttached(r: Run, c: Context, i: nat, d: R.Dependency, trail: seq<nat>)
    requires i < |c.objects| && IsPath(c.objects, trail, r.first, i) && EdgesKept(c.objects, Attached(c, i, d).objects)
    ensures IsPath(Attached(c, i, d).objects, trail + [|c.objects|], r.first, |c.objects|) && trail[|trail| - 1] == i
  {
    assert trail[|trail| - 1] == i;
    hide IsPath, EdgesKept;
    var h := Attached(c, i, d).objects;
    PathKept(c.objects, h, trail, r.first, i);
    assert Targets(h, i)[|c.objects[i].dependencies|] == |c.objects|;
    TrailOn(h, trail, r.first, i, |c.objects|);
  }

  lemma {:induction false} LoadingsPush(states: seq<ObjectState>, trail: seq<nat>, index: nat, target: nat)
    requires Loadings(states, trail) && trail != [] && trail[|trail| - 1] == index
    requires index < |states| && states[index] == Loading && target < |states| && states[target] == Discovered
    ensures Loadings(states, trail + [target])
  {
    var more := trail + [target];
    forall k | 0 <= k < |trail|
      ensures trail[k] < |states| && states[trail[k]] == Loading
    {
      if k == |trail| - 1 {
        assert trail[k] == index;
      }
    }
    forall j, k | 0 <= j < k < |more|
      ensures more[j] != more[k]
    {
      if k == |trail| {
        assert more[j] == trail[j];
      }
    }
  }

  lemma {:induction false} LoadingsGrown(states: seq<ObjectState>, more: seq<ObjectState>, trail: seq<nat>)
    requires Loadings(states, trail) && |states| <= |more| && more[..|states|] == states
    ensures Loadings(more, trail)
  {
  }

  /** The chain starts at the root, so a waiting object on it is not the root. */
  lemma {:induction false} TrailRoot(g: Graph, trail: seq<nat>, first: nat, target: nat, states: seq<ObjectState>)
    requires IsPath(g, trail, first, target) && Loadings(states, trail) && |trail| > 1
    ensures target != first
  {
  }

  // ------------------------------------------------------------------------ loading a root

  /** The checks both entry points make of the root before anything else. */
  function RootProblem(root: Source, o: LoadOptions): Option<DependencyError> {
    if o.maxObjects == 0 then Some(InvalidOptions)
    else if root.identity == [] then Some(EmptyRootIdentity)
    else if root.image == [] then Some(EmptyRootImage)
    else if |root.image| > o.maxImageBytes then Some(ImageTooLarge)
    else if |root.image| > o.maxTotalBytes then Some(TotalImageBytesExceeded)
    else None
  }

  /** The same checks in the order of the source. */
  method CheckRoot(root: Source, o: LoadOptions) returns (r: Option<DependencyError>)
    ensures r == RootProblem(root, o)
    ensures r.None? <==> o.maxObjects > 0 && root.identity != [] && 0 < |root.image| <= Min(o.maxImageBytes, o.maxTotalBytes)
  {
    if o.maxObjects == 0 {
      return Some(InvalidOptions);
    }
    if root.identity == [] {
      return Some(EmptyRootIdentity);
    }
    if root.image == [] {
      return Some(EmptyRootImage);
    }
    if |root.image| > o.maxImageBytes {
      return Some(ImageTooLarge);
    }
    if |root.image| > o.maxTotalBytes {
      return Some(TotalImageBytesExceeded);
    }
    return None;
  }

  ghost predicate UniqueIdentities(g: Graph) {
    && (forall i :: 0 <= i < |g| ==> g[i].identity != [])
    && (forall i, j :: 0 <= i < j < |g| ==> g[i].identity != g[j].identity)
  }

  /** The objects from the root on are a complete load: identities unique over the whole graph,
      every edge in range, each new object the root or handed over by the provider, loaded,
      reachable from the root, and with one edge per needed name, in order, to what the provider
      answered.  Every needed name was asked for exactly once, and all that was acquired, repeats
      included, stays within the budgets. */
  ghost predicate LoadedFrom(r: Run, c: Context) {
    var g := c.objects;
    && r.first < |g| <= r.options.maxObjects && Provided(r, c)
    && UniqueIdentities(g) && GoodEdges(g) && Rooted(g, r.first)
    && (forall i :: r.first <= i < |g| ==>
          g[i].load.Some? && Follows(c.acquired, g, i) && |g[i].dependencies| == |g[i].strings.needed|)
    && GoodLog(r, c.acquired) && |c.acquired| == NeededTotal(g, r.first, -1)
    && ImageBytes(g, r.first) <= |r.root.image| + LogBytes(c.acquired)
    && LoadsMatch(c, r.first)
  }

  function RootContext(g: Graph, indices: map<Name, nat>, root: Source): Context {
    Context(g + [NewObject(root.identity, root.image)], indices[root.identity := |g|], seq(|g|, _ => Loaded) + [Discovered], [], 0,
            |root.image|, [])
  }

  lemma {:induction false} RootSums(g: Graph, root: Source)
    ensures var h := g + [NewObject(root.identity, root.image)];
            ImageBytes(h, |g|) == |root.image| && NeededTotal(h, |g|, -1) == 0
  {
    var h := g + [NewObject(root.identity, root.image)];
    assert h[..|h| - 1] == g;
  }

  lemma {:induction false} RootInvariant(r: Run, g: Graph, indices: map<Name, nat>)
    requires r.first == |g| < r.options.maxObjects && Indexed(g, indices) && GoodEdges(g)
    requires r.root.identity != [] && r.root.identity !in indices && |r.root.image| <= r.options.maxTotalBytes
    ensures Invariant(r, RootContext(g, indices, r.root), -1)
  {
    var c := RootContext(g, indices, r.root);
    ReachesSelf(c.objects, r.first);
    hide Reaches, Follows, ImageBytes, NeededTotal;
    RootSums(g, r.root);
    assert forall i :: 0 <= i < |g| ==> c.objects[i] == g[i];
    assert c.objects[|g|] == NewObject(r.root.identity, r.root.image);
    forall i | r.first <= i < |c.objects|
      ensures ObjectInvariant(c, i, -1)
    {
    }
  }

  lemma {:induction false} IndexedUnique(g: Graph, indices: map<Name, nat>)
    requires Indexed(g, indices)
    ensures UniqueIdentities(g)
  {
  }

  lemma {:induction false} RootReached(r: Run, g: Graph, indices: map<Name, nat>, s: Space)
    requires WellFormed(s) && r.first == |g| && Invariant(r, RootContext(g, indices, r.root), -1)
    ensures Reached(r, s, Halt(RootContext(g, indices, r.root), s, -1, -1))
    ensures IsPath(RootContext(g, indices, r.root).objects, [r.first], r.first, r.first)
    ensures Loadings(RootContext(g, indices, r.root).states, [r.first])
  {
    hide Invariant;
    LayeredNothing(s, s);
  }

  lemma {:induction false} RootLoaded(r: Run, g: Graph, indices: map<Name, nat>, base: Space, h: Halt)
    requires r.first == |g| && Reached(r, base, h) && h.busy == -1
    requires Progress(RootContext(g, indices, r.root), h.context, -1) && |g| < |h.context.states| && h.context.states[|g|] == Loaded
    ensures LoadedFrom(r, h.context) && h.context.objects[..r.first] == g
  {
    var c := h.context;
    hide Holding, AllGenuine, Indexed, GoodEdges, Rooted, Follows, UniqueIdentities, EdgesKept, GoodLog, NeededTotal, ImageBytes, LogBytes;
    hide LoadsMatch, Handed;
    IndexedUnique(c.objects, c.indices);
    forall i | r.first <= i < |c.objects|
      ensures c.objects[i].load.Some? && Follows(c.acquired, c.objects, i) && |c.objects[i].dependencies| == |c.objects[i].strings.needed|
    {
      assert ObjectInvariant(c, i, -1);
      assert c.states[i] == Loaded;
    }
    assert forall i :: 0 <= i < |g| ==> c.objects[i] == g[i];
  }

  /** The error that started a failure. */
  function Primary(e: DependencyError): DependencyError { if e.RollbackFailed? then e.primary else e }

  lemma {:induction false} HaltSalvage(r: Run, base: Space, h: Halt, s: Space, releases: bool)
    requires Reached(r, base, h) && WellFormed(s) && s.pageSize == h.memory.pageSize && KeepsMapped(h.memory, s)
    requires releases ==> s == h.memory
    ensures Salvage(base, h.context.loads, s, releases)
  {
    hide Invariant, AllGenuine, Holding, Salvage, KeepsMapped;
    FailedSalvage(base, h.context.loads, h.memory, s, releases);
  }

  /** Run a context over a graph that already holds the objects before the root.  `h` is where
      the load ended: complete, or stuck and then rolled back. */
  method LoadRoot(m: MappedGuestMemory, graph: ObjectGraph, indices: map<Name, nat>, root: Source, provider: R.Provider, o: LoadOptions)
    returns (e: Option<Failure>, ghost h: Halt)
    requires m.Valid() && Indexed(graph.objects, indices) && GoodEdges(graph.objects) && |graph.objects| < o.maxObjects
    requires root.identity != [] && root.identity !in indices && |root.image| <= o.maxTotalBytes
    modifies graph, provider, m, m.buffer
    ensures m.Valid() && KeepsMapped(old(m.State()), m.State())
    ensures provider.calls <= old(provider.calls) + o.maxOccurrences
    ensures var r := Run(o, provider.answer, old(provider.calls), root, |old(graph.objects)|);
            && h.context.objects == graph.objects && Onward(r, RootContext(old(graph.objects), indices, root), h.context)
            && (e.Some? ==> Stuck(r, old(m.State()), m.HostGrants(), h, Primary(e.value.error), e.value.identity))
            && (e.None? ==> && LoadedFrom(r, h.context) && h.memory == m.State() && Holding(old(m.State()), h.context.loads, m.State())
                            && AllGenuine(r, graph.objects, m.State(), -1) && provider.calls == old(provider.calls) + |h.context.acquired|)
    ensures |old(graph.objects)| <= |graph.objects| && graph.objects[..|old(graph.objects)|] == old(graph.objects)
    ensures e.Some? && m.HostReleases() ==> m.State() == old(m.State()) && !e.value.error.RollbackFailed?
    ensures e.Some? ==> e.value.error != InvalidLinkMap
  {
    hide Reached, Salvage, KeepsMapped, Progress, Invariant, LoadedFrom, Indexed, GoodEdges, Slack, AllGenuine, Stuck, IsPath, Holding;
    hide Loadings, Onward;
    var first := |graph.objects|;
    ghost var before := graph.objects;
    ghost var base := m.State();
    graph.objects := graph.objects + [NewObject(root.identity, root.image)];
    var context := new GraphLoader(m, provider, graph, o, indices[root.identity := first], seq(first, _ => Loaded) + [Discovered],
                                   |root.image|, root, first);
    RootInvariant(context.Fixed(), before, indices);
    RootReached(context.Fixed(), before, indices, base);
    ghost var start := context.Now();
    assert start == RootContext(before, indices, root);
    e, h := context.Process(first, 0, false, [first]);
    if e.Some? {
      StuckErrors(context.Fixed(), base, m.HostGrants(), h, e.value.error, e.value.identity);
      assert Reached(context.Fixed(), base, h) by { StuckReached(context.Fixed(), base, m.HostGrants(), h, e.value.error, e.value.identity); }
      HaltSalvage(context.Fixed(), base, h, m.State(), m.HostReleases());
      RootPrefix(context.Fixed(), before, indices, h.context);
      var error := RollbackLoads(m, context.loads, e.value.error, base);
      e := Some(e.value.(error := error));
      return;
    }
    h := Halt(context.Now(), m.State(), -1, -1);
    RootLoaded(context.Fixed(), before, indices, base, h);
    RootOnward(context.Fixed(), before, indices, h.context);
    LoadedMemory(context.Fixed(), base, h);
  }

  lemma {:induction false} StuckReached(r: Run, base: Space, grants: bool, h: Halt, e: DependencyError, identity: Name)
    requires Stuck(r, base, grants, h, e, identity)
    ensures Reached(r, base, h)
  {
    hide Reached, Cause;
  }

  lemma {:induction false} RootPrefix(r: Run, g: Graph, indices: map<Name, nat>, c: Context)
    requires r.first == |g| && Onward(r, RootContext(g, indices, r.root), c)
    ensures |g| <= |c.objects| && c.objects[..|g|] == g
  {
    hide EdgesKept;
  }

  lemma {:induction false} RootOnward(r: Run, g: Graph, indices: map<Name, nat>, c: Context)
    requires r.first == |g| && Progress(RootContext(g, indices, r.root), c, -1)
    ensures Onward(r, RootContext(g, indices, r.root), c)
  {
    hide Progress, Onward;
    ProgressOnward(r, RootContext(g, indices, r.root), c, -1);
  }

  lemma {:induction false} LoadedMemory(r: Run, base: Space, h: Halt)
    requires Reached(r, base, h) && h.skip == -1
    ensures Holding(base, h.context.loads, h.memory) && AllGenuine(r, h.context.objects, h.memory, -1)
    ensures WellFormed(base) && KeepsMapped(base, h.memory)
    ensures h.context.occurrences == |h.context.acquired| <= r.options.maxOccurrences
  {
    hide AllGenuine, Indexed, GoodEdges, Rooted, StateInvariant, Provided, LoadsMatch, NeededTotal, LogBytes;
    LayeredOwns(base, AllRanges(h.context.loads), h.memory);
  }

  /** load_elf32_dependency_graph: a transaction.  `h` is where the load ended, reached onward from
      the root alone.  If it fails, `h` is a state from which it cannot go on, for the reported
      reason; if also the host releases pages, the memory is as it was and the error is not
      RollbackFailed; pages mapped before are never touched.  If it succeeds, the memory is the
      old one with exactly the pairwise disjoint page ranges of the new objects on top, each
      holding its image, and the graph says what they hold. */
  method LoadDependencyGraph(m: MappedGuestMemory, root: Source, provider: R.Provider, o: LoadOptions)
    returns (r: Result<Graph, Failure>, ghost h: Halt)
    requires m.Valid()
    modifies m, m.buffer, provider
    ensures m.Valid() && KeepsMapped(old(m.State()), m.State())
    ensures provider.calls <= old(provider.calls) + o.maxOccurrences
    ensures r.Err? && m.HostReleases() ==> m.State() == old(m.State()) && !r.error.error.RollbackFailed?
    ensures RootProblem(root, o).Some? ==>
              && r.Err? && r.error.error == RootProblem(root, o).value
              && m.State() == old(m.State()) && provider.calls == old(provider.calls)
    ensures RootProblem(root, o).None? ==>
              var run := Run(o, provider.answer, old(provider.calls), root, 0);
              && Onward(run, RootContext([], map[], root), h.context)
              && (r.Err? ==> Stuck(run, old(m.State()), m.HostGrants(), h, Primary(r.error.error), r.error.identity))
              && (r.Ok? ==> && r.value == h.context.objects && LoadedFrom(run, h.context) && AllGenuine(run, r.value, m.State(), -1)
                            && AllFromImages(run, r.value, m.State())
                            && Holding(old(m.State()), h.context.loads, m.State())
                            && provider.calls == old(provider.calls) + |h.context.acquired|)
  {
    hide Holding, LoadedFrom, AllGenuine, AllFromImages, Stuck, Onward, KeepsMapped;
    KeepsItself(m.State());
    h := Halt(RootContext([], map[], root), m.State(), -1, -1);
    var problem := CheckRoot(root, o);
    if problem.Some? {
      return Err(Failure(problem.value, if problem.value == EmptyRootIdentity then [] else root.identity, [])), h;
    }
    var graph := new ObjectGraph([]);
    var e: Option<Failure>;
    e, h := LoadRoot(m, graph, map[], root, provider, o);
    if e.Some? {
      return Err(e.value), h;
    }
    AllGenuineMeaning(Run(o, provider.answer, old(provider.calls), root, 0), graph.objects, m.State());
    return Ok(graph.objects), h;
  }
}

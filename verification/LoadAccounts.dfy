/** What a graph load is held to besides its invariant: it owns exactly the pages of its
    loads, every loaded object is what its image and its memory say, and every failure
    has a cause (src/elf/linking/elf32_dependency_loader.cpp:34-67 and 164-331). */
module LoadAccounts {
  import opened Words
  import opened AddressSpaces
  import opened MappedMemory
  import opened Layers
  import opened LoadPlans
  import opened Loader
  import opened LoadImages
  import opened Placement
  import opened Objects
  import opened Graphs
  import opened ObjectLoading
  import opened LoadContexts
  import R = DependencyResolver
  import D = DynamicTable
  import S = LinkerStrings

  // ------------------------------------------------------------------------ page ownership

  /** The ranges of all loads, in mapping order. */
  function AllRanges(loads: seq<Load>): seq<Range> {
    if loads == [] then [] else AllRanges(loads[..|loads| - 1]) + LoadRanges(loads[|loads| - 1])
  }

  lemma {:induction false} AllRangesPush(loads: seq<Load>, l: Load)
    ensures AllRanges(loads + [l]) == AllRanges(loads) + LoadRanges(l)
  {
    assert (loads + [l])[..|loads|] == loads;
  }

  /** The memory is the base plus exactly the recorded loads. */
  ghost predicate Holding(base: Space, loads: seq<Load>, s: Space) {
    Layered(base, AllRanges(loads), s)
  }

  /** What holds of the memory after a failure, before rollback. */
  ghost predicate Salvage(base: Space, loads: seq<Load>, s: Space, releases: bool) {
    && WellFormed(base) && WellFormed(s) && base.pageSize == s.pageSize
    && Owned(base, AllRanges(loads)) && KeepsMapped(base, s)
    && (releases ==> Holding(base, loads, s))
  }

  lemma {:induction false} HoldingPush(base: Space, loads: seq<Load>, mid: Space, l: Load, s: Space)
    requires Holding(base, loads, mid) && Layered(mid, LoadRanges(l), s)
    ensures Holding(base, loads + [l], s)
  {
    hide Layered;
    AllRangesPush(loads, l);
    LayeredTransitive(base, AllRanges(loads), mid, LoadRanges(l), s);
  }

  /** A failed load leaves something to salvage. */
  lemma {:induction false} FailedSalvage(base: Space, loads: seq<Load>, mid: Space, s: Space, releases: bool)
    requires Holding(base, loads, mid) && WellFormed(s) && s.pageSize == mid.pageSize && KeepsMapped(mid, s)
    requires releases ==> s == mid
    ensures Salvage(base, loads, s, releases)
  {
    LayeredOwns(base, AllRanges(loads), mid);
  }

  lemma {:induction false} HoldingPageSize(base: Space, loads: seq<Load>, s: Space)
    requires Holding(base, loads, s)
    ensures WellFormed(s) && s.pageSize == base.pageSize
  {
  }

  // ----------------------------------------------------------------------- genuine objects

  ghost predicate DynamicImage(ps: nat, image: seq<u8>)
    requires ps > 0
  {
    PlanOf(ps, image).Ok? && PlanOf(ps, image).value.imageType.Dynamic?
  }

  /** The object was installed by a load from `s` to `s'` and read there; `t` still holds every page of
      that memory. */
  ghost predicate InstalledObject(o: Object, w: Window, maxString: u32, s: Space, s': Space, t: Space)
    requires WellFormed(t)
  {
    && o.load.Some? && WellFormed(s) && WellFormed(s') && s.pageSize == s'.pageSize == t.pageSize
    && Settled(s, o.image, w, s', o.load.value)
    && Inspected(ViewOf(s'), NewObject(o.identity, o.image).(load := o.load), maxString) == Ok(o.(dependencies := []))
    && KeepsMapped(s', t)
  }

  /** In memory `t`, the object's pages hold exactly its image, placed in the window, and its
      entries, metadata and names are those read from there; a dependency is a dynamic image. */
  ghost predicate Genuine(r: Run, o: Object, dependency: bool, t: Space)
    requires WellFormed(t)
  {
    && (dependency ==> DynamicImage(t.pageSize, o.image))
    && exists s, s' :: InstalledObject(o, r.options.placement, r.options.maxStringBytes, s, s', t)
  }

  /** Every loaded new object is genuine, except perhaps the one at `skip`. */
  ghost predicate AllGenuine(r: Run, g: Graph, t: Space, skip: int)
    requires WellFormed(t)
  {
    forall i :: r.first <= i < |g| && i != skip && g[i].load.Some? ==> Genuine(r, g[i], i != r.first, t)
  }

  /** More pages on top do not change what was mapped. */
  lemma {:induction false} InstalledKept(o: Object, w: Window, maxString: u32, s: Space, s': Space, t: Space, rs: seq<Range>, u: Space)
    requires WellFormed(t) && InstalledObject(o, w, maxString, s, s', t) && Layered(t, rs, u)
    ensures WellFormed(u) && InstalledObject(o, w, maxString, s, s', u)
  {
    hide Settled, Inspected, WellFormed;
    LayeredSize(t, rs, u);
    KeptTwice(s', t, rs, u);
  }

  lemma {:induction false} KeptTwice(s: Space, t: Space, rs: seq<Range>, u: Space)
    requires WellFormed(s) && WellFormed(t) && KeepsMapped(s, t) && Layered(t, rs, u)
    ensures WellFormed(u) && KeepsMapped(s, u)
  {
    LayeredOwns(t, rs, u);
  }

  lemma {:induction false} AllGenuineKept(r: Run, g: Graph, t: Space, skip: int, rs: seq<Range>, u: Space)
    requires WellFormed(t) && AllGenuine(r, g, t, skip) && Layered(t, rs, u)
    ensures WellFormed(u) && AllGenuine(r, g, u, skip)
  {
    hide InstalledObject, DynamicImage, Layered;
    LayeredSize(t, rs, u);
    forall i | r.first <= i < |g| && i != skip && g[i].load.Some?
      ensures Genuine(r, g[i], i != r.first, u)
    {
      var s, s' :| InstalledObject(g[i], r.options.placement, r.options.maxStringBytes, s, s', t);
      InstalledKept(g[i], r.options.placement, r.options.maxStringBytes, s, s', t, rs, u);
    }
  }

  lemma {:induction false} LayeredSize(t: Space, rs: seq<Range>, u: Space)
    requires Layered(t, rs, u)
    ensures WellFormed(u) && u.pageSize == t.pageSize
  {
  }

  /** Edges do not matter. */
  lemma {:induction false} GenuineEdges(r: Run, o: Object, q: Object, dependency: bool, t: Space)
    requires WellFormed(t) && Genuine(r, o, dependency, t) && q.(dependencies := []) == o.(dependencies := [])
    ensures Genuine(r, q, dependency, t)
  {
    hide Settled, Inspected, KeepsMapped, DynamicImage;
    var s, s' :| InstalledObject(o, r.options.placement, r.options.maxStringBytes, s, s', t);
    SameButEdges(o, q);
    assert InstalledObject(q, r.options.placement, r.options.maxStringBytes, s, s', t);
  }

  lemma {:induction false} SameButEdges(o: Object, q: Object)
    requires q.(dependencies := []) == o.(dependencies := [])
    ensures q.load == o.load && q.image == o.image && q.identity == o.identity
  {
    assert q.(dependencies := []).load == q.load && o.(dependencies := []).load == o.load;
    assert q.(dependencies := []).image == q.image && o.(dependencies := []).image == o.image;
    assert q.(dependencies := []).identity == q.identity && o.(dependencies := []).identity == o.identity;
  }

  lemma {:induction false} AllGenuineLinked(r: Run, g: Graph, t: Space, skip: int, i: nat, e: Edge)
    requires WellFormed(t) && AllGenuine(r, g, t, skip) && i < |g|
    ensures AllGenuine(r, g[i := WithEdge(g[i], e)], t, skip)
  {
    hide Genuine;
    var h := g[i := WithEdge(g[i], e)];
    forall j | r.first <= j < |h| && j != skip && h[j].load.Some?
      ensures Genuine(r, h[j], j != r.first, t)
    {
      GenuineEdges(r, g[j], h[j], j != r.first, t);
    }
  }

  lemma {:induction false} AllGenuineGrown(r: Run, g: Graph, t: Space, skip: int, i: nat, d: R.Dependency)
    requires WellFormed(t) && AllGenuine(r, g, t, skip) && i < |g|
    ensures AllGenuine(r, Grown(g, i, d), t, skip)
  {
    hide Genuine;
    var h := Grown(g, i, d);
    forall j | r.first <= j < |h| && j != skip && h[j].load.Some?
      ensures Genuine(r, h[j], j != r.first, t)
    {
      GenuineEdges(r, g[j], h[j], j != r.first, t);
    }
  }

  /** The object just loaded and inspected joins the genuine ones. */
  lemma {:induction false} GenuineNow(r: Run, g: Graph, i: nat, o: Object, s: Space, t: Space)
    requires WellFormed(s) && WellFormed(t) && s.pageSize == t.pageSize && r.first <= i < |g| && AllGenuine(r, g, t, i)
    requires g[i].load.Some? && g[i] == NewObject(g[i].identity, g[i].image).(load := g[i].load)
    requires Settled(s, g[i].image, r.options.placement, t, g[i].load.value)
    requires Inspected(ViewOf(t), g[i], r.options.maxStringBytes) == Ok(o)
    requires i != r.first ==> DynamicImage(t.pageSize, g[i].image)
    ensures AllGenuine(r, g[i := o], t, -1)
  {
    hide Settled, DynamicImage, LoadRanges;
    var h := g[i := o];
    assert o == o.(dependencies := []) && o.identity == g[i].identity && o.image == g[i].image && o.load == g[i].load;
    hide Inspected, NewObject;
    KeepsItself(t);
    assert InstalledObject(o, r.options.placement, r.options.maxStringBytes, s, t, t);
    hide InstalledObject;
    forall j | r.first <= j < |h| && j != -1 && h[j].load.Some?
      ensures Genuine(r, h[j], j != r.first, t)
    {
    }
  }

  // ------------------------------------------------------------------------------- causes

  /** Where a load stopped: its context, the memory it worked on, the object that had not asked
      for its names yet and the one that was not inspected yet (-1 for none). */
  datatype Halt = Halt(context: Context, memory: Space, busy: int, skip: int)

  /** The object was just mapped into `s` and nothing else is known of it. */
  ghost predicate JustMapped(r: Run, o: Object, s: Space)
    requires WellFormed(s)
  {
    && o.load.Some? && o == NewObject(o.identity, o.image).(load := o.load)
    && exists source :: SettledFrom(source, o, r.options.placement, s)
  }

  ghost predicate SettledFrom(source: Space, o: Object, w: Window, s: Space) {
    WellFormed(source) && source.pageSize == s.pageSize && o.load.Some? && Settled(source, o.image, w, s, o.load.value)
  }

  /** A state the load reaches: it keeps the invariant, owns exactly its loads, and its loaded
      objects are genuine, except one that was just mapped. */
  ghost predicate Reached(r: Run, base: Space, h: Halt) {
    && WellFormed(h.memory) && Invariant(r, h.context, h.busy) && Holding(base, h.context.loads, h.memory)
    && AllGenuine(r, h.context.objects, h.memory, h.skip)
    && (h.skip != -1 ==> h.skip == h.busy && 0 <= h.skip < |h.context.objects| && JustMapped(r, h.context.objects[h.skip], h.memory))
  }

  /** The chain of loading objects from the root to a waiting one of this identity. */
  ghost predicate DeepStack(r: Run, c: Context, p: seq<nat>, identity: Name) {
    && |c.states| == |c.objects| && |p| == r.options.maxDepth + 2 && IsPath(c.objects, p, r.first, p[|p| - 1])
    && Loadings(c.states, p) && p[|p| - 1] < |c.objects| && c.states[p[|p| - 1]] == Discovered
    && c.objects[p[|p| - 1]].identity == identity
  }

  /** All objects of the chain but the last are being loaded, and they are pairwise distinct. */
  ghost predicate Loadings(states: seq<ObjectState>, p: seq<nat>) {
    && (forall k :: 0 <= k < |p| - 1 ==> p[k] < |states| && states[p[k]] == Loading)
    && (forall j, k :: 0 <= j < k < |p| ==> p[j] != p[k])
  }

  /** Object `i` has this identity and has not been mapped. */
  ghost predicate NotMapped(r: Run, c: Context, i: nat, identity: Name) {
    r.first <= i < |c.objects| && c.objects[i].identity == identity && c.objects[i].load.None?
  }

  /** The busy object has this identity. */
  ghost predicate Busy(r: Run, h: Halt, identity: Name) {
    r.first <= h.busy < |h.context.objects| && h.context.objects[h.busy].identity == identity
  }

  /** Why the load cannot go on from `h`. */
  ghost predicate Cause(r: Run, grants: bool, h: Halt, e: DependencyError, identity: Name)
    requires WellFormed(h.memory)
  {
    var c := h.context;
    match e
    case MaxDepthExceeded => exists p :: DeepStack(r, c, p, identity)
    case TooManyObjects =>
      |c.objects| == r.options.maxObjects && identity !in c.indices && exists image :: Handed(c.acquired, identity, image)
    case IdentityImageMismatch =>
      identity in c.indices && c.indices[identity] < |c.objects|
      && exists image :: Handed(c.acquired, identity, image) && image != c.objects[c.indices[identity]].image
    case TooManyDependencyOccurrences =>
      && Busy(r, h, identity) && h.skip == -1
      && (|c.objects[h.busy].strings.needed| > 0xffff_ffff
          || c.occurrences + |c.objects[h.busy].strings.needed| > r.options.maxOccurrences)
    case DependencyResolveFailed(x) => Busy(r, h, identity) && h.skip == -1 && ResolutionStops(r, c, h.busy, x)
    case DynamicParseFailed(_) => Unreadable(r, h, e, identity)
    case LinkerMetadataFailed(_) => Unreadable(r, h, e, identity)
    case LinkerStringFailed(_) => Unreadable(r, h, e, identity)
    case InvalidImage(_) => Unloadable(r, grants, h, e, identity)
    case DependencyNotDynamic => Unloadable(r, grants, h, e, identity)
    case PlacementFailed(_) => Unloadable(r, grants, h, e, identity)
    case LoadFailed(_) => Unloadable(r, grants, h, e, identity)
    case _ => false
  }

  /** The next requests of the load, for the names of object `i`, end with this error. */
  ghost predicate ResolutionStops(r: Run, c: Context, i: nat, x: R.ResolveError) {
    && i < |c.objects| && c.total <= r.options.maxTotalBytes && |c.objects[i].strings.needed| < ADDRESS_SPACE
    && R.Resolution(r.answer, r.calls + c.occurrences, c.objects[i].strings.needed,
                    R.ResolveOptions(|c.objects[i].strings.needed|, r.options.maxImageBytes, r.options.maxTotalBytes - c.total,
                                     c.objects[i].identity)) == Err(x)
  }

  ghost predicate Unreadable(r: Run, h: Halt, e: DependencyError, identity: Name)
    requires WellFormed(h.memory)
  {
    && Busy(r, h, identity) && h.skip == h.busy
    && Inspected(ViewOf(h.memory), h.context.objects[h.busy], r.options.maxStringBytes) == Err(e)
  }

  ghost predicate Unloadable(r: Run, grants: bool, h: Halt, e: DependencyError, identity: Name)
    requires WellFormed(h.memory)
  {
    exists i: nat :: NotMapped(r, h.context, i, identity)
                && LoadProblem(h.memory, h.context.objects[i].image, r.options.placement, i != r.first, grants, e)
  }

  /** The load reached `h` and cannot go on from there. */
  ghost predicate Stuck(r: Run, base: Space, grants: bool, h: Halt, e: DependencyError, identity: Name) {
    Reached(r, base, h) && Cause(r, grants, h, e, identity)
  }

  /** The entry points' own errors are not among the causes. */
  lemma {:induction false} StuckErrors(r: Run, base: Space, grants: bool, h: Halt, e: DependencyError, identity: Name)
    requires Stuck(r, base, grants, h, e, identity)
    ensures !e.RollbackFailed? && !e.InvalidLinkMap?
  {
    hide Reached;
  }

  /** A load that is stuck on inspecting an object meets none of the errors the loader rules out. */
  lemma {:induction false} StuckInspection(r: Run, base: Space, grants: bool, h: Halt, e: DependencyError, identity: Name)
    requires Stuck(r, base, grants, h, e, identity) && (e.DynamicParseFailed? || e.LinkerStringFailed?)
    ensures e == DynamicParseFailed(D.TruncatedEntry) || e == DynamicParseFailed(D.Unterminated)
            || e == LinkerStringFailed(S.UnterminatedString) || e == LinkerStringFailed(S.StringTooLong)
  {
    hide Invariant, Holding, AllGenuine, Inspected, Installed, ChosenBase;
    var o := h.context.objects[h.skip];
    var source :| SettledFrom(source, o, r.options.placement, h.memory);
    var b :| ChosenBase(source, o.image, r.options.placement, b) && Installed(source, o.image, b, h.memory, o.load.value);
    InspectAfterLoad(source, b, h.memory, o, r.options.maxStringBytes);
  }
}

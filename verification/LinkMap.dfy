/** The persistent link map and the transactional append of a root
    (src/elf/elf32_link_map.h, src/elf/linking/elf32_dependency_loader.cpp:388-581). */
module LinkMaps {
  import opened Words
  import opened AddressSpaces
  import opened MappedMemory
  import opened Layers
  import opened Loader
  import opened Objects
  import opened Graphs
  import opened ObjectLoading
  import opened LoadContexts
  import opened LoadAccounts
  import opened GraphMeaning
  import opened DependencyLoader
  import opened SortedLists
  import R = DependencyResolver

  datatype Policy = Local | Global

  datatype Root = Root(index: nat, policy: Policy)

  // ------------------------------------------------------------------------------- validity

  ghost predicate GoodRoots(n: nat, roots: seq<Root>) {
    && (forall k :: 0 <= k < |roots| ==> roots[k].index < n)
    && (forall j, k :: 0 <= j < k < |roots| ==> roots[j].index != roots[k].index)
  }

  /** Object `i` belongs to the global scope: by DF_1_GLOBAL or as a global root. */
  predicate MustBeGlobal(g: Graph, roots: seq<Root>, i: nat)
    requires i < |g|
  {
    g[i].metadata.global || Root(i, Global) in roots
  }

  ghost predicate ExactGlobals(g: Graph, roots: seq<Root>, globals: seq<nat>) {
    && Increasing(globals)
    && (forall i :: i in globals ==> i < |g|)
    && (forall i: nat :: i < |g| ==> (i in globals <==> MustBeGlobal(g, roots, i)))
  }

  ghost predicate ValidMap(g: Graph, roots: seq<Root>, globals: seq<nat>) {
    UniqueIdentities(g) && GoodEdges(g) && GoodRoots(|g|, roots) && ExactGlobals(g, roots, globals)
  }

  // ------------------------------------------------------------------------------ preflight

  /** The first preflight loop: identities and edges. */
  method CheckObjects(g: Graph) returns (r: Option<map<Name, nat>>)
    ensures r.Some? <==> UniqueIdentities(g) && GoodEdges(g)
    ensures r.Some? ==> Indexed(g, r.value)
  {
    var indices: map<Name, nat> := map[];
    for i := 0 to |g|
      invariant forall j :: 0 <= j < i ==> g[j].identity != [] && g[j].identity in indices && indices[g[j].identity] == j
      invariant forall id :: id in indices ==> indices[id] < i && g[indices[id]].identity == id
      invariant forall j, k :: 0 <= j < i && 0 <= k < |g[j].dependencies| ==>
                  g[j].dependencies[k].requestedName != [] && g[j].dependencies[k].target < |g|
    {
      if g[i].identity == [] {
        return None;
      }
      if g[i].identity in indices {
        assert g[indices[g[i].identity]].identity == g[i].identity;
        return None;
      }
      indices := indices[g[i].identity := i];
      for k := 0 to |g[i].dependencies|
        invariant forall j :: 0 <= j < k ==> g[i].dependencies[j].requestedName != [] && g[i].dependencies[j].target < |g|
      {
        if g[i].dependencies[k].requestedName == [] || g[i].dependencies[k].target >= |g| {
          return None;
        }
      }
    }
    return Some(indices);
  }

  /** The second: root records, and the marks of the objects that must be global. */
  method RequiredGlobals(g: Graph, roots: seq<Root>) returns (r: Option<seq<bool>>)
    ensures r.Some? <==> GoodRoots(|g|, roots)
    ensures r.Some? ==> |r.value| == |g| && forall i :: 0 <= i < |g| ==> r.value[i] == MustBeGlobal(g, roots, i)
  {
    var seen := seq(|g|, _ => false);
    var required := seq(|g|, i requires 0 <= i < |g| => g[i].metadata.global);
    for k := 0 to |roots|
      invariant |seen| == |required| == |g| && GoodRoots(|g|, roots[..k])
      invariant forall i :: 0 <= i < |g| ==> seen[i] == exists j :: 0 <= j < k && roots[j].index == i
      invariant forall i :: 0 <= i < |g| ==> required[i] == MustBeGlobal(g, roots[..k], i)
    {
      var at := roots[k].index;
      assert roots[..k + 1] == roots[..k] + [roots[k]];
      if at >= |g| {
        return None;
      }
      if seen[at] {
        var j :| 0 <= j < k && roots[j].index == at;
        assert roots[j].index == roots[k].index;
        return None;
      }
      seen := seen[at := true];
      if roots[k].policy == Global {
        required := required[at := true];
      }
    }
    assert roots[..|roots|] == roots;
    return Some(required);
  }

  /** The last two: the recorded scope is strictly increasing and marks exactly the required objects. */
  method CheckGlobals(required: seq<bool>, globals: seq<nat>) returns (ok: bool)
    ensures ok <==> Increasing(globals) && (forall i :: i in globals ==> i < |required|)
                    && (forall i: nat :: i < |required| ==> (i in globals <==> required[i]))
  {
    var seen := seq(|required|, _ => false);
    for k := 0 to |globals|
      invariant |seen| == |required| && Increasing(globals[..k])
      invariant forall j :: 0 <= j < k ==> globals[j] < |required| && required[globals[j]]
      invariant forall i: nat :: i < |required| ==> (seen[i] <==> i in globals[..k])
    {
      var at := globals[k];
      assert globals[..k + 1] == globals[..k] + [at];
      assert at in globals;
      if at >= |required| {
        return false;
      }
      if seen[at] {
        var j :| 0 <= j < k && globals[j] == at;
        assert globals[j] == globals[k];
        return false;
      }
      if !required[at] {
        return false;
      }
      if k > 0 && at <= globals[k - 1] {
        assert !(globals[k - 1] < globals[k]);
        return false;
      }
      seen := seen[at := true];
    }
    assert globals[..|globals|] == globals;
    for i := 0 to |required|
      invariant forall j :: 0 <= j < i ==> required[j] == seen[j]
    {
      if required[i] != seen[i] {
        return false;
      }
    }
    return true;
  }

  /** The preflight accepts exactly the valid maps. */
  method Preflight(g: Graph, roots: seq<Root>, globals: seq<nat>) returns (r: Option<map<Name, nat>>)
    ensures r.Some? <==> ValidMap(g, roots, globals)
    ensures r.Some? ==> Indexed(g, r.value)
  {
    hide UniqueIdentities, GoodEdges, GoodRoots, MustBeGlobal, Increasing, Indexed;
    r := CheckObjects(g);
    if r.None? {
      return;
    }
    var required := RequiredGlobals(g, roots);
    if required.None? {
      return None;
    }
    var ok := CheckGlobals(required.value, globals);
    if !ok {
      return None;
    }
  }

  // ------------------------------------------------------------------------------ recording

  /** Root records are kept in place; a policy only ever changes to Global. */
  ghost predicate Promoted(before: seq<Root>, after: seq<Root>) {
    && |before| <= |after|
    && forall k :: 0 <= k < |before| ==> after[k].index == before[k].index && (after[k].policy == before[k].policy || after[k].policy == Global)
  }

  /** record_root. */
  method RecordRoot(n: nat, roots: seq<Root>, i: nat, policy: Policy) returns (r: seq<Root>)
    requires GoodRoots(n, roots) && i < n
    ensures GoodRoots(n, r) && Promoted(roots, r)
    ensures exists k :: 0 <= k < |r| && r[k].index == i
    ensures forall k :: |roots| <= k < |r| ==> r[k].index == i
    ensures forall j: nat :: Root(j, Global) in r <==> Root(j, Global) in roots || (j == i && policy == Global)
  {
    for k := 0 to |roots|
      invariant forall j :: 0 <= j < k ==> roots[j].index != i
    {
      if roots[k].index == i {
        if policy == Global {
          r := roots[k := Root(i, Global)];
          SetRoot(roots, k);
        } else {
          r := roots;
        }
        return;
      }
    }
    r := roots + [Root(i, policy)];
    assert r[|roots|].index == i;
  }

  lemma {:induction false} SetRoot(roots: seq<Root>, k: nat)
    requires k < |roots|
    ensures forall j: nat :: Root(j, Global) in roots[k := Root(roots[k].index, Global)]
                             <==> Root(j, Global) in roots || j == roots[k].index
  {
    var r := roots[k := Root(roots[k].index, Global)];
    assert r[k] == Root(roots[k].index, Global);
    forall j: nat | Root(j, Global) in roots
      ensures Root(j, Global) in r
    {
      var x :| 0 <= x < |roots| && roots[x] == Root(j, Global);
      assert r[x] == Root(j, Global);
    }
  }

  // -------------------------------------------------------------------------------- the map

  class LinkMap {
    const graph: ObjectGraph
    var roots: seq<Root>
    var globals: seq<nat>

    constructor ()
      ensures fresh(graph) && graph.objects == [] && roots == [] && globals == [] && Valid()
    {
      graph := new ObjectGraph([]);
      roots, globals := [], [];
    }

    ghost predicate Valid()
      reads this, graph
    {
      ValidMap(graph.objects, roots, globals)
    }
  }

  datatype Appended = Appended(root: nat, reused: bool)

  /** The map after a recorded root, relative to the map before. */
  ghost predicate Extended(g: Graph, roots: seq<Root>, globals: seq<nat>, g': Graph, roots': seq<Root>, globals': seq<nat>) {
    && |g| <= |g'| && g'[..|g|] == g
    && Promoted(roots, roots')
    && forall i :: i in globals ==> i in globals'
  }

  /** A known root outside the scope is promoted to Global while a later object is already in it. */
  predicate Reorders(globals: seq<nat>, known: nat, at: nat, policy: Policy) {
    at < known && policy == Global && at !in globals && exists k :: 0 <= k < |globals| && at < globals[k]
  }

  /** The scope is kept sorted, so what was in it stays in front, as insertion order has it, exactly
      unless the root reorders it. */
  lemma {:induction false} ScopeOrder(g: Graph, before: seq<Root>, globals: seq<nat>, known: nat, at: nat, policy: Policy,
                                      roots: seq<Root>, scope: seq<nat>)
    requires known <= |g| && at < |g| && (at < known ==> known == |g|)
    requires ExactGlobals(g[..known], before, globals) && GoodRoots(known, before) && ExactGlobals(g, roots, scope)
    requires forall j: nat :: Root(j, Global) in roots <==> Root(j, Global) in before || (j == at && policy == Global)
    ensures globals <= scope <==> !Reorders(globals, known, at, policy)
  {
    KnownGlobals(g, before, globals, known);
    assert forall x :: x in globals ==> x in scope;
    PrefixOrder(globals, scope);
    if Reorders(globals, known, at, policy) {
      var k :| 0 <= k < |globals| && at < globals[k];
      assert at in scope && globals[k] in globals;
    } else {
      forall x, y | x in globals && y in scope && y !in globals
        ensures x < y
      {
        var k :| 0 <= k < |globals| && globals[k] == x;
      }
    }
  }

  /** Two small objects. */
  function TwoObjects(): Graph { [NewObject([65], [0]), NewObject([66], [0])] }

  lemma {:induction false} TwoValid()
    ensures UniqueIdentities(TwoObjects()) && GoodEdges(TwoObjects())
    ensures UniqueIdentities(TwoObjects()[..1]) && GoodEdges(TwoObjects()[..1])
    ensures !TwoObjects()[0].metadata.global && !TwoObjects()[1].metadata.global && |TwoObjects()| == 2
  {
  }

  /** Two roots, the second Global: the scope is determined by the policy of the first. */
  lemma {:induction false} TwoRoots(policy: Policy, scope: seq<nat>)
    ensures ValidMap(TwoObjects(), [Root(0, policy), Root(1, Global)], scope) <==> scope == if policy == Global then [0, 1] else [1]
  {
    hide UniqueIdentities, GoodEdges, TwoObjects;
    var g, roots := TwoObjects(), [Root(0, policy), Root(1, Global)];
    var expected: seq<nat> := if policy == Global then [0, 1] else [1];
    TwoValid();
    assert roots[0] == Root(0, policy) && roots[1] == Root(1, Global);
    assert MustBeGlobal(g, roots, 1) && (MustBeGlobal(g, roots, 0) <==> policy == Global);
    assert ExactGlobals(g, roots, expected);
    if ValidMap(g, roots, scope) {
      assert forall j: nat :: j in scope <==> j in expected;
      IncreasingUnique(scope, expected);
    }
  }

  /** Append A as Local, B as Global, then A as Global: the scope was [1] and becomes [0, 1], where
      insertion order is [1, 0]. */
  lemma {:induction false} PromotionReorders()
    ensures ValidMap(TwoObjects()[..1], [Root(0, Local)], [])
    ensures ValidMap(TwoObjects(), [Root(0, Local), Root(1, Global)], [1])
    ensures Reorders([1], |TwoObjects()|, 0, Global)
    ensures forall scope: seq<nat> :: ValidMap(TwoObjects(), [Root(0, Global), Root(1, Global)], scope) <==> scope == [0, 1]
    ensures !([1] <= [0, 1])
  {
    TwoValid();
    hide UniqueIdentities, GoodEdges, TwoObjects;
    TwoRoots(Local, [1]);
    forall scope: seq<nat>
      ensures ValidMap(TwoObjects(), [Root(0, Global), Root(1, Global)], scope) <==> scope == [0, 1]
    {
      TwoRoots(Global, scope);
    }
    assert [1][0] != [0, 1][0] && 0 < [1][0];
  }

  /** The scope after recording root `at`: a known object joins if it must, new objects from `known` on are all considered. */
  method RecordGlobals(g: Graph, ghost before: seq<Root>, ghost roots: seq<Root>, globals: seq<nat>, known: nat, at: nat, policy: Policy)
    returns (r: seq<nat>)
    requires known <= |g| && at < |g| && (at < known ==> known == |g|)
    requires ExactGlobals(g[..known], before, globals) && GoodRoots(known, before)
    requires forall j: nat :: Root(j, Global) in roots <==> Root(j, Global) in before || (j == at && policy == Global)
    ensures ExactGlobals(g, roots, r) && forall i :: i in globals ==> i in r
    ensures globals <= r <==> !Reorders(globals, known, at, policy)
  {
    KnownGlobals(g, before, globals, known);
    r := globals;
    if at < known {
      if policy == Global || g[at].metadata.global {
        r := Insert(r, at);
      }
      assert g[..known] == g;
      ScopeOrder(g, before, globals, known, at, policy, roots, r);
      return;
    }
    for i := known to |g|
      invariant Increasing(r) && forall j :: j in globals ==> j in r
      invariant forall j :: j in r ==> j < i
      invariant forall j: nat :: j < i ==> (j in r <==> MustBeGlobal(g, roots, j))
    {
      if (i == at && policy == Global) || g[i].metadata.global {
        r := Insert(r, i);
      }
    }
    ScopeOrder(g, before, globals, known, at, policy, roots, r);
  }

  lemma {:induction false} KnownGlobals(g: Graph, before: seq<Root>, globals: seq<nat>, known: nat)
    requires known <= |g| && ExactGlobals(g[..known], before, globals) && GoodRoots(known, before)
    ensures Increasing(globals) && forall i :: i in globals ==> i < known
    ensures forall j: nat :: j < known ==> (j in globals <==> MustBeGlobal(g, before, j))
    ensures forall j: nat :: j >= known ==> Root(j, Global) !in before
  {
  }

  /** Record a root whose objects are already in the graph.  `known` objects were
      there before; the objects after them are new. */
  method Record(links: LinkMap, known: nat, at: nat, policy: Policy)
    requires known <= |links.graph.objects| && at < |links.graph.objects|
    requires at < known ==> known == |links.graph.objects|
    requires UniqueIdentities(links.graph.objects) && GoodEdges(links.graph.objects)
    requires ValidMap(links.graph.objects[..known], links.roots, links.globals)
    modifies links
    ensures links.Valid()
    ensures Extended(links.graph.objects[..known], old(links.roots), old(links.globals), links.graph.objects, links.roots, links.globals)
    ensures Root(at, policy) in links.roots || Root(at, Global) in links.roots
    ensures forall j: nat :: Root(j, Global) in links.roots <==> Root(j, Global) in old(links.roots) || (j == at && policy == Global)
    ensures old(links.globals) <= links.globals <==> !Reorders(old(links.globals), known, at, policy)
  {
    hide UniqueIdentities, GoodEdges, ExactGlobals, Promoted;
    var g := links.graph.objects;
    ghost var before := links.roots;
    links.roots := RecordRoot(|g|, links.roots, at, policy);
    RecordedRoot(before, links.roots, at, policy);
    links.globals := RecordGlobals(g, before, links.roots, links.globals, known, at, policy);
  }

  lemma {:induction false} RecordedRoot(before: seq<Root>, after: seq<Root>, at: nat, policy: Policy)
    requires exists k :: 0 <= k < |after| && after[k].index == at
    requires forall j: nat :: Root(j, Global) in after <==> Root(j, Global) in before || (j == at && policy == Global)
    ensures Root(at, policy) in after || Root(at, Global) in after
  {
    var k :| 0 <= k < |after| && after[k].index == at;
    assert after[k] in after && (after[k] == Root(at, Local) || after[k] == Root(at, Global));
  }

  /** The checks before anything is looked up. */
  ghost predicate Ready(root: Source, o: LoadOptions, g: Graph, roots: seq<Root>, globals: seq<nat>) {
    RootProblem(root, o).None? && |g| <= o.maxObjects && ValidMap(g, roots, globals)
  }

  predicate Knows(g: Graph, identity: Name) {
    exists i :: 0 <= i < |g| && g[i].identity == identity
  }

  /** append_elf32_link_map_root.  A failure leaves the map exactly as it was, and the
      memory too when the host releases pages; InvalidLinkMap is reported exactly for
      invalid maps; a known identity is reused exactly if its image is the same; a valid map
      stays valid, its objects are only appended to and its root policies only promoted. */
  method Append(m: MappedGuestMemory, links: LinkMap, root: Source, provider: R.Provider, o: LoadOptions, policy: Policy)
    returns (r: Result<Appended, Failure>, ghost h: Halt)
    requires m.Valid()
    modifies m, m.buffer, provider, links, links.graph
    ensures m.Valid() && KeepsMapped(old(m.State()), m.State())
    ensures provider.calls <= old(provider.calls) + o.maxOccurrences
    ensures r.Err? ==> links.graph.objects == old(links.graph.objects) && links.roots == old(links.roots) && links.globals == old(links.globals)
    ensures r.Err? && m.HostReleases() ==> m.State() == old(m.State()) && !r.error.error.RollbackFailed?
    ensures r.Err? && r.error.error == InvalidLinkMap <==>
              RootProblem(root, o).None? && |old(links.graph.objects)| <= o.maxObjects && !old(links.Valid())
    ensures RootProblem(root, o).Some? ==> r.Err? && r.error.error == RootProblem(root, o).value
    ensures RootProblem(root, o).None? && |old(links.graph.objects)| > o.maxObjects ==> r.Err? && r.error.error == TooManyObjects
    ensures Ready(root, o, old(links.graph.objects), old(links.roots), old(links.globals)) ==>
              forall i :: 0 <= i < |old(links.graph.objects)| && old(links.graph.objects)[i].identity == root.identity ==>
                            if old(links.graph.objects)[i].image == root.image then r == Ok(Appended(i, true))
                            else r.Err? && r.error.error == IdentityImageMismatch
    ensures Ready(root, o, old(links.graph.objects), old(links.roots), old(links.globals)) && !Knows(old(links.graph.objects), root.identity) ==>
              if |old(links.graph.objects)| == o.maxObjects then r.Err? && r.error.error == TooManyObjects
              else var run := Run(o, provider.answer, old(provider.calls), root, |old(links.graph.objects)|);
                   && Started(run, old(links.graph.objects), h.context)
                   && (r.Err? ==> Stuck(run, old(m.State()), m.HostGrants(), h, Primary(r.error.error), r.error.identity))
                   && (r.Ok? ==> && r.value == Appended(|old(links.graph.objects)|, false) && links.graph.objects == h.context.objects
                                 && LoadedFrom(run, h.context) && AllGenuine(run, links.graph.objects, m.State(), -1)
                                 && AllFromImages(run, links.graph.objects, m.State())
                                 && Holding(old(m.State()), h.context.loads, m.State())
                                 && provider.calls == old(provider.calls) + |h.context.acquired|)
    ensures r.Ok? ==> old(links.Valid()) && links.Valid() && r.value.root < |links.graph.objects|
    ensures r.Ok? ==> Extended(old(links.graph.objects), old(links.roots), old(links.globals), links.graph.objects, links.roots, links.globals)
    ensures r.Ok? ==> (old(links.globals) <= links.globals
                       <==> !Reorders(old(links.globals), |old(links.graph.objects)|, r.value.root, policy))
    ensures r.Ok? ==> Root(r.value.root, policy) in links.roots || Root(r.value.root, Global) in links.roots
    ensures r.Ok? ==> forall j: nat :: Root(j, Global) in links.roots
                                       <==> Root(j, Global) in old(links.roots) || (j == r.value.root && policy == Global)
    ensures r.Ok? && r.value.reused ==>
              && m.State() == old(m.State()) && links.graph.objects == old(links.graph.objects) && provider.calls == old(provider.calls)
              && links.graph.objects[r.value.root].identity == root.identity && links.graph.objects[r.value.root].image == root.image
  {
    hide Holding, KeepsMapped, ValidMap, Extended, LoadedFrom, Indexed, AllGenuine, AllFromImages, Stuck, Knows, Onward, Reorders, Started;
    KeepsItself(m.State());
    h := Halt(RootContext([], map[], root), m.State(), -1, -1);
    var problem := CheckRoot(root, o);
    if problem.Some? {
      return Err(Failure(problem.value, if problem.value == EmptyRootIdentity then [] else root.identity, [])), h;
    }
    if |links.graph.objects| > o.maxObjects {
      return Err(Failure(TooManyObjects, root.identity, [])), h;
    }
    var indices := Preflight(links.graph.objects, links.roots, links.globals);
    if indices.None? {
      return Err(Failure(InvalidLinkMap, [], [])), h;
    }
    var known := |links.graph.objects|;
    ghost var before := links.graph.objects;
    ValidMapFacts(before, links.roots, links.globals);
    assert before[..known] == before;
    IndexedKnows(before, indices.value, root.identity);
    if root.identity in indices.value {
      IndexedAt(before, indices.value, root.identity);
      var at := indices.value[root.identity];
      if links.graph.objects[at].image != root.image {
        return Err(Failure(IdentityImageMismatch, root.identity, [])), h;
      }
      Record(links, known, at, policy);
      return Ok(Appended(at, true)), h;
    }
    if known >= o.maxObjects {
      return Err(Failure(TooManyObjects, root.identity, [])), h;
    }
    var e: Option<Failure>;
    e, h := LoadRoot(m, links.graph, indices.value, root, provider, o);
    StartedFrom(Run(o, provider.answer, old(provider.calls), root, known), before, indices.value, h.context);
    if e.Some? {
      links.graph.objects := links.graph.objects[..known];
      return Err(e.value), h;
    }
    LoadedFromFacts(Run(o, provider.answer, old(provider.calls), root, known), h.context);
    AllGenuineMeaning(Run(o, provider.answer, old(provider.calls), root, known), links.graph.objects, m.State());
    Record(links, known, known, policy);
    return Ok(Appended(known, false)), h;
  }

  lemma {:induction false} ValidMapFacts(g: Graph, roots: seq<Root>, globals: seq<nat>)
    requires ValidMap(g, roots, globals)
    ensures UniqueIdentities(g) && GoodEdges(g)
  {
  }

  /** The index finds an identity exactly if, and where, the graph holds it. */
  lemma {:induction false} IndexedKnows(g: Graph, indices: map<Name, nat>, id: Name)
    requires Indexed(g, indices)
    ensures Knows(g, id) <==> id in indices
    ensures forall i :: 0 <= i < |g| && g[i].identity == id ==> id in indices && indices[id] == i
  {
  }

  lemma {:induction false} IndexedAt(g: Graph, indices: map<Name, nat>, id: Name)
    requires Indexed(g, indices) && id in indices
    ensures indices[id] < |g| && g[indices[id]].identity == id
  {
  }

  lemma {:induction false} LoadedFromFacts(r: Run, c: Context)
    requires LoadedFrom(r, c)
    ensures r.first < |c.objects| && UniqueIdentities(c.objects) && GoodEdges(c.objects)
  {
  }

  /** The context was reached onward from the objects `g` and the root. */
  ghost predicate Started(r: Run, g: Graph, c: Context) {
    exists indices :: Onward(r, RootContext(g, indices, r.root), c)
  }

  lemma {:induction false} StartedFrom(r: Run, g: Graph, indices: map<Name, nat>, c: Context)
    requires Onward(r, RootContext(g, indices, r.root), c)
    ensures Started(r, g, c)
  {
  }

  // -------------------------------------------------------------------------------- histories

  datatype Request = Request(root: Source, options: LoadOptions, policy: Policy)

  lemma {:induction false} ExtendedSelf(g: Graph, roots: seq<Root>, globals: seq<nat>)
    ensures Extended(g, roots, globals, g, roots, globals)
  {
  }

  lemma {:induction false} ExtendedTransitive(g: Graph, rs: seq<Root>, gs: seq<nat>, g1: Graph, rs1: seq<Root>, gs1: seq<nat>,
                                              g2: Graph, rs2: seq<Root>, gs2: seq<nat>)
    requires Extended(g, rs, gs, g1, rs1, gs1) && Extended(g1, rs1, gs1, g2, rs2, gs2)
    ensures Extended(g, rs, gs, g2, rs2, gs2)
  {
    assert g2[..|g|] == g2[..|g1|][..|g|];
  }

  /** Any history of appends, successful or not, starting from a valid map such as the
      empty one: the map stays valid, so no append ever reports InvalidLinkMap, and what
      was recorded once stays recorded. */
  method AppendAll(m: MappedGuestMemory, links: LinkMap, requests: seq<Request>, provider: R.Provider)
    returns (outcomes: seq<Result<Appended, Failure>>)
    requires m.Valid() && links.Valid()
    modifies m, m.buffer, provider, links, links.graph
    ensures m.Valid() && links.Valid() && |outcomes| == |requests|
    ensures forall k :: 0 <= k < |outcomes| && outcomes[k].Err? ==> outcomes[k].error.error != InvalidLinkMap
    ensures Extended(old(links.graph.objects), old(links.roots), old(links.globals), links.graph.objects, links.roots, links.globals)
  {
    hide ValidMap, Extended, LoadedFrom, Layered, KeepsMapped, AllGenuine, AllFromImages, Stuck, Ready, Knows, Reorders, Started, Holding;
    outcomes := [];
    ExtendedSelf(links.graph.objects, links.roots, links.globals);
    for k := 0 to |requests|
      invariant m.Valid() && links.Valid() && |outcomes| == k
      invariant forall j :: 0 <= j < |outcomes| && outcomes[j].Err? ==> outcomes[j].error.error != InvalidLinkMap
      invariant Extended(old(links.graph.objects), old(links.roots), old(links.globals), links.graph.objects, links.roots, links.globals)
    {
      ghost var g, rs, gs := links.graph.objects, links.roots, links.globals;
      var outcome, _ := Append(m, links, requests[k].root, provider, requests[k].options, requests[k].policy);
      if outcome.Ok? {
        ExtendedTransitive(old(links.graph.objects), old(links.roots), old(links.globals), g, rs, gs,
                           links.graph.objects, links.roots, links.globals);
      }
      outcomes := outcomes + [outcome];
    }
  }
}

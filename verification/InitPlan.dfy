/** Constructor planning: a post-order walk over a possibly cyclic dependency graph
    (src/elf/linking/elf32_lifecycle.cpp:22-198). */
module InitPlans {
  import opened SortedLists
  import opened Words
  import opened Views
  import opened Objects
  import opened Graphs
  import M = MetadataTables

  datatype InitCall = InitCall(owner: nat, arrayIndex: nat, entry: u32)

  datatype DecodeError = InvalidArraySize | RangeOverflow | TooManyEntries | ReadFailed

  datatype InitOptions = InitOptions(maxObjects: u32, maxEntries: u32)

  datatype InitError =
    | InvalidOptions | InvalidRootObject | InvalidGraphEdge(at: nat) | ObjectLimitExceeded(at: nat)
    | EntryLimitExceeded(at: nat) | DecodeFailed(at: nat, cause: DecodeError)

  // ------------------------------------------------------------------------ function arrays

  /** The words of a readable function array. */
  function Entries(v: View, a: FunctionArray): (es: seq<u32>)
    requires M.GoodArray(v, a)
    ensures |es| == a.size / 4
  {
    seq(a.size / 4, k requires 0 <= k < a.size / 4 => DecodeU32(Bytes(v, a.guest + 4 * k, 4), 0))
  }

  /** decode_elf32_function_array. */
  method DecodeFunctionArray(v: View, a: FunctionArray, maxEntries: u32) returns (r: Result<seq<u32>, DecodeError>)
    ensures r.Ok? <==> M.GoodArray(v, a) && a.size / 4 <= maxEntries
    ensures r.Ok? ==> r.value == Entries(v, a)
    ensures r == Err(TooManyEntries) <==> a.size % 4 == 0 && a.size / 4 > maxEntries
  {
    hide DecodeU32;
    if a.size % 4 != 0 {
      return Err(InvalidArraySize);
    }
    var count := a.size / 4;
    if count > maxEntries {
      return Err(TooManyEntries);
    }
    if a.guest + a.size > ADDRESS_SPACE {
      return Err(RangeOverflow);
    }
    var entries: seq<u32> := [];
    for i := 0 to count
      invariant Readable(v, a.guest, 4 * i) && |entries| == i
      invariant forall k :: 0 <= k < i ==> Readable(v, a.guest + 4 * k, 4) && entries[k] == DecodeU32(Bytes(v, a.guest + 4 * k, 4), 0)
    {
      var word := ReadWord(v, a.guest + 4 * i);
      if word.None? {
        return Err(ReadFailed);
      }
      entries := entries + [word.value];
    }
    return Ok(entries);
  }

  /** Null and all-ones words are not functions. */
  predicate Sentinel(f: u32) { f == 0 || f == 0xffff_ffff }

  /** The calls of one array, in array order. */
  function CallsOf(owner: nat, es: seq<u32>): seq<InitCall> {
    if es == [] then []
    else
      var n := |es| - 1;
      CallsOf(owner, es[..n]) + (if Sentinel(es[n]) then [] else [InitCall(owner, n, es[n])])
  }

  /** They are exactly the entries that are not sentinels, each once and in order. */
  lemma {:induction false} CallsOfMeaning(owner: nat, es: seq<u32>)
    ensures forall c :: c in CallsOf(owner, es) <==> c.owner == owner && c.arrayIndex < |es| && c.entry == es[c.arrayIndex] && !Sentinel(c.entry)
    ensures forall j, k :: 0 <= j < k < |CallsOf(owner, es)| ==> CallsOf(owner, es)[j].arrayIndex < CallsOf(owner, es)[k].arrayIndex
  {
    if es == [] {
      return;
    }
    var n := |es| - 1;
    var rest := CallsOf(owner, es[..n]);
    CallsOfMeaning(owner, es[..n]);
    assert forall k :: 0 <= k < |rest| ==> rest[k] in rest;
  }

  /** The constructors of object `i`. */
  function ObjectCalls(v: View, g: Graph, i: nat): seq<InitCall> {
    if i < |g| && g[i].metadata.initArray.Some? && M.GoodArray(v, g[i].metadata.initArray.value)
    then CallsOf(i, Entries(v, g[i].metadata.initArray.value)) else []
  }

  /** The call is that of a word of its owner's DT_INIT_ARRAY which is neither 0 nor all ones. */
  ghost predicate Constructor(v: View, g: Graph, c: InitCall) {
    && c.owner < |g| && g[c.owner].metadata.initArray.Some?
    && var a := g[c.owner].metadata.initArray.value;
       && 4 * c.arrayIndex + 4 <= a.size && Readable(v, a.guest + 4 * c.arrayIndex, 4)
       && c.entry == WordIn(v, a.guest + 4 * c.arrayIndex) && c.entry != 0 && c.entry != 0xffff_ffff
  }

  /** The calls of a usable object are its constructors. */
  lemma {:induction false} ObjectCallsExact(v: View, g: Graph, i: nat, c: InitCall)
    requires i < |g| && (g[i].metadata.initArray.Some? ==> M.GoodArray(v, g[i].metadata.initArray.value))
    ensures c in ObjectCalls(v, g, i) <==> c.owner == i && Constructor(v, g, c)
  {
    hide DecodeU32, WordIn;
    if g[i].metadata.initArray.None? {
      return;
    }
    var a := g[i].metadata.initArray.value;
    CallsOfMeaning(i, Entries(v, a));
    if c.arrayIndex < a.size / 4 {
      EntryWord(v, a, c.arrayIndex);
    }
  }

  lemma {:induction false} EntryWord(v: View, a: FunctionArray, k: nat)
    requires M.GoodArray(v, a) && k < a.size / 4
    ensures Readable(v, a.guest + 4 * k, 4) && Entries(v, a)[k] == WordIn(v, a.guest + 4 * k)
  {
    WordExact(v, a.guest + 4 * k, Entries(v, a)[k]);
  }

  function PlanCalls(v: View, g: Graph, order: seq<nat>): seq<InitCall> {
    if order == [] then [] else PlanCalls(v, g, order[..|order| - 1]) + ObjectCalls(v, g, order[|order| - 1])
  }

  function EntryCount(g: Graph, i: nat): nat {
    if i < |g| && g[i].metadata.initArray.Some? then g[i].metadata.initArray.value.size / 4 else 0
  }

  function TotalEntries(g: Graph, order: seq<nat>): nat {
    if order == [] then 0 else TotalEntries(g, order[..|order| - 1]) + EntryCount(g, order[|order| - 1])
  }

  // ------------------------------------------------------------------------------ the order

  /** Every object comes after the objects it depends on, unless they depend on it too. */
  ghost predicate DependenciesFirst(g: Graph, order: seq<nat>) {
    forall k, w: nat :: 0 <= k < |order| && Adjacent(g, order[k], w) ==> w in order[..k] || Reaches(g, w, order[k])
  }

  /** The objects reachable from the root, each once, dependencies first; all of them usable. */
  ghost predicate InitOrder(v: View, g: Graph, root: nat, order: seq<nat>) {
    && Distinct(order) && DependenciesFirst(g, order)
    && (forall i: nat :: i in order <==> Reaches(g, root, i))
    && (forall k :: 0 <= k < |order| ==> Usable(v, g, order[k]))
  }

  /** Such an order within both limits. */
  ghost predicate Plan(v: View, g: Graph, root: nat, o: InitOptions, order: seq<nat>) {
    InitOrder(v, g, root, order) && |order| <= o.maxObjects && TotalEntries(g, order) <= o.maxEntries
  }

  predicate Usable(v: View, g: Graph, i: nat) {
    i < |g| && (g[i].metadata.initArray.Some? ==> M.GoodArray(v, g[i].metadata.initArray.value))
  }

  // ------------------------------------------------------------------------------- the walk

  datatype VisitState = Unseen | Visiting | Complete

  ghost predicate AllReachable(g: Graph, root: nat, some: set<nat>) {
    forall x :: x in some ==> x < |g| && Reaches(g, root, x)
  }

  /** A set of reachable objects shows that the plan must fail, with `e`. */
  ghost predicate Excuse(v: View, g: Graph, root: nat, o: InitOptions, e: InitError) {
    match e
    case InvalidOptions => o.maxObjects == 0
    case InvalidRootObject => root >= |g|
    case InvalidGraphEdge(i) => i < |g| && Reaches(g, root, i) && exists k :: 0 <= k < |g[i].dependencies| && g[i].dependencies[k].target >= |g|
    case ObjectLimitExceeded(i) =>
      exists seen: set<nat> :: |seen| > o.maxObjects && AllReachable(g, root, seen)
    case EntryLimitExceeded(i) =>
      exists order: seq<nat> :: Distinct(order) && AllReachable(g, root, set x | x in order) && TotalEntries(g, order) > o.maxEntries
    case DecodeFailed(i, _) => Reaches(g, root, i) && i < |g| && !Usable(v, g, i)
  }

  class InitPlanner {
    const view: View
    const graph: Graph
    const options: InitOptions
    ghost const root: nat
    var states: seq<VisitState>
    var visited: nat
    var decoded: nat
    var calls: seq<InitCall>
    /** The completed objects, in order. */
    ghost var order: seq<nat>

    constructor (view: View, graph: Graph, options: InitOptions, ghost root: nat)
      ensures this.view == view && this.graph == graph && this.options == options && this.root == root
      ensures states == seq(|graph|, _ => Unseen) && visited == 0 && decoded == 0 && calls == [] && order == []
    {
      this.view, this.graph, this.options, this.root := view, graph, options, root;
      states, visited, decoded, calls, order := seq(|graph|, _ => Unseen), 0, 0, [], [];
    }

    ghost function Remaining(): set<nat>
      reads this
    {
      set i: nat | i < |states| && states[i] == Unseen
    }

    ghost function Seen(): set<nat>
      reads this
    {
      set i: nat | i < |states| && states[i] != Unseen
    }

    ghost predicate Valid()
      reads this
    {
      && |states| == |graph|
      && Distinct(order) && DependenciesFirst(graph, order)
      && (forall i: nat :: i in order <==> i < |states| && states[i] == Complete)
      && (forall i: nat :: i < |states| && states[i] != Unseen ==> Reaches(graph, root, i))
      && (forall i: nat, w: nat :: i in order && Adjacent(graph, i, w) ==> w < |graph| && states[w] != Unseen)
      && (forall k :: 0 <= k < |order| ==> Usable(view, graph, order[k]))
      && calls == PlanCalls(view, graph, order)
      && decoded == TotalEntries(graph, order) <= options.maxEntries
      && visited == |Seen()| <= options.maxObjects
    }

    /** What a completed visit changes. */
    twostate predicate Advanced()
      reads this
    {
      && |states| == |old(states)|
      && (forall i :: 0 <= i < |states| ==> (states[i] == Visiting <==> old(states[i]) == Visiting))
      && (forall i :: 0 <= i < |states| && old(states[i]) == Complete ==> states[i] == Complete)
    }

    lemma {:induction false} LimitExceeded(i: nat)
      requires Valid() && i < |graph| && states[i] == Unseen && Reaches(graph, root, i) && visited >= options.maxObjects
      ensures Excuse(view, graph, root, options, ObjectLimitExceeded(i))
    {
      hide Reaches, DependenciesFirst, PlanCalls, TotalEntries;
      var seen := Seen() + {i};
      assert |seen| == |Seen()| + 1;
      assert AllReachable(graph, root, seen);
    }

    /** Whoever is being visited reaches the next target, along the edge just followed. */
    lemma {:induction false} TargetReached(i: nat, k: nat)
      requires i < |graph| && k < |graph[i].dependencies| && Reaches(graph, root, i)
      requires forall s: nat :: s < |states| && states[s] == Visiting ==> Reaches(graph, s, i)
      ensures Reaches(graph, root, graph[i].dependencies[k].target)
      ensures forall s: nat :: s < |states| && states[s] == Visiting ==> Reaches(graph, s, graph[i].dependencies[k].target)
    {
      hide Reaches;
      var target := graph[i].dependencies[k].target;
      assert Targets(graph, i)[k] == target;
      ReachesStep(graph, root, i, target);
      forall s: nat | s < |states| && states[s] == Visiting
        ensures Reaches(graph, s, target)
      {
        ReachesStep(graph, s, i, target);
      }
    }

    /** All targets of `i` are visited, so `i` may be appended to the order. */
    lemma {:induction false} Appendable(i: nat)
      requires Valid() && i < |graph| && states[i] == Visiting
      requires forall s: nat :: s < |states| && states[s] == Visiting ==> Reaches(graph, s, i)
      requires forall j :: 0 <= j < |graph[i].dependencies| ==>
                 graph[i].dependencies[j].target < |graph| && states[graph[i].dependencies[j].target] != Unseen
      ensures Distinct(order + [i]) && DependenciesFirst(graph, order + [i])
      ensures forall w: nat :: Adjacent(graph, i, w) ==> w < |graph| && states[w] != Unseen
    {
      hide Reaches, PlanCalls, TotalEntries;
      var more := order + [i];
      assert i !in order;
      forall w: nat | Adjacent(graph, i, w)
        ensures w < |graph| && states[w] != Unseen
      {
        var j :| 0 <= j < |Targets(graph, i)| && Targets(graph, i)[j] == w;
        assert graph[i].dependencies[j].target == w;
      }
      forall k, w: nat | 0 <= k < |more| && Adjacent(graph, more[k], w)
        ensures w in more[..k] || Reaches(graph, w, more[k])
      {
        if k < |order| {
          assert more[..k] == order[..k];
        } else {
          assert more[..k] == order;
        }
      }
    }

    /** The constructors of `i`, within the remaining entry budget. */
    method Constructors(i: nat) returns (r: Result<seq<InitCall>, InitError>)
      requires Valid() && i < |graph| && states[i] == Visiting
      ensures r.Err? ==> Excuse(view, graph, root, options, r.error)
      ensures r.Ok? ==> Usable(view, graph, i) && r.value == ObjectCalls(view, graph, i)
      ensures r.Ok? ==> decoded + EntryCount(graph, i) <= options.maxEntries
    {
      hide Reaches, DependenciesFirst, PlanCalls, TotalEntries, Entries, CallsOf;
      var initArray := graph[i].metadata.initArray;
      if initArray.None? {
        return Ok([]);
      }
      var remaining: u32 := options.maxEntries - decoded;
      var entries := DecodeFunctionArray(view, initArray.value, remaining);
      if entries.Err? {
        if entries.error == TooManyEntries {
          PlanPush(view, graph, order, i);
          assert Distinct(order + [i]);
          assert AllReachable(graph, root, set x | x in order + [i]);
          return Err(EntryLimitExceeded(i));
        }
        return Err(DecodeFailed(i, entries.error));
      }
      var calls := CallsFrom(i, entries.value);
      return Ok(calls);
    }

    /** The targets of `i` are done: append its calls. */
    method Finish(i: nat) returns (e: Option<InitError>)
      requires Valid() && i < |graph| && states[i] == Visiting
      requires forall s: nat :: s < |states| && states[s] == Visiting ==> Reaches(graph, s, i)
      requires forall j :: 0 <= j < |graph[i].dependencies| ==>
                 graph[i].dependencies[j].target < |graph| && states[graph[i].dependencies[j].target] != Unseen
      modifies this
      ensures e.Some? ==> Excuse(view, graph, root, options, e.value)
      ensures e.None? ==> Valid() && states == old(states)[i := Complete]
    {
      hide Reaches, DependenciesFirst, PlanCalls, TotalEntries, Distinct, Usable, ObjectCalls, EntryCount, Excuse, Adjacent;
      var constructors := Constructors(i);
      if constructors.Err? {
        return Some(constructors.error);
      }
      Appendable(i);
      PlanPush(view, graph, order, i);
      decoded := decoded + EntryCount(graph, i);
      calls := calls + constructors.value;
      order := order + [i];
      states := states[i := Complete];
      assert Seen() == old(Seen());
      return None;
    }

    /** Mark `i` as being visited. */
    method Enter(i: nat)
      requires Valid() && i < |graph| && states[i] == Unseen && Reaches(graph, root, i) && visited < options.maxObjects
      modifies this
      ensures Valid() && states == old(states)[i := Visiting]
      ensures Remaining() <= old(Remaining()) - {i} && i in old(Remaining())
    {
      hide Reaches, PlanCalls, TotalEntries, Distinct, DependenciesFirst, Usable, Adjacent;
      visited := visited + 1;
      states := states[i := Visiting];
      assert Seen() == old(Seen()) + {i};
    }

    /** Visit the targets of `i`, which is being visited, in stored order. */
    method VisitTargets(i: nat) returns (e: Option<InitError>)
      requires Valid() && i < |graph| && states[i] == Visiting && Reaches(graph, root, i)
      requires forall s: nat :: s < |states| && states[s] == Visiting ==> Reaches(graph, s, i)
      modifies this
      ensures e.Some? ==> Excuse(view, graph, root, options, e.value)
      ensures e.None? ==> Valid() && Advanced()
      ensures e.None? ==> forall j :: 0 <= j < |graph[i].dependencies| ==>
                            graph[i].dependencies[j].target < |graph| && states[graph[i].dependencies[j].target] != Unseen
      decreases Remaining(), 2
    {
      hide Reaches, Excuse, Valid;
      SameSize();
      for k := 0 to |graph[i].dependencies|
        invariant Valid() && |states| == |graph| && Advanced()
        invariant forall j :: 0 <= j < k ==> graph[i].dependencies[j].target < |graph| && states[graph[i].dependencies[j].target] != Unseen
      {
        var target := graph[i].dependencies[k].target;
        if target >= |graph| {
          BadEdge(view, graph, root, options, i, k);
          return Some(InvalidGraphEdge(i));
        }
        TargetReached(i, k);
        assert Remaining() <= old(Remaining());
        e := Visit(target);
        if e.Some? {
          return;
        }
        SameSize();
      }
      e := None;
    }

    lemma {:induction false} SameSize()
      requires Valid()
      ensures |states| == |graph|
    {
    }

    method Visit(i: nat) returns (e: Option<InitError>)
      requires Valid() && i < |graph| && Reaches(graph, root, i)
      requires forall s: nat :: s < |states| && states[s] == Visiting ==> Reaches(graph, s, i)
      modifies this
      ensures e.Some? ==> Excuse(view, graph, root, options, e.value)
      ensures e.None? ==> Valid() && Advanced() && i < |states| && states[i] != Unseen
      decreases Remaining(), 1
    {
      hide Reaches, Excuse, Valid;
      SameSize();
      if states[i] != Unseen {
        return None;
      }
      if visited >= options.maxObjects {
        LimitExceeded(i);
        return Some(ObjectLimitExceeded(i));
      }
      Enter(i);
      ReachesSelf(graph, i);
      e := VisitTargets(i);
      if e.Some? {
        return;
      }
      e := Finish(i);
    }
  }

  lemma {:induction false} BadEdge(v: View, g: Graph, root: nat, o: InitOptions, i: nat, k: nat)
    requires i < |g| && Reaches(g, root, i) && k < |g[i].dependencies| && g[i].dependencies[k].target >= |g|
    ensures Excuse(v, g, root, o, InvalidGraphEdge(i))
  {
  }

  lemma {:induction false} PlanPush(v: View, g: Graph, order: seq<nat>, i: nat)
    ensures PlanCalls(v, g, order + [i]) == PlanCalls(v, g, order) + ObjectCalls(v, g, i)
    ensures TotalEntries(g, order + [i]) == TotalEntries(g, order) + EntryCount(g, i)
  {
    assert (order + [i])[..|order|] == order;
  }

  /** The loop that drops the sentinels. */
  method CallsFrom(owner: nat, entries: seq<u32>) returns (r: seq<InitCall>)
    ensures r == CallsOf(owner, entries)
  {
    r := [];
    for k := 0 to |entries|
      invariant r == CallsOf(owner, entries[..k])
    {
      assert entries[..k + 1][..k] == entries[..k];
      if !Sentinel(entries[k]) {
        r := r + [InitCall(owner, k, entries[k])];
      }
    }
    assert entries[..|entries|] == entries;
  }

  /** plan_elf32_init_array_calls.  It succeeds exactly when the reachable objects are
      usable and within both limits, and then lists their constructors in an order
      that puts dependencies first. */
  method PlanInitCalls(v: View, g: Graph, root: nat, o: InitOptions) returns (r: Result<seq<InitCall>, InitError>)
    ensures r.Err? ==> Excuse(v, g, root, o, r.error)
    ensures r.Ok? ==> exists order :: Plan(v, g, root, o, order) && r.value == PlanCalls(v, g, order)
    ensures r.Ok? <==> exists order :: Plan(v, g, root, o, order)
  {
    hide Plan;
    if o.maxObjects == 0 {
      Unplannable(v, g, root, o, InvalidOptions);
      return Err(InvalidOptions);
    }
    if root >= |g| {
      Unplannable(v, g, root, o, InvalidRootObject);
      return Err(InvalidRootObject);
    }
    hide Reaches, Excuse, PlanCalls, TotalEntries, Distinct, DependenciesFirst;
    var context := new InitPlanner(v, g, o, root);
    ReachesSelf(g, root);
    StartValid(v, g);
    assert context.Seen() == {};
    var e := context.Visit(root);
    if e.Some? {
      Unplannable(v, g, root, o, e.value);
      return Err(e.value);
    }
    ghost var order := context.order;
    forall i: nat | Reaches(g, root, i)
      ensures i in order
    {
      AllReached(g, root, order, i);
    }
    DistinctSize(order, context.Seen());
    PlanFits(v, g, root, o, order);
    return Ok(context.calls);
  }

  lemma {:induction false} StartValid(v: View, g: Graph)
    ensures Distinct([]) && DependenciesFirst(g, []) && PlanCalls(v, g, []) == [] && TotalEntries(g, []) == 0
  {
  }

  lemma {:induction false} AllReached(g: Graph, root: nat, order: seq<nat>, i: nat)
    requires Reaches(g, root, i) && root in order
    requires forall a: nat, b: nat :: a in order && Adjacent(g, a, b) ==> b in order
    ensures i in order
  {
    hide Reaches;
    var closed := set x | x in order;
    ClosedReaches(g, closed, root, i);
  }

  lemma {:induction false} DistinctSize(order: seq<nat>, all: set<nat>)
    requires Distinct(order) && forall x :: x in order ==> x in all
    ensures |order| <= |all|
    decreases |order|
  {
    if order == [] {
      return;
    }
    var n := |order| - 1;
    var last := order[n];
    assert last !in order[..n];
    assert forall x :: x in order[..n] ==> x in order;
    DistinctSize(order[..n], all - {last});
  }

  // --------------------------------------------------------------------- what a plan means

  lemma {:induction false} ObjectCallsMeaning(v: View, g: Graph, i: nat)
    ensures forall c :: c in ObjectCalls(v, g, i) ==> c.owner == i
    ensures forall j, k :: 0 <= j < k < |ObjectCalls(v, g, i)| ==> ObjectCalls(v, g, i)[j].arrayIndex < ObjectCalls(v, g, i)[k].arrayIndex
  {
    hide CallsOf, Entries;
    if i < |g| && g[i].metadata.initArray.Some? && M.GoodArray(v, g[i].metadata.initArray.value) {
      CallsOfMeaning(i, Entries(v, g[i].metadata.initArray.value));
    }
  }

  /** Calls `p` and `q` of a plan belong to objects `a` and `b` of the order. */
  ghost predicate Places(order: seq<nat>, calls: seq<InitCall>, p: nat, q: nat, a: nat, b: nat)
    requires p < |calls| && q < |calls|
  {
    && a <= b < |order| && order[a] == calls[p].owner && order[b] == calls[q].owner
    && (a == b && p < q ==> calls[p].arrayIndex < calls[q].arrayIndex)
  }

  lemma {:induction false} CallsFollowOrder(v: View, g: Graph, order: seq<nat>, p: nat, q: nat) returns (a: nat, b: nat)
    requires p <= q < |PlanCalls(v, g, order)|
    ensures Places(order, PlanCalls(v, g, order), p, q, a, b)
    decreases |order|
  {
    hide ObjectCalls;
    var n := |order| - 1;
    var rest, last := PlanCalls(v, g, order[..n]), ObjectCalls(v, g, order[n]);
    ObjectCallsMeaning(v, g, order[n]);
    var calls := rest + last;
    assert forall k :: |rest| <= k < |calls| ==> calls[k] == last[k - |rest|] && last[k - |rest|] in last;
    if q < |rest| {
      a, b := CallsFollowOrder(v, g, order[..n], p, q);
    } else if p < |rest| {
      a, b := CallsFollowOrder(v, g, order[..n], p, p);
      b := n;
    } else {
      a, b := n, n;
    }
  }

  lemma {:induction false} PlanMembers(v: View, g: Graph, order: seq<nat>, c: InitCall)
    ensures c in PlanCalls(v, g, order) <==> c.owner in order && c in ObjectCalls(v, g, c.owner)
    decreases |order|
  {
    hide ObjectCalls;
    if order == [] {
      return;
    }
    var n := |order| - 1;
    PlanMembers(v, g, order[..n], c);
    ObjectCallsMeaning(v, g, order[n]);
    assert order == order[..n] + [order[n]];
  }

  /** `u` depends on `w` and `w` does not depend on `u`, directly or not. */
  ghost predicate OneWay(g: Graph, u: nat, w: nat) { Adjacent(g, u, w) && !Reaches(g, w, u) }

  lemma {:induction false} OneWayPosition(g: Graph, order: seq<nat>, a: nat, b: nat)
    requires a < |order| && b < |order| && Distinct(order) && DependenciesFirst(g, order) && OneWay(g, order[a], order[b])
    ensures b < a
  {
    hide Reaches, Adjacent;
    assert order[b] in order[..a];
  }

  lemma {:induction false} UsableObject(v: View, g: Graph, root: nat, order: seq<nat>, i: nat)
    requires InitOrder(v, g, root, order) && Reaches(g, root, i)
    ensures Usable(v, g, i)
  {
    hide Reaches, Usable;
    assert i in order;
  }

  /** A plan holds exactly the constructors of the reachable objects; those of one
      object run once and in array order; and if `u` depends on `w` but not the other
      way round, every constructor of `w` runs before every constructor of `u`, whatever
      cycles the graph has. */
  lemma {:induction false} PlanMeaning(v: View, g: Graph, root: nat, order: seq<nat>)
    requires InitOrder(v, g, root, order)
    ensures var calls := PlanCalls(v, g, order);
            && (forall c :: c in calls <==> Reaches(g, root, c.owner) && Constructor(v, g, c))
            && (forall p, q :: 0 <= p < q < |calls| && calls[p].owner == calls[q].owner ==> calls[p].arrayIndex < calls[q].arrayIndex)
            && (forall p, q :: 0 <= p < |calls| && 0 <= q < |calls| && OneWay(g, calls[q].owner, calls[p].owner) ==> p < q)
  {
    hide Reaches, PlanCalls, ObjectCalls, OneWay, Constructor;
    var calls := PlanCalls(v, g, order);
    forall c
      ensures c in calls <==> Reaches(g, root, c.owner) && Constructor(v, g, c)
    {
      PlanMembers(v, g, order, c);
      if Reaches(g, root, c.owner) {
        UsableObject(v, g, root, order, c.owner);
        ObjectCallsExact(v, g, c.owner, c);
      }
    }
    forall p, q | 0 <= p < q < |calls| && calls[p].owner == calls[q].owner
      ensures calls[p].arrayIndex < calls[q].arrayIndex
    {
      var a, b := CallsFollowOrder(v, g, order, p, q);
    }
    forall p, q | 0 <= p < |calls| && 0 <= q < |calls| && OneWay(g, calls[q].owner, calls[p].owner)
      ensures p < q
    {
      if q <= p {
        var a, b := CallsFollowOrder(v, g, order, q, p);
        OneWayPosition(g, order, a, b);
      }
    }
  }

  // ------------------------------------------------------------------- failures are real

  lemma {:induction false} EntriesWithout(g: Graph, order: seq<nat>, at: nat)
    requires at < |order|
    ensures TotalEntries(g, order) == TotalEntries(g, order[..at] + order[at + 1..]) + EntryCount(g, order[at])
    decreases |order|
  {
    var n := |order| - 1;
    var rest := order[..at] + order[at + 1..];
    if at == n {
      assert rest == order[..n];
      return;
    }
    EntriesWithout(g, order[..n], at);
    assert rest[..n - 1] == order[..n][..at] + order[..n][at + 1..];
    assert rest[n - 1] == order[n];
  }

  lemma {:induction false} FewerEntries(g: Graph, some: seq<nat>, order: seq<nat>)
    requires Distinct(some) && forall x :: x in some ==> x in order
    ensures TotalEntries(g, some) <= TotalEntries(g, order)
    decreases |some|
  {
    hide EntryCount;
    if some == [] {
      return;
    }
    var n := |some| - 1;
    assert some[n] in order;
    var at :| 0 <= at < |order| && order[at] == some[n];
    var rest := order[..at] + order[at + 1..];
    EntriesWithout(g, order, at);
    forall x | x in some[..n]
      ensures x in rest
    {
      assert x in some && x != some[n];
      var k :| 0 <= k < |order| && order[k] == x;
      assert x == if k < at then rest[k] else rest[k - 1];
    }
    FewerEntries(g, some[..n], rest);
  }

  /** A failure is never spurious: with its excuse, no order within the limits exists.
      So a plan is refused exactly when there is none. */
  lemma {:induction false} ExcuseRefutes(v: View, g: Graph, root: nat, o: InitOptions, e: InitError, order: seq<nat>)
    requires Excuse(v, g, root, o, e) && InitOrder(v, g, root, order)
    ensures |order| > o.maxObjects || TotalEntries(g, order) > o.maxEntries
  {
    hide Reaches, TotalEntries, InitOrder, AllReachable;
    ReachesSelf(g, root);
    match e
    case InvalidOptions =>
      ReachableUsable(v, g, root, order, root);
    case InvalidRootObject =>
      ReachableUsable(v, g, root, order, root);
    case InvalidGraphEdge(i) =>
      var k :| 0 <= k < |g[i].dependencies| && g[i].dependencies[k].target >= |g|;
      assert Targets(g, i)[k] == g[i].dependencies[k].target;
      ReachesStep(g, root, i, g[i].dependencies[k].target);
      ReachableUsable(v, g, root, order, g[i].dependencies[k].target);
    case ObjectLimitExceeded(i) =>
      var seen: set<nat> :| |seen| > o.maxObjects && AllReachable(g, root, seen);
      AllInOrder(v, g, root, order, seen);
      SetInOrder(seen, order);
    case EntryLimitExceeded(i) =>
      var some: seq<nat> :| Distinct(some) && AllReachable(g, root, set x | x in some) && TotalEntries(g, some) > o.maxEntries;
      AllInOrder(v, g, root, order, set x | x in some);
      FewerEntries(g, some, order);
    case DecodeFailed(i, _) =>
      ReachableUsable(v, g, root, order, i);
  }

  lemma {:induction false} Unplannable(v: View, g: Graph, root: nat, o: InitOptions, e: InitError)
    requires Excuse(v, g, root, o, e)
    ensures forall order :: !Plan(v, g, root, o, order)
  {
    forall order | InitOrder(v, g, root, order)
      ensures |order| > o.maxObjects || TotalEntries(g, order) > o.maxEntries
    {
      ExcuseRefutes(v, g, root, o, e, order);
    }
  }

  lemma {:induction false} PlanFits(v: View, g: Graph, root: nat, o: InitOptions, order: seq<nat>)
    requires InitOrder(v, g, root, order) && |order| <= o.maxObjects && TotalEntries(g, order) <= o.maxEntries
    ensures Plan(v, g, root, o, order)
  {
  }

  lemma {:induction false} ReachableUsable(v: View, g: Graph, root: nat, order: seq<nat>, i: nat)
    requires InitOrder(v, g, root, order) && Reaches(g, root, i)
    ensures Usable(v, g, i) && i in order
  {
    hide Reaches;
    assert i in order;
  }

  lemma {:induction false} AllInOrder(v: View, g: Graph, root: nat, order: seq<nat>, some: set<nat>)
    requires InitOrder(v, g, root, order) && AllReachable(g, root, some)
    ensures forall x :: x in some ==> x in order
  {
    hide Reaches;
  }

  lemma {:induction false} SetInOrder(seen: set<nat>, order: seq<nat>)
    requires forall x :: x in seen ==> x in order
    ensures |seen| <= |order|
    decreases |order|
  {
    if order == [] {
      assert seen == {};
      return;
    }
    var n := |order| - 1;
    assert order == order[..n] + [order[n]];
    SetInOrder(seen - {order[n]}, order[..n]);
  }
}

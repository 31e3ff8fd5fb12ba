/** Searching a symbol through the scope of a requester (src/elf/linking/elf32_symbol_lookup.cpp:740-919). */
module ScopeSearch {
  import opened SortedLists
  import opened Words
  import opened Views
  import opened Objects
  import opened Graphs
  import V = Versioning
  import opened SymbolIndexes
  import L = SymbolLookup

  datatype GraphSymbol = GraphSymbol(definer: nat, symbol: L.ResolvedSymbol)

  datatype ScopeError =
    | InvalidOptions | InvalidGraphStart(at: nat) | InvalidGraphEdge(at: nat) | InvalidGlobalScopeObject(at: nat)
    | ScopeLimitExceeded(at: nat) | IndexBuildFailed(at: nat, index: IndexError)
    | ObjectLookupFailed(at: nat, lookup: L.LookupError) | SymbolNotFound

  type ScopeVerdict = Result<GraphSymbol, ScopeError>

  datatype Search = Search(view: View, graph: Graph, name: Name, limits: LookupLimits, requirement: Option<V.Requirement>,
                           budget: u32)

  /** What one object says: None when it has no symbol table or does not define the name. */
  function ObjectVerdict(s: Search, i: nat): Option<ScopeVerdict>
    requires i < |s.graph|
  {
    var m := s.graph[i].metadata;
    if m.symbolTable.None? then None
    else match IndexOf(s.view, m, s.limits)
         case Err(e) => Some(Err(IndexBuildFailed(i, e)))
         case Ok(index) =>
           match L.Lookup(s.view, s.graph[i].Bias(), m, index, s.name, s.limits, s.requirement)
           case Ok(symbol) => Some(Ok(GraphSymbol(i, symbol)))
           case Err(e) => if e == L.LookupError.SymbolNotFound then None else Some(Err(ObjectLookupFailed(i, e)))
  }

  /** search_object, for an object of the graph: searched objects are skipped, the rest consume
      the scope budget. */
  function SearchOne(s: Search, i: nat, searched: set<nat>): Option<ScopeVerdict>
    requires i < |s.graph|
  {
    if i in searched then None
    else if |searched| >= s.budget then Some(Err(ScopeLimitExceeded(i)))
    else ObjectVerdict(s, i)
  }

  /** The objects searched before the closure: the requester when it binds symbolically, then the
      global scope. */
  function SearchPrefix(s: Search, list: seq<nat>, searched: set<nat>): (Option<ScopeVerdict>, set<nat>)
    requires Below(list, |s.graph|)
  {
    if list == [] then (None, searched)
    else match SearchOne(s, list[0], searched)
         case Some(r) => (Some(r), searched)
         case None => SearchPrefix(s, list[1..], searched + {list[0]})
  }

  predicate IsNode(g: Graph, i: nat) { i < |g| }

  function Nodes(g: Graph): (r: set<nat>)
    ensures forall i: nat :: i in r <==> i < |g|
  {
    set i: nat | i < |g| && IsNode(g, i)
  }

  predicate Below(list: seq<nat>, n: nat) { forall k :: 0 <= k < |list| ==> list[k] < n }

  /** The edges of one object, as pushed: the first edge out of range stops the search. */
  function Push(g: Graph, at: nat, targets: seq<nat>, expanded: set<nat>): Result<seq<nat>, ScopeError> {
    if targets == [] then Ok([])
    else if targets[0] >= |g| then Err(InvalidGraphEdge(at))
    else
      var rest :- Push(g, at, targets[1..], expanded);
      Ok(if targets[0] in expanded then rest else [targets[0]] + rest)
  }

  /** The closure search: objects are marked when they leave the queue, so one object may wait in
      it several times. */
  function SearchClosure(s: Search, pending: seq<nat>, expanded: set<nat>, searched: set<nat>): ScopeVerdict
    requires expanded <= Nodes(s.graph)
    decreases Nodes(s.graph) - expanded, |pending|
  {
    if pending == [] then Err(SymbolNotFound)
    else
      var i := pending[0];
      if i >= |s.graph| then Err(InvalidGraphEdge(i))
      else match SearchOne(s, i, searched)
           case Some(r) => r
           case None =>
             var searched' := searched + {i};
             if i in expanded then SearchClosure(s, pending[1..], expanded, searched')
             else
               var pushed :- Push(s.graph, i, Targets(s.graph, i), expanded + {i});
               assert i in Nodes(s.graph) - expanded;
               SearchClosure(s, pending[1..] + pushed, expanded + {i}, searched')
  }

  /** lookup_elf32_graph_symbol_impl. */
  function ScopeLookup(s: Search, start: nat, globals: seq<nat>, symbolic: bool): ScopeVerdict {
    if s.budget == 0 then Err(ScopeError.InvalidOptions)
    else if start >= |s.graph| then Err(InvalidGraphStart(start))
    else match FirstOutside(s.graph, globals)
         case Some(i) => Err(InvalidGlobalScopeObject(i))
         case None =>
           var prefix := SearchPrefix(s, (if symbolic then [start] else []) + globals, {});
           if prefix.0.Some? then prefix.0.value else SearchClosure(s, [start], {}, prefix.1)
  }

  function FirstOutside(g: Graph, list: seq<nat>): (r: Option<nat>)
    ensures r.None? <==> Below(list, |g|)
  {
    if list == [] then None else if list[0] >= |g| then Some(list[0]) else FirstOutside(g, list[1..])
  }

  /** lookup_elf32_graph_symbol_for_reference: the requester's version requirement first. */
  function ReferenceLookup(v: View, g: Graph, start: nat, symbol: u32, name: Name, o: LookupLimits, budget: u32,
                           globals: seq<nat>): ScopeVerdict
  {
    if budget == 0 then Err(ScopeError.InvalidOptions)
    else if start >= |g| then Err(InvalidGraphStart(start))
    else match V.RequirementOf(v, g, start, symbol, L.VersionLimits(o))
         case Err(e) => Err(ObjectLookupFailed(start, L.FromVersionError(e)))
         case Ok(requirement) =>
           ScopeLookup(Search(v, g, name, o, requirement, budget), start, globals, g[start].metadata.symbolic)
  }

  // --------------------------------------------------------------------------- the loops

  /** lookup_elf32_graph_symbol_impl with its deque and its two mark arrays. */
  method LookupInScope(s: Search, start: nat, globals: seq<nat>, symbolic: bool) returns (r: ScopeVerdict)
    ensures r == ScopeLookup(s, start, globals, symbolic)
  {
    hide ObjectVerdict, SearchClosure;
    if s.budget == 0 {
      return Err(ScopeError.InvalidOptions);
    }
    if start >= |s.graph| {
      return Err(InvalidGraphStart(start));
    }
    var outside := FirstOutside(s.graph, globals);
    if outside.Some? {
      return Err(InvalidGlobalScopeObject(outside.value));
    }
    var list := (if symbolic then [start] else []) + globals;
    var searched: set<nat> := {};
    var k := 0;
    while k < |list|
      invariant 0 <= k <= |list|
      invariant SearchPrefix(s, list[k..], searched) == SearchPrefix(s, list, {})
    {
      assert list[k..][1..] == list[k + 1..];
      var found := SearchOne(s, list[k], searched);
      if found.Some? {
        return found.value;
      }
      searched := searched + {list[k]};
      k := k + 1;
    }
    r := WalkClosure(s, start, searched);
  }

  method WalkClosure(s: Search, start: nat, searched0: set<nat>) returns (r: ScopeVerdict)
    requires start < |s.graph|
    ensures r == SearchClosure(s, [start], {}, searched0)
  {
    hide ObjectVerdict;
    var searched := searched0;
    var expanded: set<nat> := {};
    var pending: seq<nat> := [start];
    while pending != []
      invariant expanded <= Nodes(s.graph)
      invariant SearchClosure(s, pending, expanded, searched) == SearchClosure(s, [start], {}, searched0)
      decreases Nodes(s.graph) - expanded, |pending|
    {
      var i: nat := pending[0];
      if i >= |s.graph| {
        return Err(InvalidGraphEdge(i));
      }
      var found := SearchOne(s, i, searched);
      if found.Some? {
        return found.value;
      }
      searched := searched + {i};
      if i in expanded {
        pending := pending[1..];
      } else {
        assert i in Nodes(s.graph) - expanded;
        var pushed := PushTargets(s.graph, i, expanded + {i});
        if pushed.Err? {
          return Err(pushed.error);
        }
        expanded := expanded + {i};
        pending := pending[1..] + pushed.value;
      }
    }
    return Err(SymbolNotFound);
  }

  function Prepend(xs: seq<nat>, r: Result<seq<nat>, ScopeError>): Result<seq<nat>, ScopeError> {
    match r
    case Err(e) => Err(e)
    case Ok(rest) => Ok(xs + rest)
  }

  method PushTargets(g: Graph, at: nat, expanded: set<nat>) returns (r: Result<seq<nat>, ScopeError>)
    requires at < |g|
    ensures r == Push(g, at, Targets(g, at), expanded)
  {
    var targets := Targets(g, at);
    var pushed: seq<nat> := [];
    var k := 0;
    assert targets[0..] == targets;
    assert forall rest: seq<nat> :: [] + rest == rest;
    while k < |targets|
      invariant 0 <= k <= |targets|
      invariant Push(g, at, targets, expanded) == Prepend(pushed, Push(g, at, targets[k..], expanded))
    {
      assert targets[k..][1..] == targets[k + 1..];
      assert forall rest: seq<nat> :: pushed + ([targets[k]] + rest) == (pushed + [targets[k]]) + rest;
      if targets[k] >= |g| {
        return Err(InvalidGraphEdge(at));
      }
      if targets[k] !in expanded {
        pushed := pushed + [targets[k]];
      }
      k := k + 1;
    }
    assert pushed + [] == pushed;
    return Ok(pushed);
  }

  // --------------------------------------------------------- the order that is searched

  /** The first occurrences in a list of what is not known yet. */
  function Fresh(list: seq<nat>, known: set<nat>): (r: seq<nat>)
    ensures forall x: nat :: x in r <==> x in list && x !in known
    ensures forall n: nat :: Below(list, n) ==> Below(r, n)
  {
    if list == [] then []
    else
      assert forall n: nat :: Below(list, n) ==> Below(list[1..], n);
      if list[0] in known then Fresh(list[1..], known)
      else [list[0]] + Fresh(list[1..], known + {list[0]})
  }

  function Members(list: seq<nat>): set<nat> { set x | x in list }

  /** Breadth-first order as usually defined: an object is marked when it enters the queue, so it
      enters once. */
  function BreadthFirst(g: Graph, queue: seq<nat>, seen: set<nat>): seq<nat>
    requires EdgesInRange(g) && seen <= Nodes(g) && Members(queue) <= seen
    decreases Nodes(g) - seen, |queue|
  {
    if queue == [] then []
    else
      var x := queue[0];
      assert x in Members(queue);
      var targets := Targets(g, x);
      var added := Fresh(targets, seen);
      SeenGrows(g, x, seen);
      assert queue[1..] + added == queue[1..] || |added| > 0;
      [x] + BreadthFirst(g, queue[1..] + added, seen + Members(targets))
  }

  lemma {:induction false} SeenGrows(g: Graph, x: nat, seen: set<nat>)
    requires EdgesInRange(g) && x < |g| && seen <= Nodes(g)
    ensures seen + Members(Targets(g, x)) <= Nodes(g)
    ensures Fresh(Targets(g, x), seen) == [] ==> seen + Members(Targets(g, x)) == seen
    ensures Fresh(Targets(g, x), seen) != [] ==> Nodes(g) - (seen + Members(Targets(g, x))) < Nodes(g) - seen
  {
    var t := Targets(g, x);
    var added := Fresh(t, seen);
    if added != [] {
      assert added[0] in added;
      assert added[0] in Nodes(g) - seen;
    } else {
      assert forall y :: y in t ==> y in seen by {
        forall y | y in t ensures y in seen { assert y !in added; }
      }
    }
  }

  /** Searching a list of objects from the front, each at most once, within the budget. */
  function Run(s: Search, list: seq<nat>, searched: set<nat>): ScopeVerdict
    requires Below(list, |s.graph|)
  {
    if list == [] then Err(SymbolNotFound)
    else match SearchOne(s, list[0], searched)
         case Some(r) => r
         case None => Run(s, list[1..], searched + {list[0]})
  }

  /** Searching a list without repetitions: the k-th object needs budget k + 1. */
  function Fold(s: Search, order: seq<nat>, k: nat): ScopeVerdict
    requires Below(order, |s.graph|)
    requires k <= |order|
    decreases |order| - k
  {
    if k == |order| then Err(SymbolNotFound)
    else if k >= s.budget then Err(ScopeLimitExceeded(order[k]))
    else if ObjectVerdict(s, order[k]).Some? then ObjectVerdict(s, order[k]).value
    else Fold(s, order, k + 1)
  }

  lemma {:induction false} FreshAppend(xs: seq<nat>, ys: seq<nat>, known: set<nat>)
    ensures Fresh(xs + ys, known) == Fresh(xs, known) + Fresh(ys, known + Members(xs))
    decreases |xs|
  {
    if xs == [] {
      assert xs + ys == ys && known + Members(xs) == known;
    } else {
      assert (xs + ys)[1..] == xs[1..] + ys;
      var known' := if xs[0] in known then known else known + {xs[0]};
      FreshAppend(xs[1..], ys, known');
      MembersCons(xs);
      assert known' + Members(xs[1..]) == known + Members(xs);
    }
  }

  lemma {:induction false} MembersCons(xs: seq<nat>)
    requires xs != []
    ensures Members(xs) == {xs[0]} + Members(xs[1..])
  {
    assert forall x :: x in xs <==> x == xs[0] || x in xs[1..];
  }

  /** Leaving out what is known anyway changes no first occurrence. */
  lemma {:induction false} FreshFiltered(g: Graph, at: nat, targets: seq<nat>, expanded: set<nat>, known: set<nat>)
    requires expanded <= known && Below(targets, |g|)
    ensures Push(g, at, targets, expanded).Ok?
    ensures var pushed := Push(g, at, targets, expanded).value;
            && Fresh(pushed, known) == Fresh(targets, known) && known + Members(pushed) == known + Members(targets)
            && Members(pushed) <= Members(targets)
    decreases |targets|
  {
    if targets != [] {
      var known' := if targets[0] in known then known else known + {targets[0]};
      FreshFiltered(g, at, targets[1..], expanded, known');
      MembersCons(targets);
      var pushed := Push(g, at, targets, expanded).value;
      if targets[0] !in expanded {
        assert pushed[1..] == Push(g, at, targets[1..], expanded).value;
        MembersCons(pushed);
      }
    }
  }

  lemma {:induction false} BreadthFirstInRange(g: Graph, queue: seq<nat>, seen: set<nat>)
    requires EdgesInRange(g) && seen <= Nodes(g) && Members(queue) <= seen
    ensures Below(BreadthFirst(g, queue, seen), |g|)
    decreases Nodes(g) - seen, |queue|
  {
    if queue != [] {
      var x := queue[0];
      assert x in Members(queue);
      var targets := Targets(g, x);
      SeenGrows(g, x, seen);
      BreadthFirstInRange(g, queue[1..] + Fresh(targets, seen), seen + Members(targets));
    }
  }

  /** Marking at the pop searches in breadth-first order all the same: the queue holds the
      breadth-first queue, with repetitions and finished objects in between. */
  lemma {:induction false} ClosureIsBreadthFirst(s: Search, pending: seq<nat>, expanded: set<nat>, searched: set<nat>)
    requires EdgesInRange(s.graph) && expanded <= Nodes(s.graph) && Members(pending) <= Nodes(s.graph) && expanded <= searched
    ensures var queue, seen := Fresh(pending, expanded), expanded + Members(pending);
            && Members(queue) <= seen
            && Below(BreadthFirst(s.graph, queue, seen), |s.graph|)
            && SearchClosure(s, pending, expanded, searched) == Run(s, BreadthFirst(s.graph, queue, seen), searched)
    decreases Nodes(s.graph) - expanded, |pending|
  {
    hide ObjectVerdict;
    var g := s.graph;
    var queue, seen := Fresh(pending, expanded), expanded + Members(pending);
    BreadthFirstInRange(g, queue, seen);
    if pending != [] {
      var i, rest := pending[0], pending[1..];
      assert i in Members(pending);
      MembersCons(pending);
      if i in expanded {
        assert seen == expanded + Members(rest);
        assert searched + {i} == searched;
        ClosureIsBreadthFirst(s, rest, expanded, searched);
      } else {
        assert i in Nodes(g) - expanded;
        ClosureStep(s, pending, expanded, searched);
      }
    }
  }

  lemma {:induction false} ClosureStep(s: Search, pending: seq<nat>, expanded: set<nat>, searched: set<nat>)
    requires EdgesInRange(s.graph) && expanded <= Nodes(s.graph) && Members(pending) <= Nodes(s.graph) && expanded <= searched
    requires pending != [] && pending[0] < |s.graph| && pending[0] !in expanded
    ensures var queue, seen := Fresh(pending, expanded), expanded + Members(pending);
            && Members(queue) <= seen
            && Below(BreadthFirst(s.graph, queue, seen), |s.graph|)
            && SearchClosure(s, pending, expanded, searched) == Run(s, BreadthFirst(s.graph, queue, seen), searched)
    decreases Nodes(s.graph) - expanded, |pending|, 0
  {
    hide ObjectVerdict, SearchClosure, Run, BreadthFirst;
    var g := s.graph;
    var i, rest := pending[0], pending[1..];
    var queue, seen := Fresh(pending, expanded), expanded + Members(pending);
    BreadthFirstInRange(g, queue, seen);
    var expanded' := expanded + {i};
    var targets := Targets(g, i);
    TargetsInRange(g, i);
    MembersCons(pending);
    assert i in Nodes(g) - expanded;
    assert expanded' + Members(rest) == seen;
    FreshFiltered(g, i, targets, expanded', seen);
    var pushed := Push(g, i, targets, expanded').value;
    FreshAppend(rest, pushed, expanded');
    MembersAppend(rest, pushed);
    ClosureIsBreadthFirst(s, rest + pushed, expanded', searched + {i});
    assert queue == [i] + Fresh(rest, expanded');
    assert queue[1..] + Fresh(targets, seen) == Fresh(rest + pushed, expanded');
    assert expanded' + Members(rest + pushed) == seen + Members(targets);
    SeenGrows(g, i, seen);
    var tail := BreadthFirst(g, queue[1..] + Fresh(targets, seen), seen + Members(targets));
    BreadthFirstStep(g, queue, seen);
    SearchSteps(s, pending, expanded, searched, pushed, tail);
  }

  lemma {:induction false} BreadthFirstStep(g: Graph, queue: seq<nat>, seen: set<nat>)
    requires EdgesInRange(g) && seen <= Nodes(g) && Members(queue) <= seen && queue != [] && queue[0] < |g|
    requires var targets := Targets(g, queue[0]); seen + Members(targets) <= Nodes(g) && Members(queue[1..] + Fresh(targets, seen)) <= seen + Members(targets)
    ensures var targets := Targets(g, queue[0]);
            BreadthFirst(g, queue, seen) == [queue[0]] + BreadthFirst(g, queue[1..] + Fresh(targets, seen), seen + Members(targets))
  {
    hide Fresh, Members;
  }

  /** A step of the closure search is a step of the run. */
  lemma {:induction false} SearchSteps(s: Search, pending: seq<nat>, expanded: set<nat>, searched: set<nat>, pushed: seq<nat>, tail: seq<nat>)
    requires expanded <= Nodes(s.graph) && pending != [] && pending[0] < |s.graph| && pending[0] !in expanded
    requires Push(s.graph, pending[0], Targets(s.graph, pending[0]), expanded + {pending[0]}) == Ok(pushed)
    requires expanded + {pending[0]} <= Nodes(s.graph) && Below(tail, |s.graph|)
    requires SearchClosure(s, pending[1..] + pushed, expanded + {pending[0]}, searched + {pending[0]}) == Run(s, tail, searched + {pending[0]})
    ensures SearchClosure(s, pending, expanded, searched) == Run(s, [pending[0]] + tail, searched)
  {
    hide ObjectVerdict, Push;
    assert ([pending[0]] + tail)[1..] == tail;
  }

  lemma {:induction false} TargetsInRange(g: Graph, i: nat)
    requires EdgesInRange(g) && i < |g|
    ensures Below(Targets(g, i), |g|)
    ensures Members(Targets(g, i)) <= Nodes(g)
  {
  }

  lemma {:induction false} MembersAppend(xs: seq<nat>, ys: seq<nat>)
    ensures Members(xs + ys) == Members(xs) + Members(ys)
  {
  }

  lemma {:induction false} PrefixIsRun(s: Search, prefix: seq<nat>, rest: seq<nat>, searched: set<nat>)
    requires Below(prefix + rest, |s.graph|)
    requires Below(prefix, |s.graph|)
    requires Below(rest, |s.graph|)
    ensures var r := SearchPrefix(s, prefix, searched);
            Run(s, prefix + rest, searched) == if r.0.Some? then r.0.value else Run(s, rest, r.1)
    decreases |prefix|
  {
    hide ObjectVerdict;
    if prefix == [] {
      assert prefix + rest == rest;
    } else {
      assert (prefix + rest)[1..] == prefix[1..] + rest;
      PrefixIsRun(s, prefix[1..], rest, searched + {prefix[0]});
    }
  }

  /** Running over a list is folding over its first occurrences. */
  lemma {:induction false} RunIsFold(s: Search, list: seq<nat>, done: seq<nat>)
    requires Below(list, |s.graph|) && Below(done, |s.graph|) && |Members(done)| == |done|
    ensures Below(done + Fresh(list, Members(done)), |s.graph|)
    ensures Run(s, list, Members(done)) == Fold(s, done + Fresh(list, Members(done)), |done|)
    decreases |list|
  {
    hide ObjectVerdict, Members, Fold, Run;
    var order := done + Fresh(list, Members(done));
    if list == [] {
      assert order == done;
      RunFoldEnds(s, done);
      return;
    }
    var x, rest := list[0], list[1..];
    if x in Members(done) {
      assert Members(done) + {x} == Members(done);
      RunIsFold(s, rest, done);
      RunSkips(s, list, Members(done));
    } else {
      MembersSnoc(done, x);
      RunIsFold(s, rest, done + [x]);
      assert order == done + [x] + Fresh(rest, Members(done + [x]));
      RunSteps(s, list, Members(done), order, |done|);
    }
  }

  lemma {:induction false} RunFoldEnds(s: Search, done: seq<nat>)
    requires Below(done, |s.graph|)
    ensures Run(s, [], Members(done)) == Fold(s, done, |done|)
  {
  }

  lemma {:induction false} RunSkips(s: Search, list: seq<nat>, known: set<nat>)
    requires Below(list, |s.graph|) && list != [] && list[0] in known
    ensures Run(s, list, known) == Run(s, list[1..], known)
  {
    assert known + {list[0]} == known;
  }

  /** A step over an object not yet searched is a step of the fold. */
  lemma {:induction false} RunSteps(s: Search, list: seq<nat>, known: set<nat>, order: seq<nat>, k: nat)
    requires Below(list, |s.graph|) && list != [] && list[0] !in known
    requires Below(order, |s.graph|) && k < |order| && order[k] == list[0] && |known| == k
    requires Run(s, list[1..], known + {list[0]}) == Fold(s, order, k + 1)
    ensures Run(s, list, known) == Fold(s, order, k)
  {
    hide ObjectVerdict;
  }

  lemma {:induction false} MembersSnoc(xs: seq<nat>, x: nat)
    ensures Members(xs + [x]) == Members(xs) + {x}
  {
    MembersAppend(xs, [x]);
    assert Members([x]) == {x};
  }

  /** The order of a scope search: the requester when it is symbolic, the global scope, then the
      breadth-first closure of the requester, each object once. */
  function ScopeOrder(g: Graph, start: nat, globals: seq<nat>, symbolic: bool): seq<nat>
    requires EdgesInRange(g) && start < |g|
  {
    Fresh((if symbolic then [start] else []) + globals + BreadthFirst(g, [start], {start}), {})
  }

  /** On a valid graph, scope search folds object lookup over the scope order, up to the budget. */
  lemma {:induction false} ScopeLookupIsFold(s: Search, start: nat, globals: seq<nat>, symbolic: bool)
    requires EdgesInRange(s.graph) && start < |s.graph| && s.budget > 0
    requires Below(globals, |s.graph|)
    ensures Below(ScopeOrder(s.graph, start, globals, symbolic), |s.graph|)
    ensures ScopeLookup(s, start, globals, symbolic) == Fold(s, ScopeOrder(s.graph, start, globals, symbolic), 0)
  {
    hide ObjectVerdict, SearchClosure, BreadthFirst, Fold, Run;
    var prefix := (if symbolic then [start] else []) + globals;
    var r := SearchPrefix(s, prefix, {});
    assert Members([start]) == {start};
    ClosureIsBreadthFirst(s, [start], {}, r.1);
    assert Fresh([start], {}) == [start];
    assert {} + Members([start]) == {start};
    var closure := BreadthFirst(s.graph, [start], {start});
    PrefixIsRun(s, prefix, closure, {});
    assert Members([]) == {};
    RunIsFold(s, prefix + closure, []);
    assert [] + Fresh(prefix + closure, {}) == Fresh(prefix + closure, {});
  }

  predicate OverBudget(r: ScopeVerdict) { r.Err? && r.error.ScopeLimitExceeded? }

  lemma {:induction false} FoldMonotone(s: Search, order: seq<nat>, k: nat, more: u32)
    requires Below(order, |s.graph|)
    requires k <= |order| && s.budget <= more
    ensures !OverBudget(Fold(s, order, k)) ==> Fold(s.(budget := more), order, k) == Fold(s, order, k)
    decreases |order| - k
  {
    var s' := s.(budget := more);
    if k < |order| && k < s.budget {
      assert ObjectVerdict(s', order[k]) == ObjectVerdict(s, order[k]);
      if ObjectVerdict(s, order[k]).None? { FoldMonotone(s, order, k + 1, more); }
    }
  }

  /** Raising the scope budget changes nothing but the report that it is used up; a success stays. */
  lemma {:induction false} BudgetMonotone(s: Search, start: nat, globals: seq<nat>, symbolic: bool, more: u32)
    requires EdgesInRange(s.graph) && 0 < s.budget <= more
    ensures var r := ScopeLookup(s, start, globals, symbolic);
            !OverBudget(r) ==> ScopeLookup(s.(budget := more), start, globals, symbolic) == r
  {
    hide SearchPrefix, SearchClosure, Fold, ScopeOrder;
    if start < |s.graph| && Below(globals, |s.graph|) {
      ScopeLookupIsFold(s, start, globals, symbolic);
      ScopeLookupIsFold(s.(budget := more), start, globals, symbolic);
      FoldMonotone(s, ScopeOrder(s.graph, start, globals, symbolic), 0, more);
    }
  }

  // -------------------------------------------------------- what the order contains

  /** Everything finished or still to come is closed under edges, and nothing comes that is not
      reachable from the queue. */
  lemma {:induction false} BreadthFirstCovers(g: Graph, queue: seq<nat>, seen: set<nat>, start: nat)
    requires EdgesInRange(g) && seen <= Nodes(g) && Members(queue) <= seen
    requires forall a: nat, b: nat :: a in seen && a !in queue && Adjacent(g, a, b) ==> b in seen
    requires forall a: nat :: a in queue ==> Reaches(g, start, a)
    ensures forall a: nat :: a in queue ==> a in BreadthFirst(g, queue, seen)
    ensures forall a: nat :: a in BreadthFirst(g, queue, seen) ==> Reaches(g, start, a)
    ensures forall a: nat, b: nat :: (a in seen || a in BreadthFirst(g, queue, seen)) && Adjacent(g, a, b) ==>
                                     b in seen || b in BreadthFirst(g, queue, seen)
    decreases Nodes(g) - seen, |queue|
  {
    hide Reaches;
    if queue != [] {
      var x := queue[0];
      assert x in Members(queue);
      var targets := Targets(g, x);
      var added := Fresh(targets, seen);
      SeenGrows(g, x, seen);
      var queue', seen' := queue[1..] + added, seen + Members(targets);
      assert forall a: nat :: a in queue <==> a == x || a in queue[1..];
      assert forall a: nat :: a in queue' <==> a in queue[1..] || a in added;
      forall a: nat | a in queue' ensures Reaches(g, start, a) {
        if a in added { ReachesStep(g, start, x, a); }
      }
      BreadthFirstCovers(g, queue', seen', start);
    }
  }

  lemma {:induction false} FreshDistinct(list: seq<nat>, known: set<nat>)
    ensures Distinct(Fresh(list, known))
    decreases |list|
  {
    if list != [] {
      var x := list[0];
      if x in known {
        FreshDistinct(list[1..], known);
      } else {
        var rest := Fresh(list[1..], known + {x});
        FreshDistinct(list[1..], known + {x});
        assert x !in rest;
        var r := [x] + rest;
        forall i, j | 0 <= i < j < |r| ensures r[i] != r[j] {
          assert r[j] == rest[j - 1];
          assert i > 0 ==> r[i] == rest[i - 1];
        }
      }
    }
  }

  /** The scope of a requester holds the global scope and everything the requester reaches, each
      object exactly once. */
  lemma {:induction false} ScopeOrderMeaning(g: Graph, start: nat, globals: seq<nat>, symbolic: bool)
    requires EdgesInRange(g) && start < |g|
    ensures var order := ScopeOrder(g, start, globals, symbolic);
            && (forall x: nat :: x in order <==> x in globals || Reaches(g, start, x))
            && Distinct(order)
  {
    hide BreadthFirst, Reaches;
    var closure := BreadthFirst(g, [start], {start});
    var list := (if symbolic then [start] else []) + globals + closure;
    ReachesSelf(g, start);
    assert Members([start]) == {start};
    BreadthFirstCovers(g, [start], {start}, start);
    assert start in [start];
    forall x: nat | Reaches(g, start, x) ensures x in closure {
      ClosedReaches(g, Members(closure), start, x);
    }
    FreshDistinct(list, {});
    assert forall x: nat :: x in list <==> (symbolic && x == start) || x in globals || x in closure;
  }
}

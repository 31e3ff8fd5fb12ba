/** What a scope search and a reference lookup answer: the verdict of the first object of the scope
    order that is not silent (src/elf/linking/elf32_symbol_lookup.cpp:740-930). */
module ScopeMeaning {
  import opened Words
  import opened Views
  import opened Objects
  import opened Graphs
  import V = Versioning
  import opened SymbolIndexes
  import L = SymbolLookup
  import opened ScopeSearch

  /** What is asked: a name, under a version requirement, with limits. */
  datatype Ask = Ask(name: Name, limits: LookupLimits, requirement: Option<V.Requirement>)

  function LookupIn(v: View, o: Object, index: SymbolIndex, ask: Ask): L.Verdict {
    L.Lookup(v, if o.load.Some? then o.load.value.bias else 0, o.metadata, index, ask.name, ask.limits, ask.requirement)
  }

  /** The object has no symbol table, or it does not define the name. */
  ghost predicate Silent(v: View, o: Object, ask: Ask) {
    || o.metadata.symbolTable.None?
    || match IndexOf(v, o.metadata, ask.limits)
       case Err(_) => false
       case Ok(index) => LookupIn(v, o, index, ask) == Err(L.LookupError.SymbolNotFound)
  }

  /** The object is not silent, and this is its verdict. */
  ghost predicate Speaks(v: View, g: Graph, i: nat, ask: Ask, r: ScopeVerdict)
    requires i < |g|
  {
    && g[i].metadata.symbolTable.Some?
    && match IndexOf(v, g[i].metadata, ask.limits)
       case Err(e) => r == Err(ScopeError.IndexBuildFailed(i, e))
       case Ok(index) =>
         match LookupIn(v, g[i], index, ask)
         case Ok(symbol) => r == Ok(GraphSymbol(i, symbol))
         case Err(e) => e != L.LookupError.SymbolNotFound && r == Err(ObjectLookupFailed(i, e))
  }

  ghost predicate SilentUntil(v: View, g: Graph, order: seq<nat>, n: nat, ask: Ask)
    requires n <= |order| && Below(order, |g|)
  {
    forall j :: 0 <= j < n ==> Silent(v, g[order[j]], ask)
  }

  /** Object `k` of the order is the first that is not silent, within the budget. */
  ghost predicate FirstSpeaker(v: View, g: Graph, order: seq<nat>, budget: nat, ask: Ask, k: nat, r: ScopeVerdict)
    requires Below(order, |g|)
  {
    k < |order| && k < budget && SilentUntil(v, g, order, k, ask) && Speaks(v, g, order[k], ask, r)
  }

  /** The verdict over an order: that of the first object that is not silent; otherwise the name is not
      found, or the budget ended the search. */
  ghost predicate FoundIn(v: View, g: Graph, order: seq<nat>, budget: nat, ask: Ask, r: ScopeVerdict)
    requires Below(order, |g|)
  {
    || (exists k: nat :: FirstSpeaker(v, g, order, budget, ask, k, r))
    || (|order| <= budget && SilentUntil(v, g, order, |order|, ask) && r == Err(SymbolNotFound))
    || (budget < |order| && SilentUntil(v, g, order, budget, ask) && r == Err(ScopeLimitExceeded(order[budget])))
  }

  lemma {:induction false} VerdictExact(s: Search, i: nat, r: ScopeVerdict)
    requires i < |s.graph|
    ensures var ask := Ask(s.name, s.limits, s.requirement);
            && (ObjectVerdict(s, i).None? <==> Silent(s.view, s.graph[i], ask))
            && (ObjectVerdict(s, i) == Some(r) <==> Speaks(s.view, s.graph, i, ask, r))
  {
    hide IndexOf, L.Lookup;
  }

  lemma {:induction false} FoldFound(s: Search, order: seq<nat>, k: nat)
    requires Below(order, |s.graph|) && k <= |order| && k <= s.budget
    requires SilentUntil(s.view, s.graph, order, k, Ask(s.name, s.limits, s.requirement))
    ensures FoundIn(s.view, s.graph, order, s.budget, Ask(s.name, s.limits, s.requirement), Fold(s, order, k))
    decreases |order| - k
  {
    hide ObjectVerdict, Silent, Speaks;
    var ask := Ask(s.name, s.limits, s.requirement);
    if k == |order| || k >= s.budget {
      return;
    }
    var verdict := ObjectVerdict(s, order[k]);
    VerdictExact(s, order[k], Fold(s, order, k));
    if verdict.Some? {
      assert FirstSpeaker(s.view, s.graph, order, s.budget, ask, k, Fold(s, order, k));
    } else {
      FoldFound(s, order, k + 1);
    }
  }

  lemma {:induction false} NotBoth(v: View, g: Graph, i: nat, ask: Ask, r: ScopeVerdict)
    requires i < |g|
    ensures !(Silent(v, g[i], ask) && Speaks(v, g, i, ask, r))
  {
    hide IndexOf, L.Lookup;
  }

  lemma {:induction false} SpeaksOnce(v: View, g: Graph, i: nat, ask: Ask, r: ScopeVerdict, t: ScopeVerdict)
    requires i < |g| && Speaks(v, g, i, ask, r) && Speaks(v, g, i, ask, t)
    ensures r == t
  {
    hide IndexOf, L.Lookup;
  }

  /** The first speaker excludes the other outcomes. */
  lemma {:induction false} SpeakerUnique(v: View, g: Graph, order: seq<nat>, budget: nat, ask: Ask, k: nat, r: ScopeVerdict, t: ScopeVerdict)
    requires Below(order, |g|) && FirstSpeaker(v, g, order, budget, ask, k, r) && FoundIn(v, g, order, budget, ask, t)
    ensures r == t
  {
    hide Silent, Speaks;
    NotBoth(v, g, order[k], ask, r);
    if j: nat :| FirstSpeaker(v, g, order, budget, ask, j, t) {
      NotBoth(v, g, order[j], ask, t);
      assert j == k;
      SpeaksOnce(v, g, order[k], ask, r, t);
    }
  }

  lemma {:induction false} FoundUnique(v: View, g: Graph, order: seq<nat>, budget: nat, ask: Ask, r: ScopeVerdict, t: ScopeVerdict)
    requires Below(order, |g|) && FoundIn(v, g, order, budget, ask, r) && FoundIn(v, g, order, budget, ask, t)
    ensures r == t
  {
    hide Silent, Speaks;
    if k: nat :| FirstSpeaker(v, g, order, budget, ask, k, r) {
      SpeakerUnique(v, g, order, budget, ask, k, r, t);
    } else if k: nat :| FirstSpeaker(v, g, order, budget, ask, k, t) {
      SpeakerUnique(v, g, order, budget, ask, k, t, r);
    }
  }

  /** The search over a valid graph: exactly the verdict over the scope order. */
  lemma {:induction false} SearchMeaning(s: Search, start: nat, globals: seq<nat>, symbolic: bool, r: ScopeVerdict)
    requires EdgesInRange(s.graph) && start < |s.graph| && Below(globals, |s.graph|) && s.budget > 0
    ensures Below(ScopeOrder(s.graph, start, globals, symbolic), |s.graph|)
    ensures ScopeLookup(s, start, globals, symbolic) == r <==>
              FoundIn(s.view, s.graph, ScopeOrder(s.graph, start, globals, symbolic), s.budget, Ask(s.name, s.limits, s.requirement), r)
  {
    hide ScopeLookup, ScopeOrder, Fold, FoundIn;
    ScopeLookupIsFold(s, start, globals, symbolic);
    var order := ScopeOrder(s.graph, start, globals, symbolic);
    var ask := Ask(s.name, s.limits, s.requirement);
    FoldFound(s, order, 0);
    if FoundIn(s.view, s.graph, order, s.budget, ask, r) {
      FoundUnique(s.view, s.graph, order, s.budget, ask, r, Fold(s, order, 0));
    }
  }

  /** A reference from a symbol of object `start`: the requester's own version requirement, its own
      symbolic flag and the given global scope decide; without a requirement to be had, that is the error. */
  lemma {:induction false} ReferenceMeaning(v: View, g: Graph, start: nat, symbol: u32, name: Name, o: LookupLimits, budget: u32,
                                            globals: seq<nat>, r: ScopeVerdict)
    requires EdgesInRange(g) && start < |g| && Below(globals, |g|) && budget > 0
    ensures Below(ScopeOrder(g, start, globals, g[start].metadata.symbolic), |g|)
    ensures match V.RequirementOf(v, g, start, symbol, V.Limits(o.versionRecords, o.nameBytes))
            case Ok(q) => ReferenceLookup(v, g, start, symbol, name, o, budget, globals) == r <==>
                            FoundIn(v, g, ScopeOrder(g, start, globals, g[start].metadata.symbolic), budget, Ask(name, o, q), r)
            case Err(e) => ReferenceLookup(v, g, start, symbol, name, o, budget, globals) == Err(ObjectLookupFailed(start, L.FromVersionError(e)))
  {
    hide ScopeLookup, ScopeOrder, FoundIn, V.RequirementOf;
    var q := V.RequirementOf(v, g, start, symbol, V.Limits(o.versionRecords, o.nameBytes));
    SearchMeaning(Search(v, g, name, o, if q.Ok? then q.value else None, budget), start, globals, g[start].metadata.symbolic, r);
  }
}

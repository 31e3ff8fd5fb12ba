/** Planning, resolving and computing the relocations of one object
    (src/elf/linking/elf32_relocation.cpp:130-578). */
module Relocations {
  import opened Words
  import opened Views
  import opened Objects
  import opened LinkerStrings
  import opened SymbolIndexes
  import L = SymbolLookup
  import opened ScopeSearch

  datatype Table = MainRel | PltRel

  const R_ARM_NONE := 0
  const R_ARM_ABS32 := 2
  const R_ARM_REL32 := 3
  const R_ARM_GLOB_DAT := 21
  const R_ARM_JUMP_SLOT := 22
  const R_ARM_RELATIVE := 23

  datatype RelocationOptions = RelocationOptions(maxRelocations: u32, limits: LookupLimits, budget: u32, globals: seq<nat>)

  datatype PlanError =
    | InvalidOptions | InvalidGraphObject | TooManyRelocations | RelocationReadFailed | PlaceOverflow | UnalignedPlace
    | TargetReadFailed | DuplicateTarget | UnsupportedRelocationType

  datatype Entry = Entry(index: u32, symbol: u32, kind: int, place: u32, original: Option<u32>)

  predicate Supported(kind: int, table: Table) {
    if table.PltRel? then kind == R_ARM_JUMP_SLOT
    else kind in {R_ARM_NONE, R_ARM_ABS32, R_ARM_REL32, R_ARM_GLOB_DAT, R_ARM_RELATIVE}
  }

  predicate SymbolBearing(kind: int) {
    kind in {R_ARM_ABS32, R_ARM_REL32, R_ARM_GLOB_DAT, R_ARM_JUMP_SLOT}
  }

  // --------------------------------------------------------------------------- planning

  /** One REL entry: decoded, its place computed, and its word captured if it will be written. */
  function PlanEntry(v: View, bias: u32, rel: RelTable, table: Table, i: u32): Result<Entry, PlanError> {
    match CheckedAdd(rel.guest, 8 * i)
    case None => Err(RelocationReadFailed)
    case Some(address) =>
      match Read(v, address, 8)
      case None => Err(RelocationReadFailed)
      case Some(b) =>
        var info := DecodeU32(b, 4);
        var kind := info % 0x100;
        if !Supported(kind, table) then Err(UnsupportedRelocationType)
        else match CheckedAdd(bias, DecodeU32(b, 0))
             case None => Err(PlaceOverflow)
             case Some(place) =>
               if kind == R_ARM_NONE then Ok(Entry(i, info / 0x100, kind, place, None))
               else if place % 4 != 0 then Err(UnalignedPlace)
               else match ReadWord(v, place)
                    case None => Err(TargetReadFailed)
                    case Some(w) => Ok(Entry(i, info / 0x100, kind, place, Some(w)))
  }

  function PlanFrom(v: View, bias: u32, rel: RelTable, table: Table, i: nat, count: u32, done: seq<Entry>, targets: set<u32>)
    : Result<seq<Entry>, PlanError>
    requires i <= count
    decreases count - i
  {
    if i == count then Ok(done)
    else
      var e :- PlanEntry(v, bias, rel, table, i);
      if e.original.Some? && e.place in targets then Err(DuplicateTarget)
      else PlanFrom(v, bias, rel, table, i + 1, count, done + [e], if e.original.Some? then targets + {e.place} else targets)
  }

  function TableOf(m: Metadata, table: Table): Option<RelTable> {
    if table.PltRel? then m.pltRelTable else m.relTable
  }

  /** build_relocation_plan_for_table. */
  function PlanOf(v: View, g: Graph, at: nat, o: RelocationOptions, table: Table): Result<seq<Entry>, PlanError> {
    if at >= |g| then Err(InvalidGraphObject)
    else match TableOf(g[at].metadata, table)
         case None => Ok([])
         case Some(rel) =>
           if o.maxRelocations == 0 then Err(PlanError.InvalidOptions)
           else if rel.entrySize != 8 || rel.size % 8 != 0 then Err(RelocationReadFailed)
           else if rel.size / 8 > o.maxRelocations then Err(TooManyRelocations)
           else PlanFrom(v, g[at].Bias(), rel, table, 0, rel.size / 8, [], {})
  }

  method BuildPlan(v: View, g: Graph, at: nat, o: RelocationOptions, table: Table) returns (r: Result<seq<Entry>, PlanError>)
    ensures r == PlanOf(v, g, at, o, table)
  {
    hide PlanEntry;
    if at >= |g| {
      return Err(InvalidGraphObject);
    }
    var selected := TableOf(g[at].metadata, table);
    if selected.None? {
      return Ok([]);
    }
    if o.maxRelocations == 0 {
      return Err(PlanError.InvalidOptions);
    }
    var rel := selected.value;
    if rel.entrySize != 8 || rel.size % 8 != 0 {
      return Err(RelocationReadFailed);
    }
    var count := rel.size / 8;
    if count > o.maxRelocations {
      return Err(TooManyRelocations);
    }
    var entries: seq<Entry> := [];
    var targets: set<u32> := {};
    for i := 0 to count
      invariant PlanFrom(v, g[at].Bias(), rel, table, i, count, entries, targets)
                == PlanFrom(v, g[at].Bias(), rel, table, 0, count, [], {})
    {
      var planned := PlanEntry(v, g[at].Bias(), rel, table, i);
      if planned.Err? {
        return Err(planned.error);
      }
      var e := planned.value;
      if e.original.Some? {
        if e.place in targets {
          return Err(DuplicateTarget);
        }
        targets := targets + {e.place};
      }
      entries := entries + [e];
    }
    return Ok(entries);
  }

  // -------------------------------------------------------------------------- resolving

  datatype ResolveError =
    | InvalidOptions | PlanFailed(plan: PlanError) | IndexBuildFailed(index: IndexError) | MissingReferenceSymbol
    | SymbolIndexOutOfRange | ReferenceSymbolReadFailed | ReferenceNameFailed(cause: Option<StringError>)
    | UnsupportedReferenceBinding | UnsupportedReferenceVisibility | UnsupportedReferenceType | UnsupportedReferenceSection
    | SymbolLookupFailed(scope: ScopeError) | UnresolvedStrongSymbol

  /** The definition a reference is bound to; none for an unresolved weak reference, whose value is 0. */
  datatype Reference = Reference(name: Name, symbol: L.Symbol, definition: Option<L.Symbol>, value: u32)

  /** The error and the relocation it was met at. */
  datatype ResolveFailure = ResolveFailure(error: ResolveError, relocation: Option<u32>)

  datatype Resolved = Resolved(entry: Entry, reference: Option<Reference>)

  /** The reference symbol must have a form the linker supports. */
  function ReferenceProblem(s: L.Symbol): Option<ResolveError> {
    if s.binding != L.STB_GLOBAL && s.binding != L.STB_WEAK then Some(UnsupportedReferenceBinding)
    else if s.rawOther >= 4 || s.visibility != L.STV_DEFAULT then Some(UnsupportedReferenceVisibility)
    else if s.kind != L.STT_NOTYPE && s.kind != L.STT_OBJECT && s.kind != L.STT_FUNC then Some(UnsupportedReferenceType)
    else if !L.Ordinary(s.section) then Some(UnsupportedReferenceSection)
    else None
  }

  function Bind(v: View, g: Graph, at: nat, o: RelocationOptions, symbol: u32, name: Name, s: L.Symbol)
    : Result<Reference, ResolveError>
  {
    match ReferenceLookup(v, g, at, symbol, name, o.limits, o.budget, o.globals)
    case Ok(found) => Ok(Reference(name, s, Some(found.symbol.symbol), found.symbol.guestValue))
    case Err(SymbolNotFound) =>
      if s.binding != L.STB_WEAK then Err(UnresolvedStrongSymbol) else Ok(Reference(name, s, None, 0))
    case Err(e) => Err(SymbolLookupFailed(e))
  }

  function ResolveEntry(v: View, g: Graph, at: nat, o: RelocationOptions, index: SymbolIndex, e: Entry)
    : Result<Resolved, ResolveError>
    requires at < |g|
  {
    if !SymbolBearing(e.kind) then Ok(Resolved(e, None))
    else if e.symbol == 0 then Err(MissingReferenceSymbol)
    else if e.symbol >= index.count then Err(SymbolIndexOutOfRange)
    else
      var m := g[at].metadata;
      if m.symbolTable.None? || m.symbolTable.value.entrySize != SYMBOL_SIZE then Err(ReferenceSymbolReadFailed)
      else match L.ReadSymbol(v, m.symbolTable.value, e.symbol)
           case None => Err(ReferenceSymbolReadFailed)
           case Some(s) =>
             if m.stringTable.None? then Err(ReferenceNameFailed(Some(StringError.MissingStringTable)))
             else match ReadString(v, m.stringTable.value, s.nameOffset, o.limits.nameBytes)
                  case Err(c) => Err(ReferenceNameFailed(Some(c)))
                  case Ok(name) =>
                    if name == [] then Err(ReferenceNameFailed(None))
                    else match ReferenceProblem(s)
                         case Some(p) => Err(p)
                         case None =>
                           var r :- Bind(v, g, at, o, e.symbol, name, s);
                           Ok(Resolved(e, Some(r)))
  }

  function ResolveFrom(v: View, g: Graph, at: nat, o: RelocationOptions, index: SymbolIndex, es: seq<Entry>, done: seq<Resolved>)
    : Result<seq<Resolved>, ResolveFailure>
    requires at < |g|
  {
    if es == [] then Ok(done)
    else
      match ResolveEntry(v, g, at, o, index, es[0])
      case Err(x) => Err(ResolveFailure(x, Some(es[0].index)))
      case Ok(r) => ResolveFrom(v, g, at, o, index, es[1..], done + [r])
  }

  predicate ValidSymbolOptions(o: RelocationOptions) {
    && o.limits.symbols != 0 && o.limits.buckets != 0 && o.limits.bloomWords != 0
    && o.budget != 0 && o.limits.nameBytes != 0
  }

  predicate NeedsSymbols(es: seq<Entry>) { exists k :: 0 <= k < |es| && SymbolBearing(es[k].kind) }

  const NO_INDEX := SymbolIndex(0, None, None)

  /** resolve_relocation_references_for_table. */
  function ResolutionOf(v: View, g: Graph, at: nat, o: RelocationOptions, table: Table)
    : Result<seq<Resolved>, ResolveFailure>
  {
    match PlanOf(v, g, at, o, table)
    case Err(e) => Err(ResolveFailure(PlanFailed(e), None))
    case Ok(entries) =>
      if !NeedsSymbols(entries) then
        if at >= |g| then Ok([]) else ResolveFrom(v, g, at, o, NO_INDEX, entries, [])
      else if at >= |g| || !ValidSymbolOptions(o) then Err(ResolveFailure(ResolveError.InvalidOptions, None))
      else match IndexOf(v, g[at].metadata, o.limits)
           case Err(e) => Err(ResolveFailure(ResolveError.IndexBuildFailed(e), None))
           case Ok(index) => ResolveFrom(v, g, at, o, index, entries, [])
  }

  // -------------------------------------------------------------------------- computing

  datatype ApplyError =
    | ResolveFailed(resolve: ResolveError) | InvalidRelativeSymbol | InvalidResolvedEntry | DuplicateTargetAcrossTables
    | TargetWriteFailed | RollbackFailed

  datatype Write = Write(index: u32, kind: int, place: u32, original: u32, final: u32, table: Table)

  /** A reference to a Thumb function. */
  predicate IsThumb(r: Reference) {
    r.definition.Some? && r.definition.value.kind == L.STT_FUNC && r.definition.value.value % 2 == 1
  }

  /** `w | 1` and `w & ~1`. */
  function WithBit0(w: u32): u32 { if w % 2 == 0 then w + 1 else w }
  function WithoutBit0(w: u32): u32 { w - w % 2 }

  /** The word a relocation stores, from the captured addend, the bias and the bound symbol. */
  function FinalWord(bias: u32, r: Resolved): Result<u32, ApplyError> {
    var e := r.entry;
    if e.original.None? then Err(InvalidResolvedEntry)
    else if e.kind == R_ARM_RELATIVE then
      if e.symbol != 0 then Err(InvalidRelativeSymbol) else Ok(WrapAdd(bias, e.original.value))
    else if r.reference.None? then Err(InvalidResolvedEntry)
    else
      var s := r.reference.value;
      if e.kind == R_ARM_GLOB_DAT || e.kind == R_ARM_JUMP_SLOT then Ok(s.value)
      else if e.kind == R_ARM_ABS32 then Ok(WrapAdd(s.value, e.original.value))
      else if e.kind == R_ARM_REL32 then
        if IsThumb(s) then Ok(WrapSub(WithBit0(WrapAdd(WithoutBit0(s.value), e.original.value)), e.place))
        else Ok(WrapSub(WrapAdd(s.value, e.original.value), e.place))
      else Err(InvalidResolvedEntry)
  }

  function WritesFrom(bias: u32, rs: seq<Resolved>, table: Table, done: seq<Write>): Result<seq<Write>, (ApplyError, u32)> {
    if rs == [] then Ok(done)
    else
      var e := rs[0].entry;
      if e.kind == R_ARM_NONE then WritesFrom(bias, rs[1..], table, done)
      else match FinalWord(bias, rs[0])
           case Err(x) => Err((x, e.index))
           case Ok(w) =>
             WritesFrom(bias, rs[1..], table,
                        done + [Write(e.index, e.kind, e.place, if e.original.Some? then e.original.value else 0, w, table)])
  }

  datatype Failure = Failure(error: ApplyError, relocation: Option<u32>, table: Option<Table>)

  /** prepare_relocations_for_table: every final word, before anything is written. */
  function PreparedWrites(v: View, g: Graph, at: nat, o: RelocationOptions, table: Table): Result<seq<Write>, Failure> {
    match ResolutionOf(v, g, at, o, table)
    case Err(e) => Err(Failure(ResolveFailed(e.error), e.relocation, Some(table)))
    case Ok(rs) =>
      if at >= |g| then Err(Failure(InvalidResolvedEntry, None, Some(table)))
      else match WritesFrom(g[at].Bias(), rs, table, [])
           case Err(x) => Err(Failure(x.0, Some(x.1), Some(table)))
           case Ok(ws) => Ok(ws)
  }

  /** The first write of `ws` whose place is already taken. */
  function Clash(ws: seq<Write>, places: set<u32>): Option<Write> {
    if ws == [] then None
    else if ws[0].place in places then Some(ws[0])
    else Clash(ws[1..], places + {ws[0].place})
  }

  function Places(ws: seq<Write>): set<u32> { set w | w in ws :: w.place }

  /** The writes of both tables, main table first, as one transaction. */
  function CombinedWrites(v: View, g: Graph, at: nat, o: RelocationOptions): Result<seq<Write>, Failure> {
    var main :- PreparedWrites(v, g, at, o, MainRel);
    var plt :- PreparedWrites(v, g, at, o, PltRel);
    match Clash(plt, Places(main))
    case Some(w) => Err(Failure(DuplicateTargetAcrossTables, Some(w.index), Some(PltRel)))
    case None => Ok(main + plt)
  }

  // --------------------------------------------------------------------------- the loops

  method ResolveReferences(v: View, g: Graph, at: nat, o: RelocationOptions, table: Table)
    returns (r: Result<seq<Resolved>, ResolveFailure>)
    ensures r == ResolutionOf(v, g, at, o, table)
  {
    hide PlanOf, ResolveEntry, IndexOf;
    var plan := BuildPlan(v, g, at, o, table);
    if plan.Err? {
      return Err(ResolveFailure(PlanFailed(plan.error), None));
    }
    var entries := plan.value;
    var needsSymbols := false;
    for i := 0 to |entries|
      invariant !needsSymbols && forall k :: 0 <= k < i ==> !SymbolBearing(entries[k].kind)
    {
      if SymbolBearing(entries[i].kind) {
        needsSymbols := true;
        break;
      }
    }
    if at >= |g| {
      return if needsSymbols then Err(ResolveFailure(ResolveError.InvalidOptions, None)) else Ok([]);
    }
    var index := NO_INDEX;
    if needsSymbols {
      if !ValidSymbolOptions(o) {
        return Err(ResolveFailure(ResolveError.InvalidOptions, None));
      }
      var built := BuildIndex(v, g[at].metadata, o.limits);
      if built.Err? {
        return Err(ResolveFailure(ResolveError.IndexBuildFailed(built.error), None));
      }
      index := built.value;
    }
    var done: seq<Resolved> := [];
    for i := 0 to |entries|
      invariant ResolveFrom(v, g, at, o, index, entries[i..], done) == ResolveFrom(v, g, at, o, index, entries, [])
    {
      assert entries[i..][1..] == entries[i + 1..];
      var one := ResolveEntry(v, g, at, o, index, entries[i]);
      if one.Err? {
        return Err(ResolveFailure(one.error, Some(entries[i].index)));
      }
      done := done + [one.value];
    }
    return Ok(done);
  }

  method Prepare(v: View, g: Graph, at: nat, o: RelocationOptions, table: Table) returns (r: Result<seq<Write>, Failure>)
    ensures r == PreparedWrites(v, g, at, o, table)
  {
    hide ResolutionOf, FinalWord;
    var resolution := ResolveReferences(v, g, at, o, table);
    if resolution.Err? {
      return Err(Failure(ResolveFailed(resolution.error.error), resolution.error.relocation, Some(table)));
    }
    if at >= |g| {
      return Err(Failure(InvalidResolvedEntry, None, Some(table)));
    }
    var rs := resolution.value;
    var pending: seq<Write> := [];
    for i := 0 to |rs|
      invariant WritesFrom(g[at].Bias(), rs[i..], table, pending) == WritesFrom(g[at].Bias(), rs, table, [])
    {
      assert rs[i..][1..] == rs[i + 1..];
      var e := rs[i].entry;
      if e.kind != R_ARM_NONE {
        var final := FinalWord(g[at].Bias(), rs[i]);
        if final.Err? {
          return Err(Failure(final.error, Some(e.index), Some(table)));
        }
        pending := pending + [Write(e.index, e.kind, e.place, if e.original.Some? then e.original.value else 0, final.value, table)];
      }
    }
    return Ok(pending);
  }

  method PrepareCombined(v: View, g: Graph, at: nat, o: RelocationOptions) returns (r: Result<seq<Write>, Failure>)
    ensures r == CombinedWrites(v, g, at, o)
  {
    hide PreparedWrites;
    var main := Prepare(v, g, at, o, MainRel);
    if main.Err? {
      return main;
    }
    var plt := Prepare(v, g, at, o, PltRel);
    if plt.Err? {
      return plt;
    }
    var targets: set<u32> := {};
    for i := 0 to |main.value|
      invariant targets == Places(main.value[..i])
    {
      assert main.value[..i + 1] == main.value[..i] + [main.value[i]];
      targets := targets + {main.value[i].place};
    }
    assert main.value[..|main.value|] == main.value;
    for i := 0 to |plt.value|
      invariant Clash(plt.value[i..], targets) == Clash(plt.value, Places(main.value))
    {
      assert plt.value[i..][1..] == plt.value[i + 1..];
      if plt.value[i].place in targets {
        return Err(Failure(DuplicateTargetAcrossTables, Some(plt.value[i].index), Some(PltRel)));
      }
      targets := targets + {plt.value[i].place};
    }
    return Ok(main.value + plt.value);
  }
}

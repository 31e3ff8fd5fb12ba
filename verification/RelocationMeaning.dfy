/** Relocation told by bytes: what every REL entry of a table says, what its symbol is bound to, and the
    word that is stored at its place (src/elf/linking/elf32_relocation.cpp:141-578). */
module RelocationMeaning {
  import opened Words
  import opened Views
  import opened Objects
  import opened LinkerStrings
  import V = Versioning
  import opened SymbolIndexes
  import L = SymbolLookup
  import opened ScopeSearch
  import opened SymbolMeaning
  import opened ScopeMeaning
  import opened Relocations
  import opened RelocationTheorems

  // ----------------------------------------------------------------------------- one entry

  /** The relocation types a table may hold: NONE, ABS32, REL32, GLOB_DAT and RELATIVE, or JUMP_SLOT. */
  predicate Allowed(kind: int, table: Table) {
    if table.MainRel? then kind == 0 || kind == 2 || kind == 3 || kind == 21 || kind == 23 else kind == 22
  }

  /** Entry `i` of the table by its eight bytes: the place is the load bias plus r_offset, the low byte of
      r_info is the type and the rest the symbol; an entry that stores has an aligned place whose word is
      captured. */
  ghost predicate EntryAt(v: View, bias: u32, rel: RelTable, table: Table, i: nat, e: Entry) {
    var a := rel.guest + 8 * i;
    && Readable(v, a, 8) && e.index == i
    && WordIn(v, a + 4) == 0x100 * e.symbol + e.kind && 0 <= e.kind < 0x100 && Allowed(e.kind, table)
    && e.place == bias + WordIn(v, a)
    && if e.kind == 0 then e.original == None
       else e.place % 4 == 0 && Readable(v, e.place, 4) && e.original == Some(WordIn(v, e.place))
  }

  lemma {:induction false} EntryWords(v: View, a: u32)
    requires Readable(v, a, 8)
    ensures DecodeU32(Bytes(v, a, 8), 0) == WordIn(v, a) && DecodeU32(Bytes(v, a, 8), 4) == WordIn(v, a + 4)
  {
    var b := Bytes(v, a, 8);
    assert b[0] == v[a] && b[1] == v[a + 1] && b[2] == v[a + 2] && b[3] == v[a + 3];
    assert b[4] == v[a + 4] && b[5] == v[a + 5] && b[6] == v[a + 6] && b[7] == v[a + 7];
  }

  lemma {:induction false} InfoWord(info: u32, symbol: int, kind: int)
    ensures info == 0x100 * symbol + kind && 0 <= kind < 0x100 <==> symbol == info / 0x100 && kind == info % 0x100
  {
  }

  /** An entry is planned exactly as its bytes say. */
  lemma {:induction false} PlanEntryExact(v: View, bias: u32, rel: RelTable, table: Table, i: u32, e: Entry)
    ensures PlanEntry(v, bias, rel, table, i) == Ok(e) <==> EntryAt(v, bias, rel, table, i, e)
  {
    hide ReadWord, DecodeU32, WordIn;
    var a := rel.guest + 8 * i;
    if a >= ADDRESS_SPACE {
      assert a !in v;
      return;
    }
    if !Readable(v, a, 8) {
      return;
    }
    EntryWords(v, a);
    InfoWord(DecodeU32(Bytes(v, a, 8), 4), e.symbol, e.kind);
    var place: int := bias + DecodeU32(Bytes(v, a, 8), 0);
    if place < ADDRESS_SPACE {
      if e.original.Some? { WordExact(v, place, e.original.value); }
      var w := ReadWord(v, place);
      if w.Some? { WordExact(v, place, w.value); }
    }
  }

  // ----------------------------------------------------------------------------- references

  /** A reference the linker supports: GLOBAL or WEAK, default visibility and no other bits, NOTYPE, OBJECT
      or FUNC, and no reserved section but ABS. */
  predicate GoodReference(s: L.Symbol) {
    && (s.binding == 1 || s.binding == 2) && s.rawOther < 4 && s.visibility == 0
    && (s.kind == 0 || s.kind == 1 || s.kind == 2) && (s.section < 0xff00 || s.section == 0xfff1)
  }

  ghost predicate ValidScope(g: Graph, at: nat, o: RelocationOptions) {
    EdgesInRange(g) && at < |g| && Below(o.globals, |g|) && o.budget > 0
  }

  /** The verdict for a name referred to by symbol `symbol` of object `at`. */
  ghost predicate Resolves(v: View, g: Graph, at: nat, o: RelocationOptions, symbol: u32, name: Name, r: ScopeVerdict)
    requires ValidScope(g, at, o) && Below(ScopeOrder(g, at, o.globals, g[at].metadata.symbolic), |g|)
  {
    match V.RequirementOf(v, g, at, symbol, V.Limits(o.limits.versionRecords, o.limits.nameBytes))
    case Err(e) => r == Err(ObjectLookupFailed(at, L.FromVersionError(e)))
    case Ok(q) => FoundIn(v, g, ScopeOrder(g, at, o.globals, g[at].metadata.symbolic), o.budget, Ask(name, o.limits, q), r)
  }

  /** The reference is bound to the definition the scope gives, at its guest value; only a weak reference
      that no object answers is bound to nothing, with value 0. */
  ghost predicate BoundAs(v: View, g: Graph, at: nat, o: RelocationOptions, symbol: u32, ref: Reference)
    requires ValidScope(g, at, o) && Below(ScopeOrder(g, at, o.globals, g[at].metadata.symbolic), |g|)
  {
    if ref.definition.None? then
      ref.value == 0 && ref.symbol.binding == 2 && Resolves(v, g, at, o, symbol, ref.name, Err(SymbolNotFound))
    else exists found :: Resolves(v, g, at, o, symbol, ref.name, Ok(found)) && IsDefinition(ref, found)
  }

  predicate IsDefinition(ref: Reference, found: GraphSymbol) {
    ref.definition == Some(found.symbol.symbol) && ref.value == found.symbol.guestValue
  }

  lemma {:induction false} ResolvesExact(v: View, g: Graph, at: nat, o: RelocationOptions, symbol: u32, name: Name, r: ScopeVerdict)
    requires ValidScope(g, at, o)
    ensures Below(ScopeOrder(g, at, o.globals, g[at].metadata.symbolic), |g|)
    ensures ReferenceLookup(v, g, at, symbol, name, o.limits, o.budget, o.globals) == r <==> Resolves(v, g, at, o, symbol, name, r)
  {
    hide ReferenceLookup, ScopeOrder, FoundIn, V.RequirementOf;
    ReferenceMeaning(v, g, at, symbol, name, o.limits, o.budget, o.globals, r);
  }

  lemma {:induction false} BindExact(v: View, g: Graph, at: nat, o: RelocationOptions, symbol: u32, name: Name, s: L.Symbol, ref: Reference)
    requires ValidScope(g, at, o) && (s.binding == 1 || s.binding == 2)
    ensures Below(ScopeOrder(g, at, o.globals, g[at].metadata.symbolic), |g|)
    ensures Bind(v, g, at, o, symbol, name, s) == Ok(ref) <==> ref.name == name && ref.symbol == s && BoundAs(v, g, at, o, symbol, ref)
  {
    hide ReferenceLookup, ScopeOrder, Resolves;
    var r := ReferenceLookup(v, g, at, symbol, name, o.limits, o.budget, o.globals);
    ResolvesExact(v, g, at, o, symbol, name, r);
    ResolvesExact(v, g, at, o, symbol, name, Err(SymbolNotFound));
    if ref.name == name && ref.definition.Some? && BoundAs(v, g, at, o, symbol, ref) {
      var found :| Resolves(v, g, at, o, symbol, ref.name, Ok(found)) && IsDefinition(ref, found);
      ResolvesExact(v, g, at, o, symbol, name, Ok(found));
    }
    if r.Ok? {
      assert IsDefinition(Reference(name, s, Some(r.value.symbol.symbol), r.value.symbol.guestValue), r.value);
    }
  }

  /** The reference of symbol `symbol`, by the bytes of the symbol and its name. */
  ghost predicate RefersTo(v: View, g: Graph, at: nat, o: RelocationOptions, symbol: u32, ref: Reference)
    requires ValidScope(g, at, o) && Below(ScopeOrder(g, at, o.globals, g[at].metadata.symbolic), |g|)
  {
    var m := g[at].metadata;
    && m.symbolTable.Some? && m.stringTable.Some? && symbol > 0 && SymbolAt(v, m, symbol, ref.symbol)
    && NameFrom(v, m.stringTable.value, ref.symbol.nameOffset, o.limits.nameBytes, ref.name) && ref.name != []
    && GoodReference(ref.symbol) && BoundAs(v, g, at, o, symbol, ref)
  }

  lemma {:induction false} ProblemExact(s: L.Symbol)
    ensures ReferenceProblem(s).None? <==> GoodReference(s)
  {
  }

  /** A resolved entry refers to what its symbol's bytes say. */
  lemma {:induction false} ResolveEntryMeaning(v: View, g: Graph, at: nat, o: RelocationOptions, index: SymbolIndex, e: Entry)
    requires ValidScope(g, at, o) && ResolveEntry(v, g, at, o, index, e).Ok?
    ensures Below(ScopeOrder(g, at, o.globals, g[at].metadata.symbolic), |g|)
    ensures var r := ResolveEntry(v, g, at, o, index, e).value;
            && r.entry == e && (r.reference.Some? <==> e.kind == 2 || e.kind == 3 || e.kind == 21 || e.kind == 22)
            && (r.reference.Some? ==> e.symbol < index.count && RefersTo(v, g, at, o, e.symbol, r.reference.value))
  {
    hide ScopeOrder, BoundAs, SymbolAt, NameFrom, ReferenceProblem, Bind, ReadString, L.ReadSymbol;
    var r := ResolveEntry(v, g, at, o, index, e).value;
    ResolvesExact(v, g, at, o, 0, [], Err(SymbolNotFound));
    if r.reference.Some? {
      var m, ref := g[at].metadata, r.reference.value;
      var s := L.ReadSymbol(v, m.symbolTable.value, e.symbol).value;
      var name := ReadString(v, m.stringTable.value, s.nameOffset, o.limits.nameBytes).value;
      SymbolExact(v, m, e.symbol, s);
      NameSound(v, m.stringTable.value, s.nameOffset, o.limits.nameBytes, name);
      ProblemExact(s);
      BindExact(v, g, at, o, e.symbol, name, s, ref);
    }
  }

  /** With a readable string table, an entry is resolved exactly to what its symbol's bytes say. */
  lemma {:induction false} ResolveEntryExact(v: View, g: Graph, at: nat, o: RelocationOptions, index: SymbolIndex, e: Entry, r: Resolved)
    requires ValidScope(g, at, o)
    requires g[at].metadata.stringTable.Some? ==> NamesReadableTable(v, g[at].metadata)
    ensures Below(ScopeOrder(g, at, o.globals, g[at].metadata.symbolic), |g|)
    ensures ResolveEntry(v, g, at, o, index, e) == Ok(r) <==>
              && r.entry == e
              && if e.kind == 2 || e.kind == 3 || e.kind == 21 || e.kind == 22 then
                   && r.reference.Some? && e.symbol < index.count && g[at].metadata.symbolTable.Some?
                   && g[at].metadata.symbolTable.value.entrySize == 16 && RefersTo(v, g, at, o, e.symbol, r.reference.value)
                 else r.reference == None
  {
    hide ScopeOrder, BoundAs, SymbolAt, NameFrom, ReferenceProblem, Bind, ReadString, L.ReadSymbol, NamesReadableTable;
    if ResolveEntry(v, g, at, o, index, e).Ok? {
      ResolveEntryMeaning(v, g, at, o, index, e);
    }
    ResolvesExact(v, g, at, o, 0, [], Err(SymbolNotFound));
    if r.reference.Some? && RefersTo(v, g, at, o, e.symbol, r.reference.value) {
      var m, ref := g[at].metadata, r.reference.value;
      SymbolExact(v, m, e.symbol, ref.symbol);
      ReferenceName(v, m, ref.symbol.nameOffset, o.limits.nameBytes, ref.name);
      ProblemExact(ref.symbol);
      BindExact(v, g, at, o, e.symbol, ref.name, ref.symbol, ref);
    }
  }

  lemma {:induction false} ReferenceName(v: View, m: Metadata, offset: u32, max: u32, name: Name)
    requires m.stringTable.Some? && NamesReadableTable(v, m) && NameFrom(v, m.stringTable.value, offset, max, name)
    ensures ReadString(v, m.stringTable.value, offset, max) == Ok(name)
  {
    hide ReadString;
    NameRead(v, m.stringTable.value, offset, max, name);
  }

  // ---------------------------------------------------------------------------- the whole plan

  /** No two storing entries have the same place. */
  predicate PlacesApart(es: seq<Entry>) {
    forall j, k :: 0 <= j < k < |es| && es[j].kind != 0 && es[k].kind != 0 ==> es[j].place != es[k].place
  }

  ghost predicate EntriesAt(v: View, bias: u32, rel: RelTable, table: Table, es: seq<Entry>) {
    forall k: nat :: k < |es| ==> EntryAt(v, bias, rel, table, k, es[k])
  }

  /** The targets collected from the entries planned so far. */
  predicate TargetsOf(es: seq<Entry>, targets: set<u32>) {
    && (forall k :: 0 <= k < |es| && es[k].kind != 0 ==> es[k].place in targets)
    && (forall t :: t in targets ==> exists k :: 0 <= k < |es| && es[k].kind != 0 && es[k].place == t)
  }

  lemma {:induction false} PlanFromExact(v: View, bias: u32, rel: RelTable, table: Table, i: nat, count: u32, done: seq<Entry>, targets: set<u32>,
                                         es: seq<Entry>)
    requires i <= count && |done| == i && EntriesAt(v, bias, rel, table, done) && PlacesApart(done) && TargetsOf(done, targets)
    ensures PlanFrom(v, bias, rel, table, i, count, done, targets) == Ok(es) <==>
              |es| == count && done <= es && EntriesAt(v, bias, rel, table, es) && PlacesApart(es)
    decreases count - i
  {
    hide PlanEntry, EntryAt;
    if i == count {
      assert |es| == count && done <= es ==> es == done;
      return;
    }
    var planned := PlanEntry(v, bias, rel, table, i);
    var described := |es| == count && done <= es && EntriesAt(v, bias, rel, table, es) && PlacesApart(es);
    if described {
      assert EntryAt(v, bias, rel, table, i, es[i]);
      PlanEntryExact(v, bias, rel, table, i, es[i]);
    }
    if planned.Err? {
      return;
    }
    var e := planned.value;
    PlanEntryExact(v, bias, rel, table, i, e);
    EntryStores(v, bias, rel, table, i, e);
    if e.kind != 0 && e.place in targets {
      if described { TakenTwice(done, targets, es, e); }
      return;
    }
    var more := done + [e];
    PlanGrows(v, bias, rel, table, done, targets, e);
    PlanFromExact(v, bias, rel, table, i + 1, count, more, if e.original.Some? then targets + {e.place} else targets, es);
  }

  lemma {:induction false} EntryStores(v: View, bias: u32, rel: RelTable, table: Table, i: nat, e: Entry)
    requires EntryAt(v, bias, rel, table, i, e)
    ensures e.original.Some? <==> e.kind != 0
  {
  }

  lemma {:induction false} TakenTwice(done: seq<Entry>, targets: set<u32>, es: seq<Entry>, e: Entry)
    requires TargetsOf(done, targets) && done < es && es[|done|] == e && e.kind != 0 && e.place in targets
    ensures !PlacesApart(es)
  {
    var k :| 0 <= k < |done| && done[k].kind != 0 && done[k].place == e.place;
    assert es[k] == done[k];
  }

  lemma {:induction false} PlanGrows(v: View, bias: u32, rel: RelTable, table: Table, done: seq<Entry>, targets: set<u32>, e: Entry)
    requires EntriesAt(v, bias, rel, table, done) && PlacesApart(done) && TargetsOf(done, targets)
    requires EntryAt(v, bias, rel, table, |done|, e) && (e.kind != 0 ==> e.place !in targets)
    ensures var more := done + [e];
            EntriesAt(v, bias, rel, table, more) && PlacesApart(more) && TargetsOf(more, if e.kind != 0 then targets + {e.place} else targets)
  {
    hide EntryAt;
    var more := done + [e];
    var wider := if e.kind != 0 then targets + {e.place} else targets;
    forall t | t in wider ensures exists k :: 0 <= k < |more| && more[k].kind != 0 && more[k].place == t {
      if t in targets {
        var k :| 0 <= k < |done| && done[k].kind != 0 && done[k].place == t;
        assert more[k] == done[k];
      } else {
        assert more[|done|] == e;
      }
    }
  }

  /** A table is planned exactly if it is whole, within the limit, and every entry can be, at places apart;
      the plan is its entries in order. */
  lemma {:induction false} PlanExact(v: View, g: Graph, at: nat, o: RelocationOptions, table: Table, es: seq<Entry>)
    requires at < |g|
    ensures PlanOf(v, g, at, o, table) == Ok(es) <==>
              match TableOf(g[at].metadata, table)
              case None => es == []
              case Some(rel) =>
                && o.maxRelocations > 0 && rel.entrySize == 8 && rel.size % 8 == 0 && rel.size / 8 <= o.maxRelocations
                && |es| == rel.size / 8 && EntriesAt(v, g[at].Bias(), rel, table, es) && PlacesApart(es)
  {
    hide PlanFrom, EntriesAt, PlacesApart;
    var selected := TableOf(g[at].metadata, table);
    if selected.Some? {
      var rel := selected.value;
      PlanStart(v, g[at].Bias(), rel, table);
      PlanFromExact(v, g[at].Bias(), rel, table, 0, rel.size / 8, [], {}, es);
    }
  }

  lemma {:induction false} PlanStart(v: View, bias: u32, rel: RelTable, table: Table)
    ensures EntriesAt(v, bias, rel, table, []) && PlacesApart([]) && TargetsOf([], {})
  {
  }

  // --------------------------------------------------------------------------------- words

  /** The target is a Thumb function: its definition is a FUNC with an odd st_value. */
  predicate ThumbTarget(ref: Reference) {
    ref.definition.Some? && ref.definition.value.kind == 2 && ref.definition.value.value % 2 == 1
  }

  /** The word stored over `a` at place `p`: RELATIVE adds the load bias; GLOB_DAT and JUMP_SLOT are the
      symbol value; ABS32 adds it; REL32 is the word of AAELF32. */
  ghost predicate StoredWord(kind: int, bias: u32, ref: Option<Reference>, a: u32, p: u32, w: u32) {
    if kind == 23 then w == (bias + a) % 0x1_0000_0000 && w == AbiWord(23, bias, 0, false, a, p)
    else
      && ref.Some?
      && var s := ref.value;
         if kind == 21 || kind == 22 then w == s.value
         else if kind == 2 then w == (s.value + a) % 0x1_0000_0000
         else && kind == 3 && w == AbiWord(3, bias, if ThumbTarget(s) then s.value - s.value % 2 else s.value, ThumbTarget(s), a, p)
  }

  /** The word of an entry is computed exactly as this says; RELATIVE entries have no symbol. */
  lemma {:induction false} FinalWordExact(bias: u32, r: Resolved, w: u32)
    requires r.entry.original.Some?
    ensures FinalWord(bias, r) == Ok(w) <==>
              && StoredWord(r.entry.kind, bias, r.reference, r.entry.original.value, r.entry.place, w)
              && (r.entry.kind == 23 ==> r.entry.symbol == 0)
  {
    hide WithBit0, WrapSub;
  }

  // -------------------------------------------------------------------------------- tables

  /** The word of a storing entry `e`, for the reference it is bound to. */
  ghost predicate StoredFor(v: View, post: View, g: Graph, at: nat, o: RelocationOptions, e: Entry, ref: Option<Reference>, w: u32)
    requires at < |g|
  {
    && e.original.Some? && ReadWord(post, e.place) == Some(w)
    && StoredWord(e.kind, g[at].Bias(), ref, e.original.value, e.place, w)
    && if e.kind == 23 then e.symbol == 0
       else && ref.Some?
            && (ValidScope(g, at, o) && Below(ScopeOrder(g, at, o.globals, g[at].metadata.symbolic), |g|) ==>
                  RefersTo(v, g, at, o, e.symbol, ref.value))
  }

  /** Entry `k` of the table, decoded from memory `v`, has been applied in `post`. */
  ghost predicate EntryStored(v: View, post: View, g: Graph, at: nat, o: RelocationOptions, rel: RelTable, table: Table, k: nat)
    requires at < |g|
  {
    exists e :: EntryAt(v, g[at].Bias(), rel, table, k, e) && (e.kind == 0 || exists ref, w :: StoredFor(v, post, g, at, o, e, ref, w))
  }

  /** Every entry of the table, decoded from memory `v`, has been applied in `post`. */
  ghost predicate TableStored(v: View, post: View, g: Graph, at: nat, o: RelocationOptions, table: Table) {
    && at < |g|
    && match TableOf(g[at].metadata, table)
       case None => true
       case Some(rel) => forall k: nat :: k < rel.size / 8 ==> EntryStored(v, post, g, at, o, rel, table, k)
  }

  ghost predicate AllWritten(post: View, ws: seq<Write>) { forall k :: 0 <= k < |ws| ==> ReadWord(post, ws[k].place) == Some(ws[k].final) }

  lemma {:induction false} OneStored(v: View, post: View, g: Graph, at: nat, o: RelocationOptions, index: SymbolIndex, rel: RelTable, table: Table,
                                     k: u32, e: Entry, r: Resolved, w: Write)
    requires at < |g| && PlanEntry(v, g[at].Bias(), rel, table, k) == Ok(e) && ResolveEntry(v, g, at, o, index, e) == Ok(r)
    requires IsWriteOf(g[at].Bias(), table, r, w) && ReadWord(post, w.place) == Some(w.final)
    ensures EntryStored(v, post, g, at, o, rel, table, k)
  {
    hide PlanEntry, ResolveEntry, FinalWord, ReadWord, ScopeOrder, RefersTo, EntryAt, StoredWord;
    PlanEntryExact(v, g[at].Bias(), rel, table, k, e);
    ResolveEntryKeeps(v, g, at, o, index, e);
    FinalWordExact(g[at].Bias(), r, w.final);
    if ValidScope(g, at, o) {
      ResolveEntryMeaning(v, g, at, o, index, e);
    }
    StoredKinds(e.kind, g[at].Bias(), r.reference, e.original.value, e.place, w.final);
    assert StoredFor(v, post, g, at, o, e, r.reference, w.final);
  }

  lemma {:induction false} StoredKinds(kind: int, bias: u32, ref: Option<Reference>, a: u32, p: u32, w: u32)
    requires StoredWord(kind, bias, ref, a, p, w)
    ensures kind != 23 ==> ref.Some? && (kind == 2 || kind == 3 || kind == 21 || kind == 22)
  {
  }

  lemma {:induction false} PreparedStored(v: View, post: View, g: Graph, at: nat, o: RelocationOptions, table: Table, ws: seq<Write>)
    requires at < |g| && PreparedFrom(v, g, at, o, table, ws) && AllWritten(post, ws)
    ensures TableStored(v, post, g, at, o, table)
  {
    hide PlanEntry, ResolveEntry, FinalWord, ReadWord, EntryStored, IndexOf, NeedsSymbols, IsWriteOf;
    var selected := TableOf(g[at].metadata, table);
    if selected.None? {
      return;
    }
    var rel := selected.value;
    var es: seq<Entry>, rs: seq<Resolved>, from: seq<nat> :|
      && |es| == rel.size / 8 && Planned(v, g[at].Bias(), rel, table, es)
      && ResolvedAll(v, g, at, o, IndexFor(v, g, at, o, es), es, rs) && WritesOf(g[at].Bias(), table, rs, ws, from);
    forall k: nat | k < rel.size / 8 ensures EntryStored(v, post, g, at, o, rel, table, k) {
      var i: u32 := k;
      assert PlanEntry(v, g[at].Bias(), rel, table, i) == Ok(es[i]);
      EachStored(v, post, g, at, o, IndexFor(v, g, at, o, es), rel, table, i, es, rs, ws, from);
    }
  }

  lemma {:induction false} EachStored(v: View, post: View, g: Graph, at: nat, o: RelocationOptions, index: SymbolIndex, rel: RelTable, table: Table,
                                      i: u32, es: seq<Entry>, rs: seq<Resolved>, ws: seq<Write>, from: seq<nat>)
    requires at < |g| && i < |es| && PlanEntry(v, g[at].Bias(), rel, table, i) == Ok(es[i]) && ResolvedAll(v, g, at, o, index, es, rs)
    requires WritesOf(g[at].Bias(), table, rs, ws, from) && AllWritten(post, ws)
    ensures EntryStored(v, post, g, at, o, rel, table, i)
  {
    hide PlanEntry, ResolveEntry, FinalWord, ReadWord, IsWriteOf, EntryAt;
    ResolveEntryKeeps(v, g, at, o, index, es[i]);
    if es[i].kind == 0 {
      PlanEntryExact(v, g[at].Bias(), rel, table, i, es[i]);
      return;
    }
    assert i in from;
    var j :| 0 <= j < |from| && from[j] == i;
    OneStored(v, post, g, at, o, index, rel, table, i, es[i], rs[i], ws[j]);
  }

  /** After the combined writes, every entry of both tables has been applied. */
  lemma {:induction false} CombinedStored(v: View, post: View, g: Graph, at: nat, o: RelocationOptions)
    requires CombinedWrites(v, g, at, o).Ok? && AllWritten(post, CombinedWrites(v, g, at, o).value)
    ensures TableStored(v, post, g, at, o, MainRel) && TableStored(v, post, g, at, o, PltRel)
  {
    hide CombinedWrites, PreparedFrom, ReadWord, TableStored, GoodWrites;
    CombinedMeaning(v, g, at, o);
    var ws := CombinedWrites(v, g, at, o).value;
    var n: nat :| n <= |ws| && PreparedFrom(v, g, at, o, MainRel, ws[..n]) && PreparedFrom(v, g, at, o, PltRel, ws[n..]);
    forall k | 0 <= k < |ws[n..]| ensures ReadWord(post, ws[n..][k].place) == Some(ws[n..][k].final) {
      assert ws[n..][k] == ws[n + k];
    }
    PreparedStored(v, post, g, at, o, MainRel, ws[..n]);
    PreparedStored(v, post, g, at, o, PltRel, ws[n..]);
  }
}

/** What a successfully prepared relocation table means: one write for each effective
    entry, at aligned and pairwise distinct places, with the word of the pre-state
    captured; and how the stored words relate to the AAELF32 relocation codes. */
module RelocationTheorems {
  import opened Words
  import opened Views
  import opened Objects
  import opened SymbolIndexes
  import L = SymbolLookup
  import opened Relocations

  // ------------------------------------------------------------------------ places

  /** Write `w` addresses an aligned readable word whose value was captured. */
  predicate GoodWrite(v: View, w: Write) {
    w.place % 4 == 0 && ReadWord(v, w.place) == Some(w.original)
  }

  predicate DistinctPlaces(ws: seq<Write>) {
    forall j, k :: 0 <= j < k < |ws| ==> ws[j].place != ws[k].place
  }

  predicate GoodWrites(v: View, ws: seq<Write>) {
    DistinctPlaces(ws) && forall k :: 0 <= k < |ws| ==> GoodWrite(v, ws[k])
  }

  predicate InWord(a: int, w: Write) { w.place <= a < w.place + 4 }

  /** Aligned and distinct words do not overlap. */
  lemma {:induction false} WordsDisjoint(v: View, ws: seq<Write>, j: nat, k: nat, a: int)
    requires GoodWrites(v, ws) && j < |ws| && k < |ws| && j != k && InWord(a, ws[j])
    ensures !InWord(a, ws[k])
  {
    assert GoodWrite(v, ws[j]) && GoodWrite(v, ws[k]);
    assert ws[j].place != ws[k].place;
  }

  // ---------------------------------------------------------------------- planning

  /** The planned entries are the table's entries, in order. */
  predicate Planned(v: View, bias: u32, rel: RelTable, table: Table, es: seq<Entry>) {
    forall k: u32 :: k < |es| ==> PlanEntry(v, bias, rel, table, k) == Ok(es[k])
  }

  /** Effective entries of a plan have pairwise distinct places, collected in `targets`. */
  predicate DistinctEntries(es: seq<Entry>, targets: set<u32>) {
    && (forall k :: 0 <= k < |es| && es[k].original.Some? ==> es[k].place in targets)
    && (forall j, k :: 0 <= j < k < |es| && es[j].original.Some? && es[k].original.Some? ==> es[j].place != es[k].place)
  }

  lemma {:induction false} PlanEntryMeaning(v: View, bias: u32, rel: RelTable, table: Table, i: u32)
    requires PlanEntry(v, bias, rel, table, i).Ok?
    ensures var e := PlanEntry(v, bias, rel, table, i).value;
            && e.index == i && Supported(e.kind, table)
            && (e.original.Some? <==> e.kind != R_ARM_NONE)
            && (e.original.Some? ==> e.place % 4 == 0 && ReadWord(v, e.place) == e.original)
  {
  }

  lemma {:induction false} PlanFromMeaning(v: View, bias: u32, rel: RelTable, table: Table, i: nat, count: u32, done: seq<Entry>,
                                           targets: set<u32>)
    requires i <= count && |done| == i && Planned(v, bias, rel, table, done) && DistinctEntries(done, targets)
    requires PlanFrom(v, bias, rel, table, i, count, done, targets).Ok?
    ensures var es := PlanFrom(v, bias, rel, table, i, count, done, targets).value;
            && |es| == count && Planned(v, bias, rel, table, es)
            && exists t: set<u32> :: DistinctEntries(es, t)
    decreases count - i
  {
    hide PlanEntry;
    if i == count {
      return;
    }
    var e := PlanEntry(v, bias, rel, table, i).value;
    var more: set<u32> := if e.original.Some? then targets + {e.place} else targets;
    PlanFromMeaning(v, bias, rel, table, i + 1, count, done + [e], more);
  }

  // --------------------------------------------------------------------- resolving

  /** Each planned entry, resolved on the view `v`. */
  predicate ResolvedAll(v: View, g: Graph, at: nat, o: RelocationOptions, index: SymbolIndex, es: seq<Entry>, rs: seq<Resolved>)
    requires at < |g|
  {
    |rs| == |es| && forall k :: 0 <= k < |es| ==> ResolveEntry(v, g, at, o, index, es[k]) == Ok(rs[k])
  }

  lemma {:induction false} ResolveEntryKeeps(v: View, g: Graph, at: nat, o: RelocationOptions, index: SymbolIndex, e: Entry)
    requires at < |g| && ResolveEntry(v, g, at, o, index, e).Ok?
    ensures var r := ResolveEntry(v, g, at, o, index, e).value;
            r.entry == e && (r.reference.Some? <==> SymbolBearing(e.kind))
  {
    hide L.ReadSymbol, LinkerStrings.ReadString, Bind, ReferenceProblem;
  }

  lemma {:induction false} ResolveFromMeaning(v: View, g: Graph, at: nat, o: RelocationOptions, index: SymbolIndex,
                                              all: seq<Entry>, i: nat, done: seq<Resolved>)
    requires at < |g| && i <= |all| && ResolvedAll(v, g, at, o, index, all[..i], done)
    requires ResolveFrom(v, g, at, o, index, all[i..], done).Ok?
    ensures ResolvedAll(v, g, at, o, index, all, ResolveFrom(v, g, at, o, index, all[i..], done).value)
    decreases |all| - i
  {
    hide ResolveEntry;
    if i == |all| {
      assert all[..i] == all;
      return;
    }
    assert all[i..][1..] == all[i + 1..];
    var r := ResolveEntry(v, g, at, o, index, all[i]).value;
    ResolveFromMeaning(v, g, at, o, index, all, i + 1, done + [r]);
  }

  /** The index used by a table: none when nothing in it refers to a symbol. */
  function IndexFor(v: View, g: Graph, at: nat, o: RelocationOptions, es: seq<Entry>): SymbolIndex
    requires at < |g|
  {
    var built := IndexOf(v, g[at].metadata, o.limits);
    if NeedsSymbols(es) && built.Ok? then built.value else NO_INDEX
  }

  // ------------------------------------------------------------------------ writes

  /** `w` is the write of resolved entry `r`. */
  predicate IsWriteOf(bias: u32, table: Table, r: Resolved, w: Write) {
    var e := r.entry;
    && e.kind != R_ARM_NONE && FinalWord(bias, r) == Ok(w.final) && e.original == Some(w.original)
    && w.index == e.index && w.kind == e.kind && w.place == e.place && w.table == table
  }

  /** `ws` holds the writes of the effective entries of `rs`, in order; `from[k]` is where the k-th comes from. */
  predicate WritesOf(bias: u32, table: Table, rs: seq<Resolved>, ws: seq<Write>, from: seq<nat>) {
    && |from| == |ws|
    && (forall k :: 0 <= k < |ws| ==> from[k] < |rs| && IsWriteOf(bias, table, rs[from[k]], ws[k]))
    && (forall j, k :: 0 <= j < k < |ws| ==> from[j] < from[k])
    && (forall i :: 0 <= i < |rs| && rs[i].entry.kind != R_ARM_NONE ==> i in from)
  }

  lemma {:induction false} FinalWordNeedsOriginal(bias: u32, r: Resolved)
    requires FinalWord(bias, r).Ok?
    ensures r.entry.original.Some?
  {
  }

  lemma {:induction false} WritesFromMeaning(bias: u32, table: Table, all: seq<Resolved>, i: nat, done: seq<Write>, from: seq<nat>)
    returns (full: seq<nat>)
    requires i <= |all| && WritesOf(bias, table, all[..i], done, from)
    requires WritesFrom(bias, all[i..], table, done).Ok?
    ensures WritesOf(bias, table, all, WritesFrom(bias, all[i..], table, done).value, full)
    decreases |all| - i
  {
    hide FinalWord, WritesOf;
    if i == |all| {
      assert all[..i] == all;
      return from;
    }
    assert all[i..][1..] == all[i + 1..];
    assert all[..i + 1] == all[..i] + [all[i]];
    if all[i].entry.kind == R_ARM_NONE {
      WritesSkip(bias, table, all[..i], all[i], done, from);
      full := WritesFromMeaning(bias, table, all, i + 1, done, from);
      return;
    }
    var e := all[i].entry;
    FinalWordNeedsOriginal(bias, all[i]);
    var w := Write(e.index, e.kind, e.place, e.original.value, FinalWord(bias, all[i]).value, table);
    WritesExtend(bias, table, all[..i], all[i], done, from, w);
    full := WritesFromMeaning(bias, table, all, i + 1, done + [w], from + [i]);
  }

  lemma {:induction false} WritesSkip(bias: u32, table: Table, rs: seq<Resolved>, r: Resolved, ws: seq<Write>, from: seq<nat>)
    requires WritesOf(bias, table, rs, ws, from) && r.entry.kind == R_ARM_NONE
    ensures WritesOf(bias, table, rs + [r], ws, from)
  {
    hide IsWriteOf;
  }

  lemma {:induction false} WritesExtend(bias: u32, table: Table, rs: seq<Resolved>, r: Resolved, ws: seq<Write>, from: seq<nat>, w: Write)
    requires WritesOf(bias, table, rs, ws, from) && IsWriteOf(bias, table, r, w)
    ensures WritesOf(bias, table, rs + [r], ws + [w], from + [|rs|])
  {
    hide IsWriteOf;
    var more, places := rs + [r], from + [|rs|];
    forall i | 0 <= i < |more| && more[i].entry.kind != R_ARM_NONE ensures i in places {
      if i == |rs| { assert places[|from|] == i; } else { assert i in from; }
    }
  }

  // --------------------------------------------------------- what a prepared table is

  /** One write for every effective entry of the table, in table order, each computed
      from `v` alone. */
  ghost predicate PreparedFrom(v: View, g: Graph, at: nat, o: RelocationOptions, table: Table, ws: seq<Write>)
    requires at < |g|
  {
    match TableOf(g[at].metadata, table)
    case None => ws == []
    case Some(rel) =>
      exists es: seq<Entry>, rs: seq<Resolved>, from: seq<nat> ::
        && |es| == rel.size / 8 && Planned(v, g[at].Bias(), rel, table, es)
        && ResolvedAll(v, g, at, o, IndexFor(v, g, at, o, es), es, rs)
        && WritesOf(g[at].Bias(), table, rs, ws, from)
  }

  lemma {:induction false} WritesAreGood(v: View, g: Graph, at: nat, o: RelocationOptions, index: SymbolIndex, rel: RelTable,
                                         table: Table, es: seq<Entry>, t: set<u32>, rs: seq<Resolved>, ws: seq<Write>, from: seq<nat>)
    requires at < |g| && Planned(v, g[at].Bias(), rel, table, es) && DistinctEntries(es, t) && |es| < ADDRESS_SPACE
    requires ResolvedAll(v, g, at, o, index, es, rs) && WritesOf(g[at].Bias(), table, rs, ws, from)
    ensures GoodWrites(v, ws)
  {
    hide PlanEntry, ResolveEntry, FinalWord;
    forall k | 0 <= k < |ws|
      ensures GoodWrite(v, ws[k]) && es[from[k]].original.Some? && ws[k].place == es[from[k]].place
    {
      var i: u32 := from[k];
      assert PlanEntry(v, g[at].Bias(), rel, table, i) == Ok(es[i]);
      PlanEntryMeaning(v, g[at].Bias(), rel, table, i);
      ResolveEntryKeeps(v, g, at, o, index, es[i]);
    }
    forall j, k | 0 <= j < k < |ws|
      ensures ws[j].place != ws[k].place
    {
      assert from[j] < from[k];
    }
  }

  /** The resolution of a successful table. */
  lemma {:induction false} ResolutionMeaning(v: View, g: Graph, at: nat, o: RelocationOptions, table: Table)
    requires at < |g| && PlanOf(v, g, at, o, table).Ok? && ResolutionOf(v, g, at, o, table).Ok?
    ensures var es := PlanOf(v, g, at, o, table).value;
            ResolvedAll(v, g, at, o, IndexFor(v, g, at, o, es), es, ResolutionOf(v, g, at, o, table).value)
  {
    hide PlanOf, ResolveEntry, IndexOf;
    var es := PlanOf(v, g, at, o, table).value;
    assert es[0..] == es;
    ResolveFromMeaning(v, g, at, o, IndexFor(v, g, at, o, es), es, 0, []);
  }

  /** A prepared table is exactly the writes of its effective entries, at aligned,
      distinct, readable words. */
  lemma {:induction false} PreparedMeaning(v: View, g: Graph, at: nat, o: RelocationOptions, table: Table)
    requires PreparedWrites(v, g, at, o, table).Ok?
    ensures at < |g| && PreparedFrom(v, g, at, o, table, PreparedWrites(v, g, at, o, table).value)
    ensures GoodWrites(v, PreparedWrites(v, g, at, o, table).value)
    ensures forall k :: 0 <= k < |PreparedWrites(v, g, at, o, table).value| ==> PreparedWrites(v, g, at, o, table).value[k].table == table
  {
    hide ResolveEntry, IndexOf, PlanEntry, FinalWord, Planned, DistinctEntries, ResolvedAll, WritesOf, GoodWrites;
    var ws := PreparedWrites(v, g, at, o, table).value;
    ResolutionMeaning(v, g, at, o, table);
    var es := PlanOf(v, g, at, o, table).value;
    var rs := ResolutionOf(v, g, at, o, table).value;
    assert rs[0..] == rs && rs[..0] == [];
    NothingPrepared(v, g[at].Bias(), table, ws);
    var from := WritesFromMeaning(g[at].Bias(), table, rs, 0, [], []);
    WritesTable(g[at].Bias(), table, rs, ws, from);
    var selected := TableOf(g[at].metadata, table);
    if selected.None? {
      NothingPlanned(v, g, at, o, table);
      return;
    }
    var rel := selected.value;
    NothingDone(v, g[at].Bias(), rel, table);
    PlanFromMeaning(v, g[at].Bias(), rel, table, 0, rel.size / 8, [], {});
    var t: set<u32> :| DistinctEntries(es, t);
    WritesAreGood(v, g, at, o, IndexFor(v, g, at, o, es), rel, table, es, t, rs, ws, from);
  }

  lemma {:induction false} NothingPrepared(v: View, bias: u32, table: Table, ws: seq<Write>)
    ensures WritesOf(bias, table, [], [], []) && (ws == [] ==> GoodWrites(v, ws))
  {
  }

  lemma {:induction false} NothingDone(v: View, bias: u32, rel: RelTable, table: Table)
    ensures Planned(v, bias, rel, table, []) && DistinctEntries([], {})
  {
  }

  lemma {:induction false} WritesTable(bias: u32, table: Table, rs: seq<Resolved>, ws: seq<Write>, from: seq<nat>)
    requires WritesOf(bias, table, rs, ws, from)
    ensures forall k :: 0 <= k < |ws| ==> ws[k].table == table
  {
    hide FinalWord;
  }

  /** Without a table there is nothing to write. */
  lemma {:induction false} NothingPlanned(v: View, g: Graph, at: nat, o: RelocationOptions, table: Table)
    requires at < |g| && TableOf(g[at].metadata, table).None?
    ensures PreparedWrites(v, g, at, o, table) == Ok([])
  {
    assert PlanOf(v, g, at, o, table) == Ok([]);
  }

  lemma {:induction false} ClashFree(ws: seq<Write>, places: set<u32>)
    requires Clash(ws, places).None?
    ensures forall k :: 0 <= k < |ws| ==> ws[k].place !in places
  {
    if ws == [] {
      return;
    }
    ClashFree(ws[1..], places + {ws[0].place});
    forall k | 0 <= k < |ws|
      ensures ws[k].place !in places
    {
      if k > 0 {
        assert ws[1..][k - 1].place !in places + {ws[0].place};
      }
    }
  }

  /** Both tables together: the writes of the main table, then those of the PLT table,
      all at pairwise distinct aligned words whose original value was captured. */
  lemma {:induction false} CombinedMeaning(v: View, g: Graph, at: nat, o: RelocationOptions)
    requires CombinedWrites(v, g, at, o).Ok?
    ensures at < |g| && GoodWrites(v, CombinedWrites(v, g, at, o).value)
    ensures exists n: nat :: n <= |CombinedWrites(v, g, at, o).value|
              && PreparedFrom(v, g, at, o, MainRel, CombinedWrites(v, g, at, o).value[..n])
              && PreparedFrom(v, g, at, o, PltRel, CombinedWrites(v, g, at, o).value[n..])
  {
    hide PreparedWrites, PreparedFrom;
    PreparedMeaning(v, g, at, o, MainRel);
    PreparedMeaning(v, g, at, o, PltRel);
    var main := PreparedWrites(v, g, at, o, MainRel).value;
    var plt := PreparedWrites(v, g, at, o, PltRel).value;
    ClashFree(plt, Places(main));
    var ws := main + plt;
    assert ws[..|main|] == main && ws[|main|..] == plt;
    forall j, k | 0 <= j < k < |ws|
      ensures ws[j].place != ws[k].place
    {
      if j < |main| <= k {
        assert main[j] in main;
      }
    }
  }

  // ---------------------------------------------------------------- AAELF32 codes

  /** The "Relocation codes" table of AAELF32: S is the symbol address without the
      Thumb bit, T the Thumb bit, A the addend, P the place and B the load base. */
  function AbiWord(kind: int, b: u32, s: u32, t: bool, a: u32, p: u32): u32 {
    var sum := WrapAdd(s, a);
    var target := if t then WithBit0(sum) else sum;
    if kind == R_ARM_RELATIVE then WrapAdd(b, a)
    else if kind == R_ARM_REL32 then WrapSub(target, p)
    else target
  }

  /** The word the table asks for, for a bound reference `r`. */
  function AbiWordFor(kind: int, b: u32, r: Reference, a: u32, p: u32): u32 {
    AbiWord(kind, b, if IsThumb(r) then WithoutBit0(r.value) else r.value, IsThumb(r), a, p)
  }

  lemma {:induction false} WrapUndo(x: u32, p: u32)
    ensures WrapAdd(p, WrapSub(x, p)) == x
  {
    hide WrapAdd, WrapSub;
    WrapCases(x, p);
    WrapCases(p, WrapSub(x, p));
  }

  /** REL32 always stores the word of the table: adding the place back gives the target
      with its Thumb bit. */
  lemma {:induction false} Rel32FollowsAbi(bias: u32, r: Resolved)
    requires r.entry.kind == R_ARM_REL32 && r.entry.original.Some? && r.reference.Some?
    ensures FinalWord(bias, r) == Ok(AbiWordFor(R_ARM_REL32, bias, r.reference.value, r.entry.original.value, r.entry.place))
    ensures WrapAdd(r.entry.place, FinalWord(bias, r).value)
            == AbiWordFor(R_ARM_ABS32, bias, r.reference.value, r.entry.original.value, r.entry.place)
  {
    hide WrapAdd, WrapSub, WithBit0, WithoutBit0, IsThumb;
    WrapUndo(AbiWordFor(R_ARM_ABS32, bias, r.reference.value, r.entry.original.value, r.entry.place), r.entry.place);
  }

  /** The parity of a wrapped sum is that of the sum. */
  lemma {:induction false} OddSum(s: u32, a: u32)
    ensures WrapAdd(s, a) % 2 == (s + a) % 2
  {
    hide WrapAdd;
    WrapCases(s, a);
  }

  /** Setting bit 0 after adding to the even part equals the plain sum exactly when that sum is odd. */
  lemma {:induction false} ThumbSum(s: u32, a: u32)
    ensures WithBit0(WrapAdd(WithoutBit0(s), a)) == WrapAdd(s, a) <==> (s + a) % 2 == 1
  {
    hide WrapAdd;
    WrapCases(s, a);
    WrapCases(WithoutBit0(s), a);
    OddSum(s, a);
    OddSum(WithoutBit0(s), a);
  }

  /** ABS32 adds the addend to the symbol value with its Thumb bit, so it stores the
      word of the table exactly when the target is not Thumb or the sum is odd. */
  lemma {:induction false} Abs32FollowsAbi(bias: u32, r: Resolved)
    requires r.entry.kind == R_ARM_ABS32 && r.entry.original.Some? && r.reference.Some?
    ensures FinalWord(bias, r) == Ok(AbiWordFor(R_ARM_ABS32, bias, r.reference.value, r.entry.original.value, r.entry.place))
            <==> (IsThumb(r.reference.value) ==> (r.reference.value.value + r.entry.original.value) % 2 == 1)
  {
    hide WrapAdd, WrapSub, WithBit0, WithoutBit0, IsThumb;
    ThumbSum(r.reference.value.value, r.entry.original.value);
  }

  /** The target with its Thumb bit equals the symbol value exactly when the addend adds nothing. */
  lemma {:induction false} ThumbSlot(s: u32, a: u32)
    ensures WithBit0(WrapAdd(WithoutBit0(s), a)) == s <==> s % 2 == 1 && a < 2
    ensures WrapAdd(s, a) == s <==> a == 0
  {
    hide WrapAdd;
    WrapCases(s, a);
    WrapCases(WithoutBit0(s), a);
    OddSum(WithoutBit0(s), a);
  }

  /** GLOB_DAT and JUMP_SLOT ignore the word in place, so they store the word of the
      table exactly when that word adds nothing to the symbol value. */
  lemma {:induction false} SlotsFollowAbi(bias: u32, r: Resolved)
    requires r.entry.kind == R_ARM_GLOB_DAT || r.entry.kind == R_ARM_JUMP_SLOT
    requires r.entry.original.Some? && r.reference.Some?
    ensures FinalWord(bias, r) == Ok(AbiWordFor(r.entry.kind, bias, r.reference.value, r.entry.original.value, r.entry.place))
            <==> if IsThumb(r.reference.value) then r.reference.value.value % 2 == 1 && r.entry.original.value < 2
                 else r.entry.original.value == 0
  {
    hide WrapAdd, WrapSub, WithBit0, WithoutBit0, IsThumb;
    ThumbSlot(r.reference.value.value, r.entry.original.value);
  }
}

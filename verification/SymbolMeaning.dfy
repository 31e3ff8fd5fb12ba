/** What a symbol lookup answers, told by the bytes of the symbol and string tables
    (src/elf/linking/elf32_symbol_lookup.cpp:509-727). */
module SymbolMeaning {
  import opened Words
  import opened Views
  import opened Objects
  import opened LinkerStrings
  import opened SymbolIndexes
  import V = Versioning
  import opened SymbolLookup
  import opened HashTheorems

  /** Where symbol `i` is. */
  function SymbolAddress(m: Metadata, i: nat): int
    requires m.symbolTable.Some?
  {
    m.symbolTable.value.guest + 16 * i
  }

  /** The sixteen bytes of symbol `i` are those of `s`. */
  ghost predicate SymbolAt(v: View, m: Metadata, i: nat, s: Symbol)
    requires m.symbolTable.Some?
  {
    var a := SymbolAddress(m, i);
    && Readable(v, a, 16)
    && s.nameOffset == WordIn(v, a) && s.value == WordIn(v, a + 4) && s.size == WordIn(v, a + 8)
    && v[a + 12] as int == 16 * s.binding + s.kind && 0 <= s.kind < 16
    && s.rawOther == v[a + 13] && s.visibility == v[a + 13] as int % 4
    && s.section == HalfIn(v, a + 14)
  }

  /** The linker supports a symbol of this form: GLOBAL or WEAK, no reserved section but ABS, no other
      bits, and NOTYPE, OBJECT or FUNC. */
  predicate Supported(s: Symbol) {
    && (s.binding == 1 || s.binding == 2) && s.rawOther < 4 && (s.section < 0xff00 || s.section == 0xfff1)
    && (s.kind == 0 || s.kind == 1 || s.kind == 2)
  }

  /** A symbol no other object may bind to: LOCAL, undefined, INTERNAL or HIDDEN. */
  predicate Private(s: Symbol) { s.binding == 0 || s.section == 0 || s.visibility == 1 || s.visibility == 2 }

  function VersionAnswer(v: View, q: Query, i: u32): Result<bool, V.VersionError> {
    V.MatchVersion(v, q.metadata, i, q.requirement, V.Limits(q.limits.versionRecords, q.limits.nameBytes))
  }

  /** Symbol `i`, with the bytes of `s`, defines the name that is asked for. */
  ghost predicate Defines(v: View, q: Query, i: u32, s: Symbol)
    requires HasTables(q)
  {
    && 0 < i < q.count && SymbolAt(v, q.metadata, i, s)
    && NameFrom(v, q.metadata.stringTable.value, s.nameOffset, q.limits.nameBytes, q.name)
    && !Private(s) && Supported(s) && VersionAnswer(v, q, i) == Ok(true)
  }

  /** The guest value of a symbol: absolute, or relative to the load bias. */
  function GuestValue(bias: u32, s: Symbol): int { if s.section == 0xfff1 then s.value else bias + s.value }

  /** The answer is symbol `r.index` of the table, a definition of the name, at its guest value. */
  ghost predicate Answers(v: View, q: Query, r: ResolvedSymbol)
    requires HasTables(q)
  {
    Defines(v, q, r.index, r.symbol) && r.name == q.name && r.guestValue == GuestValue(q.bias, r.symbol)
  }

  /** Symbol `i` is readable and passed over: it has another name, or it is private, or its version is
      not the one required. */
  ghost predicate Passed(v: View, q: Query, i: u32)
    requires HasTables(q)
  {
    exists s: Symbol, name: Name :: PassedAs(v, q, i, s, name)
  }

  ghost predicate PassedAs(v: View, q: Query, i: u32, s: Symbol, name: Name)
    requires HasTables(q)
  {
    && 0 < i < q.count && SymbolAt(v, q.metadata, i, s)
    && NameFrom(v, q.metadata.stringTable.value, s.nameOffset, q.limits.nameBytes, name)
    && (name != q.name || Private(s) || (Supported(s) && VersionAnswer(v, q, i) == Ok(false)))
  }

  // ------------------------------------------------------------------------- one symbol

  lemma {:induction false} SymbolExact(v: View, m: Metadata, i: u32, s: Symbol)
    requires m.symbolTable.Some?
    ensures ReadSymbol(v, m.symbolTable.value, i) == Some(s) <==> SymbolAt(v, m, i, s)
  {
    var a := SymbolAddress(m, i);
    if a >= ADDRESS_SPACE {
      assert a !in v;
      return;
    }
    if Readable(v, a, 16) {
      var b := Bytes(v, a, 16);
      BytesAre(v, a, b);
      InfoByte(b[12], s.binding, s.kind);
    }
  }

  lemma {:induction false} BytesAre(v: View, a: int, b: seq<u8>)
    requires Readable(v, a, 16) && b == Bytes(v, a, 16)
    ensures DecodeU32(b, 0) == WordIn(v, a) && DecodeU32(b, 4) == WordIn(v, a + 4) && DecodeU32(b, 8) == WordIn(v, a + 8)
    ensures b[12] == v[a + 12] && b[13] == v[a + 13] && DecodeU16(b, 14) == HalfIn(v, a + 14)
  {
  }

  lemma {:induction false} InfoByte(b: u8, binding: int, kind: int)
    ensures b as int == 16 * binding + kind && 0 <= kind < 16 <==> binding == b as int / 16 && kind == b as int % 16
  {
  }

  /** The name of a symbol, read from a validated string table. */
  ghost predicate NamesReadableTable(v: View, m: Metadata) {
    m.stringTable.Some? && Readable(v, m.stringTable.value.guest, m.stringTable.value.size)
  }

  /** A candidate decides with an answer exactly if it defines the name and its value fits. */
  lemma {:induction false} AnswerExact(v: View, q: Query, i: u32, r: ResolvedSymbol)
    requires HasTables(q) && NamesReadableTable(v, q.metadata)
    ensures Evaluate(v, q, i) == Some(Ok(r)) <==> r.index == i && Answers(v, q, r)
  {
    hide ReadSymbol, ReadString, SymbolAt, NameFrom, V.MatchVersion;
    var m := q.metadata;
    if !(0 < i < q.count) {
      return;
    }
    SymbolExact(v, m, i, r.symbol);
    var s := ReadSymbol(v, m.symbolTable.value, i);
    if s.None? {
      return;
    }
    SymbolExact(v, m, i, s.value);
    if s.value.nameOffset < m.stringTable.value.size {
      NameRead(v, m.stringTable.value, s.value.nameOffset, q.limits.nameBytes, q.name);
    } else {
      BeyondTable(v, m.stringTable.value, s.value.nameOffset, q.limits.nameBytes, q.name);
    }
    JudgeAnswers(v, q, i, s.value, r);
  }

  lemma {:induction false} BeyondTable(v: View, t: StringTable, offset: u32, max: u32, name: Name)
    requires offset >= t.size
    ensures ReadString(v, t, offset, max).Err? && !NameFrom(v, t, offset, max, name)
  {
  }

  lemma {:induction false} JudgeAnswers(v: View, q: Query, i: u32, s: Symbol, r: ResolvedSymbol)
    ensures Judge(v, q, i, q.name, s) == Some(Ok(r)) <==>
              && r.index == i && r.name == q.name && r.symbol == s && !Private(s) && Supported(s) && VersionAnswer(v, q, i) == Ok(true)
              && r.guestValue == GuestValue(q.bias, s)
    ensures Judge(v, q, i, q.name, s).None? <==> Private(s) || (Supported(s) && VersionAnswer(v, q, i) == Ok(false))
  {
    hide V.MatchVersion;
  }

  /** A candidate does not decide exactly if it is passed over. */
  lemma {:induction false} PassedExact(v: View, q: Query, i: u32)
    requires HasTables(q) && NamesReadableTable(v, q.metadata)
    ensures Evaluate(v, q, i).None? <==> Passed(v, q, i)
  {
    hide ReadSymbol, ReadString, SymbolAt, NameFrom, V.MatchVersion, Judge;
    var m := q.metadata;
    if Passed(v, q, i) {
      var s, name :| PassedAs(v, q, i, s, name);
      SymbolExact(v, m, i, s);
      NameInside(v, m.stringTable.value, s.nameOffset, q.limits.nameBytes, name);
      NameRead(v, m.stringTable.value, s.nameOffset, q.limits.nameBytes, name);
      JudgeAnswers(v, q, i, s, ResolvedSymbol(i, name, s, 0));
    }
    if Evaluate(v, q, i).None? {
      var s := ReadSymbol(v, m.symbolTable.value, i).value;
      var name := ReadString(v, m.stringTable.value, s.nameOffset, q.limits.nameBytes).value;
      SymbolExact(v, m, i, s);
      NameSound(v, m.stringTable.value, s.nameOffset, q.limits.nameBytes, name);
      JudgeAnswers(v, q, i, s, ResolvedSymbol(i, name, s, 0));
      assert PassedAs(v, q, i, s, name);
    }
  }

  lemma {:induction false} NameInside(v: View, t: StringTable, offset: u32, max: u32, name: Name)
    requires NameFrom(v, t, offset, max, name)
    ensures offset < t.size
  {
  }

  /** Whatever the tables: a candidate that decides with an answer defines the name. */
  lemma {:induction false} AnswerSound(v: View, q: Query, i: u32, r: ResolvedSymbol)
    requires HasTables(q) && Evaluate(v, q, i) == Some(Ok(r))
    ensures r.index == i && Answers(v, q, r)
  {
    hide ReadSymbol, ReadString, SymbolAt, NameFrom, V.MatchVersion, Judge;
    var m := q.metadata;
    var s := ReadSymbol(v, m.symbolTable.value, i).value;
    var name := ReadString(v, m.stringTable.value, s.nameOffset, q.limits.nameBytes).value;
    SymbolExact(v, m, i, s);
    NameSound(v, m.stringTable.value, s.nameOffset, q.limits.nameBytes, name);
    JudgeAnswers(v, q, i, s, r);
  }

  // ------------------------------------------------------------------------------ walks

  lemma {:induction false} GnuWalkSound(v: View, q: Query, g: GnuIndex, hash: u32, i: u32, r: ResolvedSymbol)
    requires HasTables(q) && g.symbolOffset <= i && GnuWalk(v, q, g, hash, i) == Ok(r)
    ensures Evaluate(v, q, r.index) == Some(Ok(r))
    decreases q.count - i
  {
    hide ReadIndexedWord, Evaluate;
    var c := ReadIndexedWord(v, g.chains, i - g.symbolOffset).value;
    if c / 2 == hash / 2 && Evaluate(v, q, i).Some? {
      AnswerSound(v, q, i, r);
    } else {
      GnuWalkSound(v, q, g, hash, i + 1, r);
    }
  }

  lemma {:induction false} SysvWalkSound(v: View, q: Query, s: SysvIndex, i: u32, hops: nat, r: ResolvedSymbol)
    requires HasTables(q) && hops <= q.count && SysvWalk(v, q, s, i, hops) == Ok(r)
    ensures Evaluate(v, q, r.index) == Some(Ok(r))
    decreases q.count - hops
  {
    hide ReadIndexedWord, Evaluate;
    if Evaluate(v, q, i).Some? {
      AnswerSound(v, q, i, r);
    } else {
      SysvWalkSound(v, q, s, ReadIndexedWord(v, s.chains, i).value, hops + 1, r);
    }
  }

  /** Whatever the tables and the index: an answer is a definition of the name, by the bytes of the
      symbol table, at the guest value of its st_value. */
  lemma {:induction false} LookupSound(v: View, bias: u32, m: Metadata, index: SymbolIndex, name: Name, o: LookupLimits,
                                       requirement: Option<V.Requirement>, r: ResolvedSymbol)
    requires Lookup(v, bias, m, index, name, o, requirement) == Ok(r)
    ensures var q := Query(bias, m, index.count, name, o, requirement); HasTables(q) && Answers(v, q, r)
  {
    hide ReadIndexedWord, Evaluate, GnuWalk, SysvWalk, InBloom, BitAnd, GnuHash, SysvHash, Defines;
    var q := Query(bias, m, index.count, name, o, requirement);
    if index.gnu.Some? {
      var g := index.gnu.value;
      var i := ReadIndexedWord(v, g.buckets, GnuHash(name) % g.bucketCount).value;
      GnuWalkSound(v, q, g, GnuHash(name), i, r);
    } else {
      var s := index.sysv.value;
      var i := ReadIndexedWord(v, s.buckets, SysvHash(name) % s.bucketCount).value;
      SysvWalkSound(v, q, s, i, 0, r);
    }
    AnswerSound(v, q, r.index, r);
  }

  // ------------------------------------------------------------------------------- exactly

  /** On a well-formed GNU table the answer is exactly the first definition from the symbol offset on,
      everything before it passed over; nothing is found exactly if everything is passed over. */
  lemma {:induction false} GnuLookupExact(v: View, q: Query, g: GnuIndex, r: ResolvedSymbol)
    requires HasTables(q) && NamesReadableTable(v, q.metadata) && WellFormedGnu(v, q, g) && g.symbolOffset <= q.count
    ensures g.bucketCount > 0 && g.bloomCount > 0
    ensures GnuLookup(v, q, g) == Ok(r) <==>
              g.symbolOffset <= r.index && Answers(v, q, r) && forall j: u32 :: g.symbolOffset <= j < r.index ==> Passed(v, q, j)
    ensures GnuLookup(v, q, g) == Err(SymbolNotFound) <==> forall j: u32 :: g.symbolOffset <= j < q.count ==> Passed(v, q, j)
  {
    hide Evaluate, LinearScan, GnuLookup, WellFormedGnu, Defines, Passed;
    GnuSymbolOffset(v, q, g);
    GnuLookupIsScan(v, q, g);
    var d := ScanStops(v, q, g.symbolOffset);
    forall j: u32 | g.symbolOffset <= j < q.count ensures Evaluate(v, q, j).None? <==> Passed(v, q, j) {
      PassedExact(v, q, j);
    }
    AnswerExact(v, q, r.index, r);
    AnswerInRange(v, q, r);
    if d < q.count {
      AnswerExact(v, q, d, r);
      CandidateInRange(v, q, d);
    }
  }

  lemma {:induction false} AnswerInRange(v: View, q: Query, r: ResolvedSymbol)
    requires HasTables(q)
    ensures Answers(v, q, r) ==> 0 < r.index < q.count
  {
  }

  /** On any table the SysV walk accepts, the answer is exactly the first definition on the chain of the
      name's bucket, everything before it passed over. */
  lemma {:induction false} SysvLookupExact(v: View, q: Query, s: SysvIndex, r: ResolvedSymbol)
    requires HasTables(q) && NamesReadableTable(v, q.metadata) && q.count > 0 && GoodSysv(v, s, q.count)
    ensures s.bucketCount > 0
    ensures SysvLookup(v, q, s) == Ok(r) <==> Answers(v, q, r) && FirstOnChain(v, q, s, SysvStart(v, q, s), r.index)
    ensures SysvLookup(v, q, s) == Err(SymbolNotFound) <==> AllPassed(v, q, s, SysvStart(v, q, s)) && !Revisits(v, s, SysvStart(v, q, s))
  {
    hide Evaluate, SysvLookup, GoodSysv, Defines, Passed, ChainAt, SysvStart, Revisits, FirstOnChain, AllPassed, SysvWalk;
    SysvCounts(v, s, q.count);
    SysvLookupSafe(v, q, s);
    var start := SysvStart(v, q, s);
    UndecidedPassed(v, q, s, start);
    AnswerExact(v, q, r.index, r);
    AnswerInRange(v, q, r);
    if Undecided(v, q, s, start) {
      SysvChainVerdict(v, q, s, start);
      if Answers(v, q, r) { UndecidedMissesFirst(v, q, s, start, r.index); }
      return;
    }
    var n := SysvChainDecided(v, q, s, start);
    AnswerExact(v, q, ChainAt(v, s, start, n), r);
    DecidedFirst(v, q, s, start, n);
    if Answers(v, q, r) && FirstOnChain(v, q, s, start, r.index) {
      FirstUnique(v, q, s, start, n, r.index);
    }
  }

  /** Symbol `i` is on the chain, and every symbol before it is passed over. */
  ghost predicate FirstOnChain(v: View, q: Query, s: SysvIndex, start: u32, i: u32)
    requires HasTables(q)
  {
    exists n: nat :: ChainAt(v, s, start, n) == i && PassedUntil(v, q, s, start, n)
  }

  ghost predicate PassedUntil(v: View, q: Query, s: SysvIndex, start: u32, n: nat)
    requires HasTables(q)
  {
    forall k: nat :: k < n ==> ChainAt(v, s, start, k) != 0 && Passed(v, q, ChainAt(v, s, start, k))
  }

  ghost predicate AllPassed(v: View, q: Query, s: SysvIndex, start: u32)
    requires HasTables(q)
  {
    forall k: nat :: ChainAt(v, s, start, k) != 0 ==> Passed(v, q, ChainAt(v, s, start, k))
  }

  lemma {:induction false} UndecidedPassed(v: View, q: Query, s: SysvIndex, start: u32)
    requires HasTables(q) && NamesReadableTable(v, q.metadata)
    ensures Undecided(v, q, s, start) <==> AllPassed(v, q, s, start)
  {
    hide Evaluate, Passed, ChainAt;
    forall k: nat ensures Evaluate(v, q, ChainAt(v, s, start, k)).None? <==> Passed(v, q, ChainAt(v, s, start, k)) {
      PassedExact(v, q, ChainAt(v, s, start, k));
    }
  }

  lemma {:induction false} UndecidedMissesFirst(v: View, q: Query, s: SysvIndex, start: u32, i: u32)
    requires HasTables(q) && i > 0 && Undecided(v, q, s, start) && Evaluate(v, q, i).Some?
    ensures !FirstOnChain(v, q, s, start, i)
  {
    hide Evaluate, ChainAt, Passed;
  }

  lemma {:induction false} DecidedFirst(v: View, q: Query, s: SysvIndex, start: u32, n: nat)
    requires HasTables(q) && NamesReadableTable(v, q.metadata)
    requires forall k: nat :: k < n ==> ChainAt(v, s, start, k) != 0 && Evaluate(v, q, ChainAt(v, s, start, k)).None?
    ensures PassedUntil(v, q, s, start, n) && FirstOnChain(v, q, s, start, ChainAt(v, s, start, n))
  {
    hide Evaluate, Passed, ChainAt;
    forall k: nat | k < n ensures ChainAt(v, s, start, k) != 0 && Passed(v, q, ChainAt(v, s, start, k)) {
      PassedExact(v, q, ChainAt(v, s, start, k));
    }
  }

  lemma {:induction false} FirstUnique(v: View, q: Query, s: SysvIndex, start: u32, n: nat, i: u32)
    requires HasTables(q) && NamesReadableTable(v, q.metadata) && Evaluate(v, q, ChainAt(v, s, start, n)).Some?
    requires PassedUntil(v, q, s, start, n) && FirstOnChain(v, q, s, start, i) && Evaluate(v, q, i).Some?
    ensures i == ChainAt(v, s, start, n)
  {
    hide Evaluate, Passed, ChainAt;
    var k: nat :| ChainAt(v, s, start, k) == i && PassedUntil(v, q, s, start, k);
    PassedExact(v, q, i);
    PassedExact(v, q, ChainAt(v, s, start, n));
  }
}

/** One object as table bytes: a Thumb function with a SysV hash table, and a REL table with an
    ABS32 entry over an odd word and a GLOB_DAT entry over a word other than zero.  Preparing the
    table stores other words than the "Relocation codes" of AAELF32 ask for. */
module RelocationExample {
  import opened Words
  import opened Views
  import opened Objects
  import opened LinkerStrings
  import opened SymbolIndexes
  import V = Versioning
  import L = SymbolLookup
  import opened ScopeSearch
  import opened Relocations
  import opened RelocationTheorems

  const BASE := 0x1000
  const SIZE := 80

  /** Word `k` of the image: the hash table from word 0, two symbols from word 5, two REL entries
      from word 13, their words 17 and 18, and the string table in word 19. */
  function WordOf(k: nat): u32 {
    if k == 0 then 1 else if k == 1 then 2 else if k == 2 then 1
    else if k == 9 then 1 else if k == 10 then 0x8001 else if k == 11 then 4 else if k == 12 then 0x0001_0012
    else if k == 13 then 0x1044 else if k == 14 then 0x102 else if k == 15 then 0x1048 else if k == 16 then 0x115
    else if k == 17 then 1 else if k == 18 then 4 else if k == 19 then 0x6600
    else 0
  }

  function ImageByte(i: nat): u8 { EncodeU32(WordOf(i / 4))[i % 4] }

  predicate InImage(a: int) { BASE <= a < BASE + SIZE }

  function Image(): (v: View)
    ensures forall a: nat :: a in v <==> InImage(a)
    ensures forall a: nat :: a in v ==> BASE <= a && v[a] == ImageByte(a - BASE)
  {
    map a: int | BASE <= a < BASE + SIZE && InImage(a) :: ImageByte(a - BASE)
  }

  const STRINGS := StringTable(BASE + 76, 3)
  const SYMBOLS := SymbolTable(BASE + 20, 16)
  const RELS := RelTable(BASE + 52, 16, 8)

  const METADATA := NO_METADATA.(stringTable := Some(STRINGS), symbolTable := Some(SYMBOLS), sysvHash := Some(BASE), relTable := Some(RELS))

  const GRAPH: Graph := [Object([102], [], None, [], METADATA, Strings(None, []), [])]

  const LIMITS := LookupLimits(16, 16, 16, 16, 16)
  const OPTIONS := RelocationOptions(16, LIMITS, 16, [])

  /** The function "f" at 0x8001. */
  const SYMBOL := L.Symbol(1, 0x8001, 4, L.STB_GLOBAL, L.STT_FUNC, L.STV_DEFAULT, 0, 1)
  const NAME: Name := [102]

  /** The bytes of the image from `at` on. */
  ghost predicate Holds(b: seq<u8>, at: nat) { forall i :: 0 <= i < |b| ==> b[i] == ImageByte(at + i) }

  /** Reading words of the image. */
  lemma {:induction false} WordsAt(k: nat, n: nat)
    requires 4 * (k + n) <= SIZE
    ensures Readable(Image(), BASE + 4 * k, 4 * n) && Read(Image(), BASE + 4 * k, 4 * n).Some?
    ensures Holds(Read(Image(), BASE + 4 * k, 4 * n).value, 4 * k)
  {
    hide ImageByte, Image;
    var b := Read(Image(), BASE + 4 * k, 4 * n).value;
    forall i | 0 <= i < |b| ensures b[i] == ImageByte(4 * k + i) {
      assert InImage(BASE + 4 * k + i);
    }
  }

  lemma {:induction false} Decoded(k: nat, n: nat, j: nat)
    requires 4 * (k + n) <= SIZE && j < n
    ensures Read(Image(), BASE + 4 * k, 4 * n).Some? && DecodeU32(Read(Image(), BASE + 4 * k, 4 * n).value, 4 * j) == WordOf(k + j)
  {
    hide EncodeU32, WordOf, ImageByte, Image, DecodeU32, Read;
    WordsAt(k, n);
    WordBytes(k + j);
    OneWord(Read(Image(), BASE + 4 * k, 4 * n).value, 4 * j, EncodeU32(WordOf(k + j)));
  }

  lemma {:induction false} WordBytes(k: nat)
    ensures forall i: nat :: i < 4 ==> ImageByte(4 * k + i) == EncodeU32(WordOf(k))[i]
  {
    hide EncodeU32, WordOf;
  }

  lemma {:induction false} OneWord(b: seq<u8>, at: nat, e: seq<u8>)
    requires at + 4 <= |b| && |e| == 4 && forall i: nat :: i < 4 ==> b[at + i] == e[i]
    ensures DecodeU32(b, at) == DecodeU32(e, 0)
  {
    assert b[at + 0] == e[0] && b[at + 1] == e[1] && b[at + 2] == e[2] && b[at + 3] == e[3];
  }

  lemma {:induction false} WordAt(k: nat)
    requires 4 * (k + 1) <= SIZE
    ensures ReadWord(Image(), BASE + 4 * k) == Some(WordOf(k))
  {
    hide WordOf, Image, DecodeU32, ImageByte;
    Decoded(k, 1, 0);
  }

  /** The five words of the hash table. */
  lemma {:induction false} HashWords()
    ensures ReadIndexedWord(Image(), BASE, 0) == Some(1) && ReadIndexedWord(Image(), BASE, 1) == Some(2)
    ensures ReadIndexedWord(Image(), BASE + 8, 0) == Some(1)
    ensures ReadIndexedWord(Image(), BASE + 12, 0) == Some(0) && ReadIndexedWord(Image(), BASE + 12, 1) == Some(0)
  {
    hide Image, ReadWord;
    WordAt(0);
    WordAt(1);
    WordAt(2);
    WordAt(3);
    WordAt(4);
  }

  lemma {:induction false} ExampleSysv()
    ensures SysvOf(Image(), BASE, LIMITS) == Ok(SysvIndex(1, 2, BASE + 8, BASE + 12))
  {
    hide Image, Readable, ReadIndexedWord, Read, ImageByte;
    HashWords();
    WordsAt(0, 5);
    assert WordsBelow(Image(), BASE + 8, 1, 1, 2).None?;
    assert WordsBelow(Image(), BASE + 8, 0, 1, 2).None?;
    assert WordsBelow(Image(), BASE + 12, 2, 2, 2).None?;
    assert WordsBelow(Image(), BASE + 12, 1, 2, 2).None?;
    assert WordsBelow(Image(), BASE + 12, 0, 2, 2).None?;
  }

  lemma {:induction false} ExampleIndex()
    ensures IndexOf(Image(), METADATA, LIMITS) == Ok(SymbolIndex(2, Some(SysvIndex(1, 2, BASE + 8, BASE + 12)), None))
  {
    hide Image, Readable, SysvOf, Read, ImageByte;
    ExampleSysv();
    WordsAt(5, 8);
  }

  /** The bytes that are read one by one. */
  lemma {:induction false} LastBytes()
    ensures ImageByte(48) == 0x12 && ImageByte(49) == 0 && ImageByte(50) == 1 && ImageByte(51) == 0
    ensures ImageByte(77) == 102 && ImageByte(78) == 0
  {
    assert WordOf(12) == 0x0001_0012 && WordOf(19) == 0x6600;
  }

  lemma {:induction false} ExampleSymbol()
    ensures L.ReadSymbol(Image(), SYMBOLS, 1) == Some(SYMBOL)
  {
    hide Image, Readable, EncodeU32, DecodeU32;
    WordsAt(9, 4);
    var b := Read(Image(), BASE + 36, 16).value;
    Decoded(9, 4, 0);
    Decoded(9, 4, 1);
    Decoded(9, 4, 2);
    assert b[12] == ImageByte(36 + 12) && b[13] == ImageByte(36 + 13) && b[14] == ImageByte(36 + 14) && b[15] == ImageByte(36 + 15);
    LastBytes();
  }

  lemma {:induction false} ExampleName()
    ensures ReadString(Image(), STRINGS, 1, 16) == Ok(NAME)
  {
    hide Image, ImageByte;
    var v := Image();
    LastBytes();
    assert InImage(BASE + 77) && InImage(BASE + 78);
    assert ChunkSize(0, 2, 16) == 2;
    assert v[BASE + 78] == 0 && v[BASE + 77] == 102;
    assert ScanChunk(v, BASE + 77, 1, 2, 16) == Some(Ok(Bytes(v, BASE + 77, 1)));
    assert Bytes(v, BASE + 77, 1) == NAME;
    assert ScanChunk(v, BASE + 77, 0, 2, 16) == Some(Ok(NAME));
  }

  lemma {:induction false} ExampleLookup()
    ensures IndexOf(Image(), METADATA, LIMITS).Ok?
    ensures L.Lookup(Image(), 0, METADATA, IndexOf(Image(), METADATA, LIMITS).value, NAME, LIMITS, None)
            == Ok(L.ResolvedSymbol(1, NAME, SYMBOL, 0x8001))
  {
    hide Image, IndexOf, L.ReadSymbol, ReadString, L.SysvHash, ReadIndexedWord;
    ExampleIndex();
    ExampleSymbol();
    ExampleName();
    HashWords();
    var q := L.Query(0, METADATA, 2, NAME, LIMITS, None);
    assert L.Evaluate(Image(), q, 1) == Some(Ok(L.ResolvedSymbol(1, NAME, SYMBOL, 0x8001)));
    assert L.SysvHash(NAME) % 1 == 0;
  }

  lemma {:induction false} ExampleBound()
    ensures Bind(Image(), GRAPH, 0, OPTIONS, 1, NAME, SYMBOL) == Ok(Reference(NAME, SYMBOL, Some(SYMBOL), 0x8001))
  {
    hide Image, IndexOf, L.Lookup;
    ExampleLookup();
    var s := Search(Image(), GRAPH, NAME, LIMITS, None, 16);
    assert SearchPrefix(s, [], {}) == (None, {});
    assert SearchOne(s, 0, {}) == Some(Ok(GraphSymbol(0, L.ResolvedSymbol(1, NAME, SYMBOL, 0x8001))));
    assert ScopeLookup(s, 0, [], false) == Ok(GraphSymbol(0, L.ResolvedSymbol(1, NAME, SYMBOL, 0x8001)));
  }

  const FIRST := Entry(0, 1, R_ARM_ABS32, 0x1044, Some(1))
  const SECOND := Entry(1, 1, R_ARM_GLOB_DAT, 0x1048, Some(4))

  lemma {:induction false} ExampleEntries()
    ensures PlanEntry(Image(), 0, RELS, MainRel, 0) == Ok(FIRST)
    ensures PlanEntry(Image(), 0, RELS, MainRel, 1) == Ok(SECOND)
  {
    hide Image, Readable, ReadWord, DecodeU32, EncodeU32;
    Decoded(13, 2, 0);
    Decoded(13, 2, 1);
    Decoded(15, 2, 0);
    Decoded(15, 2, 1);
    WordAt(17);
    WordAt(18);
  }

  lemma {:induction false} ExamplePlan()
    ensures PlanOf(Image(), GRAPH, 0, OPTIONS, MainRel) == Ok([FIRST, SECOND])
  {
    hide Image, PlanEntry;
    ExampleEntries();
    assert PlanFrom(Image(), 0, RELS, MainRel, 2, 2, [FIRST, SECOND], {0x1044, 0x1048}) == Ok([FIRST, SECOND]);
    assert [] + [FIRST] == [FIRST] && [FIRST] + [SECOND] == [FIRST, SECOND];
    assert {} + {0x1044} == {0x1044} && {0x1044} + {0x1048} == {0x1044, 0x1048};
  }

  const REFERENCE := Reference(NAME, SYMBOL, Some(SYMBOL), 0x8001)

  lemma {:induction false} ExampleResolved()
    ensures ResolutionOf(Image(), GRAPH, 0, OPTIONS, MainRel) == Ok([Resolved(FIRST, Some(REFERENCE)), Resolved(SECOND, Some(REFERENCE))])
  {
    hide Image, PlanOf, IndexOf, Bind, L.ReadSymbol, ReadString;
    ExamplePlan();
    ExampleIndex();
    ExampleSymbol();
    ExampleName();
    ExampleBound();
    var entries := [FIRST, SECOND];
    assert SymbolBearing(entries[0].kind);
    var index := IndexOf(Image(), METADATA, LIMITS).value;
    assert ResolveEntry(Image(), GRAPH, 0, OPTIONS, index, FIRST) == Ok(Resolved(FIRST, Some(REFERENCE)));
    assert ResolveEntry(Image(), GRAPH, 0, OPTIONS, index, SECOND) == Ok(Resolved(SECOND, Some(REFERENCE)));
    var one, both := [Resolved(FIRST, Some(REFERENCE))], [Resolved(FIRST, Some(REFERENCE)), Resolved(SECOND, Some(REFERENCE))];
    assert ResolveFrom(Image(), GRAPH, 0, OPTIONS, index, [], both) == Ok(both);
    assert entries[1..] == [SECOND] && [SECOND][1..] == [] && one + [Resolved(SECOND, Some(REFERENCE))] == both;
    assert ResolveFrom(Image(), GRAPH, 0, OPTIONS, index, [SECOND], one) == Ok(both);
    assert [] + [Resolved(FIRST, Some(REFERENCE))] == one;
    assert ResolveFrom(Image(), GRAPH, 0, OPTIONS, index, entries, []) == Ok(both);
  }

  /** Neither the ABS32 entry nor the GLOB_DAT entry of this table stores the word of AAELF32: the
      odd addend carries the Thumb bit of the first away, and the word in place of the second is
      ignored. */
  lemma {:induction false} TableDiffersFromAbi()
    ensures PreparedWrites(Image(), GRAPH, 0, OPTIONS, MainRel)
            == Ok([Write(0, R_ARM_ABS32, 0x1044, 1, 0x8002, MainRel), Write(1, R_ARM_GLOB_DAT, 0x1048, 4, 0x8001, MainRel)])
    ensures AbiWordFor(R_ARM_ABS32, 0, REFERENCE, 1, 0x1044) == 0x8001
    ensures AbiWordFor(R_ARM_GLOB_DAT, 0, REFERENCE, 4, 0x1048) == 0x8005
  {
    hide Image, ResolutionOf;
    ExampleResolved();
    var x, y := Resolved(FIRST, Some(REFERENCE)), Resolved(SECOND, Some(REFERENCE));
    assert FinalWord(0, x) == Ok(0x8002);
    assert FinalWord(0, y) == Ok(0x8001);
    var one := Write(0, R_ARM_ABS32, 0x1044, 1, 0x8002, MainRel);
    var two := Write(1, R_ARM_GLOB_DAT, 0x1048, 4, 0x8001, MainRel);
    assert WritesFrom(0, [], MainRel, [one, two]) == Ok([one, two]);
    assert [x, y][1..] == [y] && [y][1..] == [] && [one] + [two] == [one, two];
    assert WritesFrom(0, [y], MainRel, [one]) == Ok([one, two]);
    assert [] + [one] == [one];
    assert WritesFrom(0, [x, y], MainRel, []) == Ok([one, two]);
  }
}

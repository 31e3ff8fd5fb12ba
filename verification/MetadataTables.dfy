/** Collecting and validating the dynamic-linker metadata (src/elf/metadata/elf32_linker_metadata.cpp). */
module MetadataTables {
  import opened Words
  import opened Views
  import opened Objects
  import opened LinkerStrings

  datatype MetadataError =
    | DuplicateSingleton | IncompleteStringTable | IncompleteSymbolTable | IncompleteRelTable | IncompletePltRelTable
    | IncompleteVersionDefinitionTable | IncompleteVersionRequirementTable | AddressOverflow | RangeOverflow | ReadFailed
    | InvalidSymbolEntrySize | InvalidRelEntrySize | InvalidRelSize | InvalidPltRelType | InvalidPltRelSize
    | StringOffsetOutOfRange | IncompleteInitArray | IncompleteFiniArray | InvalidFunctionArraySize

  const DT_NULL := 0
  const DT_NEEDED := 1
  const DT_PLTRELSZ := 2
  const DT_HASH := 4
  const DT_STRTAB := 5
  const DT_SYMTAB := 6
  const DT_STRSZ := 10
  const DT_SYMENT := 11
  const DT_SONAME := 14
  const DT_SYMBOLIC := 16
  const DT_REL := 17
  const DT_RELSZ := 18
  const DT_RELENT := 19
  const DT_PLTREL := 20
  const DT_JMPREL := 23
  const DT_INIT_ARRAY := 25
  const DT_FINI_ARRAY := 26
  const DT_INIT_ARRAYSZ := 27
  const DT_FINI_ARRAYSZ := 28
  const DT_FLAGS := 30
  const DT_GNU_HASH := 0x6ffffef5
  const DT_FLAGS_1 := 0x6ffffffb
  const DT_VERSYM := 0x6ffffff0
  const DT_VERDEF := 0x6ffffffc
  const DT_VERDEFNUM := 0x6ffffffd
  const DT_VERNEED := 0x6ffffffe
  const DT_VERNEEDNUM := 0x6fffffff

  /** The tags that may occur once; DT_NEEDED may repeat and every other tag is ignored. */
  const SINGLETONS: set<int> :=
    {DT_PLTRELSZ, DT_HASH, DT_STRTAB, DT_SYMTAB, DT_STRSZ, DT_SYMENT, DT_SONAME, DT_SYMBOLIC, DT_REL, DT_RELSZ,
     DT_RELENT, DT_PLTREL, DT_JMPREL, DT_INIT_ARRAY, DT_FINI_ARRAY, DT_INIT_ARRAYSZ, DT_FINI_ARRAYSZ, DT_FLAGS,
     DT_GNU_HASH, DT_FLAGS_1, DT_VERSYM, DT_VERDEF, DT_VERDEFNUM, DT_VERNEED, DT_VERNEEDNUM}

  predicate Singleton(tag: int) { tag in SINGLETONS }

  /** The singleton fields met so far and the DT_NEEDED offsets in order. */
  datatype Collection = Collection(fields: map<int, u32>, needed: seq<u32>)

  function CollectEntry(c: Collection, e: DynamicEntry): Result<Collection, MetadataError> {
    if e.tag == DT_NEEDED then Ok(c.(needed := c.needed + [e.value]))
    else if !Singleton(e.tag) then Ok(c)
    else if e.tag in c.fields then Err(DuplicateSingleton)
    else Ok(c.(fields := c.fields[e.tag := e.value]))
  }

  /** The collection of a list of entries; the first duplicate ends it. */
  function Collect(es: seq<DynamicEntry>): Result<Collection, MetadataError> {
    if es == [] then Ok(Collection(map[], []))
    else
      var n := |es| - 1;
      var c :- Collect(es[..n]);
      CollectEntry(c, es[n])
  }

  /** The entries before the first DT_NULL. */
  function PreNull(es: seq<DynamicEntry>): (r: seq<DynamicEntry>)
    ensures r <= es && (forall k :: 0 <= k < |r| ==> r[k].tag != DT_NULL)
    ensures |r| < |es| ==> es[|r|].tag == DT_NULL
  {
    if es == [] || es[0].tag == DT_NULL then [] else [es[0]] + PreNull(es[1..])
  }

  predicate PairComplete(c: Collection, a: int, b: int) { a in c.fields <==> b in c.fields }

  predicate TripleComplete(c: Collection, x: int, y: int, z: int) {
    PairComplete(c, x, y) && PairComplete(c, y, z)
  }

  function Field(c: Collection, tag: int): Option<u32> {
    if tag in c.fields then Some(c.fields[tag]) else None
  }

  /** The consistency checks on a finished collection, in order. */
  function Inconsistency(c: Collection): Option<MetadataError> {
    if !PairComplete(c, DT_STRTAB, DT_STRSZ) || ((DT_SONAME in c.fields || c.needed != []) && DT_STRTAB !in c.fields) then
      Some(IncompleteStringTable)
    else if !PairComplete(c, DT_SYMTAB, DT_SYMENT) then Some(IncompleteSymbolTable)
    else if !TripleComplete(c, DT_REL, DT_RELSZ, DT_RELENT) then Some(IncompleteRelTable)
    else if !TripleComplete(c, DT_JMPREL, DT_PLTRELSZ, DT_PLTREL) then Some(IncompletePltRelTable)
    else if DT_PLTREL in c.fields && c.fields[DT_PLTREL] != DT_REL then Some(InvalidPltRelType)
    else if !PairComplete(c, DT_INIT_ARRAY, DT_INIT_ARRAYSZ) then Some(IncompleteInitArray)
    else if !PairComplete(c, DT_FINI_ARRAY, DT_FINI_ARRAYSZ) then Some(IncompleteFiniArray)
    else if (DT_INIT_ARRAYSZ in c.fields && c.fields[DT_INIT_ARRAYSZ] % 4 != 0)
         || (DT_FINI_ARRAYSZ in c.fields && c.fields[DT_FINI_ARRAYSZ] % 4 != 0) then Some(InvalidFunctionArraySize)
    else if !PairComplete(c, DT_VERDEF, DT_VERDEFNUM) then Some(IncompleteVersionDefinitionTable)
    else if !PairComplete(c, DT_VERNEED, DT_VERNEEDNUM) then Some(IncompleteVersionRequirementTable)
    else if DT_VERSYM in c.fields && DT_SYMTAB !in c.fields then Some(IncompleteSymbolTable)
    else if (DT_VERDEF in c.fields || DT_VERNEED in c.fields) && DT_STRTAB !in c.fields then Some(IncompleteStringTable)
    else None
  }

  /** What collect_elf32_linker_metadata returns: the fields, or the first defect. */
  function Collected(es: seq<DynamicEntry>): Result<Collection, MetadataError> {
    var c :- Collect(PreNull(es));
    match Inconsistency(c)
    case Some(e) => Err(e)
    case None => Ok(c)
  }

  /** collect_elf32_linker_metadata: one pass that stops at DT_NULL. */
  method CollectMetadata(es: seq<DynamicEntry>) returns (r: Result<Collection, MetadataError>)
    ensures r == Collected(es)
  {
    var c := Collection(map[], []);
    var i := 0;
    ghost var pre := PreNull(es);
    while i < |es| && es[i].tag != DT_NULL
      invariant 0 <= i <= |pre| && Collect(pre[..i]) == Ok(c)
    {
      assert pre[..i + 1][..i] == pre[..i];
      var next := CollectEntry(c, es[i]);
      if next.Err? {
        CollectPrefix(pre, i + 1);
        return Err(next.error);
      }
      c := next.value;
      i := i + 1;
    }
    assert pre[..i] == pre;
    var problem := Inconsistency(c);
    if problem.Some? {
      return Err(problem.value);
    }
    return Ok(c);
  }

  /** A failed prefix fails the whole list with the same error. */
  lemma {:induction false} CollectPrefix(es: seq<DynamicEntry>, n: nat)
    requires n <= |es| && Collect(es[..n]).Err?
    ensures Collect(es) == Err(Collect(es[..n]).error)
    decreases |es|
  {
    if n == |es| {
      assert es[..n] == es;
    } else {
      assert es[..|es| - 1][..n] == es[..n];
      CollectPrefix(es[..|es| - 1], n);
    }
  }

  // ---------------------------------------------------------- order does not matter

  function NeededOf(es: seq<DynamicEntry>): seq<u32> {
    if es == [] then []
    else NeededOf(es[..|es| - 1]) + (if es[|es| - 1].tag == DT_NEEDED then [es[|es| - 1].value] else [])
  }

  /** Some singleton tag occurs twice, told from the entries as a bag. */
  ghost predicate Repeats(bag: multiset<DynamicEntry>) {
    exists e, e' :: e in bag && e' in bag && e.tag == e'.tag && Singleton(e.tag) && (e != e' || bag[e] > 1)
  }

  /** The fields are exactly the singleton entries of the bag. */
  ghost predicate FieldsOf(fields: map<int, u32>, bag: multiset<DynamicEntry>) {
    && (forall t :: t in fields ==> Singleton(t) && DynamicEntry(t, fields[t]) in bag)
    && (forall e :: e in bag && Singleton(e.tag) ==> e.tag in fields && fields[e.tag] == e.value)
  }

  /** The collection is a function of the bag of entries and the DT_NEEDED order. */
  lemma {:induction false} CollectMeaning(es: seq<DynamicEntry>)
    ensures Collect(es).Err? <==> Repeats(multiset(es))
    ensures Collect(es).Err? ==> Collect(es).error == DuplicateSingleton
    ensures Collect(es).Ok? ==> Collect(es).value.needed == NeededOf(es) && FieldsOf(Collect(es).value.fields, multiset(es))
  {
    hide Singleton, Repeats, FieldsOf;
    NeededNotSingleton();
    if es == [] {
      NoRepeats();
      assert multiset(es) == multiset{};
    } else {
      var n := |es| - 1;
      var init, e := es[..n], es[n];
      CollectMeaning(init);
      assert es == init + [e];
      var bag := multiset(init);
      assert multiset(es) == bag + multiset{e};
      RepeatsGrow(bag, e);
      if Collect(init).Ok? {
        FieldsGrow(Collect(init).value.fields, bag, e);
      }
    }
  }

  lemma {:induction false} NeededNotSingleton()
    ensures !Singleton(DT_NEEDED)
  {
  }

  lemma {:induction false} NoRepeats()
    ensures !Repeats(multiset{}) && FieldsOf(map[], multiset{})
  {
  }

  lemma {:induction false} FieldsGrow(fields: map<int, u32>, bag: multiset<DynamicEntry>, e: DynamicEntry)
    requires FieldsOf(fields, bag)
    ensures Singleton(e.tag) ==> (e.tag in fields <==> exists x: u32 :: DynamicEntry(e.tag, x) in bag)
    ensures Singleton(e.tag) && e.tag !in fields ==> FieldsOf(fields[e.tag := e.value], bag + multiset{e})
    ensures !Singleton(e.tag) ==> FieldsOf(fields, bag + multiset{e})
  {
    hide Singleton;
    if Singleton(e.tag) && e.tag in fields { assert DynamicEntry(e.tag, fields[e.tag]) in bag; }
  }

  lemma {:induction false} FieldsUnique(f: map<int, u32>, g: map<int, u32>, bag: multiset<DynamicEntry>)
    requires FieldsOf(f, bag) && FieldsOf(g, bag)
    ensures f == g
  {
    hide Singleton;
    assert forall t :: t in f ==> t in g && g[t] == f[t];
    assert forall t :: t in g ==> t in f;
  }

  lemma {:induction false} RepeatsGrow(bag: multiset<DynamicEntry>, e: DynamicEntry)
    ensures Repeats(bag + multiset{e}) <==>
              Repeats(bag) || (Singleton(e.tag) && exists x: u32 :: DynamicEntry(e.tag, x) in bag)
  {
    hide Singleton;
    var big := bag + multiset{e};
    if Repeats(bag) {
      var a, b :| a in bag && b in bag && a.tag == b.tag && Singleton(a.tag) && (a != b || bag[a] > 1);
      assert a in big && b in big && big[a] >= bag[a];
    }
    if Singleton(e.tag) && exists x: u32 :: DynamicEntry(e.tag, x) in bag {
      var x: u32 :| DynamicEntry(e.tag, x) in bag;
      var a := DynamicEntry(e.tag, x);
      assert a in big && e in big && (a == e ==> big[a] > 1);
    }
    if Repeats(big) && !Repeats(bag) {
      var a, b :| a in big && b in big && a.tag == b.tag && Singleton(a.tag) && (a != b || big[a] > 1);
      assert (a in bag && a == DynamicEntry(e.tag, a.value)) || (b in bag && b == DynamicEntry(e.tag, b.value));
    }
  }

  /** Any reordering of the entries before DT_NULL that keeps the order of the DT_NEEDED entries
      gives the same metadata, or the same error. */
  lemma {:induction false} CollectedOrderFree(xs: seq<DynamicEntry>, ys: seq<DynamicEntry>)
    requires multiset(PreNull(xs)) == multiset(PreNull(ys))
    requires NeededOf(PreNull(xs)) == NeededOf(PreNull(ys))
    ensures Collected(xs) == Collected(ys)
  {
    hide Inconsistency, Repeats, FieldsOf;
    var p, q := PreNull(xs), PreNull(ys);
    CollectMeaning(p);
    CollectMeaning(q);
    if Collect(p).Ok? {
      FieldsUnique(Collect(p).value.fields, Collect(q).value.fields, multiset(p));
    }
  }

  // ------------------------------------------------------------- rebasing and validation

  /** Rebase a table address and check that its range can be read. */
  function RebasedRange(v: View, bias: u32, value: u32, size: u32): Result<u32, MetadataError> {
    if value + bias >= ADDRESS_SPACE then Err(MetadataError.AddressOverflow)
    else if value + bias + size > ADDRESS_SPACE then Err(RangeOverflow)
    else if !Readable(v, value + bias, size) then Err(MetadataError.ReadFailed)
    else Ok(value + bias)
  }

  predicate Bit1(flags: Option<u32>) { flags.Some? && flags.value / 2 % 2 == 1 }

  function StringTableOf(v: View, bias: u32, c: Collection): (r: Result<Option<StringTable>, MetadataError>)
    requires PairComplete(c, DT_STRTAB, DT_STRSZ)
    ensures r.Ok? ==> (r.value.Some? <==> DT_STRTAB in c.fields)
    ensures r.Ok? && r.value.Some? ==>
              && Readable(v, r.value.value.guest, r.value.value.size)
              && (DT_SONAME in c.fields ==> c.fields[DT_SONAME] < r.value.value.size)
              && (forall k :: 0 <= k < |c.needed| ==> c.needed[k] < r.value.value.size)
  {
    if DT_STRTAB !in c.fields then Ok(None)
    else
      var size := c.fields[DT_STRSZ];
      if (DT_SONAME in c.fields && c.fields[DT_SONAME] >= size)
         || exists k :: 0 <= k < |c.needed| && c.needed[k] >= size then Err(MetadataError.StringOffsetOutOfRange)
      else
        var guest :- RebasedRange(v, bias, c.fields[DT_STRTAB], size);
        Ok(Some(StringTable(guest, size)))
  }

  function SymbolTableOf(v: View, bias: u32, c: Collection): (r: Result<Option<SymbolTable>, MetadataError>)
    requires PairComplete(c, DT_SYMTAB, DT_SYMENT)
    ensures r.Ok? ==> (r.value.Some? <==> DT_SYMTAB in c.fields)
    ensures r.Ok? && r.value.Some? ==> r.value.value.entrySize == 16
  {
    if DT_SYMTAB !in c.fields then Ok(None)
    else if c.fields[DT_SYMENT] != 16 then Err(InvalidSymbolEntrySize)
    else
      var guest :- RebasedRange(v, bias, c.fields[DT_SYMTAB], 16);
      Ok(Some(SymbolTable(guest, 16)))
  }

  /** A hash table or version-symbol descriptor: only its fixed header is validated here. */
  function HeaderAt(v: View, bias: u32, value: Option<u32>, size: u32): (r: Result<Option<u32>, MetadataError>)
    ensures r.Ok? ==> r.value.Some? == value.Some?
  {
    if value.None? then Ok(None)
    else var guest :- RebasedRange(v, bias, value.value, size); Ok(Some(guest))
  }

  function VersionTableOf(v: View, bias: u32, value: Option<u32>, count: Option<u32>, record: u32)
    : (r: Result<Option<VersionTable>, MetadataError>)
    ensures r.Ok? ==> r.value.Some? == (value.Some? && count.Some?)
  {
    if value.None? || count.None? then Ok(None)
    else
      var guest :- RebasedRange(v, bias, value.value, if count.value != 0 then record else 0);
      Ok(Some(VersionTable(guest, count.value)))
  }

  function ArrayOf(v: View, bias: u32, value: Option<u32>, size: Option<u32>)
    : (r: Result<Option<FunctionArray>, MetadataError>)
    ensures r.Ok? && r.value.Some? ==> size.Some? && (size.value % 4 == 0 ==> GoodArray(v, r.value.value))
  {
    if value.None? || size.None? then Ok(None)
    else var guest :- RebasedRange(v, bias, value.value, size.value); Ok(Some(FunctionArray(guest, size.value)))
  }

  function RelTableOf(v: View, bias: u32, value: Option<u32>, size: Option<u32>, entrySize: Option<u32>, plt: bool)
    : (r: Result<Option<RelTable>, MetadataError>)
    ensures r.Ok? && r.value.Some? ==> GoodRelTable(v, r.value.value)
  {
    if value.None? || size.None? || entrySize.None? then Ok(None)
    else if entrySize.value != 8 then Err(InvalidRelEntrySize)
    else if size.value % 8 != 0 then Err(if plt then InvalidPltRelSize else InvalidRelSize)
    else var guest :- RebasedRange(v, bias, value.value, size.value); Ok(Some(RelTable(guest, size.value, 8)))
  }

  /** build_elf32_linker_metadata: every table rebased once and its range validated. */
  function MetadataOf(v: View, bias: u32, es: seq<DynamicEntry>): Result<Metadata, MetadataError> {
    var c :- Collected(es);
    var stringTable :- StringTableOf(v, bias, c);
    var symbolTable :- SymbolTableOf(v, bias, c);
    var sysvHash :- HeaderAt(v, bias, Field(c, DT_HASH), 8);
    var gnuHash :- HeaderAt(v, bias, Field(c, DT_GNU_HASH), 16);
    var versym :- HeaderAt(v, bias, Field(c, DT_VERSYM), 2);
    var verdef :- VersionTableOf(v, bias, Field(c, DT_VERDEF), Field(c, DT_VERDEFNUM), 20);
    var verneed :- VersionTableOf(v, bias, Field(c, DT_VERNEED), Field(c, DT_VERNEEDNUM), 16);
    var initArray :- ArrayOf(v, bias, Field(c, DT_INIT_ARRAY), Field(c, DT_INIT_ARRAYSZ));
    var finiArray :- ArrayOf(v, bias, Field(c, DT_FINI_ARRAY), Field(c, DT_FINI_ARRAYSZ));
    var relTable :- RelTableOf(v, bias, Field(c, DT_REL), Field(c, DT_RELSZ), Field(c, DT_RELENT), false);
    var pltRelTable :- RelTableOf(v, bias, Field(c, DT_JMPREL), Field(c, DT_PLTRELSZ), Some(8), true);
    Ok(Metadata(stringTable, symbolTable, sysvHash, gnuHash, relTable, pltRelTable, initArray, finiArray,
                versym, verdef, verneed, Field(c, DT_SONAME), c.needed, Field(c, DT_FLAGS_1),
                Bit1(Field(c, DT_FLAGS_1)), DT_SYMBOLIC in c.fields || Bit1(Field(c, DT_FLAGS)),
                DT_VERSYM in c.fields || DT_VERDEF in c.fields || DT_VERNEED in c.fields))
  }

  predicate GoodRelTable(v: View, t: RelTable) {
    t.entrySize == 8 && t.size % 8 == 0 && Readable(v, t.guest, t.size)
  }

  predicate GoodArray(v: View, a: FunctionArray) {
    a.size % 4 == 0 && a.guest + a.size <= ADDRESS_SPACE && Readable(v, a.guest, a.size)
  }

  predicate NamesInTable(m: Metadata) {
    && (m.sonameOffset.Some? || m.neededOffsets != [] || m.verdef.Some? || m.verneed.Some? ==> m.stringTable.Some?)
    && (m.sonameOffset.Some? ==> m.sonameOffset.value < m.stringTable.value.size)
    && (m.neededOffsets != [] ==> forall k :: 0 <= k < |m.neededOffsets| ==> m.neededOffsets[k] < m.stringTable.value.size)
  }

  /** What validated metadata guarantees to the later stages. */
  predicate GoodMetadata(v: View, m: Metadata) {
    && NamesInTable(m)
    && (m.stringTable.Some? ==> Readable(v, m.stringTable.value.guest, m.stringTable.value.size))
    && (m.symbolTable.Some? ==> m.symbolTable.value.entrySize == 16)
    && (m.versym.Some? ==> m.symbolTable.Some?)
    && (m.hasVersioning <==> m.versym.Some? || m.verdef.Some? || m.verneed.Some?)
    && (m.relTable.Some? ==> GoodRelTable(v, m.relTable.value))
    && (m.pltRelTable.Some? ==> GoodRelTable(v, m.pltRelTable.value))
    && (m.initArray.Some? ==> GoodArray(v, m.initArray.value))
    && (m.finiArray.Some? ==> GoodArray(v, m.finiArray.value))
  }

  /** Metadata that is accepted meets every later stage's defensive check. */
  lemma {:induction false} MetadataSound(v: View, bias: u32, es: seq<DynamicEntry>)
    ensures var r := MetadataOf(v, bias, es); r.Ok? ==> GoodMetadata(v, r.value)
  {
    hide Collect, PreNull, Inconsistency, StringTableOf, SymbolTableOf, HeaderAt, VersionTableOf, ArrayOf, RelTableOf;
    hide GoodArray, GoodRelTable;
    if Collected(es).Ok? { ConsistentFields(Collected(es).value); }
  }

  lemma {:induction false} ConsistentFields(c: Collection)
    requires Inconsistency(c).None?
    ensures DT_SONAME in c.fields || c.needed != [] || DT_VERDEF in c.fields || DT_VERNEED in c.fields ==> DT_STRTAB in c.fields
    ensures PairComplete(c, DT_VERDEF, DT_VERDEFNUM) && PairComplete(c, DT_VERNEED, DT_VERNEEDNUM)
    ensures DT_VERSYM in c.fields ==> DT_SYMTAB in c.fields
    ensures DT_INIT_ARRAYSZ in c.fields ==> c.fields[DT_INIT_ARRAYSZ] % 4 == 0
    ensures DT_FINI_ARRAYSZ in c.fields ==> c.fields[DT_FINI_ARRAYSZ] % 4 == 0
    ensures PairComplete(c, DT_STRTAB, DT_STRSZ) && PairComplete(c, DT_SYMTAB, DT_SYMENT)
  {
  }

  /** After metadata was accepted, materialising SONAME and DT_NEEDED can only fail because a
      name has no NUL inside the table or is longer than the limit. */
  lemma {:induction false} StringsAfterMetadata(v: View, m: Metadata, max: u32)
    requires GoodMetadata(v, m)
    ensures var r := StringsOf(v, m, max); r.Err? ==> r.error == UnterminatedString || r.error == StringTooLong
    ensures var r := StringsOf(v, m, max);
            r.Ok? ==> && |r.value.needed| == |m.neededOffsets|
                      && forall k :: 0 <= k < |m.neededOffsets| ==>
                           m.stringTable.Some? && ReadString(v, m.stringTable.value, m.neededOffsets[k], max) == Ok(r.value.needed[k])
  {
    hide ReadString, ReadNeeded, GoodRelTable, GoodArray;
    if m.stringTable.None? {
      return;
    }
    var table := m.stringTable.value;
    if m.sonameOffset.Some? { NameErrors(v, table, m.sonameOffset.value, max); }
    NeededAfterMetadata(v, table, m.neededOffsets, max, []);
    if m.neededOffsets == [] { NothingNeeded(v, table, max); }
  }

  lemma {:induction false} NothingNeeded(v: View, table: StringTable, max: u32)
    ensures ReadNeeded(v, table, [], max, []) == Ok([])
  {
  }

  lemma {:induction false} NameErrors(v: View, table: StringTable, offset: u32, max: u32)
    requires Readable(v, table.guest, table.size) && offset < table.size
    ensures var r := ReadString(v, table, offset, max); r.Err? ==> r.error == UnterminatedString || r.error == StringTooLong
  {
    hide ReadString;
    ReadStringMeaning(v, table, offset, max);
  }

  lemma {:induction false} NeededAfterMetadata(v: View, table: StringTable, offsets: seq<u32>, max: u32, done: seq<Name>)
    requires Readable(v, table.guest, table.size) && forall k :: 0 <= k < |offsets| ==> offsets[k] < table.size
    ensures var r := ReadNeeded(v, table, offsets, max, done);
            r.Err? ==> r.error == UnterminatedString || r.error == StringTooLong
    ensures var r := ReadNeeded(v, table, offsets, max, done);
            r.Ok? ==> && done <= r.value && |r.value| == |done| + |offsets|
                      && forall k :: 0 <= k < |offsets| ==> ReadString(v, table, offsets[k], max) == Ok(r.value[|done| + k])
  {
    hide ReadString;
    if offsets != [] {
      NameErrors(v, table, offsets[0], max);
      var first := ReadString(v, table, offsets[0], max);
      if first.Ok? {
        NeededAfterMetadata(v, table, offsets[1..], max, done + [first.value]);
        var r := ReadNeeded(v, table, offsets, max, done);
        if r.Ok? {
          forall k | 0 <= k < |offsets| ensures ReadString(v, table, offsets[k], max) == Ok(r.value[|done| + k]) {
            if k > 0 { assert offsets[1..][k - 1] == offsets[k]; }
            else { assert r.value[|done|] == (done + [first.value])[|done|]; }
          }
        }
      }
    }
  }
}

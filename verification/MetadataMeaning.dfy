/** Linker metadata, told by the dynamic entries: which tag every field comes from, and exactly which
    entries are accepted (src/elf/metadata/elf32_linker_metadata.cpp:112-599). */
module MetadataMeaning {
  import opened Words
  import opened Views
  import opened Objects
  import opened MetadataTables

  /** The value of the first entry with a tag before DT_NULL. */
  function First(es: seq<DynamicEntry>, tag: int): Option<u32> {
    if es == [] || es[0].tag == 0 then None
    else if es[0].tag == tag then Some(es[0].value)
    else First(es[1..], tag)
  }

  predicate Has(es: seq<DynamicEntry>, tag: int) { First(es, tag).Some? }

  /** The values of all DT_NEEDED entries before DT_NULL, in order. */
  function AllNeeded(es: seq<DynamicEntry>): seq<u32> {
    if es == [] || es[0].tag == 0 then []
    else (if es[0].tag == 1 then [es[0].value] else []) + AllNeeded(es[1..])
  }

  /** Bit 1 of the flags word of a tag. */
  predicate FlagOf(es: seq<DynamicEntry>, tag: int) { Has(es, tag) && BitSet(First(es, tag).value, 2) }

  /** An address field: the entry's value plus the load bias. */
  predicate AddressFrom(es: seq<DynamicEntry>, bias: u32, tag: int, guest: Option<u32>) {
    guest.Some? == Has(es, tag) && (guest.Some? ==> guest.value == bias + First(es, tag).value)
  }

  predicate ArrayFrom(es: seq<DynamicEntry>, bias: u32, tag: int, sizeTag: int, a: Option<FunctionArray>) {
    a.Some? == Has(es, tag) && (a.Some? ==> a.value.guest == bias + First(es, tag).value && First(es, sizeTag) == Some(a.value.size))
  }

  predicate VersionsFrom(es: seq<DynamicEntry>, bias: u32, tag: int, countTag: int, t: Option<VersionTable>) {
    t.Some? == Has(es, tag) && (t.Some? ==> t.value.guest == bias + First(es, tag).value && First(es, countTag) == Some(t.value.count))
  }

  predicate RelFrom(es: seq<DynamicEntry>, bias: u32, tag: int, sizeTag: int, t: Option<RelTable>) {
    && t.Some? == Has(es, tag)
    && (t.Some? ==> && t.value.guest == bias + First(es, tag).value && First(es, sizeTag) == Some(t.value.size) && t.value.entrySize == 8)
  }

  predicate StringsFrom(es: seq<DynamicEntry>, bias: u32, t: Option<StringTable>) {
    t.Some? == Has(es, 5) && (t.Some? ==> t.value.guest == bias + First(es, 5).value && First(es, 10) == Some(t.value.size))
  }

  predicate SymbolsFrom(es: seq<DynamicEntry>, bias: u32, t: Option<SymbolTable>) {
    t.Some? == Has(es, 6) && (t.Some? ==> t.value.guest == bias + First(es, 6).value && t.value.entrySize == 16)
  }

  /** Every table of the metadata is that of its own tags. */
  predicate TablesFrom(es: seq<DynamicEntry>, bias: u32, m: Metadata) {
    && StringsFrom(es, bias, m.stringTable) && SymbolsFrom(es, bias, m.symbolTable)
    && AddressFrom(es, bias, 4, m.sysvHash) && AddressFrom(es, bias, 0x6ffffef5, m.gnuHash) && AddressFrom(es, bias, 0x6ffffff0, m.versym)
    && RelFrom(es, bias, 17, 18, m.relTable) && RelFrom(es, bias, 23, 2, m.pltRelTable)
    && ArrayFrom(es, bias, 25, 27, m.initArray) && ArrayFrom(es, bias, 26, 28, m.finiArray)
    && VersionsFrom(es, bias, 0x6ffffffc, 0x6ffffffd, m.verdef) && VersionsFrom(es, bias, 0x6ffffffe, 0x6fffffff, m.verneed)
  }

  predicate FlagsFrom(es: seq<DynamicEntry>, m: Metadata) {
    && m.sonameOffset == First(es, 14) && m.neededOffsets == AllNeeded(es) && m.flags1 == First(es, 0x6ffffffb)
    && (m.global <==> FlagOf(es, 0x6ffffffb)) && (m.symbolic <==> Has(es, 16) || FlagOf(es, 30))
    && (m.hasVersioning <==> Has(es, 0x6ffffff0) || Has(es, 0x6ffffffc) || Has(es, 0x6ffffffe))
  }

  predicate Pair(es: seq<DynamicEntry>, a: int, b: int) { Has(es, a) <==> Has(es, b) }

  predicate Is(es: seq<DynamicEntry>, tag: int, x: u32) { Has(es, tag) ==> First(es, tag) == Some(x) }

  predicate Divides(es: seq<DynamicEntry>, tag: int, d: int)
    requires d > 0
  {
    Has(es, tag) ==> First(es, tag).value % d == 0
  }

  /** The entries go together: nothing that may occur once occurs twice, tables come with their sizes,
      sizes are what the format fixes, and names and versions come with their tables. */
  ghost predicate Consistent(es: seq<DynamicEntry>) {
    && !Repeats(multiset(PreNull(es)))
    && Pair(es, 5, 10) && Pair(es, 6, 11) && Pair(es, 17, 18) && Pair(es, 18, 19) && Pair(es, 23, 2) && Pair(es, 2, 20)
    && Pair(es, 25, 27) && Pair(es, 26, 28) && Pair(es, 0x6ffffffc, 0x6ffffffd) && Pair(es, 0x6ffffffe, 0x6fffffff)
    && Is(es, 11, 16) && Is(es, 19, 8) && Is(es, 20, 17)
    && Divides(es, 27, 4) && Divides(es, 28, 4) && Divides(es, 18, 8) && Divides(es, 2, 8)
    && (Has(es, 14) || AllNeeded(es) != [] || Has(es, 0x6ffffffc) || Has(es, 0x6ffffffe) ==> Has(es, 5))
    && (Has(es, 0x6ffffff0) ==> Has(es, 6))
  }

  /** A range of the guest that can be read. */
  predicate Reaches(v: View, guest: u32, size: nat) { guest + size <= ADDRESS_SPACE && Readable(v, guest, size) }

  /** Names start inside the string table. */
  predicate StringsReach(v: View, t: Option<StringTable>, soname: Option<u32>, needed: seq<u32>) {
    t.Some? ==> && Reaches(v, t.value.guest, t.value.size) && (soname.Some? ==> soname.value < t.value.size)
                && forall k :: 0 <= k < |needed| ==> needed[k] < t.value.size
  }

  predicate SymbolsReach(v: View, t: Option<SymbolTable>) { t.Some? ==> Reaches(v, t.value.guest, 16) }

  predicate HeaderReaches(v: View, guest: Option<u32>, size: nat) { guest.Some? ==> Reaches(v, guest.value, size) }

  predicate VersionsReach(v: View, t: Option<VersionTable>, record: nat) {
    t.Some? ==> Reaches(v, t.value.guest, if t.value.count == 0 then 0 else record)
  }

  predicate ArrayReaches(v: View, a: Option<FunctionArray>) { a.Some? ==> Reaches(v, a.value.guest, a.value.size) }

  predicate RelReaches(v: View, t: Option<RelTable>) { t.Some? ==> Reaches(v, t.value.guest, t.value.size) }

  /** Every table, as far as it is validated here, can be read. */
  predicate InRange(v: View, m: Metadata) {
    && StringsReach(v, m.stringTable, m.sonameOffset, m.neededOffsets) && SymbolsReach(v, m.symbolTable)
    && HeaderReaches(v, m.sysvHash, 8) && HeaderReaches(v, m.gnuHash, 16) && HeaderReaches(v, m.versym, 2)
    && VersionsReach(v, m.verdef, 20) && VersionsReach(v, m.verneed, 16)
    && ArrayReaches(v, m.initArray) && ArrayReaches(v, m.finiArray) && RelReaches(v, m.relTable) && RelReaches(v, m.pltRelTable)
  }

  // ------------------------------------------------------------------- fields are entries

  lemma {:induction false} FirstListed(es: seq<DynamicEntry>, tag: int)
    ensures First(es, tag).Some? ==> DynamicEntry(tag, First(es, tag).value) in PreNull(es)
    ensures First(es, tag).None? ==> forall e :: e in PreNull(es) ==> e.tag != tag
  {
    if es != [] && es[0].tag != 0 {
      FirstListed(es[1..], tag);
      assert PreNull(es)[1..] == PreNull(es[1..]) && PreNull(es)[0] == es[0];
    }
  }

  /** A collected field is the entry with its tag. */
  lemma {:induction false} FieldIsFirst(es: seq<DynamicEntry>, c: Collection, tag: int)
    requires Collect(PreNull(es)) == Ok(c) && Singleton(tag)
    ensures Field(c, tag) == First(es, tag)
  {
    hide Singleton, Collect, Repeats, First;
    CollectMeaning(PreNull(es));
    FirstListed(es, tag);
    if tag in c.fields {
      assert DynamicEntry(tag, c.fields[tag]) in multiset(PreNull(es));
    }
  }

  ghost predicate Agrees(es: seq<DynamicEntry>, c: Collection) {
    && (forall tag :: tag in SINGLETONS ==> Field(c, tag) == First(es, tag))
    && c.needed == AllNeeded(es)
  }

  lemma {:induction false} NeededForward(es: seq<DynamicEntry>)
    ensures NeededOf(PreNull(es)) == AllNeeded(es)
  {
    if es != [] && es[0].tag != 0 {
      NeededForward(es[1..]);
      NeededCons(es[0], PreNull(es[1..]));
    }
  }

  lemma {:induction false} NeededCons(e: DynamicEntry, es: seq<DynamicEntry>)
    ensures NeededOf([e] + es) == (if e.tag == DT_NEEDED then [e.value] else []) + NeededOf(es)
  {
    if es == [] {
      assert [e] + es == [e] && [e][..0] == [];
    } else {
      var n := |es| - 1;
      NeededCons(e, es[..n]);
      assert ([e] + es)[..n + 1] == [e] + es[..n];
    }
  }

  lemma {:induction false} CollectionAgrees(es: seq<DynamicEntry>, c: Collection)
    requires Collect(PreNull(es)) == Ok(c)
    ensures Agrees(es, c)
  {
    hide Collect, First, Repeats, FieldsOf;
    CollectMeaning(PreNull(es));
    NeededForward(es);
    forall tag | tag in SINGLETONS ensures Field(c, tag) == First(es, tag) {
      FieldIsFirst(es, c, tag);
    }
  }

  /** One tag of the collection. */
  lemma {:induction false} AgreesOn(es: seq<DynamicEntry>, c: Collection, tag: int)
    requires Agrees(es, c) && tag in SINGLETONS
    ensures Field(c, tag) == First(es, tag) && (tag in c.fields <==> Has(es, tag))
    ensures tag in c.fields ==> First(es, tag) == Some(c.fields[tag])
  {
    hide First;
  }

  // ------------------------------------------------------------------------ consistency

  /** The fields fit together, as one conjunction. */
  predicate FieldsFit(c: Collection) {
    && PairComplete(c, DT_STRTAB, DT_STRSZ) && PairComplete(c, DT_SYMTAB, DT_SYMENT)
    && PairComplete(c, DT_REL, DT_RELSZ) && PairComplete(c, DT_RELSZ, DT_RELENT)
    && PairComplete(c, DT_JMPREL, DT_PLTRELSZ) && PairComplete(c, DT_PLTRELSZ, DT_PLTREL)
    && PairComplete(c, DT_INIT_ARRAY, DT_INIT_ARRAYSZ) && PairComplete(c, DT_FINI_ARRAY, DT_FINI_ARRAYSZ)
    && PairComplete(c, DT_VERDEF, DT_VERDEFNUM) && PairComplete(c, DT_VERNEED, DT_VERNEEDNUM)
    && (DT_PLTREL in c.fields ==> c.fields[DT_PLTREL] == 17)
    && (DT_INIT_ARRAYSZ in c.fields ==> c.fields[DT_INIT_ARRAYSZ] % 4 == 0)
    && (DT_FINI_ARRAYSZ in c.fields ==> c.fields[DT_FINI_ARRAYSZ] % 4 == 0)
    && (DT_SONAME in c.fields || c.needed != [] || DT_VERDEF in c.fields || DT_VERNEED in c.fields ==> DT_STRTAB in c.fields)
    && (DT_VERSYM in c.fields ==> DT_SYMTAB in c.fields)
  }

  lemma {:induction false} InconsistencyMeaning(c: Collection)
    ensures Inconsistency(c).None? <==> FieldsFit(c)
  {
    hide PairComplete;
  }

  lemma {:induction false} PairAgrees(es: seq<DynamicEntry>, c: Collection, a: int, b: int)
    requires Agrees(es, c) && a in SINGLETONS && b in SINGLETONS
    ensures PairComplete(c, a, b) <==> Pair(es, a, b)
  {
    hide First, Agrees, Field;
    AgreesOn(es, c, a);
    AgreesOn(es, c, b);
  }

  lemma {:induction false} PairsAgree(es: seq<DynamicEntry>, c: Collection)
    requires Agrees(es, c)
    ensures PairComplete(c, 5, 10) <==> Pair(es, 5, 10)
    ensures PairComplete(c, 6, 11) <==> Pair(es, 6, 11)
    ensures PairComplete(c, 17, 18) <==> Pair(es, 17, 18)
    ensures PairComplete(c, 18, 19) <==> Pair(es, 18, 19)
    ensures PairComplete(c, 23, 2) <==> Pair(es, 23, 2)
    ensures PairComplete(c, 2, 20) <==> Pair(es, 2, 20)
    ensures PairComplete(c, 25, 27) <==> Pair(es, 25, 27)
    ensures PairComplete(c, 26, 28) <==> Pair(es, 26, 28)
    ensures PairComplete(c, 0x6ffffffc, 0x6ffffffd) <==> Pair(es, 0x6ffffffc, 0x6ffffffd)
    ensures PairComplete(c, 0x6ffffffe, 0x6fffffff) <==> Pair(es, 0x6ffffffe, 0x6fffffff)
  {
    hide Agrees, Pair, PairComplete;
    PairAgrees(es, c, 5, 10);
    PairAgrees(es, c, 6, 11);
    PairAgrees(es, c, 17, 18);
    PairAgrees(es, c, 18, 19);
    PairAgrees(es, c, 23, 2);
    PairAgrees(es, c, 2, 20);
    PairAgrees(es, c, 25, 27);
    PairAgrees(es, c, 26, 28);
    PairAgrees(es, c, 0x6ffffffc, 0x6ffffffd);
    PairAgrees(es, c, 0x6ffffffe, 0x6fffffff);
  }

  /** The consistency checks, and the fixed sizes the tables ask for, accept exactly the consistent
      entries. */
  lemma {:induction false} ConsistencyExact(es: seq<DynamicEntry>, c: Collection)
    requires Collect(PreNull(es)) == Ok(c)
    ensures Consistent(es) <==> Inconsistency(c).None? && Is(es, 11, 16) && Is(es, 19, 8) && Divides(es, 18, 8) && Divides(es, 2, 8)
  {
    hide First, Has, Repeats, Collect, Field, Singleton, FieldsOf, Agrees, Inconsistency, PairComplete, Pair;
    CollectMeaning(PreNull(es));
    CollectionAgrees(es, c);
    InconsistencyMeaning(c);
    NeededAgrees(es, c);
    PairsAgree(es, c);
    AgreesOn(es, c, 20);
    AgreesOn(es, c, 27);
    AgreesOn(es, c, 28);
    AgreesOn(es, c, 14);
    AgreesOn(es, c, 5);
    AgreesOn(es, c, 6);
    AgreesOn(es, c, 0x6ffffff0);
    AgreesOn(es, c, 0x6ffffffc);
    AgreesOn(es, c, 0x6ffffffe);
  }

  lemma {:induction false} NeededAgrees(es: seq<DynamicEntry>, c: Collection)
    requires Agrees(es, c)
    ensures c.needed == AllNeeded(es)
  {
  }

  // ------------------------------------------------------------------------ single tables

  lemma {:induction false} RangeExact(v: View, bias: u32, x: u32, size: u32, guest: u32)
    ensures RebasedRange(v, bias, x, size) == Ok(guest) <==> guest == bias + x && Reaches(v, guest, size)
  {
  }

  lemma {:induction false} HeaderExact(v: View, bias: u32, x: Option<u32>, size: u32, guest: Option<u32>)
    ensures HeaderAt(v, bias, x, size) == Ok(guest) <==>
              guest.Some? == x.Some? && (guest.Some? ==> guest.value == bias + x.value && Reaches(v, guest.value, size))
  {
    hide RebasedRange, Reaches;
    if x.Some? && guest.Some? { RangeExact(v, bias, x.value, size, guest.value); }
    if x.Some? && RebasedRange(v, bias, x.value, size).Ok? {
      RangeExact(v, bias, x.value, size, RebasedRange(v, bias, x.value, size).value);
    }
  }

  lemma {:induction false} ArrayExact(v: View, bias: u32, x: Option<u32>, size: Option<u32>, a: Option<FunctionArray>)
    requires x.Some? == size.Some?
    ensures ArrayOf(v, bias, x, size) == Ok(a) <==>
              && a.Some? == x.Some?
              && (a.Some? ==> a.value.guest == bias + x.value && size == Some(a.value.size) && Reaches(v, a.value.guest, a.value.size))
  {
    hide RebasedRange, Reaches;
    if x.Some? && a.Some? { RangeExact(v, bias, x.value, size.value, a.value.guest); }
    if x.Some? && RebasedRange(v, bias, x.value, size.value).Ok? {
      RangeExact(v, bias, x.value, size.value, RebasedRange(v, bias, x.value, size.value).value);
    }
  }

  lemma {:induction false} VersionsExact(v: View, bias: u32, x: Option<u32>, count: Option<u32>, record: u32, t: Option<VersionTable>)
    requires x.Some? == count.Some?
    ensures VersionTableOf(v, bias, x, count, record) == Ok(t) <==>
              && t.Some? == x.Some?
              && (t.Some? ==> && t.value.guest == bias + x.value && count == Some(t.value.count)
                              && Reaches(v, t.value.guest, if t.value.count == 0 then 0 else record))
  {
    hide RebasedRange, Reaches;
    if x.Some? {
      var size := if count.value == 0 then 0 else record;
      if t.Some? { RangeExact(v, bias, x.value, size, t.value.guest); }
      if RebasedRange(v, bias, x.value, size).Ok? { RangeExact(v, bias, x.value, size, RebasedRange(v, bias, x.value, size).value); }
    }
  }

  lemma {:induction false} RelExact(v: View, bias: u32, x: Option<u32>, size: Option<u32>, entry: Option<u32>, plt: bool, t: Option<RelTable>)
    requires x.Some? == size.Some? == entry.Some?
    ensures RelTableOf(v, bias, x, size, entry, plt) == Ok(t) <==>
              && t.Some? == x.Some?
              && (t.Some? ==> && t.value.guest == bias + x.value && size == Some(t.value.size) && t.value.entrySize == 8 && entry == Some(8)
                              && t.value.size % 8 == 0 && Reaches(v, t.value.guest, t.value.size))
  {
    hide RebasedRange, Reaches;
    if x.Some? && t.Some? { RangeExact(v, bias, x.value, size.value, t.value.guest); }
    if x.Some? && RebasedRange(v, bias, x.value, size.value).Ok? {
      RangeExact(v, bias, x.value, size.value, RebasedRange(v, bias, x.value, size.value).value);
    }
  }

  lemma {:induction false} StringsExact(v: View, bias: u32, c: Collection, t: Option<StringTable>)
    requires PairComplete(c, DT_STRTAB, DT_STRSZ)
    ensures StringTableOf(v, bias, c) == Ok(t) <==>
              && t.Some? == Field(c, DT_STRTAB).Some?
              && (t.Some? ==> && t.value.guest == bias + Field(c, DT_STRTAB).value && Field(c, DT_STRSZ) == Some(t.value.size)
                              && Reaches(v, t.value.guest, t.value.size)
                              && (Field(c, DT_SONAME).Some? ==> Field(c, DT_SONAME).value < t.value.size)
                              && forall k :: 0 <= k < |c.needed| ==> c.needed[k] < t.value.size)
  {
    hide RebasedRange, Reaches;
    if DT_STRTAB in c.fields {
      var x, size := c.fields[DT_STRTAB], c.fields[DT_STRSZ];
      if t.Some? { RangeExact(v, bias, x, size, t.value.guest); }
      if RebasedRange(v, bias, x, size).Ok? { RangeExact(v, bias, x, size, RebasedRange(v, bias, x, size).value); }
    }
  }

  lemma {:induction false} SymbolsExact(v: View, bias: u32, c: Collection, t: Option<SymbolTable>)
    requires PairComplete(c, DT_SYMTAB, DT_SYMENT)
    ensures SymbolTableOf(v, bias, c) == Ok(t) <==>
              && t.Some? == Field(c, DT_SYMTAB).Some?
              && (t.Some? ==> && t.value.guest == bias + Field(c, DT_SYMTAB).value && t.value.entrySize == 16
                              && Field(c, DT_SYMENT) == Some(16) && Reaches(v, t.value.guest, 16))
  {
    hide RebasedRange, Reaches;
    if DT_SYMTAB in c.fields {
      var x := c.fields[DT_SYMTAB];
      if t.Some? { RangeExact(v, bias, x, 16, t.value.guest); }
      if RebasedRange(v, bias, x, 16).Ok? { RangeExact(v, bias, x, 16, RebasedRange(v, bias, x, 16).value); }
    }
  }

  // -------------------------------------------------------------------------- the theorem

  /** The tables of the metadata, one by one. */
  ghost predicate PartsOf(v: View, bias: u32, c: Collection, m: Metadata)
    requires PairComplete(c, DT_STRTAB, DT_STRSZ) && PairComplete(c, DT_SYMTAB, DT_SYMENT)
  {
    && StringTableOf(v, bias, c) == Ok(m.stringTable) && SymbolTableOf(v, bias, c) == Ok(m.symbolTable)
    && HeaderAt(v, bias, Field(c, DT_HASH), 8) == Ok(m.sysvHash) && HeaderAt(v, bias, Field(c, DT_GNU_HASH), 16) == Ok(m.gnuHash)
    && HeaderAt(v, bias, Field(c, DT_VERSYM), 2) == Ok(m.versym)
    && VersionTableOf(v, bias, Field(c, DT_VERDEF), Field(c, DT_VERDEFNUM), 20) == Ok(m.verdef)
    && VersionTableOf(v, bias, Field(c, DT_VERNEED), Field(c, DT_VERNEEDNUM), 16) == Ok(m.verneed)
    && ArrayOf(v, bias, Field(c, DT_INIT_ARRAY), Field(c, DT_INIT_ARRAYSZ)) == Ok(m.initArray)
    && ArrayOf(v, bias, Field(c, DT_FINI_ARRAY), Field(c, DT_FINI_ARRAYSZ)) == Ok(m.finiArray)
    && RelTableOf(v, bias, Field(c, DT_REL), Field(c, DT_RELSZ), Field(c, DT_RELENT), false) == Ok(m.relTable)
    && RelTableOf(v, bias, Field(c, DT_JMPREL), Field(c, DT_PLTRELSZ), Some(8), true) == Ok(m.pltRelTable)
    && m.sonameOffset == Field(c, DT_SONAME) && m.neededOffsets == c.needed && m.flags1 == Field(c, DT_FLAGS_1)
    && m.global == Bit1(Field(c, DT_FLAGS_1)) && m.symbolic == (DT_SYMBOLIC in c.fields || Bit1(Field(c, DT_FLAGS)))
    && m.hasVersioning == (DT_VERSYM in c.fields || DT_VERDEF in c.fields || DT_VERNEED in c.fields)
  }

  lemma {:induction false} MetadataParts(v: View, bias: u32, es: seq<DynamicEntry>, c: Collection, m: Metadata)
    requires Collected(es) == Ok(c) && PairComplete(c, DT_STRTAB, DT_STRSZ) && PairComplete(c, DT_SYMTAB, DT_SYMENT)
    ensures MetadataOf(v, bias, es) == Ok(m) <==> PartsOf(v, bias, c, m)
  {
    hide Collected, StringTableOf, SymbolTableOf, HeaderAt, VersionTableOf, ArrayOf, RelTableOf, Field, Bit1, PairComplete;
  }

  lemma {:induction false} FlagExact(es: seq<DynamicEntry>, c: Collection, tag: int)
    requires Agrees(es, c) && tag in SINGLETONS
    ensures Bit1(Field(c, tag)) <==> FlagOf(es, tag)
  {
    hide First, BitSet, Agrees, Field;
    AgreesOn(es, c, tag);
    if Has(es, tag) { FlagBits(First(es, tag).value); }
  }

  lemma {:induction false} FlagsExact(es: seq<DynamicEntry>, c: Collection, m: Metadata)
    requires Agrees(es, c)
    ensures FlagsFrom(es, m) <==>
              && m.sonameOffset == Field(c, DT_SONAME) && m.neededOffsets == c.needed && m.flags1 == Field(c, DT_FLAGS_1)
              && m.global == Bit1(Field(c, DT_FLAGS_1)) && m.symbolic == (DT_SYMBOLIC in c.fields || Bit1(Field(c, DT_FLAGS)))
              && m.hasVersioning == (DT_VERSYM in c.fields || DT_VERDEF in c.fields || DT_VERNEED in c.fields)
  {
    hide First, Has, Agrees, Field, Bit1, FlagOf;
    FlagExact(es, c, 0x6ffffffb);
    FlagExact(es, c, 30);
    NeededAgrees(es, c);
    AgreesOn(es, c, 14);
    AgreesOn(es, c, 16);
    AgreesOn(es, c, 0x6ffffffb);
    AgreesOn(es, c, 0x6ffffff0);
    AgreesOn(es, c, 0x6ffffffc);
    AgreesOn(es, c, 0x6ffffffe);
  }

  // Each part is the field of its own tags, in range.

  lemma {:induction false} StringsPart(v: View, bias: u32, es: seq<DynamicEntry>, c: Collection, m: Metadata)
    requires Agrees(es, c) && PairComplete(c, DT_STRTAB, DT_STRSZ) && m.sonameOffset == Field(c, DT_SONAME) && m.neededOffsets == c.needed
    ensures StringTableOf(v, bias, c) == Ok(m.stringTable) <==>
              StringsFrom(es, bias, m.stringTable) && StringsReach(v, m.stringTable, m.sonameOffset, m.neededOffsets)
  {
    hide First, Reaches, StringTableOf, Agrees, Field;
    StringsExact(v, bias, c, m.stringTable);
    AgreesOn(es, c, 5);
    AgreesOn(es, c, 10);
  }

  lemma {:induction false} SymbolsPart(v: View, bias: u32, es: seq<DynamicEntry>, c: Collection, t: Option<SymbolTable>)
    requires Agrees(es, c) && PairComplete(c, DT_SYMTAB, DT_SYMENT)
    ensures SymbolTableOf(v, bias, c) == Ok(t) <==> SymbolsFrom(es, bias, t) && SymbolsReach(v, t) && Is(es, 11, 16)
  {
    hide First, Reaches, SymbolTableOf, Agrees, Field;
    SymbolsExact(v, bias, c, t);
    AgreesOn(es, c, 6);
    AgreesOn(es, c, 11);
  }

  lemma {:induction false} HeaderPart(v: View, bias: u32, es: seq<DynamicEntry>, c: Collection, tag: int, size: u32, guest: Option<u32>)
    requires Agrees(es, c) && tag in SINGLETONS
    ensures HeaderAt(v, bias, Field(c, tag), size) == Ok(guest) <==> AddressFrom(es, bias, tag, guest) && HeaderReaches(v, guest, size)
  {
    hide First, Reaches, HeaderAt, Agrees, Field;
    HeaderExact(v, bias, Field(c, tag), size, guest);
    AgreesOn(es, c, tag);
  }

  lemma {:induction false} VersionsPart(v: View, bias: u32, es: seq<DynamicEntry>, c: Collection, tag: int, countTag: int, record: u32,
                                        t: Option<VersionTable>)
    requires Agrees(es, c) && tag in SINGLETONS && countTag in SINGLETONS && PairComplete(c, tag, countTag)
    ensures VersionTableOf(v, bias, Field(c, tag), Field(c, countTag), record) == Ok(t) <==>
              VersionsFrom(es, bias, tag, countTag, t) && VersionsReach(v, t, record)
  {
    hide First, Reaches, VersionTableOf, Agrees;
    VersionsExact(v, bias, Field(c, tag), Field(c, countTag), record, t);
    AgreesOn(es, c, tag);
    AgreesOn(es, c, countTag);
  }

  lemma {:induction false} ArrayPart(v: View, bias: u32, es: seq<DynamicEntry>, c: Collection, tag: int, sizeTag: int, a: Option<FunctionArray>)
    requires Agrees(es, c) && tag in SINGLETONS && sizeTag in SINGLETONS && PairComplete(c, tag, sizeTag)
    ensures ArrayOf(v, bias, Field(c, tag), Field(c, sizeTag)) == Ok(a) <==> ArrayFrom(es, bias, tag, sizeTag, a) && ArrayReaches(v, a)
  {
    hide First, Reaches, ArrayOf, Agrees;
    ArrayExact(v, bias, Field(c, tag), Field(c, sizeTag), a);
    AgreesOn(es, c, tag);
    AgreesOn(es, c, sizeTag);
  }

  lemma {:induction false} RelPart(v: View, bias: u32, es: seq<DynamicEntry>, c: Collection, t: Option<RelTable>)
    requires Agrees(es, c) && TripleComplete(c, DT_REL, DT_RELSZ, DT_RELENT)
    ensures RelTableOf(v, bias, Field(c, DT_REL), Field(c, DT_RELSZ), Field(c, DT_RELENT), false) == Ok(t) <==>
              RelFrom(es, bias, 17, 18, t) && RelReaches(v, t) && Is(es, 19, 8) && Divides(es, 18, 8)
  {
    hide First, Reaches, RelTableOf, Agrees;
    RelExact(v, bias, Field(c, DT_REL), Field(c, DT_RELSZ), Field(c, DT_RELENT), false, t);
    AgreesOn(es, c, 17);
    AgreesOn(es, c, 18);
    AgreesOn(es, c, 19);
  }

  lemma {:induction false} PltPart(v: View, bias: u32, es: seq<DynamicEntry>, c: Collection, t: Option<RelTable>)
    requires Agrees(es, c) && PairComplete(c, DT_JMPREL, DT_PLTRELSZ)
    ensures RelTableOf(v, bias, Field(c, DT_JMPREL), Field(c, DT_PLTRELSZ), Some(8), true) == Ok(t) <==>
              RelFrom(es, bias, 23, 2, t) && RelReaches(v, t) && Divides(es, 2, 8)
  {
    hide First, Reaches, RelTableOf, Agrees;
    AgreesOn(es, c, 23);
    AgreesOn(es, c, 2);
    if Field(c, DT_JMPREL).Some? {
      RelExact(v, bias, Field(c, DT_JMPREL), Field(c, DT_PLTRELSZ), Some(8), true, t);
    } else {
      NoTable(v, bias, Field(c, DT_PLTRELSZ));
    }
  }

  lemma {:induction false} NoTable(v: View, bias: u32, size: Option<u32>)
    ensures RelTableOf(v, bias, None, size, Some(8), true) == Ok(None)
  {
  }

  /** Collections that pass have their pairs. */
  lemma {:induction false} Paired(c: Collection)
    requires Inconsistency(c).None?
    ensures PairComplete(c, DT_STRTAB, DT_STRSZ) && PairComplete(c, DT_SYMTAB, DT_SYMENT)
    ensures PairComplete(c, DT_VERDEF, DT_VERDEFNUM) && PairComplete(c, DT_VERNEED, DT_VERNEEDNUM)
    ensures PairComplete(c, DT_INIT_ARRAY, DT_INIT_ARRAYSZ) && PairComplete(c, DT_FINI_ARRAY, DT_FINI_ARRAYSZ)
    ensures TripleComplete(c, DT_REL, DT_RELSZ, DT_RELENT) && PairComplete(c, DT_JMPREL, DT_PLTRELSZ)
  {
  }

  /** The parts are the fields of their tags, in range and with the fixed sizes. */
  lemma {:induction false} PartsExact(v: View, bias: u32, es: seq<DynamicEntry>, c: Collection, m: Metadata)
    requires Agrees(es, c) && Inconsistency(c).None?
    ensures PairComplete(c, DT_STRTAB, DT_STRSZ) && PairComplete(c, DT_SYMTAB, DT_SYMENT)
    ensures PartsOf(v, bias, c, m) <==>
              && TablesFrom(es, bias, m) && FlagsFrom(es, m) && InRange(v, m)
              && Is(es, 11, 16) && Is(es, 19, 8) && Divides(es, 18, 8) && Divides(es, 2, 8)
  {
    hide First, Field, StringTableOf, SymbolTableOf, HeaderAt, VersionTableOf, ArrayOf, RelTableOf, Inconsistency, PairComplete, TripleComplete, Bit1,
      Agrees, FlagsFrom, StringsFrom, SymbolsFrom, AddressFrom, VersionsFrom, ArrayFrom, RelFrom, StringsReach, SymbolsReach, HeaderReaches,
      VersionsReach, ArrayReaches, RelReaches, Is, Divides;
    Paired(c);
    FlagsExact(es, c, m);
    if !FlagsFrom(es, m) {
      return;
    }
    StringsPart(v, bias, es, c, m);
    SymbolsPart(v, bias, es, c, m.symbolTable);
    HeaderPart(v, bias, es, c, 4, 8, m.sysvHash);
    HeaderPart(v, bias, es, c, 0x6ffffef5, 16, m.gnuHash);
    HeaderPart(v, bias, es, c, 0x6ffffff0, 2, m.versym);
    VersionsPart(v, bias, es, c, 0x6ffffffc, 0x6ffffffd, 20, m.verdef);
    VersionsPart(v, bias, es, c, 0x6ffffffe, 0x6fffffff, 16, m.verneed);
    ArrayPart(v, bias, es, c, 25, 27, m.initArray);
    ArrayPart(v, bias, es, c, 26, 28, m.finiArray);
    RelPart(v, bias, es, c, m.relTable);
    PltPart(v, bias, es, c, m.pltRelTable);
  }

  /** Metadata is built from entries exactly if they are consistent, and then it is the metadata whose
      every field comes from its own tags, with every table in range. */
  lemma {:induction false} MetadataExact(v: View, bias: u32, es: seq<DynamicEntry>, m: Metadata)
    ensures MetadataOf(v, bias, es) == Ok(m) <==> Consistent(es) && TablesFrom(es, bias, m) && FlagsFrom(es, m) && InRange(v, m)
  {
    hide Collect, First, Repeats, Field, Inconsistency, TablesFrom, FlagsFrom, InRange, Is, Divides, Agrees;
    CollectMeaning(PreNull(es));
    if Collect(PreNull(es)).Err? {
      NotConsistent(es);
      return;
    }
    var c := Collect(PreNull(es)).value;
    CollectionAgrees(es, c);
    ConsistencyExact(es, c);
    if Inconsistency(c).None? {
      PartsExact(v, bias, es, c, m);
      MetadataParts(v, bias, es, c, m);
    }
  }

  lemma {:induction false} NotConsistent(es: seq<DynamicEntry>)
    requires Repeats(multiset(PreNull(es)))
    ensures !Consistent(es)
  {
  }
}

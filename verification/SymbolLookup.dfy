/** Looking a name up in one object (src/elf/linking/elf32_symbol_lookup.cpp:147-192, 509-727). */
module SymbolLookup {
  import opened Words
  import opened Views
  import opened Objects
  import opened LinkerStrings
  import V = Versioning
  import opened SymbolIndexes

  datatype Symbol = Symbol(nameOffset: u32, value: u32, size: u32, binding: int, kind: int, visibility: int,
                           rawOther: u8, section: u16)

  datatype ResolvedSymbol = ResolvedSymbol(index: u32, name: Name, symbol: Symbol, guestValue: u32)

  datatype LookupError =
    | InvalidOptions | InvalidMetadata | InvalidLookupName | VersionReadFailed | InvalidVersionMetadata
    | VersionRecordLimitExceeded | VersionIndexNotFound | VersionDependencyNotFound | HashReadFailed
    | HashIndexOutOfRange | InvalidHashChain | SymbolReadFailed | StringReadFailed(cause: StringError)
    | SymbolNotFound | UnsupportedBinding | UnsupportedType | UnsupportedVisibility | UnsupportedSectionIndex
    | ValueOverflow

  type Verdict = Result<ResolvedSymbol, LookupError>

  const STB_LOCAL := 0
  const STB_GLOBAL := 1
  const STB_WEAK := 2
  const STT_NOTYPE := 0
  const STT_OBJECT := 1
  const STT_FUNC := 2
  const STV_DEFAULT := 0
  const STV_INTERNAL := 1
  const STV_HIDDEN := 2
  const SHN_UNDEF := 0
  const SHN_LORESERVE := 0xff00
  const SHN_ABS := 0xfff1

  // --------------------------------------------------------------------------- hashes

  function GnuHash(name: Name): u32 {
    if name == [] then 5381 else (GnuHash(name[..|name| - 1]) * 33 + name[|name| - 1] as int) % 0x1_0000_0000
  }

  method ComputeGnuHash(name: Name) returns (hash: u32)
    ensures hash == GnuHash(name)
  {
    hash := 5381;
    for i := 0 to |name|
      invariant hash == GnuHash(name[..i])
    {
      assert name[..i + 1][..i] == name[..i];
      hash := (hash * 33 + name[i] as int) % 0x1_0000_0000;
    }
    assert name[..|name|] == name;
  }

  function SysvStep(hash: bv32, byte: bv32): bv32 {
    var h := (hash << 4) + byte;
    var high := h & 0xf000_0000;
    if high != 0 then (h ^ (high >> 24)) & !high else h
  }

  function SysvBits(name: Name): bv32 {
    if name == [] then 0 else SysvStep(SysvBits(name[..|name| - 1]), name[|name| - 1] as bv32)
  }

  function SysvHash(name: Name): u32 { SysvBits(name) as int }

  method ComputeSysvHash(name: Name) returns (hash: u32)
    ensures hash == SysvHash(name)
  {
    hide SysvStep;
    var bits: bv32 := 0;
    for i := 0 to |name|
      invariant bits == SysvBits(name[..i])
    {
      assert name[..i + 1][..i] == name[..i];
      bits := SysvStep(bits, name[i] as bv32);
    }
    assert name[..|name|] == name;
    hash := bits as int;
  }

  // ----------------------------------------------------------------------- candidates

  function DecodeSymbol(b: seq<u8>): Symbol
    requires |b| == SYMBOL_SIZE
  {
    Symbol(DecodeU32(b, 0), DecodeU32(b, 4), DecodeU32(b, 8), b[12] / 16, b[12] % 16, b[13] % 4, b[13], DecodeU16(b, 14))
  }

  function ReadSymbol(v: View, table: SymbolTable, i: u32): Option<Symbol> {
    match CheckedAdd(table.guest, SYMBOL_SIZE * i)
    case None => None
    case Some(address) =>
      match Read(v, address, SYMBOL_SIZE)
      case None => None
      case Some(b) => Some(DecodeSymbol(b))
  }

  /** What is asked of one object. */
  datatype Query = Query(bias: u32, metadata: Metadata, count: u32, name: Name, limits: LookupLimits,
                         requirement: Option<V.Requirement>)

  function VersionLimits(o: LookupLimits): V.Limits { V.Limits(o.versionRecords, o.nameBytes) }

  function FromVersionError(e: V.VersionError): LookupError {
    match e
    case InvalidOptions => LookupError.InvalidOptions
    case ReadFailed => VersionReadFailed
    case StringReadFailed(c) => StringReadFailed(c)
    case RecordLimitExceeded => VersionRecordLimitExceeded
    case VersionIndexNotFound => LookupError.VersionIndexNotFound
    case DependencyNotFound => VersionDependencyNotFound
    case InvalidMetadata => InvalidVersionMetadata
    case InvalidRecord => InvalidVersionMetadata
  }

  predicate Ordinary(section: u16) { section < SHN_LORESERVE || section == SHN_ABS }

  /** The version filter and the guest value of a symbol that has the right name and form. */
  function Accept(v: View, q: Query, i: u32, name: Name, s: Symbol): Option<Verdict> {
    match V.MatchVersion(v, q.metadata, i, q.requirement, VersionLimits(q.limits))
    case Err(e) => Some(Err(FromVersionError(e)))
    case Ok(false) => None
    case Ok(true) =>
      if s.section != SHN_ABS && q.bias + s.value >= ADDRESS_SPACE then Some(Err(ValueOverflow))
      else Some(Ok(ResolvedSymbol(i, name, s, if s.section == SHN_ABS then s.value else q.bias + s.value)))
  }

  /** A symbol of the right name: an ordinary miss, an unsupported form, or an acceptable definition. */
  function Judge(v: View, q: Query, i: u32, name: Name, s: Symbol): Option<Verdict> {
    if s.binding == STB_LOCAL || s.section == SHN_UNDEF || s.visibility == STV_INTERNAL || s.visibility == STV_HIDDEN then None
    else if s.binding != STB_GLOBAL && s.binding != STB_WEAK then Some(Err(UnsupportedBinding))
    else if s.rawOther >= 4 then Some(Err(UnsupportedVisibility))
    else if !Ordinary(s.section) then Some(Err(UnsupportedSectionIndex))
    else if s.kind != STT_NOTYPE && s.kind != STT_OBJECT && s.kind != STT_FUNC then Some(Err(UnsupportedType))
    else Accept(v, q, i, name, s)
  }

  /** evaluate_candidate: None is a miss. */
  function Evaluate(v: View, q: Query, i: u32): Option<Verdict>
    requires q.metadata.stringTable.Some? && q.metadata.symbolTable.Some?
  {
    if i == 0 || i >= q.count then Some(Err(LookupError.HashIndexOutOfRange))
    else match ReadSymbol(v, q.metadata.symbolTable.value, i)
         case None => Some(Err(LookupError.SymbolReadFailed))
         case Some(s) =>
           match ReadString(v, q.metadata.stringTable.value, s.nameOffset, q.limits.nameBytes)
           case Err(e) => Some(Err(StringReadFailed(e)))
           case Ok(name) => if name != q.name then None else Judge(v, q, i, name, s)
  }

  // ----------------------------------------------------------------------------- walks

  /** Bit `k` of a word. */
  predicate Bit(w: nat, k: nat) { if k == 0 then w % 2 == 1 else Bit(w / 2, k - 1) }

  function ShiftRight(w: nat, k: nat): (r: nat)
    ensures r <= w
  {
    if k == 0 then w else ShiftRight(w / 2, k - 1)
  }

  /** Both bloom bits of a hash are set in its bloom word. */
  predicate InBloom(word: u32, hash: u32, shift: u32) {
    Bit(word, hash % 32) && Bit(word, ShiftRight(hash, shift) % 32)
  }

  function GnuWalk(v: View, q: Query, g: GnuIndex, hash: u32, i: u32): Verdict
    requires q.metadata.stringTable.Some? && q.metadata.symbolTable.Some? && g.symbolOffset <= i
    decreases q.count - i
  {
    if i >= q.count then Err(InvalidHashChain)
    else match ReadIndexedWord(v, g.chains, i - g.symbolOffset)
         case None => Err(LookupError.HashReadFailed)
         case Some(c) =>
           var candidate := if c / 2 == hash / 2 then Evaluate(v, q, i) else None;
           if candidate.Some? then candidate.value
           else if c % 2 == 1 then Err(SymbolNotFound)
           else GnuWalk(v, q, g, hash, i + 1)
  }

  function GnuLookup(v: View, q: Query, g: GnuIndex): Verdict
    requires q.metadata.stringTable.Some? && q.metadata.symbolTable.Some? && g.bucketCount > 0 && g.bloomCount > 0
  {
    var hash := GnuHash(q.name);
    match ReadIndexedWord(v, g.bloom, BitAnd(hash / 32, g.bloomCount - 1))
    case None => Err(LookupError.HashReadFailed)
    case Some(word) =>
      if !InBloom(word, hash, g.bloomShift) then Err(SymbolNotFound)
      else match ReadIndexedWord(v, g.buckets, hash % g.bucketCount)
           case None => Err(LookupError.HashReadFailed)
           case Some(i) =>
             if i == 0 then Err(SymbolNotFound)
             else if i < g.symbolOffset || i >= q.count then Err(LookupError.HashIndexOutOfRange)
             else GnuWalk(v, q, g, hash, i)
  }

  function SysvWalk(v: View, q: Query, s: SysvIndex, i: u32, hops: nat): Verdict
    requires q.metadata.stringTable.Some? && q.metadata.symbolTable.Some? && hops <= q.count
    decreases q.count - hops
  {
    if i == 0 then Err(SymbolNotFound)
    else if hops == q.count then Err(InvalidHashChain)
    else
      var candidate := Evaluate(v, q, i);
      if candidate.Some? then candidate.value
      else match ReadIndexedWord(v, s.chains, i)
           case None => Err(LookupError.HashReadFailed)
           case Some(next) => if next >= q.count && next != 0 then Err(LookupError.HashIndexOutOfRange) else SysvWalk(v, q, s, next, hops + 1)
  }

  function SysvLookup(v: View, q: Query, s: SysvIndex): Verdict
    requires q.metadata.stringTable.Some? && q.metadata.symbolTable.Some? && s.bucketCount > 0
  {
    match ReadIndexedWord(v, s.buckets, SysvHash(q.name) % s.bucketCount)
    case None => Err(LookupError.HashReadFailed)
    case Some(i) => if i >= q.count && i != 0 then Err(LookupError.HashIndexOutOfRange) else SysvWalk(v, q, s, i, 0)
  }

  /** lookup_elf32_symbol_impl: GNU hash is preferred, and its miss is final.  No built index has
      an empty bucket or bloom array, on which the source would divide by zero. */
  function Lookup(v: View, bias: u32, m: Metadata, index: SymbolIndex, name: Name, o: LookupLimits,
                  requirement: Option<V.Requirement>): Verdict
  {
    if o.nameBytes == 0 then Err(LookupError.InvalidOptions)
    else if name == [] then Err(InvalidLookupName)
    else if m.stringTable.None? || m.symbolTable.None? || index.count == 0 || (index.gnu.None? && index.sysv.None?) then
      Err(InvalidMetadata)
    else
      var q := Query(bias, m, index.count, name, o, requirement);
      if index.gnu.Some? then
        if index.gnu.value.bucketCount == 0 || index.gnu.value.bloomCount == 0 then Err(InvalidMetadata)
        else GnuLookup(v, q, index.gnu.value)
      else if index.sysv.value.bucketCount == 0 then Err(InvalidMetadata)
      else SysvLookup(v, q, index.sysv.value)
  }

  method WalkGnuChain(v: View, q: Query, g: GnuIndex, hash: u32, start: u32) returns (r: Verdict)
    requires q.metadata.stringTable.Some? && q.metadata.symbolTable.Some? && g.symbolOffset <= start
    ensures r == GnuWalk(v, q, g, hash, start)
  {
    hide ReadIndexedWord, Evaluate;
    var i: u32 := start;
    while i < q.count
      invariant start <= i
      invariant GnuWalk(v, q, g, hash, i) == GnuWalk(v, q, g, hash, start)
    {
      var c := ReadIndexedWord(v, g.chains, i - g.symbolOffset);
      if c.None? {
        return Err(LookupError.HashReadFailed);
      }
      if c.value / 2 == hash / 2 {
        var candidate := Evaluate(v, q, i);
        if candidate.Some? {
          return candidate.value;
        }
      }
      if c.value % 2 == 1 {
        return Err(SymbolNotFound);
      }
      i := i + 1;
    }
    return Err(InvalidHashChain);
  }

  method WalkSysvChain(v: View, q: Query, s: SysvIndex, start: u32) returns (r: Verdict)
    requires q.metadata.stringTable.Some? && q.metadata.symbolTable.Some?
    ensures r == SysvWalk(v, q, s, start, 0)
  {
    hide ReadIndexedWord, Evaluate;
    var i: u32 := start;
    var hops := 0;
    while i != 0 && hops < q.count
      invariant 0 <= hops <= q.count
      invariant SysvWalk(v, q, s, i, hops) == SysvWalk(v, q, s, start, 0)
      decreases q.count - hops
    {
      var candidate := Evaluate(v, q, i);
      if candidate.Some? {
        return candidate.value;
      }
      var next := ReadIndexedWord(v, s.chains, i);
      if next.None? {
        return Err(LookupError.HashReadFailed);
      }
      if next.value >= q.count && next.value != 0 {
        return Err(LookupError.HashIndexOutOfRange);
      }
      i := next.value;
      hops := hops + 1;
    }
    if i != 0 {
      return Err(InvalidHashChain);
    }
    return Err(SymbolNotFound);
  }
}

/** Bounded SysV and GNU hash indexes over guest memory (src/elf/linking/elf32_symbol_lookup.cpp:196-483). */
module SymbolIndexes {
  import opened Words
  import opened Views
  import opened Objects

  datatype LookupLimits = LookupLimits(symbols: u32, buckets: u32, bloomWords: u32, nameBytes: u32, versionRecords: u32)

  datatype SysvIndex = SysvIndex(bucketCount: u32, chainCount: u32, buckets: u32, chains: u32)

  datatype GnuIndex = GnuIndex(bucketCount: u32, symbolOffset: u32, bloomCount: u32, bloomShift: u32,
                               bloom: u32, buckets: u32, chains: u32)

  datatype SymbolIndex = SymbolIndex(count: u32, sysv: Option<SysvIndex>, gnu: Option<GnuIndex>)

  datatype IndexError =
    | InvalidOptions | MissingStringTable | MissingSymbolTable | MissingHashTable | HashHeaderReadFailed
    | HashRangeOverflow | HashReadFailed | InvalidSysvHash | InvalidGnuHash | HashLimitExceeded
    | HashIndexOutOfRange | UnterminatedGnuChain | SymbolCountExceeded | SymbolRangeOverflow | SymbolReadFailed

  const SYMBOL_SIZE := 16

  predicate RangeFits(address: u32, size: nat) { address + size <= ADDRESS_SPACE }

  function HeaderWord(v: View, address: u32, i: u32): Result<u32, IndexError> {
    match ReadIndexedWord(v, address, i)
    case None => Err(HashHeaderReadFailed)
    case Some(w) => Ok(w)
  }

  // --------------------------------------------------------------------- SysV hash

  /** The words of a table from `i` on all lie below `bound`. */
  function WordsBelow(v: View, base: u32, i: nat, n: u32, bound: u32): Option<IndexError>
    requires i <= n
    decreases n - i
  {
    if i == n then None
    else match ReadIndexedWord(v, base, i)
         case None => Some(HashReadFailed)
         case Some(w) => if w >= bound && w != 0 then Some(HashIndexOutOfRange) else WordsBelow(v, base, i + 1, n, bound)
  }

  function SysvOf(v: View, address: u32, o: LookupLimits): Result<SysvIndex, IndexError> {
    var buckets :- HeaderWord(v, address, 0);
    var chains :- HeaderWord(v, address, 1);
    if buckets == 0 || chains == 0 then Err(InvalidSysvHash)
    else if buckets > o.buckets then Err(HashLimitExceeded)
    else if chains > o.symbols then Err(SymbolCountExceeded)
    else if !RangeFits(address, 8 + 4 * buckets + 4 * chains) then Err(HashRangeOverflow)
    else if !Readable(v, address, 8 + 4 * buckets + 4 * chains) then Err(HashReadFailed)
    else
      var bucketsAt, chainsAt := address + 8, address + 8 + 4 * buckets;
      match WordsBelow(v, bucketsAt, 0, buckets, chains)
      case Some(e) => Err(e)
      case None =>
        match WordsBelow(v, chainsAt, 0, chains, chains)
        case Some(e) => Err(e)
        case None => Ok(SysvIndex(buckets, chains, bucketsAt, chainsAt))
  }

  // ---------------------------------------------------------------------- GNU hash

  /** The largest bucket from `i` on, or the first defective one. */
  function LargestBucket(v: View, base: u32, i: nat, n: u32, offset: u32, o: LookupLimits, known: Option<u32>, largest: u32)
    : Result<u32, IndexError>
    requires i <= n
    decreases n - i
  {
    if i == n then Ok(largest)
    else match ReadIndexedWord(v, base, i)
         case None => Err(HashReadFailed)
         case Some(w) =>
           if w == 0 then LargestBucket(v, base, i + 1, n, offset, o, known, largest)
           else if w < offset then Err(InvalidGnuHash)
           else if w >= o.symbols then Err(SymbolCountExceeded)
           else if known.Some? && w >= known.value then Err(HashIndexOutOfRange)
           else LargestBucket(v, base, i + 1, n, offset, o, known, Max(largest, w))
  }

  // Below, a bucket under the symbol offset has already been rejected by LargestBucket.

  /** With a known symbol count: the chain from `i` has a terminator below it. */
  function ChainProblem(v: View, chains: u32, offset: u32, i: u32, count: u32): Option<IndexError>
    requires offset <= i
    decreases count - i
  {
    if i >= count then Some(UnterminatedGnuChain)
    else match ReadIndexedWord(v, chains, i - offset)
         case None => Some(HashReadFailed)
         case Some(w) => if w % 2 == 1 then None else ChainProblem(v, chains, offset, i + 1, count)
  }

  function ChainsProblem(v: View, g: GnuIndex, b: nat, count: u32): Option<IndexError>
    requires b <= g.bucketCount
    decreases g.bucketCount - b
  {
    if b == g.bucketCount then None
    else match ReadIndexedWord(v, g.buckets, b)
         case None => Some(HashReadFailed)
         case Some(w) =>
           if w == 0 then ChainsProblem(v, g, b + 1, count)
           else if w < g.symbolOffset then Some(InvalidGnuHash)
           else match ChainProblem(v, g.chains, g.symbolOffset, w, count)
                case Some(e) => Some(e)
                case None => ChainsProblem(v, g, b + 1, count)
  }

  /** Without one: the count is one past the terminator of the chain of the largest bucket. */
  function CountFromChain(v: View, chains: u32, offset: u32, i: u32, limit: u32): Result<u32, IndexError>
    requires offset <= i
    decreases limit - i
  {
    if i >= limit then Err(UnterminatedGnuChain)
    else match CheckedAdd(chains, 4 * (i - offset))
         case None => Err(HashRangeOverflow)
         case Some(address) =>
           match ReadWord(v, address)
           case None => Err(HashReadFailed)
           case Some(w) => if w % 2 == 1 then Ok(i + 1) else CountFromChain(v, chains, offset, i + 1, limit)
  }

  function GnuHeader(v: View, address: u32, o: LookupLimits): Result<GnuIndex, IndexError> {
    var buckets :- HeaderWord(v, address, 0);
    var offset :- HeaderWord(v, address, 1);
    var bloom :- HeaderWord(v, address, 2);
    var shift :- HeaderWord(v, address, 3);
    if buckets == 0 || offset == 0 || !IsPowerOfTwo(bloom) || shift >= 32 then Err(InvalidGnuHash)
    else if buckets > o.buckets || bloom > o.bloomWords then Err(HashLimitExceeded)
    else if offset > o.symbols then Err(SymbolCountExceeded)
    else if address + 16 + 4 * bloom + 4 * buckets >= ADDRESS_SPACE then Err(HashRangeOverflow)
    else if !Readable(v, address, 16 + 4 * bloom + 4 * buckets) then Err(HashReadFailed)
    else Ok(GnuIndex(buckets, offset, bloom, shift, address + 16, address + 16 + 4 * bloom,
                     address + 16 + 4 * bloom + 4 * buckets))
  }

  /** The GNU index and the symbol count, which the SysV chain count fixes when it is known. */
  function GnuOf(v: View, address: u32, o: LookupLimits, known: Option<u32>): Result<(GnuIndex, u32), IndexError> {
    var g :- GnuHeader(v, address, o);
    var largest :- LargestBucket(v, g.buckets, 0, g.bucketCount, g.symbolOffset, o, known, 0);
    if known.Some? then
      if g.symbolOffset > known.value then Err(InvalidGnuHash)
      else if !RangeFits(g.chains, 4 * (known.value - g.symbolOffset)) then Err(HashRangeOverflow)
      else if !Readable(v, g.chains, 4 * (known.value - g.symbolOffset)) then Err(HashReadFailed)
      else match ChainsProblem(v, g, 0, known.value)
           case Some(e) => Err(e)
           case None => Ok((g, known.value))
    else if largest == 0 then Ok((g, g.symbolOffset))
    else if largest < g.symbolOffset then Err(InvalidGnuHash)
    else
      var count :- CountFromChain(v, g.chains, g.symbolOffset, largest, o.symbols);
      Ok((g, count))
  }

  // ---------------------------------------------------------------------- the index

  function CheckedIndex(v: View, table: SymbolTable, o: LookupLimits, index: SymbolIndex): Result<SymbolIndex, IndexError> {
    if index.count == 0 then Err(InvalidGnuHash)
    else if index.count > o.symbols then Err(SymbolCountExceeded)
    else if !RangeFits(table.guest, SYMBOL_SIZE * index.count) then Err(SymbolRangeOverflow)
    else if !Readable(v, table.guest, SYMBOL_SIZE * index.count) then Err(SymbolReadFailed)
    else Ok(index)
  }

  /** build_elf32_symbol_index. */
  function IndexOf(v: View, m: Metadata, o: LookupLimits): Result<SymbolIndex, IndexError> {
    if o.symbols == 0 || o.buckets == 0 || o.bloomWords == 0 then Err(InvalidOptions)
    else if m.stringTable.None? then Err(MissingStringTable)
    else if m.symbolTable.None? then Err(MissingSymbolTable)
    else if m.sysvHash.None? && m.gnuHash.None? then Err(MissingHashTable)
    else if m.sysvHash.Some? then
      var s :- SysvOf(v, m.sysvHash.value, o);
      if m.gnuHash.None? then CheckedIndex(v, m.symbolTable.value, o, SymbolIndex(s.chainCount, Some(s), None))
      else
        var g :- GnuOf(v, m.gnuHash.value, o, Some(s.chainCount));
        CheckedIndex(v, m.symbolTable.value, o, SymbolIndex(g.1, Some(s), Some(g.0)))
    else
      var g :- GnuOf(v, m.gnuHash.value, o, None);
      CheckedIndex(v, m.symbolTable.value, o, SymbolIndex(g.1, None, Some(g.0)))
  }

  // -------------------------------------------------------------------------- the loops

  method ScanWords(v: View, base: u32, n: u32, bound: u32) returns (r: Option<IndexError>)
    ensures r == WordsBelow(v, base, 0, n, bound)
  {
    hide ReadIndexedWord;
    for i := 0 to n
      invariant WordsBelow(v, base, i, n, bound) == WordsBelow(v, base, 0, n, bound)
    {
      var w := ReadIndexedWord(v, base, i);
      if w.None? {
        return Some(HashReadFailed);
      }
      if w.value >= bound && w.value != 0 {
        return Some(HashIndexOutOfRange);
      }
    }
    return None;
  }

  method BuildSysv(v: View, address: u32, o: LookupLimits) returns (r: Result<SysvIndex, IndexError>)
    ensures r == SysvOf(v, address, o)
  {
    hide ReadIndexedWord, WordsBelow, Readable;
    var buckets := HeaderWord(v, address, 0);
    if buckets.Err? {
      return Err(buckets.error);
    }
    var chains := HeaderWord(v, address, 1);
    if chains.Err? {
      return Err(chains.error);
    }
    var nb, nc := buckets.value, chains.value;
    if nb == 0 || nc == 0 {
      return Err(InvalidSysvHash);
    }
    if nb > o.buckets {
      return Err(HashLimitExceeded);
    }
    if nc > o.symbols {
      return Err(SymbolCountExceeded);
    }
    if !RangeFits(address, 8 + 4 * nb + 4 * nc) {
      return Err(HashRangeOverflow);
    }
    var readable := ReadableRange(v, address, 8 + 4 * nb + 4 * nc);
    if !readable {
      return Err(HashReadFailed);
    }
    var bad := ScanWords(v, address + 8, nb, nc);
    if bad.Some? {
      return Err(bad.value);
    }
    bad := ScanWords(v, address + 8 + 4 * nb, nc, nc);
    if bad.Some? {
      return Err(bad.value);
    }
    return Ok(SysvIndex(nb, nc, address + 8, address + 8 + 4 * nb));
  }

  method FindLargestBucket(v: View, base: u32, n: u32, offset: u32, o: LookupLimits, known: Option<u32>)
    returns (r: Result<u32, IndexError>)
    ensures r == LargestBucket(v, base, 0, n, offset, o, known, 0)
  {
    hide ReadIndexedWord;
    var largest: u32 := 0;
    for i := 0 to n
      invariant LargestBucket(v, base, i, n, offset, o, known, largest) == LargestBucket(v, base, 0, n, offset, o, known, 0)
    {
      var w := ReadIndexedWord(v, base, i);
      if w.None? {
        return Err(HashReadFailed);
      }
      if w.value != 0 {
        if w.value < offset {
          return Err(InvalidGnuHash);
        }
        if w.value >= o.symbols {
          return Err(SymbolCountExceeded);
        }
        if known.Some? && w.value >= known.value {
          return Err(HashIndexOutOfRange);
        }
        largest := Max(largest, w.value);
      }
    }
    return Ok(largest);
  }

  /** Every bucket's chain, to its terminator. */
  method ScanChains(v: View, g: GnuIndex, count: u32) returns (r: Option<IndexError>)
    ensures r == ChainsProblem(v, g, 0, count)
  {
    hide ReadIndexedWord;
    for b := 0 to g.bucketCount
      invariant ChainsProblem(v, g, b, count) == ChainsProblem(v, g, 0, count)
    {
      var w := ReadIndexedWord(v, g.buckets, b);
      if w.None? {
        return Some(HashReadFailed);
      }
      if w.value != 0 {
        if w.value < g.symbolOffset {
          return Some(InvalidGnuHash);
        }
        var i: u32 := w.value;
        var terminated := false;
        while i < count && !terminated
          invariant w.value <= i
          invariant if terminated then ChainProblem(v, g.chains, g.symbolOffset, w.value, count).None?
                    else ChainProblem(v, g.chains, g.symbolOffset, i, count)
                         == ChainProblem(v, g.chains, g.symbolOffset, w.value, count)
          decreases count - i, !terminated
        {
          var c := ReadIndexedWord(v, g.chains, i - g.symbolOffset);
          if c.None? {
            return Some(HashReadFailed);
          }
          if c.value % 2 == 1 {
            terminated := true;
          } else {
            i := i + 1;
          }
        }
        if !terminated {
          return Some(UnterminatedGnuChain);
        }
      }
    }
    return None;
  }

  /** The walk over the chain of the largest bucket that fixes the symbol count. */
  method CountSymbols(v: View, g: GnuIndex, largest: u32, limit: u32) returns (r: Result<u32, IndexError>)
    requires g.symbolOffset <= largest
    ensures r == CountFromChain(v, g.chains, g.symbolOffset, largest, limit)
  {
    hide ReadWord;
    var i: u32 := largest;
    while i < limit
      invariant largest <= i
      invariant CountFromChain(v, g.chains, g.symbolOffset, i, limit)
                == CountFromChain(v, g.chains, g.symbolOffset, largest, limit)
    {
      var address := CheckedAdd(g.chains, 4 * (i - g.symbolOffset));
      if address.None? {
        return Err(HashRangeOverflow);
      }
      var w := ReadWord(v, address.value);
      if w.None? {
        return Err(HashReadFailed);
      }
      if w.value % 2 == 1 {
        return Ok(i + 1);
      }
      i := i + 1;
    }
    return Err(UnterminatedGnuChain);
  }

  method BuildGnu(v: View, address: u32, o: LookupLimits, known: Option<u32>) returns (r: Result<(GnuIndex, u32), IndexError>)
    ensures r == GnuOf(v, address, o, known)
  {
    hide ReadIndexedWord, Readable, LargestBucket, ChainsProblem, CountFromChain, GnuHeader;
    var header := GnuHeader(v, address, o);
    if header.Err? {
      return Err(header.error);
    }
    var g := header.value;
    var largest := FindLargestBucket(v, g.buckets, g.bucketCount, g.symbolOffset, o, known);
    if largest.Err? {
      return Err(largest.error);
    }
    if known.Some? {
      if g.symbolOffset > known.value {
        return Err(InvalidGnuHash);
      }
      var chainBytes := 4 * (known.value - g.symbolOffset);
      if !RangeFits(g.chains, chainBytes) {
        return Err(HashRangeOverflow);
      }
      var readable := ReadableRange(v, g.chains, chainBytes);
      if !readable {
        return Err(HashReadFailed);
      }
      var problem := ScanChains(v, g, known.value);
      if problem.Some? {
        return Err(problem.value);
      }
      return Ok((g, known.value));
    }
    if largest.value == 0 {
      return Ok((g, g.symbolOffset));
    }
    if largest.value < g.symbolOffset {
      return Err(InvalidGnuHash);
    }
    var count := CountSymbols(v, g, largest.value, o.symbols);
    if count.Err? {
      return Err(count.error);
    }
    return Ok((g, count.value));
  }

  method BuildIndex(v: View, m: Metadata, o: LookupLimits) returns (r: Result<SymbolIndex, IndexError>)
    ensures r == IndexOf(v, m, o)
  {
    hide SysvOf, GnuOf, CheckedIndex;
    if o.symbols == 0 || o.buckets == 0 || o.bloomWords == 0 {
      return Err(InvalidOptions);
    }
    if m.stringTable.None? {
      return Err(MissingStringTable);
    }
    if m.symbolTable.None? {
      return Err(MissingSymbolTable);
    }
    if m.sysvHash.None? && m.gnuHash.None? {
      return Err(MissingHashTable);
    }
    var count: Option<u32> := None;
    var index := SymbolIndex(0, None, None);
    if m.sysvHash.Some? {
      var sysv := BuildSysv(v, m.sysvHash.value, o);
      if sysv.Err? {
        return Err(sysv.error);
      }
      count := Some(sysv.value.chainCount);
      index := SymbolIndex(sysv.value.chainCount, Some(sysv.value), None);
    }
    if m.gnuHash.Some? {
      var gnu := BuildGnu(v, m.gnuHash.value, o, count);
      if gnu.Err? {
        return Err(gnu.error);
      }
      index := index.(count := gnu.value.1, gnu := Some(gnu.value.0));
    }
    return CheckedIndex(v, m.symbolTable.value, o, index);
  }

  // ------------------------------------------------------- what a built index guarantees

  /** From symbol `i` on, some chain word below `count` is a terminator. */
  ghost predicate Terminates(v: View, g: GnuIndex, i: u32, count: u32)
    requires g.symbolOffset <= i
  {
    exists t: u32 :: i <= t < count && Terminator(v, g, t)
  }

  predicate Terminator(v: View, g: GnuIndex, t: u32)
    requires g.symbolOffset <= t
  {
    var w := ReadIndexedWord(v, g.chains, t - g.symbolOffset);
    w.Some? && w.value % 2 == 1
  }

  ghost predicate GoodGnu(v: View, g: GnuIndex, count: u32) {
    && g.bucketCount > 0 && g.symbolOffset > 0 && IsPowerOfTwo(g.bloomCount)
    && forall b: u32 :: b < g.bucketCount ==> GnuBucketGood(v, g, b, count)
  }

  ghost predicate GnuBucketGood(v: View, g: GnuIndex, b: u32, count: u32) {
    var w := ReadIndexedWord(v, g.buckets, b);
    w.Some? && (w.value == 0 || (g.symbolOffset <= w.value < count && Terminates(v, g, w.value, count)))
  }

  ghost predicate GoodSysv(v: View, s: SysvIndex, count: u32) {
    && s.bucketCount > 0 && s.chainCount == count
    && (forall b: u32 :: b < s.bucketCount ==> WordBelow(v, s.buckets, b, count))
    && (forall i: u32 :: i < count ==> WordBelow(v, s.chains, i, count))
  }

  predicate WordBelow(v: View, base: u32, i: u32, bound: u32) {
    var w := ReadIndexedWord(v, base, i);
    w.Some? && w.value < bound
  }

  /** What every index that was built guarantees to later walks over the same memory. */
  ghost predicate GoodIndex(v: View, index: SymbolIndex) {
    && index.count > 0
    && (index.sysv.Some? || index.gnu.Some?)
    && (index.sysv.Some? ==> GoodSysv(v, index.sysv.value, index.count))
    && (index.gnu.Some? ==> GoodGnu(v, index.gnu.value, index.count))
  }

  lemma {:induction false} WordsBelowSound(v: View, base: u32, i: nat, n: u32, bound: u32)
    requires i <= n && bound > 0 && WordsBelow(v, base, i, n, bound).None?
    ensures forall k: u32 :: i <= k < n ==> WordBelow(v, base, k, bound)
    decreases n - i
  {
    hide ReadIndexedWord;
    if i < n { WordsBelowSound(v, base, i + 1, n, bound); }
  }

  lemma {:induction false} LargestBucketSound(v: View, base: u32, i: nat, n: u32, offset: u32, o: LookupLimits,
                                              known: Option<u32>, largest: u32)
    requires i <= n
    ensures var r := LargestBucket(v, base, i, n, offset, o, known, largest);
            r.Ok? ==> largest <= r.value && (r.value == largest || offset <= r.value < o.symbols)
                      && forall k: u32 :: i <= k < n ==> BucketBelow(v, base, k, offset, known, r.value)
    decreases n - i
  {
    hide ReadIndexedWord;
    if i < n {
      var w := ReadIndexedWord(v, base, i);
      if w.Some? {
        LargestBucketSound(v, base, i + 1, n, offset, o, known, if w.value == 0 then largest else Max(largest, w.value));
      }
    }
  }

  predicate BucketBelow(v: View, base: u32, k: u32, offset: u32, known: Option<u32>, largest: u32) {
    var w := ReadIndexedWord(v, base, k);
    w.Some? && (w.value == 0 || (offset <= w.value <= largest && (known.Some? ==> w.value < known.value)))
  }

  lemma {:induction false} ChainProblemSound(v: View, g: GnuIndex, i: u32, count: u32)
    requires g.symbolOffset <= i && ChainProblem(v, g.chains, g.symbolOffset, i, count).None?
    ensures i < count && Terminates(v, g, i, count)
    decreases count - i
  {
    hide ReadIndexedWord;
    var w := ReadIndexedWord(v, g.chains, i - g.symbolOffset);
    if w.value % 2 == 1 {
      assert Terminator(v, g, i);
    } else {
      ChainProblemSound(v, g, i + 1, count);
      var t: u32 :| i + 1 <= t < count && Terminator(v, g, t);
    }
  }

  lemma {:induction false} ChainsProblemSound(v: View, g: GnuIndex, b: nat, count: u32)
    requires b <= g.bucketCount && ChainsProblem(v, g, b, count).None?
    ensures forall k: u32 :: b <= k < g.bucketCount ==> GnuBucketGood(v, g, k, count)
    decreases g.bucketCount - b
  {
    hide ReadIndexedWord, Terminates;
    if b < g.bucketCount {
      var w := ReadIndexedWord(v, g.buckets, b).value;
      if w != 0 { ChainProblemSound(v, g, w, count); }
      ChainsProblemSound(v, g, b + 1, count);
    }
  }

  lemma {:induction false} CountFromChainSound(v: View, g: GnuIndex, i: u32, limit: u32)
    requires g.symbolOffset <= i
    ensures var r := CountFromChain(v, g.chains, g.symbolOffset, i, limit);
            r.Ok? ==> i < r.value <= limit && Terminator(v, g, r.value - 1)
    decreases limit - i
  {
    hide ReadWord;
    if i < limit {
      var address := CheckedAdd(g.chains, 4 * (i - g.symbolOffset));
      if address.Some? && ReadWord(v, address.value).Some? && ReadWord(v, address.value).value % 2 == 0 {
        CountFromChainSound(v, g, i + 1, limit);
      }
    }
  }

  /** The GNU-only build walks one chain, the largest bucket's; its terminator is the last
      symbol, so it ends the chain of every other bucket as well. */
  lemma {:induction false} GnuOfSound(v: View, address: u32, o: LookupLimits, known: Option<u32>)
    ensures var r := GnuOf(v, address, o, known);
            r.Ok? ==> GoodGnu(v, r.value.0, r.value.1) && (known.Some? ==> r.value.1 == known.value)
  {
    hide ReadIndexedWord, Readable, LargestBucket, ChainsProblem, CountFromChain, Terminates;
    var r := GnuOf(v, address, o, known);
    if r.Ok? {
      var g, count := r.value.0, r.value.1;
      GnuHeaderSound(v, address, o);
      LargestBucketSound(v, g.buckets, 0, g.bucketCount, g.symbolOffset, o, known, 0);
      if known.Some? {
        ChainsProblemSound(v, g, 0, count);
      } else {
        var largest := LargestBucket(v, g.buckets, 0, g.bucketCount, g.symbolOffset, o, known, 0).value;
        if largest != 0 { CountFromChainSound(v, g, largest, o.symbols); }
        forall b: u32 | b < g.bucketCount ensures GnuBucketGood(v, g, b, count) {
          assert BucketBelow(v, g.buckets, b, g.symbolOffset, known, largest);
          var w := ReadIndexedWord(v, g.buckets, b).value;
          if w != 0 { LastTerminates(v, g, w, count); }
        }
      }
    }
  }

  lemma {:induction false} LastTerminates(v: View, g: GnuIndex, i: u32, count: u32)
    requires g.symbolOffset <= i < count && Terminator(v, g, count - 1)
    ensures Terminates(v, g, i, count)
  {
  }

  lemma {:induction false} GnuHeaderSound(v: View, address: u32, o: LookupLimits)
    ensures var r := GnuHeader(v, address, o); r.Ok? ==> r.value.bucketCount > 0 && r.value.symbolOffset > 0 && r.value.bloomCount > 0
  {
    hide ReadIndexedWord, Readable;
  }

  lemma {:induction false} SysvOfSound(v: View, address: u32, o: LookupLimits)
    ensures var r := SysvOf(v, address, o); r.Ok? ==> GoodSysv(v, r.value, r.value.chainCount) && r.value.chainCount > 0
  {
    hide ReadIndexedWord, Readable, WordsBelow;
    var r := SysvOf(v, address, o);
    if r.Ok? {
      WordsBelowSound(v, r.value.buckets, 0, r.value.bucketCount, r.value.chainCount);
      WordsBelowSound(v, r.value.chains, 0, r.value.chainCount, r.value.chainCount);
    }
  }

  /** A successfully built index is good. */
  lemma {:induction false} IndexSound(v: View, m: Metadata, o: LookupLimits)
    ensures var r := IndexOf(v, m, o);
            r.Ok? ==> && GoodIndex(v, r.value) && m.symbolTable.Some? && m.stringTable.Some?
                      && RangeFits(m.symbolTable.value.guest, SYMBOL_SIZE * r.value.count)
                      && Readable(v, m.symbolTable.value.guest, SYMBOL_SIZE * r.value.count)
  {
    hide SysvOf, GnuOf, GoodSysv, GoodGnu, Readable;
    if m.sysvHash.Some? {
      SysvOfSound(v, m.sysvHash.value, o);
      var s := SysvOf(v, m.sysvHash.value, o);
      if s.Ok? && m.gnuHash.Some? { GnuOfSound(v, m.gnuHash.value, o, Some(s.value.chainCount)); }
      if s.Ok? { SysvCount(v, s.value); }
    } else if m.gnuHash.Some? {
      GnuOfSound(v, m.gnuHash.value, o, None);
    }
  }

  lemma {:induction false} SysvCount(v: View, s: SysvIndex)
    ensures GoodSysv(v, s, s.chainCount) ==> s.bucketCount > 0
  {
  }
}

/** Why hash lookup is safe and complete: walks over a built index terminate with a verdict,
    and a well-formed table makes them agree with a plain scan of the symbol table
    (src/elf/linking/elf32_symbol_lookup.cpp:263-280, 346-451, 533-726). */
module HashTheorems {
  import opened Words
  import opened Views
  import opened Objects
  import opened LinkerStrings
  import opened SymbolIndexes
  import opened SymbolLookup

  predicate HasTables(q: Query) { q.metadata.stringTable.Some? && q.metadata.symbolTable.Some? }

  // ------------------------------------------------------------- GNU walks are safe

  lemma {:induction false} GnuWalkSafe(v: View, q: Query, g: GnuIndex, hash: u32, i: u32)
    requires HasTables(q) && 0 < g.symbolOffset <= i && Terminates(v, g, i, q.count)
    ensures GnuWalk(v, q, g, hash, i) != Err(InvalidHashChain)
    ensures GnuWalk(v, q, g, hash, i) != Err(LookupError.HashIndexOutOfRange)
    decreases q.count - i
  {
    hide ReadIndexedWord, Evaluate;
    CandidateInRange(v, q, i);
    var t: u32 :| i <= t < q.count && Terminator(v, g, t);
    var c := ReadIndexedWord(v, g.chains, i - g.symbolOffset);
    if c.Some? && c.value % 2 == 0 {
      assert i + 1 <= t;
      GnuWalkSafe(v, q, g, hash, i + 1);
    }
  }

  /** Inside the index a candidate is never rejected as out of range. */
  lemma {:induction false} CandidateInRange(v: View, q: Query, i: u32)
    requires HasTables(q)
    ensures 0 < i < q.count ==> Evaluate(v, q, i) != Some(Err(LookupError.HashIndexOutOfRange))
    ensures 0 < i < q.count ==> Evaluate(v, q, i) != Some(Err(InvalidHashChain))
    ensures Evaluate(v, q, i) != Some(Err(SymbolNotFound))
  {
    hide ReadSymbol, ReadString, V.MatchVersion;
  }

  /** An index that was built makes every GNU lookup over the same memory meet a terminator:
      whatever the name, it never reports a broken chain or an index out of range. */
  lemma {:induction false} GnuLookupSafe(v: View, q: Query, g: GnuIndex)
    requires HasTables(q) && GoodGnu(v, g, q.count)
    ensures g.bucketCount > 0 && g.bloomCount > 0
    ensures GnuLookup(v, q, g) != Err(InvalidHashChain)
    ensures GnuLookup(v, q, g) != Err(LookupError.HashIndexOutOfRange)
  {
    hide ReadIndexedWord, GnuWalk, InBloom, GnuHash, Terminates;
    var b := GnuHash(q.name) % g.bucketCount;
    assert GnuBucketGood(v, g, b, q.count);
    var w := ReadIndexedWord(v, g.buckets, b).value;
    if w != 0 { GnuWalkSafe(v, q, g, GnuHash(q.name), w); }
  }

  // ------------------------------------------------------ the SysV chain, as a sequence

  /** The k-th symbol of the chain from `start`; zero once the chain has ended. */
  function ChainAt(v: View, s: SysvIndex, start: u32, k: nat): u32 {
    if k == 0 then start
    else
      var p := ChainAt(v, s, start, k - 1);
      if p == 0 then 0
      else match ReadIndexedWord(v, s.chains, p) case None => 0 case Some(w) => w
  }

  ghost predicate Revisits(v: View, s: SysvIndex, start: u32) {
    exists i: nat, j: nat :: i < j && ChainAt(v, s, start, i) == ChainAt(v, s, start, j) != 0
  }

  /** No symbol on the chain decides the lookup. */
  ghost predicate Undecided(v: View, q: Query, s: SysvIndex, start: u32)
    requires HasTables(q)
  {
    forall k: nat :: ChainAt(v, s, start, k) != 0 ==> Evaluate(v, q, ChainAt(v, s, start, k)).None?
  }

  lemma {:induction false} ChainBelow(v: View, s: SysvIndex, start: u32, count: u32, k: nat)
    requires GoodSysv(v, s, count) && start < count
    ensures ChainAt(v, s, start, k) < count
  {
    hide ReadIndexedWord;
    if k > 0 {
      ChainBelow(v, s, start, count, k - 1);
      assert WordBelow(v, s.chains, ChainAt(v, s, start, k - 1), count);
    }
  }

  /** The walk follows the chain as long as nothing decides it. */
  lemma {:induction false} WalkFollows(v: View, q: Query, s: SysvIndex, start: u32, n: nat)
    requires HasTables(q) && GoodSysv(v, s, q.count) && start < q.count && n <= q.count
    requires forall k: nat :: k < n ==> ChainAt(v, s, start, k) != 0 && Evaluate(v, q, ChainAt(v, s, start, k)).None?
    ensures SysvWalk(v, q, s, start, 0) == SysvWalk(v, q, s, ChainAt(v, s, start, n), n)
  {
    hide ReadIndexedWord, Evaluate;
    if n > 0 {
      WalkFollows(v, q, s, start, n - 1);
      ChainBelow(v, s, start, q.count, n - 1);
      assert WordBelow(v, s.chains, ChainAt(v, s, start, n - 1), q.count);
    }
  }

  /** Zero is final. */
  lemma {:induction false} ChainEnded(v: View, s: SysvIndex, start: u32, k: nat, n: nat)
    requires k <= n && ChainAt(v, s, start, k) == 0
    ensures ChainAt(v, s, start, n) == 0
    decreases n
  {
    hide ReadIndexedWord;
    if k < n { ChainEnded(v, s, start, k, n - 1); }
  }

  /** A chain that comes back to a symbol goes round for ever. */
  lemma {:induction false} RevisitShifts(v: View, s: SysvIndex, start: u32, i: nat, j: nat, t: nat)
    requires ChainAt(v, s, start, i) == ChainAt(v, s, start, j)
    ensures ChainAt(v, s, start, i + t) == ChainAt(v, s, start, j + t)
  {
    hide ReadIndexedWord;
    if t > 0 { RevisitShifts(v, s, start, i, j, t - 1); }
  }

  lemma {:induction false} RevisitNeverEnds(v: View, s: SysvIndex, start: u32, i: nat, j: nat, n: nat)
    requires i < j && ChainAt(v, s, start, i) == ChainAt(v, s, start, j) != 0
    ensures ChainAt(v, s, start, n) != 0
    decreases n
  {
    hide ChainAt;
    if n <= j {
      if ChainAt(v, s, start, n) == 0 { ChainEnded(v, s, start, n, j); }
    } else {
      RevisitShifts(v, s, start, i, j, n - j);
      RevisitNeverEnds(v, s, start, i, j, i + (n - j));
    }
  }

  /** Pigeonhole: more positions than values force a repetition. */
  lemma {:induction false} Pigeonhole(xs: seq<int>, bound: nat) returns (i: nat, j: nat)
    requires |xs| > bound && forall k :: 0 <= k < |xs| ==> 0 <= xs[k] < bound
    ensures i < j < |xs| && xs[i] == xs[j]
    decreases bound
  {
    assert 0 <= xs[0] < bound;
    var top := bound - 1;
    if a, b :| 0 <= a < b < |xs| && xs[a] == xs[b] == top {
      return a, b;
    }
    if a :| 0 <= a < |xs| && xs[a] == top {
      var rest := xs[..a] + xs[a + 1..];
      forall k | 0 <= k < |rest| ensures 0 <= rest[k] < top {
        assert rest[k] == xs[if k < a then k else k + 1];
      }
      i, j := Pigeonhole(rest, top);
      i, j := if i < a then i else i + 1, if j < a then j else j + 1;
    } else {
      i, j := Pigeonhole(xs, top);
    }
  }

  /** A chain with as many symbols as the table revisits one within that many steps. */
  lemma {:induction false} LongChainRevisits(v: View, s: SysvIndex, start: u32, count: u32) returns (i: nat, j: nat)
    requires GoodSysv(v, s, count) && start < count && count > 0
    requires forall k: nat :: k < count ==> ChainAt(v, s, start, k) != 0
    ensures i < j < count && ChainAt(v, s, start, i) == ChainAt(v, s, start, j) != 0
  {
    hide ChainAt;
    var xs := seq(count, k requires 0 <= k < count => ChainAt(v, s, start, k) - 1);
    forall k | 0 <= k < |xs| ensures 0 <= xs[k] < count - 1 {
      ChainBelow(v, s, start, count, k);
    }
    i, j := Pigeonhole(xs, count - 1);
    assert xs[i] == xs[j];
  }

  /** When nothing on the chain decides, the hop limit reports a broken chain exactly when the
      chain revisits a symbol, and otherwise the name is not found. */
  lemma {:induction false} SysvChainVerdict(v: View, q: Query, s: SysvIndex, start: u32)
    requires HasTables(q) && q.count > 0 && GoodSysv(v, s, q.count) && start < q.count && Undecided(v, q, s, start)
    ensures SysvWalk(v, q, s, start, 0) == Err(if Revisits(v, s, start) then InvalidHashChain else SymbolNotFound)
  {
    hide ChainAt, Evaluate, GoodSysv;
    if forall k: nat :: k < q.count ==> ChainAt(v, s, start, k) != 0 {
      var i, j := LongChainRevisits(v, s, start, q.count);
      WalkFollows(v, q, s, start, q.count);
      RevisitNeverEnds(v, s, start, i, j, q.count);
    } else {
      var n := FirstZero(v, s, start, q.count);
      WalkFollows(v, q, s, start, n);
      if Revisits(v, s, start) {
        var i: nat, j: nat :| i < j && ChainAt(v, s, start, i) == ChainAt(v, s, start, j) != 0;
        RevisitNeverEnds(v, s, start, i, j, n);
      }
    }
  }

  lemma {:induction false} FirstZero(v: View, s: SysvIndex, start: u32, count: nat) returns (n: nat)
    requires exists k: nat :: k < count && ChainAt(v, s, start, k) == 0
    ensures n < count && ChainAt(v, s, start, n) == 0
    ensures forall k: nat :: k < n ==> ChainAt(v, s, start, k) != 0
  {
    hide ChainAt;
    n := 0;
    while ChainAt(v, s, start, n) != 0
      invariant n < count && forall k: nat :: k < n ==> ChainAt(v, s, start, k) != 0
      decreases count - n
    {
      n := n + 1;
      if n == count { assert false; }
    }
  }

  /** When something on the chain decides, the walk returns the verdict of the first such symbol,
      whether or not the chain revisits one: the hop limit lies behind it. */
  lemma {:induction false} SysvChainDecided(v: View, q: Query, s: SysvIndex, start: u32) returns (n: nat)
    requires HasTables(q) && q.count > 0 && GoodSysv(v, s, q.count) && start < q.count && !Undecided(v, q, s, start)
    ensures 0 < ChainAt(v, s, start, n) < q.count && Evaluate(v, q, ChainAt(v, s, start, n)).Some?
    ensures SysvWalk(v, q, s, start, 0) == Evaluate(v, q, ChainAt(v, s, start, n)).value
    ensures forall k: nat :: k < n ==> ChainAt(v, s, start, k) != 0 && Evaluate(v, q, ChainAt(v, s, start, k)).None?
  {
    hide ChainAt, Evaluate, GoodSysv, SysvWalk;
    n := FirstDecisive(v, q, s, start);
    if n >= q.count {
      var i, j := LongChainRevisits(v, s, start, q.count);
      RevisitShifts(v, s, start, i, j, n - j);
      assert false;
    }
    ChainBelow(v, s, start, q.count, n);
    WalkFollows(v, q, s, start, n);
    WalkDecides(v, q, s, ChainAt(v, s, start, n), n);
  }

  /** The first symbol of the chain that decides; the chain has not ended before it. */
  lemma {:induction false} FirstDecisive(v: View, q: Query, s: SysvIndex, start: u32) returns (n: nat)
    requires HasTables(q) && !Undecided(v, q, s, start)
    ensures ChainAt(v, s, start, n) != 0 && Evaluate(v, q, ChainAt(v, s, start, n)).Some?
    ensures forall k: nat :: k < n ==> ChainAt(v, s, start, k) != 0 && Evaluate(v, q, ChainAt(v, s, start, k)).None?
  {
    hide ChainAt, Evaluate;
    var d: nat :| ChainAt(v, s, start, d) != 0 && Evaluate(v, q, ChainAt(v, s, start, d)).Some?;
    n := 0;
    while Evaluate(v, q, ChainAt(v, s, start, n)).None?
      invariant n <= d && forall k: nat :: k < n ==> Evaluate(v, q, ChainAt(v, s, start, k)).None?
      decreases d - n
    {
      n := n + 1;
    }
    forall k: nat | k <= n ensures ChainAt(v, s, start, k) != 0 {
      if ChainAt(v, s, start, k) == 0 { ChainEnded(v, s, start, k, d); }
    }
  }

  lemma {:induction false} WalkDecides(v: View, q: Query, s: SysvIndex, d: u32, k: nat)
    requires HasTables(q) && 0 < d && k < q.count && Evaluate(v, q, d).Some?
    ensures SysvWalk(v, q, s, d, k) == Evaluate(v, q, d).value
  {
    hide Evaluate;
  }

  // ------------------------------------------------------ lookups over an index that was built

  /** Where the SysV chain of a name starts. */
  function SysvStart(v: View, q: Query, s: SysvIndex): (start: u32)
    requires s.bucketCount > 0
  {
    match ReadIndexedWord(v, s.buckets, SysvHash(q.name) % s.bucketCount) case None => 0 case Some(w) => w
  }

  /** Whatever the table bytes that were accepted: a SysV lookup never leaves the table, and it
      reports a broken chain exactly when nothing on the chain decides and the chain revisits a
      symbol. */
  lemma {:induction false} SysvLookupSafe(v: View, q: Query, s: SysvIndex)
    requires HasTables(q) && q.count > 0 && GoodSysv(v, s, q.count)
    ensures SysvStart(v, q, s) < q.count && SysvLookup(v, q, s) == SysvWalk(v, q, s, SysvStart(v, q, s), 0)
    ensures SysvLookup(v, q, s) != Err(LookupError.HashIndexOutOfRange)
    ensures var start := SysvStart(v, q, s);
            && (SysvLookup(v, q, s) == Err(InvalidHashChain) <==> Undecided(v, q, s, start) && Revisits(v, s, start))
            && (SysvLookup(v, q, s) == Err(SymbolNotFound) <==> Undecided(v, q, s, start) && !Revisits(v, s, start))
  {
    hide ChainAt, Evaluate, SysvWalk, Undecided, Revisits, ReadIndexedWord, SysvHash;
    assert WordBelow(v, s.buckets, SysvHash(q.name) % s.bucketCount, q.count);
    var start := SysvStart(v, q, s);
    if Undecided(v, q, s, start) {
      SysvChainVerdict(v, q, s, start);
    } else {
      var n := SysvChainDecided(v, q, s, start);
      CandidateInRange(v, q, ChainAt(v, s, start, n));
    }
  }

  /** The lookup entry point over the index built from the same memory: it never reports an index
      out of range, and it reports a broken chain only for a SysV table (no GNU table takes
      precedence) on whose chain nothing decides and a symbol comes back. */
  lemma {:induction false} BuiltLookupSafe(v: View, bias: u32, m: Metadata, built: LookupLimits, index: SymbolIndex, name: Name, o: LookupLimits,
                                           requirement: Option<V.Requirement>)
    requires IndexOf(v, m, built) == Ok(index) && o.nameBytes > 0 && name != []
    ensures var q := Query(bias, m, index.count, name, o, requirement);
            var r := Lookup(v, bias, m, index, name, o, requirement);
            && HasTables(q)
            && r != Err(LookupError.HashIndexOutOfRange)
            && (index.gnu.Some? ==> GoodGnu(v, index.gnu.value, index.count) && r == GnuLookup(v, q, index.gnu.value) && r != Err(InvalidHashChain))
            && (index.gnu.None? ==>
                  && index.sysv.Some? && GoodSysv(v, index.sysv.value, index.count) && r == SysvLookup(v, q, index.sysv.value)
                  && var start := SysvStart(v, q, index.sysv.value);
                     r == Err(InvalidHashChain) <==> Undecided(v, q, index.sysv.value, start) && Revisits(v, index.sysv.value, start))
  {
    hide GoodGnu, GoodSysv, GnuLookup, SysvLookup, IndexOf, Undecided, Revisits, SysvStart;
    IndexSound(v, m, built);
    var q := Query(bias, m, index.count, name, o, requirement);
    if index.gnu.Some? {
      GnuCounts(v, index.gnu.value, index.count);
      GnuLookupSafe(v, q, index.gnu.value);
    } else {
      SysvCounts(v, index.sysv.value, index.count);
      SysvLookupSafe(v, q, index.sysv.value);
    }
  }

  lemma {:induction false} GnuCounts(v: View, g: GnuIndex, count: u32)
    requires GoodGnu(v, g, count)
    ensures g.bucketCount > 0 && g.bloomCount > 0 && IsPowerOfTwo(g.bloomCount)
  {
  }

  lemma {:induction false} SysvCounts(v: View, s: SysvIndex, count: u32)
    requires GoodSysv(v, s, count)
    ensures s.bucketCount > 0
  {
  }

  // ------------------------------------------------------------------ the plain scan

  /** The verdict of the first symbol from `i` on that is not a miss. */
  function LinearScan(v: View, q: Query, i: u32): Verdict
    requires HasTables(q)
    decreases q.count - i
  {
    if i >= q.count then Err(SymbolNotFound)
    else if Evaluate(v, q, i).Some? then Evaluate(v, q, i).value
    else LinearScan(v, q, i + 1)
  }

  /** The name of symbol `i`, when it can be read. */
  function NameAt(v: View, q: Query, i: u32): Option<Name>
    requires HasTables(q)
  {
    match ReadSymbol(v, q.metadata.symbolTable.value, i)
    case None => None
    case Some(s) =>
      match ReadString(v, q.metadata.stringTable.value, s.nameOffset, q.limits.nameBytes)
      case Err(_) => None
      case Ok(name) => Some(name)
  }

  lemma {:induction false} OtherNameMisses(v: View, q: Query, i: u32)
    requires HasTables(q) && 0 < i < q.count && NameAt(v, q, i).Some? && NameAt(v, q, i).value != q.name
    ensures Evaluate(v, q, i).None?
  {
    hide ReadSymbol, ReadString, Judge;
  }

  function Power2(k: nat): (n: nat)
    ensures n > 0
  {
    if k == 0 then 1 else 2 * Power2(k - 1)
  }

  /** The two bits of the bloom filter: those numbered by the hash and by the hash shifted right. */
  predicate BloomBits(word: u32, hash: u32, shift: u32) {
    BitSet(word, Power2(hash % 32)) && BitSet(word, Power2(hash / Power2(shift) % 32))
  }

  lemma {:induction false} BitExact(w: nat, k: nat)
    ensures Bit(w, k) <==> BitAnd(w, Power2(k)) != 0
  {
    if k == 0 {
      OneBit(w);
    } else {
      BitExact(w / 2, k - 1);
      TwiceBit(w, Power2(k - 1));
    }
  }

  lemma {:induction false} ShiftExact(w: nat, k: nat)
    ensures ShiftRight(w, k) == w / Power2(k)
  {
    if k > 0 {
      ShiftExact(w / 2, k - 1);
      HalvedQuotient(w, Power2(k - 1));
    }
  }

  lemma {:induction false} HalvedQuotient(w: nat, p: nat)
    requires p > 0
    ensures w / 2 / p == w / (2 * p)
  {
    var q, r := (w / 2) / p, (w / 2) % p;
    assert w / 2 == q * p + r;
    assert q * (2 * p) == 2 * (q * p);
    QuotientUnique(w, 2 * p, q, 2 * r + w % 2);
  }

  lemma {:induction false} BloomExact(word: u32, hash: u32, shift: u32)
    ensures InBloom(word, hash, shift) <==> BloomBits(word, hash, shift)
  {
    hide Bit, BitAnd, Power2, ShiftRight;
    ShiftExact(hash, shift);
    BitExact(word, hash % 32);
    BitExact(word, ShiftRight(hash, shift) % 32);
  }

  function GnuHashAt(v: View, q: Query, i: u32): u32
    requires HasTables(q) && NameAt(v, q, i).Some?
  {
    GnuHash(NameAt(v, q, i).value)
  }

  ghost predicate NamesReadable(v: View, q: Query, from: u32)
    requires HasTables(q)
  {
    forall i: u32 :: from <= i < q.count ==> NameAt(v, q, i).Some?
  }

  /** Symbol `i` is filed as the GNU hash format demands: its chain word carries its hash, its
      bloom bits are set, its bucket starts at or before it with no foreign symbol between, and
      the low bit of its chain word marks the end of its bucket. */
  ghost predicate Filed(v: View, q: Query, g: GnuIndex, i: u32)
    requires HasTables(q) && g.bucketCount > 0 && g.bloomCount > 0 && NamesReadable(v, q, g.symbolOffset)
    requires g.symbolOffset <= i < q.count
  {
    var hash := GnuHashAt(v, q, i);
    var c := ReadIndexedWord(v, g.chains, i - g.symbolOffset);
    var first := ReadIndexedWord(v, g.buckets, hash % g.bucketCount);
    var bloom := ReadIndexedWord(v, g.bloom, hash / 32 % g.bloomCount);
    && c.Some? && c.value / 2 == hash / 2
    && (c.value % 2 == 1 <==> i + 1 == q.count || GnuHashAt(v, q, i + 1) % g.bucketCount != hash % g.bucketCount)
    && bloom.Some? && BloomBits(bloom.value, hash, g.bloomShift)
    && first.Some? && 0 < g.symbolOffset <= first.value <= i
    && forall j: u32 :: first.value <= j <= i ==> GnuHashAt(v, q, j) % g.bucketCount == hash % g.bucketCount
  }

  /** A well-formed GNU hash table over readable names. */
  ghost predicate WellFormedGnu(v: View, q: Query, g: GnuIndex)
    requires HasTables(q)
  {
    && g.bucketCount > 0 && IsPowerOfTwo(g.bloomCount) && 0 < g.symbolOffset
    && NamesReadable(v, q, g.symbolOffset)
    && (forall i: u32 :: g.symbolOffset <= i < q.count ==> Filed(v, q, g, i))
    && (forall b: u32 :: b < g.bucketCount ==> BucketStart(v, q, g, b))
    && (forall k: u32 :: k < g.bloomCount ==> ReadIndexedWord(v, g.bloom, k).Some?)
  }

  predicate BucketStart(v: View, q: Query, g: GnuIndex, b: u32) {
    var w := ReadIndexedWord(v, g.buckets, b);
    w.Some? && (w.value == 0 || g.symbolOffset <= w.value < q.count)
  }

  /** From the start of the bucket the walk reaches the first symbol that decides. */
  lemma {:induction false} GnuWalkFinds(v: View, q: Query, g: GnuIndex, hash: u32, i: u32, d: u32)
    requires HasTables(q) && WellFormedGnu(v, q, g) && g.symbolOffset <= i <= d < q.count
    requires GnuHashAt(v, q, d) == hash && Evaluate(v, q, d).Some?
    requires forall j: u32 :: i <= j < d ==> Evaluate(v, q, j).None?
    requires forall j: u32 :: i <= j <= d ==> GnuHashAt(v, q, j) % g.bucketCount == hash % g.bucketCount
    ensures GnuWalk(v, q, g, hash, i) == Evaluate(v, q, d).value
    decreases d - i
  {
    hide ReadIndexedWord, Evaluate, BloomBits, NameAt, GnuHash;
    assert Filed(v, q, g, i);
    if i < d {
      assert GnuHashAt(v, q, i + 1) % g.bucketCount == GnuHashAt(v, q, i) % g.bucketCount;
      GnuWalkFinds(v, q, g, hash, i + 1, d);
    }
  }

  /** When no symbol decides, the walk ends at a terminator. */
  lemma {:induction false} GnuWalkMisses(v: View, q: Query, g: GnuIndex, hash: u32, i: u32)
    requires HasTables(q) && WellFormedGnu(v, q, g) && g.symbolOffset <= i < q.count
    requires forall j: u32 :: i <= j < q.count ==> Evaluate(v, q, j).None?
    ensures GnuWalk(v, q, g, hash, i) == Err(SymbolNotFound)
    decreases q.count - i
  {
    hide ReadIndexedWord, Evaluate, BloomBits, NameAt, GnuHash;
    assert Filed(v, q, g, i);
    if i + 1 < q.count { GnuWalkMisses(v, q, g, hash, i + 1); }
  }

  /** Where the plain scan stops. */
  lemma {:induction false} ScanStops(v: View, q: Query, i: u32) returns (d: u32)
    requires HasTables(q) && i <= q.count
    ensures i <= d <= q.count && forall j: u32 :: i <= j < d ==> Evaluate(v, q, j).None?
    ensures d < q.count ==> Evaluate(v, q, d).Some? && LinearScan(v, q, i) == Evaluate(v, q, d).value
    ensures d == q.count ==> LinearScan(v, q, i) == Err(SymbolNotFound)
    decreases q.count - i
  {
    hide Evaluate;
    d := i;
    if i < q.count && Evaluate(v, q, i).None? { d := ScanStops(v, q, i + 1); }
  }

  /** On a well-formed table, GNU lookup returns exactly the verdict of the plain scan from the
      symbol offset: neither the bloom filter nor the chain loses a symbol. */
  lemma {:induction false} GnuLookupIsScan(v: View, q: Query, g: GnuIndex)
    requires HasTables(q) && WellFormedGnu(v, q, g) && g.symbolOffset <= q.count
    ensures GnuLookup(v, q, g) == LinearScan(v, q, g.symbolOffset)
  {
    hide ReadIndexedWord, Evaluate, InBloom, BloomBits, NameAt, GnuHash, GnuWalk, LinearScan, BitAnd, IsPowerOfTwo;
    var hash := GnuHash(q.name);
    MaskIsRemainder(hash / 32, g.bloomCount);
    var d := ScanStops(v, q, g.symbolOffset);
    if d < q.count {
      DecisiveName(v, q, d);
      assert Filed(v, q, g, d);
      BloomExact(ReadIndexedWord(v, g.bloom, hash / 32 % g.bloomCount).value, hash, g.bloomShift);
      var first := ReadIndexedWord(v, g.buckets, hash % g.bucketCount).value;
      GnuWalkFinds(v, q, g, hash, first, d);
    } else {
      assert BucketStart(v, q, g, hash % g.bucketCount);
      var first := ReadIndexedWord(v, g.buckets, hash % g.bucketCount).value;
      if first != 0 { GnuWalkMisses(v, q, g, hash, first); }
    }
  }

  /** A symbol that decides carries the name that was asked for. */
  lemma {:induction false} DecisiveName(v: View, q: Query, d: u32)
    requires HasTables(q) && 0 < d < q.count && NameAt(v, q, d).Some? && Evaluate(v, q, d).Some?
    ensures NameAt(v, q, d) == Some(q.name)
  {
    hide Evaluate, NameAt;
    if NameAt(v, q, d).value != q.name { OtherNameMisses(v, q, d); }
  }

  // -------------------------------------------------------------- GNU and SysV agree

  /** The SysV table answers for the name: a symbol that decides is on the chain of the name's
      bucket, and when no symbol does, that chain comes to an end. */
  ghost predicate SysvComplete(v: View, q: Query, s: SysvIndex)
    requires HasTables(q) && s.bucketCount > 0
  {
    var start := SysvStart(v, q, s);
    && (forall i: u32 :: 1 <= i < q.count && Evaluate(v, q, i).Some? ==> OnChain(v, s, start, i))
    && ((forall i: u32 :: 1 <= i < q.count ==> Evaluate(v, q, i).None?) ==> !Revisits(v, s, start))
  }

  ghost predicate OnChain(v: View, s: SysvIndex, start: u32, i: u32) { exists k: nat :: ChainAt(v, s, start, k) == i }

  /** When at most one symbol decides, and it is filed in a well-formed GNU table, both tables give
      the same verdict for the name exactly if the SysV table answers for it. */
  lemma {:induction false} TablesAgree(v: View, q: Query, g: GnuIndex, s: SysvIndex)
    requires HasTables(q) && q.count > 0 && WellFormedGnu(v, q, g) && g.symbolOffset <= q.count && GoodSysv(v, s, q.count)
    requires forall i: u32, j: u32 ::
               (1 <= i < q.count && 1 <= j < q.count && Evaluate(v, q, i).Some? && Evaluate(v, q, j).Some?) ==> i == j
    requires forall i: u32 :: 1 <= i < q.count && Evaluate(v, q, i).Some? ==> g.symbolOffset <= i
    ensures GnuLookup(v, q, g) == SysvLookup(v, q, s) <==> SysvComplete(v, q, s)
  {
    hide ReadIndexedWord, Evaluate, NameAt, GnuHash, SysvHash, GnuLookup, SysvLookup, LinearScan, ChainAt, WellFormedGnu, SysvWalk, GoodSysv,
      SysvStart, Undecided, Revisits, OnChain;
    GnuSymbolOffset(v, q, g);
    GnuLookupIsScan(v, q, g);
    SysvCounts(v, s, q.count);
    SysvLookupSafe(v, q, s);
    var d := ScanStops(v, q, g.symbolOffset);
    var start := SysvStart(v, q, s);
    if d < q.count {
      CandidateInRange(v, q, d);
      if Undecided(v, q, s, start) {
        UndecidedMisses(v, q, s, start, d);
      } else {
        var n := SysvChainDecided(v, q, s, start);
        assert ChainAt(v, s, start, n) == d;
        ChainHas(v, s, start, n);
      }
    } else {
      NothingDecides(v, q, g.symbolOffset);
      ChainUndecided(v, q, s, start);
    }
  }

  lemma {:induction false} UndecidedMisses(v: View, q: Query, s: SysvIndex, start: u32, d: u32)
    requires HasTables(q) && d > 0 && Undecided(v, q, s, start) && Evaluate(v, q, d).Some?
    ensures !OnChain(v, s, start, d)
  {
    hide ChainAt, Evaluate;
  }

  lemma {:induction false} ChainHas(v: View, s: SysvIndex, start: u32, n: nat)
    ensures OnChain(v, s, start, ChainAt(v, s, start, n))
  {
    hide ChainAt;
  }

  lemma {:induction false} ChainUndecided(v: View, q: Query, s: SysvIndex, start: u32)
    requires HasTables(q) && GoodSysv(v, s, q.count) && start < q.count
    requires forall i: u32 :: 1 <= i < q.count ==> Evaluate(v, q, i).None?
    ensures Undecided(v, q, s, start)
  {
    hide ChainAt, Evaluate, GoodSysv;
    forall k: nat | ChainAt(v, s, start, k) != 0 ensures Evaluate(v, q, ChainAt(v, s, start, k)).None? {
      ChainBelow(v, s, start, q.count, k);
    }
  }

  lemma {:induction false} GnuSymbolOffset(v: View, q: Query, g: GnuIndex)
    requires HasTables(q) && WellFormedGnu(v, q, g)
    ensures 0 < g.symbolOffset && g.bucketCount > 0 && g.bloomCount > 0
  {
  }

  lemma {:induction false} NothingDecides(v: View, q: Query, from: u32)
    requires HasTables(q) && forall j: u32 :: from <= j < q.count ==> Evaluate(v, q, j).None?
    requires forall i: u32 :: 1 <= i < q.count && Evaluate(v, q, i).Some? ==> from <= i
    ensures forall i: u32 :: 1 <= i < q.count ==> Evaluate(v, q, i).None?
  {
  }
}

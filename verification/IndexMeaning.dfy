/** A symbol index, told by the words of the hash tables: what its fields are and exactly when it is
    built (src/elf/linking/elf32_symbol_lookup.cpp:196-483). */
module IndexMeaning {
  import opened Words
  import opened Views
  import opened Objects
  import opened SymbolIndexes

  // ------------------------------------------------------------------------------- SysV

  /** The table at `h`: two counts, the buckets, the chains; all indexes below the chain count. */
  ghost predicate SysvFrom(v: View, h: u32, o: LookupLimits, s: SysvIndex) {
    && h + 8 + 4 * s.bucketCount + 4 * s.chainCount <= ADDRESS_SPACE
    && Readable(v, h, 8 + 4 * s.bucketCount + 4 * s.chainCount)
    && s.bucketCount == WordIn(v, h) && s.chainCount == WordIn(v, h + 4)
    && s.buckets == h + 8 && s.chains == h + 8 + 4 * s.bucketCount
    && s.bucketCount <= o.buckets && 0 < s.chainCount <= o.symbols
    && GoodSysv(v, s, s.chainCount)
  }

  lemma {:induction false} HeaderExact(v: View, h: u32, k: u32, w: u32)
    ensures HeaderWord(v, h, k) == Ok(w) <==> Readable(v, h + 4 * k, 4) && w == WordIn(v, h + 4 * k)
  {
    hide WordIn;
    var a := h + 4 * k;
    if a < ADDRESS_SPACE {
      WordExact(v, a, w);
    } else {
      assert a !in v;
    }
  }

  lemma {:induction false} WordsBelowExact(v: View, base: u32, i: nat, n: u32, bound: u32)
    requires i <= n && bound > 0
    ensures WordsBelow(v, base, i, n, bound).None? <==> forall k: u32 :: i <= k < n ==> WordBelow(v, base, k, bound)
    decreases n - i
  {
    hide ReadIndexedWord;
    if i < n {
      WordsBelowExact(v, base, i + 1, n, bound);
      var k: u32 := i;
      assert WordBelow(v, base, k, bound) <==> ReadIndexedWord(v, base, k).Some? && ReadIndexedWord(v, base, k).value < bound;
    }
  }

  lemma {:induction false} SysvExact(v: View, h: u32, o: LookupLimits, s: SysvIndex)
    ensures SysvOf(v, h, o) == Ok(s) <==> SysvFrom(v, h, o, s)
  {
    hide ReadIndexedWord, WordsBelow, WordIn, HeaderWord, Readable;
    if Readable(v, h, 8 + 4 * s.bucketCount + 4 * s.chainCount) { PartsReadable(v, h, 8 + 4 * s.bucketCount + 4 * s.chainCount); }
    var nb, nc := HeaderWord(v, h, 0), HeaderWord(v, h, 1);
    if nb.Ok? { HeaderExact(v, h, 0, nb.value); }
    if nc.Ok? { HeaderExact(v, h, 1, nc.value); }
    HeaderExact(v, h, 0, s.bucketCount);
    HeaderExact(v, h, 1, s.chainCount);
    if nb.Err? || nc.Err? || nb.value != s.bucketCount || nc.value != s.chainCount || s.bucketCount == 0 || s.chainCount == 0 {
      return;
    }
    if h + 8 + 4 * s.bucketCount + 4 * s.chainCount > ADDRESS_SPACE {
      return;
    }
    WordsBelowExact(v, h + 8, 0, s.bucketCount, s.chainCount);
    WordsBelowExact(v, h + 8 + 4 * s.bucketCount, 0, s.chainCount, s.chainCount);
  }

  // -------------------------------------------------------------------------------- GNU

  /** The header words of the table at `h`, and where its three arrays are. */
  ghost predicate GnuHeaderFrom(v: View, h: u32, o: LookupLimits, g: GnuIndex) {
    && h + 16 + 4 * g.bloomCount + 4 * g.bucketCount < ADDRESS_SPACE
    && Readable(v, h, 16 + 4 * g.bloomCount + 4 * g.bucketCount)
    && g.bucketCount == WordIn(v, h) && g.symbolOffset == WordIn(v, h + 4) && g.bloomCount == WordIn(v, h + 8)
    && g.bloomShift == WordIn(v, h + 12)
    && g.bloom == h + 16 && g.buckets == h + 16 + 4 * g.bloomCount && g.chains == h + 16 + 4 * g.bloomCount + 4 * g.bucketCount
    && 0 < g.bucketCount <= o.buckets && 0 < g.symbolOffset <= o.symbols && IsPowerOfTwo(g.bloomCount) && g.bloomCount <= o.bloomWords
    && g.bloomShift < 32
  }

  lemma {:induction false} PartsReadable(v: View, h: u32, n: nat)
    requires Readable(v, h, n) && n >= 8
    ensures Readable(v, h, 4) && Readable(v, h + 4, 4) && (n >= 16 ==> Readable(v, h + 8, 4) && Readable(v, h + 12, 4))
  {
  }

  lemma {:induction false} GnuHeaderExact(v: View, h: u32, o: LookupLimits, g: GnuIndex)
    ensures GnuHeader(v, h, o) == Ok(g) <==> GnuHeaderFrom(v, h, o, g)
  {
    hide WordIn, HeaderWord, IsPowerOfTwo, Readable;
    if Readable(v, h, 16 + 4 * g.bloomCount + 4 * g.bucketCount) { PartsReadable(v, h, 16 + 4 * g.bloomCount + 4 * g.bucketCount); }
    var a, b, c, d := HeaderWord(v, h, 0), HeaderWord(v, h, 1), HeaderWord(v, h, 2), HeaderWord(v, h, 3);
    if a.Ok? { HeaderExact(v, h, 0, a.value); }
    if b.Ok? { HeaderExact(v, h, 1, b.value); }
    if c.Ok? { HeaderExact(v, h, 2, c.value); }
    if d.Ok? { HeaderExact(v, h, 3, d.value); }
    HeaderExact(v, h, 0, g.bucketCount);
    HeaderExact(v, h, 1, g.symbolOffset);
    HeaderExact(v, h, 2, g.bloomCount);
    HeaderExact(v, h, 3, g.bloomShift);
  }

  /** Bucket `k` is empty or starts at a symbol from the offset on, below the limit and the known count. */
  predicate BucketFits(v: View, g: GnuIndex, k: u32, o: LookupLimits, known: Option<u32>) {
    var w := ReadIndexedWord(v, g.buckets, k);
    w.Some? && (w.value == 0 || (g.symbolOffset <= w.value < o.symbols && (known.Some? ==> w.value < known.value)))
  }

  /** `w` is the largest bucket of those from `i` on, and not less than `least`. */
  ghost predicate Largest(v: View, g: GnuIndex, i: nat, least: u32, w: u32) {
    && least <= w && (forall k: u32 :: i <= k < g.bucketCount ==> Bucket(v, g, k) <= w)
    && (w == least || exists k: u32 :: i <= k < g.bucketCount && Bucket(v, g, k) == w)
  }

  function Bucket(v: View, g: GnuIndex, k: u32): u32 {
    match ReadIndexedWord(v, g.buckets, k) case None => 0 case Some(w) => w
  }

  lemma {:induction false} LargestExact(v: View, g: GnuIndex, i: nat, o: LookupLimits, known: Option<u32>, least: u32, w: u32)
    requires i <= g.bucketCount
    ensures LargestBucket(v, g.buckets, i, g.bucketCount, g.symbolOffset, o, known, least) == Ok(w) <==>
              (forall k: u32 :: i <= k < g.bucketCount ==> BucketFits(v, g, k, o, known)) && Largest(v, g, i, least, w)
    decreases g.bucketCount - i
  {
    hide ReadIndexedWord;
    if i == g.bucketCount {
      return;
    }
    var k: u32 := i;
    var b := ReadIndexedWord(v, g.buckets, k);
    if !BucketFits(v, g, k, o, known) {
      return;
    }
    var more := if b.value == 0 then least else Max(least, b.value);
    LargestExact(v, g, i + 1, o, known, more, w);
    LargestStep(v, g, i, least, w, more);
  }

  lemma {:induction false} LargestStep(v: View, g: GnuIndex, i: u32, least: u32, w: u32, more: u32)
    requires i < g.bucketCount && more == Max(least, Bucket(v, g, i))
    ensures Largest(v, g, i, least, w) <==> Largest(v, g, i + 1, more, w)
  {
    hide Bucket;
    if Largest(v, g, i, least, w) && w != more {
      assert w != least ==> exists k: u32 :: i <= k < g.bucketCount && Bucket(v, g, k) == w;
    }
  }

  /** The chain from `i` has its first terminator at the last symbol. */
  ghost predicate LastFrom(v: View, g: GnuIndex, i: u32, count: u32)
    requires g.symbolOffset <= i
  {
    i < count && Terminator(v, g, count - 1) && forall t: u32 :: i <= t < count - 1 ==> Continues(v, g, t)
  }

  predicate Continues(v: View, g: GnuIndex, t: u32)
    requires g.symbolOffset <= t
  {
    var w := ReadIndexedWord(v, g.chains, t - g.symbolOffset);
    w.Some? && w.value % 2 == 0
  }

  lemma {:induction false} CountExact(v: View, g: GnuIndex, i: u32, limit: u32, count: u32)
    requires g.symbolOffset <= i
    ensures CountFromChain(v, g.chains, g.symbolOffset, i, limit) == Ok(count) <==> count <= limit && LastFrom(v, g, i, count)
    decreases limit - i
  {
    hide ReadWord;
    if i >= limit {
      return;
    }
    var w := ReadIndexedWord(v, g.chains, i - g.symbolOffset);
    if w.None? || w.value % 2 == 1 {
      assert LastFrom(v, g, i, count) && count > i + 1 ==> Continues(v, g, i);
      return;
    }
    assert Continues(v, g, i) && !Terminator(v, g, i);
    CountExact(v, g, i + 1, limit, count);
  }

  predicate ChainWord(v: View, g: GnuIndex, t: u32)
    requires g.symbolOffset <= t
  {
    ReadIndexedWord(v, g.chains, t - g.symbolOffset).Some?
  }

  lemma {:induction false} ChainExact(v: View, g: GnuIndex, i: u32, count: u32)
    requires g.symbolOffset <= i
    requires forall t: u32 :: g.symbolOffset <= t < count ==> ChainWord(v, g, t)
    ensures ChainProblem(v, g.chains, g.symbolOffset, i, count).None? <==> Terminates(v, g, i, count)
    decreases count - i
  {
    hide ReadIndexedWord;
    if i >= count {
      return;
    }
    var w := ReadIndexedWord(v, g.chains, i - g.symbolOffset);
    assert ChainWord(v, g, i);
    if w.value % 2 == 1 {
      assert Terminator(v, g, i);
      return;
    }
    ChainExact(v, g, i + 1, count);
    if Terminates(v, g, i, count) {
      var t: u32 :| i <= t < count && Terminator(v, g, t);
      assert t != i;
    }
    if Terminates(v, g, i + 1, count) {
      var t: u32 :| i + 1 <= t < count && Terminator(v, g, t);
    }
  }

  lemma {:induction false} ChainsExact(v: View, g: GnuIndex, b: nat, count: u32)
    requires b <= g.bucketCount
    requires forall t: u32 :: g.symbolOffset <= t < count ==> ChainWord(v, g, t)
    ensures ChainsProblem(v, g, b, count).None? <==> forall k: u32 :: b <= k < g.bucketCount ==> ChainFits(v, g, k, count)
    decreases g.bucketCount - b
  {
    hide ReadIndexedWord, Terminates;
    if b == g.bucketCount {
      return;
    }
    var k: u32 := b;
    var w := ReadIndexedWord(v, g.buckets, k);
    ChainsExact(v, g, b + 1, count);
    if w.Some? && w.value != 0 && w.value >= g.symbolOffset {
      ChainExact(v, g, w.value, count);
    }
    var fits := ChainFits(v, g, k, count);
    assert (forall j: u32 :: b <= j < g.bucketCount ==> ChainFits(v, g, j, count)) <==>
             fits && forall j: u32 :: b + 1 <= j < g.bucketCount ==> ChainFits(v, g, j, count);
  }

  /** Bucket `k` is empty, or its chain terminates below the count. */
  ghost predicate ChainFits(v: View, g: GnuIndex, k: u32, count: u32) {
    var w := ReadIndexedWord(v, g.buckets, k);
    w.Some? && (w.value == 0 || (g.symbolOffset <= w.value && Terminates(v, g, w.value, count)))
  }

  /** The chains of `count` symbols can be read. */
  ghost predicate ChainsReadable(v: View, g: GnuIndex, count: u32) {
    && g.symbolOffset <= count && g.chains + 4 * (count - g.symbolOffset) <= ADDRESS_SPACE
    && Readable(v, g.chains, 4 * (count - g.symbolOffset))
  }

  /** The table at `h` and the symbol count: the one the SysV table fixes, or one past the last symbol of
      the chain of the largest bucket; without any bucket, the symbol offset. */
  ghost predicate GnuFrom(v: View, h: u32, o: LookupLimits, known: Option<u32>, g: GnuIndex, count: u32) {
    && GnuHeaderFrom(v, h, o, g)
    && (forall k: u32 :: k < g.bucketCount ==> BucketFits(v, g, k, o, known))
    && if known.Some? then
         count == known.value && ChainsReadable(v, g, count) && forall k: u32 :: k < g.bucketCount ==> ChainFits(v, g, k, count)
       else exists w: u32 :: Largest(v, g, 0, 0, w) && CountedFrom(v, g, o, w, count)
  }

  ghost predicate CountedFrom(v: View, g: GnuIndex, o: LookupLimits, w: u32, count: u32) {
    if w == 0 then count == g.symbolOffset else g.symbolOffset <= w && count <= o.symbols && LastFrom(v, g, w, count)
  }

  lemma {:induction false} ChainWords(v: View, g: GnuIndex, count: u32)
    requires ChainsReadable(v, g, count)
    ensures forall t: u32 :: g.symbolOffset <= t < count ==> ChainWord(v, g, t)
  {
  }

  lemma {:induction false} GnuExact(v: View, h: u32, o: LookupLimits, known: Option<u32>, g: GnuIndex, count: u32)
    ensures GnuOf(v, h, o, known) == Ok((g, count)) <==> GnuFrom(v, h, o, known, g, count)
  {
    hide GnuHeader, GnuHeaderFrom, LargestBucket, ChainsProblem, CountFromChain, ReadIndexedWord, BucketFits, ChainFits, Largest, LastFrom, Readable;
    GnuHeaderExact(v, h, o, g);
    var header := GnuHeader(v, h, o);
    if header != Ok(g) {
      if header.Ok? { GnuHeaderExact(v, h, o, header.value); }
      return;
    }
    var largest := LargestBucket(v, g.buckets, 0, g.bucketCount, g.symbolOffset, o, known, 0);
    if largest.Ok? { LargestExact(v, g, 0, o, known, 0, largest.value); }
    if known.Some? {
      KnownExact(v, h, o, known.value, g, count);
    } else {
      if GnuFrom(v, h, o, known, g, count) {
        var w: u32 :| Largest(v, g, 0, 0, w) && CountedFrom(v, g, o, w, count);
        LargestExact(v, g, 0, o, known, 0, w);
      }
      if largest.Ok? {
        if largest.value != 0 && largest.value >= g.symbolOffset { CountExact(v, g, largest.value, o.symbols, count); }
      }
    }
  }

  lemma {:induction false} LargestExists(v: View, g: GnuIndex, i: nat, o: LookupLimits, known: Option<u32>, least: u32)
    requires i <= g.bucketCount && forall k: u32 :: i <= k < g.bucketCount ==> BucketFits(v, g, k, o, known)
    ensures LargestBucket(v, g.buckets, i, g.bucketCount, g.symbolOffset, o, known, least).Ok?
    decreases g.bucketCount - i
  {
    hide ReadIndexedWord;
    if i < g.bucketCount {
      var k: u32 := i;
      assert BucketFits(v, g, k, o, known);
      var b := ReadIndexedWord(v, g.buckets, k).value;
      LargestExists(v, g, i + 1, o, known, if b == 0 then least else Max(least, b));
    }
  }

  lemma {:induction false} KnownExact(v: View, h: u32, o: LookupLimits, known: u32, g: GnuIndex, count: u32)
    requires GnuHeader(v, h, o) == Ok(g) && GnuHeaderFrom(v, h, o, g)
    ensures GnuOf(v, h, o, Some(known)) == Ok((g, count)) <==> GnuFrom(v, h, o, Some(known), g, count)
  {
    hide GnuHeader, GnuHeaderFrom, LargestBucket, ChainsProblem, ReadIndexedWord, BucketFits, ChainFits, Largest, Readable;
    var largest := LargestBucket(v, g.buckets, 0, g.bucketCount, g.symbolOffset, o, Some(known), 0);
    if largest.Ok? {
      LargestExact(v, g, 0, o, Some(known), 0, largest.value);
    } else if forall k: u32 :: 0 <= k < g.bucketCount ==> BucketFits(v, g, k, o, Some(known)) {
      LargestExists(v, g, 0, o, Some(known), 0);
    }
    if ChainsReadable(v, g, known) {
      ChainWords(v, g, known);
      ChainsExact(v, g, 0, known);
    }
  }

  // ----------------------------------------------------------------------------- the index

  /** The index of an object: one part for each hash table it has, over a readable symbol table. */
  ghost predicate IndexFrom(v: View, m: Metadata, o: LookupLimits, index: SymbolIndex) {
    && o.symbols > 0 && o.buckets > 0 && o.bloomWords > 0 && m.stringTable.Some? && m.symbolTable.Some?
    && (m.sysvHash.Some? || m.gnuHash.Some?)
    && index.sysv.Some? == m.sysvHash.Some? && (index.sysv.Some? ==> SysvFrom(v, m.sysvHash.value, o, index.sysv.value))
    && index.gnu.Some? == m.gnuHash.Some?
    && (index.gnu.Some? ==> GnuFrom(v, m.gnuHash.value, o, if index.sysv.Some? then Some(index.sysv.value.chainCount) else None,
                                    index.gnu.value, index.count))
    && (index.gnu.None? ==> index.sysv.Some? && index.count == index.sysv.value.chainCount)
    && 0 < index.count <= o.symbols && m.symbolTable.value.guest + 16 * index.count <= ADDRESS_SPACE
    && Readable(v, m.symbolTable.value.guest, 16 * index.count)
  }

  /** The index that is built is exactly the one the tables describe. */
  lemma {:induction false} IndexExact(v: View, m: Metadata, o: LookupLimits, index: SymbolIndex)
    ensures IndexOf(v, m, o) == Ok(index) <==> IndexFrom(v, m, o, index)
  {
    hide SysvOf, GnuOf, SysvFrom, GnuFrom, Readable;
    if m.sysvHash.Some? {
      var s := SysvOf(v, m.sysvHash.value, o);
      if s.Ok? { SysvExact(v, m.sysvHash.value, o, s.value); }
      if index.sysv.Some? { SysvExact(v, m.sysvHash.value, o, index.sysv.value); }
      if s.Ok? && m.gnuHash.Some? {
        GnuPart(v, m.gnuHash.value, o, Some(s.value.chainCount), index);
      }
    } else if m.gnuHash.Some? {
      GnuPart(v, m.gnuHash.value, o, None, index);
    }
  }

  lemma {:induction false} GnuPart(v: View, h: u32, o: LookupLimits, known: Option<u32>, index: SymbolIndex)
    ensures var r := GnuOf(v, h, o, known); r.Ok? ==> GnuFrom(v, h, o, known, r.value.0, r.value.1)
    ensures index.gnu.Some? ==> (GnuOf(v, h, o, known) == Ok((index.gnu.value, index.count)) <==> GnuFrom(v, h, o, known, index.gnu.value, index.count))
  {
    hide GnuOf, GnuFrom;
    var r := GnuOf(v, h, o, known);
    if r.Ok? { GnuExact(v, h, o, known, r.value.0, r.value.1); }
    if index.gnu.Some? { GnuExact(v, h, o, known, index.gnu.value, index.count); }
  }
}

/** A loaded image, told by the bytes of its headers: what the memory holds at every address and
    what the load record says (src/elf/loading/elf32_loader.cpp:44-222). */
module ImageMeaning {
  import opened Words
  import opened AddressSpaces
  import opened MappedMemory
  import opened LoadPlans
  import opened Loader
  import opened ImageHeaders

  function Low(ps: nat, image: seq<u8>, at: nat): nat
    requires ps > 0 && at + 32 <= |image|
  {
    AlignDown(DecodeU32(image, at + 8), ps)
  }

  function High(ps: nat, image: seq<u8>, at: nat): nat
    requires ps > 0 && at + 32 <= |image|
  {
    match AlignUp(DecodeU32(image, at + 8) + DecodeU32(image, at + 20), ps) case Some(end) => end case None => 0
  }

  /** The permission the flag bits of a header ask for. */
  function Flags(image: seq<u8>, at: nat): Permission
    requires at + 32 <= |image|
  {
    var w := DecodeU32(image, at + 24);
    Permission(BitSet(w, 4), BitSet(w, 2), BitSet(w, 1))
  }

  /** Address `a` is on the pages of the PT_LOAD header at `at`, shifted by the bias. */
  predicate OnPages(ps: nat, image: seq<u8>, at: nat, bias: u32, a: int)
    requires ps > 0 && at + 32 <= |image|
  {
    DecodeU32(image, at + 20) != 0 && Low(ps, image, at) + bias <= a < High(ps, image, at) + bias
  }

  /** The byte the header puts at `a`: the file byte, and zero around the file range. */
  function ByteFor(image: seq<u8>, at: nat, bias: u32, a: int): u8
    requires at + 32 <= |image|
  {
    var offset, guest, filesz := DecodeU32(image, at + 4), DecodeU32(image, at + 8) + bias, DecodeU32(image, at + 16);
    if guest <= a < guest + filesz && offset + (a - guest) < |image| then image[offset + (a - guest)] else 0
  }

  /** `s'` is `s` with the image in it: on the pages of every PT_LOAD header the permission of its flag
      bits and its file bytes, then zeros; everything else as before. */
  ghost predicate InMemory(s: Space, image: seq<u8>, bias: u32, s': Space)
    requires WellFormed(s) && |s'.status| == |s'.bytes| == ADDRESS_SPACE && ElfHeader(image)
  {
    var at := Headers(image, 1, Count(image));
    && (forall k, a: nat :: 0 <= k < |at| && a < ADDRESS_SPACE && OnPages(s.pageSize, image, at[k], bias, a) ==>
          s'.status[a] == Mapped(Flags(image, at[k])) && s'.bytes[a] == ByteFor(image, at[k], bias, a))
    && (forall a: nat :: a < ADDRESS_SPACE && OnNoPages(s.pageSize, image, bias, a) ==>
          s'.status[a] == s.status[a] && s'.bytes[a] == s.bytes[a])
  }

  predicate OnNoPages(ps: nat, image: seq<u8>, bias: u32, a: int)
    requires ps > 0 && ElfHeader(image)
  {
    var at := Headers(image, 1, Count(image));
    forall k :: 0 <= k < |at| ==> !OnPages(ps, image, at[k], bias, a)
  }

  /** The headers of non-empty segments. */
  function NonEmpty(image: seq<u8>, at: seq<nat>): (r: seq<nat>)
    requires forall k :: 0 <= k < |at| ==> at[k] + 32 <= |image|
    ensures forall k :: 0 <= k < |r| ==> r[k] + 32 <= |image|
  {
    if at == [] then []
    else (if DecodeU32(image, at[0] + 20) != 0 then [at[0]] else []) + NonEmpty(image, at[1..])
  }

  predicate SegmentAt(ps: nat, image: seq<u8>, at: nat, bias: u32, l: LoadedSegment)
    requires ps > 0 && at + 32 <= |image|
  {
    && l.guest == DecodeU32(image, at + 8) + bias && l.filesz == DecodeU32(image, at + 16) && l.memsz == DecodeU32(image, at + 20)
    && l.mapStart == Low(ps, image, at) + bias && l.mapStart + l.mapSize == High(ps, image, at) + bias
    && l.permission == Flags(image, at)
  }

  predicate SegmentsAt(ps: nat, image: seq<u8>, at: seq<nat>, bias: u32, ls: seq<LoadedSegment>)
    requires ps > 0 && forall k :: 0 <= k < |at| ==> at[k] + 32 <= |image|
  {
    |ls| == |at| && forall k :: 0 <= k < |at| ==> SegmentAt(ps, image, at[k], bias, ls[k])
  }

  predicate RelroSegmentAt(ps: nat, image: seq<u8>, at: nat, bias: u32, l: LoadedRelro)
    requires ps > 0 && at + 32 <= |image|
  {
    && l.guest == DecodeU32(image, at + 8) + bias && l.memsz == DecodeU32(image, at + 20)
    && l.mapStart == Low(ps, image, at) + bias && l.mapStart + l.mapSize == High(ps, image, at) + bias
  }

  /** The requested base is where the lowest page of the image goes; an executable is not moved. */
  ghost predicate BiasFrom(ps: nat, image: seq<u8>, base: Option<u32>, bias: u32)
    requires ps > 0 && ElfHeader(image)
  {
    var at := NonEmpty(image, Headers(image, 1, Count(image)));
    if DecodeU16(image, 16) == 2 then bias == 0
    else && base.Some? && (forall k :: 0 <= k < |at| ==> base.value <= Low(ps, image, at[k]) + bias)
         && exists k :: 0 <= k < |at| && base.value == Low(ps, image, at[k]) + bias
  }

  /** The dynamic segment of the record is the PT_DYNAMIC header's, shifted. */
  ghost predicate DynamicAt(image: seq<u8>, load: Load)
    requires ElfHeader(image)
  {
    var dynamics := Headers(image, 2, Count(image));
    && |dynamics| == (if load.dynamicSegment.Some? then 1 else 0)
    && (load.dynamicSegment.Some? ==>
          var d, at := load.dynamicSegment.value, dynamics[0];
          && d.guest == DecodeU32(image, at + 8) + load.bias && d.filesz == DecodeU32(image, at + 16)
          && d.memsz == DecodeU32(image, at + 20))
  }

  /** The load record says what the headers say, shifted by the bias. */
  ghost predicate LoadFrom(ps: nat, image: seq<u8>, base: Option<u32>, load: Load)
    requires ps > 0 && ElfHeader(image)
  {
    var n, entry := Count(image), DecodeU32(image, 24);
    var relros := Headers(image, 0x6474e552, n);
    && BiasFrom(ps, image, base, load.bias)
    && load.entry == (if entry == 0 then 0 else entry + load.bias)
    && SegmentsAt(ps, image, NonEmpty(image, Headers(image, 1, n)), load.bias, load.segments)
    && DynamicAt(image, load)
    && |load.relros| == |relros| && forall k :: 0 <= k < |relros| ==> RelroSegmentAt(ps, image, relros[k], load.bias, load.relros[k])
  }

  /** The image is in memory and the record describes it. */
  ghost predicate ImageLoaded(s: Space, image: seq<u8>, base: Option<u32>, s': Space, load: Load)
    requires WellFormed(s)
  {
    && ElfHeader(image) && |s'.status| == |s'.bytes| == ADDRESS_SPACE && s'.pageSize == s.pageSize
    && InMemory(s, image, load.bias, s') && LoadFrom(s.pageSize, image, base, load)
  }

  // ------------------------------------------------------------------------- placed segments

  /** Placed segment `p` is the one of the header at `at`. */
  predicate PlacedFrom(ps: nat, image: seq<u8>, at: nat, bias: u32, p: Placed)
    requires ps > 0 && at + 32 <= |image|
  {
    && p.segment.offset == DecodeU32(image, at + 4) && p.segment.filesz == DecodeU32(image, at + 16)
    && p.segment.memsz == DecodeU32(image, at + 20) != 0
    && p.segment.permission == Flags(image, at)
    && p.guest == DecodeU32(image, at + 8) + bias
    && p.start == Low(ps, image, at) + bias && p.end == High(ps, image, at) + bias
  }

  lemma {:induction false} OnePlaced(ps: nat, image: seq<u8>, at: nat, bias: u32, s: Segment)
    requires ValidPageSize(ps) && at + 32 <= |image| && LoadHeader(image, at, s) && GoodSegment(ps, image, s) && s.memsz != 0
    ensures PlacedFrom(ps, image, at, bias, Loader.At(s, bias))
  {
    hide DecodeU32, BitSet, IsPowerOfTwo;
    PageBounds(ps, s.vaddr, s.vaddr + s.memsz, s.mapStart, s.mapEnd);
  }

  lemma {:induction false} AllPlaced(ps: nat, image: seq<u8>, at: seq<nat>, bias: u32, ss: seq<Segment>)
    requires ValidPageSize(ps) && |at| == |ss| && GoodSegments(ps, image, ss)
    requires forall k :: 0 <= k < |at| ==> at[k] + 32 <= |image| && LoadHeader(image, at[k], ss[k])
    ensures |NonEmpty(image, at)| == |PlacedAll(ss, bias)|
    ensures forall k :: 0 <= k < |PlacedAll(ss, bias)| ==> PlacedFrom(ps, image, NonEmpty(image, at)[k], bias, PlacedAll(ss, bias)[k])
    decreases |at|
  {
    hide DecodeU32, BitSet, IsPowerOfTwo, PlacedFrom, GoodSegment;
    if at == [] {
      return;
    }
    assert LoadHeader(image, at[0], ss[0]) && GoodSegment(ps, image, ss[0]);
    assert forall k :: 0 <= k < |at| - 1 ==> at[1..][k] == at[k + 1] && ss[1..][k] == ss[k + 1];
    AllPlaced(ps, image, at[1..], bias, ss[1..]);
    if ss[0].memsz != 0 {
      OnePlaced(ps, image, at[0], bias, ss[0]);
    }
  }

  lemma {:induction false} NonEmptyMembers(ps: nat, image: seq<u8>, at: seq<nat>, bias: u32, a: int)
    requires ps > 0 && forall k :: 0 <= k < |at| ==> at[k] + 32 <= |image|
    ensures forall k :: 0 <= k < |at| && OnPages(ps, image, at[k], bias, a) ==> at[k] in NonEmpty(image, at)
    ensures forall x :: x in NonEmpty(image, at) ==> x in at
    ensures forall x :: x in NonEmpty(image, at) ==> x + 32 <= |image| && DecodeU32(image, x + 20) != 0
    decreases |at|
  {
    hide DecodeU32, Low, High;
    if at != [] {
      NonEmptyMembers(ps, image, at[1..], bias, a);
      assert forall k :: 0 < k < |at| ==> at[k] == at[1..][k - 1];
    }
  }

  // ------------------------------------------------------------------------------- memory

  lemma {:induction false} AddressHolds(s: Space, image: seq<u8>, bias: u32, placed: seq<Placed>, at: seq<nat>, k: nat, a: nat)
    requires WellFormed(s) && GoodPlacement(s.pageSize, image, placed) && a < ADDRESS_SPACE
    requires forall i :: 0 <= i < |placed| ==> AllUnmapped(s, placed[i].start, placed[i].end)
    requires |at| == |placed| && k < |at| && at[k] + 32 <= |image| && PlacedFrom(s.pageSize, image, at[k], bias, placed[k])
    ensures var t := LoadedSpace(s, placed, image);
            OnPages(s.pageSize, image, at[k], bias, a) ==>
              t.status[a] == Mapped(Flags(image, at[k])) && t.bytes[a] == ByteFor(image, at[k], bias, a)
  {
    hide DecodeU32, BitSet, LoadedSpace, Low, High, WellFormed;
    if OnPages(s.pageSize, image, at[k], bias, a) {
      LoadedSpaceMeaning(s, placed, image, a);
      assert Inside(placed[k], a);
      assert GoodPlaced(s.pageSize, image, placed[k]);
    }
  }

  lemma {:induction false} AddressKept(s: Space, image: seq<u8>, bias: u32, placed: seq<Placed>, at: seq<nat>, a: nat)
    requires WellFormed(s) && GoodPlacement(s.pageSize, image, placed) && a < ADDRESS_SPACE
    requires forall i :: 0 <= i < |placed| ==> AllUnmapped(s, placed[i].start, placed[i].end)
    requires |at| == |placed|
    requires forall k :: 0 <= k < |at| ==> at[k] + 32 <= |image| && PlacedFrom(s.pageSize, image, at[k], bias, placed[k])
    requires forall k :: 0 <= k < |at| ==> !OnPages(s.pageSize, image, at[k], bias, a)
    ensures var t := LoadedSpace(s, placed, image); t.status[a] == s.status[a] && t.bytes[a] == s.bytes[a]
  {
    hide DecodeU32, BitSet, LoadedSpace, Low, High, WellFormed;
    LoadedSpaceMeaning(s, placed, image, a);
    forall k | 0 <= k < |placed| ensures !Inside(placed[k], a) {
      assert PlacedFrom(s.pageSize, image, at[k], bias, placed[k]);
    }
  }

  /** The placed segments are those of the non-empty PT_LOAD headers, in order, on free pages. */
  ghost predicate PlacedAs(s: Space, image: seq<u8>, bias: u32, placed: seq<Placed>)
    requires WellFormed(s) && ElfHeader(image)
  {
    var at := NonEmpty(image, Headers(image, 1, Count(image)));
    && GoodPlacement(s.pageSize, image, placed)
    && (forall i :: 0 <= i < |placed| ==> AllUnmapped(s, placed[i].start, placed[i].end))
    && |at| == |placed| && forall k :: 0 <= k < |at| ==> PlacedFrom(s.pageSize, image, at[k], bias, placed[k])
  }

  lemma {:induction false} HeldAt(s: Space, image: seq<u8>, bias: u32, placed: seq<Placed>, k: nat, a: nat)
    requires WellFormed(s) && ElfHeader(image) && PlacedAs(s, image, bias, placed) && a < ADDRESS_SPACE
    requires var at := Headers(image, 1, Count(image)); k < |at| && OnPages(s.pageSize, image, at[k], bias, a)
    ensures var t, at := LoadedSpace(s, placed, image), Headers(image, 1, Count(image));
            t.status[a] == Mapped(Flags(image, at[k])) && t.bytes[a] == ByteFor(image, at[k], bias, a)
  {
    hide DecodeU32, LoadedSpace, ElfHeader, PlacedFrom, GoodPlacement, OnPages, AllUnmapped, Count, NonEmpty, Headers;
    var at := Headers(image, 1, Count(image));
    var owners := NonEmpty(image, at);
    NonEmptyMembers(s.pageSize, image, at, bias, a);
    var i :| 0 <= i < |owners| && owners[i] == at[k];
    AddressHolds(s, image, bias, placed, owners, i, a);
  }

  lemma {:induction false} KeptAt(s: Space, image: seq<u8>, bias: u32, placed: seq<Placed>, a: nat)
    requires WellFormed(s) && ElfHeader(image) && PlacedAs(s, image, bias, placed) && a < ADDRESS_SPACE
    requires OnNoPages(s.pageSize, image, bias, a)
    ensures var t := LoadedSpace(s, placed, image); t.status[a] == s.status[a] && t.bytes[a] == s.bytes[a]
  {
    hide DecodeU32, LoadedSpace, ElfHeader, PlacedFrom, GoodPlacement, OnPages, AllUnmapped, Count, NonEmpty, Headers;
    var at := Headers(image, 1, Count(image));
    var owners := NonEmpty(image, at);
    NonEmptyMembers(s.pageSize, image, at, bias, a);
    forall i | 0 <= i < |owners| ensures !OnPages(s.pageSize, image, owners[i], bias, a) {
      assert owners[i] in at;
    }
    AddressKept(s, image, bias, placed, owners, a);
  }

  /** The layout of a plan places the segments of the headers. */
  lemma {:induction false} LayoutPlaces(s: Space, image: seq<u8>, plan: Plan, l: Layout)
    requires WellFormed(s) && PlanOf(s.pageSize, image) == Ok(plan) && GoodPlan(s.pageSize, image, plan)
    requires GoodLayout(s.pageSize, image, plan, l) && forall i :: 0 <= i < |l.placed| ==> AllUnmapped(s, l.placed[i].start, l.placed[i].end)
    ensures ElfHeader(image) && PlacedAs(s, image, l.bias, l.placed)
  {
    hide DecodeU32, DecodeU16, ElfHeader, PlanOf, GoodSpan, GoodRelro, GoodDynamic, DisjointSegments, RelroBacked, PlacedFrom, GoodPlacement,
      LoadHeader, GoodSegment, AllUnmapped, Headers, NonEmpty, PlacedAll, WellFormed, Count;
    assert ValidPageSize(s.pageSize) by { SizeValid(s); }
    PlanExact(s.pageSize, image, plan);
    AllPlaced(s.pageSize, image, Headers(image, 1, Count(image)), l.bias, plan.segments);
  }

  lemma {:induction false} SizeValid(s: Space)
    requires WellFormed(s)
    ensures ValidPageSize(s.pageSize)
  {
  }

  /** The memory after a load, told by the headers. */
  lemma {:induction false} LoadedInMemory(s: Space, image: seq<u8>, bias: u32, placed: seq<Placed>)
    requires WellFormed(s) && ElfHeader(image) && PlacedAs(s, image, bias, placed)
    ensures InMemory(s, image, bias, LoadedSpace(s, placed, image))
  {
    hide DecodeU32, LoadedSpace, ElfHeader, PlacedAs, OnPages, OnNoPages, Count, Headers, ByteFor, Flags;
    var at := Headers(image, 1, Count(image));
    assert GoodPlacement(s.pageSize, image, placed) by { PlacedGood(s, image, bias, placed); }
    var t := LoadedSpace(s, placed, image);
    forall k, a: nat | 0 <= k < |at| && a < ADDRESS_SPACE && OnPages(s.pageSize, image, at[k], bias, a)
      ensures t.status[a] == Mapped(Flags(image, at[k])) && t.bytes[a] == ByteFor(image, at[k], bias, a)
    {
      HeldAt(s, image, bias, placed, k, a);
    }
    forall a: nat | a < ADDRESS_SPACE && OnNoPages(s.pageSize, image, bias, a)
      ensures t.status[a] == s.status[a] && t.bytes[a] == s.bytes[a]
    {
      KeptAt(s, image, bias, placed, a);
    }
  }

  lemma {:induction false} PlacedGood(s: Space, image: seq<u8>, bias: u32, placed: seq<Placed>)
    requires WellFormed(s) && ElfHeader(image) && PlacedAs(s, image, bias, placed)
    ensures GoodPlacement(s.pageSize, image, placed)
  {
    hide GoodPlacement, ElfHeader, PlacedFrom, AllUnmapped;
  }

  // --------------------------------------------------------------------------- the load record

  lemma {:induction false} RecordSegments(s: Space, image: seq<u8>, bias: u32, placed: seq<Placed>, ls: seq<LoadedSegment>)
    requires WellFormed(s) && ElfHeader(image) && PlacedAs(s, image, bias, placed)
    requires |ls| == |placed| && forall k :: 0 <= k < |placed| ==> Loadable(placed[k]) && ls[k] == Loaded(placed[k])
    ensures SegmentsAt(s.pageSize, image, NonEmpty(image, Headers(image, 1, Count(image))), bias, ls)
  {
    SizeValid(s);
    hide DecodeU32, ElfHeader, GoodPlacement, AllUnmapped, Headers, NonEmpty, Flags, Low, High, Count, WellFormed;
    var at := NonEmpty(image, Headers(image, 1, Count(image)));
    forall k | 0 <= k < |at| ensures SegmentAt(s.pageSize, image, at[k], bias, ls[k]) {
      assert PlacedFrom(s.pageSize, image, at[k], bias, placed[k]);
    }
  }

  lemma {:induction false} RecordRelro(ps: nat, image: seq<u8>, at: nat, bias: u32, r: Relro)
    requires ValidPageSize(ps) && at + 32 <= |image| && RelroHeader(image, at, r) && GoodRelro(ps, r) && RelroFits(r, bias)
    ensures RelroSegmentAt(ps, image, at, bias, RelroAt(r, bias))
  {
    hide DecodeU32;
    PageBounds(ps, r.vaddr, r.vaddr + r.memsz, r.mapStart, r.mapEnd);
  }

  lemma {:induction false} RecordRelros(ps: nat, image: seq<u8>, plan: Plan, bias: u32)
    requires ValidPageSize(ps) && Describes(image, plan) && GoodScan(ps, image, plan)
    requires forall k :: 0 <= k < |plan.relros| ==> RelroFits(plan.relros[k], bias)
    ensures var at, ls := Headers(image, 0x6474e552, Count(image)), RelrosAt(plan.relros, bias);
            |ls| == |at| && forall k :: 0 <= k < |at| ==> RelroSegmentAt(ps, image, at[k], bias, ls[k])
  {
    hide DecodeU32, DecodeU16, ElfHeader, LoadsFrom, DynamicFrom, LargestAlignment, Headers, RelroHeader, GoodRelro, RelroFits, RelroSegmentAt,
      GoodSegments, GoodSpan, GoodDynamic, Count;
    var at := Headers(image, 0x6474e552, Count(image));
    forall k | 0 <= k < |at| ensures RelroSegmentAt(ps, image, at[k], bias, RelrosAt(plan.relros, bias)[k]) {
      RecordRelro(ps, image, at[k], bias, plan.relros[k]);
    }
  }

  lemma {:induction false} RecordBias(s: Space, image: seq<u8>, plan: Plan, base: Option<u32>, bias: u32, placed: seq<Placed>)
    requires WellFormed(s) && Describes(image, plan) && GoodSpan(s.pageSize, plan) && plan.minPage < plan.maxPageEnd
    requires BiasOf(s.pageSize, plan, base) == Ok(bias) && PlacedAs(s, image, bias, placed) && placed == PlacedAll(plan.segments, bias)
    ensures BiasFrom(s.pageSize, image, base, bias)
  {
    hide DecodeU32, DecodeU16, LoadsFrom, RelrosFrom, DynamicFrom, LargestAlignment, Headers, NonEmpty, GoodPlacement, AllUnmapped, Low, High,
      Flags, Rem, IsPowerOfTwo, Count, ElfHeader, WellFormed;
    TypeIs(image);
    var at := NonEmpty(image, Headers(image, 1, Count(image)));
    if DecodeU16(image, 16) == 2 {
      return;
    }
    forall k | 0 <= k < |at| ensures base.value <= Low(s.pageSize, image, at[k]) + bias {
      assert PlacedFrom(s.pageSize, image, at[k], bias, placed[k]);
      var x := placed[k].segment;
      assert placed[k] in placed;
      var i :| 0 <= i < |plan.segments| && plan.segments[i] == x;
      assert Covered(plan, plan.segments[i]);
    }
    var x :| x in plan.segments && x.memsz != 0 && x.mapStart == plan.minPage;
    assert Loader.At(x, bias) in placed;
    var k :| 0 <= k < |placed| && placed[k] == Loader.At(x, bias);
    assert PlacedFrom(s.pageSize, image, at[k], bias, placed[k]);
    assert base.value == Low(s.pageSize, image, at[k]) + bias;
  }

  lemma {:induction false} TypeIs(image: seq<u8>)
    requires ElfHeader(image)
    ensures DecodeU16(image, 16) == 2 || DecodeU16(image, 16) == 3
  {
    hide DecodeU16, DecodeU32;
  }

  lemma {:induction false} LayoutParts(ps: nat, plan: Plan, base: Option<u32>, l: Layout)
    requires ps > 0 && LayoutOf(ps, plan, base) == Ok(l)
    ensures BiasOf(ps, plan, base) == Ok(l.bias)
    ensures l.entry == (if plan.entry == 0 then 0 else plan.entry + l.bias)
  {
    hide BiasOf, PlaceDynamicRange, PlaceRelros, PlaceSegments;
  }

  lemma {:induction false} RecordDynamic(ps: nat, image: seq<u8>, plan: Plan, l: Layout, load: Load)
    requires ps > 0 && Describes(image, plan) && GoodLayout(ps, image, plan, l)
    requires load.bias == l.bias && load.dynamicSegment == l.dynamicSegment
    ensures DynamicAt(image, load)
  {
    hide DecodeU32, DecodeU16, ElfHeader, LoadsFrom, RelrosFrom, LargestAlignment, Headers, Count, GoodPlacement, PlacedAll, RelroFits;
  }

  /** The record of a load, told by the headers. */
  lemma {:induction false} RecordFrom(s: Space, image: seq<u8>, plan: Plan, base: Option<u32>, l: Layout, load: Load)
    requires WellFormed(s) && PlanOf(s.pageSize, image) == Ok(plan) && GoodPlan(s.pageSize, image, plan) && ElfHeader(image)
    requires LayoutOf(s.pageSize, plan, base) == Ok(l) && GoodLayout(s.pageSize, image, plan, l) && PlacedAs(s, image, l.bias, l.placed)
    requires |load.segments| == |l.placed| && forall k :: 0 <= k < |l.placed| ==> Loadable(l.placed[k]) && load.segments[k] == Loaded(l.placed[k])
    requires load.bias == l.bias && load.entry == l.entry && load.dynamicSegment == l.dynamicSegment && load.relros == l.relros
    ensures LoadFrom(s.pageSize, image, base, load)
  {
    hide DecodeU32, DecodeU16, ElfHeader, PlanOf, LayoutOf, DisjointSegments, RelroBacked, LoadsFrom, RelrosFrom, DynamicFrom, LargestAlignment,
      Headers, NonEmpty, GoodPlacement, AllUnmapped, Count, WellFormed, PlacedAs, SegmentsAt, RelroSegmentAt, BiasFrom, BiasOf, PlacedAll,
      GoodSegments, GoodSpan, GoodRelro, GoodDynamic, RelroFits, Loadable, Loaded, DynamicAt, ValidPageSize;
    SizeValid(s);
    PlanExact(s.pageSize, image, plan);
    LayoutParts(s.pageSize, plan, base, l);
    RecordSegments(s, image, l.bias, l.placed, load.segments);
    RecordRelros(s.pageSize, image, plan, l.bias);
    RecordBias(s, image, plan, base, l.bias, l.placed);
    RecordDynamic(s.pageSize, image, plan, l, load);
  }
}

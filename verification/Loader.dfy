/** Mapping an image into guest memory (src/elf/loading/elf32_loader.cpp). */
module Loader {
  import opened Words
  import opened AddressSpaces
  import opened MappedMemory
  import opened LoadPlans
  import opened Layers

  datatype LoadedSegment = LoadedSegment(guest: u32, filesz: u32, memsz: u32, mapStart: u32, mapSize: nat,
                                         permission: Permission)

  datatype LoadedDynamic = LoadedDynamic(guest: u32, filesz: u32, memsz: u32)

  datatype LoadedRelro = LoadedRelro(guest: u32, memsz: u32, mapStart: u32, mapSize: nat)

  datatype Load = Load(bias: u32, entry: u32, segments: seq<LoadedSegment>,
                       dynamicSegment: Option<LoadedDynamic>, relros: seq<LoadedRelro>)

  /** A non-empty segment at its guest address. */
  datatype Placed = Placed(segment: Segment, guest: nat, start: nat, end: nat)

  datatype Layout = Layout(bias: u32, entry: u32, dynamicSegment: Option<LoadedDynamic>,
                           relros: seq<LoadedRelro>, placed: seq<Placed>)

  function BiasOf(ps: nat, plan: Plan, base: Option<u32>): Result<u32, LoadError>
    requires ps > 0
  {
    if plan.imageType.Executable? then Ok(0)
    else if base.None? then Err(DynamicBaseRequired)
    else if Rem(base.value, ps) != 0 then Err(DynamicBaseUnaligned)
    else if base.value < plan.minPage then Err(LoadBiasOverflow)
    else if plan.maxPageEnd > ADDRESS_SPACE - (base.value - plan.minPage) then Err(LoadBiasOverflow)
    else if plan.biasAlignment > 1 && Rem(base.value - plan.minPage, plan.biasAlignment) != 0 then
      Err(DynamicBaseUnaligned)
    else Ok(base.value - plan.minPage)
  }

  function EntryOf(plan: Plan, bias: u32): Result<u32, LoadError> {
    if plan.entry == 0 then Ok(0)
    else if plan.entry + bias >= ADDRESS_SPACE then Err(EntryAddressOverflow)
    else Ok(plan.entry + bias)
  }

  function PlaceDynamicRange(plan: Plan, bias: u32): Result<Option<LoadedDynamic>, LoadError> {
    match plan.dynamicRange
    case None => Ok(None)
    case Some(d) =>
      var start: int := d.vaddr + bias;
      if start >= ADDRESS_SPACE || start + d.memsz > ADDRESS_SPACE then Err(DynamicSegmentAddressOverflow)
      else Ok(Some(LoadedDynamic(start, d.filesz, d.memsz)))
  }

  function PlaceRelro(r: Relro, bias: u32): Result<LoadedRelro, LoadError> {
    var guest, start, end := r.vaddr + bias, r.mapStart + bias, r.mapEnd + bias;
    if guest >= ADDRESS_SPACE || start >= ADDRESS_SPACE || end > ADDRESS_SPACE then Err(RelroSegmentAddressOverflow)
    else Ok(LoadedRelro(guest, r.memsz, start, (end - start) % U64_LIMIT))
  }

  function PlaceRelros(rs: seq<Relro>, bias: u32, done: seq<LoadedRelro>): Result<seq<LoadedRelro>, LoadError>
  {
    if rs == [] then Ok(done)
    else match PlaceRelro(rs[0], bias)
         case Err(e) => Err(e)
         case Ok(r) => PlaceRelros(rs[1..], bias, done + [r])
  }

  function At(s: Segment, bias: u32): Placed {
    Placed(s, s.vaddr + bias, s.mapStart + bias, s.mapEnd + bias)
  }

  function PlaceSegment(s: Segment, bias: u32): Result<Placed, LoadError> {
    var guest, start, end := s.vaddr + bias, s.mapStart + bias, s.mapEnd + bias;
    if guest >= ADDRESS_SPACE || start >= ADDRESS_SPACE || end > ADDRESS_SPACE then Err(SegmentAddressOverflow)
    else Ok(At(s, bias))
  }

  function PlaceSegments(ss: seq<Segment>, bias: u32, done: seq<Placed>): Result<seq<Placed>, LoadError> {
    if ss == [] then Ok(done)
    else if ss[0].memsz == 0 then PlaceSegments(ss[1..], bias, done)
    else match PlaceSegment(ss[0], bias)
         case Err(e) => Err(e)
         case Ok(p) => PlaceSegments(ss[1..], bias, done + [p])
  }

  /** Bias, entry and every range at its guest address. */
  function LayoutOf(ps: nat, plan: Plan, base: Option<u32>): Result<Layout, LoadError>
    requires ps > 0
  {
    match BiasOf(ps, plan, base) case Err(e) => Err(e) case Ok(bias) =>
      match EntryOf(plan, bias) case Err(e) => Err(e) case Ok(entry) =>
        match PlaceDynamicRange(plan, bias) case Err(e) => Err(e) case Ok(d) =>
          match PlaceRelros(plan.relros, bias, []) case Err(e) => Err(e) case Ok(relros) =>
            match PlaceSegments(plan.segments, bias, []) case Err(e) => Err(e) case Ok(placed) =>
              Ok(Layout(bias, entry, d, relros, placed))
  }

  predicate Inside(p: Placed, a: int) { p.start <= a < p.end }

  predicate Loadable(p: Placed) {
    p.start < p.end <= ADDRESS_SPACE && p.guest < ADDRESS_SPACE
  }

  function Loaded(p: Placed): LoadedSegment
    requires Loadable(p)
  {
    LoadedSegment(p.guest, p.segment.filesz, p.segment.memsz, p.start, p.end - p.start, p.segment.permission)
  }

  ghost predicate GoodPlaced(ps: nat, image: seq<u8>, p: Placed)
    requires ps > 0
  {
    && ValidRange(ps, Range(p.start, p.end)) && ValidPermission(p.segment.permission)
    && Loadable(p) && p.start <= p.guest && p.guest + p.segment.memsz <= p.end
    && p.segment.filesz <= p.segment.memsz && p.segment.offset + p.segment.filesz <= |image|
  }

  /** Placed segments: page-aligned, backed by the image and pairwise disjoint. */
  ghost predicate GoodPlacement(ps: nat, image: seq<u8>, placed: seq<Placed>)
    requires ps > 0
  {
    && (forall k :: 0 <= k < |placed| ==> GoodPlaced(ps, image, placed[k]))
    && (forall i, j, a :: 0 <= i < j < |placed| && Inside(placed[i], a) ==> !Inside(placed[j], a))
  }

  function FileBytes(image: seq<u8>, p: Placed): seq<u8>
    requires p.segment.offset + p.segment.filesz <= |image|
  {
    image[p.segment.offset..p.segment.offset + p.segment.filesz]
  }

  // ------------------------------------------------- the loaded memory, step by step

  ghost function MapAll(status: seq<PageState>, placed: seq<Placed>): (r: seq<PageState>)
    requires |status| == ADDRESS_SPACE && forall k :: 0 <= k < |placed| ==> placed[k].start <= placed[k].end <= ADDRESS_SPACE
    ensures |r| == ADDRESS_SPACE
  {
    if placed == [] then status
    else var n := |placed| - 1;
         Fill(MapAll(status, placed[..n]), placed[n].start, placed[n].end, Mapped(READ_WRITE))
  }

  ghost function CopyAll(bytes: seq<u8>, placed: seq<Placed>, image: seq<u8>): (r: seq<u8>)
    requires |bytes| == ADDRESS_SPACE
    requires forall k :: 0 <= k < |placed| ==>
                           placed[k].segment.offset + placed[k].segment.filesz <= |image|
                           && placed[k].guest + placed[k].segment.filesz <= ADDRESS_SPACE
    ensures |r| == ADDRESS_SPACE
  {
    if placed == [] then bytes
    else var n := |placed| - 1;
         Splice(CopyAll(bytes, placed[..n], image), placed[n].guest, FileBytes(image, placed[n]))
  }

  ghost function ProtectAll(status: seq<PageState>, placed: seq<Placed>): (r: seq<PageState>)
    requires |status| == ADDRESS_SPACE && forall k :: 0 <= k < |placed| ==> placed[k].start <= placed[k].end <= ADDRESS_SPACE
    ensures |r| == ADDRESS_SPACE
  {
    if placed == [] then status
    else var n := |placed| - 1;
         Fill(ProtectAll(status, placed[..n]), placed[n].start, placed[n].end, Mapped(placed[n].segment.permission))
  }

  /** The memory after a load. */
  ghost function LoadedSpace(s: Space, placed: seq<Placed>, image: seq<u8>): (t: Space)
    requires WellFormed(s) && GoodPlacement(s.pageSize, image, placed)
    ensures |t.status| == |t.bytes| == ADDRESS_SPACE && t.pageSize == s.pageSize
  {
    Space(s.pageSize, ProtectAll(MapAll(s.status, placed), placed), CopyAll(s.bytes, placed, image))
  }

  lemma {:induction false} MapAllAt(status: seq<PageState>, placed: seq<Placed>, a: nat)
    requires |status| == ADDRESS_SPACE && forall k :: 0 <= k < |placed| ==> placed[k].start <= placed[k].end <= ADDRESS_SPACE
    requires a < ADDRESS_SPACE
    ensures (exists k :: 0 <= k < |placed| && Inside(placed[k], a)) ==> MapAll(status, placed)[a] == Mapped(READ_WRITE)
    ensures (forall k :: 0 <= k < |placed| ==> !Inside(placed[k], a)) ==> MapAll(status, placed)[a] == status[a]
  {
    if placed != [] {
      var n := |placed| - 1;
      MapAllAt(status, placed[..n], a);
      assert forall k :: 0 <= k < n ==> placed[..n][k] == placed[k];
    }
  }

  lemma {:induction false} ProtectAllOutside(status: seq<PageState>, placed: seq<Placed>, a: nat)
    requires |status| == ADDRESS_SPACE && forall k :: 0 <= k < |placed| ==> placed[k].start <= placed[k].end <= ADDRESS_SPACE
    requires a < ADDRESS_SPACE && forall k :: 0 <= k < |placed| ==> !Inside(placed[k], a)
    ensures ProtectAll(status, placed)[a] == status[a]
  {
    if placed != [] { ProtectAllOutside(status, placed[..|placed| - 1], a); }
  }

  lemma {:induction false} ProtectAllInside(status: seq<PageState>, placed: seq<Placed>, k: nat, a: nat)
    requires |status| == ADDRESS_SPACE && forall k :: 0 <= k < |placed| ==> placed[k].start <= placed[k].end <= ADDRESS_SPACE
    requires forall i, j, b :: 0 <= i < j < |placed| && Inside(placed[i], b) ==> !Inside(placed[j], b)
    requires k < |placed| && Inside(placed[k], a) && a < ADDRESS_SPACE
    ensures ProtectAll(status, placed)[a] == Mapped(placed[k].segment.permission)
  {
    var n := |placed| - 1;
    if k < n {
      assert placed[..n][k] == placed[k];
      ProtectAllInside(status, placed[..n], k, a);
    }
  }

  lemma {:induction false} CopyAllOutside(bytes: seq<u8>, placed: seq<Placed>, image: seq<u8>, a: nat)
    requires |bytes| == ADDRESS_SPACE && a < ADDRESS_SPACE
    requires forall k :: 0 <= k < |placed| ==>
                           placed[k].segment.offset + placed[k].segment.filesz <= |image|
                           && placed[k].guest + placed[k].segment.filesz <= ADDRESS_SPACE
    requires forall k :: 0 <= k < |placed| ==> !(placed[k].guest <= a < placed[k].guest + placed[k].segment.filesz)
    ensures CopyAll(bytes, placed, image)[a] == bytes[a]
  {
    if placed != [] { CopyAllOutside(bytes, placed[..|placed| - 1], image, a); }
  }

  /** Each placed segment is good, and so is the list without its last. */
  lemma {:induction false} PlacementParts(ps: nat, image: seq<u8>, placed: seq<Placed>, k: nat)
    requires ps > 0 && GoodPlacement(ps, image, placed) && k < |placed|
    ensures var n := |placed| - 1;
            GoodPlaced(ps, image, placed[k]) && GoodPlaced(ps, image, placed[n]) && GoodPlacement(ps, image, placed[..n])
    ensures forall j :: 0 <= j < |placed| ==> GoodPlaced(ps, image, placed[j])
  {
    hide GoodPlaced;
  }

  /** An address of an earlier segment is not one of the last. */
  lemma {:induction false} PlacementApart(ps: nat, image: seq<u8>, placed: seq<Placed>, k: nat, a: nat)
    requires ps > 0 && GoodPlacement(ps, image, placed) && k < |placed| - 1
    requires placed[k].guest <= a < placed[k].guest + placed[k].segment.filesz
    ensures !Inside(placed[|placed| - 1], a)
  {
    hide Rem;
    assert GoodPlaced(ps, image, placed[k]);
    assert Inside(placed[k], a);
  }

  lemma {:induction false} CopyAllInside(ps: nat, bytes: seq<u8>, placed: seq<Placed>, image: seq<u8>, k: nat, a: nat)
    requires ps > 0 && |bytes| == ADDRESS_SPACE && GoodPlacement(ps, image, placed) && k < |placed|
    requires placed[k].guest <= a < placed[k].guest + placed[k].segment.filesz
    ensures a < ADDRESS_SPACE
    ensures CopyAll(bytes, placed, image)[a] == image[placed[k].segment.offset + (a - placed[k].guest)]
  {
    hide Rem, GoodPlacement;
    var n := |placed| - 1;
    PlacementParts(ps, image, placed, k);
    if k < n {
      assert placed[..n][k] == placed[k];
      PlacementApart(ps, image, placed, k, a);
      CopyAllInside(ps, bytes, placed[..n], image, k, a);
    } else {
      assert FileBytes(image, placed[k])[a - placed[k].guest] == image[placed[k].segment.offset + (a - placed[k].guest)];
    }
  }

  /** Exactly what a load leaves behind: each segment's pages carry its permission and
      hold its file bytes, then zeros; every other address is untouched. */
  lemma {:induction false} LoadedSpaceMeaning(s: Space, placed: seq<Placed>, image: seq<u8>, a: nat)
    requires WellFormed(s) && GoodPlacement(s.pageSize, image, placed) && a < ADDRESS_SPACE
    requires forall k :: 0 <= k < |placed| ==> AllUnmapped(s, placed[k].start, placed[k].end)
    ensures var t := LoadedSpace(s, placed, image);
            && ((forall k :: 0 <= k < |placed| ==> !Inside(placed[k], a)) ==> t.status[a] == s.status[a] && t.bytes[a] == s.bytes[a])
            && (forall k :: 0 <= k < |placed| && Inside(placed[k], a) ==>
                  && t.status[a] == Mapped(placed[k].segment.permission)
                  && t.bytes[a] == (if placed[k].guest <= a < placed[k].guest + placed[k].segment.filesz
                                    then image[placed[k].segment.offset + (a - placed[k].guest)] else 0))
  {
    var t := LoadedSpace(s, placed, image);
    if forall k :: 0 <= k < |placed| ==> !Inside(placed[k], a) {
      MapAllAt(s.status, placed, a);
      ProtectAllOutside(MapAll(s.status, placed), placed, a);
      CopyAllOutside(s.bytes, placed, image, a);
    }
    forall k | 0 <= k < |placed| && Inside(placed[k], a)
      ensures t.status[a] == Mapped(placed[k].segment.permission)
      ensures t.bytes[a] == if placed[k].guest <= a < placed[k].guest + placed[k].segment.filesz
                            then image[placed[k].segment.offset + (a - placed[k].guest)] else 0
    {
      ProtectAllInside(MapAll(s.status, placed), placed, k, a);
      if placed[k].guest <= a < placed[k].guest + placed[k].segment.filesz {
        CopyAllInside(s.pageSize, s.bytes, placed, image, k, a);
      } else {
        OnlyOwner(s.pageSize, image, placed, k, a);
        CopyAllOutside(s.bytes, placed, image, a);
      }
    }
  }

  /** Only the segment that owns a page can write file bytes there. */
  lemma {:induction false} OnlyOwner(ps: nat, image: seq<u8>, placed: seq<Placed>, k: nat, a: nat)
    requires ps > 0 && GoodPlacement(ps, image, placed) && k < |placed| && Inside(placed[k], a)
    ensures forall i :: 0 <= i < |placed| && i != k ==>
                          !(placed[i].guest <= a < placed[i].guest + placed[i].segment.filesz)
  {
    forall i | 0 <= i < |placed| && i != k ensures !(placed[i].guest <= a < placed[i].guest + placed[i].segment.filesz) {
      assert GoodPlaced(ps, image, placed[i]);
      assert !Inside(placed[i], a);
    }
  }

  // ------------------------------------------------------------------- the layout

  function PlacedAll(ss: seq<Segment>, bias: u32): (r: seq<Placed>)
    ensures forall p :: p in r ==> p.segment in ss && p.segment.memsz != 0 && p == At(p.segment, bias)
    ensures forall s :: s in ss && s.memsz != 0 ==> At(s, bias) in r
  {
    if ss == [] then []
    else (if ss[0].memsz != 0 then [At(ss[0], bias)] else []) + PlacedAll(ss[1..], bias)
  }

  lemma {:induction false} PlaceSegmentsTotal(ps: nat, image: seq<u8>, bias: u32, ss: seq<Segment>, done: seq<Placed>)
    requires ps > 0 && GoodSegments(ps, image, ss)
    requires forall k :: 0 <= k < |ss| && ss[k].memsz != 0 ==> ss[k].mapEnd + bias <= ADDRESS_SPACE
    ensures PlaceSegments(ss, bias, done) == Ok(done + PlacedAll(ss, bias))
  {
    if ss == [] {
      assert done + [] == done;
    } else {
      var s := ss[0];
      assert GoodSegment(ps, image, s);
      if s.memsz == 0 {
        PlaceSegmentsTotal(ps, image, bias, ss[1..], done);
        assert [] + PlacedAll(ss[1..], bias) == PlacedAll(ss[1..], bias);
      } else {
        PlaceSegmentsTotal(ps, image, bias, ss[1..], done + [At(s, bias)]);
        assert done + [At(s, bias)] + PlacedAll(ss[1..], bias) == done + ([At(s, bias)] + PlacedAll(ss[1..], bias));
      }
    }
  }

  lemma {:induction false} PlacedAllGood(ps: nat, image: seq<u8>, bias: u32, ss: seq<Segment>)
    requires ps > 0 && GoodSegments(ps, image, ss) && DisjointSegments(ss) && Rem(bias, ps) == 0
    requires forall k :: 0 <= k < |ss| && ss[k].memsz != 0 ==> ss[k].mapEnd + bias <= ADDRESS_SPACE
    ensures GoodPlacement(ps, image, PlacedAll(ss, bias))
  {
    hide Rem, IsPowerOfTwo;
    if ss != [] {
      TailDisjoint(ss);
      PlacedAllGood(ps, image, bias, ss[1..]);
      if ss[0].memsz != 0 {
        assert GoodSegment(ps, image, ss[0]);
        AtGood(ps, image, ss[0], bias);
        HeadApart(ss, bias);
        ConsPlacement(ps, image, At(ss[0], bias), PlacedAll(ss[1..], bias));
      }
    }
  }

  lemma {:induction false} TailDisjoint(ss: seq<Segment>)
    requires DisjointSegments(ss) && ss != []
    ensures DisjointSegments(ss[1..])
  {
    var t := ss[1..];
    forall i, j | 0 <= i < j < |t| && t[i].memsz != 0 && t[j].memsz != 0 ensures !Overlap(t[i], t[j]) {
      assert t[i] == ss[i + 1] && t[j] == ss[j + 1];
    }
  }

  lemma {:induction false} HeadApart(ss: seq<Segment>, bias: u32)
    requires DisjointSegments(ss) && ss != [] && ss[0].memsz != 0
    ensures forall p, a :: p in PlacedAll(ss[1..], bias) && Inside(At(ss[0], bias), a) ==> !Inside(p, a)
  {
    forall p, a | p in PlacedAll(ss[1..], bias) && Inside(At(ss[0], bias), a) ensures !Inside(p, a) {
      var i :| 0 <= i < |ss[1..]| && ss[1..][i] == p.segment;
      assert ss[1 + i] == p.segment && p == At(p.segment, bias);
      assert !Overlap(ss[0], ss[1 + i]);
    }
  }

  lemma {:induction false} ConsPlacement(ps: nat, image: seq<u8>, p: Placed, rest: seq<Placed>)
    requires ps > 0 && GoodPlaced(ps, image, p) && GoodPlacement(ps, image, rest)
    requires forall q, a :: q in rest && Inside(p, a) ==> !Inside(q, a)
    ensures GoodPlacement(ps, image, [p] + rest)
  {
    hide Rem;
    var all := [p] + rest;
    assert forall k :: 0 < k < |all| ==> all[k] == rest[k - 1] && all[k] in rest;
  }

  lemma {:induction false} AtGood(ps: nat, image: seq<u8>, s: Segment, bias: u32)
    requires ps > 0 && GoodSegment(ps, image, s) && s.memsz != 0 && Rem(bias, ps) == 0
    requires s.mapEnd + bias <= ADDRESS_SPACE
    ensures GoodPlaced(ps, image, At(s, bias))
  {
    Shifted(ps, s.mapStart, s.mapEnd, bias);
  }

  lemma {:induction false} Shifted(ps: nat, lo: nat, hi: nat, bias: nat)
    requires ps > 0 && Rem(bias, ps) == 0 && Rem(lo, ps) == 0 && Rem(hi, ps) == 0
    ensures Rem(lo + bias, ps) == 0 && Rem(hi + bias, ps) == 0
  {
    RemAdd(bias, lo, ps);
    RemAdd(bias, hi, ps);
    assert bias + lo == lo + bias && bias + hi == hi + bias;
  }

  lemma {:induction false} PlaceRelrosTotal(bias: u32, rs: seq<Relro>, done: seq<LoadedRelro>)
    requires forall k :: 0 <= k < |rs| ==> RelroFits(rs[k], bias)
    ensures PlaceRelros(rs, bias, done) == Ok(done + RelrosAt(rs, bias))
  {
    if rs == [] {
      assert done + [] == done;
    } else {
      var r := RelroAt(rs[0], bias);
      PlaceRelrosTotal(bias, rs[1..], done + [r]);
      assert done + [r] + RelrosAt(rs[1..], bias) == done + ([r] + RelrosAt(rs[1..], bias));
    }
  }

  predicate RelroFits(r: Relro, bias: u32) {
    r.mapStart <= r.vaddr < r.mapEnd && r.mapEnd + bias <= ADDRESS_SPACE
  }

  function RelroAt(r: Relro, bias: u32): LoadedRelro
    requires RelroFits(r, bias)
  {
    LoadedRelro(r.vaddr + bias, r.memsz, r.mapStart + bias, r.mapEnd - r.mapStart)
  }

  function RelrosAt(rs: seq<Relro>, bias: u32): (r: seq<LoadedRelro>)
    requires forall k :: 0 <= k < |rs| ==> RelroFits(rs[k], bias)
    ensures |r| == |rs| && forall k :: 0 <= k < |rs| ==> r[k] == RelroAt(rs[k], bias)
  {
    if rs == [] then [] else [RelroAt(rs[0], bias)] + RelrosAt(rs[1..], bias)
  }

  /** With a good plan the only layout errors are a bad base and an entry that leaves the
      address space; a layout keeps every segment at bias plus its own address. */
  lemma {:induction false} LayoutSound(ps: nat, image: seq<u8>, plan: Plan, base: Option<u32>)
    requires ValidPageSize(ps) && GoodPlan(ps, image, plan)
    ensures var r := LayoutOf(ps, plan, base);
            if BiasOf(ps, plan, base).Err? then r == Err(BiasOf(ps, plan, base).error)
            else var bias := BiasOf(ps, plan, base).value;
                 && (plan.entry != 0 && plan.entry + bias >= ADDRESS_SPACE <==> r.Err?)
                 && (r.Err? ==> r.error == EntryAddressOverflow)
                 && (r.Ok? ==> GoodLayout(ps, image, plan, r.value) && r.value.bias == bias)
  {
    if BiasOf(ps, plan, base).Ok? {
      BiasFits(ps, image, plan, base);
      PlacementsSound(ps, image, plan, BiasOf(ps, plan, base).value);
    }
  }

  /** Once the bias keeps the span inside the address space, every range can be placed. */
  lemma {:induction false} PlacementsSound(ps: nat, image: seq<u8>, plan: Plan, bias: u32)
    requires ValidPageSize(ps) && GoodPlan(ps, image, plan)
    requires Rem(bias, ps) == 0 && plan.maxPageEnd + bias <= ADDRESS_SPACE
    ensures PlaceDynamicRange(plan, bias).Ok? && PlaceRelros(plan.relros, bias, []).Ok?
    ensures PlaceSegments(plan.segments, bias, []).Ok?
    ensures forall entry :: GoodLayout(ps, image, plan, Layout(bias, entry, PlaceDynamicRange(plan, bias).value,
              PlaceRelros(plan.relros, bias, []).value, PlaceSegments(plan.segments, bias, []).value))
  {
    hide Rem, IsPowerOfTwo, GoodPlan, GoodPlacement, RelroFits, PlacedAll, PlaceSegments, PlaceRelros;
    SegmentsPlaced(ps, image, plan, bias);
    RelrosFit(ps, image, plan, bias);
    PlaceRelrosTotal(bias, plan.relros, []);
    DynamicFits(ps, image, plan, bias);
    assert [] + RelrosAt(plan.relros, bias) == RelrosAt(plan.relros, bias);
  }

  lemma {:induction false} SegmentsPlaced(ps: nat, image: seq<u8>, plan: Plan, bias: u32)
    requires ValidPageSize(ps) && GoodPlan(ps, image, plan)
    requires Rem(bias, ps) == 0 && plan.maxPageEnd + bias <= ADDRESS_SPACE
    ensures PlaceSegments(plan.segments, bias, []) == Ok(PlacedAll(plan.segments, bias))
    ensures GoodPlacement(ps, image, PlacedAll(plan.segments, bias))
  {
    hide Rem, IsPowerOfTwo;
    assert forall k :: 0 <= k < |plan.segments| ==> Covered(plan, plan.segments[k]);
    PlaceSegmentsTotal(ps, image, bias, plan.segments, []);
    PlacedAllGood(ps, image, bias, plan.segments);
    assert [] + PlacedAll(plan.segments, bias) == PlacedAll(plan.segments, bias);
  }

  /** The layout of a good plan: every range shifted by the same bias. */
  ghost predicate GoodLayout(ps: nat, image: seq<u8>, plan: Plan, l: Layout)
    requires ps > 0
  {
    && Rem(l.bias, ps) == 0 && plan.maxPageEnd + l.bias <= ADDRESS_SPACE
    && l.placed == PlacedAll(plan.segments, l.bias) && GoodPlacement(ps, image, l.placed)
    && (forall k :: 0 <= k < |plan.relros| ==> RelroFits(plan.relros[k], l.bias))
    && l.relros == RelrosAt(plan.relros, l.bias)
    && (plan.dynamicRange.Some? == l.dynamicSegment.Some?)
    && (plan.dynamicRange.Some? ==>
          var d, e := plan.dynamicRange.value, l.dynamicSegment.value;
          e.guest == d.vaddr + l.bias && e.filesz == d.filesz && e.memsz == d.memsz)
  }

  lemma {:induction false} BiasFits(ps: nat, image: seq<u8>, plan: Plan, base: Option<u32>)
    requires ValidPageSize(ps) && GoodPlan(ps, image, plan) && BiasOf(ps, plan, base).Ok?
    ensures var bias := BiasOf(ps, plan, base).value;
            Rem(bias, ps) == 0 && plan.maxPageEnd + bias <= ADDRESS_SPACE
  {
    if plan.imageType.Dynamic? {
      RemSub(plan.minPage, base.value, ps);
    }
  }

  lemma {:induction false} RelrosFit(ps: nat, image: seq<u8>, plan: Plan, bias: u32)
    requires ValidPageSize(ps) && GoodPlan(ps, image, plan) && plan.maxPageEnd + bias <= ADDRESS_SPACE
    ensures forall k :: 0 <= k < |plan.relros| ==> RelroFits(plan.relros[k], bias)
  {
    forall k | 0 <= k < |plan.relros| ensures RelroFits(plan.relros[k], bias) {
      var r := plan.relros[k];
      assert GoodRelro(ps, r);
      assert ReadableAt(plan.segments, r.mapEnd - 1);
      var s :| s in plan.segments && s.memsz != 0 && s.mapStart <= r.mapEnd - 1 < s.mapEnd;
      var i :| 0 <= i < |plan.segments| && plan.segments[i] == s;
      assert Covered(plan, plan.segments[i]);
    }
  }

  lemma {:induction false} DynamicFits(ps: nat, image: seq<u8>, plan: Plan, bias: u32)
    requires ValidPageSize(ps) && GoodPlan(ps, image, plan) && plan.maxPageEnd + bias <= ADDRESS_SPACE
    ensures PlaceDynamicRange(plan, bias).Ok?
  {
    if plan.dynamicRange.Some? {
      var d := plan.dynamicRange.value;
      var s :| s in plan.segments && HoldsDynamic(s, d);
      var i :| 0 <= i < |plan.segments| && plan.segments[i] == s;
      assert Covered(plan, plan.segments[i]) && GoodSegment(ps, image, plan.segments[i]);
    }
  }
}

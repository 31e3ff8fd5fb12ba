/** Validation of an ELF image and its load plan (src/elf/loading/elf32_load_plan.cpp). */
module LoadPlans {
  import opened SortedLists
  import opened Words
  import opened AddressSpaces

  datatype LoadError =
    | TruncatedHeader | BadMagic | UnsupportedClass | UnsupportedEndian | UnsupportedIdentVersion
    | UnsupportedElfVersion | UnsupportedType | UnsupportedMachine | InvalidHeaderSize
    | InvalidProgramHeaderSize | ProgramHeaderTableOutOfBounds | NoLoadSegments
    | SegmentFileszExceedsMemsz | SegmentFileOutOfBounds | SegmentAddressOverflow
    | SegmentAlignmentInvalid | UnsupportedSegmentPermissions | DynamicBaseRequired
    | DynamicBaseUnaligned | LoadBiasOverflow | EntryAddressOverflow | MultipleDynamicSegments
    | DynamicSegmentEmpty | DynamicSegmentFileszExceedsMemsz | DynamicSegmentFileOutOfBounds
    | DynamicSegmentAddressOverflow | DynamicSegmentOutsideLoad | DynamicSegmentNotReadable
    | DynamicSegmentFileMappingMismatch | RelroSegmentEmpty | RelroSegmentAddressOverflow
    | RelroSegmentOutsideLoad | RelroSegmentNotReadable | SegmentPageOverlap | AddressConflict
    | MapFailed | WriteFailed | ProtectFailed

  datatype ImageType = Executable | Dynamic

  datatype Header = Header(imageType: ImageType, entry: u32, tableOffset: u32, count: u16)

  datatype Segment = Segment(offset: u32, vaddr: u32, filesz: u32, memsz: u32, alignment: u32,
                             permission: Permission, mapStart: nat, mapEnd: nat)

  datatype DynamicRange = DynamicRange(offset: u32, vaddr: u32, filesz: u32, memsz: u32)

  datatype Relro = Relro(vaddr: u32, memsz: u32, mapStart: nat, mapEnd: nat)

  datatype Plan = Plan(imageType: ImageType, entry: u32, minPage: nat, maxPageEnd: nat, biasAlignment: nat,
                       segments: seq<Segment>, dynamicRange: Option<DynamicRange>, relros: seq<Relro>)

  const PT_LOAD: u32 := 1
  const PT_DYNAMIC: u32 := 2
  const PT_GNU_RELRO: u32 := 0x6474e552

  function AlignDown(v: nat, ps: nat): nat
    requires ps > 0
  {
    v - Rem(v, ps)
  }

  function AlignUp(v: nat, ps: nat): Option<nat>
    requires ps > 0
  {
    var r := Rem(v, ps);
    if r == 0 then
      if v <= ADDRESS_SPACE then Some(v) else None
    else if v > ADDRESS_SPACE - (ps - r) then None
    else Some(v + (ps - r))
  }

  /** Page sizes divide the address space, so rounding up inside it cannot fail. */
  lemma {:induction false} AlignUpTotal(v: nat, ps: nat)
    requires ValidPageSize(ps) && v <= ADDRESS_SPACE
    ensures AlignUp(v, ps).Some?
    ensures var e := AlignUp(v, ps).value; v <= e <= ADDRESS_SPACE && e < v + ps && Rem(e, ps) == 0
  {
    var r := Rem(v, ps);
    RoundDown(v, ps);
    if r != 0 {
      AlignedGap(v - r, ADDRESS_SPACE, ps);
      RemAdd(v - r, ps, ps);
    }
  }

  function DecodePermissions(flags: u32): Option<Permission> {
    var r, w, x := flags / 4 % 2 == 1, flags / 2 % 2 == 1, flags % 2 == 1;
    if (!r && (w || x)) || (w && x) then None else Some(Permission(r, w, x))
  }

  /** The checks on the ELF header, in order. */
  function HeaderOf(image: seq<u8>): (r: Result<Header, LoadError>)
    ensures r.Ok? ==> r.value.tableOffset + 32 * r.value.count <= |image|
  {
    if |image| < 52 then Err(TruncatedHeader)
    else if image[..4] != [0x7f, 0x45, 0x4c, 0x46] then Err(BadMagic)
    else if image[4] != 1 then Err(UnsupportedClass)
    else if image[5] != 1 then Err(UnsupportedEndian)
    else if image[6] != 1 then Err(UnsupportedIdentVersion)
    else if DecodeU32(image, 20) != 1 then Err(UnsupportedElfVersion)
    else if DecodeU16(image, 16) != 3 && DecodeU16(image, 16) != 2 then Err(UnsupportedType)
    else if DecodeU16(image, 18) != 40 then Err(UnsupportedMachine)
    else if DecodeU16(image, 40) != 52 then Err(InvalidHeaderSize)
    else if DecodeU16(image, 42) != 32 then Err(InvalidProgramHeaderSize)
    else if DecodeU32(image, 28) + 32 * (DecodeU16(image, 44) as int) > |image| then Err(ProgramHeaderTableOutOfBounds)
    else Ok(Header(if DecodeU16(image, 16) == 3 then Dynamic else Executable,
                   DecodeU32(image, 24), DecodeU32(image, 28), DecodeU16(image, 44)))
  }

  function DynamicOf(image: seq<u8>, at: nat): Result<DynamicRange, LoadError>
    requires at + 32 <= |image|
  {
    var d := DynamicRange(DecodeU32(image, at + 4), DecodeU32(image, at + 8),
                          DecodeU32(image, at + 16), DecodeU32(image, at + 20));
    if d.memsz == 0 then Err(DynamicSegmentEmpty)
    else if d.filesz > d.memsz then Err(DynamicSegmentFileszExceedsMemsz)
    else if d.offset + d.filesz > |image| then Err(DynamicSegmentFileOutOfBounds)
    else if d.vaddr + d.memsz > ADDRESS_SPACE then Err(DynamicSegmentAddressOverflow)
    else Ok(d)
  }

  function RelroOf(ps: nat, image: seq<u8>, at: nat): Result<Relro, LoadError>
    requires ps > 0 && at + 32 <= |image|
  {
    var vaddr, memsz := DecodeU32(image, at + 8), DecodeU32(image, at + 20);
    if memsz == 0 then Err(RelroSegmentEmpty)
    else if vaddr + memsz > ADDRESS_SPACE then Err(RelroSegmentAddressOverflow)
    else match AlignUp(vaddr + memsz, ps)
         case None => Err(RelroSegmentAddressOverflow)
         case Some(end) => Ok(Relro(vaddr, memsz, AlignDown(vaddr, ps), end))
  }

  function SegmentOf(ps: nat, image: seq<u8>, at: nat): Result<Segment, LoadError>
    requires ps > 0 && at + 32 <= |image|
  {
    var offset, vaddr, filesz := DecodeU32(image, at + 4), DecodeU32(image, at + 8), DecodeU32(image, at + 16);
    var memsz, flags, alignment := DecodeU32(image, at + 20), DecodeU32(image, at + 24), DecodeU32(image, at + 28);
    if filesz > memsz then Err(SegmentFileszExceedsMemsz)
    else if offset + filesz > |image| then Err(SegmentFileOutOfBounds)
    else if vaddr + memsz > ADDRESS_SPACE then Err(SegmentAddressOverflow)
    else if alignment > 1 && (!IsPowerOfTwo(alignment) || Rem(vaddr, alignment) != Rem(offset, alignment)) then
      Err(SegmentAlignmentInvalid)
    else match DecodePermissions(flags)
         case None => Err(UnsupportedSegmentPermissions)
         case Some(p) =>
           if memsz == 0 then Ok(Segment(offset, vaddr, filesz, memsz, alignment, p, 0, 0))
           else match AlignUp(vaddr + memsz, ps)
                case None => Err(SegmentAddressOverflow)
                case Some(end) =>
                  Ok(Segment(offset, vaddr, filesz, memsz, alignment, p, AlignDown(vaddr, ps), end))
  }

  function AddSegment(plan: Plan, s: Segment): Plan {
    var aligned := if s.alignment > 1 then plan.(biasAlignment := Max(plan.biasAlignment, s.alignment)) else plan;
    var spanned := if s.memsz != 0 then aligned.(minPage := Min(plan.minPage, s.mapStart),
                                                 maxPageEnd := Max(plan.maxPageEnd, s.mapEnd)) else aligned;
    spanned.(segments := plan.segments + [s])
  }

  /** The effect of one program header on the plan. */
  function PlanHeader(ps: nat, image: seq<u8>, at: nat, plan: Plan): Result<Plan, LoadError>
    requires ps > 0 && at + 32 <= |image|
  {
    var kind := DecodeU32(image, at);
    if kind == PT_DYNAMIC then
      if plan.dynamicRange.Some? then Err(MultipleDynamicSegments)
      else match DynamicOf(image, at)
           case Err(e) => Err(e)
           case Ok(d) => Ok(plan.(dynamicRange := Some(d)))
    else if kind == PT_GNU_RELRO then
      match RelroOf(ps, image, at)
      case Err(e) => Err(e)
      case Ok(r) => Ok(plan.(relros := plan.relros + [r]))
    else if kind == PT_LOAD then
      match SegmentOf(ps, image, at)
      case Err(e) => Err(e)
      case Ok(s) => Ok(AddSegment(plan, s))
    else Ok(plan)
  }

  function PlanHeaders(ps: nat, image: seq<u8>, h: Header, index: nat, plan: Plan): Result<Plan, LoadError>
    requires ps > 0 && h.tableOffset + 32 * h.count <= |image| && index <= h.count
    decreases h.count - index
  {
    if index == h.count then Ok(plan)
    else match PlanHeader(ps, image, h.tableOffset + 32 * index, plan)
         case Err(e) => Err(e)
         case Ok(p) => PlanHeaders(ps, image, h, index + 1, p)
  }

  function EmptyPlan(h: Header): Plan {
    Plan(h.imageType, h.entry, ADDRESS_SPACE, 0, 1, [], None, [])
  }

  predicate Encloses(s: Segment, lo: int, hi: int) {
    s.memsz != 0 && s.vaddr <= lo && hi <= s.vaddr + s.memsz
  }

  /** The first readable segment from `i` on that contains the range. */
  function ReadableLoad(segments: seq<Segment>, lo: int, hi: int, i: nat): (r: Option<Segment>)
    requires i <= |segments|
    ensures r.Some? ==> r.value in segments && Encloses(r.value, lo, hi) && r.value.permission.read
    ensures r.None? ==> forall k :: i <= k < |segments| && Encloses(segments[k], lo, hi) ==> !segments[k].permission.read
    decreases |segments| - i
  {
    if i == |segments| then None
    else if Encloses(segments[i], lo, hi) && segments[i].permission.read then Some(segments[i])
    else ReadableLoad(segments, lo, hi, i + 1)
  }

  function DynamicProblem(plan: Plan): Option<LoadError> {
    if plan.dynamicRange.None? then None else
    var d := plan.dynamicRange.value;
    var lo, hi := d.vaddr, d.vaddr + d.memsz;
    if forall k :: 0 <= k < |plan.segments| ==> !Encloses(plan.segments[k], lo, hi) then Some(DynamicSegmentOutsideLoad)
    else match ReadableLoad(plan.segments, lo, hi, 0)
         case None => Some(DynamicSegmentNotReadable)
         case Some(s) => if d.filesz != 0 && !FileMapped(d, s) then Some(DynamicSegmentFileMappingMismatch) else None
  }

  /** The dynamic bytes are the bytes the segment maps at that address. */
  predicate FileMapped(d: DynamicRange, s: Segment) {
    var delta := d.vaddr - s.vaddr;
    delta <= s.filesz && d.filesz <= s.filesz - delta && s.offset + delta == d.offset
  }

  predicate Overlap(a: Segment, b: Segment) {
    a.mapStart < b.mapEnd && b.mapStart < a.mapEnd
  }

  /** No page belongs to two non-empty segments. */
  ghost predicate DisjointSegments(segments: seq<Segment>) {
    forall i, j :: 0 <= i < j < |segments| && segments[i].memsz != 0 && segments[j].memsz != 0 ==>
                     !Overlap(segments[i], segments[j])
  }

  predicate HoldsPage(s: Segment, page: int, ps: nat) {
    s.memsz != 0 && s.mapStart <= page && page + ps <= s.mapEnd
  }

  function PageLoad(segments: seq<Segment>, page: int, ps: nat, i: nat): (r: Option<Segment>)
    requires i <= |segments|
    ensures r.Some? ==> r.value in segments && HoldsPage(r.value, page, ps)
    decreases |segments| - i
  {
    if i == |segments| then None
    else if HoldsPage(segments[i], page, ps) then Some(segments[i])
    else PageLoad(segments, page, ps, i + 1)
  }

  function RelroPageProblem(segments: seq<Segment>, page: int, ps: nat): Option<LoadError> {
    match PageLoad(segments, page, ps, 0)
    case None => Some(RelroSegmentOutsideLoad)
    case Some(s) => if s.permission.read then None else Some(RelroSegmentNotReadable)
  }

  function RelroProblem(segments: seq<Segment>, page: int, end: int, ps: nat): Option<LoadError>
    requires ps > 0
    decreases end - page
  {
    if page >= end then None
    else match RelroPageProblem(segments, page, ps)
         case Some(e) => Some(e)
         case None => RelroProblem(segments, page + ps, end, ps)
  }

  function RelrosProblem(plan: Plan, ps: nat, i: nat): Option<LoadError>
    requires ps > 0 && i <= |plan.relros|
    decreases |plan.relros| - i
  {
    if i == |plan.relros| then None
    else match RelroProblem(plan.segments, plan.relros[i].mapStart, plan.relros[i].mapEnd, ps)
         case Some(e) => Some(e)
         case None => RelrosProblem(plan, ps, i + 1)
  }

  /** The checks across segments, in order. */
  ghost function CheckedPlan(ps: nat, plan: Plan): Result<Plan, LoadError>
    requires ps > 0
  {
    if plan.segments == [] || plan.minPage == ADDRESS_SPACE then Err(NoLoadSegments)
    else match DynamicProblem(plan)
         case Some(e) => Err(e)
         case None =>
           if !DisjointSegments(plan.segments) then Err(SegmentPageOverlap)
           else match RelrosProblem(plan, ps, 0)
                case Some(e) => Err(e)
                case None => Ok(plan)
  }

  /** The load plan of an image, or the first defect of it. */
  ghost function PlanOf(ps: nat, image: seq<u8>): Result<Plan, LoadError>
    requires ps > 0
  {
    match HeaderOf(image)
    case Err(e) => Err(e)
    case Ok(h) =>
      match PlanHeaders(ps, image, h, 0, EmptyPlan(h))
      case Err(e) => Err(e)
      case Ok(plan) => CheckedPlan(ps, plan)
  }

  // ------------------------------------------------------------------ the planner

  method PlanLoad(ps: nat, image: seq<u8>) returns (r: Result<Plan, LoadError>)
    requires ValidPageSize(ps)
    ensures r == PlanOf(ps, image)
  {
    var header := HeaderOf(image);
    if header.Err? {
      return Err(header.error);
    }
    var planned := PlanTable(ps, image, header.value);
    if planned.Err? {
      return planned;
    }
    var plan := planned.value;
    if plan.segments == [] || plan.minPage == ADDRESS_SPACE {
      return Err(NoLoadSegments);
    }
    var dynamicProblem := CheckDynamic(plan);
    if dynamicProblem.Some? {
      return Err(dynamicProblem.value);
    }
    var disjoint := CheckDisjoint(plan.segments);
    if !disjoint {
      return Err(SegmentPageOverlap);
    }
    var relroProblem := CheckRelros(plan, ps);
    if relroProblem.Some? {
      return Err(relroProblem.value);
    }
    return Ok(plan);
  }

  /** The loop over the program headers. */
  method PlanTable(ps: nat, image: seq<u8>, h: Header) returns (r: Result<Plan, LoadError>)
    requires ValidPageSize(ps) && h.tableOffset + 32 * h.count <= |image|
    ensures r == PlanHeaders(ps, image, h, 0, EmptyPlan(h))
    ensures r.Ok? ==> GoodScan(ps, image, r.value)
  {
    var plan := EmptyPlan(h);
    PlanHeadersGood(ps, image, h, 0, plan);
    var index := 0;
    while index < h.count
      invariant 0 <= index <= h.count
      invariant PlanHeaders(ps, image, h, index, plan) == PlanHeaders(ps, image, h, 0, EmptyPlan(h))
    {
      var step := PlanHeader(ps, image, h.tableOffset + 32 * index, plan);
      if step.Err? {
        return Err(step.error);
      }
      plan := step.value;
      index := index + 1;
    }
    return Ok(plan);
  }

  /** The loop over the pages of every PT_GNU_RELRO range. */
  method CheckRelros(plan: Plan, ps: nat) returns (r: Option<LoadError>)
    requires ps > 0
    ensures r == RelrosProblem(plan, ps, 0)
  {
    var i := 0;
    while i < |plan.relros|
      invariant 0 <= i <= |plan.relros|
      invariant RelrosProblem(plan, ps, i) == RelrosProblem(plan, ps, 0)
    {
      var page, end := plan.relros[i].mapStart, plan.relros[i].mapEnd;
      while page < end
        invariant RelroProblem(plan.segments, page, end, ps)
                  == RelroProblem(plan.segments, plan.relros[i].mapStart, end, ps)
      {
        var problem := RelroPageProblem(plan.segments, page, ps);
        if problem.Some? {
          return problem;
        }
        page := page + ps;
      }
      i := i + 1;
    }
    return None;
  }

  /** The search for the segment holding PT_DYNAMIC. */
  method CheckDynamic(plan: Plan) returns (r: Option<LoadError>)
    ensures r == DynamicProblem(plan)
  {
    if plan.dynamicRange.None? {
      return None;
    }
    var d := plan.dynamicRange.value;
    var lo, hi := d.vaddr, d.vaddr + d.memsz;
    var contained := false;
    var load: Option<Segment> := None;
    var i := 0;
    while i < |plan.segments| && load.None?
      invariant 0 <= i <= |plan.segments|
      invariant contained <==> exists k :: 0 <= k < i && Encloses(plan.segments[k], lo, hi)
      invariant load.None? ==> ReadableLoad(plan.segments, lo, hi, i) == ReadableLoad(plan.segments, lo, hi, 0)
      invariant load.Some? ==> contained && load == ReadableLoad(plan.segments, lo, hi, 0)
    {
      if Encloses(plan.segments[i], lo, hi) {
        contained := true;
        if plan.segments[i].permission.read {
          load := Some(plan.segments[i]);
        }
      }
      i := i + 1;
    }
    if !contained {
      return Some(DynamicSegmentOutsideLoad);
    }
    if load.None? {
      return Some(DynamicSegmentNotReadable);
    }
    if d.filesz != 0 && !FileMapped(d, load.value) {
      return Some(DynamicSegmentFileMappingMismatch);
    }
    return None;
  }

  /** Sorting the non-empty segments by start and comparing neighbours decides
      whether any two segments share a page. */
  method CheckDisjoint(segments: seq<Segment>) returns (ok: bool)
    requires forall k :: 0 <= k < |segments| && segments[k].memsz != 0 ==> segments[k].mapStart < segments[k].mapEnd
    ensures ok == DisjointSegments(segments)
  {
    var order := SortedOrder(segments);
    var index := 1;
    while index < |order|
      invariant 1 <= index
      invariant forall k :: 1 <= k < index && k < |order| ==> Neighbours(segments, order, k)
    {
      if segments[order[index]].mapStart < segments[order[index - 1]].mapEnd {
        NeighbourOverlap(segments, order, index);
        return false;
      }
      index := index + 1;
    }
    NoOverlap(segments, order);
    return true;
  }

  ghost predicate Indices(segments: seq<Segment>, order: seq<nat>) {
    forall k :: 0 <= k < |order| ==> order[k] < |segments|
  }

  /** Entry k of the order starts where entry k - 1 has ended. */
  predicate Neighbours(segments: seq<Segment>, order: seq<nat>, k: nat)
    requires Indices(segments, order) && 1 <= k < |order|
  {
    segments[order[k - 1]].mapEnd <= segments[order[k]].mapStart
  }

  ghost predicate SortedByStart(segments: seq<Segment>, order: seq<nat>)
    requires Indices(segments, order)
  {
    forall x, y :: 0 <= x < y < |order| ==> segments[order[x]].mapStart <= segments[order[y]].mapStart
  }

  /** The order lists the non-empty segments. */
  ghost predicate Lists(segments: seq<Segment>, order: seq<nat>, n: nat)
    requires n <= |segments|
  {
    forall i: nat :: i in order <==> i < n && segments[i].memsz != 0
  }

  lemma {:induction false} NeighbourOverlap(segments: seq<Segment>, order: seq<nat>, index: nat)
    requires Indices(segments, order) && Distinct(order) && SortedByStart(segments, order)
    requires Lists(segments, order, |segments|) && 1 <= index < |order| && !Neighbours(segments, order, index)
    requires segments[order[index]].mapStart < segments[order[index]].mapEnd
    ensures !DisjointSegments(segments)
  {
    var i, j := order[index - 1], order[index];
    assert i in order && j in order;
    assert Overlap(segments[i], segments[j]) && Overlap(segments[j], segments[i]);
  }

  lemma {:induction false} NoOverlap(segments: seq<Segment>, order: seq<nat>)
    requires Indices(segments, order) && Lists(segments, order, |segments|)
    requires forall k :: 0 <= k < |segments| && segments[k].memsz != 0 ==> segments[k].mapStart < segments[k].mapEnd
    requires forall k :: 1 <= k < |order| ==> Neighbours(segments, order, k)
    ensures DisjointSegments(segments)
  {
    forall i, j | 0 <= i < j < |segments| && segments[i].memsz != 0 && segments[j].memsz != 0
      ensures !Overlap(segments[i], segments[j])
    {
      var x :| 0 <= x < |order| && order[x] == i;
      var y :| 0 <= y < |order| && order[y] == j;
      if x < y { ChainOrdered(segments, order, x, y); } else { ChainOrdered(segments, order, y, x); }
    }
  }

  /** When neighbours are disjoint, all earlier ranges end before later ones start. */
  lemma {:induction false} ChainOrdered(segments: seq<Segment>, order: seq<nat>, x: nat, y: nat)
    requires Indices(segments, order) && Lists(segments, order, |segments|) && x < y < |order|
    requires forall k :: 0 <= k < |segments| && segments[k].memsz != 0 ==> segments[k].mapStart < segments[k].mapEnd
    requires forall k :: 1 <= k < |order| ==> Neighbours(segments, order, k)
    ensures segments[order[x]].mapEnd <= segments[order[y]].mapStart
    decreases y - x
  {
    assert Neighbours(segments, order, y);
    if x + 1 < y {
      assert order[y - 1] in order;
      ChainOrdered(segments, order, x, y - 1);
    }
  }

  /** std::sort of the indices of the non-empty segments by mapping start. */
  method SortedOrder(segments: seq<Segment>) returns (order: seq<nat>)
    ensures Indices(segments, order) && Distinct(order) && SortedByStart(segments, order)
    ensures Lists(segments, order, |segments|)
  {
    order := [];
    hide Lists, SortedByStart, Parted, Distinct;
    NothingListed(segments);
    for i := 0 to |segments|
      invariant Indices(segments, order) && Distinct(order) && SortedByStart(segments, order)
      invariant Lists(segments, order, i)
    {
      if segments[i].memsz != 0 {
        var at := InsertionPoint(segments, order, i);
        InsertedOrder(segments, order, at, i);
        order := order[..at] + [i] + order[at..];
      } else {
        SkippedEmpty(segments, order, i);
      }
    }
  }

  lemma {:induction false} NothingListed(segments: seq<Segment>)
    ensures Distinct([]) && SortedByStart(segments, []) && Lists(segments, [], 0)
  {
  }

  lemma {:induction false} SkippedEmpty(segments: seq<Segment>, order: seq<nat>, n: nat)
    requires n < |segments| && segments[n].memsz == 0 && Lists(segments, order, n)
    ensures Lists(segments, order, n + 1)
  {
  }

  /** The lower part starts no later than segment i, the upper part no earlier. */
  ghost predicate Parted(segments: seq<Segment>, order: seq<nat>, at: nat, i: nat)
    requires Indices(segments, order) && at <= |order| && i < |segments|
  {
    && (forall k :: 0 <= k < at ==> segments[order[k]].mapStart <= segments[i].mapStart)
    && (forall k :: at <= k < |order| ==> segments[order[k]].mapStart >= segments[i].mapStart)
  }

  method InsertionPoint(segments: seq<Segment>, order: seq<nat>, i: nat) returns (at: nat)
    requires Indices(segments, order) && SortedByStart(segments, order) && i < |segments|
    ensures at <= |order| && Parted(segments, order, at, i)
  {
    at := |order|;
    while at > 0 && segments[order[at - 1]].mapStart > segments[i].mapStart
      invariant 0 <= at <= |order|
      invariant forall k :: at <= k < |order| ==> segments[order[k]].mapStart >= segments[i].mapStart
    {
      at := at - 1;
    }
  }

  /** One step of the insertion sort. */
  lemma {:induction false} InsertedOrder(segments: seq<Segment>, order: seq<nat>, at: nat, i: nat)
    requires Indices(segments, order) && Distinct(order) && SortedByStart(segments, order)
    requires i < |segments| && segments[i].memsz != 0 && Lists(segments, order, i)
    requires at <= |order| && Parted(segments, order, at, i)
    ensures var r := order[..at] + [i] + order[at..];
            Indices(segments, r) && Distinct(r) && SortedByStart(segments, r) && Lists(segments, r, i + 1)
  {
    hide Lists, SortedByStart, Parted;
    assert i !in order by { NotListed(segments, order, i); }
    InsertAt(order, at, i);
    InsertedIndices(segments, order, at, i);
    InsertedSorted(segments, order, at, i);
    InsertedLists(segments, order, at, i);
  }

  lemma {:induction false} NotListed(segments: seq<Segment>, order: seq<nat>, n: nat)
    requires n < |segments| && Lists(segments, order, n)
    ensures n !in order
  {
  }

  lemma {:induction false} InsertedIndices(segments: seq<Segment>, order: seq<nat>, at: nat, i: nat)
    requires Indices(segments, order) && at <= |order| && i < |segments|
    ensures Indices(segments, order[..at] + [i] + order[at..])
  {
    var r := order[..at] + [i] + order[at..];
    forall k | 0 <= k < |r| ensures r[k] < |segments| {
      if k > at { assert r[k] == order[k - 1]; }
    }
  }

  lemma {:induction false} InsertedSorted(segments: seq<Segment>, order: seq<nat>, at: nat, i: nat)
    requires Indices(segments, order) && SortedByStart(segments, order) && at <= |order| && i < |segments| && Parted(segments, order, at, i)
    requires Indices(segments, order[..at] + [i] + order[at..])
    ensures SortedByStart(segments, order[..at] + [i] + order[at..])
  {
    var r := order[..at] + [i] + order[at..];
    forall x, y | 0 <= x < y < |r| ensures segments[r[x]].mapStart <= segments[r[y]].mapStart {
      if x > at { assert r[x] == order[x - 1]; }
      if y > at { assert r[y] == order[y - 1]; }
    }
  }

  lemma {:induction false} InsertedLists(segments: seq<Segment>, order: seq<nat>, at: nat, i: nat)
    requires i < |segments| && segments[i].memsz != 0 && Lists(segments, order, i) && at <= |order|
    requires forall n: nat :: n in order[..at] + [i] + order[at..] <==> n in order || n == i
    ensures Lists(segments, order[..at] + [i] + order[at..], i + 1)
  {
  }

  lemma {:induction false} InsertAt(order: seq<nat>, at: nat, i: nat)
    requires at <= |order| && Distinct(order) && i !in order
    ensures Distinct(order[..at] + [i] + order[at..])
    ensures forall n: nat :: n in order[..at] + [i] + order[at..] <==> n in order || n == i
  {
    assert order == order[..at] + order[at..];
    var r := order[..at] + [i] + order[at..];
    forall x, y | 0 <= x < y < |r| ensures r[x] != r[y] {
      if x > at { assert r[x] == order[x - 1]; }
      if y > at { assert r[y] == order[y - 1]; }
    }
  }

  // --------------------------------------------------------- what a plan guarantees

  ghost predicate GoodSegment(ps: nat, image: seq<u8>, s: Segment)
    requires ps > 0
  {
    && s.filesz <= s.memsz && s.offset + s.filesz <= |image| && s.vaddr + s.memsz <= ADDRESS_SPACE
    && (s.alignment > 1 ==> IsPowerOfTwo(s.alignment) && Rem(s.vaddr, s.alignment) == Rem(s.offset, s.alignment))
    && ValidPermission(s.permission) && !(s.permission.write && s.permission.execute)
    && (s.memsz != 0 ==>
          && Rem(s.mapStart, ps) == 0 && Rem(s.mapEnd, ps) == 0
          && s.mapStart <= s.vaddr < s.mapStart + ps
          && s.vaddr + s.memsz <= s.mapEnd < s.vaddr + s.memsz + ps && s.mapEnd <= ADDRESS_SPACE)
  }

  ghost predicate GoodRelro(ps: nat, r: Relro)
    requires ps > 0
  {
    && r.memsz != 0 && Rem(r.mapStart, ps) == 0 && Rem(r.mapEnd, ps) == 0
    && r.mapStart <= r.vaddr < r.mapStart + ps
    && r.vaddr + r.memsz <= r.mapEnd < r.vaddr + r.memsz + ps && r.mapEnd <= ADDRESS_SPACE
  }

  ghost predicate GoodSegments(ps: nat, image: seq<u8>, segments: seq<Segment>)
    requires ps > 0
  {
    forall k :: 0 <= k < |segments| ==> GoodSegment(ps, image, segments[k])
  }

  /** The plan's span and bias alignment cover every segment, and the span is tight. */
  ghost predicate GoodSpan(ps: nat, plan: Plan)
    requires ps > 0
  {
    && (forall k :: 0 <= k < |plan.segments| ==> Covered(plan, plan.segments[k]))
    && IsPowerOfTwo(plan.biasAlignment) && plan.biasAlignment < ADDRESS_SPACE
    && Rem(plan.minPage, ps) == 0 && Rem(plan.maxPageEnd, ps) == 0 && plan.maxPageEnd <= ADDRESS_SPACE
    && (if plan.minPage == ADDRESS_SPACE then plan.maxPageEnd == 0
        else plan.minPage < plan.maxPageEnd && HasStart(plan.segments, plan.minPage) && HasEnd(plan.segments, plan.maxPageEnd))
  }

  predicate Covered(plan: Plan, s: Segment) {
    && (s.memsz != 0 ==> plan.minPage <= s.mapStart && s.mapEnd <= plan.maxPageEnd)
    && (s.alignment > 1 ==> s.alignment <= plan.biasAlignment)
  }

  ghost predicate HasStart(segments: seq<Segment>, page: int) {
    exists s :: s in segments && s.memsz != 0 && s.mapStart == page
  }

  ghost predicate HasEnd(segments: seq<Segment>, page: int) {
    exists s :: s in segments && s.memsz != 0 && s.mapEnd == page
  }

  ghost predicate GoodDynamic(image: seq<u8>, d: DynamicRange) {
    && d.memsz != 0 && d.filesz <= d.memsz
    && d.offset + d.filesz <= |image| && d.vaddr + d.memsz <= ADDRESS_SPACE
  }

  /** What planning the headers establishes, before the checks across segments. */
  ghost predicate GoodScan(ps: nat, image: seq<u8>, plan: Plan)
    requires ps > 0
  {
    && GoodSegments(ps, image, plan.segments)
    && GoodSpan(ps, plan)
    && (plan.dynamicRange.Some? ==> GoodDynamic(image, plan.dynamicRange.value))
    && (forall k :: 0 <= k < |plan.relros| ==> GoodRelro(ps, plan.relros[k]))
  }

  lemma {:induction false} SegmentOfGood(ps: nat, image: seq<u8>, at: nat)
    requires ValidPageSize(ps) && at + 32 <= |image|
    ensures var r := SegmentOf(ps, image, at); r.Ok? ==> GoodSegment(ps, image, r.value)
  {
    var vaddr, memsz := DecodeU32(image, at + 8), DecodeU32(image, at + 20);
    RoundDown(vaddr, ps);
    if vaddr + memsz <= ADDRESS_SPACE { AlignUpTotal(vaddr + memsz, ps); }
  }

  lemma {:induction false} RelroOfGood(ps: nat, image: seq<u8>, at: nat)
    requires ValidPageSize(ps) && at + 32 <= |image|
    ensures var r := RelroOf(ps, image, at); r.Ok? ==> GoodRelro(ps, r.value)
  {
    var vaddr, memsz := DecodeU32(image, at + 8), DecodeU32(image, at + 20);
    RoundDown(vaddr, ps);
    if vaddr + memsz <= ADDRESS_SPACE { AlignUpTotal(vaddr + memsz, ps); }
  }

  lemma {:induction false} AddSegmentGood(ps: nat, image: seq<u8>, plan: Plan, s: Segment)
    requires ValidPageSize(ps) && GoodSpan(ps, plan) && GoodSegment(ps, image, s)
    ensures GoodSpan(ps, AddSegment(plan, s))
  {
    var p := AddSegment(plan, s);
    forall k | 0 <= k < |p.segments| ensures Covered(p, p.segments[k]) {
      if k < |plan.segments| { assert Covered(plan, plan.segments[k]); }
    }
    assert forall x :: x in plan.segments ==> x in p.segments;
    assert s in p.segments;
  }

  lemma {:induction false} PlanHeaderGood(ps: nat, image: seq<u8>, at: nat, plan: Plan)
    requires ValidPageSize(ps) && at + 32 <= |image| && GoodScan(ps, image, plan)
    ensures var r := PlanHeader(ps, image, at, plan); r.Ok? ==> GoodScan(ps, image, r.value)
  {
    var kind := DecodeU32(image, at);
    if kind == PT_LOAD {
      SegmentOfGood(ps, image, at);
      if SegmentOf(ps, image, at).Ok? {
        AddSegmentGood(ps, image, plan, SegmentOf(ps, image, at).value);
      }
    } else if kind == PT_GNU_RELRO {
      RelroOfGood(ps, image, at);
    }
  }

  lemma {:induction false} PlanHeadersGood(ps: nat, image: seq<u8>, h: Header, index: nat, plan: Plan)
    requires ValidPageSize(ps) && h.tableOffset + 32 * h.count <= |image| && index <= h.count
    requires GoodScan(ps, image, plan)
    ensures var r := PlanHeaders(ps, image, h, index, plan); r.Ok? ==> GoodScan(ps, image, r.value)
    decreases h.count - index
  {
    if index < h.count {
      var at := h.tableOffset + 32 * index;
      PlanHeaderGood(ps, image, at, plan);
      var r := PlanHeader(ps, image, at, plan);
      if r.Ok? {
        PlanHeadersGood(ps, image, h, index + 1, r.value);
      }
    }
  }

  // ------------------------------------------------------------------ theorems

  /** Everything later stages rely on. */
  ghost predicate GoodPlan(ps: nat, image: seq<u8>, plan: Plan)
    requires ps > 0
  {
    && GoodScan(ps, image, plan)
    && plan.minPage < plan.maxPageEnd
    && DisjointSegments(plan.segments)
    && (plan.dynamicRange.Some? ==> exists s :: s in plan.segments && HoldsDynamic(s, plan.dynamicRange.value))
    && (forall k :: 0 <= k < |plan.relros| ==> RelroBacked(plan.segments, plan.relros[k].mapStart, plan.relros[k].mapEnd, ps))
  }

  predicate HoldsDynamic(s: Segment, d: DynamicRange) {
    && Encloses(s, d.vaddr, d.vaddr + d.memsz) && s.permission.read
    && (d.filesz != 0 ==> FileMapped(d, s))
  }

  /** Every page of the range lies in a readable segment. */
  ghost predicate RelroBacked(segments: seq<Segment>, page: int, end: int, ps: nat)
    requires ps > 0
  {
    forall a :: page <= a < end ==> ReadableAt(segments, a)
  }

  ghost predicate ReadableAt(segments: seq<Segment>, a: int) {
    exists s :: s in segments && s.memsz != 0 && s.mapStart <= a < s.mapEnd && s.permission.read
  }

  lemma {:induction false} RelroProblemSound(segments: seq<Segment>, page: int, end: int, ps: nat)
    requires ps > 0 && RelroProblem(segments, page, end, ps).None?
    ensures RelroBacked(segments, page, end, ps)
    decreases end - page
  {
    if page < end {
      RelroProblemSound(segments, page + ps, end, ps);
      var s := PageLoad(segments, page, ps, 0).value;
      forall a | page <= a < end ensures ReadableAt(segments, a) {
        if a < page + ps { assert s.mapStart <= a < s.mapEnd; }
      }
    }
  }

  lemma {:induction false} RelrosProblemSound(plan: Plan, ps: nat, i: nat)
    requires ps > 0 && i <= |plan.relros| && RelrosProblem(plan, ps, i).None?
    ensures forall k :: i <= k < |plan.relros| ==>
                          RelroBacked(plan.segments, plan.relros[k].mapStart, plan.relros[k].mapEnd, ps)
    decreases |plan.relros| - i
  {
    if i < |plan.relros| {
      RelroProblemSound(plan.segments, plan.relros[i].mapStart, plan.relros[i].mapEnd, ps);
      RelrosProblemSound(plan, ps, i + 1);
    }
  }

  lemma {:induction false} DynamicProblemSound(plan: Plan)
    requires DynamicProblem(plan).None? && plan.dynamicRange.Some?
    ensures exists s :: s in plan.segments && HoldsDynamic(s, plan.dynamicRange.value)
  {
    var d := plan.dynamicRange.value;
    var s := ReadableLoad(plan.segments, d.vaddr, d.vaddr + d.memsz, 0).value;
    assert HoldsDynamic(s, d);
  }

  lemma {:induction false} CheckedPlanSound(ps: nat, image: seq<u8>, plan: Plan)
    requires ValidPageSize(ps) && GoodScan(ps, image, plan)
    ensures var r := CheckedPlan(ps, plan); r.Ok? ==> r.value == plan && GoodPlan(ps, image, plan)
  {
    if CheckedPlan(ps, plan).Ok? {
      RelrosProblemSound(plan, ps, 0);
      if plan.dynamicRange.Some? { DynamicProblemSound(plan); }
    }
  }

  /** A plan that is returned is good: its segments respect the image and their own
      alignment, share no page, and back the dynamic and RELRO ranges. */
  lemma {:induction false} PlanSound(ps: nat, image: seq<u8>)
    requires ValidPageSize(ps)
    ensures var r := PlanOf(ps, image); r.Ok? ==> GoodPlan(ps, image, r.value)
  {
    if HeaderOf(image).Ok? {
      var h := HeaderOf(image).value;
      PlanHeadersGood(ps, image, h, 0, EmptyPlan(h));
      var r := PlanHeaders(ps, image, h, 0, EmptyPlan(h));
      if r.Ok? { CheckedPlanSound(ps, image, r.value); }
    }
  }

  /** The segment of one header, if it is a PT_LOAD. */
  function LoadAt(ps: nat, image: seq<u8>, at: nat): seq<Segment>
    requires ps > 0 && at + 32 <= |image|
  {
    if DecodeU32(image, at) == PT_LOAD && SegmentOf(ps, image, at).Ok? then [SegmentOf(ps, image, at).value] else []
  }

  function Loads(ps: nat, image: seq<u8>, h: Header, index: nat): seq<Segment>
    requires ps > 0 && h.tableOffset + 32 * h.count <= |image| && index <= h.count
    decreases h.count - index
  {
    if index == h.count then [] else LoadAt(ps, image, h.tableOffset + 32 * index) + Loads(ps, image, h, index + 1)
  }

  lemma {:induction false} HeaderSegment(ps: nat, image: seq<u8>, at: nat, plan: Plan)
    requires ps > 0 && at + 32 <= |image|
    ensures var r := PlanHeader(ps, image, at, plan); r.Ok? ==> r.value.segments == plan.segments + LoadAt(ps, image, at)
  {
    hide SegmentOf, DynamicOf, RelroOf, DecodeU32;
  }

  /** The segments of a plan are the PT_LOAD headers, in table order. */
  lemma {:induction false} PlanSegmentsAreLoads(ps: nat, image: seq<u8>, h: Header, index: nat, plan: Plan)
    requires ps > 0 && h.tableOffset + 32 * h.count <= |image| && index <= h.count
    ensures var r := PlanHeaders(ps, image, h, index, plan);
            r.Ok? ==> r.value.segments == plan.segments + Loads(ps, image, h, index)
    decreases h.count - index
  {
    hide PlanHeader, LoadAt;
    if index < h.count {
      var r := PlanHeader(ps, image, h.tableOffset + 32 * index, plan);
      if r.Ok? {
        HeaderSegment(ps, image, h.tableOffset + 32 * index, plan);
        PlanSegmentsAreLoads(ps, image, h, index + 1, r.value);
      }
    }
  }
}

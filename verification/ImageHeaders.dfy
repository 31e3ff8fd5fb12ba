/** What an image says by its bytes: the ELF header, the program headers and their flag bits.  A plan
    is the one of an image exactly if it describes these bytes and is good
    (src/elf/loading/elf32_load_plan.cpp). */
module ImageHeaders {
  import opened Words
  import opened AddressSpaces
  import opened LoadPlans

  /** An ELF32 little-endian Arm image of type EXEC or DYN with its program headers in bounds. */
  predicate ElfHeader(image: seq<u8>) {
    && |image| >= 52
    && image[0] == 0x7f && image[1] == 0x45 && image[2] == 0x4c && image[3] == 0x46
    && image[4] == 1 && image[5] == 1 && image[6] == 1 && DecodeU32(image, 20) == 1
    && (DecodeU16(image, 16) == 2 || DecodeU16(image, 16) == 3) && DecodeU16(image, 18) == 40
    && DecodeU16(image, 40) == 52 && DecodeU16(image, 42) == 32
    && DecodeU32(image, 28) + 32 * DecodeU16(image, 44) <= |image|
  }

  function Count(image: seq<u8>): nat
    requires ElfHeader(image)
  {
    DecodeU16(image, 44)
  }

  function HeaderAt(image: seq<u8>, k: nat): (at: nat)
    requires ElfHeader(image)
    ensures k < Count(image) ==> at + 32 <= |image|
  {
    DecodeU32(image, 28) + 32 * k
  }

  /** Where the program headers of one kind are, among the first `n`. */
  function Headers(image: seq<u8>, kind: u32, n: nat): (r: seq<nat>)
    requires ElfHeader(image) && n <= Count(image)
    ensures forall k :: 0 <= k < |r| ==> r[k] + 32 <= |image|
  {
    if n == 0 then []
    else Headers(image, kind, n - 1) + (if DecodeU32(image, HeaderAt(image, n - 1)) == kind then [HeaderAt(image, n - 1)] else [])
  }

  /** Segment `s` has the fields of the PT_LOAD header at `at`: read, write and execute are the flag
      bits 4, 2 and 1. */
  predicate LoadHeader(image: seq<u8>, at: nat, s: Segment)
    requires at + 32 <= |image|
  {
    && s.offset == DecodeU32(image, at + 4) && s.vaddr == DecodeU32(image, at + 8) && s.filesz == DecodeU32(image, at + 16)
    && s.memsz == DecodeU32(image, at + 20) && s.alignment == DecodeU32(image, at + 28)
    && (s.permission.read <==> BitSet(DecodeU32(image, at + 24), 4)) && (s.permission.write <==> BitSet(DecodeU32(image, at + 24), 2))
    && (s.permission.execute <==> BitSet(DecodeU32(image, at + 24), 1))
    && (s.memsz == 0 ==> s.mapStart == s.mapEnd == 0)
  }

  predicate RelroHeader(image: seq<u8>, at: nat, r: Relro)
    requires at + 32 <= |image|
  {
    r.vaddr == DecodeU32(image, at + 8) && r.memsz == DecodeU32(image, at + 20)
  }

  predicate DynamicHeader(image: seq<u8>, at: nat, d: DynamicRange)
    requires at + 32 <= |image|
  {
    && d.offset == DecodeU32(image, at + 4) && d.vaddr == DecodeU32(image, at + 8)
    && d.filesz == DecodeU32(image, at + 16) && d.memsz == DecodeU32(image, at + 20)
  }

  predicate LoadsFrom(image: seq<u8>, n: nat, segments: seq<Segment>)
    requires ElfHeader(image) && n <= Count(image)
  {
    var at := Headers(image, 1, n);
    |segments| == |at| && forall k :: 0 <= k < |at| ==> LoadHeader(image, at[k], segments[k])
  }

  predicate RelrosFrom(image: seq<u8>, n: nat, relros: seq<Relro>)
    requires ElfHeader(image) && n <= Count(image)
  {
    var at := Headers(image, 0x6474e552, n);
    |relros| == |at| && forall k :: 0 <= k < |at| ==> RelroHeader(image, at[k], relros[k])
  }

  predicate DynamicFrom(image: seq<u8>, n: nat, d: Option<DynamicRange>)
    requires ElfHeader(image) && n <= Count(image)
  {
    var at := Headers(image, 2, n);
    |at| == (if d.Some? then 1 else 0) && (d.Some? ==> DynamicHeader(image, at[0], d.value))
  }

  /** The bias alignment is the largest alignment of a segment, and 1 without one. */
  ghost predicate LargestAlignment(segments: seq<Segment>, alignment: nat) {
    && (forall k :: 0 <= k < |segments| ==> segments[k].alignment <= alignment)
    && (alignment == 1 || exists k :: 0 <= k < |segments| && segments[k].alignment == alignment)
  }

  /** The plan says what the first `n` program headers say. */
  ghost predicate Scanned(image: seq<u8>, n: nat, plan: Plan)
    requires ElfHeader(image) && n <= Count(image)
  {
    && plan.entry == DecodeU32(image, 24) && (plan.imageType.Dynamic? <==> DecodeU16(image, 16) == 3)
    && LoadsFrom(image, n, plan.segments) && RelrosFrom(image, n, plan.relros) && DynamicFrom(image, n, plan.dynamicRange)
    && LargestAlignment(plan.segments, plan.biasAlignment)
  }

  /** The plan says what the image says. */
  ghost predicate Describes(image: seq<u8>, plan: Plan) {
    ElfHeader(image) && Scanned(image, Count(image), plan)
  }

  // ------------------------------------------------------------------------ headers

  /** The header checks accept exactly these images, and read type, entry and table from them. */
  lemma {:induction false} HeaderExact(image: seq<u8>)
    ensures HeaderOf(image).Ok? <==> ElfHeader(image)
    ensures ElfHeader(image) ==> HeaderOf(image) == Ok(Header(if DecodeU16(image, 16) == 3 then Dynamic else Executable,
                                                              DecodeU32(image, 24), DecodeU32(image, 28), DecodeU16(image, 44)))
  {
    hide DecodeU16, DecodeU32;
    if |image| >= 52 {
      var m := image[..4];
      assert m[0] == image[0] && m[1] == image[1] && m[2] == image[2] && m[3] == image[3];
    }
  }

  // -------------------------------------------------------------------- one header

  /** A segment is read from a header exactly if it has its fields and is good. */
  lemma {:induction false} SegmentExact(ps: nat, image: seq<u8>, at: nat, s: Segment)
    requires ValidPageSize(ps) && at + 32 <= |image|
    ensures SegmentOf(ps, image, at) == Ok(s) <==> LoadHeader(image, at, s) && GoodSegment(ps, image, s)
  {
    hide DecodeU32, BitSet, IsPowerOfTwo;
    FlagBits(DecodeU32(image, at + 24));
    SegmentOfGood(ps, image, at);
    if LoadHeader(image, at, s) && GoodSegment(ps, image, s) && s.memsz != 0 {
      PageBounds(ps, s.vaddr, s.vaddr + s.memsz, s.mapStart, s.mapEnd);
    }
  }

  /** The page range around a byte range is determined by it. */
  lemma {:induction false} PageBounds(ps: nat, lo: nat, hi: nat, start: nat, end: nat)
    requires ValidPageSize(ps) && lo < hi <= ADDRESS_SPACE && Rem(start, ps) == 0 && Rem(end, ps) == 0
    requires start <= lo < start + ps && hi <= end < hi + ps && end <= ADDRESS_SPACE
    ensures AlignDown(lo, ps) == start && AlignUp(hi, ps) == Some(end)
  {
    RoundDown(lo, ps);
    AlignUpTotal(hi, ps);
    SamePage(ps, start, AlignDown(lo, ps));
    SamePage(ps, end, AlignUp(hi, ps).value);
  }

  lemma {:induction false} SamePage(ps: nat, a: nat, b: nat)
    requires ps > 0 && Rem(a, ps) == 0 && Rem(b, ps) == 0 && a < b + ps && b < a + ps
    ensures a == b
  {
    if a < b { AlignedGap(a, b, ps); }
    if b < a { AlignedGap(b, a, ps); }
  }

  lemma {:induction false} RelroExact(ps: nat, image: seq<u8>, at: nat, r: Relro)
    requires ValidPageSize(ps) && at + 32 <= |image|
    ensures RelroOf(ps, image, at) == Ok(r) <==> RelroHeader(image, at, r) && GoodRelro(ps, r)
  {
    hide DecodeU32;
    RelroOfGood(ps, image, at);
    if RelroHeader(image, at, r) && GoodRelro(ps, r) {
      PageBounds(ps, r.vaddr, r.vaddr + r.memsz, r.mapStart, r.mapEnd);
    }
  }

  lemma {:induction false} DynamicExact(image: seq<u8>, at: nat, d: DynamicRange)
    requires at + 32 <= |image|
    ensures DynamicOf(image, at) == Ok(d) <==> DynamicHeader(image, at, d) && GoodDynamic(image, d)
  {
    hide DecodeU32;
  }

  // ---------------------------------------------------------------- all the headers

  /** Adding a segment adds its alignment. */
  lemma {:induction false} AlignmentAdded(plan: Plan, s: Segment)
    requires LargestAlignment(plan.segments, plan.biasAlignment) && plan.biasAlignment >= 1
    ensures LargestAlignment(AddSegment(plan, s).segments, AddSegment(plan, s).biasAlignment)
  {
    var p := AddSegment(plan, s);
    if p.biasAlignment != 1 {
      if p.biasAlignment == plan.biasAlignment {
        var k :| 0 <= k < |plan.segments| && plan.segments[k].alignment == plan.biasAlignment;
        assert p.segments[k].alignment == p.biasAlignment;
      } else {
        assert p.segments[|plan.segments|].alignment == p.biasAlignment;
      }
    }
  }

  /** One header more is scanned. */
  lemma {:induction false} HeaderScanned(ps: nat, image: seq<u8>, n: nat, plan: Plan)
    requires ValidPageSize(ps) && ElfHeader(image) && n < Count(image) && Scanned(image, n, plan) && plan.biasAlignment >= 1
    ensures var r := PlanHeader(ps, image, HeaderAt(image, n), plan);
            r.Ok? ==> Scanned(image, n + 1, r.value) && r.value.biasAlignment >= 1
  {
    hide SegmentOf, RelroOf, DynamicOf, DecodeU32, DecodeU16, ElfHeader, LargestAlignment, LoadHeader, RelroHeader, DynamicHeader, HeaderAt,
      Count;
    var at := HeaderAt(image, n);
    var r := PlanHeader(ps, image, at, plan);
    if r.Err? {
      return;
    }
    var kind := DecodeU32(image, at);
    if kind == 1 {
      var s := SegmentOf(ps, image, at).value;
      SegmentExact(ps, image, at, s);
      AlignmentAdded(plan, s);
    } else if kind == 2 {
      DynamicExact(image, at, DynamicOf(image, at).value);
    } else if kind == 0x6474e552 {
      RelroExact(ps, image, at, RelroOf(ps, image, at).value);
    }
  }

  lemma {:induction false} HeadersScanned(ps: nat, image: seq<u8>, n: nat, plan: Plan)
    requires ValidPageSize(ps) && ElfHeader(image) && n <= Count(image) && Scanned(image, n, plan) && plan.biasAlignment >= 1
    ensures HeaderOf(image).Ok? && HeaderOf(image).value.count == Count(image)
    ensures var r := PlanHeaders(ps, image, HeaderOf(image).value, n, plan);
            r.Ok? ==> Scanned(image, Count(image), r.value)
    decreases Count(image) - n
  {
    hide PlanHeader, Scanned, ElfHeader, HeaderOf;
    HeaderExact(image);
    if n < Count(image) {
      HeaderScanned(ps, image, n, plan);
      var r := PlanHeader(ps, image, HeaderAt(image, n), plan);
      if r.Ok? {
        HeadersScanned(ps, image, n + 1, r.value);
      }
    }
  }

  lemma {:induction false} EmptyScanned(image: seq<u8>)
    requires ElfHeader(image)
    ensures HeaderOf(image).Ok? && Scanned(image, 0, EmptyPlan(HeaderOf(image).value))
  {
    hide DecodeU32, DecodeU16, HeaderOf, ElfHeader;
    HeaderExact(image);
  }

  // ------------------------------------------------------- a description can be planned

  /** The headers of a kind among the first n are the first ones of that kind. */
  lemma {:induction false} HeadersPrefix(image: seq<u8>, kind: u32, n: nat, m: nat)
    requires ElfHeader(image) && n <= m <= Count(image)
    ensures Headers(image, kind, n) <= Headers(image, kind, m)
  {
    hide ElfHeader, DecodeU32, HeaderAt, Count;
    if n < m { HeadersPrefix(image, kind, n, m - 1); }
  }

  /** Each header of a described, good plan can be planned. */
  lemma {:induction false} HeaderPlanned(ps: nat, image: seq<u8>, n: nat, p: Plan, plan: Plan)
    requires ValidPageSize(ps) && Describes(image, plan) && GoodScan(ps, image, plan)
    requires n < Count(image) && Scanned(image, n, p)
    ensures PlanHeader(ps, image, HeaderAt(image, n), p).Ok?
  {
    hide SegmentOf, RelroOf, DynamicOf, DecodeU32, DecodeU16, ElfHeader, LargestAlignment, LoadHeader, RelroHeader, DynamicHeader, HeaderAt,
      Count, GoodSegment, GoodSpan, GoodRelro, GoodDynamic;
    var at, all := HeaderAt(image, n), Count(image);
    var kind := DecodeU32(image, at);
    var k := |Headers(image, kind, n)|;
    HeadersPrefix(image, kind, n + 1, all);
    assert Headers(image, kind, n + 1)[k] == at;
    if kind == 1 {
      assert LoadHeader(image, Headers(image, 1, all)[k], plan.segments[k]);
      SegmentExact(ps, image, at, plan.segments[k]);
    } else if kind == 2 {
      DynamicExact(image, at, plan.dynamicRange.value);
    } else if kind == 0x6474e552 {
      assert RelroHeader(image, Headers(image, 0x6474e552, all)[k], plan.relros[k]);
      RelroExact(ps, image, at, plan.relros[k]);
    }
  }

  lemma {:induction false} HeadersPlanned(ps: nat, image: seq<u8>, n: nat, p: Plan, plan: Plan)
    requires ValidPageSize(ps) && Describes(image, plan) && GoodScan(ps, image, plan)
    requires n <= Count(image) && Scanned(image, n, p) && p.biasAlignment >= 1
    ensures HeaderOf(image).Ok? && HeaderOf(image).value.count == Count(image)
    ensures PlanHeaders(ps, image, HeaderOf(image).value, n, p).Ok?
    decreases Count(image) - n
  {
    hide PlanHeader, Scanned, ElfHeader, HeaderOf, GoodScan;
    HeaderExact(image);
    if n < Count(image) {
      HeaderPlanned(ps, image, n, p, plan);
      HeaderScanned(ps, image, n, p);
      HeadersPlanned(ps, image, n + 1, PlanHeader(ps, image, HeaderAt(image, n), p).value, plan);
    }
  }

  // ------------------------------------------------------ a description determines a plan

  lemma {:induction false} SameSegments(ps: nat, image: seq<u8>, xs: seq<Segment>, ys: seq<Segment>)
    requires ValidPageSize(ps) && ElfHeader(image) && LoadsFrom(image, Count(image), xs) && LoadsFrom(image, Count(image), ys)
    requires GoodSegments(ps, image, xs) && GoodSegments(ps, image, ys)
    ensures xs == ys
  {
    hide ElfHeader, LoadHeader, GoodSegment;
    var at := Headers(image, 1, Count(image));
    forall k | 0 <= k < |xs| ensures xs[k] == ys[k] {
      assert LoadHeader(image, at[k], xs[k]) && LoadHeader(image, at[k], ys[k]);
      SegmentExact(ps, image, at[k], xs[k]);
      SegmentExact(ps, image, at[k], ys[k]);
    }
  }

  lemma {:induction false} SameRelros(ps: nat, image: seq<u8>, xs: seq<Relro>, ys: seq<Relro>)
    requires ValidPageSize(ps) && ElfHeader(image) && RelrosFrom(image, Count(image), xs) && RelrosFrom(image, Count(image), ys)
    requires (forall k :: 0 <= k < |xs| ==> GoodRelro(ps, xs[k])) && forall k :: 0 <= k < |ys| ==> GoodRelro(ps, ys[k])
    ensures xs == ys
  {
    hide ElfHeader, RelroHeader, GoodRelro;
    var at := Headers(image, 0x6474e552, Count(image));
    forall k | 0 <= k < |xs| ensures xs[k] == ys[k] {
      assert RelroHeader(image, at[k], xs[k]) && RelroHeader(image, at[k], ys[k]);
      RelroExact(ps, image, at[k], xs[k]);
      RelroExact(ps, image, at[k], ys[k]);
    }
  }

  lemma {:induction false} SameAlignment(segments: seq<Segment>, a: nat, b: nat)
    requires LargestAlignment(segments, a) && LargestAlignment(segments, b) && a >= 1 && b >= 1
    ensures a == b
  {
  }

  /** The tight span of the segments is determined by them. */
  lemma {:induction false} SameSpan(ps: nat, p: Plan, q: Plan)
    requires ps > 0 && GoodSpan(ps, p) && GoodSpan(ps, q) && p.segments == q.segments
    ensures p.minPage == q.minPage && p.maxPageEnd == q.maxPageEnd
  {
    hide Rem, IsPowerOfTwo;
    SpanBelow(ps, p, q);
    SpanBelow(ps, q, p);
  }

  lemma {:induction false} SpanBelow(ps: nat, p: Plan, q: Plan)
    requires ps > 0 && GoodSpan(ps, p) && GoodSpan(ps, q) && p.segments == q.segments
    ensures p.minPage < ADDRESS_SPACE ==> q.minPage <= p.minPage && p.maxPageEnd <= q.maxPageEnd
    ensures p.minPage == ADDRESS_SPACE ==> p.maxPageEnd == 0
    ensures p.minPage <= ADDRESS_SPACE
  {
    hide Rem, IsPowerOfTwo;
    if p.minPage != ADDRESS_SPACE {
      var s :| s in p.segments && s.memsz != 0 && s.mapStart == p.minPage;
      var i :| 0 <= i < |q.segments| && q.segments[i] == s;
      assert Covered(q, q.segments[i]);
      var t :| t in p.segments && t.memsz != 0 && t.mapEnd == p.maxPageEnd;
      var j :| 0 <= j < |q.segments| && q.segments[j] == t;
      assert Covered(q, q.segments[j]);
    }
  }

  lemma {:induction false} SamePlan(ps: nat, image: seq<u8>, p: Plan, q: Plan)
    requires ValidPageSize(ps) && Describes(image, p) && Describes(image, q) && GoodScan(ps, image, p) && GoodScan(ps, image, q)
    ensures p == q
  {
    hide ElfHeader, LoadsFrom, RelrosFrom, LargestAlignment, GoodSegments, GoodRelro, GoodDynamic;
    SpanAlignment(ps, p);
    SpanAlignment(ps, q);
    SameSegments(ps, image, p.segments, q.segments);
    SameRelros(ps, image, p.relros, q.relros);
    SameAlignment(p.segments, p.biasAlignment, q.biasAlignment);
    SameSpan(ps, p, q);
  }

  lemma {:induction false} SpanAlignment(ps: nat, p: Plan)
    requires ps > 0 && GoodSpan(ps, p)
    ensures p.biasAlignment >= 1
  {
  }

  // -------------------------------------------------------------- checks across segments

  /** Segments that share an address of their pages are one. */
  lemma {:induction false} OwnerUnique(segments: seq<Segment>, i: nat, j: nat, a: int)
    requires DisjointSegments(segments) && i < |segments| && j < |segments| && segments[i].memsz != 0 && segments[j].memsz != 0
    requires segments[i].mapStart <= a < segments[i].mapEnd && segments[j].mapStart <= a < segments[j].mapEnd
    ensures i == j
  {
    if i < j { assert Overlap(segments[i], segments[j]); }
    if j < i { assert Overlap(segments[j], segments[i]); }
  }

  lemma {:induction false} DynamicAccepted(ps: nat, image: seq<u8>, plan: Plan)
    requires ValidPageSize(ps) && GoodPlan(ps, image, plan)
    ensures DynamicProblem(plan).None?
  {
    hide Rem, IsPowerOfTwo, GoodSpan, GoodRelro, RelroBacked, DisjointSegments, GoodSegment;
    if plan.dynamicRange.None? {
      return;
    }
    var d := plan.dynamicRange.value;
    var s :| s in plan.segments && HoldsDynamic(s, d);
    var i :| 0 <= i < |plan.segments| && plan.segments[i] == s;
    var lo, hi := d.vaddr, d.vaddr + d.memsz;
    assert Encloses(plan.segments[i], lo, hi);
    var r := ReadableLoad(plan.segments, lo, hi, 0);
    if r.Some? {
      var j :| 0 <= j < |plan.segments| && plan.segments[j] == r.value;
      EnclosedOnce(ps, image, plan.segments, i, j, lo, hi);
    }
  }

  lemma {:induction false} EnclosedOnce(ps: nat, image: seq<u8>, segments: seq<Segment>, i: nat, j: nat, lo: int, hi: int)
    requires ps > 0 && GoodSegments(ps, image, segments) && DisjointSegments(segments) && i < |segments| && j < |segments| && lo < hi
    requires Encloses(segments[i], lo, hi) && Encloses(segments[j], lo, hi)
    ensures i == j
  {
    hide Rem, IsPowerOfTwo, DisjointSegments;
    assert GoodSegment(ps, image, segments[i]) && GoodSegment(ps, image, segments[j]);
    OwnerUnique(segments, i, j, lo);
  }

  /** A page whose first address lies in a readable segment passes. */
  lemma {:induction false} PageAccepted(ps: nat, image: seq<u8>, plan: Plan, page: nat)
    requires ValidPageSize(ps) && GoodPlan(ps, image, plan) && Rem(page, ps) == 0 && ReadableAt(plan.segments, page)
    ensures RelroPageProblem(plan.segments, page, ps).None?
  {
    hide IsPowerOfTwo, GoodSpan, GoodRelro, RelroBacked, Rem;
    var s :| s in plan.segments && s.memsz != 0 && s.mapStart <= page < s.mapEnd && s.permission.read;
    var i :| 0 <= i < |plan.segments| && plan.segments[i] == s;
    assert GoodSegment(ps, image, plan.segments[i]);
    AlignedGap(page, s.mapEnd, ps);
    assert HoldsPage(plan.segments[i], page, ps);
    PageFound(plan.segments, page, ps, 0, i);
    var r := PageLoad(plan.segments, page, ps, 0).value;
    var j :| 0 <= j < |plan.segments| && plan.segments[j] == r;
    OwnerUnique(plan.segments, i, j, page);
  }

  lemma {:induction false} PageFound(segments: seq<Segment>, page: int, ps: nat, from: nat, i: nat)
    requires from <= i < |segments| && HoldsPage(segments[i], page, ps)
    ensures PageLoad(segments, page, ps, from).Some?
    decreases i - from
  {
    if from < i && !HoldsPage(segments[from], page, ps) { PageFound(segments, page, ps, from + 1, i); }
  }

  lemma {:induction false} RelroAccepted(ps: nat, image: seq<u8>, plan: Plan, page: nat, end: nat)
    requires ValidPageSize(ps) && GoodPlan(ps, image, plan) && Rem(page, ps) == 0 && RelroBacked(plan.segments, page, end, ps)
    ensures RelroProblem(plan.segments, page, end, ps).None?
    decreases end - page
  {
    hide GoodPlan, ReadableAt, RelroPageProblem, Rem;
    if page < end {
      assert ReadableAt(plan.segments, page);
      PageAccepted(ps, image, plan, page);
      RemAdd(page, ps, ps);
      PageStep(ps);
      RelroAccepted(ps, image, plan, page + ps, end);
    }
  }

  lemma {:induction false} PageStep(ps: nat)
    requires ps > 0
    ensures Rem(ps, ps) == 0
  {
  }

  lemma {:induction false} RelrosAccepted(ps: nat, image: seq<u8>, plan: Plan, i: nat)
    requires ValidPageSize(ps) && GoodPlan(ps, image, plan) && i <= |plan.relros|
    ensures RelrosProblem(plan, ps, i).None?
    decreases |plan.relros| - i
  {
    hide GoodSegments, GoodSpan, DisjointSegments, RelroBacked, Rem, GoodDynamic;
    if i < |plan.relros| {
      assert GoodRelro(ps, plan.relros[i]);
      RelroAccepted(ps, image, plan, plan.relros[i].mapStart, plan.relros[i].mapEnd);
      RelrosAccepted(ps, image, plan, i + 1);
    }
  }

  lemma {:induction false} CheckedAccepted(ps: nat, image: seq<u8>, plan: Plan)
    requires ValidPageSize(ps) && GoodPlan(ps, image, plan)
    ensures CheckedPlan(ps, plan) == Ok(plan)
  {
    hide DynamicProblem, RelrosProblem, GoodSegments, GoodRelro, Rem, IsPowerOfTwo, DisjointSegments;
    DynamicAccepted(ps, image, plan);
    RelrosAccepted(ps, image, plan, 0);
    assert HasStart(plan.segments, plan.minPage);
  }

  // --------------------------------------------------------------------------- the theorem

  /** The plan of an image is exactly the good plan that describes its bytes: an image is planned if
      and only if there is one, and there is at most one. */
  lemma {:induction false} PlanExact(ps: nat, image: seq<u8>, plan: Plan)
    requires ValidPageSize(ps)
    ensures PlanOf(ps, image) == Ok(plan) <==> Describes(image, plan) && GoodPlan(ps, image, plan)
  {
    hide PlanHeaders, CheckedPlan, Scanned, HeaderOf, ElfHeader, GoodPlan;
    HeaderExact(image);
    if !ElfHeader(image) {
      return;
    }
    var h := HeaderOf(image).value;
    EmptyScanned(image);
    HeadersScanned(ps, image, 0, EmptyPlan(h));
    PlanSound(ps, image);
    GoodPlanScan(ps, image, plan);
    EmptyGood(ps, image, h);
    PlanHeadersGood(ps, image, h, 0, EmptyPlan(h));
    if PlanOf(ps, image) == Ok(plan) {
      CheckedSame(ps, PlanHeaders(ps, image, h, 0, EmptyPlan(h)).value);
    }
    if Describes(image, plan) && GoodPlan(ps, image, plan) {
      HeadersPlanned(ps, image, 0, EmptyPlan(h), plan);
      SamePlan(ps, image, PlanHeaders(ps, image, h, 0, EmptyPlan(h)).value, plan);
      CheckedAccepted(ps, image, plan);
    }
  }

  lemma {:induction false} GoodPlanScan(ps: nat, image: seq<u8>, plan: Plan)
    requires ps > 0
    ensures GoodPlan(ps, image, plan) ==> GoodScan(ps, image, plan)
  {
    hide GoodScan;
  }

  lemma {:induction false} EmptyGood(ps: nat, image: seq<u8>, h: Header)
    requires ValidPageSize(ps)
    ensures GoodScan(ps, image, EmptyPlan(h))
  {
  }

  lemma {:induction false} CheckedSame(ps: nat, plan: Plan)
    requires ps > 0
    ensures CheckedPlan(ps, plan).Ok? ==> CheckedPlan(ps, plan).value == plan
  {
    hide DynamicProblem, RelrosProblem, DisjointSegments;
  }
}

/** Choosing a base for a dynamic image (src/elf/loading/elf32_dynamic_placement.cpp). */
module Placement {
  import opened Words
  import opened AddressSpaces
  import opened MappedMemory
  import VaAllocator
  import opened LoadPlans
  import opened Loader
  import opened LoadImages

  datatype PlacementError = InvalidImage(cause: LoadError) | NotDynamic | InvalidSearchWindow | AddressOverflow | NoSpace

  datatype Window = Window(begin: u32, end: nat)

  /** A base in the window the loader accepts and whose whole span is free. */
  ghost predicate Suitable(s: Space, plan: Plan, w: Window, b: int)
    requires WellFormed(s)
  {
    && w.begin <= b < ADDRESS_SPACE && b + (plan.maxPageEnd - plan.minPage) <= w.end
    && BiasOf(s.pageSize, plan, Some(b)).Ok?
    && AllUnmapped(s, b, b + (plan.maxPageEnd - plan.minPage))
  }

  /** place_elf32_dynamic returns the least suitable base of the window, and NoSpace exactly
      when there is none; AddressOverflow does not occur. */
  method PlaceDynamic(m: MappedGuestMemory, image: seq<u8>, w: Window) returns (r: Result<u32, PlacementError>)
    requires m.Valid()
    ensures r == Err(InvalidSearchWindow) <==> w.end > ADDRESS_SPACE || w.begin >= w.end
    ensures r != Err(InvalidSearchWindow) && PlanOf(m.pageSize, image).Err? ==>
              r == Err(InvalidImage(PlanOf(m.pageSize, image).error))
    ensures r.Err? && r.error.InvalidImage? ==> PlanOf(m.pageSize, image) == Err(r.error.cause)
    ensures r.Ok? || r == Err(NoSpace) ==>
              PlanOf(m.pageSize, image).Ok? && PlanOf(m.pageSize, image).value.imageType.Dynamic?
    ensures r == Err(NotDynamic) ==>
              PlanOf(m.pageSize, image).Ok? && PlanOf(m.pageSize, image).value.imageType.Executable?
    ensures r.Ok? ==> Suitable(m.State(), PlanOf(m.pageSize, image).value, w, r.value)
    ensures r.Ok? ==> forall b :: Suitable(m.State(), PlanOf(m.pageSize, image).value, w, b) ==> r.value <= b
    ensures r == Err(NoSpace) ==> forall b :: !Suitable(m.State(), PlanOf(m.pageSize, image).value, w, b)
    ensures r != Err(AddressOverflow)
  {
    hide Rem, IsPowerOfTwo, PlanOf, Suitable, VaAllocator.Fits;
    if w.end > ADDRESS_SPACE || w.begin >= w.end {
      return Err(InvalidSearchWindow);
    }
    var planned := PlanLoad(m.pageSize, image);
    if planned.Err? {
      return Err(InvalidImage(planned.error));
    }
    var plan := planned.value;
    if plan.imageType.Executable? {
      return Err(NotDynamic);
    }
    PlanSound(m.pageSize, image);
    var span := plan.maxPageEnd - plan.minPage;
    var alignment := Max(m.pageSize, plan.biasAlignment);
    var begin := Max(w.begin, plan.minPage);
    AlignmentSound(m.pageSize, image, plan);
    if begin >= w.end || begin >= ADDRESS_SPACE {
      NoRoom(m.State(), plan, w);
      return Err(NoSpace);
    }
    var o := VaAllocator.SearchOptions(begin, w.end, alignment, Rem(plan.minPage, alignment));
    FitsSuitable(m.State(), image, plan, w, o);
    var found := VaAllocator.FindFreeRange(m, span, o);
    match found {
      case Ok(base) => return Ok(base);
      case Err(NoSpace) => return Err(PlacementError.NoSpace);
      case Err(InvalidRange) => return Err(PlacementError.NoSpace);
      case Err(_) => return Err(AddressOverflow);
    }
  }

  lemma {:induction false} NoRoom(s: Space, plan: Plan, w: Window)
    requires WellFormed(s) && plan.imageType.Dynamic? && plan.minPage < plan.maxPageEnd && Max(w.begin, plan.minPage) >= w.end
    ensures forall b :: !Suitable(s, plan, w, b)
  {
    hide WellFormed;
  }

  /** The alignment handed to the search is a multiple of the page size and of every
      alignment a segment asks for. */
  lemma {:induction false} AlignmentSound(ps: nat, image: seq<u8>, plan: Plan)
    requires ValidPageSize(ps) && GoodPlan(ps, image, plan)
    ensures var alignment := Max(ps, plan.biasAlignment);
            && 0 < alignment <= ADDRESS_SPACE
            && Rem(alignment, ps) == 0 && Rem(alignment, plan.biasAlignment) == 0
            && Rem(Rem(plan.minPage, alignment), ps) == 0
            && Rem(Rem(plan.minPage, alignment), alignment) == Rem(plan.minPage, alignment)
    ensures Rem(plan.maxPageEnd - plan.minPage, ps) == 0
  {
    hide IsPowerOfTwo;
    var alignment := Max(ps, plan.biasAlignment);
    PageSizePower(ps);
    PageSizeBounded(ps);
    Divides(ps, alignment);
    Divides(plan.biasAlignment, alignment);
    RemMultiple(plan.minPage, alignment, ps);
    RemSub(plan.minPage, plan.maxPageEnd, ps);
  }

  lemma {:induction false} PageSizePower(ps: nat)
    requires ValidPageSize(ps)
    ensures IsPowerOfTwo(ps)
  {
    QuotRem(ADDRESS_SPACE, ps);
    AddressSpacePower();
    DivisorOfPowerOfTwo(ps, ADDRESS_SPACE);
  }

  lemma {:induction false} AddressSpacePower()
    ensures IsPowerOfTwo(ADDRESS_SPACE)
  {
    assert IsPowerOfTwo(1);
    assert IsPowerOfTwo(2);
    PowerProduct(2, 2);
    PowerProduct(4, 4);
    PowerProduct(16, 16);
    PowerProduct(256, 256);
    PowerProduct(65536, 65536);
  }

  lemma {:induction false} PowerProduct(a: nat, b: nat)
    requires IsPowerOfTwo(a) && IsPowerOfTwo(b)
    ensures IsPowerOfTwo(a * b)
    decreases a
  {
    if a == 1 {
      assert a * b == b;
    } else {
      PowerProduct(a / 2, b);
      TwiceProduct(a, a / 2, b);
      TwicePower((a / 2) * b);
    }
  }

  lemma {:induction false} TwiceProduct(a: nat, half: nat, b: nat)
    requires a == 2 * half
    ensures a * b == 2 * (half * b)
  {
  }

  lemma {:induction false} TwicePower(n: nat)
    requires IsPowerOfTwo(n)
    ensures IsPowerOfTwo(2 * n)
  {
    assert (2 * n) / 2 == n;
  }

  lemma {:induction false} PageSizeBounded(ps: nat)
    requires ValidPageSize(ps)
    ensures ps <= ADDRESS_SPACE
  {
  }

  lemma {:induction false} Divides(a: nat, b: nat)
    requires IsPowerOfTwo(a) && IsPowerOfTwo(b) && a <= b
    ensures Rem(b, a) == 0
  {
    PowersDivide(a, b);
    QuotRem(b, a);
  }

  /** Reducing modulo a multiple of d keeps the remainder modulo d. */
  lemma {:induction false} RemMultiple(x: nat, alignment: nat, d: nat)
    requires d > 0 && alignment > 0 && Rem(alignment, d) == 0
    ensures Rem(Rem(x, alignment), d) == Rem(x, d)
    decreases x
  {
    if x >= alignment {
      RemMultiple(x - alignment, alignment, d);
      RemAdd(alignment, x - alignment, d);
    }
  }

  lemma {:induction false} RemDifference(a: nat, b: nat, d: nat)
    requires d > 0 && a <= b
    ensures Rem(a, d) == Rem(b, d) <==> Rem(b - a, d) == 0
  {
    if Rem(b - a, d) == 0 {
      RemAdd(b - a, a, d);
    }
    if Rem(a, d) == Rem(b, d) {
      RoundDown(a, d);
      RoundDown(b, d);
      RemSub(a - Rem(a, d), b - Rem(b, d), d);
    }
  }

  /** The bias is acceptable exactly when the base has the residue of the lowest page. */
  lemma {:induction false} BiasByResidue(ps: nat, image: seq<u8>, plan: Plan, b: nat)
    requires ValidPageSize(ps) && GoodPlan(ps, image, plan) && plan.imageType.Dynamic?
    requires b < ADDRESS_SPACE && plan.minPage <= b && b + (plan.maxPageEnd - plan.minPage) <= ADDRESS_SPACE
    ensures var alignment := Max(ps, plan.biasAlignment);
            BiasOf(ps, plan, Some(b)).Ok? <==> Rem(b, alignment) == Rem(plan.minPage, alignment)
  {
    hide IsPowerOfTwo, Rem;
    var alignment := Max(ps, plan.biasAlignment);
    var x := b - plan.minPage;
    AlignmentSound(ps, image, plan);
    RemDifference(plan.minPage, b, alignment);
    RemSub(plan.minPage, b, ps);
    RemMultiple(x, alignment, ps);
    RemMultiple(x, alignment, plan.biasAlignment);
    RemZero(ps);
    RemZero(plan.biasAlignment);
    assert plan.biasAlignment == 1 ==> Rem(x, plan.biasAlignment) == 0;
    assert alignment == ps || alignment == plan.biasAlignment;
    assert Rem(x, alignment) == 0 <==> Rem(x, ps) == 0 && Rem(x, plan.biasAlignment) == 0;
  }

  lemma {:induction false} RemZero(d: nat)
    requires d > 0
    ensures Rem(0, d) == 0
  {
  }

  lemma {:induction false} FitsSuitable(s: Space, image: seq<u8>, plan: Plan, w: Window, o: VaAllocator.SearchOptions)
    requires WellFormed(s) && GoodPlan(s.pageSize, image, plan) && plan.imageType.Dynamic? && w.end <= ADDRESS_SPACE
    requires o.begin == Max(w.begin, plan.minPage) && o.end == w.end && o.alignment == Max(s.pageSize, plan.biasAlignment)
    requires Rem(o.offset, o.alignment) == Rem(plan.minPage, o.alignment)
    ensures forall b :: VaAllocator.Fits(s, plan.maxPageEnd - plan.minPage, o, b) <==> Suitable(s, plan, w, b)
  {
    hide IsPowerOfTwo, Rem;
    var span := plan.maxPageEnd - plan.minPage;
    forall b ensures VaAllocator.Fits(s, span, o, b) <==> Suitable(s, plan, w, b) {
      if 0 <= b < ADDRESS_SPACE && plan.minPage <= b && b + span <= w.end {
        BiasByResidue(s.pageSize, image, plan, b);
      }
    }
  }

  // ------------------------------------------------------------------- the theorems

  /** The base that was found is accepted: without a host failure the load of that base
      succeeds, except when the entry point itself leaves the address space. */
  lemma {:induction false} PlacedBaseLoads(s: Space, image: seq<u8>, w: Window, b: u32)
    requires WellFormed(s) && PlanOf(s.pageSize, image).Ok? && PlanOf(s.pageSize, image).value.imageType.Dynamic?
    requires Suitable(s, PlanOf(s.pageSize, image).value, w, b)
    ensures var plan := PlanOf(s.pageSize, image).value;
            var bias := BiasOf(s.pageSize, plan, Some(b)).value;
            var r := LoadOutcome(s, image, Some(b));
            && (r.Ok? <==> plan.entry == 0 || plan.entry + bias < ADDRESS_SPACE)
            && (r.Err? ==> r.error == EntryAddressOverflow)
  {
    hide IsPowerOfTwo, Rem, PlanOf, LayoutOf, GoodPlan, GoodLayout, Free;
    var plan := PlanOf(s.pageSize, image).value;
    PlanSound(s.pageSize, image);
    LayoutSound(s.pageSize, image, plan, Some(b));
    var l := LayoutOf(s.pageSize, plan, Some(b));
    if l.Ok? {
      SpanCovers(s, image, plan, b, l.value);
    }
  }

  lemma {:induction false} SpanCovers(s: Space, image: seq<u8>, plan: Plan, b: u32, l: Layout)
    requires WellFormed(s) && GoodPlan(s.pageSize, image, plan) && GoodLayout(s.pageSize, image, plan, l)
    requires BiasOf(s.pageSize, plan, Some(b)) == Ok(l.bias)
    requires plan.imageType.Dynamic? && AllUnmapped(s, b, b + (plan.maxPageEnd - plan.minPage))
    ensures Free(s, l.placed)
  {
    hide IsPowerOfTwo, Rem;
    forall k | 0 <= k < |l.placed| ensures AllUnmapped(s, l.placed[k].start, l.placed[k].end) {
      var p := l.placed[k];
      assert p in PlacedAll(plan.segments, l.bias);
      var i :| 0 <= i < |plan.segments| && plan.segments[i] == p.segment;
      assert Covered(plan, plan.segments[i]);
    }
  }

  /** Every loaded segment keeps the gABI congruence: its guest address equals its file
      offset modulo its own alignment. */
  lemma {:induction false} LoadedCongruence(s: Space, image: seq<u8>, base: Option<u32>, p: Placed)
    requires WellFormed(s) && LoadOutcome(s, image, base).Ok? && p in LoadOutcome(s, image, base).value.placed
    requires p.segment.alignment > 1
    ensures Rem(p.guest, p.segment.alignment) == Rem(p.segment.offset, p.segment.alignment)
  {
    hide IsPowerOfTwo, Rem, PlanOf, LayoutOf, Free;
    LoadOutcomeSound(s, image, base);
    var plan := PlanOf(s.pageSize, image).value;
    var l := LoadOutcome(s, image, base).value;
    LayoutSound(s.pageSize, image, plan, base);
    CongruenceKept(s.pageSize, image, plan, base, l, p);
  }

  lemma {:induction false} CongruenceKept(ps: nat, image: seq<u8>, plan: Plan, base: Option<u32>, l: Layout, p: Placed)
    requires ValidPageSize(ps) && GoodPlan(ps, image, plan) && GoodLayout(ps, image, plan, l)
    requires BiasOf(ps, plan, base) == Ok(l.bias) && p in l.placed && p.segment.alignment > 1
    ensures Rem(p.guest, p.segment.alignment) == Rem(p.segment.offset, p.segment.alignment)
  {
    hide IsPowerOfTwo, Rem;
    var i :| 0 <= i < |plan.segments| && plan.segments[i] == p.segment;
    assert Covered(plan, plan.segments[i]) && GoodSegment(ps, image, plan.segments[i]);
    var a := p.segment.alignment;
    Divides(a, plan.biasAlignment);
    RemZero(a);
    if plan.imageType.Dynamic? {
      RemMultiple(l.bias, plan.biasAlignment, a);
    }
    assert Rem(l.bias, a) == 0;
    RemAdd(l.bias, p.segment.vaddr, a);
    assert l.bias + p.segment.vaddr == p.guest;
  }
}

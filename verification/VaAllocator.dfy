/** First-fit search for a free guest range (src/memory/guest_va_allocator.cpp). */
module VaAllocator {
  import opened Words
  import opened AddressSpaces
  import opened MappedMemory

  datatype SearchOptions = SearchOptions(begin: u32, end: nat, alignment: nat, offset: nat)

  datatype SearchError = InvalidRange | InvalidAlignment | SizeOverflow | NoSpace

  /** An address the search may return. */
  ghost predicate Fits(s: Space, length: nat, o: SearchOptions, a: int)
    requires |s.status| == ADDRESS_SPACE && o.alignment > 0
  {
    && o.begin <= a && a + length <= o.end
    && Rem(a, o.alignment) == Rem(o.offset, o.alignment)
    && AllUnmapped(s, a, a + length)
  }

  predicate BadRange(ps: nat, length: nat, o: SearchOptions)
    requires ps > 0
  {
    length == 0 || Rem(length, ps) != 0 || o.end > ADDRESS_SPACE || o.begin >= o.end
  }

  predicate BadAlignment(ps: nat, o: SearchOptions)
    requires ps > 0
  {
    || o.alignment == 0 || o.alignment > ADDRESS_SPACE || Rem(o.alignment, ps) != 0
    || Rem(Rem(o.offset, o.alignment), ps) != 0
  }

  /** The search returns the least fitting address, and NoSpace exactly when there is none. Every
      candidate and every end of a candidate is at most the size of the address space, so that the
      64-bit sums do not wrap. */
  method FindFreeRange(m: MappedGuestMemory, length: nat, o: SearchOptions) returns (r: Result<u32, SearchError>)
    requires m.Valid()
    ensures r == Err(InvalidRange) <==> BadRange(m.pageSize, length, o)
    ensures r == Err(SizeOverflow) <==> !BadRange(m.pageSize, length, o) && length > ADDRESS_SPACE
    ensures r == Err(InvalidAlignment) <==>
              !BadRange(m.pageSize, length, o) && length <= ADDRESS_SPACE && BadAlignment(m.pageSize, o)
    ensures r.Ok? ==> Fits(m.State(), length, o, r.value)
    ensures r.Ok? ==> forall b :: Fits(m.State(), length, o, b) ==> r.value <= b
    ensures r == Err(NoSpace) ==> forall b :: !Fits(m.State(), length, o, b)
  {
    var ps := m.pageSize;
    if BadRange(ps, length, o) {
      return Err(InvalidRange);
    }
    if length > ADDRESS_SPACE {
      return Err(SizeOverflow);
    }
    if BadAlignment(ps, o) {
      return Err(InvalidAlignment);
    }
    var offset := Rem(o.offset, o.alignment);
    var remainder := Rem(o.begin, o.alignment);
    var delta := if remainder <= offset then offset - remainder else o.alignment - (remainder - offset);
    FirstCandidate(o.begin, delta, o.alignment, offset);
    if delta > ADDRESS_SPACE - o.begin {
      return Err(NoSpace);
    }
    var candidate: nat := o.begin + delta;
    while candidate < o.end
      invariant o.begin <= candidate <= ADDRESS_SPACE && Rem(candidate, o.alignment) == offset
      invariant forall b :: Fits(m.State(), length, o, b) ==> candidate <= b
    {
      if candidate > ADDRESS_SPACE - length || length > o.end - candidate {
        return Err(NoSpace);
      }
      assert candidate + length <= ADDRESS_SPACE;
      CoarseAligned(candidate, o.alignment, ps);
      RemAdd(candidate, length, ps);
      var free := RangeIsFree(m, candidate, candidate + length);
      if free {
        return Ok(candidate);
      }
      forall b | Fits(m.State(), length, o, b) ensures candidate + o.alignment <= b {
        AlignedGap(candidate, b, o.alignment);
      }
      if o.alignment > ADDRESS_SPACE - candidate {
        break;
      }
      RemAdd(o.alignment, candidate, o.alignment);
      candidate := candidate + o.alignment;
    }
    return Err(NoSpace);
  }

  /** Congruence modulo a multiple of the page size is congruence modulo the page size. */
  lemma {:induction false} CoarseAligned(a: nat, alignment: nat, ps: nat)
    requires ps > 0 && alignment > 0 && Rem(alignment, ps) == 0 && Rem(Rem(a, alignment), ps) == 0
    ensures Rem(a, ps) == 0
    decreases a
  {
    if a >= alignment {
      CoarseAligned(a - alignment, alignment, ps);
      RemAdd(alignment, a - alignment, ps);
    }
  }

  /** begin + delta is the least address from begin on with the requested residue. */
  lemma {:induction false} FirstCandidate(begin: nat, delta: nat, alignment: nat, offset: nat)
    requires offset < alignment
    requires delta == var r := Rem(begin, alignment);
                      if r <= offset then offset - r else alignment - (r - offset)
    ensures Rem(begin + delta, alignment) == offset
    ensures forall b: nat :: begin <= b && Rem(b, alignment) == offset ==> begin + delta <= b
  {
    RemShift(begin, delta, alignment);
    forall b: nat | begin <= b && Rem(b, alignment) == offset ensures begin + delta <= b {
      if b < begin + delta { AlignedGap(b, begin + delta, alignment); }
    }
  }

  lemma {:induction false} RemShift(a: nat, b: nat, d: nat)
    requires d > 0
    ensures Rem(a + b, d) == Rem(Rem(a, d) + b, d)
    decreases a
  {
    if a >= d { RemShift(a - d, b, d); }
  }
}

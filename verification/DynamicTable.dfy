/** The dynamic section of a loaded image (src/elf/metadata/elf32_dynamic.cpp). */
module DynamicTable {
  import opened Words
  import opened Views
  import opened AddressSpaces
  import Layers
  import opened LoadPlans
  import opened Loader
  import opened LoadImages
  import opened Objects

  datatype DynamicError = InvalidRange | TruncatedEntry | ReadFailed | Unterminated

  const ENTRY_SIZE := 8
  const DT_NULL := 0

  /** bit_cast of a word to a signed 32-bit tag. */
  function SignedTag(w: u32): int { if w >= 0x8000_0000 then w - 0x1_0000_0000 else w }

  function DecodeEntry(b: seq<u8>, at: nat): DynamicEntry
    requires at + ENTRY_SIZE <= |b|
  {
    DynamicEntry(SignedTag(DecodeU32(b, at)), DecodeU32(b, at + 4))
  }

  function ParseFrom(v: View, d: LoadedDynamic, offset: nat, done: seq<DynamicEntry>): Result<seq<DynamicEntry>, DynamicError>
    requires d.guest + d.filesz <= ADDRESS_SPACE && offset <= d.filesz && (d.filesz - offset) % ENTRY_SIZE == 0
    decreases d.filesz - offset
  {
    if offset == d.filesz then Err(Unterminated)
    else match Read(v, d.guest + offset, ENTRY_SIZE)
         case None => Err(ReadFailed)
         case Some(bytes) =>
           var entry := DecodeEntry(bytes, 0);
           if entry.tag == DT_NULL then Ok(done + [entry])
           else ParseFrom(v, d, offset + ENTRY_SIZE, done + [entry])
  }

  function ParseDynamic(v: View, d: LoadedDynamic): Result<seq<DynamicEntry>, DynamicError> {
    if d.filesz > d.memsz || d.guest + d.memsz > ADDRESS_SPACE then Err(InvalidRange)
    else if d.filesz % ENTRY_SIZE != 0 then Err(TruncatedEntry)
    else ParseFrom(v, d, 0, [])
  }

  /** parse_elf32_dynamic. */
  method ParseDynamicSegment(v: View, d: LoadedDynamic) returns (r: Result<seq<DynamicEntry>, DynamicError>)
    ensures r == ParseDynamic(v, d)
  {
    hide DecodeU32, SignedTag, DecodeEntry;
    if d.filesz > d.memsz || d.guest + d.memsz > ADDRESS_SPACE {
      return Err(InvalidRange);
    }
    if d.filesz % ENTRY_SIZE != 0 {
      return Err(TruncatedEntry);
    }
    var entries := [];
    var offset := 0;
    while offset < d.filesz
      invariant 0 <= offset <= d.filesz && offset % ENTRY_SIZE == 0
      invariant ParseFrom(v, d, offset, entries) == ParseFrom(v, d, 0, [])
    {
      var bytes := Read(v, d.guest + offset, ENTRY_SIZE);
      if bytes.None? {
        return Err(ReadFailed);
      }
      var entry := DecodeEntry(bytes.value, 0);
      entries := entries + [entry];
      if entry.tag == DT_NULL {
        return Ok(entries);
      }
      offset := offset + ENTRY_SIZE;
    }
    return Err(Unterminated);
  }

  // ------------------------------------------------------- decoding the file itself

  /** The entries of a byte string up to and including the first DT_NULL. */
  function DecodeTable(b: seq<u8>, at: nat, done: seq<DynamicEntry>): Option<seq<DynamicEntry>>
    requires at <= |b| && (|b| - at) % ENTRY_SIZE == 0
    decreases |b| - at
  {
    if at == |b| then None
    else var entry := DecodeEntry(b, at);
         if entry.tag == DT_NULL then Some(done + [entry]) else DecodeTable(b, at + ENTRY_SIZE, done + [entry])
  }

  lemma {:induction false} ParseDecodes(v: View, d: LoadedDynamic, file: seq<u8>, offset: nat, done: seq<DynamicEntry>)
    requires d.guest + d.filesz <= ADDRESS_SPACE && offset <= d.filesz && (d.filesz - offset) % ENTRY_SIZE == 0
    requires Readable(v, d.guest, d.filesz) && Bytes(v, d.guest, d.filesz) == file
    ensures ParseFrom(v, d, offset, done) == match DecodeTable(file, offset, done)
                                             case Some(entries) => Ok(entries)
                                             case None => Err(Unterminated)
    decreases d.filesz - offset
  {
    hide DecodeU32, SignedTag, DecodeEntry;
    if offset < d.filesz {
      EntryAgrees(v, d, file, offset);
      var entry := DecodeEntry(file, offset);
      if entry.tag != DT_NULL { ParseDecodes(v, d, file, offset + ENTRY_SIZE, done + [entry]); }
    }
  }

  lemma {:induction false} EntryAgrees(v: View, d: LoadedDynamic, file: seq<u8>, offset: nat)
    requires d.guest + d.filesz <= ADDRESS_SPACE && offset + ENTRY_SIZE <= d.filesz
    requires Readable(v, d.guest, d.filesz) && Bytes(v, d.guest, d.filesz) == file
    ensures Read(v, d.guest + offset, ENTRY_SIZE).Some?
    ensures DecodeEntry(Read(v, d.guest + offset, ENTRY_SIZE).value, 0) == DecodeEntry(file, offset)
  {
    hide DecodeU32;
    var bytes := Bytes(v, d.guest + offset, ENTRY_SIZE);
    forall k | 0 <= k < ENTRY_SIZE ensures bytes[k] == file[offset + k] {
      assert bytes[k] == v[d.guest + (offset + k)];
    }
    DecodeSlice(file, offset, bytes, 0);
    DecodeSlice(file, offset, bytes, 4);
  }

  lemma {:induction false} DecodeSlice(file: seq<u8>, offset: nat, part: seq<u8>, at: nat)
    requires at + 4 <= |part| && offset + |part| <= |file|
    requires forall k :: 0 <= k < |part| ==> part[k] == file[offset + k]
    ensures DecodeU32(part, at) == DecodeU32(file, offset + at)
  {
  }

  /** In a freshly loaded memory the dynamic segment holds the file bytes of PT_DYNAMIC. */
  lemma {:induction false} LoadedDynamicBytes(s: Space, image: seq<u8>, base: Option<u32>, s': Space, load: Load)
    requires WellFormed(s) && Installed(s, image, base, s', load) && load.dynamicSegment.Some?
    ensures PlanOf(s.pageSize, image).Ok? && PlanOf(s.pageSize, image).value.dynamicRange.Some?
    ensures var d, e := PlanOf(s.pageSize, image).value.dynamicRange.value, load.dynamicSegment.value;
            && e.filesz == d.filesz && d.offset + d.filesz <= |image| && WellFormed(s')
            && e.filesz <= e.memsz && e.guest + e.memsz <= ADDRESS_SPACE
            && Readable(ViewOf(s'), e.guest, e.filesz)
            && Bytes(ViewOf(s'), e.guest, e.filesz) == image[d.offset..d.offset + d.filesz]
  {
    hide Rem, IsPowerOfTwo, PlanOf, LoadOutcome, Installed, LoadedSpace, GoodPlan, GoodLayout;
    InstalledFacts(s, image, base, s', load);
    var plan, l := PlanOf(s.pageSize, image).value, LoadOutcome(s, image, base).value;
    var d, e := plan.dynamicRange.value, load.dynamicSegment.value;
    DynamicInRange(s.pageSize, image, plan);
    DynamicBytesAt(s, image, plan, l);
    assert Bytes(ViewOf(s'), e.guest, e.filesz) == image[d.offset..d.offset + d.filesz];
  }

  /** What Installed says, in terms of the plan and the layout. */
  lemma {:induction false} InstalledFacts(s: Space, image: seq<u8>, base: Option<u32>, s': Space, load: Load)
    requires WellFormed(s) && Installed(s, image, base, s', load)
    ensures PlanOf(s.pageSize, image).Ok? && LoadOutcome(s, image, base).Ok? && WellFormed(s')
    ensures var plan, l := PlanOf(s.pageSize, image).value, LoadOutcome(s, image, base).value;
            && GoodPlan(s.pageSize, image, plan) && GoodLayout(s.pageSize, image, plan, l)
            && GoodPlacement(s.pageSize, image, l.placed) && Free(s, l.placed) && s' == LoadedSpace(s, l.placed, image)
            && load.dynamicSegment == l.dynamicSegment && load.bias == l.bias && load.relros == l.relros
            && plan.dynamicRange.Some? == load.dynamicSegment.Some?
            && (plan.dynamicRange.Some? ==>
                  && load.dynamicSegment.value.guest == plan.dynamicRange.value.vaddr + l.bias
                  && load.dynamicSegment.value.filesz == plan.dynamicRange.value.filesz
                  && load.dynamicSegment.value.memsz == plan.dynamicRange.value.memsz
                  && plan.dynamicRange.value.vaddr + l.bias + plan.dynamicRange.value.memsz <= ADDRESS_SPACE)
  {
    hide Rem, IsPowerOfTwo, PlanOf, LayoutOf, LoadedSpace, GoodPlan, GoodPlacement;
    LoadOutcomeSound(s, image, base);
    var plan, l := PlanOf(s.pageSize, image).value, LoadOutcome(s, image, base).value;
    LayeredWellFormed(s, RangesOf(l.placed), s');
    if plan.dynamicRange.Some? { var k := DynamicOwner(s.pageSize, image, plan, l); }
  }

  lemma {:induction false} DynamicBytesAt(s: Space, image: seq<u8>, plan: Plan, l: Layout)
    requires WellFormed(s) && GoodPlan(s.pageSize, image, plan) && GoodLayout(s.pageSize, image, plan, l)
    requires GoodPlacement(s.pageSize, image, l.placed) && Free(s, l.placed) && plan.dynamicRange.Some?
    ensures var d, t := plan.dynamicRange.value, LoadedSpace(s, l.placed, image);
            && d.offset + d.filesz <= |image| && d.vaddr + l.bias + d.filesz <= ADDRESS_SPACE
            && forall a :: d.vaddr + l.bias <= a < d.vaddr + l.bias + d.filesz ==>
                 Grants(t.status[a], READ_ONLY) && t.bytes[a] == image[d.offset + (a - (d.vaddr + l.bias))]
  {
    hide Rem, IsPowerOfTwo, GoodPlan, GoodLayout, LoadedSpace, GoodPlacement;
    var d, t := plan.dynamicRange.value, LoadedSpace(s, l.placed, image);
    DynamicInRange(s.pageSize, image, plan);
    var k := DynamicOwner(s.pageSize, image, plan, l);
    forall a | d.vaddr + l.bias <= a < d.vaddr + l.bias + d.filesz
      ensures Grants(t.status[a], READ_ONLY) && t.bytes[a] == image[d.offset + (a - (d.vaddr + l.bias))]
    {
      assert Inside(l.placed[k], a);
      LoadedSpaceMeaning(s, l.placed, image, a);
    }
  }

  lemma {:induction false} LayeredWellFormed(s: Space, rs: seq<Layers.Range>, s': Space)
    requires Layers.Layered(s, rs, s')
    ensures WellFormed(s') && s'.pageSize == s.pageSize
  {
  }

  lemma {:induction false} DynamicInRange(ps: nat, image: seq<u8>, plan: Plan)
    requires ps > 0 && GoodPlan(ps, image, plan) && plan.dynamicRange.Some?
    ensures GoodDynamic(image, plan.dynamicRange.value)
  {
  }

  /** The placed segment that holds the dynamic table, with the table's bytes at the table's address. */
  lemma {:induction false} DynamicOwner(ps: nat, image: seq<u8>, plan: Plan, l: Layout) returns (k: nat)
    requires ps > 0 && GoodPlan(ps, image, plan) && GoodLayout(ps, image, plan, l) && plan.dynamicRange.Some?
    ensures k < |l.placed|
    ensures var d, p := plan.dynamicRange.value, l.placed[k];
            && p.segment.permission.read
            && p.start <= d.vaddr + l.bias && d.vaddr + l.bias + d.memsz <= p.end <= ADDRESS_SPACE
            && (d.filesz != 0 ==> && p.guest <= d.vaddr + l.bias
                                  && d.vaddr + l.bias + d.filesz <= p.guest + p.segment.filesz
                                  && p.segment.offset + (d.vaddr + l.bias - p.guest) == d.offset)
  {
    hide Rem, IsPowerOfTwo;
    var d := plan.dynamicRange.value;
    var g :| g in plan.segments && HoldsDynamic(g, d);
    var p := At(g, l.bias);
    assert p in PlacedAll(plan.segments, l.bias);
    k :| 0 <= k < |l.placed| && l.placed[k] == p;
    assert GoodPlaced(ps, image, l.placed[k]);
  }

  /** After a load, parsing decodes exactly the image's PT_DYNAMIC bytes; the only failures are
      a size that is no multiple of eight and a missing DT_NULL, both visible in the image. */
  lemma {:induction false} ParseAfterLoad(s: Space, image: seq<u8>, base: Option<u32>, s': Space, load: Load)
    requires WellFormed(s) && Installed(s, image, base, s', load) && load.dynamicSegment.Some?
    ensures PlanOf(s.pageSize, image).Ok? && PlanOf(s.pageSize, image).value.dynamicRange.Some? && WellFormed(s')
    ensures var d := PlanOf(s.pageSize, image).value.dynamicRange.value;
            && d.offset + d.filesz <= |image|
            && ParseDynamic(ViewOf(s'), load.dynamicSegment.value)
               == (if d.filesz % ENTRY_SIZE != 0 then Err(TruncatedEntry)
                   else match DecodeTable(image[d.offset..d.offset + d.filesz], 0, [])
                        case Some(entries) => Ok(entries)
                        case None => Err(Unterminated))
  {
    hide Rem, IsPowerOfTwo, PlanOf, Installed;
    LoadedDynamicBytes(s, image, base, s', load);
    var d, e := PlanOf(s.pageSize, image).value.dynamicRange.value, load.dynamicSegment.value;
    if d.filesz % ENTRY_SIZE == 0 {
      ParseDecodes(ViewOf(s'), e, image[d.offset..d.offset + d.filesz], 0, []);
    }
  }
}

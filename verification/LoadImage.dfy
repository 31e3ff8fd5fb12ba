/** load_elf32: the mutating half of the loader (src/elf/loading/elf32_loader.cpp:33-242). */
module LoadImages {
  import opened Words
  import opened AddressSpaces
  import opened MappedMemory
  import opened LoadPlans
  import opened Layers
  import opened Loader
  import opened ImageHeaders
  import opened ImageMeaning

  const WRITE := Permission(false, true, false)

  function RangesOf(placed: seq<Placed>): (rs: seq<Range>)
    ensures |rs| == |placed| && forall k :: 0 <= k < |placed| ==> rs[k] == Range(placed[k].start, placed[k].end)
  {
    seq(|placed|, k requires 0 <= k < |placed| => Range(placed[k].start, placed[k].end))
  }

  /** All pages of the placed segments are free. */
  ghost predicate Free(s: Space, placed: seq<Placed>)
    requires |s.status| == ADDRESS_SPACE
  {
    forall k :: 0 <= k < |placed| ==> AllUnmapped(s, placed[k].start, placed[k].end)
  }

  function LoadOf(l: Layout): Load
    requires forall k :: 0 <= k < |l.placed| ==> Loadable(l.placed[k])
  {
    Load(l.bias, l.entry, seq(|l.placed|, k requires 0 <= k < |l.placed| => Loaded(l.placed[k])),
         l.dynamicSegment, l.relros)
  }

  /** The result of loading into a memory whose host never fails. */
  ghost function LoadOutcome(s: Space, image: seq<u8>, base: Option<u32>): Result<Layout, LoadError>
    requires WellFormed(s)
  {
    match PlanOf(s.pageSize, image)
    case Err(e) => Err(e)
    case Ok(plan) =>
      match LayoutOf(s.pageSize, plan, base)
      case Err(e) => Err(e)
      case Ok(l) => if Free(s, l.placed) then Ok(l) else Err(AddressConflict)
  }

  lemma {:induction false} LoadOutcomeSound(s: Space, image: seq<u8>, base: Option<u32>)
    requires WellFormed(s)
    ensures var r := LoadOutcome(s, image, base);
            r.Ok? ==> && PlanOf(s.pageSize, image).Ok?
                      && GoodPlan(s.pageSize, image, PlanOf(s.pageSize, image).value)
                      && GoodLayout(s.pageSize, image, PlanOf(s.pageSize, image).value, r.value)
                      && Free(s, r.value.placed)
  {
    PlanSound(s.pageSize, image);
    if PlanOf(s.pageSize, image).Ok? {
      LayoutSound(s.pageSize, image, PlanOf(s.pageSize, image).value, base);
    }
  }

  // --------------------------------------------------------------- address arithmetic

  method PlaceAllRelros(rs: seq<Relro>, bias: u32) returns (r: Result<seq<LoadedRelro>, LoadError>)
    ensures r == PlaceRelros(rs, bias, [])
  {
    var done := [];
    var i := 0;
    while i < |rs|
      invariant 0 <= i <= |rs|
      invariant PlaceRelros(rs[i..], bias, done) == PlaceRelros(rs, bias, [])
    {
      assert rs[i..][1..] == rs[i + 1..];
      var step := PlaceRelro(rs[i], bias);
      if step.Err? {
        return Err(step.error);
      }
      done := done + [step.value];
      i := i + 1;
    }
    return Ok(done);
  }

  method PlaceAllSegments(ss: seq<Segment>, bias: u32) returns (r: Result<seq<Placed>, LoadError>)
    ensures r == PlaceSegments(ss, bias, [])
  {
    var done := [];
    var i := 0;
    while i < |ss|
      invariant 0 <= i <= |ss|
      invariant PlaceSegments(ss[i..], bias, done) == PlaceSegments(ss, bias, [])
    {
      assert ss[i..][1..] == ss[i + 1..];
      if ss[i].memsz != 0 {
        var step := PlaceSegment(ss[i], bias);
        if step.Err? {
          return Err(step.error);
        }
        done := done + [step.value];
      }
      i := i + 1;
    }
    return Ok(done);
  }

  method ComputeLayout(ps: nat, plan: Plan, base: Option<u32>) returns (r: Result<Layout, LoadError>)
    requires ps > 0
    ensures r == LayoutOf(ps, plan, base)
  {
    var bias := BiasOf(ps, plan, base);
    if bias.Err? {
      return Err(bias.error);
    }
    var entry := EntryOf(plan, bias.value);
    if entry.Err? {
      return Err(entry.error);
    }
    var d := PlaceDynamicRange(plan, bias.value);
    if d.Err? {
      return Err(d.error);
    }
    var relros := PlaceAllRelros(plan.relros, bias.value);
    if relros.Err? {
      return Err(relros.error);
    }
    var placed := PlaceAllSegments(plan.segments, bias.value);
    if placed.Err? {
      return Err(placed.error);
    }
    return Ok(Layout(bias.value, entry.value, d.value, relros.value, placed.value));
  }

  /** The conflict preflight. */
  method CheckFree(m: MappedGuestMemory, placed: seq<Placed>, ghost image: seq<u8>) returns (free: bool)
    requires m.Valid() && GoodPlacement(m.pageSize, image, placed)
    ensures free == Free(m.State(), placed)
  {
    for i := 0 to |placed|
      invariant forall k :: 0 <= k < i ==> AllUnmapped(m.State(), placed[k].start, placed[k].end)
    {
      assert GoodPlaced(m.pageSize, image, placed[i]);
      var f := RangeIsFree(m, placed[i].start, placed[i].end);
      if !f {
        return false;
      }
    }
    return true;
  }

  // ------------------------------------------------------------------ map, copy, protect

  /** The memory once the first segments are mapped. */
  ghost function MappedSpace(base: Space, placed: seq<Placed>): Space
    requires |base.status| == ADDRESS_SPACE
    requires forall k :: 0 <= k < |placed| ==> placed[k].start <= placed[k].end <= ADDRESS_SPACE
  {
    base.(status := MapAll(base.status, placed))
  }

  method MapSegments(m: MappedGuestMemory, placed: seq<Placed>, ghost image: seq<u8>)
    returns (ok: bool, mapped: seq<Range>)
    requires m.Valid() && GoodPlacement(m.pageSize, image, placed) && Free(m.State(), placed)
    modifies m`pages, m`hostCalls
    ensures m.Valid() && Layered(old(m.State()), mapped, m.State())
    ensures mapped <= RangesOf(placed)
    ensures ok ==> mapped == RangesOf(placed) && m.State() == MappedSpace(old(m.State()), placed)
    ensures m.HostGrants() ==> ok
  {
    hide Rem;
    ghost var base := m.State();
    LayeredNothing(base, base);
    assert forall k :: 0 <= k < |placed| ==> GoodPlaced(m.pageSize, image, placed[k]);
    mapped := [];
    for i := 0 to |placed|
      invariant m.Valid() && mapped == RangesOf(placed[..i]) && m.State() == MappedSpace(base, placed[..i])
      invariant Layered(base, mapped, m.State())
    {
      var p := placed[i];
      MapStep(base, placed, i, image);
      ok := m.Map(p.start, p.end - p.start, READ_WRITE);
      if !ok {
        assert mapped <= RangesOf(placed);
        return;
      }
      mapped := mapped + [Range(p.start, p.end)];
    }
    assert placed[..|placed|] == placed;
    ok := true;
  }

  /** One mapping of the loop: it is possible, and adds one layer. */
  lemma {:induction false} MapStep(base: Space, placed: seq<Placed>, i: nat, image: seq<u8>)
    requires WellFormed(base) && GoodPlacement(base.pageSize, image, placed) && Free(base, placed) && i < |placed|
    requires forall k :: 0 <= k < |placed| ==> GoodPlaced(base.pageSize, image, placed[k])
    requires Layered(base, RangesOf(placed[..i]), MappedSpace(base, placed[..i]))
    ensures var s, p := MappedSpace(base, placed[..i]), placed[i];
            && CanMap(s, p.start, p.end - p.start, READ_WRITE)
            && WithPermission(s, p.start, p.end, READ_WRITE) == MappedSpace(base, placed[..i + 1])
    ensures RangesOf(placed[..i + 1]) == RangesOf(placed[..i]) + [Range(placed[i].start, placed[i].end)]
    ensures Layered(base, RangesOf(placed[..i + 1]), MappedSpace(base, placed[..i + 1]))
  {
    hide Rem;
    var p := placed[i];
    assert GoodPlaced(base.pageSize, image, p);
    StillFree(base, placed, i, image);
    assert placed[..i + 1][..i] == placed[..i];
    RemSub(p.start, p.end, base.pageSize);
    LayeredPush(base, RangesOf(placed[..i]), MappedSpace(base, placed[..i]), Range(p.start, p.end), READ_WRITE);
    assert RangesOf(placed[..i + 1]) == RangesOf(placed[..i]) + [Range(p.start, p.end)];
  }

  /** Mapping earlier segments leaves the pages of a later one free. */
  lemma {:induction false} StillFree(base: Space, placed: seq<Placed>, i: nat, image: seq<u8>)
    requires WellFormed(base) && GoodPlacement(base.pageSize, image, placed) && Free(base, placed) && i < |placed|
    ensures AllUnmapped(MappedSpace(base, placed[..i]), placed[i].start, placed[i].end)
  {
    assert forall k :: 0 <= k < |placed| ==> GoodPlaced(base.pageSize, image, placed[k]);
    forall a | placed[i].start <= a < placed[i].end && 0 <= a < ADDRESS_SPACE
      ensures MapAll(base.status, placed[..i])[a].Unmapped?
    {
      assert Inside(placed[i], a);
      MapAllAt(base.status, placed[..i], a);
    }
  }

  lemma {:induction false} SpliceZeros(bytes: seq<u8>, at: nat, n: nat, zeros: seq<u8>)
    requires at + n <= |bytes| && |zeros| == n && forall k :: 0 <= k < n ==> zeros[k] == 0
    requires forall a :: at <= a < at + n ==> bytes[a] == 0
    ensures Splice(bytes, at, zeros) == bytes
  {
  }

  /** Copying one segment and zeroing its tail.  A write can only fail when the segment
      is not writable; the zeroing of fresh pages changes nothing. */
  method CopySegment(m: MappedGuestMemory, p: Placed, image: seq<u8>) returns (ok: bool)
    requires m.Valid() && GoodPlaced(m.pageSize, image, p)
    requires forall a :: p.guest <= a < p.guest + p.segment.memsz ==> m.State().bytes[a] == 0
    modifies m.buffer
    ensures m.Valid() && m.State().status == old(m.State()).status
    ensures ok ==> m.State().bytes == Splice(old(m.State()).bytes, p.guest, FileBytes(image, p))
    ensures forall a :: 0 <= a < ADDRESS_SPACE && !Inside(p, a) ==> m.State().bytes[a] == old(m.State()).bytes[a]
    ensures !ok ==> !Accessible(old(m.State()), p.guest, p.segment.memsz, WRITE)
  {
    ok := true;
    if p.segment.filesz != 0 {
      ok := m.Write(p.guest, FileBytes(image, p));
      if !ok {
        return;
      }
    }
    ghost var copied := m.State();
    assert copied.bytes == Splice(old(m.State()).bytes, p.guest, FileBytes(image, p));
    var at, remaining := p.guest + p.segment.filesz, p.segment.memsz - p.segment.filesz;
    while remaining != 0 && ok
      invariant m.Valid() && m.State() == copied
      invariant 0 <= remaining && at + remaining == p.guest + p.segment.memsz
      invariant p.guest + p.segment.filesz <= at
      invariant !ok ==> !Accessible(old(m.State()), p.guest, p.segment.memsz, WRITE)
      decreases remaining, ok
    {
      var chunk := Min(remaining, 4096);
      var zeros: seq<u8> := seq(chunk, _ => 0);
      SpliceZeros(copied.bytes, at, chunk, zeros);
      ok := m.Write(at, zeros);
      if ok {
        at, remaining := at + chunk, remaining - chunk;
      }
    }
  }

  /** Every segment can be written. */
  ghost predicate Writable(s: Space, placed: seq<Placed>)
    requires |s.status| == ADDRESS_SPACE
  {
    forall k :: 0 <= k < |placed| ==> Accessible(s, placed[k].guest, placed[k].segment.memsz, WRITE)
  }

  method CopySegments(m: MappedGuestMemory, placed: seq<Placed>, image: seq<u8>) returns (ok: bool)
    requires m.Valid() && GoodPlacement(m.pageSize, image, placed)
    requires forall k, a :: 0 <= k < |placed| && Inside(placed[k], a) ==> m.State().bytes[a] == 0
    modifies m.buffer
    ensures m.Valid() && m.State().status == old(m.State()).status
    ensures ok ==> m.State().bytes == CopyAll(old(m.State()).bytes, placed, image)
    ensures SameOutside(old(m.State()), RangesOf(placed), m.State())
    ensures !ok ==> !Writable(old(m.State()), placed)
  {
    ok := true;
    ghost var base := m.State();
    assert forall k :: 0 <= k < |placed| ==> GoodPlaced(m.pageSize, image, placed[k]);
    var i := 0;
    while i < |placed| && ok
      invariant 0 <= i <= |placed| && m.Valid() && m.State().status == base.status
      invariant ok ==> m.State().bytes == CopyAll(base.bytes, placed[..i], image)
      invariant SameOutside(base, RangesOf(placed), m.State())
      invariant !ok ==> !Writable(base, placed)
    {
      if ok {
        ghost var before := m.State();
        StillZero(base, placed, i, image);
        assert placed[..i + 1][..i] == placed[..i];
        ok := CopySegment(m, placed[i], image);
        CopyStaysInside(base, placed, i, before, m.State());
      }
      i := i + 1;
    }
    assert ok ==> placed[..i] == placed;
  }

  lemma {:induction false} CopyStaysInside(base: Space, placed: seq<Placed>, i: nat, s: Space, s': Space)
    requires WellFormed(base) && WellFormed(s) && WellFormed(s') && i < |placed|
    requires SameOutside(base, RangesOf(placed), s) && s'.status == s.status
    requires forall a :: 0 <= a < ADDRESS_SPACE && !Inside(placed[i], a) ==> s'.bytes[a] == s.bytes[a]
    ensures SameOutside(base, RangesOf(placed), s')
  {
    forall a | 0 <= a < ADDRESS_SPACE && !Within(RangesOf(placed), a) ensures !Inside(placed[i], a) {
      assert !Holds(RangesOf(placed)[i], a);
    }
  }

  lemma {:induction false} StillZero(base: Space, placed: seq<Placed>, i: nat, image: seq<u8>)
    requires WellFormed(base) && GoodPlacement(base.pageSize, image, placed) && i < |placed|
    requires forall k, a :: 0 <= k < |placed| && Inside(placed[k], a) ==> base.bytes[a] == 0
    ensures forall a :: placed[i].guest <= a < placed[i].guest + placed[i].segment.memsz ==>
                          CopyAll(base.bytes, placed[..i], image)[a] == 0
  {
    assert GoodPlaced(base.pageSize, image, placed[i]);
    forall a | placed[i].guest <= a < placed[i].guest + placed[i].segment.memsz
      ensures CopyAll(base.bytes, placed[..i], image)[a] == 0
    {
      assert Inside(placed[i], a);
      OnlyOwner(base.pageSize, image, placed, i, a);
      CopyAllOutside(base.bytes, placed[..i], image, a);
    }
  }

  method ProtectSegments(m: MappedGuestMemory, placed: seq<Placed>, ghost image: seq<u8>) returns (ok: bool)
    requires m.Valid() && GoodPlacement(m.pageSize, image, placed)
    requires forall k :: 0 <= k < |placed| ==> AllMapped(m.State(), placed[k].start, placed[k].end)
    modifies m`pages, m`hostCalls
    ensures m.Valid() && m.State().bytes == old(m.State()).bytes
    ensures ok ==> m.State().status == ProtectAll(old(m.State()).status, placed)
    ensures SameOutside(old(m.State()), RangesOf(placed), m.State())
    ensures forall a :: 0 <= a < ADDRESS_SPACE ==> m.State().status[a].Mapped? == old(m.State()).status[a].Mapped?
    ensures m.HostGrants() ==> ok
  {
    hide Rem;
    ghost var base := m.State();
    for i := 0 to |placed|
      invariant m.Valid() && m.State() == base.(status := ProtectAll(base.status, placed[..i]))
    {
      var p := placed[i];
      assert GoodPlaced(m.pageSize, image, p);
      ProtectStep(base, placed, i, image);
      ProtectKeeps(base, placed[..i], placed, image);
      ok := m.Protect(p.start, p.end - p.start, p.segment.permission);
      if !ok {
        return;
      }
    }
    assert placed[..|placed|] == placed;
    ProtectKeeps(base, placed, placed, image);
    ok := true;
  }

  /** Protecting a prefix of the segments unmaps nothing and stays inside them. */
  lemma {:induction false} ProtectKeeps(base: Space, some: seq<Placed>, placed: seq<Placed>, image: seq<u8>)
    requires WellFormed(base) && GoodPlacement(base.pageSize, image, placed) && some <= placed
    requires forall k :: 0 <= k < |placed| ==> AllMapped(base, placed[k].start, placed[k].end)
    requires forall k :: 0 <= k < |placed| ==> GoodPlaced(base.pageSize, image, placed[k])
    ensures forall a :: 0 <= a < ADDRESS_SPACE ==> ProtectAll(base.status, some)[a].Mapped? == base.status[a].Mapped?
    ensures forall a :: 0 <= a < ADDRESS_SPACE && !Within(RangesOf(placed), a) ==>
                          ProtectAll(base.status, some)[a] == base.status[a]
  {
    forall a | 0 <= a < ADDRESS_SPACE
      ensures ProtectAll(base.status, some)[a].Mapped? == base.status[a].Mapped?
      ensures !Within(RangesOf(placed), a) ==> ProtectAll(base.status, some)[a] == base.status[a]
    {
      if k :| 0 <= k < |some| && Inside(some[k], a) {
        assert some[k] == placed[k] && Holds(RangesOf(placed)[k], a);
        ProtectAllInside(base.status, some, k, a);
        assert AllMapped(base, placed[k].start, placed[k].end);
      } else {
        ProtectAllOutside(base.status, some, a);
      }
    }
  }

  lemma {:induction false} ProtectStep(base: Space, placed: seq<Placed>, i: nat, image: seq<u8>)
    requires WellFormed(base) && GoodPlacement(base.pageSize, image, placed) && i < |placed|
    requires forall k :: 0 <= k < |placed| ==> AllMapped(base, placed[k].start, placed[k].end)
    requires forall k :: 0 <= k < |placed| ==> GoodPlaced(base.pageSize, image, placed[k])
    requires WellFormed(base.(status := ProtectAll(base.status, placed[..i])))
    ensures var s, p := base.(status := ProtectAll(base.status, placed[..i])), placed[i];
            && CanProtect(s, p.start, p.end - p.start, p.segment.permission)
            && WithPermission(s, p.start, p.end, p.segment.permission)
               == base.(status := ProtectAll(base.status, placed[..i + 1]))
  {
    hide Rem;
    var p := placed[i];
    assert GoodPlaced(base.pageSize, image, p) && AllMapped(base, p.start, p.end);
    assert placed[..i + 1][..i] == placed[..i];
    RemSub(p.start, p.end, base.pageSize);
    ProtectKeeps(base, placed[..i], placed, image);
  }

  // --------------------------------------------------------------------- the transaction

  lemma {:induction false} FreshZero(base: Space, placed: seq<Placed>)
    requires WellFormed(base) && Free(base, placed)
    requires forall k :: 0 <= k < |placed| ==> placed[k].end <= ADDRESS_SPACE
    ensures forall k, a :: 0 <= k < |placed| && Inside(placed[k], a) ==> base.bytes[a] == 0
  {
    forall k, a | 0 <= k < |placed| && Inside(placed[k], a) ensures base.bytes[a] == 0 {
      assert AllUnmapped(base, placed[k].start, placed[k].end);
      assert base.status[a].Unmapped?;
    }
  }

  /** Changing bytes and permissions inside the layers keeps them layers. */
  lemma {:induction false} SameLayers(base: Space, rs: seq<Range>, s: Space, s': Space)
    requires Layered(base, rs, s) && WellFormed(s') && s'.pageSize == s.pageSize && SameOutside(s, rs, s')
    requires forall a :: 0 <= a < ADDRESS_SPACE ==> s'.status[a].Mapped? == s.status[a].Mapped?
    ensures Layered(base, rs, s')
  {
  }

  lemma {:induction false} LayersMapped(base: Space, placed: seq<Placed>, s: Space)
    requires Layered(base, RangesOf(placed), s)
    ensures forall k :: 0 <= k < |placed| ==> AllMapped(s, placed[k].start, placed[k].end)
  {
    forall k, a | 0 <= k < |placed| && placed[k].start <= a < placed[k].end && 0 <= a < ADDRESS_SPACE
      ensures s.status[a].Mapped?
    {
      assert Holds(RangesOf(placed)[k], a);
      assert Within(RangesOf(placed), a);
    }
  }

  lemma {:induction false} PrefixOutside(base: Space, rs: seq<Range>, all: seq<Range>, s: Space)
    requires WellFormed(base) && WellFormed(s) && rs <= all && SameOutside(base, rs, s)
    ensures SameOutside(base, all, s)
  {
    forall a | !Within(all, a) ensures !Within(rs, a) {
      forall k | 0 <= k < |rs| ensures !Holds(rs[k], a) { assert rs[k] == all[k]; }
    }
  }

  /** The mapping phase leaves every segment writable. */
  lemma {:induction false} MappedWritable(base: Space, placed: seq<Placed>, image: seq<u8>)
    requires WellFormed(base) && GoodPlacement(base.pageSize, image, placed)
    ensures Writable(MappedSpace(base, placed), placed)
  {
    forall k | 0 <= k < |placed|
      ensures Accessible(MappedSpace(base, placed), placed[k].guest, placed[k].segment.memsz, WRITE)
    {
      assert GoodPlaced(base.pageSize, image, placed[k]);
      forall a | placed[k].guest <= a < placed[k].guest + placed[k].segment.memsz
        ensures Grants(MapAll(base.status, placed)[a], WRITE)
      {
        assert Inside(placed[k], a);
        MapAllAt(base.status, placed, a);
      }
    }
  }

  /** Mapping, copying and protecting as one transaction over a free layout. */
  method Install(m: MappedGuestMemory, placed: seq<Placed>, image: seq<u8>) returns (error: Option<LoadError>)
    requires m.Valid() && GoodPlacement(m.pageSize, image, placed) && Free(m.State(), placed)
    modifies m, m.buffer
    ensures m.Valid()
    ensures error.None? ==> m.State() == LoadedSpace(old(m.State()), placed, image)
    ensures error.None? ==> Layered(old(m.State()), RangesOf(placed), m.State())
    ensures error.Some? && m.HostReleases() ==> m.State() == old(m.State())
    ensures error.Some? ==> SameOutside(old(m.State()), RangesOf(placed), m.State())
    ensures error.Some? ==> error.value in {MapFailed, WriteFailed, ProtectFailed}
    ensures error == Some(WriteFailed) ==>
              !Writable(MappedSpace(old(m.State()), placed), placed)
    ensures m.HostGrants() ==> error.None? || error == Some(WriteFailed)
  {
    ghost var base := m.State();
    assert forall k :: 0 <= k < |placed| ==> GoodPlaced(m.pageSize, image, placed[k]);
    var ok, mapped := MapSegments(m, placed, image);
    if !ok {
      LayeredOwns(base, mapped, m.State());
      ok := Rollback(m, mapped, base);
      PrefixOutside(base, mapped, RangesOf(placed), m.State());
      return Some(MapFailed);
    }
    ghost var mappedState := m.State();
    FreshZero(base, placed);
    ok := CopySegments(m, placed, image);
    SameLayers(base, mapped, mappedState, m.State());
    if !ok {
      LayeredOwns(base, mapped, m.State());
      ok := Rollback(m, mapped, base);
      return Some(WriteFailed);
    }
    ghost var copied := m.State();
    LayersMapped(base, placed, copied);
    ok := ProtectSegments(m, placed, image);
    SameLayers(base, mapped, copied, m.State());
    if !ok {
      LayeredOwns(base, mapped, m.State());
      ok := Rollback(m, mapped, base);
      return Some(ProtectFailed);
    }
    return None;
  }

  lemma {:induction false} FreeOwned(s: Space, placed: seq<Placed>, image: seq<u8>)
    requires WellFormed(s) && GoodPlacement(s.pageSize, image, placed) && Free(s, placed)
    ensures Owned(s, RangesOf(placed))
  {
    hide Rem;
    assert forall k :: 0 <= k < |placed| ==> GoodPlaced(s.pageSize, image, placed[k]);
    forall a | 0 <= a < ADDRESS_SPACE && Within(RangesOf(placed), a)
      ensures s.status[a].Unmapped?
    {
      var k :| 0 <= k < |placed| && Holds(RangesOf(placed)[k], a);
    }
  }

  /** Installing on free pages: the write phase cannot fail, and no page mapped before is touched. */
  method InstallFree(m: MappedGuestMemory, placed: seq<Placed>, image: seq<u8>) returns (error: Option<LoadError>)
    requires m.Valid() && GoodPlacement(m.pageSize, image, placed) && Free(m.State(), placed)
    modifies m, m.buffer
    ensures m.Valid() && KeepsMapped(old(m.State()), m.State())
    ensures error.None? ==> m.State() == LoadedSpace(old(m.State()), placed, image)
    ensures error.None? ==> Layered(old(m.State()), RangesOf(placed), m.State())
    ensures error.Some? && m.HostReleases() ==> m.State() == old(m.State())
    ensures error.None? || error == Some(MapFailed) || error == Some(ProtectFailed)
    ensures m.HostGrants() ==> error.None?
  {
    hide LoadedSpace, GoodPlacement;
    ghost var before := m.State();
    MappedWritable(before, placed, image);
    error := Install(m, placed, image);
    FreeOwned(before, placed, image);
    if error.Some? {
      OutsideKeeps(before, RangesOf(placed), m.State());
    } else {
      LayeredOwns(before, RangesOf(placed), m.State());
    }
  }

  lemma {:induction false} PlacedEach(ps: nat, image: seq<u8>, placed: seq<Placed>)
    requires ps > 0 && GoodPlacement(ps, image, placed)
    ensures forall k :: 0 <= k < |placed| ==> GoodPlaced(ps, image, placed[k]) && Loadable(placed[k])
  {
    hide Rem;
  }

  /** load_elf32.  Success leaves exactly the loaded memory; a failure leaves the memory it
      found, as long as the host releases pages during rollback.  Unless the host refuses a
      mapping, the outcome is the one of the preflight: MapFailed, WriteFailed and
      ProtectFailed do not occur. */
  method LoadElf32(m: MappedGuestMemory, image: seq<u8>, base: Option<u32>) returns (r: Result<Load, LoadError>)
    requires m.Valid()
    modifies m, m.buffer
    ensures m.Valid()
    ensures r.Ok? ==> Installed(old(m.State()), image, base, m.State(), r.value)
    ensures r.Ok? ==> ImageLoaded(old(m.State()), image, base, m.State(), r.value)
    ensures LoadOutcome(old(m.State()), image, base).Err? ==>
              r == Err(LoadOutcome(old(m.State()), image, base).error) && m.State() == old(m.State())
    ensures r.Err? && m.HostReleases() ==> m.State() == old(m.State())
    ensures KeepsMapped(old(m.State()), m.State())
    ensures r.Err? && LoadOutcome(old(m.State()), image, base).Ok? ==>
              r.error == MapFailed || r.error == ProtectFailed
    ensures m.HostGrants() && LoadOutcome(old(m.State()), image, base).Ok? ==> r.Ok?
  {
    hide ImageLoaded, PlanOf, LayoutOf, GoodPlan, LoadedSpace, GoodPlacement, GoodPlaced, Layered, KeepsMapped, Free;
    ghost var before := m.State();
    KeepsItself(before);
    LoadOutcomeSound(before, image, base);
    PlanSound(m.pageSize, image);
    var planned := PlanLoad(m.pageSize, image);
    if planned.Err? {
      return Err(planned.error);
    }
    LayoutSound(m.pageSize, image, planned.value, base);
    var layout := ComputeLayout(m.pageSize, planned.value, base);
    if layout.Err? {
      return Err(layout.error);
    }
    var l := layout.value;
    var free := CheckFree(m, l.placed, image);
    if !free {
      return Err(AddressConflict);
    }
    var error := InstallFree(m, l.placed, image);
    PlacedEach(m.pageSize, image, l.placed);
    match error
    case Some(e) => return Err(e);
    case None =>
      InstalledMeaning(before, image, base, m.State(), LoadOf(l));
      return Ok(LoadOf(l));
  }

  /** `s'` is `s` with the image installed as the load describes. */
  ghost predicate Installed(s: Space, image: seq<u8>, base: Option<u32>, s': Space, load: Load)
    requires WellFormed(s)
  {
    var r := LoadOutcome(s, image, base);
    && r.Ok?
    && GoodPlacement(s.pageSize, image, r.value.placed)
    && (forall k :: 0 <= k < |r.value.placed| ==> GoodPlaced(s.pageSize, image, r.value.placed[k]))
    && load == LoadOf(r.value)
    && s' == LoadedSpace(s, r.value.placed, image)
    && Layered(s, RangesOf(r.value.placed), s')
  }

  /** An installed image, told by the bytes of its headers: at every address the permission of the flag
      bits and the file byte, everything else untouched, and a record that says the same. */
  lemma {:induction false} InstalledMeaning(s: Space, image: seq<u8>, base: Option<u32>, s': Space, load: Load)
    requires WellFormed(s) && Installed(s, image, base, s', load)
    ensures ImageLoaded(s, image, base, s', load)
  {
    hide PlanOf, LayoutOf, GoodPlan, GoodLayout, LoadedSpace, GoodPlacement, GoodPlaced, Layered, InMemory, LoadFrom, ElfHeader, PlacedAs;
    LoadOutcomeSound(s, image, base);
    var plan, l := PlanOf(s.pageSize, image).value, LoadOutcome(s, image, base).value;
    LayoutPlaces(s, image, plan, l);
    LoadedInMemory(s, image, l.bias, l.placed);
    forall k | 0 <= k < |l.placed| ensures Loadable(l.placed[k]) {
      PlacedLoadable(s.pageSize, image, l.placed[k]);
    }
    RecordFrom(s, image, plan, base, l, load);
  }

  lemma {:induction false} PlacedLoadable(ps: nat, image: seq<u8>, p: Placed)
    requires ps > 0 && GoodPlaced(ps, image, p)
    ensures Loadable(p)
  {
  }
}

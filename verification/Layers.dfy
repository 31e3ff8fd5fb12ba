/** Page ownership of a transaction: a memory that differs from a base memory exactly by
    ranges mapped on top of it, and the reverse-order rollback that takes them away
    (src/elf/loading/elf32_loader.cpp:165-169, src/elf/linking/elf32_dependency_loader.cpp:34-48). */
module Layers {
  import opened Words
  import opened AddressSpaces
  import opened MappedMemory

  datatype Range = Range(start: nat, end: nat)

  predicate Holds(r: Range, a: int) { r.start <= a < r.end }

  ghost predicate Within(rs: seq<Range>, a: int) {
    exists k :: 0 <= k < |rs| && Holds(rs[k], a)
  }

  predicate ValidRange(ps: nat, r: Range)
    requires ps > 0
  {
    r.start < r.end <= ADDRESS_SPACE && Rem(r.start, ps) == 0 && Rem(r.end, ps) == 0
  }

  ghost predicate DisjointRanges(rs: seq<Range>) {
    forall i, j, a :: 0 <= i < j < |rs| && Holds(rs[i], a) ==> !Holds(rs[j], a)
  }

  /** `s` is `base` with the pages of `rs`, unmapped in `base`, mapped on top. */
  ghost predicate Layered(base: Space, rs: seq<Range>, s: Space) {
    && WellFormed(base) && WellFormed(s) && s.pageSize == base.pageSize
    && (forall k :: 0 <= k < |rs| ==> ValidRange(base.pageSize, rs[k]))
    && DisjointRanges(rs)
    && (forall a :: 0 <= a < ADDRESS_SPACE && Within(rs, a) ==> base.status[a].Unmapped? && s.status[a].Mapped?)
    && SameOutside(base, rs, s)
  }

  ghost predicate SameOutside(base: Space, rs: seq<Range>, s: Space)
    requires WellFormed(base) && WellFormed(s)
  {
    forall a :: 0 <= a < ADDRESS_SPACE && !Within(rs, a) ==> s.status[a] == base.status[a] && s.bytes[a] == base.bytes[a]
  }

  lemma {:induction false} LayeredNothing(base: Space, s: Space)
    requires WellFormed(base)
    ensures Layered(base, [], s) <==> s == base
  {
    if Layered(base, [], s) {
      forall a | 0 <= a < ADDRESS_SPACE ensures s.status[a] == base.status[a] && s.bytes[a] == base.bytes[a] {
        assert !Within([], a);
      }
      assert s.status == base.status && s.bytes == base.bytes;
    }
  }

  lemma {:induction false} WithinPush(rs: seq<Range>, r: Range, a: int)
    ensures Within(rs + [r], a) <==> Within(rs, a) || Holds(r, a)
  {
    var all := rs + [r];
    if Within(rs, a) {
      var k :| 0 <= k < |rs| && Holds(rs[k], a);
      assert all[k] == rs[k];
    }
    if Holds(r, a) { assert all[|rs|] == r; }
  }

  lemma {:induction false} WithinPushAll(rs: seq<Range>, r: Range)
    ensures forall a :: Within(rs + [r], a) <==> Within(rs, a) || Holds(r, a)
  {
    forall a ensures Within(rs + [r], a) <==> Within(rs, a) || Holds(r, a) { WithinPush(rs, r, a); }
  }

  /** Mapping a free range adds a layer. */
  lemma {:induction false} LayeredPush(base: Space, rs: seq<Range>, s: Space, r: Range, p: Permission)
    requires Layered(base, rs, s) && ValidRange(base.pageSize, r) && AllUnmapped(s, r.start, r.end) && ValidPermission(p)
    ensures Layered(base, rs + [r], WithPermission(s, r.start, r.end, p))
  {
    WithinPushAll(rs, r);
    WithPermissionWellFormed(s, r.start, r.end, p);
    DisjointPush(rs, r, s, base);
  }

  lemma {:induction false} DisjointPush(rs: seq<Range>, r: Range, s: Space, base: Space)
    requires Layered(base, rs, s) && ValidRange(base.pageSize, r) && AllUnmapped(s, r.start, r.end)
    ensures DisjointRanges(rs + [r])
  {
    forall i, j, a | 0 <= i < j < |rs + [r]| && Holds((rs + [r])[i], a) ensures !Holds((rs + [r])[j], a) {
      if j == |rs| {
        assert ValidRange(base.pageSize, rs[i]);
        assert Within(rs, a);
        assert s.status[a].Mapped?;
      }
    }
  }

  /** Unmapping the last layer is possible and restores the layers below. */
  lemma {:induction false} LayeredPop(base: Space, rs: seq<Range>, r: Range, s: Space)
    requires Layered(base, rs + [r], s)
    ensures r.start < r.end <= ADDRESS_SPACE
    ensures CanUnmap(s, r.start, r.end - r.start)
    ensures Layered(base, rs, WithoutPages(s, r.start, r.end))
  {
    var all := rs + [r];
    assert all[|rs|] == r;
    WithinPushAll(rs, r);
    RemSub(r.start, r.end, base.pageSize);
    WithoutPagesWellFormed(s, r.start, r.end);
    assert forall k :: 0 <= k < |rs| ==> all[k] == rs[k];
    forall a | 0 <= a < ADDRESS_SPACE && Holds(r, a) ensures !Within(rs, a) {
      forall k | 0 <= k < |rs| ensures !Holds(rs[k], a) {
        assert Holds(all[|rs|], a) && all[k] == rs[k];
      }
    }
  }

  /** Layers on top of layers are layers. */
  lemma {:induction false} LayeredTransitive(base: Space, rs: seq<Range>, mid: Space, rs': seq<Range>, s: Space)
    requires Layered(base, rs, mid) && Layered(mid, rs', s)
    ensures Layered(base, rs + rs', s)
  {
    var all := rs + rs';
    WithinConcat(rs, rs');
    forall k | 0 <= k < |all| ensures ValidRange(base.pageSize, all[k]) {
      if k >= |rs| { assert all[k] == rs'[k - |rs|]; }
    }
    forall i, j, a | 0 <= i < j < |all| && Holds(all[i], a) ensures !Holds(all[j], a) {
      if i < |rs| <= j {
        assert ValidRange(base.pageSize, all[i]);
        assert Within(rs, a);
        assert !Within(rs', a);
        assert !Holds(rs'[j - |rs|], a);
      }
    }
  }

  lemma {:induction false} WithinConcat(rs: seq<Range>, rs': seq<Range>)
    ensures forall a :: Within(rs + rs', a) <==> Within(rs, a) || Within(rs', a)
  {
    var all := rs + rs';
    forall a ensures Within(all, a) <==> Within(rs, a) || Within(rs', a) {
      if Within(rs, a) {
        var k :| 0 <= k < |rs| && Holds(rs[k], a);
        assert Holds(all[k], a);
      }
      if Within(rs', a) {
        var k :| 0 <= k < |rs'| && Holds(rs'[k], a);
        assert Holds(all[|rs| + k], a);
      }
      if Within(all, a) {
        var k :| 0 <= k < |all| && Holds(all[k], a);
        if k >= |rs| { assert Holds(rs'[k - |rs|], a); }
      }
    }
  }

  /** One unmap: whatever the host does, nothing outside the range changes. */
  method Release(m: MappedGuestMemory, r: Range) returns (ok: bool)
    requires m.Valid() && ValidRange(m.pageSize, r)
    modifies m, m.buffer
    ensures m.Valid()
    ensures SameOutside(old(m.State()), [r], m.State())
    ensures ok ==> m.State() == WithoutPages(old(m.State()), r.start, r.end)
    ensures m.HostReleases() && CanUnmap(old(m.State()), r.start, r.end - r.start) ==> ok
  {
    assert forall a :: Holds([r][0], a) ==> Within([r], a);
    ok := m.Unmap(r.start, r.end - r.start);
  }

  lemma {:induction false} SameOutsideStep(base: Space, rs: seq<Range>, k: nat, s: Space, s': Space)
    requires WellFormed(base) && WellFormed(s) && WellFormed(s') && k < |rs|
    requires SameOutside(s, [rs[k]], s')
    ensures SameOutside(base, rs, s) ==> SameOutside(base, rs, s')
    ensures Owned(base, rs) && KeepsMapped(base, s) ==> KeepsMapped(base, s')
  {
    forall a | !Within(rs, a) ensures !Within([rs[k]], a) {
      assert !Holds(rs[k], a);
    }
  }

  /** The ranges are whole pages that `base` does not map. */
  ghost predicate Owned(base: Space, rs: seq<Range>)
    requires WellFormed(base)
  {
    && (forall k :: 0 <= k < |rs| ==> ValidRange(base.pageSize, rs[k]))
    && (forall a :: 0 <= a < ADDRESS_SPACE && Within(rs, a) ==> base.status[a].Unmapped?)
  }

  /** Every page that `base` maps is as it was. */
  ghost predicate KeepsMapped(base: Space, s: Space)
    requires WellFormed(base) && WellFormed(s)
  {
    forall a :: 0 <= a < ADDRESS_SPACE && base.status[a].Mapped? ==> s.status[a] == base.status[a] && s.bytes[a] == base.bytes[a]
  }

  lemma {:induction false} LayeredOwns(base: Space, rs: seq<Range>, s: Space)
    requires Layered(base, rs, s)
    ensures Owned(base, rs) && KeepsMapped(base, s)
  {
  }

  lemma {:induction false} KeepsItself(s: Space)
    requires WellFormed(s)
    ensures KeepsMapped(s, s)
  {
  }

  /** Changes confined to owned ranges keep what `base` maps. */
  lemma {:induction false} OutsideKeeps(base: Space, rs: seq<Range>, s: Space)
    requires WellFormed(base) && WellFormed(s) && Owned(base, rs) && SameOutside(base, rs, s)
    ensures KeepsMapped(base, s)
  {
  }

  /** Reverse-order unmapping of the layers.  It gives the base memory back whenever the
      ranges are exactly what lies on the base and the host releases the pages; whatever
      happens, the pages mapped in the base are left alone. */
  method Rollback(m: MappedGuestMemory, rs: seq<Range>, ghost base: Space) returns (ok: bool)
    requires m.Valid() && WellFormed(base) && base.pageSize == m.pageSize
    requires Owned(base, rs) && KeepsMapped(base, m.State())
    modifies m, m.buffer
    ensures m.Valid() && KeepsMapped(base, m.State())
    ensures Layered(base, rs, old(m.State())) ==> SameOutside(base, rs, m.State())
    ensures Layered(base, rs, old(m.State())) && ok ==> m.State() == base
    ensures Layered(base, rs, old(m.State())) && m.HostReleases() ==> ok
  {
    ghost var layered := Layered(base, rs, m.State());
    ok := true;
    var n := |rs|;
    assert rs[..n] == rs;
    while n > 0
      invariant 0 <= n <= |rs| && m.Valid()
      invariant layered && ok ==> Layered(base, rs[..n], m.State())
      invariant layered ==> SameOutside(base, rs, m.State())
      invariant layered && m.HostReleases() ==> ok
      invariant KeepsMapped(base, m.State())
    {
      n := n - 1;
      ghost var before := m.State();
      assert rs[..n + 1] == rs[..n] + [rs[n]];
      if layered && ok { LayeredPop(base, rs[..n], rs[n], before); }
      var released := Release(m, rs[n]);
      SameOutsideStep(base, rs, n, before, m.State());
      ok := ok && released;
    }
    if layered && ok {
      assert rs[..0] == [];
      LayeredNothing(base, m.State());
    }
  }
}

/** Sealing the RELRO pages of a load (src/elf/hardening/elf32_relro.cpp:31-150). */
module Relros {
  import opened Words
  import opened AddressSpaces
  import opened MappedMemory
  import opened LoadPlans
  import opened Loader
  import opened LoadImages
  import DynamicTable
  import opened SortedLists

  datatype RelroError =
    | InvalidOptions | InvalidMetadata | PageLimitExceeded | UnmappedPage(page: nat) | UnreadablePage(page: nat)
    | ExecutablePage(page: nat) | ProtectFailed(page: nat) | RollbackFailed(page: nat, rollback: nat)

  // ----------------------------------------------------------------------- the descriptors

  predicate GoodDescriptor(ps: nat, r: LoadedRelro)
    requires ps > 0
  {
    && r.memsz != 0 && r.mapSize != 0 && Rem(r.mapStart, ps) == 0 && Rem(r.mapSize, ps) == 0
    && r.guest + r.memsz <= ADDRESS_SPACE && r.mapStart + r.mapSize <= ADDRESS_SPACE
    && r.mapStart <= r.guest && r.guest + r.memsz <= r.mapStart + r.mapSize
  }

  /** The first descriptor that is malformed or exceeds the page budget. */
  function DescriptorError(ps: nat, rs: seq<LoadedRelro>, left: nat): (e: Option<RelroError>)
    requires ps > 0
    ensures e.Some? ==> e.value == InvalidMetadata || e.value == PageLimitExceeded
  {
    if rs == [] then None
    else if !GoodDescriptor(ps, rs[0]) then Some(InvalidMetadata)
    else if Quot(rs[0].mapSize, ps) > left then Some(PageLimitExceeded)
    else DescriptorError(ps, rs[1..], left - Quot(rs[0].mapSize, ps))
  }

  /** Address `a` lies in a rounded RELRO range. */
  predicate InRelro(rs: seq<LoadedRelro>, a: int) {
    exists k :: 0 <= k < |rs| && rs[k].mapStart <= a < rs[k].mapStart + rs[k].mapSize
  }

  /** `pages` are the distinct page starts of the ranges, in order. */
  ghost predicate PagesOf(ps: nat, rs: seq<LoadedRelro>, pages: seq<nat>)
    requires ps > 0
  {
    && Increasing(pages)
    && forall p: nat :: p in pages <==> Rem(p, ps) == 0 && InRelro(rs, p)
  }

  /** The page starts of one range. */
  method RangePages(ps: nat, r: LoadedRelro) returns (pages: seq<nat>)
    requires ps > 0 && GoodDescriptor(ps, r)
    ensures forall p: nat :: p in pages <==> Rem(p, ps) == 0 && r.mapStart <= p < r.mapStart + r.mapSize
  {
    hide Rem;
    pages := [];
    var page: nat, end := r.mapStart, r.mapStart + r.mapSize;
    RemAdd(r.mapStart, r.mapSize, ps);
    while page < end
      invariant r.mapStart <= page <= end && Rem(page, ps) == 0
      invariant forall p: nat :: p in pages <==> Rem(p, ps) == 0 && r.mapStart <= p < page
    {
      AlignedGap(page, end, ps);
      forall p: nat | Rem(p, ps) == 0 && page < p
        ensures page + ps <= p
      {
        AlignedGap(page, p, ps);
      }
      RemStep(page, ps);
      pages := pages + [page];
      page := page + ps;
    }
  }

  lemma {:induction false} RemStep(page: nat, ps: nat)
    requires ps > 0 && Rem(page, ps) == 0
    ensures Rem(page + ps, ps) == 0
  {
    RemAdd(page, ps, ps);
  }

  /** The first loop: check every descriptor and collect its pages. */
  method CollectPages(ps: nat, rs: seq<LoadedRelro>, maxPages: u32) returns (r: Result<seq<nat>, RelroError>)
    requires ps > 0
    ensures r.Err? ==> DescriptorError(ps, rs, maxPages) == Some(r.error)
    ensures r.Ok? ==> DescriptorError(ps, rs, maxPages).None?
    ensures r.Ok? ==> forall p: nat :: p in r.value <==> Rem(p, ps) == 0 && InRelro(rs, p)
    ensures r.Ok? ==> forall k :: 0 <= k < |rs| ==> GoodDescriptor(ps, rs[k])
  {
    hide Rem, Quot, GoodDescriptor;
    var pages: seq<nat> := [];
    var declared: nat := 0;
    for k := 0 to |rs|
      invariant declared <= maxPages && DescriptorError(ps, rs, maxPages) == DescriptorError(ps, rs[k..], maxPages - declared)
      invariant forall p: nat :: p in pages <==> Rem(p, ps) == 0 && InRelro(rs[..k], p)
      invariant forall j :: 0 <= j < k ==> GoodDescriptor(ps, rs[j])
    {
      assert rs[k..][1..] == rs[k + 1..];
      assert rs[..k + 1] == rs[..k] + [rs[k]];
      if !GoodDescriptor(ps, rs[k]) {
        return Err(InvalidMetadata);
      }
      var count := Quot(rs[k].mapSize, ps);
      if count > maxPages - declared {
        return Err(PageLimitExceeded);
      }
      declared := declared + count;
      var more := RangePages(ps, rs[k]);
      InRelroPush(rs[..k], rs[k]);
      pages := pages + more;
    }
    assert rs[..|rs|] == rs;
    return Ok(pages);
  }

  lemma {:induction false} InRelroPush(rs: seq<LoadedRelro>, r: LoadedRelro)
    ensures forall p: int :: InRelro(rs + [r], p) <==> InRelro(rs, p) || r.mapStart <= p < r.mapStart + r.mapSize
  {
    var all := rs + [r];
    forall p: int
      ensures InRelro(all, p) <==> InRelro(rs, p) || r.mapStart <= p < r.mapStart + r.mapSize
    {
      if InRelro(rs, p) {
        var k :| 0 <= k < |rs| && rs[k].mapStart <= p < rs[k].mapStart + rs[k].mapSize;
        assert all[k] == rs[k];
      }
      if r.mapStart <= p < r.mapStart + r.mapSize {
        assert all[|rs|] == r;
      }
    }
  }

  // ------------------------------------------------------------------------- sealed pages

  predicate OnPages(ps: nat, pages: seq<nat>, a: int) {
    exists k :: 0 <= k < |pages| && pages[k] <= a < pages[k] + ps
  }

  /** `s` with the given pages read-only. */
  ghost function SealedPages(s: Space, pages: seq<nat>): (t: Space)
    requires |s.status| == ADDRESS_SPACE
    ensures t.pageSize == s.pageSize && t.bytes == s.bytes && |t.status| == ADDRESS_SPACE
    ensures forall a {:trigger t.status[a]} :: 0 <= a < ADDRESS_SPACE ==>
              t.status[a] == if OnPages(s.pageSize, pages, a) then Mapped(READ_ONLY) else s.status[a]
  {
    s.(status := seq(ADDRESS_SPACE, a requires 0 <= a < ADDRESS_SPACE =>
                       if OnPages(s.pageSize, pages, a) then Mapped(READ_ONLY) else s.status[a]))
  }

  /** `s` with the union of the rounded RELRO ranges read-only and nothing else changed. */
  ghost function Sealed(s: Space, rs: seq<LoadedRelro>): (t: Space)
    requires |s.status| == ADDRESS_SPACE
    ensures t.pageSize == s.pageSize && t.bytes == s.bytes && |t.status| == ADDRESS_SPACE
    ensures forall a {:trigger t.status[a]} :: 0 <= a < ADDRESS_SPACE ==>
              t.status[a] == if InRelro(rs, a) then Mapped(READ_ONLY) else s.status[a]
  {
    s.(status := seq(ADDRESS_SPACE, a requires 0 <= a < ADDRESS_SPACE => if InRelro(rs, a) then Mapped(READ_ONLY) else s.status[a]))
  }

  /** A page start in a rounded range has its whole page in it; an address in it has its page start in it. */
  lemma {:induction false} RangeWholePages(ps: nat, r: LoadedRelro, page: nat, a: nat)
    requires ps > 0 && GoodDescriptor(ps, r) && Rem(page, ps) == 0
    ensures r.mapStart <= page < r.mapStart + r.mapSize && page <= a < page + ps ==> r.mapStart <= a < r.mapStart + r.mapSize
  {
    hide Rem;
    RemAdd(r.mapStart, r.mapSize, ps);
    if page < r.mapStart + r.mapSize {
      AlignedGap(page, r.mapStart + r.mapSize, ps);
    }
  }

  lemma {:induction false} RangePageStart(ps: nat, r: LoadedRelro, a: nat) returns (page: nat)
    requires ps > 0 && GoodDescriptor(ps, r) && r.mapStart <= a < r.mapStart + r.mapSize
    ensures Rem(page, ps) == 0 && r.mapStart <= page <= a < page + ps
  {
    hide Rem;
    RemAdd(r.mapStart, r.mapSize, ps);
    page := PageStart(a, ps, r.mapStart, r.mapStart + r.mapSize);
  }

  /** The pages of the ranges cover exactly the ranges. */
  lemma {:induction false} PagesCover(ps: nat, rs: seq<LoadedRelro>, pages: seq<nat>, a: nat)
    requires ps > 0 && PagesOf(ps, rs, pages) && forall k :: 0 <= k < |rs| ==> GoodDescriptor(ps, rs[k])
    ensures OnPages(ps, pages, a) <==> InRelro(rs, a)
  {
    hide Rem, Increasing, GoodDescriptor;
    if OnPages(ps, pages, a) {
      var k :| 0 <= k < |pages| && pages[k] <= a < pages[k] + ps;
      assert pages[k] in pages;
      var j :| 0 <= j < |rs| && rs[j].mapStart <= pages[k] < rs[j].mapStart + rs[j].mapSize;
      RangeWholePages(ps, rs[j], pages[k], a);
    }
    if InRelro(rs, a) {
      var j :| 0 <= j < |rs| && rs[j].mapStart <= a < rs[j].mapStart + rs[j].mapSize;
      var page := RangePageStart(ps, rs[j], a);
      assert page in pages;
    }
  }

  lemma {:induction false} SealedByPages(s: Space, rs: seq<LoadedRelro>, pages: seq<nat>)
    requires WellFormed(s) && PagesOf(s.pageSize, rs, pages) && forall k :: 0 <= k < |rs| ==> GoodDescriptor(s.pageSize, rs[k])
    ensures SealedPages(s, pages) == Sealed(s, rs)
  {
    hide PagesOf, GoodDescriptor, WellFormed, InRelro, OnPages;
    SizeFacts(s);
    var t, u := SealedPages(s, pages), Sealed(s, rs);
    forall a | 0 <= a < ADDRESS_SPACE
      ensures t.status[a] == u.status[a]
    {
      PagesCover(s.pageSize, rs, pages, a);
    }
    assert t.status == u.status;
  }

  lemma {:induction false} SizeFacts(s: Space)
    requires WellFormed(s)
    ensures ValidPageSize(s.pageSize) && |s.status| == |s.bytes| == ADDRESS_SPACE
  {
  }

  // -------------------------------------------------------------------------- permissions

  /** Why a page cannot be sealed. */
  function PageError(st: PageState, page: nat): Option<RelroError> {
    if st.Unmapped? then Some(UnmappedPage(page))
    else if !st.permission.read then Some(UnreadablePage(page))
    else if st.permission.execute then Some(ExecutablePage(page))
    else None
  }

  /** The first page that cannot be sealed, in address order. */
  function FirstPageError(status: seq<PageState>, pages: seq<nat>): (e: Option<RelroError>)
    requires forall k :: 0 <= k < |pages| ==> pages[k] < |status|
    ensures e.Some? ==> e.value.UnmappedPage? || e.value.UnreadablePage? || e.value.ExecutablePage?
  {
    if pages == [] then None
    else match PageError(status[pages[0]], pages[0])
         case Some(e) => Some(e)
         case None => FirstPageError(status, pages[1..])
  }

  lemma {:induction false} NoPageError(status: seq<PageState>, pages: seq<nat>)
    requires forall k :: 0 <= k < |pages| ==> pages[k] < |status|
    ensures FirstPageError(status, pages).None? <==> forall k :: 0 <= k < |pages| ==> PageError(status[pages[k]], pages[k]).None?
  {
    if pages != [] {
      NoPageError(status, pages[1..]);
      assert forall k :: 0 < k < |pages| ==> pages[k] == pages[1..][k - 1];
    }
  }

  /** The whole preflight. */
  function SealProblem(s: Space, rs: seq<LoadedRelro>, maxPages: u32, pages: seq<nat>): Option<RelroError>
    requires s.pageSize > 0 && forall k :: 0 <= k < |pages| ==> pages[k] < |s.status|
  {
    if rs == [] then None
    else if maxPages == 0 then Some(InvalidOptions)
    else match DescriptorError(s.pageSize, rs, maxPages)
         case Some(e) => Some(e)
         case None => FirstPageError(s.status, pages)
  }

  // ------------------------------------------------------------------------------ the loops

  /** Whole, distinct, mapped pages. */
  ghost predicate GoodPages(s: Space, pages: seq<nat>)
    requires WellFormed(s)
  {
    && Increasing(pages)
    && forall k :: 0 <= k < |pages| ==> Rem(pages[k], s.pageSize) == 0 && pages[k] + s.pageSize <= ADDRESS_SPACE
  }

  lemma {:induction false} PagesFit(s: Space, rs: seq<LoadedRelro>, pages: seq<nat>)
    requires WellFormed(s) && PagesOf(s.pageSize, rs, pages) && forall k :: 0 <= k < |rs| ==> GoodDescriptor(s.pageSize, rs[k])
    ensures GoodPages(s, pages) && forall k :: 0 <= k < |pages| ==> pages[k] < ADDRESS_SPACE
  {
    hide Rem, Increasing;
    forall k | 0 <= k < |pages|
      ensures Rem(pages[k], s.pageSize) == 0 && pages[k] + s.pageSize <= ADDRESS_SPACE
    {
      assert pages[k] in pages;
      AlignedGap(pages[k], ADDRESS_SPACE, s.pageSize);
    }
  }

  /** The status of a whole page is that of its start. */
  lemma {:induction false} PageStatus(s: Space, page: nat, a: nat)
    requires WellFormed(s) && Rem(page, s.pageSize) == 0 && page <= a < page + s.pageSize <= ADDRESS_SPACE
    ensures s.status[a] == s.status[page]
  {
    hide Rem, Quot;
    RemStep(page, s.pageSize);
    var start := PageStart(a, s.pageSize, page, page + s.pageSize);
    if page < start {
      AlignedGap(page, start, s.pageSize);
    }
    assert SamePage(start, a, s.pageSize);
  }

  /** Making one more page read-only. */
  lemma {:induction false} SealOne(s: Space, pages: seq<nat>, page: nat)
    requires WellFormed(s) && page + s.pageSize <= ADDRESS_SPACE
    ensures WithPermission(SealedPages(s, pages), page, page + s.pageSize, READ_ONLY) == SealedPages(s, pages + [page])
  {
    hide WellFormed;
    SizeFacts(s);
    var t := WithPermission(SealedPages(s, pages), page, page + s.pageSize, READ_ONLY);
    var u := SealedPages(s, pages + [page]);
    forall a | 0 <= a < ADDRESS_SPACE
      ensures t.status[a] == u.status[a]
    {
      OnPagesPush(s.pageSize, pages, page, a);
    }
    assert t.status == u.status;
  }

  lemma {:induction false} OnPagesPush(ps: nat, pages: seq<nat>, page: nat, a: int)
    ensures OnPages(ps, pages + [page], a) <==> OnPages(ps, pages, a) || page <= a < page + ps
  {
    var all := pages + [page];
    if OnPages(ps, pages, a) {
      var k :| 0 <= k < |pages| && pages[k] <= a < pages[k] + ps;
      assert all[k] == pages[k];
    }
    if page <= a < page + ps {
      assert all[|pages|] == page;
    }
  }

  /** Giving the last page its permissions back. */
  lemma {:induction false} RestoreOne(s: Space, pages: seq<nat>, page: nat, p: Permission)
    requires WellFormed(s) && GoodPages(s, pages + [page]) && page + s.pageSize <= ADDRESS_SPACE && s.status[page] == Mapped(p)
    ensures WithPermission(SealedPages(s, pages + [page]), page, page + s.pageSize, p) == SealedPages(s, pages)
  {
    hide WellFormed, Rem;
    SizeFacts(s);
    var all := pages + [page];
    assert all[|pages|] == page;
    var t := WithPermission(SealedPages(s, all), page, page + s.pageSize, p);
    var u := SealedPages(s, pages);
    forall a | 0 <= a < ADDRESS_SPACE
      ensures t.status[a] == u.status[a]
    {
      OnPagesPush(s.pageSize, pages, page, a);
      if page <= a < page + s.pageSize {
        PageStatus(s, page, a);
        NotBefore(s, pages, page, a);
      }
    }
    assert t.status == u.status;
  }

  /** Distinct pages do not overlap. */
  lemma {:induction false} NotBefore(s: Space, pages: seq<nat>, page: nat, a: nat)
    requires WellFormed(s) && GoodPages(s, pages + [page]) && page <= a
    ensures !OnPages(s.pageSize, pages, a)
  {
    hide WellFormed, Rem;
    SizeFacts(s);
    var all := pages + [page];
    assert all[|pages|] == page;
    forall k | 0 <= k < |pages|
      ensures pages[k] + s.pageSize <= page
    {
      assert all[k] == pages[k] && all[k] < all[|pages|];
      AlignedGap(pages[k], page, s.pageSize);
    }
  }

  /** The check of every page before the first change. */
  method CheckPages(m: MappedGuestMemory, pages: seq<nat>) returns (e: Option<RelroError>)
    requires m.Valid() && forall k :: 0 <= k < |pages| ==> pages[k] < ADDRESS_SPACE
    ensures e == FirstPageError(m.State().status, pages)
  {
    for k := 0 to |pages|
      invariant FirstPageError(m.State().status, pages) == FirstPageError(m.State().status, pages[k..])
    {
      assert pages[k..][1..] == pages[k + 1..];
      if !m.IsMapped(pages[k]) {
        return Some(UnmappedPage(pages[k]));
      }
      var p := m.PermissionsAt(pages[k]);
      if !p.read {
        return Some(UnreadablePage(pages[k]));
      }
      if p.execute {
        return Some(ExecutablePage(pages[k]));
      }
    }
    return None;
  }

  /** Pages accepted by the preflight: readable and not executable. */
  ghost predicate Sealable(s: Space, pages: seq<nat>)
    requires WellFormed(s)
  {
    GoodPages(s, pages) && forall k :: 0 <= k < |pages| ==> PageError(s.status[pages[k]], pages[k]).None?
  }

  /** The part of `t` that differs from `s` is read-only and lies on `pages`. */
  ghost predicate PartlySealed(s: Space, pages: seq<nat>, t: Space)
    requires |s.status| == ADDRESS_SPACE
  {
    exists some: seq<nat> :: (forall x :: x in some ==> x in pages) && t == SealedPages(s, some)
  }

  lemma {:induction false} SealNothing(s: Space)
    requires WellFormed(s)
    ensures SealedPages(s, []) == s
  {
    assert SealedPages(s, []).status == s.status;
  }

  predicate Unwritable(s: Space, pages: seq<nat>)
    requires forall k :: 0 <= k < |pages| ==> pages[k] < |s.status|
  {
    forall k :: 0 <= k < |pages| ==> !Grants(s.status[pages[k]], Permission(false, true, false))
  }

  /** Undo in reverse; stops at the first page the host refuses. */
  method RestorePages(m: MappedGuestMemory, changed: seq<nat>, originals: seq<Permission>, ghost base: Space)
    returns (culprit: Option<nat>, ghost left: nat)
    requires m.Valid() && WellFormed(base) && base.pageSize == m.pageSize && GoodPages(base, changed) && |originals| == |changed|
    requires forall k :: 0 <= k < |changed| ==> base.status[changed[k]] == Mapped(originals[k])
    requires m.State() == SealedPages(base, changed)
    modifies m`pages, m`hostCalls
    ensures m.Valid() && left <= |changed| && m.State() == SealedPages(base, changed[..left])
    ensures culprit.None? ==> m.State() == base
  {
    hide WellFormed, Rem, SealedPages;
    SizeFacts(base);
    var n := |changed|;
    assert changed[..n] == changed;
    while n > 0
      invariant 0 <= n <= |changed| && m.Valid() && m.State() == SealedPages(base, changed[..n])
    {
      var page := changed[n - 1];
      assert changed[..n] == changed[..n - 1] + [page];
      var ok := m.Protect(page, m.pageSize, originals[n - 1]);
      if !ok {
        return Some(page), n;
      }
      GoodPrefix(base, changed, n);
      RestoreOne(base, changed[..n - 1], page, originals[n - 1]);
      n := n - 1;
      // The page has its permissions back, so the second test of the source cannot fail.
    }
    SealNothing(base);
    assert changed[..0] == [];
    return None, 0;
  }

  lemma {:induction false} GoodPrefix(s: Space, pages: seq<nat>, n: nat)
    requires WellFormed(s) && GoodPages(s, pages) && n <= |pages|
    ensures GoodPages(s, pages[..n])
  {
  }

  /** What the sealing loop knows after `i` pages. */
  ghost predicate Sealing(s: Space, pages: seq<nat>, i: nat, changed: seq<nat>, originals: seq<Permission>)
    requires WellFormed(s) && Sealable(s, pages) && i <= |pages|
  {
    && GoodPages(s, changed) && |originals| == |changed|
    && (forall k :: 0 <= k < |changed| ==> s.status[changed[k]] == Mapped(originals[k]) && changed[k] in pages[..i])
    && (forall j :: 0 <= j < i ==> pages[j] in changed || s.status[pages[j]] == Mapped(READ_ONLY))
  }

  lemma {:induction false} SealingSkip(s: Space, pages: seq<nat>, i: nat, changed: seq<nat>, originals: seq<Permission>)
    requires WellFormed(s) && Sealable(s, pages) && i < |pages| && Sealing(s, pages, i, changed, originals)
    requires s.status[pages[i]].Mapped? && !s.status[pages[i]].permission.write
    ensures Sealing(s, pages, i + 1, changed, originals)
  {
    hide WellFormed, Rem, Increasing;
    SizeFacts(s);
    assert pages[..i + 1] == pages[..i] + [pages[i]];
    assert PageError(s.status[pages[i]], pages[i]).None?;
  }

  lemma {:induction false} SealingPush(s: Space, pages: seq<nat>, i: nat, changed: seq<nat>, originals: seq<Permission>)
    requires WellFormed(s) && Sealable(s, pages) && i < |pages| && Sealing(s, pages, i, changed, originals)
    requires s.status[pages[i]].Mapped?
    ensures Sealing(s, pages, i + 1, changed + [pages[i]], originals + [s.status[pages[i]].permission])
  {
    hide WellFormed, Rem;
    assert pages[..i + 1] == pages[..i] + [pages[i]];
    var more := changed + [pages[i]];
    forall j, k | 0 <= j < k < |more|
      ensures more[j] < more[k]
    {
      if k == |changed| {
        assert changed[j] in pages[..i];
      }
    }
    assert forall j :: 0 <= j < i ==> pages[j] in changed ==> pages[j] in more;
    assert more[|changed|] == pages[i];
  }

  /** The pages the loop skipped were read-only already. */
  lemma {:induction false} SealingDone(s: Space, pages: seq<nat>, changed: seq<nat>, originals: seq<Permission>)
    requires WellFormed(s) && Sealable(s, pages) && Sealing(s, pages, |pages|, changed, originals)
    ensures SealedPages(s, changed) == SealedPages(s, pages)
  {
    hide WellFormed, Rem, Increasing;
    SizeFacts(s);
    assert pages[..|pages|] == pages;
    var t, u := SealedPages(s, changed), SealedPages(s, pages);
    forall a | 0 <= a < ADDRESS_SPACE
      ensures t.status[a] == u.status[a]
    {
      SealingDoneAt(s, pages, changed, originals, a);
    }
    assert t.status == u.status;
  }

  lemma {:induction false} SealingDoneAt(s: Space, pages: seq<nat>, changed: seq<nat>, originals: seq<Permission>, a: nat)
    requires WellFormed(s) && Sealable(s, pages) && Sealing(s, pages, |pages|, changed, originals) && a < ADDRESS_SPACE
    ensures OnPages(s.pageSize, changed, a) ==> OnPages(s.pageSize, pages, a)
    ensures OnPages(s.pageSize, pages, a) && !OnPages(s.pageSize, changed, a) ==> s.status[a] == Mapped(READ_ONLY)
  {
    hide WellFormed, Rem, Increasing;
    SizeFacts(s);
    assert pages[..|pages|] == pages;
    if OnPages(s.pageSize, changed, a) {
      var k :| 0 <= k < |changed| && changed[k] <= a < changed[k] + s.pageSize;
      var j :| 0 <= j < |pages| && pages[j] == changed[k];
    } else if OnPages(s.pageSize, pages, a) {
      var k :| 0 <= k < |pages| && pages[k] <= a < pages[k] + s.pageSize;
      PageStatus(s, pages[k], a);
    }
  }

  /** The next page is whole and mapped, and not yet changed. */
  lemma {:induction false} NextProtectable(s: Space, pages: seq<nat>, i: nat, changed: seq<nat>, originals: seq<Permission>)
    requires WellFormed(s) && Sealable(s, pages) && i < |pages| && Sealing(s, pages, i, changed, originals)
    ensures pages[i] + s.pageSize <= ADDRESS_SPACE && s.status[pages[i]].Mapped?
    ensures WellFormed(SealedPages(s, changed)) ==> CanProtect(SealedPages(s, changed), pages[i], s.pageSize, READ_ONLY)
  {
    hide WellFormed, Increasing;
    SizeFacts(s);
    assert PageError(s.status[pages[i]], pages[i]).None?;
    RemStep(0, s.pageSize);
    forall a | pages[i] <= a < pages[i] + s.pageSize
      ensures SealedPages(s, changed).status[a].Mapped?
    {
      PageStatus(s, pages[i], a);
    }
  }

  /** The second loop: protect every writable page, undo on failure. */
  method ProtectPages(m: MappedGuestMemory, pages: seq<nat>) returns (e: Option<RelroError>)
    requires m.Valid() && Sealable(m.State(), pages)
    modifies m`pages, m`hostCalls
    ensures m.Valid()
    ensures e.None? ==> m.State() == SealedPages(old(m.State()), pages)
    ensures e.Some? ==> e.value.ProtectFailed? || e.value.RollbackFailed?
    ensures e.Some? && e.value.ProtectFailed? ==> m.State() == old(m.State())
    ensures e.Some? && e.value.RollbackFailed? ==> PartlySealed(old(m.State()), pages, m.State())
    ensures m.HostGrants() ==> e.None?
    ensures Unwritable(old(m.State()), pages) ==> e.None?
  {
    hide WellFormed, Rem, Increasing, SealedPages, Sealing, PartlySealed, CanProtect;
    ghost var base := m.State();
    var changed: seq<nat>, originals: seq<Permission> := [], [];
    SealNothing(base);
    SealingNone(base, pages);
    for i := 0 to |pages|
      invariant m.Valid() && m.State() == SealedPages(base, changed) && Sealing(base, pages, i, changed, originals)
    {
      NextProtectable(base, pages, i, changed, originals);
      NotYetChanged(base, pages, i, changed, originals);
      var original := m.PermissionsAt(pages[i]);
      if !original.write {
        SealingSkip(base, pages, i, changed, originals);
        continue;
      }
      var ok := m.Protect(pages[i], m.pageSize, READ_ONLY);
      if !ok {
        SealingFacts(base, pages, i, changed, originals);
        var culprit: Option<nat>;
        ghost var left: nat;
        culprit, left := RestorePages(m, changed, originals, base);
        if culprit.Some? {
          Partly(base, pages, i, changed, originals, left);
          return Some(RollbackFailed(pages[i], culprit.value));
        }
        return Some(RelroError.ProtectFailed(pages[i]));
      }
      SealOne(base, changed, pages[i]);
      SealingPush(base, pages, i, changed, originals);
      changed, originals := changed + [pages[i]], originals + [original];
    }
    SealingDone(base, pages, changed, originals);
    return None;
  }

  lemma {:induction false} SealingNone(s: Space, pages: seq<nat>)
    requires WellFormed(s) && Sealable(s, pages)
    ensures Sealing(s, pages, 0, [], [])
  {
  }

  lemma {:induction false} SealingFacts(s: Space, pages: seq<nat>, i: nat, changed: seq<nat>, originals: seq<Permission>)
    requires WellFormed(s) && Sealable(s, pages) && i <= |pages| && Sealing(s, pages, i, changed, originals)
    ensures GoodPages(s, changed) && |originals| == |changed|
    ensures forall k :: 0 <= k < |changed| ==> s.status[changed[k]] == Mapped(originals[k])
  {
  }

  lemma {:induction false} Partly(s: Space, pages: seq<nat>, i: nat, changed: seq<nat>, originals: seq<Permission>, left: nat)
    requires WellFormed(s) && Sealable(s, pages) && i <= |pages| && Sealing(s, pages, i, changed, originals) && left <= |changed|
    ensures PartlySealed(s, pages, SealedPages(s, changed[..left]))
  {
    hide WellFormed, Rem, SealedPages;
    var some := changed[..left];
    assert forall x :: x in some ==> x in pages;
  }

  /** A page not yet reached still has its own status. */
  lemma {:induction false} NotYetChanged(s: Space, pages: seq<nat>, i: nat, changed: seq<nat>, originals: seq<Permission>)
    requires WellFormed(s) && Sealable(s, pages) && i < |pages| && Sealing(s, pages, i, changed, originals)
    ensures SealedPages(s, changed).status[pages[i]] == s.status[pages[i]]
  {
    hide WellFormed, Rem;
    SizeFacts(s);
    forall k | 0 <= k < |changed|
      ensures changed[k] + s.pageSize <= pages[i]
    {
      assert changed[k] in pages[..i];
      AlignedGap(changed[k], pages[i], s.pageSize);
    }
  }

  // --------------------------------------------------------------------------- the operation

  /** Check every page, then protect them. */
  method SealPages(m: MappedGuestMemory, pages: seq<nat>) returns (e: Option<RelroError>)
    requires m.Valid() && GoodPages(m.State(), pages) && forall k :: 0 <= k < |pages| ==> pages[k] < ADDRESS_SPACE
    modifies m`pages, m`hostCalls
    ensures m.Valid()
    ensures FirstPageError(old(m.State()).status, pages).Some? ==> e == FirstPageError(old(m.State()).status, pages)
    ensures FirstPageError(old(m.State()).status, pages).None? ==>
              e.None? || (e.Some? && (e.value.ProtectFailed? || e.value.RollbackFailed?))
    ensures e.None? ==> m.State() == SealedPages(old(m.State()), pages)
    ensures e.Some? && !e.value.RollbackFailed? ==> m.State() == old(m.State())
    ensures e.Some? && e.value.RollbackFailed? ==> PartlySealed(old(m.State()), pages, m.State())
    ensures FirstPageError(old(m.State()).status, pages).None? && (m.HostGrants() || Unwritable(old(m.State()), pages)) ==> e.None?
  {
    hide WellFormed, SealedPages, PartlySealed, Rem, GoodPages;
    NoPageError(m.State().status, pages);
    e := CheckPages(m, pages);
    if e.None? {
      e := ProtectPages(m, pages);
    }
  }

  /** seal_elf32_gnu_relro.  Success makes exactly the union of the rounded ranges
      read-only, whatever the overlaps, and reports the number of distinct pages; a
      failure other than RollbackFailed changes nothing, and RollbackFailed has only made
      RELRO pages read-only.  Bytes never change. */
  method Seal(m: MappedGuestMemory, rs: seq<LoadedRelro>, maxPages: u32) returns (r: Result<nat, RelroError>, ghost pages: seq<nat>)
    requires m.Valid()
    modifies m`pages, m`hostCalls
    ensures m.Valid()
    ensures forall k :: 0 <= k < |pages| ==> pages[k] < ADDRESS_SPACE
    ensures (rs == [] || maxPages > 0) && DescriptorError(m.pageSize, rs, maxPages).None? ==> PagesOf(m.pageSize, rs, pages)
    ensures SealProblem(old(m.State()), rs, maxPages, pages).Some? ==> r == Err(SealProblem(old(m.State()), rs, maxPages, pages).value)
    ensures SealProblem(old(m.State()), rs, maxPages, pages).None? ==>
              r == Ok(|pages|) || (r.Err? && (r.error.ProtectFailed? || r.error.RollbackFailed?))
    ensures r.Ok? ==> m.State() == Sealed(old(m.State()), rs)
    ensures r.Err? && !r.error.RollbackFailed? ==> m.State() == old(m.State())
    ensures r.Err? && r.error.RollbackFailed? ==> PartlySealed(old(m.State()), pages, m.State())
    ensures SealProblem(old(m.State()), rs, maxPages, pages).None? && m.HostGrants() ==> r.Ok?
    ensures SealProblem(old(m.State()), rs, maxPages, pages).None? && Unwritable(old(m.State()), pages) ==> r.Ok?
  {
    hide WellFormed, PagesOf, GoodDescriptor, Sealed, SealedPages, PartlySealed, Rem;
    ghost var before := m.State();
    SizeFacts(before);
    pages := [];
    if rs == [] {
      NoRelro(before);
      return Ok(0), [];
    }
    if maxPages == 0 {
      return Err(InvalidOptions), [];
    }
    var collected := CollectPages(m.pageSize, rs, maxPages);
    if collected.Err? {
      return Err(collected.error), [];
    }
    var sorted := SortUnique(collected.value);
    pages := sorted;
    AssemblePages(m.pageSize, rs, collected.value, sorted);
    PagesFit(before, rs, sorted);
    var e := SealPages(m, sorted);
    if e.Some? {
      return Err(e.value), sorted;
    }
    SealedByPages(before, rs, sorted);
    return Ok(|sorted|), sorted;
  }

  lemma {:induction false} NoRelro(s: Space)
    requires WellFormed(s)
    ensures Sealed(s, []) == s && PagesOf(s.pageSize, [], [])
  {
    assert Sealed(s, []).status == s.status;
  }

  lemma {:induction false} AssemblePages(ps: nat, rs: seq<LoadedRelro>, all: seq<nat>, pages: seq<nat>)
    requires ps > 0 && Increasing(pages) && forall j :: j in pages <==> j in all
    requires forall p: nat :: p in all <==> Rem(p, ps) == 0 && InRelro(rs, p)
    ensures PagesOf(ps, rs, pages)
  {
  }

  /** A range of whole pages inside the address space, around a non-empty RELRO segment. */
  predicate WholePages(ps: nat, r: LoadedRelro)
    requires ps > 0
  {
    && r.memsz > 0 && r.mapSize > 0 && r.mapStart % ps == 0 && r.mapSize % ps == 0
    && r.mapStart <= r.guest && r.guest + r.memsz <= r.mapStart + r.mapSize <= ADDRESS_SPACE
  }

  /** The pages of all ranges, counted with repetition. */
  function TotalPages(ps: nat, rs: seq<LoadedRelro>): nat
    requires ps > 0
  {
    if rs == [] then 0 else rs[0].mapSize / ps + TotalPages(ps, rs[1..])
  }

  lemma {:induction false} DescriptorExact(ps: nat, r: LoadedRelro)
    requires ps > 0
    ensures GoodDescriptor(ps, r) <==> WholePages(ps, r)
  {
    hide Rem;
    QuotRem(r.mapStart, ps);
    QuotRem(r.mapSize, ps);
  }

  lemma {:induction false} DescriptorsExact(ps: nat, rs: seq<LoadedRelro>, left: nat)
    requires ps > 0
    ensures DescriptorError(ps, rs, left).None? <==> (forall k :: 0 <= k < |rs| ==> WholePages(ps, rs[k])) && TotalPages(ps, rs) <= left
  {
    hide GoodDescriptor, WholePages, Quot;
    if rs == [] {
      return;
    }
    DescriptorExact(ps, rs[0]);
    QuotRem(rs[0].mapSize, ps);
    assert forall k :: 0 < k < |rs| ==> rs[k] == rs[1..][k - 1];
    if WholePages(ps, rs[0]) && Quot(rs[0].mapSize, ps) <= left {
      DescriptorsExact(ps, rs[1..], left - Quot(rs[0].mapSize, ps));
    }
  }

  /** Every address of the ranges is mapped, readable and not executable. */
  ghost predicate DataOnly(s: Space, rs: seq<LoadedRelro>)
    requires |s.status| == ADDRESS_SPACE
  {
    forall a: nat :: a < ADDRESS_SPACE && InRelro(rs, a) ==>
      s.status[a].Mapped? && s.status[a].permission.read && !s.status[a].permission.execute
  }

  lemma {:induction false} PagesDataOnly(s: Space, rs: seq<LoadedRelro>, pages: seq<nat>)
    requires WellFormed(s) && PagesOf(s.pageSize, rs, pages) && forall k :: 0 <= k < |rs| ==> GoodDescriptor(s.pageSize, rs[k])
    ensures (forall k :: 0 <= k < |pages| ==> pages[k] < ADDRESS_SPACE && PageError(s.status[pages[k]], pages[k]).None?) <==> DataOnly(s, rs)
  {
    hide WellFormed, Rem, Increasing, GoodDescriptor;
    PagesFit(s, rs, pages);
    SizeFacts(s);
    forall k | 0 <= k < |pages|
      ensures InRelro(rs, pages[k])
    {
      assert pages[k] in pages;
    }
    if forall k :: 0 <= k < |pages| ==> PageError(s.status[pages[k]], pages[k]).None? {
      forall a: nat | a < ADDRESS_SPACE && InRelro(rs, a)
        ensures s.status[a].Mapped? && s.status[a].permission.read && !s.status[a].permission.execute
      {
        var page := PageOf(s, rs, pages, a);
      }
    }
  }

  /** The page of an address of the ranges is one of the pages, with the same status. */
  lemma {:induction false} PageOf(s: Space, rs: seq<LoadedRelro>, pages: seq<nat>, a: nat) returns (k: nat)
    requires WellFormed(s) && PagesOf(s.pageSize, rs, pages) && forall i :: 0 <= i < |rs| ==> GoodDescriptor(s.pageSize, rs[i])
    requires a < ADDRESS_SPACE && InRelro(rs, a)
    ensures k < |pages| && pages[k] < ADDRESS_SPACE && s.status[a] == s.status[pages[k]]
  {
    hide Rem, Increasing, WellFormed, GoodDescriptor, PagesOf;
    SizeFacts(s);
    var i :| 0 <= i < |rs| && rs[i].mapStart <= a < rs[i].mapStart + rs[i].mapSize;
    var start := RangePageStart(s.pageSize, rs[i], a);
    assert InRelro(rs, start);
    k := ListedPage(s.pageSize, rs, pages, start);
    AlignedGap(start, ADDRESS_SPACE, s.pageSize);
    PageStatus(s, start, a);
  }

  lemma {:induction false} ListedPage(ps: nat, rs: seq<LoadedRelro>, pages: seq<nat>, page: nat) returns (k: nat)
    requires ps > 0 && PagesOf(ps, rs, pages) && Rem(page, ps) == 0 && InRelro(rs, page)
    ensures k < |pages| && pages[k] == page
  {
    hide Rem, Increasing, InRelro;
    assert page in pages;
    k :| 0 <= k < |pages| && pages[k] == page;
  }

  /** Exactly when sealing passes its checks: nothing to seal, or whole pages within the budget, all of
      them mapped, readable and not executable. */
  lemma {:induction false} SealExact(s: Space, rs: seq<LoadedRelro>, maxPages: u32, pages: seq<nat>)
    requires WellFormed(s) && forall k :: 0 <= k < |pages| ==> pages[k] < ADDRESS_SPACE
    requires DescriptorError(s.pageSize, rs, maxPages).None? ==> PagesOf(s.pageSize, rs, pages)
    ensures SealProblem(s, rs, maxPages, pages).None? <==>
              || rs == []
              || (&& maxPages > 0 && (forall k :: 0 <= k < |rs| ==> WholePages(s.pageSize, rs[k])) && TotalPages(s.pageSize, rs) <= maxPages
                  && DataOnly(s, rs))
  {
    hide WellFormed, DataOnly, DescriptorError, PagesOf, WholePages, FirstPageError, PageError, GoodDescriptor;
    SizeFacts(s);
    DescriptorsExact(s.pageSize, rs, maxPages);
    if DescriptorError(s.pageSize, rs, maxPages).None? {
      NoPageError(s.status, pages);
      forall k | 0 <= k < |rs| ensures GoodDescriptor(s.pageSize, rs[k]) {
        DescriptorExact(s.pageSize, rs[k]);
      }
      PagesDataOnly(s, rs, pages);
    }
  }

  /** Sealing is idempotent: a sealed memory passes the preflight again, needs no host
      call and stays as it is. */
  lemma {:induction false} SealTwice(s: Space, rs: seq<LoadedRelro>, maxPages: u32, pages: seq<nat>)
    requires WellFormed(s) && PagesOf(s.pageSize, rs, pages) && forall k :: 0 <= k < |rs| ==> GoodDescriptor(s.pageSize, rs[k])
    requires forall k :: 0 <= k < |pages| ==> pages[k] < ADDRESS_SPACE
    requires SealProblem(s, rs, maxPages, pages).None?
    ensures SealProblem(Sealed(s, rs), rs, maxPages, pages).None?
    ensures Sealed(Sealed(s, rs), rs) == Sealed(s, rs)
    ensures Unwritable(Sealed(s, rs), pages)
  {
    hide Rem, GoodDescriptor, WellFormed, DescriptorError;
    SizeFacts(s);
    var t := Sealed(s, rs);
    forall k | 0 <= k < |pages|
      ensures t.status[pages[k]] == Mapped(READ_ONLY)
    {
      assert pages[k] in pages;
    }
    NoPageError(t.status, pages);
    assert Sealed(t, rs).status == t.status;
  }

  /** The page count is determined by the ranges. */
  lemma {:induction false} PagesUnique(ps: nat, rs: seq<LoadedRelro>, pages: seq<nat>, other: seq<nat>)
    requires ps > 0 && PagesOf(ps, rs, pages) && PagesOf(ps, rs, other)
    ensures pages == other
  {
    hide Rem, InRelro, Increasing;
    IncreasingUnique(pages, other);
  }

  // -------------------------------------------------------------------------- after a load

  lemma {:induction false} DescriptorsGood(ps: nat, rs: seq<LoadedRelro>, left: nat)
    requires ps > 0 && forall k :: 0 <= k < |rs| ==> GoodDescriptor(ps, rs[k])
    ensures DescriptorError(ps, rs, left) != Some(InvalidMetadata)
  {
    hide GoodDescriptor, Quot;
    if rs != [] && Quot(rs[0].mapSize, ps) <= left {
      DescriptorsGood(ps, rs[1..], left - Quot(rs[0].mapSize, ps));
    }
  }

  /** A planned RELRO range, placed at an aligned bias, is a good descriptor. */
  lemma {:induction false} PlacedDescriptor(ps: nat, r: Relro, bias: u32)
    requires ps > 0 && GoodRelro(ps, r) && RelroFits(r, bias) && Rem(bias, ps) == 0
    ensures GoodDescriptor(ps, RelroAt(r, bias))
  {
    hide Rem;
    RemAdd(bias, r.mapStart, ps);
    RemSub(r.mapStart, r.mapEnd, ps);
  }

  /** An address of a placed RELRO range lies in a readable loaded segment. */
  lemma {:induction false} RelroReadable(s: Space, image: seq<u8>, plan: Plan, l: Layout, k: nat, a: nat)
    requires WellFormed(s) && GoodPlan(s.pageSize, image, plan) && GoodLayout(s.pageSize, image, plan, l) && Free(s, l.placed)
    requires k < |l.relros| && l.relros[k].mapStart <= a < l.relros[k].mapStart + l.relros[k].mapSize
    ensures a < ADDRESS_SPACE && Grants(LoadedSpace(s, l.placed, image).status[a], READ_ONLY)
  {
    hide Rem, IsPowerOfTwo, LoadedSpace, GoodScan;
    var r := plan.relros[k];
    assert RelroFits(r, l.bias) && l.relros[k] == RelroAt(r, l.bias);
    assert RelroBacked(plan.segments, r.mapStart, r.mapEnd, s.pageSize);
    assert ReadableAt(plan.segments, a - l.bias);
    var g :| g in plan.segments && g.memsz != 0 && g.mapStart <= a - l.bias < g.mapEnd && g.permission.read;
    var p := At(g, l.bias);
    assert p in PlacedAll(plan.segments, l.bias);
    var j :| 0 <= j < |l.placed| && l.placed[j] == p;
    assert Inside(l.placed[j], a);
    LoadedSpaceMeaning(s, l.placed, image, a);
  }

  /** Right after a load, and as long as no permission has changed since, sealing cannot
      report InvalidMetadata, UnmappedPage or UnreadablePage. */
  lemma {:induction false} SealAfterLoad(s: Space, image: seq<u8>, base: Option<u32>, s': Space, load: Load, t: Space, maxPages: u32,
                                         pages: seq<nat>)
    requires WellFormed(s) && Installed(s, image, base, s', load)
    requires t.pageSize == s.pageSize && t.status == s'.status && |t.status| == ADDRESS_SPACE
    requires PagesOf(t.pageSize, load.relros, pages) && forall k :: 0 <= k < |pages| ==> pages[k] < ADDRESS_SPACE
    ensures match SealProblem(t, load.relros, maxPages, pages)
            case None => true
            case Some(e) => e == InvalidOptions || e == PageLimitExceeded || e.ExecutablePage?
  {
    hide Rem, IsPowerOfTwo, PlanOf, LoadOutcome, Installed, GoodPlan, GoodLayout, LoadedSpace, GoodDescriptor, Free, GoodPlacement, Increasing;
    DynamicTable.InstalledFacts(s, image, base, s', load);
    var plan, l := PlanOf(s.pageSize, image).value, LoadOutcome(s, image, base).value;
    DescriptorsPlaced(s, image, plan, l);
    DescriptorsGood(t.pageSize, load.relros, maxPages);
    forall k | 0 <= k < |pages|
      ensures Grants(t.status[pages[k]], READ_ONLY)
    {
      assert pages[k] in pages;
      var j :| 0 <= j < |load.relros| && load.relros[j].mapStart <= pages[k] < load.relros[j].mapStart + load.relros[j].mapSize;
      RelroReadable(s, image, plan, l, j, pages[k]);
    }
    ReadablePagesOnly(t.status, pages);
  }

  lemma {:induction false} DescriptorsPlaced(s: Space, image: seq<u8>, plan: Plan, l: Layout)
    requires WellFormed(s) && GoodPlan(s.pageSize, image, plan) && GoodLayout(s.pageSize, image, plan, l)
    ensures forall k :: 0 <= k < |l.relros| ==> GoodDescriptor(s.pageSize, l.relros[k])
  {
    hide Rem, IsPowerOfTwo, GoodDescriptor, WellFormed;
    SizeFacts(s);
    forall k | 0 <= k < |l.relros|
      ensures GoodDescriptor(s.pageSize, l.relros[k])
    {
      assert GoodRelro(s.pageSize, plan.relros[k]) && RelroFits(plan.relros[k], l.bias);
      PlacedDescriptor(s.pageSize, plan.relros[k], l.bias);
    }
  }

  lemma {:induction false} ReadablePagesOnly(status: seq<PageState>, pages: seq<nat>)
    requires forall k :: 0 <= k < |pages| ==> pages[k] < |status| && Grants(status[pages[k]], READ_ONLY)
    ensures FirstPageError(status, pages).None? || FirstPageError(status, pages).value.ExecutablePage?
  {
    if pages != [] {
      ReadablePagesOnly(status, pages[1..]);
    }
  }
}

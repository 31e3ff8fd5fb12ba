/** MappedGuestMemory (src/memory/guest_memory.cpp): a page-state table and one
    buffer holding the bytes of the whole address space. */
module MappedMemory {
  import opened Words
  import opened Views
  import opened AddressSpaces

  /** The host calls whose outcome the guest cannot predict. */
  datatype HostCall = Mprotect | Madvise | MprotectNone

  const U64_LIMIT: int := 0x1_0000_0000_0000_0000

  /** valid_page_range as computed: the end of the range is a 64-bit sum. */
  predicate ValidPageRange64(ps: nat, address: u32, length: nat)
    requires ps > 0
  {
    && length > 0 && Rem(address, ps) == 0 && Rem(length, ps) == 0
    && (address + length) % U64_LIMIT <= ADDRESS_SPACE
  }

  /** The computed test and the range agree exactly when the sum does not wrap; every
      aligned range whose sum wraps is accepted although it leaves the address space. */
  lemma {:induction false} PageRangeWrap(ps: nat, address: u32, length: nat)
    requires ps > 0 && length < U64_LIMIT
    ensures ValidPageRange64(ps, address, length) && !ValidPageRange(ps, address, length)
            <==> address + length >= U64_LIMIT && Rem(address, ps) == 0 && Rem(length, ps) == 0
    ensures ValidPageRange(ps, address, length) ==> ValidPageRange64(ps, address, length)
    ensures ValidPageRange64(4096, 4096, U64_LIMIT - 4096) && !ValidPageRange(4096, 4096, U64_LIMIT - 4096)
  {
    QuotRem(4096, 4096);
    QuotRem(U64_LIMIT - 4096, 4096);
  }

  ghost function Abstract(ps: nat, pages: seq<PageState>, bytes: seq<u8>): (s: Space)
    requires ValidPageSize(ps) && |pages| == Quot(ADDRESS_SPACE, ps) && |bytes| == ADDRESS_SPACE
    ensures |s.status| == |s.bytes| == ADDRESS_SPACE && s.bytes == bytes && s.pageSize == ps
    ensures forall a: nat {:trigger s.status[a]} :: a < ADDRESS_SPACE ==> s.status[a] == StatusAt(ps, pages, a)
  {
    Space(ps, seq(ADDRESS_SPACE, a requires 0 <= a < ADDRESS_SPACE => StatusAt(ps, pages, a)), bytes)
  }

  function StatusAt(ps: nat, pages: seq<PageState>, a: nat): (st: PageState)
    requires ValidPageSize(ps) && |pages| == Quot(ADDRESS_SPACE, ps) && a < ADDRESS_SPACE
    ensures Quot(a, ps) < |pages| && st == pages[Quot(a, ps)]
  {
    QuotBelow(a, ADDRESS_SPACE, ps);
    pages[Quot(a, ps)]
  }

  lemma {:induction false} AbstractUniform(ps: nat, pages: seq<PageState>, bytes: seq<u8>)
    requires ValidPageSize(ps) && |pages| == Quot(ADDRESS_SPACE, ps) && |bytes| == ADDRESS_SPACE
    ensures PageUniform(Abstract(ps, pages, bytes).status, ps)
  {
  }

  /** Filling whole pages of the table fills the addresses of the range. */
  lemma {:induction false} AbstractFill(ps: nat, pages: seq<PageState>, bytes: seq<u8>, lo: nat, hi: nat, st: PageState)
    requires ValidPageSize(ps) && |pages| == Quot(ADDRESS_SPACE, ps) && |bytes| == ADDRESS_SPACE
    requires Rem(lo, ps) == 0 && Rem(hi, ps) == 0 && lo <= hi <= ADDRESS_SPACE
    ensures Quot(lo, ps) <= Quot(hi, ps) <= |pages|
    ensures Abstract(ps, Fill(pages, Quot(lo, ps), Quot(hi, ps), st), bytes)
            == Abstract(ps, pages, bytes).(status := Fill(Abstract(ps, pages, bytes).status, lo, hi, st))
  {
    QuotMonotone(lo, hi, ps);
    QuotMonotone(hi, ADDRESS_SPACE, ps);
    var s := Abstract(ps, pages, bytes);
    var t := Abstract(ps, Fill(pages, Quot(lo, ps), Quot(hi, ps), st), bytes);
    forall a | 0 <= a < ADDRESS_SPACE ensures t.status[a] == Fill(s.status, lo, hi, st)[a] {
      QuotRange(a, lo, hi, ps);
    }
    assert t.status == Fill(s.status, lo, hi, st);
  }

  /** The table scan of map, protect and unmap decides the state of the range. */
  lemma {:induction false} ScanDecides(ps: nat, pages: seq<PageState>, bytes: seq<u8>, lo: nat, hi: nat)
    requires ValidPageSize(ps) && |pages| == Quot(ADDRESS_SPACE, ps) && |bytes| == ADDRESS_SPACE
    requires Rem(lo, ps) == 0 && Rem(hi, ps) == 0 && lo <= hi <= ADDRESS_SPACE
    ensures Quot(lo, ps) <= Quot(hi, ps) <= |pages|
    ensures (forall i :: Quot(lo, ps) <= i < Quot(hi, ps) ==> pages[i].Unmapped?)
            <==> AllUnmapped(Abstract(ps, pages, bytes), lo, hi)
    ensures (forall i :: Quot(lo, ps) <= i < Quot(hi, ps) ==> pages[i].Mapped?)
            <==> AllMapped(Abstract(ps, pages, bytes), lo, hi)
  {
    QuotMonotone(lo, hi, ps);
    QuotMonotone(hi, ADDRESS_SPACE, ps);
    var s := Abstract(ps, pages, bytes);
    forall a | lo <= a < hi ensures Quot(lo, ps) <= Quot(a, ps) < Quot(hi, ps) {
      QuotRange(a, lo, hi, ps);
    }
    forall i | Quot(lo, ps) <= i < Quot(hi, ps) ensures exists a :: lo <= a < hi && s.status[a] == pages[i] {
      var a := QuotWitness(i, hi, ps);
      QuotRange(a, lo, hi, ps);
      assert s.status[a] == pages[i];
    }
  }

  /** The scan for pages that are (not) mapped ends within the page table: the range does, or a page
      that ends the scan comes first. */
  ghost predicate ScanStays(s: Space, address: u32, length: nat, mapped: bool)
    requires s.pageSize > 0 && |s.status| == ADDRESS_SPACE
  {
    ValidPageRange64(s.pageSize, address, length) ==>
      || address + length <= ADDRESS_SPACE
      || exists a: nat :: address <= a < ADDRESS_SPACE && s.status[a].Mapped? != mapped
  }

  ghost predicate Uniform(pages: seq<PageState>, lo: nat, hi: nat, mapped: bool)
    requires hi <= |pages|
  {
    forall i :: lo <= i < hi ==> pages[i].Mapped? == mapped
  }

  /** The pages of an aligned range end within the table exactly when the range ends within the
      address space. */
  lemma {:induction false} PageCount(ps: nat, address: u32, length: nat)
    requires ValidPageSize(ps) && Rem(address, ps) == 0 && Rem(length, ps) == 0
    ensures Quot(address + length, ps) == Quot(address, ps) + Quot(length, ps)
    ensures Quot(address, ps) + Quot(length, ps) <= Quot(ADDRESS_SPACE, ps) <==> address + length <= ADDRESS_SPACE
  {
    RemAdd(address, length, ps);
    if address + length <= ADDRESS_SPACE {
      QuotMonotone(address + length, ADDRESS_SPACE, ps);
    } else {
      QuotBelow(ADDRESS_SPACE, address + length, ps);
    }
  }

  /** While the scan has met no page that ends it, the next page is in the table. */
  lemma {:induction false} ScanInTable(ps: nat, pages: seq<PageState>, bytes: seq<u8>, address: u32, length: nat, mapped: bool, index: nat)
    requires ValidPageSize(ps) && |pages| == Quot(ADDRESS_SPACE, ps) && |bytes| == ADDRESS_SPACE
    requires ValidPageRange64(ps, address, length) && ScanStays(Abstract(ps, pages, bytes), address, length, mapped)
    requires index < Quot(length, ps) && Quot(address, ps) + index <= |pages|
    requires Uniform(pages, Quot(address, ps), Quot(address, ps) + index, mapped)
    ensures Quot(address, ps) + index < |pages|
  {
    PageCount(ps, address, length);
    var s := Abstract(ps, pages, bytes);
    if address + length > ADDRESS_SPACE {
      var a: nat :| address <= a < ADDRESS_SPACE && s.status[a].Mapped? != mapped;
      QuotMonotone(address, a, ps);
      assert s.status[a] == StatusAt(ps, pages, a);
    }
  }

  /** Without such a page the scan of a range that leaves the address space reads past the end of
      the table: every page up to the end goes by, and there are more to come. */
  lemma {:induction false} ScanLeavesTable(ps: nat, pages: seq<PageState>, bytes: seq<u8>, address: u32, length: nat, mapped: bool)
    requires ValidPageSize(ps) && |pages| == Quot(ADDRESS_SPACE, ps) && |bytes| == ADDRESS_SPACE
    requires ValidPageRange64(ps, address, length) && !ScanStays(Abstract(ps, pages, bytes), address, length, mapped)
    ensures Quot(address, ps) + Quot(length, ps) > |pages| && Uniform(pages, Quot(address, ps), |pages|, mapped)
  {
    PageCount(ps, address, length);
    var s := Abstract(ps, pages, bytes);
    forall i | Quot(address, ps) <= i < |pages| ensures pages[i].Mapped? == mapped {
      var a := QuotWitness(i, ADDRESS_SPACE, ps);
      QuotRange(a, address, ADDRESS_SPACE, ps);
      assert s.status[a] == StatusAt(ps, pages, a);
    }
  }

  /** A page that ends the scan of a range in the address space is a page of the range. */
  lemma {:induction false} ScanStops(ps: nat, pages: seq<PageState>, bytes: seq<u8>, address: u32, length: nat, mapped: bool, i: nat)
    requires ValidPageSize(ps) && |pages| == Quot(ADDRESS_SPACE, ps) && |bytes| == ADDRESS_SPACE
    requires ValidPageRange(ps, address, length) && i < |pages| && pages[i].Mapped? != mapped
    requires Quot(address, ps) <= i < Quot(address, ps) + Quot(length, ps)
    ensures var s := Abstract(ps, pages, bytes);
            if mapped then !AllMapped(s, address, address + length) else !AllUnmapped(s, address, address + length)
  {
    PageCount(ps, address, length);
    RemAdd(address, length, ps);
    ScanDecides(ps, pages, bytes, address, address + length);
  }

  /** The page scan of valid_access decides the access. */
  lemma {:induction false} AccessDecides(ps: nat, pages: seq<PageState>, bytes: seq<u8>, first: nat, last: nat, need: Permission)
    requires ValidPageSize(ps) && |pages| == Quot(ADDRESS_SPACE, ps) && |bytes| == ADDRESS_SPACE
    requires first <= last < ADDRESS_SPACE
    ensures Quot(first, ps) <= Quot(last, ps) < |pages|
    ensures (forall i :: Quot(first, ps) <= i <= Quot(last, ps) ==> Grants(pages[i], need))
            <==> (forall a :: first <= a <= last ==> Grants(Abstract(ps, pages, bytes).status[a], need))
  {
    var s := Abstract(ps, pages, bytes);
    QuotMonotone(first, last, ps);
    QuotBelow(last, ADDRESS_SPACE, ps);
    forall a | first <= a <= last ensures Quot(first, ps) <= Quot(a, ps) <= Quot(last, ps) {
      QuotMonotone(first, a, ps);
      QuotMonotone(a, last, ps);
    }
    forall i | Quot(first, ps) <= i <= Quot(last, ps) ensures exists a :: first <= a <= last && s.status[a] == pages[i] {
      var a := PageMember(first, last, i, ps);
      assert s.status[a] == pages[i];
    }
  }

  lemma {:induction false} PageMember(first: nat, last: nat, i: nat, ps: nat) returns (a: nat)
    requires ps > 0 && first <= last && Quot(first, ps) <= i <= Quot(last, ps)
    ensures first <= a <= last && Quot(a, ps) == i
    decreases last - first
  {
    if Quot(first, ps) == i {
      a := first;
    } else {
      NextPage(first, ps);
      a := PageMember(first + 1, last, i, ps);
    }
  }

  lemma {:induction false} NextPage(a: nat, ps: nat)
    requires ps > 0
    ensures Quot(a + 1, ps) <= Quot(a, ps) + 1
  {
    if a >= ps { NextPage(a - ps, ps); }
  }

  class MappedGuestMemory {
    const pageSize: nat
    const host: (HostCall, nat) -> bool
    const buffer: array<u8>
    var pages: seq<PageState>
    var hostCalls: nat

    ghost predicate Valid()
      reads this, buffer
    {
      && ValidPageSize(pageSize)
      && buffer.Length == ADDRESS_SPACE
      && |pages| == Quot(ADDRESS_SPACE, pageSize)
      && WellFormed(Abstract(pageSize, pages, buffer[..]))
    }

    ghost function State(): (s: Space)
      requires Valid()
      reads this, buffer
      ensures WellFormed(s) && s.pageSize == pageSize
    {
      Abstract(pageSize, pages, buffer[..])
    }

    /** No mprotect issued by map or protect fails. */
    ghost predicate HostGrants() {
      forall n: nat :: host(Mprotect, n)
    }

    /** No host call issued by unmap fails. */
    ghost predicate HostReleases() {
      forall n: nat :: host(Madvise, n) && host(MprotectNone, n)
    }

    constructor (ps: nat, host: (HostCall, nat) -> bool)
      requires ValidPageSize(ps)
      ensures Valid() && fresh(buffer) && pageSize == ps && this.host == host
      ensures AllUnmapped(State(), 0, ADDRESS_SPACE)
    {
      pageSize := ps;
      this.host := host;
      buffer := new u8[ADDRESS_SPACE](_ => 0);
      pages := seq(Quot(ADDRESS_SPACE, ps), _ => Unmapped);
      hostCalls := 0;
      new;
      AbstractUniform(pageSize, pages, buffer[..]);
    }

    method CallHost(call: HostCall) returns (ok: bool)
      modifies this`hostCalls
      ensures ok == host(call, old(hostCalls))
    {
      ok := host(call, hostCalls);
      hostCalls := hostCalls + 1;
    }

    /** The page scan that opens map, protect and unmap. */
    method ScanPages(address: u32, length: nat, mapped: bool) returns (ok: bool)
      requires Valid() && ValidPageRange64(pageSize, address, length) && ScanStays(State(), address, length, mapped)
      ensures ok <==> && ValidPageRange(pageSize, address, length)
                      && if mapped then AllMapped(State(), address, address + length) else AllUnmapped(State(), address, address + length)
    {
      QuotMonotone(address, ADDRESS_SPACE, pageSize);
      var first, count := Quot(address, pageSize), Quot(length, pageSize);
      var index := 0;
      while index < count
        invariant 0 <= index <= count
        invariant first + index <= |pages| && Uniform(pages, first, first + index, mapped)
      {
        ScanInTable(pageSize, pages, buffer[..], address, length, mapped, index);
        if pages[first + index].Mapped? != mapped {
          if address + length <= ADDRESS_SPACE {
            ScanStops(pageSize, pages, buffer[..], address, length, mapped, first + index);
          }
          return false;
        }
        index := index + 1;
      }
      PageCount(pageSize, address, length);
      RemAdd(address, length, pageSize);
      ScanDecides(pageSize, pages, buffer[..], address, address + length);
      return true;
    }

    /** The fill of the page table that ends map, protect and unmap. */
    method SetPages(lo: nat, hi: nat, st: PageState)
      requires Valid() && Rem(lo, pageSize) == 0 && Rem(hi, pageSize) == 0 && lo <= hi <= ADDRESS_SPACE
      requires WellFormed(State().(status := Fill(State().status, lo, hi, st)))
      modifies this`pages
      ensures Valid() && State() == old(State()).(status := Fill(old(State()).status, lo, hi, st))
    {
      AbstractFill(pageSize, pages, buffer[..], lo, hi, st);
      pages := Fill(pages, Quot(lo, pageSize), Quot(hi, pageSize), st);
    }

    method Map(address: u32, length: nat, permission: Permission) returns (ok: bool)
      requires Valid() && length < U64_LIMIT && (ValidPermission(permission) ==> ScanStays(State(), address, length, false))
      modifies this`pages, this`hostCalls
      ensures Valid()
      ensures ok ==> CanMap(old(State()), address, length, permission)
      ensures ok ==> permission.read || (!permission.write && !permission.execute)
      ensures ok ==> State() == WithPermission(old(State()), address, address + length, permission)
      ensures !ok ==> State() == old(State())
      ensures HostGrants() && CanMap(old(State()), address, length, permission) ==> ok
    {
      if !ValidPageRange64(pageSize, address, length) || !ValidPermission(permission) {
        return false;
      }
      ok := ScanPages(address, length, false);
      if ok {
        RemAdd(address, length, pageSize);
        ok := CallHost(Mprotect);
        if ok {
          WithPermissionWellFormed(State(), address, address + length, permission);
          SetPages(address, address + length, Mapped(permission));
        }
      }
    }

    method Protect(address: u32, length: nat, permission: Permission) returns (ok: bool)
      requires Valid() && length < U64_LIMIT && (ValidPermission(permission) ==> ScanStays(State(), address, length, true))
      modifies this`pages, this`hostCalls
      ensures Valid()
      ensures ok ==> CanProtect(old(State()), address, length, permission)
      ensures ok ==> permission.read || (!permission.write && !permission.execute)
      ensures ok ==> State() == WithPermission(old(State()), address, address + length, permission)
      ensures !ok ==> State() == old(State())
      ensures HostGrants() && CanProtect(old(State()), address, length, permission) ==> ok
    {
      if !ValidPageRange64(pageSize, address, length) || !ValidPermission(permission) {
        return false;
      }
      ok := ScanPages(address, length, true);
      if ok {
        RemAdd(address, length, pageSize);
        ok := CallHost(Mprotect);
        if ok {
          WithPermissionWellFormed(State(), address, address + length, permission);
          SetPages(address, address + length, Mapped(permission));
        }
      }
    }

    method Discard(lo: nat, hi: nat)
      requires Valid() && lo <= hi <= ADDRESS_SPACE
      modifies buffer
      ensures Valid() && State() == WithZeros(old(State()), lo, hi)
    {
      forall k | lo <= k < hi {
        buffer[k] := 0;
      }
      assert buffer[..] == Fill(old(buffer[..]), lo, hi, 0);
      assert Abstract(pageSize, pages, buffer[..]) == WithZeros(old(State()), lo, hi);
    }

    /** When the discard succeeds and the final mprotect does not, the pages stay
        mapped but their contents are gone. */
    method Unmap(address: u32, length: nat) returns (ok: bool)
      requires Valid() && length < U64_LIMIT && ScanStays(State(), address, length, true)
      modifies this`pages, this`hostCalls, buffer
      ensures Valid()
      ensures ok ==> CanUnmap(old(State()), address, length)
      ensures ok ==> State() == WithoutPages(old(State()), address, address + length)
      ensures !ok ==> State() == old(State()) ||
                      (CanUnmap(old(State()), address, length) &&
                       State() == WithZeros(old(State()), address, address + length))
      ensures HostReleases() && CanUnmap(old(State()), address, length) ==> ok
    {
      if !ValidPageRange64(pageSize, address, length) {
        return false;
      }
      ok := ScanPages(address, length, true);
      if ok {
        RemAdd(address, length, pageSize);
        ok := CallHost(Madvise);
        if ok {
          Discard(address, address + length);
          ok := CallHost(MprotectNone);
          if ok {
            WithoutPagesWellFormed(old(State()), address, address + length);
            SetPages(address, address + length, PageState.Unmapped);
          }
        }
      }
    }

    method ValidAccess(address: u32, length: nat, need: Permission) returns (ok: bool)
      requires Valid() && address + length < U64_LIMIT
      ensures ok == Accessible(State(), address, length, need)
    {
      if length == 0 {
        return true;
      }
      var end := address + length;
      if end > ADDRESS_SPACE {
        return false;
      }
      AccessDecides(pageSize, pages, buffer[..], address, end - 1, need);
      var first, last := Quot(address, pageSize), Quot(end - 1, pageSize);
      var index := first;
      while index <= last
        invariant first <= index <= last + 1
        invariant forall i :: first <= i < index ==> Grants(pages[i], need)
      {
        if !Grants(pages[index], need) {
          return false;
        }
        index := index + 1;
      }
      return true;
    }

    /** The readers' view of this memory. */
    method Contents() returns (v: View)
      requires Valid()
      ensures v == ViewOf(State())
    {
      v := map a | 0 <= a < ADDRESS_SPACE && Grants(StatusAt(pageSize, pages, a), READ_ONLY) :: buffer[a];
    }

    /** A read delivers exactly what the view holds. */
    method ReadBytes(address: u32, length: nat) returns (r: Option<seq<u8>>)
      requires Valid() && address + length < U64_LIMIT
      ensures r == Read(ViewOf(State()), address, length)
    {
      var ok := ValidAccess(address, length, READ_ONLY);
      ghost var v := ViewOf(State());
      if !ok {
        if address + length > ADDRESS_SPACE {
          assert address + length - 1 !in v;
        } else {
          assert forall a :: address <= a < address + length && a in v ==> Grants(State().status[a], READ_ONLY);
        }
        return None;
      }
      if length == 0 {
        return Some([]);
      }
      assert Readable(v, address, length);
      var bytes := buffer[address..address + length];
      assert forall i :: 0 <= i < length ==> bytes[i] == State().bytes[address + i] == v[address + i];
      assert bytes == Bytes(v, address, length);
      return Some(bytes);
    }

    method Write(address: u32, input: seq<u8>) returns (ok: bool)
      requires Valid() && address + |input| < U64_LIMIT
      modifies buffer
      ensures Valid()
      ensures ok == Accessible(old(State()), address, |input|, Permission(false, true, false))
      ensures ok && input != [] ==> State() == WithBytes(old(State()), address, input)
      ensures !ok || input == [] ==> State() == old(State())
    {
      ok := ValidAccess(address, |input|, Permission(false, true, false));
      if ok && input != [] {
        forall k | address <= k < address + |input| {
          buffer[k] := input[k - address];
        }
        assert buffer[..] == Splice(old(buffer[..]), address, input);
      }
    }

    /** The permissions of a page; none if it is unmapped. */
    function PermissionsAt(address: u32): (p: Permission)
      requires Valid()
      reads this, buffer
      ensures State().status[address].Mapped? ==> p == State().status[address].permission
    {
      match StatusAt(pageSize, pages, address)
      case Mapped(p) => p
      case Unmapped => Permission(false, false, false)
    }

    predicate IsMapped(address: u32)
      requires Valid()
      reads this, buffer
      ensures IsMapped(address) == State().status[address].Mapped?
    {
      StatusAt(pageSize, pages, address).Mapped?
    }
  }

  ghost predicate CanMap(s: Space, address: nat, length: nat, p: Permission)
    requires WellFormed(s)
  {
    ValidPageRange(s.pageSize, address, length) && ValidPermission(p) && AllUnmapped(s, address, address + length)
  }

  ghost predicate CanProtect(s: Space, address: nat, length: nat, p: Permission)
    requires WellFormed(s)
  {
    ValidPageRange(s.pageSize, address, length) && ValidPermission(p) && AllMapped(s, address, address + length)
  }

  ghost predicate CanUnmap(s: Space, address: nat, length: nat)
    requires WellFormed(s)
  {
    ValidPageRange(s.pageSize, address, length) && AllMapped(s, address, address + length)
  }

  /** The is_mapped loop over the pages of an aligned range. */
  method RangeIsFree(m: MappedGuestMemory, lo: nat, hi: nat) returns (free: bool)
    requires m.Valid() && Rem(lo, m.pageSize) == 0 && Rem(hi, m.pageSize) == 0 && hi <= ADDRESS_SPACE
    ensures free == AllUnmapped(m.State(), lo, hi)
  {
    var ps := m.pageSize;
    var page := lo;
    while page < hi
      invariant lo <= page && (page <= hi || page == lo) && Rem(page, ps) == 0
      invariant AllUnmapped(m.State(), lo, page)
    {
      if m.IsMapped(page) {
        return false;
      }
      AlignedGap(page, hi, ps);
      RemAdd(page, ps, ps);
      OnePage(m.State(), page);
      page := page + ps;
    }
    return true;
  }

  /** One page start decides its page. */
  lemma {:induction false} OnePage(s: Space, page: nat)
    requires WellFormed(s) && Rem(page, s.pageSize) == 0 && page + s.pageSize <= ADDRESS_SPACE
    requires s.status[page].Unmapped?
    ensures AllUnmapped(s, page, page + s.pageSize)
  {
    RemAdd(page, s.pageSize, s.pageSize);
    forall a | page <= a < page + s.pageSize ensures s.status[a].Unmapped? {
      var start := PageStart(a, s.pageSize, page, page + s.pageSize);
      if page < start { AlignedGap(page, start, s.pageSize); }
      assert SamePage(page, a, s.pageSize);
    }
  }
}

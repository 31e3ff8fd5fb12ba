/** The sparse guest address space as a value, and what its operations do to it
    (src/memory/guest_memory.cpp). */
module AddressSpaces {
  import opened Words
  import opened Views

  datatype Permission = Permission(read: bool, write: bool, execute: bool)

  const READ_ONLY := Permission(true, false, false)
  const READ_WRITE := Permission(true, true, false)

  /** Write and execute are only granted together with read. */
  predicate ValidPermission(p: Permission) {
    p.write || p.execute ==> p.read
  }

  datatype PageState = Unmapped | Mapped(permission: Permission)

  /** The value of a memory: the page state and the byte of every guest address. */
  datatype Space = Space(pageSize: nat, status: seq<PageState>, bytes: seq<u8>)

  predicate ValidPageSize(ps: nat) {
    ps > 0 && Rem(ADDRESS_SPACE, ps) == 0
  }

  predicate SamePage(a: nat, b: nat, ps: nat)
    requires ps > 0
  {
    Quot(a, ps) == Quot(b, ps)
  }

  ghost predicate PageUniform(status: seq<PageState>, ps: nat)
    requires ps > 0
  {
    forall a: nat, b: nat {:trigger SamePage(a, b, ps)} ::
      a < |status| && b < |status| && SamePage(a, b, ps) ==> status[a] == status[b]
  }

  /** What every reachable memory satisfies: permissions are those of a page, an
      unmapped page holds zeros. */
  ghost predicate WellFormed(s: Space) {
    && ValidPageSize(s.pageSize)
    && |s.status| == |s.bytes| == ADDRESS_SPACE
    && PageUniform(s.status, s.pageSize)
    && (forall a :: 0 <= a < ADDRESS_SPACE && s.status[a].Unmapped? ==> s.bytes[a] == 0)
    && (forall a :: 0 <= a < ADDRESS_SPACE && s.status[a].Mapped? ==> ValidPermission(s.status[a].permission))
  }

  function Fill<T>(s: seq<T>, lo: nat, hi: nat, v: T): (r: seq<T>)
    requires lo <= hi <= |s|
    ensures |r| == |s|
    ensures forall k :: 0 <= k < |s| ==> r[k] == if lo <= k < hi then v else s[k]
  {
    s[..lo] + seq(hi - lo, _ => v) + s[hi..]
  }

  function Splice<T>(s: seq<T>, at: nat, data: seq<T>): (r: seq<T>)
    requires at + |data| <= |s|
    ensures |r| == |s|
    ensures forall k :: 0 <= k < |s| ==> r[k] == if at <= k < at + |data| then data[k - at] else s[k]
  {
    s[..at] + data + s[at + |data|..]
  }

  /** valid_page_range, for lengths whose end does not wrap 64 bits. */
  predicate ValidPageRange(ps: nat, address: nat, length: nat)
    requires ps > 0
  {
    length > 0 && Rem(address, ps) == 0 && Rem(length, ps) == 0 && address + length <= ADDRESS_SPACE
  }

  ghost predicate AllUnmapped(s: Space, lo: int, hi: int)
    requires |s.status| == ADDRESS_SPACE
  {
    forall a :: lo <= a < hi && 0 <= a < ADDRESS_SPACE ==> s.status[a].Unmapped?
  }

  ghost predicate AllMapped(s: Space, lo: int, hi: int)
    requires |s.status| == ADDRESS_SPACE
  {
    forall a :: lo <= a < hi && 0 <= a < ADDRESS_SPACE ==> s.status[a].Mapped?
  }

  predicate Grants(st: PageState, need: Permission) {
    && st.Mapped?
    && (need.read ==> st.permission.read)
    && (need.write ==> st.permission.write)
    && (need.execute ==> st.permission.execute)
  }

  /** valid_access: the range lies in the address space and every page in it is
      mapped with the needed permission; an empty access is always valid. */
  ghost predicate Accessible(s: Space, address: int, n: nat, need: Permission)
    requires |s.status| == ADDRESS_SPACE
  {
    n == 0 || (
      && 0 <= address && address + n <= ADDRESS_SPACE
      && forall a :: address <= a < address + n ==> Grants(s.status[a], need))
  }

  /** What the readers of a memory see. */
  ghost function ViewOf(s: Space): View
    requires |s.status| == |s.bytes| == ADDRESS_SPACE
  {
    map a | 0 <= a < ADDRESS_SPACE && Grants(s.status[a], READ_ONLY) :: s.bytes[a]
  }

  function WithPermission(s: Space, lo: nat, hi: nat, p: Permission): Space
    requires lo <= hi <= |s.status|
  {
    s.(status := Fill(s.status, lo, hi, Mapped(p)))
  }

  function WithoutPages(s: Space, lo: nat, hi: nat): Space
    requires lo <= hi <= |s.status| == |s.bytes|
  {
    s.(status := Fill(s.status, lo, hi, Unmapped), bytes := Fill(s.bytes, lo, hi, 0))
  }

  function WithZeros(s: Space, lo: nat, hi: nat): Space
    requires lo <= hi <= |s.bytes|
  {
    s.(bytes := Fill(s.bytes, lo, hi, 0))
  }

  function WithBytes(s: Space, at: nat, data: seq<u8>): Space
    requires at + |data| <= |s.bytes|
  {
    s.(bytes := Splice(s.bytes, at, data))
  }

  // ------------------------------------------------------------ page arithmetic

  /** The page of an address starts inside every aligned range that holds the address. */
  lemma {:induction false} PageStart(a: nat, ps: nat, lo: nat, hi: nat) returns (start: nat)
    requires ps > 0 && Rem(lo, ps) == 0 && Rem(hi, ps) == 0 && lo <= a < hi
    ensures lo <= start <= a < start + ps <= hi && Rem(start, ps) == 0 && SamePage(start, a, ps)
  {
    start := a - Rem(a, ps);
    RoundDown(a, ps);
    QuotRange(a, lo, hi, ps);
    QuotRange(start, lo, hi, ps);
    AlignedGap(start, hi, ps);
  }

  // --------------------------------------------------- preservation of WellFormed

  lemma {:induction false} FillUniform(status: seq<PageState>, ps: nat, lo: nat, hi: nat, v: PageState)
    requires ps > 0 && lo <= hi <= |status| && Rem(lo, ps) == 0 && Rem(hi, ps) == 0
    requires PageUniform(status, ps)
    ensures PageUniform(Fill(status, lo, hi, v), ps)
  {
    forall a: nat, b: nat | a < |status| && b < |status| && SamePage(a, b, ps)
      ensures Fill(status, lo, hi, v)[a] == Fill(status, lo, hi, v)[b]
    {
      QuotRange(a, lo, hi, ps);
      QuotRange(b, lo, hi, ps);
    }
  }

  lemma {:induction false} WithPermissionWellFormed(s: Space, lo: nat, hi: nat, p: Permission)
    requires WellFormed(s) && lo <= hi <= ADDRESS_SPACE && Rem(lo, s.pageSize) == 0 && Rem(hi, s.pageSize) == 0
    requires ValidPermission(p)
    ensures WellFormed(WithPermission(s, lo, hi, p))
  {
    FillUniform(s.status, s.pageSize, lo, hi, Mapped(p));
  }

  lemma {:induction false} WithoutPagesWellFormed(s: Space, lo: nat, hi: nat)
    requires WellFormed(s) && lo <= hi <= ADDRESS_SPACE && Rem(lo, s.pageSize) == 0 && Rem(hi, s.pageSize) == 0
    ensures WellFormed(WithoutPages(s, lo, hi))
  {
    FillUniform(s.status, s.pageSize, lo, hi, PageState.Unmapped);
  }
}

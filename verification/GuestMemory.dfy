/**
 Guest bytes through the flat map: translation, the first fault of a range, and what block
 reads and writes mean (core/common/vmm.h, core/common/vmm.c).
 */
module GuestMemory {
  import opened Results
  import opened Geometry
  import opened FlatMaps

  datatype FaultKind = FaultNone | FaultOutOfRange | FaultUnmapped | FaultPermission

  datatype Fault = Fault(kind: FaultKind, requiredPerms: nat, gva: nat)

  predicate Translates(m: FlatMap, gva: nat, perms: nat) {
    gva < ADDRESS_SPACE_SIZE && Vpn(gva) in m && PermsCover(m[Vpn(gva)].perms, perms)
  }

  /** Guest physical address of a mapped byte. */
  function Pa(m: FlatMap, gva: nat): nat
    requires Vpn(gva) in m
  {
    m[Vpn(gva)].ppn * PAGE_SIZE + PageOffset(gva)
  }

  predicate AllTranslate(m: FlatMap, gva: nat, size: nat, perms: nat) {
    forall a :: gva <= a < gva + size ==> Translates(m, a, perms)
  }

  /** The kind of fault at an address that does not translate. */
  function FaultKindAt(m: FlatMap, gva: nat): FaultKind {
    if gva >= ADDRESS_SPACE_SIZE then FaultOutOfRange
    else if Vpn(gva) in m then FaultPermission
    else FaultUnmapped
  }

  /** `fault` describes the lowest address of [gva, gva + size) that does not translate. */
  ghost predicate IsFirstFault(m: FlatMap, gva: nat, size: nat, perms: nat, fault: Fault) {
    if !ValidByteRange(gva, size) then fault == Fault(FaultOutOfRange, perms, gva)
    else
      && gva <= fault.gva < gva + size
      && fault.requiredPerms == perms
      && !Translates(m, fault.gva, perms)
      && fault.kind == FaultKindAt(m, fault.gva)
      && AllTranslate(m, gva, fault.gva - gva, perms)
  }

  /** Every byte of the range is mapped inside guest RAM. */
  ghost predicate Backed(m: FlatMap, gva: nat, size: nat, ramSize: nat) {
    forall a :: gva <= a < gva + size ==> Vpn(a) in m && Pa(m, a) < ramSize
  }

  /** Guest physical addresses of the bytes of a range. */
  ghost function Addresses(m: FlatMap, gva: nat, size: nat, ramSize: nat): (at: seq<nat>)
    requires Backed(m, gva, size, ramSize)
    ensures |at| == size
    ensures forall k :: 0 <= k < size ==> at[k] == Pa(m, gva + k) < ramSize
  {
    seq(size, (k: nat) requires k < size => Pa(m, gva + k))
  }

  /** Memory after storing src[k] at at[k], for k = 0, 1, ... in turn. */
  function Scatter(ram: seq<Byte>, at: seq<nat>, src: seq<Byte>): (r: seq<Byte>)
    requires |at| == |src| && forall k :: 0 <= k < |at| ==> at[k] < |ram|
    ensures |r| == |ram|
    decreases |src|
  {
    if src == [] then ram
    else
      var k := |src| - 1;
      Scatter(ram, at[..k], src[..k])[at[k] := src[k]]
  }

  /** Guest RAM after storing `src` at `gva`, byte by byte in ascending order. */
  ghost function Stored(m: FlatMap, ram: seq<Byte>, gva: nat, src: seq<Byte>): (r: seq<Byte>)
    requires Backed(m, gva, |src|, |ram|)
    ensures |r| == |ram|
  {
    Scatter(ram, Addresses(m, gva, |src|, |ram|), src)
  }

  ghost function Loaded(m: FlatMap, ram: seq<Byte>, gva: nat, size: nat): (r: seq<Byte>)
    requires Backed(m, gva, size, |ram|)
    ensures |r| == size
  {
    var at := Addresses(m, gva, size, |ram|);
    seq(size, (k: nat) requires k < size => ram[at[k]])
  }

  /** A byte no address hits is unchanged. */
  lemma {:induction false} UntouchedByte(ram: seq<Byte>, at: seq<nat>, src: seq<Byte>, h: nat)
    requires |at| == |src| && forall k :: 0 <= k < |at| ==> at[k] < |ram|
    requires h < |ram| && forall k :: 0 <= k < |at| ==> at[k] != h
    ensures Scatter(ram, at, src)[h] == ram[h]
    decreases |src|
  {
    if src != [] {
      var n := |src| - 1;
      UntouchedByte(ram, at[..n], src[..n], h);
    }
  }

  /** A byte that is hit holds the source byte of the highest offset hitting it. */
  lemma {:induction false} LastStoreWins(ram: seq<Byte>, at: seq<nat>, src: seq<Byte>, k: nat)
    requires |at| == |src| && forall j :: 0 <= j < |at| ==> at[j] < |ram|
    requires k < |at| && forall j :: k < j < |at| ==> at[j] != at[k]
    ensures Scatter(ram, at, src)[at[k]] == src[k]
    decreases |src|
  {
    var n := |src| - 1;
    if k < n {
      LastStoreWins(ram, at[..n], src[..n], k);
    }
  }

  lemma ScatterNothing(ram: seq<Byte>)
    ensures Scatter(ram, [], []) == ram
  {
  }

  lemma LoadedNothing(m: FlatMap, ram: seq<Byte>, gva: nat)
    ensures Loaded(m, ram, gva, 0) == []
  {
  }

  lemma ScatterSnoc(ram: seq<Byte>, at: seq<nat>, src: seq<Byte>, k: nat)
    requires |at| == |src| && forall j :: 0 <= j < |at| ==> at[j] < |ram|
    requires k < |src|
    ensures Scatter(ram, at[..k + 1], src[..k + 1]) == Scatter(ram, at[..k], src[..k])[at[k] := src[k]]
  {
    assert at[..k + 1][..k] == at[..k] && src[..k + 1][..k] == src[..k];
  }

  /** Stores to pairwise different addresses all read back. */
  lemma ScatterReadBack(ram: seq<Byte>, at: seq<nat>, src: seq<Byte>)
    requires |at| == |src| && forall k :: 0 <= k < |at| ==> at[k] < |ram|
    requires forall j, k :: 0 <= j < k < |at| ==> at[j] != at[k]
    ensures forall k :: 0 <= k < |at| ==> Scatter(ram, at, src)[at[k]] == src[k]
  {
    forall k | 0 <= k < |at|
      ensures Scatter(ram, at, src)[at[k]] == src[k]
    {
      LastStoreWins(ram, at, src, k);
    }
  }

  /** The pages of the range have pairwise different backing pages. */
  ghost predicate DistinctBacking(m: FlatMap, gva: nat, size: nat) {
    forall a, b :: gva <= a < gva + size && gva <= b < gva + size && Vpn(a) in m && Vpn(b) in m ==>
      (m[Vpn(a)].ppn == m[Vpn(b)].ppn ==> Vpn(a) == Vpn(b))
  }

  /** A block store reads back, even over scattered pages. */
  lemma StoreThenLoad(m: FlatMap, ram: seq<Byte>, gva: nat, src: seq<Byte>)
    requires Backed(m, gva, |src|, |ram|) && DistinctBacking(m, gva, |src|)
    ensures Loaded(m, Stored(m, ram, gva, src), gva, |src|) == src
  {
    var at := Addresses(m, gva, |src|, |ram|);
    forall j, k | 0 <= j < k < |at|
      ensures at[j] != at[k]
    {
      var a, b := gva + j, gva + k;
      if Pa(m, a) == Pa(m, b) {
        PaInjective(m, a, b);
      }
    }
    ScatterReadBack(ram, at, src);
  }

  lemma PaInjective(m: FlatMap, a: nat, b: nat)
    requires Vpn(a) in m && Vpn(b) in m && Pa(m, a) == Pa(m, b)
    ensures m[Vpn(a)].ppn == m[Vpn(b)].ppn && PageOffset(a) == PageOffset(b)
    ensures Vpn(a) == Vpn(b) ==> a == b
  {
  }

  /** Bytes of one page are adjacent in guest RAM. */
  lemma SamePage(a: nat, k: nat)
    requires PageOffset(a) + k < PAGE_SIZE
    ensures Vpn(a + k) == Vpn(a) && PageOffset(a + k) == PageOffset(a) + k
  {
  }

  /** A block access of `size` bytes needs nothing, or a range that translates throughout. */
  predicate Accessible(m: FlatMap, gva: nat, size: nat, perms: nat) {
    size == 0 || (ValidByteRange(gva, size) && AllTranslate(m, gva, size, perms))
  }

  lemma AccessibleIsBacked(m: FlatMap, gva: nat, size: nat, perms: nat, ramSize: nat)
    requires Accessible(m, gva, size, perms)
    requires forall v :: v in m ==> (m[v].ppn + 1) * PAGE_SIZE <= ramSize
    ensures Backed(m, gva, size, ramSize)
  {
    forall a | gva <= a < gva + size
      ensures Vpn(a) in m && Pa(m, a) < ramSize
    {
      assert Translates(m, a, perms);
    }
  }

  /** There is at most one first fault. */
  lemma FirstFaultUnique(m: FlatMap, gva: nat, size: nat, perms: nat, f: Fault, g: Fault)
    requires IsFirstFault(m, gva, size, perms, f) && IsFirstFault(m, gva, size, perms, g)
    ensures f == g
  {
    if ValidByteRange(gva, size) {
      var atF, atG := Translates(m, f.gva, perms), Translates(m, g.gva, perms);
    }
  }

  // ----- Host memory -----

  function Splice(ram: seq<Byte>, at: nat, bytes: seq<Byte>): (r: seq<Byte>)
    requires at + |bytes| <= |ram|
    ensures |r| == |ram|
  {
    ram[..at] + bytes + ram[at + |bytes|..]
  }

  function Zeros(n: nat): (z: seq<Byte>)
    ensures |z| == n && forall k :: 0 <= k < n ==> z[k] == 0
  {
    seq(n, _ => 0 as Byte)
  }

  /** The bytes of every page that was mapped before are as they were. */
  ghost predicate BytesKept(before: FlatMap, was: seq<Byte>, ram: seq<Byte>) {
    |ram| == |was| &&
    forall v, a: nat :: v in before && before[v].ppn * PAGE_SIZE <= a < (before[v].ppn + 1) * PAGE_SIZE && a < |was| ==>
      ram[a] == was[a]
  }

  /** memset(0) over a host-contiguous guest range. */
  ghost predicate Zeroed(m: FlatMap, before: seq<Byte>, after: seq<Byte>, gva: nat, size: nat) {
    && Vpn(gva) in m && Pa(m, gva) + size <= |before|
    && after == Splice(before, Pa(m, gva), Zeros(size))
  }

  // ----- Host contiguity -----

  /** The bytes of [gva, limit) below `end` translate to consecutive physical addresses. */
  ghost predicate RunsFrom(m: FlatMap, gva: nat, limit: nat, end: nat, perms: nat) {
    && Vpn(gva) in m
    && forall a :: gva <= a < limit && a < end ==> Translates(m, a, perms) && Pa(m, a) == Pa(m, gva) + (a - gva)
  }

  /** Everything up to `a` translates, but `a` is not where a contiguous run would put it. */
  ghost predicate ScatteredAt(m: FlatMap, gva: nat, a: nat, perms: nat) {
    && Vpn(gva) in m && Vpn(a) in m && gva <= a
    && AllTranslate(m, gva, a + 1 - gva, perms)
    && Pa(m, a) != Pa(m, gva) + (a - gva)
  }

  /** vmm_guest_to_host succeeds exactly here. */
  ghost predicate HostContiguous(m: FlatMap, gva: nat, size: nat, perms: nat) {
    0 < perms <= PERM_ALL && ValidByteRange(gva, size) && RunsFrom(m, gva, gva + size, gva + size, perms)
  }

  /** Consecutive physical pages behind a page range make one host-contiguous run. */
  lemma PagesAreContiguous(m: FlatMap, gva: nat, size: nat, ppn: nat, perms: nat)
    requires ValidPageRange(gva, size) && 0 < perms <= PERM_ALL
    requires forall v :: Vpn(gva) <= v < Vpn(gva) + Vpn(size) ==>
               v in m && m[v].ppn == ppn + (v - Vpn(gva)) && PermsCover(m[v].perms, perms)
    ensures HostContiguous(m, gva, size, perms) && Pa(m, gva) == ppn * PAGE_SIZE
  {
    hide PermsCover;
    VpnRange(gva, size, ADDRESS_SPACE_SIZE);
    forall a | gva <= a < gva + size
      ensures Translates(m, a, perms) && Pa(m, a) == Pa(m, gva) + (a - gva)
    {
      assert Vpn(gva) <= Vpn(a) < Vpn(gva) + Vpn(size);
    }
  }

  /** A host-contiguous page range has consecutive physical pages. */
  lemma ContiguousPages(m: FlatMap, gva: nat, size: nat, perms: nat)
    requires ValidPageRange(gva, size) && HostContiguous(m, gva, size, perms)
    ensures Vpn(gva) in m && Pa(m, gva) == m[Vpn(gva)].ppn * PAGE_SIZE
    ensures forall v :: Vpn(gva) <= v < Vpn(gva) + Vpn(size) ==>
              v in m && m[v].ppn == m[Vpn(gva)].ppn + (v - Vpn(gva)) && PermsCover(m[v].perms, perms)
  {
    hide PermsCover;
    VpnRange(gva, size, ADDRESS_SPACE_SIZE);
    forall v | Vpn(gva) <= v < Vpn(gva) + Vpn(size)
      ensures v in m && m[v].ppn == m[Vpn(gva)].ppn + (v - Vpn(gva)) && PermsCover(m[v].perms, perms)
    {
      var a := v * PAGE_SIZE;
      assert Vpn(a) == v && PageOffset(a) == 0 && gva <= a < gva + size;
      assert Translates(m, a, perms) && Pa(m, a) == Pa(m, gva) + (a - gva);
    }
  }

  lemma ContiguousStart(m: FlatMap, gva: nat, size: nat, perms: nat)
    requires HostContiguous(m, gva, size, perms)
    ensures Vpn(gva) in m && size > 0 && 0 < perms <= PERM_ALL
  {
  }

  /** A range inside one accessible page is one host run. */
  lemma InPageContiguous(m: FlatMap, gva: nat, size: nat, perms: nat)
    requires 0 < size && PageOffset(gva) + size <= PAGE_SIZE && 0 < perms <= PERM_ALL
    requires Translates(m, gva, perms)
    ensures HostContiguous(m, gva, size, perms)
  {
    forall a | gva <= a < gva + size
      ensures Translates(m, a, perms) && Pa(m, a) == Pa(m, gva) + (a - gva)
    {
      SamePage(gva, a - gva);
    }
  }

  // ----- Bytes and permission bits, spelled out -----

  /** The address is mapped, and its page has the read (write, execute) bit where the mask asks for it. */
  predicate Grants(m: FlatMap, gva: nat, read: bool, write: bool, execute: bool) {
    && gva < 0x80_0000_0000 && gva / 4096 in m
    && (read ==> CanRead(m[gva / 4096])) && (write ==> Writable(m[gva / 4096]))
    && (execute ==> Executable(m[gva / 4096]))
  }

  function Mask(read: bool, write: bool, execute: bool): nat {
    (if read then 1 else 0) + (if write then 2 else 0) + (if execute then 4 else 0)
  }

  /** A translation asks for exactly the bits of its mask. */
  lemma TranslatesMeans(m: FlatMap, gva: nat, read: bool, write: bool, execute: bool)
    ensures Translates(m, gva, Mask(read, write, execute)) <==> Grants(m, gva, read, write, execute)
  {
  }

  /** A range inside the address space faults first at its lowest byte that lacks the rights asked for. */
  lemma FirstFaultMeans(m: FlatMap, gva: nat, size: nat, read: bool, write: bool, execute: bool, fault: Fault)
    requires IsFirstFault(m, gva, size, Mask(read, write, execute), fault)
    requires size > 0 && gva + size <= 0x80_0000_0000
    ensures gva <= fault.gva < gva + size && !Grants(m, fault.gva, read, write, execute)
    ensures forall a :: gva <= a < fault.gva ==> Grants(m, a, read, write, execute)
    ensures fault.kind == if fault.gva / 4096 in m then FaultPermission else FaultUnmapped
  {
    hide PermsCover, Mask;
    TranslatesMeans(m, fault.gva, read, write, execute);
    forall a | gva <= a < fault.gva
      ensures Grants(m, a, read, write, execute)
    {
      TranslatesMeans(m, a, read, write, execute);
    }
  }

  /** A block access goes through exactly when it is empty or every byte grants it. */
  lemma AccessibleMeans(m: FlatMap, gva: nat, size: nat)
    ensures Accessible(m, gva, size, PERM_R) <==>
              size == 0 || forall a :: gva <= a < gva + size ==> Grants(m, a, true, false, false)
    ensures Accessible(m, gva, size, PERM_W) <==>
              size == 0 || forall a :: gva <= a < gva + size ==> Grants(m, a, false, true, false)
  {
    AccessibleBits(m, gva, size, true, false);
    AccessibleBits(m, gva, size, false, true);
  }

  lemma AccessibleBits(m: FlatMap, gva: nat, size: nat, read: bool, write: bool)
    ensures Accessible(m, gva, size, Mask(read, write, false)) <==>
              size == 0 || forall a :: gva <= a < gva + size ==> Grants(m, a, read, write, false)
  {
    hide PermsCover, Mask;
    forall a: nat
      ensures Translates(m, a, Mask(read, write, false)) <==> Grants(m, a, read, write, false)
    {
      TranslatesMeans(m, a, read, write, false);
    }
    if size > 0 {
      assert Grants(m, gva + (size - 1), read, write, false) ==> gva + size <= ADDRESS_SPACE_SIZE;
    }
  }

  /** Byte k of a load is the byte of guest RAM its page is backed by. */
  lemma LoadedByte(m: FlatMap, ram: seq<Byte>, gva: nat, size: nat, k: nat)
    requires Backed(m, gva, size, |ram|) && k < size
    ensures var a := gva + k;
            a / 4096 in m && m[a / 4096].ppn * 4096 + a % 4096 < |ram|
            && Loaded(m, ram, gva, size)[k] == ram[m[a / 4096].ppn * 4096 + a % 4096]
  {
    var at := Addresses(m, gva, size, |ram|);
    assert at[k] == Pa(m, gva + k);
  }

  /** After a store the byte behind an address holds what was sent there, unless a later byte went there too. */
  lemma StoredByte(m: FlatMap, ram: seq<Byte>, gva: nat, src: seq<Byte>, a: nat)
    requires Backed(m, gva, |src|, |ram|) && gva <= a < gva + |src|
    requires forall b :: a < b < gva + |src| ==> Pa(m, b) != Pa(m, a)
    ensures Pa(m, a) == m[a / 4096].ppn * 4096 + a % 4096 < |ram|
    ensures Stored(m, ram, gva, src)[Pa(m, a)] == src[a - gva]
  {
    var at := Addresses(m, gva, |src|, |ram|);
    var k := a - gva;
    assert at[k] == Pa(m, gva + k);
    forall j | k < j < |at|
      ensures at[j] != at[k]
    {
      assert Pa(m, gva + j) != Pa(m, a);
    }
    LastStoreWins(ram, at, src, k);
  }

  /** A byte of guest RAM behind none of the addresses is as it was. */
  lemma StoredElsewhere(m: FlatMap, ram: seq<Byte>, gva: nat, src: seq<Byte>, h: nat)
    requires Backed(m, gva, |src|, |ram|) && h < |ram|
    requires forall a :: gva <= a < gva + |src| ==> Pa(m, a) != h
    ensures Stored(m, ram, gva, src)[h] == ram[h]
  {
    var at := Addresses(m, gva, |src|, |ram|);
    forall j | 0 <= j < |at|
      ensures at[j] != h
    {
      assert Pa(m, gva + j) != h;
    }
    UntouchedByte(ram, at, src, h);
  }
}

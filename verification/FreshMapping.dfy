/** Taking physical pages and mapping them RW (map_fresh_rw in core/hle/kernel/process.c, and core/hle/kernel/tls.c). */
module FreshMapping {
  import opened Results
  import opened Geometry
  import opened FlatMaps
  import opened GuestMemory
  import opened Vmms
  import Pages = PageAllocators

  function MapFreshError(m: FlatMap, ramSize: nat, gva: nat, size: nat, t: Pages.Taken): Error {
    if t.error != Ok then t.error else MapError(m, ramSize, gva, t.page * PAGE_SIZE, size, PERM_RW)
  }

  /** `count` pages from `t` appear RW at page v, where nothing was mapped. */
  ghost predicate Added(before: FlatMap, after: FlatMap, v: nat, count: nat, t: Pages.Taken) {
    NoneMapped(before, v, count) && after == MapRange(before, v, t.page, count, PERM_RW)
  }

  /** Pages taken for a mapping that then fails are not given back. */
  method MapFresh(vmm: Vmm, pages: Pages.PageAllocator, gva: U64, size: U64, commits: bool) returns (e: Error)
    requires vmm.Valid() && !vmm.scopeOpen && pages.Valid() && vmm.Repr() !! pages.Repr()
    modifies vmm.Repr(), pages.Repr()
    ensures vmm.Valid() && !vmm.scopeOpen && pages.Valid()
    ensures e == MapFreshError(old(vmm.flat), vmm.ramSize, gva, size, Pages.Take(old(pages.Now()), Vpn(size), commits))
    ensures pages.Now() == Pages.Take(old(pages.Now()), Vpn(size), commits).state
    ensures e == Ok ==>
              Added(old(vmm.flat), vmm.flat, Vpn(gva), Vpn(size), Pages.Take(old(pages.Now()), Vpn(size), commits))
    ensures e == Ok ==> ValidPageRange(gva, size) && Pages.Take(old(pages.Now()), Vpn(size), commits).error == Ok
    ensures e != Ok ==> vmm.flat == old(vmm.flat)
    ensures vmm.ram[..] == old(vmm.ram[..])
  {
    hide Vmm.Valid, Pages.PageAllocator.Valid, Pages.Take, MapError, MapRange, Mapped;
    pages.HasShape();
    vmm.Idle();
    ghost var m := vmm.flat;
    ghost var t := Pages.Take(pages.Now(), Vpn(size), commits);
    var pa;
    e, pa := pages.Allocate(Vpn(size), commits);
    if e != Ok {
      return;
    }
    e := vmm.Map(gva, pa, size, PERM_RW);
    PageVpn(t.page);
    if e == Ok {
      MapOk(m, vmm.ramSize, gva, pa, size, PERM_RW);
    } else {
      NotMapped(m, vmm.ramSize, gva, pa, size, PERM_RW);
    }
  }

  /** memset(0) of a host-contiguous RW range, inside its own borrow scope. */
  method ZeroRange(vmm: Vmm, gva: U64, size: U64)
    requires vmm.Valid() && !vmm.scopeOpen && HostContiguous(vmm.flat, gva, size, PERM_RW)
    modifies vmm.Repr()
    ensures vmm.Valid() && !vmm.scopeOpen && vmm.flat == old(vmm.flat)
    ensures Zeroed(vmm.flat, old(vmm.ram[..]), vmm.ram[..], gva, size)
  {
    hide HostContiguous, Vmm.Valid, Pa, Splice;
    ContiguousStart(vmm.flat, gva, size, PERM_RW);
    vmm.Idle();
    vmm.BorrowScopeBegin();
    var e, host := vmm.GuestToHost(gva, size, PERM_RW);
    assert e == Ok;
    vmm.HostZero(host, size);
    vmm.BorrowScopeEnd();
  }
}

/**
 Process teardown (process_teardown in core/hle/kernel/process.c): best effort, but complete from every reachable
 state.
 */
module Teardowns {
  import opened Results
  import opened Geometry
  import opened FlatMaps
  import opened GuestMemory
  import opened AddressSpaces
  import opened MemoryKernel
  import opened Vmms
  import opened TlsAllocators
  import opened Processes
  import opened MappingLists
  import opened Bootstraps
  import opened SvcMemory
  import Pages = PageAllocators

  // ----- Taking modules and stack away -----

  /** With some of its own pages unmapped, the rest is still a reachable shape of a smaller bootstrap. */
  lemma UnloadInv(c: Config, k: Kernel, gone: set<nat>)
    requires Inv(c, k) && gone <= c.boot.Keys
    ensures Inv(c.(boot := c.boot - gone), k.(flat := k.flat - gone)) && gone <= k.flat.Keys
  {
    var c', flat' := c.(boot := c.boot - gone), k.flat - gone;
    CodeIsSafe(c, k);
    hide AllocOk;
    forall b | b in k.borrows
      ensures BorrowOk(c', Vpn(k.heapSize), b)
    {
      assert BorrowOk(c, Vpn(k.heapSize), b);
    }
    forall v: nat
      ensures At(c', Vpn(k.heapSize), k.borrows, v, Lookup(flat', v))
    {
      UnloadAt(c, k, gone, v);
    }
  }

  lemma UnloadAt(c: Config, k: Kernel, gone: set<nat>, v: nat)
    requires Inv(c, k) && gone <= c.boot.Keys
    ensures At(c.(boot := c.boot - gone), Vpn(k.heapSize), k.borrows, v, Lookup(k.flat - gone, v))
  {
    assert At(c, Vpn(k.heapSize), k.borrows, v, Lookup(k.flat, v));
    hide AllocOk, FlatShape;
    if v in gone {
      RegionsApart(c, v);
      HeapPagesFit(c, k);
      forall b | b in k.borrows
        ensures !b.HasDst(v)
      {
        assert BorrowOk(c, Vpn(k.heapSize), b);
      }
      assert c.space.heap.Pages(v) <== HeapFirst(c) <= v < HeapFirst(c) + Vpn(k.heapSize);
    }
  }

  // ----- Undoing borrows -----

  /** Undoing the first borrow leaves the state of the others. */
  lemma UnwindOne(c: Config, k: Kernel)
    requires Inv(c, k) && k.borrows != []
    ensures var b := k.borrows[0];
            && MappedRangeError(k.flat, b.dst, b.size) == Ok
            && ReprotectError(Unmapped(k.flat, b.dst, b.size), b.src, b.size, PERM_RW) == Ok
            && b.dst < TWO_TO_THE_64 && b.src < TWO_TO_THE_64 && b.size < TWO_TO_THE_64
            && Inv(c, k.(flat := Reprotected(Unmapped(k.flat, b.dst, b.size), b.src, b.size, PERM_RW),
                    borrows := k.borrows[1..]))
  {
    var b := k.borrows[0];
    UnmirrorCalls(c, k, b);
    OthersRemain(c, Vpn(k.heapSize), k.borrows);
    HeapPagesFit(c, k);
    hide AllocOk, ReprotectError, MappedRangeError, ReprotectRange, UnmapRange, Reprotected, Unmapped, BorrowsOk;
    var flat' := ReprotectRange(UnmapRange(k.flat, Vpn(b.dst), Vpn(b.size)), Vpn(b.src), Vpn(b.size), PERM_RW);
    forall v: nat
      ensures At(c, Vpn(k.heapSize), k.borrows[1..], v, Lookup(flat', v))
    {
      UnmirrorAt(c, k.flat, Vpn(k.heapSize), k.borrows, b, k.borrows[1..], v);
    }
  }

  lemma OthersRemain(c: Config, heapPages: nat, borrows: seq<MemoryBorrow>)
    requires BorrowsOk(c, heapPages, borrows) && borrows != []
    ensures BorrowsOk(c, heapPages, borrows[1..])
    ensures forall a :: a in borrows[1..] <==> a in borrows && a != borrows[0]
    ensures forall a :: a in borrows[1..] ==> BorrowsApart(a, borrows[0])
  {
    var rest := borrows[1..];
    forall a | a in rest
      ensures a in borrows && a != borrows[0] && BorrowsApart(a, borrows[0])
    {
      var i :| 0 <= i < |rest| && rest[i] == a;
      assert BorrowsApart(borrows[0], borrows[i + 1]);
      assert BorrowOk(c, heapPages, borrows[0]);
    }
    forall a | a in borrows && a != borrows[0]
      ensures a in rest
    {
      var i :| 0 <= i < |borrows| && borrows[i] == a;
      assert rest[i - 1] == a;
    }
  }

  /** unwind_heap_borrows. */
  method UnwindBorrows(vmm: Vmm, borrows: seq<MemoryBorrow>, ghost c: Config, ghost k: Kernel)
    requires vmm.Valid() && !vmm.scopeOpen && Inv(c, k) && k.flat == vmm.flat && k.borrows == borrows
    modifies vmm.Repr()
    ensures vmm.Valid() && !vmm.scopeOpen && Inv(c, k.(flat := vmm.flat, borrows := []))
    ensures vmm.ram[..] == old(vmm.ram[..])
  {
    hide Inv, Vmm.Valid, MappedRangeError, ReprotectError, Reprotected, Unmapped;
    assert borrows[0..] == borrows && borrows[|borrows|..] == [];
    for i := 0 to |borrows|
      invariant vmm.Valid() && !vmm.scopeOpen && Inv(c, k.(flat := vmm.flat, borrows := borrows[i..]))
      invariant vmm.ram[..] == old(vmm.ram[..])
    {
      var b := borrows[i];
      assert borrows[i..][1..] == borrows[i + 1..];
      UnwindOne(c, k.(flat := vmm.flat, borrows := borrows[i..]));
      vmm.Idle();
      var e := vmm.Unmap(b.dst, b.size);
      vmm.Idle();
      e := vmm.Reprotect(b.src, b.size, PERM_RW);
    }
  }

  // ----- Releasing the heap -----

  /** Page by page, skipping what is unreadable or refused. */
  ghost function FreeBestEffort(flat: FlatMap, alloc: Pages.State, first: nat, count: nat): Pages.State
    decreases count
  {
    if count == 0 then alloc
    else if !HostContiguous(flat, first * PAGE_SIZE, PAGE_SIZE, PERM_R)
    then FreeBestEffort(flat, alloc, first + 1, count - 1)
    else FreeBestEffort(flat, Pages.Return(alloc, flat[first].ppn, 1).state, first + 1, count - 1)
  }

  ghost function Released(flat: FlatMap, alloc: Pages.State, gva: nat, size: nat): Pages.State {
    if HostContiguous(flat, gva, size, PERM_R)
    then Pages.Return(alloc, flat[Vpn(gva)].ppn, Vpn(size)).state
    else FreeBestEffort(flat, alloc, Vpn(gva), Vpn(size))
  }

  lemma ReturnRefused(s: Pages.State, page: nat, count: nat)
    ensures Pages.Return(s, page, count).error != Ok ==> Pages.Return(s, page, count).state == s
  {
  }

  // ----- What a page-by-page release gives back -----

  /** The physical pages behind the readable pages of a range. */
  ghost function ReadableBacking(flat: FlatMap, first: nat, count: nat): set<nat> {
    set v | first <= v < first + count && v in flat && CanRead(flat[v]) :: flat[v].ppn
  }

  lemma PageReadable(flat: FlatMap, v: nat)
    requires v < TOTAL_PAGES
    ensures HostContiguous(flat, v * PAGE_SIZE, PAGE_SIZE, PERM_R) <==> v in flat && CanRead(flat[v])
  {
    var gva := v * PAGE_SIZE;
    PageVpn(v);
    TranslatesMeans(flat, gva, true, false, false);
    if HostContiguous(flat, gva, PAGE_SIZE, PERM_R) {
      assert Translates(flat, gva, PERM_R);
    }
    if Translates(flat, gva, PERM_R) {
      InPageContiguous(flat, gva, PAGE_SIZE, PERM_R);
    }
    hide HostContiguous, Translates;
  }

  /** One more run at most. */
  lemma ReturnAddsOne(s: Pages.State, page: nat, count: nat)
    ensures |Pages.Return(s, page, count).state.runs| <= |s.runs| + 1
  {
  }

  /** Returning the first page of a range leaves the others held. */
  lemma ReturnFirst(flat: FlatMap, alloc: Pages.State, out: set<nat>, first: nat, count: nat)
    requires Pages.Conserved(alloc, out) && BackingHeld(flat, first, count, out) && |alloc.runs| < 16
    requires count > 0 && first in flat && CanRead(flat[first])
    ensures var r := Pages.Return(alloc, flat[first].ppn, 1);
            && r.error == Ok && |r.state.runs| <= |alloc.runs| + 1
            && Pages.Conserved(r.state, out - {flat[first].ppn})
            && BackingHeld(flat, first + 1, count - 1, out - {flat[first].ppn})
    ensures ReadableBacking(flat, first, count) == {flat[first].ppn} + ReadableBacking(flat, first + 1, count - 1)
  {
    PageRange(flat[first].ppn);
    Pages.ReturnConserves(alloc, out, flat[first].ppn, 1);
    ReturnAddsOne(alloc, flat[first].ppn, 1);
    hide Pages.Return, Pages.Conserved;
    var whole, rest := ReadableBacking(flat, first, count), ReadableBacking(flat, first + 1, count - 1);
    forall p | p in whole
      ensures p in {flat[first].ppn} + rest
    {
      var v :| first <= v < first + count && v in flat && CanRead(flat[v]) && flat[v].ppn == p;
      assert v > first ==> p in rest;
    }
    assert whole == {flat[first].ppn} + rest;
  }

  /** While the free list has room, exactly the readable pages of the range go back, whatever the others are. */
  lemma {:induction false} BestEffortFrees(flat: FlatMap, alloc: Pages.State, out: set<nat>, first: nat, count: nat)
    requires Pages.Conserved(alloc, out) && BackingHeld(flat, first, count, out)
    requires |alloc.runs| + count <= 16 && first + count <= TOTAL_PAGES
    ensures Pages.Conserved(FreeBestEffort(flat, alloc, first, count), out - ReadableBacking(flat, first, count))
    decreases count
  {
    hide HostContiguous, Pages.Return, Pages.Conserved;
    if count == 0 {
      assert out - ReadableBacking(flat, first, count) == out;
    } else {
      PageReadable(flat, first);
      var rest := ReadableBacking(flat, first + 1, count - 1);
      if first in flat && CanRead(flat[first]) {
        ReturnFirst(flat, alloc, out, first, count);
        var r := Pages.Return(alloc, flat[first].ppn, 1);
        BestEffortFrees(flat, r.state, out - {flat[first].ppn}, first + 1, count - 1);
        assert out - {flat[first].ppn} - rest == out - ReadableBacking(flat, first, count);
      } else {
        BestEffortFrees(flat, alloc, out, first + 1, count - 1);
        assert ReadableBacking(flat, first, count) == rest;
      }
    }
  }

  /** The strict release of a heap shrink goes through exactly when every page is readable, and does the same. */
  lemma {:induction false} StrictFrees(flat: FlatMap, alloc: Pages.State, out: set<nat>, first: nat, count: nat)
    requires Pages.Conserved(alloc, out) && BackingHeld(flat, first, count, out)
    requires |alloc.runs| + count <= 16 && first + count <= TOTAL_PAGES
    ensures FreePageByPage(flat, alloc, first, count).Some? <==>
              forall v :: first <= v < first + count ==> v in flat && CanRead(flat[v])
    ensures FreePageByPage(flat, alloc, first, count).Some? ==>
              FreePageByPage(flat, alloc, first, count).value == FreeBestEffort(flat, alloc, first, count)
    decreases count
  {
    hide HostContiguous, Pages.Return, Pages.Conserved, BackingHeld, ReadableBacking;
    if count > 0 {
      PageReadable(flat, first);
      if first in flat && CanRead(flat[first]) {
        ReturnFirst(flat, alloc, out, first, count);
        var r := Pages.Return(alloc, flat[first].ppn, 1);
        StrictFrees(flat, r.state, out - {flat[first].ppn}, first + 1, count - 1);
      }
    }
  }

  /** One page of a best-effort release, in a borrow scope of its own. */
  method TryFreePage(vmm: Vmm, pages: Pages.PageAllocator, gva: U64)
    requires vmm.Valid() && !vmm.scopeOpen && pages.Valid() && vmm.Repr() !! pages.Repr() && PageAligned(gva)
    requires Vpn(gva) in vmm.flat ==> vmm.flat[Vpn(gva)].ppn in pages.out
    modifies vmm.Repr(), pages.Repr()
    ensures vmm.Valid() && !vmm.scopeOpen && pages.Valid() && pages.Shape() && vmm.flat == old(vmm.flat)
    ensures old(pages.Shape())
    ensures if HostContiguous(vmm.flat, gva, PAGE_SIZE, PERM_R)
            then Vpn(gva) in vmm.flat && pages.Now() == Pages.Return(old(pages.Now()), vmm.flat[Vpn(gva)].ppn, 1).state
                 && (pages.out == old(pages.out) || pages.out == old(pages.out) - {vmm.flat[Vpn(gva)].ppn})
            else pages.Now() == old(pages.Now()) && pages.out == old(pages.out)
    ensures vmm.ram[..] == old(vmm.ram[..])
  {
    hide HostContiguous, Vmm.Valid, Pages.PageAllocator.Valid, Pages.Return, RangePages;
    pages.HasShape();
    vmm.Idle();
    vmm.BorrowScopeBegin();
    var got, host := vmm.GuestToHost(gva, PAGE_SIZE, PERM_R);
    vmm.BorrowScopeEnd();
    if got == Ok {
      ContiguousStart(vmm.flat, gva, PAGE_SIZE, PERM_R);
      PageVpn(vmm.flat[Vpn(gva)].ppn);
      PageRange(vmm.flat[Vpn(gva)].ppn);
      ReturnRefused(pages.Now(), vmm.flat[Vpn(gva)].ppn, 1);
      assert host - vmm.ramBase == vmm.flat[Vpn(gva)].ppn * PAGE_SIZE;
      var freed := pages.Free(host - vmm.ramBase, 1);
      pages.HasShape();
    }
  }

  method FreePagesBestEffort(vmm: Vmm, pages: Pages.PageAllocator, gva: U64, size: U64)
    requires vmm.Valid() && !vmm.scopeOpen && pages.Valid() && vmm.Repr() !! pages.Repr()
    requires ValidPageRange(gva, size) && BackingHeld(vmm.flat, Vpn(gva), Vpn(size), pages.out)
    modifies vmm.Repr(), pages.Repr()
    ensures vmm.Valid() && !vmm.scopeOpen && pages.Valid() && pages.Shape() && vmm.flat == old(vmm.flat)
    ensures old(pages.Shape()) && pages.Now() == FreeBestEffort(old(vmm.flat), old(pages.Now()), Vpn(gva), Vpn(size))
    ensures vmm.ram[..] == old(vmm.ram[..])
  {
    hide HostContiguous, Vmm.Valid, Pages.PageAllocator.Valid, Pages.Return;
    pages.HasShape();
    ghost var m := vmm.flat;
    ghost var first, count := Vpn(gva), Vpn(size);
    ghost var goal := FreeBestEffort(m, pages.Now(), first, count);
    var offset := 0;
    ghost var i := 0;
    while offset < size
      invariant i <= count && offset == i * PAGE_SIZE
      invariant vmm.Valid() && !vmm.scopeOpen && pages.Valid() && vmm.flat == m && pages.Shape()
      invariant FreeBestEffort(m, pages.Now(), first + i, count - i) == goal
      invariant BackingHeld(m, first + i, count - i, pages.out)
      invariant vmm.ram[..] == old(vmm.ram[..])
      decreases size - offset
    {
      assert gva + offset == (first + i) * PAGE_SIZE;
      PageVpn(first + i);
      TryFreePage(vmm, pages, gva + offset);
      offset := offset + PAGE_SIZE;
      i := i + 1;
    }
  }

  /** free_teardown_heap. */
  method FreeTeardownHeap(vmm: Vmm, pages: Pages.PageAllocator, gva: U64, size: U64)
    requires vmm.Valid() && !vmm.scopeOpen && pages.Valid() && vmm.Repr() !! pages.Repr()
    requires ValidPageRange(gva, size) && BackingHeld(vmm.flat, Vpn(gva), Vpn(size), pages.out)
    modifies vmm.Repr(), pages.Repr()
    ensures vmm.Valid() && !vmm.scopeOpen && pages.Valid() && pages.Shape()
    ensures vmm.flat == Unmapped(old(vmm.flat), gva, size)
    ensures old(pages.Shape()) && pages.Now() == Released(old(vmm.flat), old(pages.Now()), gva, size)
    ensures vmm.ram[..] == old(vmm.ram[..])
  {
    hide HostContiguous, Vmm.Valid, Pages.PageAllocator.Valid, Pages.Return, UnmapRange, RangePages, BackingHeld,
         FreeBestEffort, ValidPageRange;
    vmm.Idle();
    pages.HasShape();
    vmm.BorrowScopeBegin();
    var got, host := vmm.GuestToHost(gva, size, PERM_R);
    vmm.BorrowScopeEnd();
    if got == Ok {
      ContiguousBackingHeld(vmm.flat, gva, size, pages.out);
      PageVpn(vmm.flat[Vpn(gva)].ppn);
      ReturnRefused(pages.Now(), vmm.flat[Vpn(gva)].ppn, Vpn(size));
      var freed := pages.Free(host - vmm.ramBase, Vpn(size));
    } else {
      FreePagesBestEffort(vmm, pages, gva, size);
    }
    pages.HasShape();
    vmm.Idle();
    var unmapped := vmm.Unmap(gva, size);
  }

  /** Releasing an unlent heap gives back every one of its pages: the cursor returns to the bootstrap's. */
  lemma HeapReleased(c: Config, k: Kernel)
    requires Inv(c, k) && k.borrows == [] && k.heapSize > 0
    ensures var flat := Unmapped(k.flat, c.space.heap.base, k.heapSize);
            var alloc := Released(k.flat, k.alloc, c.space.heap.base, k.heapSize);
            && Inv(c, Kernel(flat, alloc, 0, []))
            && alloc == k.alloc.(used := c.p0 - k.alloc.base)
    ensures ValidPageRange(c.space.heap.base, k.heapSize)
  {
    hide ConfigOk, FlatShape, BorrowsOk, HostContiguous, Pages.Return, FreePageByPage, FreeBestEffort,
         MappedRangeError, Unmapped;
    HeapRange(c, 0, k.heapSize);
    ShrinkKeeps(c, k, 0);
    ShrinkRange(c, k, 0);
    BumpOnly(k.alloc, Vpn(k.heapSize), true);
  }

  lemma HeapHeldWhole(c: Config, k: Kernel, out: set<nat>)
    requires Inv(c, k) && Pages.Conserved(k.alloc, out) && k.heapSize > 0
    ensures BackingHeld(k.flat, Vpn(c.space.heap.base), Vpn(k.heapSize), out)
  {
    hide ConfigOk, FlatShape, BorrowsOk, BackingHeld, Pages.Conserved;
    HeapHeld(c, k, Vpn(c.space.heap.base), Vpn(k.heapSize), out);
  }

  /** With no heap and no borrows only the bootstrap's pages are mapped. */
  lemma OnlyBootLeft(c: Config, k: Kernel)
    requires Inv(c, k) && k.borrows == [] && k.heapSize == 0
    ensures k.flat == c.boot
  {
    hide ConfigOk, AllocOk;
    forall v: nat
      ensures At(c, 0, [], v, Lookup(c.boot, v))
    {
    }
    ShapeDetermines(c, k.flat, c.boot, 0, []);
  }

  lemma RangeGone(m: FlatMap, own: set<nat>, first: nat, count: nat)
    requires m.Keys == own + RangePages(first, count) && own !! RangePages(first, count)
    ensures UnmapRange(m - own, first, count) == map[]
    ensures forall v :: first <= v < first + count ==> v in m - own && (m - own)[v] == m[v]
  {
  }

  lemma TlsMapped(process: Process, vmm: Vmm, pages: Pages.PageAllocator, flat: FlatMap)
    requires Recorded(process, vmm, pages)
    requires flat == process.boot - PagesOf(ModuleRanges(process.modules) + [process.mainStack])
    ensures process.tls.PagesMapped(flat)
    ensures UnmapRange(flat, Vpn(process.space.tlsIo.base), process.tls.pageCount) == map[]
  {
    hide PagesOf, ListOk, TlsAllocator.Shape;
    var own := PagesOf(ModuleRanges(process.modules) + [process.mainStack]);
    var first, count := Vpn(process.space.tlsIo.base), process.tls.pageCount;
    RangeGone(process.boot, own, first, count);
    hide UnmapRange, RangePages;
    forall v | first <= v < first + count
      ensures v in flat && flat[v].perms == PERM_RW
    {
      assert PermsAre(process.boot, v, PERM_RW);
    }
  }

  /**
   process_teardown: from any state the memory SVCs can reach, nothing stays mapped and every heap page is
   returned; only the pages the bootstrap itself took still count as used.
   */
  method TeardownProcess(service: MemoryService)
    requires service.Valid() && Recorded(service.process, service.vmm, service.pages)
    modifies service.vmm.Repr(), service.pages.Repr(), service.process, service.process.tls
    ensures service.vmm.Valid() && !service.vmm.scopeOpen && service.pages.Valid() && service.pages.Shape()
    ensures service.vmm.flat == map[] && service.process.IsZero()
    ensures old(service.pages.Shape()) &&
            var before := old(service.pages.Now());
            service.pages.Now() == before.(used := old(service.process.p0) - before.base)
    ensures service.vmm.ram[..] == old(service.vmm.ram[..])
  {
    hide Inv, Vmm.Valid, Pages.PageAllocator.Valid, ListOk, PagesOf, ModuleRanges, TlsAllocator.Shape,
         TlsAllocator.PagesMapped, UnmapRange, RangePages, RwIn, Unmapped, Released, BackingHeld, ConfigOk,
         Pages.Conserved;
    var process, vmm, pages := service.process, service.vmm, service.pages;
    service.Parts();
    ghost var c, k := service.Config(), service.Now();
    var ranges := ModuleRanges(process.modules);
    if process.mainStack.size > 0 {
      ranges := ranges + [process.mainStack];
    }
    ghost var own := PagesOf(ranges);
    ghost var c' := c.(boot := c.boot - own);
    UnloadInv(c, k, own);
    UnmapAll(vmm, ranges);
    UnwindBorrows(vmm, process.borrows, c', k.(flat := vmm.flat));
    ghost var k' := k.(flat := vmm.flat, borrows := []);
    pages.IsConserved();
    if process.heapSize > 0 {
      HeapReleased(c', k');
      HeapHeldWhole(c', k', pages.out);
      FreeTeardownHeap(vmm, pages, process.space.heap.base, process.heapSize);
    } else {
      NoHeap(c', k');
    }
    pages.HasShape();
    OnlyBootLeft(c', Kernel(vmm.flat, pages.Now(), 0, []));
    TlsMapped(process, vmm, pages, vmm.flat);
    assert process.tls.Valid();
    process.tls.Teardown();
    process.Clear();
  }

  lemma NoHeap(c: Config, k: Kernel)
    requires Inv(c, k) && k.heapSize == 0
    ensures k.alloc == k.alloc.(used := c.p0 - k.alloc.base)
  {
    hide ConfigOk, FlatShape, BorrowsOk;
  }
}

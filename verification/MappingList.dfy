/** The list of ranges a bootstrap has mapped so far, and what it owns (Mapping_List in core/hle/kernel/process.c). */
module MappingLists {
  import opened Results
  import opened Geometry
  import opened FlatMaps
  import opened GuestMemory
  import opened AddressSpaces
  import opened MemoryKernel
  import opened Vmms
  import opened FreshMapping
  import Pages = PageAllocators

  ghost function Covered(r: Region): set<nat> {
    RangePages(Vpn(r.base), Vpn(r.size))
  }

  ghost function PagesOf(ranges: seq<Region>): set<nat> {
    if ranges == [] then {} else PagesOf(ranges[..|ranges| - 1]) + Covered(ranges[|ranges| - 1])
  }

  /** Valid ranges, each apart from the earlier ones. */
  ghost predicate ListOk(ranges: seq<Region>) {
    forall i :: 0 <= i < |ranges| ==>
      ValidPageRange(ranges[i].base, ranges[i].size) && Covered(ranges[i]) !! PagesOf(ranges[..i])
  }

  lemma PagesOfSnoc(ranges: seq<Region>, r: Region)
    ensures PagesOf(ranges + [r]) == PagesOf(ranges) + Covered(r)
  {
    assert (ranges + [r])[..|ranges|] == ranges;
  }

  lemma ListSnoc(ranges: seq<Region>, r: Region)
    requires ListOk(ranges) && ValidPageRange(r.base, r.size) && Covered(r) !! PagesOf(ranges)
    ensures ListOk(ranges + [r])
  {
    hide PagesOf, Covered;
    var more := ranges + [r];
    forall i | 0 <= i < |more|
      ensures ValidPageRange(more[i].base, more[i].size) && Covered(more[i]) !! PagesOf(more[..i])
    {
      if i < |ranges| {
        assert more[..i] == ranges[..i];
      } else {
        assert more[..i] == ranges;
      }
    }
  }

  lemma PagesOfPrefix(ranges: seq<Region>, i: nat)
    requires i < |ranges|
    ensures PagesOf(ranges[..i + 1]) == PagesOf(ranges[..i]) + Covered(ranges[i])
  {
    hide Covered;
    assert ranges[..i + 1][..i] == ranges[..i];
  }

  lemma {:induction false} CoveredIsListed(ranges: seq<Region>, i: nat)
    requires i < |ranges|
    ensures Covered(ranges[i]) <= PagesOf(ranges)
    decreases |ranges|
  {
    hide Covered;
    var n := |ranges| - 1;
    if i < n {
      CoveredIsListed(ranges[..n], i);
    }
  }

  /** unmap_all. */
  method UnmapAll(vmm: Vmm, ranges: seq<Region>)
    requires vmm.Valid() && !vmm.scopeOpen && ListOk(ranges) && PagesOf(ranges) <= vmm.flat.Keys
    modifies vmm.Repr()
    ensures vmm.Valid() && !vmm.scopeOpen && vmm.flat == old(vmm.flat) - PagesOf(ranges)
    ensures vmm.ram[..] == old(vmm.ram[..])
  {
    hide Vmm.Valid, PagesOf;
    ghost var m := vmm.flat;
    NoPages();
    assert ranges[..0] == [] && ranges[..|ranges|] == ranges;
    for i := 0 to |ranges|
      invariant vmm.Valid() && !vmm.scopeOpen && vmm.ram[..] == old(vmm.ram[..])
      invariant vmm.flat == m - PagesOf(ranges[..i])
    {
      PagesOfPrefix(ranges, i);
      CoveredIsListed(ranges, i);
      vmm.Idle();
      UnmapsRange(vmm.flat, ranges[i]);
      var e := vmm.Unmap(ranges[i].base, ranges[i].size);
    }
  }

  lemma NoPages()
    ensures PagesOf([]) == {}
  {
  }

  lemma UnmapsRange(m: FlatMap, r: Region)
    requires ValidPageRange(r.base, r.size) && Covered(r) <= m.Keys
    ensures Unmapped(m, r.base, r.size) == m - Covered(r)
  {
    forall v | Vpn(r.base) <= v < Vpn(r.base) + Vpn(r.size)
      ensures v in m
    {
      assert v in Covered(r);
    }
  }

  // ----- What the bootstrap has built so far -----

  /** The bootstrap's pages are backed by pages it took, one each, never writable and executable. */
  ghost predicate Owned(boot: FlatMap, before: set<nat>, out: set<nat>) {
    && before <= out
    && (forall v :: v in boot ==>
          && boot[v].ppn in out && boot[v].ppn !in before && boot[v].perms <= PERM_ALL
          && !(Writable(boot[v]) && Executable(boot[v])))
    && (forall v, w :: v in boot && w in boot && boot[v].ppn == boot[w].ppn ==> v == w)
  }

  /** The page table is what it was plus the bootstrap's pages. */
  ghost predicate Extends(before: FlatMap, flat: FlatMap, boot: FlatMap) {
    before.Keys !! boot.Keys && flat == before + boot
  }

  /** Everything built is on the list, so unmapping the list undoes it. */
  ghost predicate Building(before: FlatMap, flat: FlatMap, boot: FlatMap, held: set<nat>, out: set<nat>,
                           mapped: seq<Region>) {
    Extends(before, flat, boot) && Owned(boot, held, out) && ListOk(mapped) && boot.Keys == PagesOf(mapped)
  }

  /** What a rollback needs: the list covers exactly what was added. */
  ghost predicate Undoable(before: FlatMap, flat: FlatMap, boot: FlatMap, mapped: seq<Region>) {
    Extends(before, flat, boot) && ListOk(mapped) && boot.Keys == PagesOf(mapped)
  }

  lemma Unwinds(before: FlatMap, flat: FlatMap, boot: FlatMap)
    requires Extends(before, flat, boot)
    ensures flat - boot.Keys == before && boot.Keys <= flat.Keys
  {
  }

  lemma AddExtends(before: FlatMap, flat: FlatMap, boot: FlatMap, v: nat, page: nat, count: nat)
    requires Extends(before, flat, boot) && NoneMapped(flat, v, count)
    ensures NoneMapped(boot, v, count)
    ensures Extends(before, MapRange(flat, v, page, count, PERM_RW), MapRange(boot, v, page, count, PERM_RW))
    ensures MapRange(boot, v, page, count, PERM_RW).Keys == boot.Keys + RangePages(v, count)
  {
  }

  lemma AddOwned(boot: FlatMap, held: set<nat>, out: set<nat>, v: nat, page: nat, count: nat)
    requires Owned(boot, held, out) && RangePages(page, count) !! out
    ensures Owned(MapRange(boot, v, page, count, PERM_RW), held, out + RangePages(page, count))
  {
    hide MapRange, RangePages;
    var more, pages := MapRange(boot, v, page, count, PERM_RW), RangePages(page, count);
    forall w | w in more
      ensures if v <= w < v + count then more[w] == Page(page + (w - v), PERM_RW) && more[w].ppn in pages
              else w in boot && more[w] == boot[w]
    {
      MapRangeAt(boot, v, page, count, PERM_RW, w);
    }
    forall x, y | x in more && y in more && more[x].ppn == more[y].ppn
      ensures x == y
    {
      if v <= x < v + count {
        assert more[y].ppn !in out;
      } else {
        assert more[x].ppn in out;
      }
    }
  }

  /** The allocator's extent stays, and an empty free list stays empty. */
  ghost predicate SamePool(a: Pages.State, b: Pages.State) {
    b.base == a.base && b.size == a.size && (a.runs == [] ==> b.runs == [])
  }

  lemma TakeSamePool(s: Pages.State, count: nat, commits: bool)
    ensures SamePool(s, Pages.Take(s, count, commits).state)
  {
  }

  // ----- When fresh pages can be had -----

  /** Only the space above the cursor is free, and all of it is guest RAM. */
  ghost predicate Bumping(s: Pages.State, ramSize: nat) {
    s.runs == [] && (s.base + s.size) * PAGE_SIZE <= ramSize
  }

  /** An unmapped page range of the address space. */
  ghost predicate Vacant(m: FlatMap, gva: nat, size: nat) {
    gva % 4096 == 0 && size % 4096 == 0 && gva + size <= ADDRESS_SPACE_SIZE && NoneMapped(m, Vpn(gva), Vpn(size))
  }

  /** The host commits, enough pages are left, and so are the 64 MB tables. */
  ghost predicate Room(m: FlatMap, s: Pages.State, first: nat, count: nat, commits: bool) {
    count > 0 && commits && s.used + count <= s.size && |Slots(m) + RangeSlots(first, count)| <= 256
  }

  lemma FreshGoesThrough(m: FlatMap, ramSize: nat, s: Pages.State, gva: nat, size: nat, commits: bool)
    requires Bumping(s, ramSize) && Vacant(m, gva, size)
    ensures var t := Pages.Take(s, Vpn(size), commits);
            && (MapFreshError(m, ramSize, gva, size, t) == Ok <==> Room(m, s, Vpn(gva), Vpn(size), commits))
            && (MapFreshError(m, ramSize, gva, size, t) == Ok ==> t.state == s.(used := s.used + Vpn(size)))
  {
    hide Slots, RangeSlots, NoneMapped;
    if size > 0 {
      BumpOnly(s, Vpn(size), commits);
      if s.used + Vpn(size) <= s.size {
        PageVpn(s.Cursor());
        CursorFits(s, ramSize, size);
      }
      hide Pages.Take;
    }
  }

  lemma CursorFits(s: Pages.State, ramSize: nat, size: nat)
    requires Bumping(s, ramSize) && size % 4096 == 0 && size > 0 && s.used + Vpn(size) <= s.size
    ensures s.Cursor() * PAGE_SIZE < ramSize && size <= ramSize - s.Cursor() * PAGE_SIZE
  {
  }

  /** map_fresh_rw: maps fresh pages and puts the range on the list. */
  method MapFreshRw(vmm: Vmm, pages: Pages.PageAllocator, mapped: seq<Region>, gva: U64, size: U64, commits: bool,
                    ghost before: FlatMap, ghost boot: FlatMap, ghost held: set<nat>)
    returns (e: Error, mapped': seq<Region>, ghost boot': FlatMap, ghost page: nat)
    requires vmm.Valid() && !vmm.scopeOpen && pages.Valid() && vmm.Repr() !! pages.Repr()
    requires Building(before, vmm.flat, boot, held, pages.out, mapped)
    modifies vmm.Repr(), pages.Repr()
    ensures vmm.Valid() && !vmm.scopeOpen && pages.Valid() && pages.Shape()
    ensures e == Ok ==> Building(before, vmm.flat, boot', held, pages.out, mapped')
    ensures e == Ok ==> mapped' == mapped + [Region(gva, size)] && ValidPageRange(gva, size)
    ensures e == Ok ==> NoneMapped(old(vmm.flat), Vpn(gva), Vpn(size))
    ensures e == Ok ==> boot' == MapRange(boot, Vpn(gva), page, Vpn(size), PERM_RW)
    ensures e == Ok ==> vmm.flat == MapRange(old(vmm.flat), Vpn(gva), page, Vpn(size), PERM_RW)
    ensures e == Ok ==> RangePages(page, Vpn(size)) !! old(pages.out) && old(pages.Shape())
    ensures e == Ok ==> SamePool(old(pages.Now()), pages.Now())
    ensures e != Ok ==> vmm.flat == old(vmm.flat) && mapped' == mapped && boot' == boot
    ensures Bumping(old(pages.Now()), vmm.ramSize) && Vacant(old(vmm.flat), gva, size) ==>
              (e == Ok <==> Room(old(vmm.flat), old(pages.Now()), Vpn(gva), Vpn(size), commits))
    ensures Bumping(old(pages.Now()), vmm.ramSize) && Vacant(old(vmm.flat), gva, size) && e == Ok ==>
              pages.Now() == old(pages.Now()).(used := old(pages.Now()).used + Vpn(size))
    ensures vmm.ram[..] == old(vmm.ram[..])
  {
    hide Bumping, Vacant, Room, Vmm.Valid, Pages.PageAllocator.Valid, Pages.Take, MapRange, MapFreshError, Owned,
         Extends, ListOk, PagesOf, RangePages, ValidPageRange;
    mapped', boot' := mapped, boot;
    pages.HasShape();
    ghost var s, out := pages.Now(), pages.out;
    ghost var t := Pages.Take(s, Vpn(size), commits);
    pages.IsConserved();
    page := t.page;
    if Bumping(s, vmm.ramSize) && Vacant(vmm.flat, gva, size) {
      FreshGoesThrough(vmm.flat, vmm.ramSize, s, gva, size, commits);
    }
    e := MapFresh(vmm, pages, gva, size, commits);
    pages.HasShape();
    if e != Ok {
      return;
    }
    pages.IsConserved();
    Pages.TakenPages(s, out, pages.out, Vpn(size), commits);
    TakeSamePool(s, Vpn(size), commits);
    AddExtends(before, old(vmm.flat), boot, Vpn(gva), page, Vpn(size));
    AddOwned(boot, held, out, Vpn(gva), page, Vpn(size));
    boot' := MapRange(boot, Vpn(gva), page, Vpn(size), PERM_RW);
    mapped' := mapped + [Region(gva, size)];
    PagesOfSnoc(mapped, Region(gva, size));
    RangeOffKeys(boot, Region(gva, size));
    ListSnoc(mapped, Region(gva, size));
  }

  lemma RangeOffKeys(m: FlatMap, r: Region)
    requires NoneMapped(m, Vpn(r.base), Vpn(r.size))
    ensures Covered(r) !! m.Keys
  {
  }
}

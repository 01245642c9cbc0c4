/**
 The simple thing the two-level page table speeds up: a partial map from virtual page
 numbers to a guest physical page and three permission bits.
 */
module FlatMaps {
  import opened Results
  import opened Geometry

  datatype Page = Page(ppn: nat, perms: nat)

  type FlatMap = map<nat, Page>

  // The three permission bits of a page.

  predicate CanRead(p: Page) {
    p.perms % 2 == 1
  }

  predicate Writable(p: Page) {
    p.perms / 2 % 2 == 1
  }

  predicate Executable(p: Page) {
    p.perms / 4 % 2 == 1
  }

  function RangePages(first: nat, count: nat): (pages: set<nat>)
    ensures forall v :: v in pages <==> first <= v < first + count
  {
    if count == 0 then {} else RangePages(first, count - 1) + {first + count - 1}
  }

  /** Maps `count` pages from `first` onto consecutive physical pages from `ppn`. */
  function MapRange(m: FlatMap, first: nat, ppn: nat, count: nat, perms: nat): FlatMap {
    m + map v | v in RangePages(first, count) :: Page(ppn + (v - first), perms)
  }

  function UnmapRange(m: FlatMap, first: nat, count: nat): FlatMap {
    m - RangePages(first, count)
  }

  function ReprotectRange(m: FlatMap, first: nat, count: nat, perms: nat): FlatMap {
    map v | v in m :: if first <= v < first + count then Page(m[v].ppn, perms) else m[v]
  }

  predicate AllMapped(m: FlatMap, first: nat, count: nat) {
    forall v :: first <= v < first + count ==> v in m
  }

  predicate NoneMapped(m: FlatMap, first: nat, count: nat) {
    forall v :: first <= v < first + count ==> v !in m
  }

  // ----- 64 MB slots -----

  /** The L1 slots that hold a mapped page. */
  function Slots(m: FlatMap): set<nat> {
    set v | v in m :: Slot(v)
  }

  function RangeSlots(first: nat, count: nat): set<nat> {
    set v | first <= v < first + count :: Slot(v)
  }

  /** The mapped pages of one slot. */
  function PagesIn(m: FlatMap, slot: nat): set<nat> {
    set v | v in m && Slot(v) == slot
  }

  // ----- Error results of the three mutations -----

  /** The result of vmm_map as a function of the flat map alone. */
  function MapError(m: FlatMap, ramSize: nat, gva: nat, pa: nat, size: nat, perms: nat): Error {
    if !ValidPageRange(gva, size) then InvalidArgument
    else if !PageAligned(pa) || pa >= ramSize || size > ramSize - pa then InvalidArgument
    else if perms > PERM_ALL then InvalidArgument
    else if !NoneMapped(m, Vpn(gva), Vpn(size)) then InvalidArgument
    else if |Slots(m) + RangeSlots(Vpn(gva), Vpn(size))| > L2_CAPACITY then OutOfMemory
    else Ok
  }

  function MappedRangeError(m: FlatMap, gva: nat, size: nat): Error {
    if !ValidPageRange(gva, size) then InvalidArgument
    else if !AllMapped(m, Vpn(gva), Vpn(size)) then InvalidArgument
    else Ok
  }

  function ReprotectError(m: FlatMap, gva: nat, size: nat, perms: nat): Error {
    if perms > PERM_ALL then InvalidArgument else MappedRangeError(m, gva, size)
  }

  function Mapped(m: FlatMap, ramSize: nat, gva: nat, pa: nat, size: nat, perms: nat): FlatMap {
    if MapError(m, ramSize, gva, pa, size, perms) == Ok
    then MapRange(m, Vpn(gva), Vpn(pa), Vpn(size), perms) else m
  }

  function Unmapped(m: FlatMap, gva: nat, size: nat): FlatMap {
    if MappedRangeError(m, gva, size) == Ok then UnmapRange(m, Vpn(gva), Vpn(size)) else m
  }

  function Reprotected(m: FlatMap, gva: nat, size: nat, perms: nat): FlatMap {
    if ReprotectError(m, gva, size, perms) == Ok
    then ReprotectRange(m, Vpn(gva), Vpn(size), perms) else m
  }

  // ----- What the results mean -----

  /** vmm_map succeeds exactly here; the table pool is the only thing that can run out. */
  lemma MapErrorMeans(m: FlatMap, ramSize: nat, gva: nat, pa: nat, size: nat, perms: nat)
    ensures var fits := && gva % 4096 == 0 && size % 4096 == 0 && size > 0 && gva + size <= 0x80_0000_0000
                        && pa % 4096 == 0 && pa + size <= ramSize && perms < 8
                        && forall a :: gva <= a < gva + size ==> a / 4096 !in m;
            var slots := |Slots(m) + RangeSlots(gva / 4096, size / 4096)|;
            var e := MapError(m, ramSize, gva, pa, size, perms);
            && (e == Ok <==> fits && slots <= 256)
            && (e == OutOfMemory <==> fits && slots > 256)
            && e in {Ok, OutOfMemory, InvalidArgument}
  {
    BytesOfPages(gva, size);
    if ValidPageRange(gva, size) {
      VpnRange(gva, size, ADDRESS_SPACE_SIZE);
      UnmappedBytes(m, gva, size);
    }
  }

  /** Address a lies in the 64 MB of the slot, on a mapped page or a page of the range. */
  predicate Occupies(m: FlatMap, first: nat, count: nat, slot: nat, a: nat) {
    (a / 4096 in m || first <= a / 4096 < first + count) && a / 0x400_0000 == slot
  }

  /** The slots counted are the 64 MB stretches that hold a mapped page, or a page of the range. */
  lemma SlotsMean(m: FlatMap, first: nat, count: nat, slot: nat)
    ensures slot in Slots(m) + RangeSlots(first, count) <==> exists a: nat :: Occupies(m, first, count, slot, a)
  {
    if slot in Slots(m) + RangeSlots(first, count) {
      var v :| (v in m || first <= v < first + count) && Slot(v) == slot;
      var a := v * 4096;
      assert a / 4096 == v && a / 0x400_0000 == slot;
      assert Occupies(m, first, count, slot, a);
    }
    forall a: nat | Occupies(m, first, count, slot, a)
      ensures slot in Slots(m) + RangeSlots(first, count)
    {
      assert Slot(a / 4096) == slot;
    }
  }

  lemma BytesOfPages(gva: nat, size: nat)
    ensures ValidPageRange(gva, size)
            <==> gva % 4096 == 0 && size % 4096 == 0 && size > 0 && gva + size <= 0x80_0000_0000
  {
  }

  lemma UnmappedBytes(m: FlatMap, gva: nat, size: nat)
    requires ValidPageRange(gva, size)
    ensures NoneMapped(m, Vpn(gva), Vpn(size)) <==> forall a :: gva <= a < gva + size ==> a / 4096 !in m
    ensures AllMapped(m, Vpn(gva), Vpn(size)) <==> forall a :: gva <= a < gva + size ==> a / 4096 in m
  {
    VpnRange(gva, size, ADDRESS_SPACE_SIZE);
    forall v | Vpn(gva) <= v < Vpn(gva) + Vpn(size)
      ensures gva <= v * 4096 < gva + size && v * 4096 / 4096 == v
    {
    }
    forall a | gva <= a < gva + size
      ensures Vpn(gva) <= a / 4096 < Vpn(gva) + Vpn(size)
    {
    }
    if forall a :: gva <= a < gva + size ==> a / 4096 !in m {
      forall v | Vpn(gva) <= v < Vpn(gva) + Vpn(size)
        ensures v !in m
      {
        assert v * 4096 / 4096 == v;
      }
    }
    if forall a :: gva <= a < gva + size ==> a / 4096 in m {
      forall v | Vpn(gva) <= v < Vpn(gva) + Vpn(size)
        ensures v in m
      {
        assert v * 4096 / 4096 == v;
      }
    }
  }

  /** vmm_unmap and vmm_reprotect succeed exactly on page ranges that are mapped throughout. */
  lemma MappedRangeMeans(m: FlatMap, gva: nat, size: nat, perms: nat)
    ensures var mapped := && gva % 4096 == 0 && size % 4096 == 0 && size > 0 && gva + size <= 0x80_0000_0000
                          && forall a :: gva <= a < gva + size ==> a / 4096 in m;
            && MappedRangeError(m, gva, size) == (if mapped then Ok else InvalidArgument)
            && ReprotectError(m, gva, size, perms) == (if mapped && perms < 8 then Ok else InvalidArgument)
  {
    BytesOfPages(gva, size);
    if ValidPageRange(gva, size) {
      UnmappedBytes(m, gva, size);
    }
  }

  // ----- Facts -----

  lemma NotMapped(m: FlatMap, ramSize: nat, gva: nat, pa: nat, size: nat, perms: nat)
    requires MapError(m, ramSize, gva, pa, size, perms) != Ok
    ensures Mapped(m, ramSize, gva, pa, size, perms) == m
  {
  }

  lemma MapOk(m: FlatMap, ramSize: nat, gva: nat, pa: nat, size: nat, perms: nat)
    requires MapError(m, ramSize, gva, pa, size, perms) == Ok
    ensures ValidPageRange(gva, size) && NoneMapped(m, Vpn(gva), Vpn(size))
    ensures Mapped(m, ramSize, gva, pa, size, perms) == MapRange(m, Vpn(gva), Vpn(pa), Vpn(size), perms)
    ensures PageAligned(pa) && pa + size <= ramSize && perms <= PERM_ALL
  {
  }

  lemma PagesInInsert(m: FlatMap, v: nat, p: Page, slot: nat)
    requires v !in m
    ensures |PagesIn(m[v := p], slot)| == |PagesIn(m, slot)| + if Slot(v) == slot then 1 else 0
  {
    var before, after := PagesIn(m, slot), PagesIn(m[v := p], slot);
    if Slot(v) == slot {
      assert after == before + {v};
    } else {
      assert after == before;
    }
  }

  lemma PagesInRemove(m: FlatMap, v: nat, slot: nat)
    requires v in m
    ensures |PagesIn(m, slot)| == |PagesIn(m - {v}, slot)| + if Slot(v) == slot then 1 else 0
  {
    var rest := m - {v};
    assert rest[v := m[v]] == m;
    PagesInInsert(rest, v, m[v], slot);
  }

  lemma PagesInReplace(m: FlatMap, v: nat, p: Page, slot: nat)
    requires v in m
    ensures PagesIn(m[v := p], slot) == PagesIn(m, slot)
  {
  }

  lemma MapRangeStep(m: FlatMap, first: nat, ppn: nat, i: nat, perms: nat)
    ensures MapRange(m, first, ppn, i + 1, perms) ==
            MapRange(m, first, ppn, i, perms)[first + i := Page(ppn + i, perms)]
    ensures first + i !in m ==> first + i !in MapRange(m, first, ppn, i, perms)
  {
  }

  lemma UnmapRangeStep(m: FlatMap, first: nat, i: nat)
    ensures UnmapRange(m, first, i + 1) == UnmapRange(m, first, i) - {first + i}
    ensures first + i in m ==> first + i in UnmapRange(m, first, i)
  {
  }

  lemma ReprotectRangeStep(m: FlatMap, first: nat, i: nat, perms: nat)
    requires first + i in m
    ensures ReprotectRange(m, first, i + 1, perms) ==
            ReprotectRange(m, first, i, perms)[first + i := Page(m[first + i].ppn, perms)]
    ensures first + i in ReprotectRange(m, first, i, perms)
    ensures ReprotectRange(m, first, i, perms)[first + i] == m[first + i]
  {
  }

  function Lookup(m: FlatMap, v: nat): Option<Page> {
    if v in m then Some(m[v]) else None
  }

  lemma MapRangeAt(m: FlatMap, first: nat, ppn: nat, count: nat, perms: nat, v: nat)
    ensures Lookup(MapRange(m, first, ppn, count, perms), v) ==
            if first <= v < first + count then Some(Page(ppn + (v - first), perms)) else Lookup(m, v)
  {
  }

  lemma UnmapRangeAt(m: FlatMap, first: nat, count: nat, v: nat)
    ensures Lookup(UnmapRange(m, first, count), v) == if first <= v < first + count then None else Lookup(m, v)
  {
  }

  lemma ReprotectRangeAt(m: FlatMap, first: nat, count: nat, perms: nat, v: nat)
    ensures Lookup(ReprotectRange(m, first, count, perms), v) ==
            if first <= v < first + count && v in m then Some(Page(m[v].ppn, perms)) else Lookup(m, v)
  {
  }

  /** Hiding RW pages and showing them again is no change. */
  lemma ReprotectBack(m: FlatMap, first: nat, count: nat, perms: nat, back: nat)
    requires forall v :: first <= v < first + count ==> v in m && m[v].perms == back
    ensures ReprotectRange(ReprotectRange(m, first, count, perms), first, count, back) == m
  {
  }

  lemma MapRangeEmpty(m: FlatMap, first: nat, ppn: nat, perms: nat)
    ensures MapRange(m, first, ppn, 0, perms) == m
  {
  }

  lemma MapRangeKeeps(m: FlatMap, first: nat, ppn: nat, count: nat, perms: nat)
    ensures forall v :: v in m && !(first <= v < first + count) ==>
              v in MapRange(m, first, ppn, count, perms) && MapRange(m, first, ppn, count, perms)[v] == m[v]
  {
  }

  lemma UnmapRangeKeeps(m: FlatMap, first: nat, count: nat)
    ensures UnmapRange(m, first, 0) == m
    ensures forall v :: v in m && !(first <= v < first + count) ==>
              v in UnmapRange(m, first, count) && UnmapRange(m, first, count)[v] == m[v]
  {
  }

  lemma ReprotectRangeKeeps(m: FlatMap, first: nat, count: nat, perms: nat)
    ensures ReprotectRange(m, first, 0, perms) == m
    ensures forall v :: v in m && !(first <= v < first + count) ==>
              v in ReprotectRange(m, first, count, perms) && ReprotectRange(m, first, count, perms)[v] == m[v]
  {
  }

  /** The slots of a page range are consecutive. */
  lemma RangeSlotsInterval(first: nat, count: nat)
    requires count > 0
    ensures RangeSlots(first, count) ==
            RangePages(Slot(first), Slot(first + count - 1) - Slot(first) + 1)
  {
    var interval := RangePages(Slot(first), Slot(first + count - 1) - Slot(first) + 1);
    forall s | s in interval
      ensures s in RangeSlots(first, count)
    {
      var v := if s == Slot(first) then first else s * L2_ENTRIES;
      assert first <= v < first + count && Slot(v) == s;
    }
  }

  lemma ByteRangeSlots(gva: nat, size: nat)
    requires ValidPageRange(gva, size)
    ensures Slot(Vpn(gva)) <= Slot(Vpn(gva + size - 1)) < L1_ENTRIES
    ensures RangeSlots(Vpn(gva), Vpn(size)) ==
            RangePages(Slot(Vpn(gva)), Slot(Vpn(gva + size - 1)) - Slot(Vpn(gva)) + 1)
  {
    VpnRange(gva, size, ADDRESS_SPACE_SIZE);
    assert Vpn(gva + size - 1) == Vpn(gva) + Vpn(size) - 1;
    RangeSlotsInterval(Vpn(gva), Vpn(size));
  }

  /** Counting the members of a range that a set lacks, one at a time. */
  lemma RangeCountStep(first: nat, n: nat, s: set<nat>)
    ensures |RangePages(first, n + 1) - s| == |RangePages(first, n) - s| + if first + n in s then 0 else 1
  {
    var before, after := RangePages(first, n), RangePages(first, n + 1);
    if first + n in s {
      assert after - s == before - s;
    } else {
      assert after - s == (before - s) + {first + n};
    }
  }

  lemma RangeSlotsMonotone(first: nat, i: nat, count: nat)
    requires i <= count
    ensures RangeSlots(first, i) <= RangeSlots(first, count)
    ensures i < count ==> Slot(first + i) in RangeSlots(first, count)
  {
  }

  lemma UnionSize<T>(a: set<T>, b: set<T>)
    ensures |a + b| == |a| + |b - a|
  {
    assert a + b == a + (b - a);
  }

  /** Mapping a range uses exactly the slots of the range besides those in use. */
  lemma MapRangeSlots(m: FlatMap, first: nat, ppn: nat, count: nat, perms: nat)
    ensures Slots(MapRange(m, first, ppn, count, perms)) == Slots(m) + RangeSlots(first, count)
  {
    var m' := MapRange(m, first, ppn, count, perms);
    forall s | s in Slots(m) + RangeSlots(first, count)
      ensures s in Slots(m')
    {
      if s in Slots(m) {
        var v :| v in m && Slot(v) == s;
        assert v in m';
      } else {
        var v :| first <= v < first + count && Slot(v) == s;
        assert v in m';
      }
    }
  }

  /** Pages of a byte range that ends inside guest RAM. */
  lemma VpnRange(base: nat, size: nat, limit: nat)
    requires PageAligned(base) && PageAligned(size) && base + size <= limit
    ensures (Vpn(base) + Vpn(size)) * PAGE_SIZE == base + size
  {
  }

  lemma PageVpn(page: nat)
    ensures Vpn(page * PAGE_SIZE) == page && PageAligned(page * PAGE_SIZE)
  {
  }

  lemma ProperSubsetSize<T>(a: set<T>, b: set<T>)
    requires a < b
    ensures |a| < |b|
  {
    assert b == a + (b - a);
    assert b - a != {};
  }

  lemma InjectiveMapSize(m: map<nat, nat>)
    requires forall a, b :: a in m && b in m && m[a] == m[b] ==> a == b
    ensures |m.Values| == |m|
  {
    if m == map[] {
      assert m.Values == {};
    } else {
      var k :| k in m;
      var rest := m - {k};
      InjectiveMapSize(rest);
      assert m.Values == rest.Values + {m[k]} by {
        forall x | x in m.Values ensures x in rest.Values + {m[k]} {
          var a :| a in m && m[a] == x;
          if a != k { assert a in rest && rest[a] == x; }
        }
      }
      assert m.Keys == rest.Keys + {k};
    }
  }
}

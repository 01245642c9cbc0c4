/**
 The softmmu (core/common/vmm.c): a two-level page table whose second-level tables come from a
 bounded pool, recycled through a list threaded through entry 0 of each free table. Borrow
 tracking is the debug build's.
 */
module Vmms {
  import opened Results
  import opened Geometry
  import opened FlatMaps
  import opened PageTables
  import opened QueryRuns
  import opened GuestMemory

  const MAX_BORROWS: nat := 64

  datatype Borrow = Borrow(gva: nat, size: nat)

  /** What the borrower was promised: the host address of the first byte, and the permissions. */
  datatype Lease = Lease(host: nat, perms: nat)

  datatype Translation = Host(addr: nat) | Faulted(fault: Fault)

  datatype RegionInfo = RegionInfo(baseGva: nat, size: nat, perms: nat, isMapped: bool)

  /** Byte i of the borrowed range still translates to host + i. */
  ghost predicate LeaseHolds(m: FlatMap, ramBase: nat, b: Borrow, l: Lease) {
    forall a :: b.gva <= a < b.gva + b.size ==>
      Translates(m, a, l.perms) && ramBase + Pa(m, a) == l.host + (a - b.gva)
  }

  predicate Disjoint(b: Borrow, gva: nat, size: nat) {
    gva + size <= b.gva || b.gva + b.size <= gva
  }

  class Vmm {
    const l1: array<nat>
    const pool: array<nat>
    const counts: array<nat>
    const ram: array<Byte>
    const ramBase: nat
    const ramSize: nat

    var freeHead: nat
    var freeCount: nat
    var carved: nat
    var lastFault: Fault
    var borrows: seq<Borrow>
    var scopeOpen: bool

    // What the tables mean, the state of the tables as a value, and what each borrower was promised.
    ghost var flat: FlatMap
    ghost var tables: Tables
    ghost var leases: seq<Lease>

    ghost predicate Shape() {
      && l1.Length == L1_ENTRIES && counts.Length == L1_ENTRIES && l1 != counts
      && pool.Length == (L2_CAPACITY + 1) * L2_ENTRIES
      && ram as object !in {l1 as object, counts, pool} && pool as object !in {l1 as object, counts}
      && ram.Length == ramSize && PageAligned(ramSize)
      && ramBase > 0 && PageAligned(ramBase) && ramBase + ramSize <= TWO_TO_THE_64
    }

    ghost function Repr(): set<object> {
      {this, l1, pool, counts, ram}
    }

    /** The pool array holds the given tables, one after the other. */
    ghost predicate PoolIs(rows: seq<Row>)
      requires Shape()
      reads pool
    {
      && |rows| == L2_CAPACITY + 1
      && (forall t :: 0 <= t < |rows| ==> |rows[t]| == L2_ENTRIES)
      && (forall t: nat, i: nat :: t <= L2_CAPACITY && i < L2_ENTRIES ==> rows[t][i] == pool[EntryOf(t, i)])
    }

    /** The arrays and fields are the value `tables`. */
    ghost predicate Mirror()
      reads this, l1, pool, counts
    {
      && Shape()
      && l1[..] == tables.l1 && PoolIs(tables.pool) && counts[..] == tables.counts
      && freeHead == tables.freeHead && freeCount == tables.freeCount && carved == tables.carved
    }

    ghost predicate BorrowsOk()
      reads this
    {
      && |borrows| == |leases| <= MAX_BORROWS
      && (!scopeOpen ==> borrows == [])
      && (forall k :: 0 <= k < |borrows| ==> LeaseHolds(flat, ramBase, borrows[k], leases[k]))
    }

    ghost predicate Valid()
      reads this, l1, pool, counts
    {
      Mirror() && Settled(tables, flat, ramBase) && FlatOk(flat, ramSize) && BorrowsOk()
    }

    ghost predicate NoBorrowOverlaps(gva: nat, size: nat)
      reads this
    {
      forall k :: 0 <= k < |borrows| ==> Disjoint(borrows[k], gva, size)
    }

    /** Outside a borrow scope nothing is borrowed. */
    lemma Idle()
      requires Valid() && !scopeOpen
      ensures borrows == [] && ram.Length == ramSize && FlatOk(flat, ramSize)
      ensures PageAligned(ramSize) && ramBase + ramSize <= TWO_TO_THE_64
    {
    }

    // ----- Lifecycle -----

    constructor (ramBase: nat, ramSize: nat)
      requires ramBase > 0 && PageAligned(ramBase) && PageAligned(ramSize)
      requires ramBase + ramSize <= TWO_TO_THE_64
      ensures Valid() && flat == map[] && !scopeOpen
      ensures this.ramBase == ramBase && this.ramSize == ramSize
      ensures fresh(l1) && fresh(pool) && fresh(counts) && fresh(ram)
    {
      this.ramBase, this.ramSize := ramBase, ramSize;
      l1 := new nat[L1_ENTRIES](_ => 0);
      counts := new nat[L1_ENTRIES](_ => 0);
      pool := new nat[(L2_CAPACITY + 1) * L2_ENTRIES];
      ram := new Byte[ramSize](_ => 0);
      freeHead, freeCount, carved := 0, 0, 0;
      lastFault := Fault(FaultNone, 0, 0);
      borrows, scopeOpen, leases := [], false, [];
      flat := map[];
      new;
      // The pool is not cleared: tables are, as they are carved.
      tables := Tables(l1[..], RowsOf(pool[..]), counts[..], 0, 0, 0, map[], []);
      forall s | 0 <= s < L1_ENTRIES
        ensures PagesIn(flat, s) == {}
      {
      }
    }

    // ----- Single entries -----

    /** A store into one entry of one table. */
    method StoreEntry(table: nat, index: nat, value: nat, ghost rows: seq<Row>)
      requires Shape() && PoolIs(rows) && table <= L2_CAPACITY && index < L2_ENTRIES
      modifies pool
      ensures PoolIs(rows[table := SetEntry(rows[table], index, value)])
    {
      pool[EntryOf(table, index)] := value;
      EntriesDiffer();
    }

    /** memset(table, 0, VMM_L2_TABLE_BYTES) */
    method ClearTable(table: nat, ghost rows: seq<Row>)
      requires Shape() && PoolIs(rows) && table <= L2_CAPACITY
      modifies pool
      ensures PoolIs(rows[table := ZeroRow()])
    {
      EntriesDiffer();
      for i := 0 to L2_ENTRIES
        invariant forall t: nat, k: nat :: t <= L2_CAPACITY && k < L2_ENTRIES ==>
                    pool[EntryOf(t, k)] == if t == table && k < i then 0 else rows[t][k]
      {
        pool[EntryOf(table, i)] := 0;
      }
    }

    function PteLoad(vpn: nat): (pte: nat)
      requires Mirror() && Settled(tables, flat, ramBase) && vpn < TOTAL_PAGES
      reads this, l1, pool, counts
      ensures pte == PteOf(flat, ramBase, vpn)
    {
      assert PageAt(Slot(vpn), Index(vpn)) == vpn;
      var table := l1[Slot(vpn)];
      assert tables.l1[Slot(vpn)] == table;
      if table == 0 then 0 else
        assert tables.pool[table][Index(vpn)] == pool[EntryOf(table, Index(vpn))];
        pool[EntryOf(table, Index(vpn))]
    }

    /** pte_store of a PTE for a page that is already mapped. */
    method ReplacePte(vpn: nat, pte: nat, ghost p: Page)
      requires Mirror() && Settled(tables, flat, ramBase) && vpn in flat
      requires pte == MakePte(ramBase, p)
      modifies pool, `flat, `tables
      ensures Mirror() && Settled(tables, flat, ramBase) && flat == old(flat)[vpn := p]
    {
      hide TablesOk;
      Replaced(tables, flat, ramBase, vpn, p);
      var table := l1[Slot(vpn)];
      ghost var row := SetEntry(tables.pool[table], Index(vpn), pte);
      StoreEntry(table, Index(vpn), pte, tables.pool);
      flat := flat[vpn := p];
      tables := tables.(pool := tables.pool[table := row]);
    }

    // ----- L2 table pool -----

    /** Hands out an all-zero table: from the free list first, else newly carved. */
    method AcquireTable() returns (table: nat)
      requires Mirror() && TablesOk(tables, flat, ramBase, 0) && |tables.owner| < L2_CAPACITY
      modifies pool, `freeHead, `freeCount, `carved, `tables
      ensures Mirror() && TablesOk(tables, flat, ramBase, table)
      ensures 1 <= table <= L2_CAPACITY && tables.pool[table] == ZeroRow()
      ensures tables.l1 == old(tables.l1) && tables.counts == old(tables.counts)
    {
      hide TablesOk;
      if freeHead != 0 {
        AcquirePopped(tables, flat, ramBase);
        table := freeHead;
        freeHead := pool[EntryOf(table, 0)];
        freeCount := freeCount - 1;
        ghost var row := SetEntry(tables.pool[table], 0, 0);
        StoreEntry(table, 0, 0, tables.pool);
        tables := tables.(pool := tables.pool[table := row], freeHead := freeHead, freeCount := freeCount,
                          free := tables.free[1..]);
      } else {
        AcquireCarved(tables, flat, ramBase);
        table := carved + 1;
        ClearTable(table, tables.pool);
        carved := carved + 1;
        tables := tables.(pool := tables.pool[table := ZeroRow()], carved := carved);
      }
    }

    /** Returns an emptied table to the free list. */
    method ReleaseTable(table: nat)
      requires Mirror() && TablesOk(tables, flat, ramBase, table)
      requires 1 <= table <= L2_CAPACITY && tables.pool[table] == ZeroRow()
      modifies pool, `freeHead, `freeCount, `tables
      ensures Mirror() && TablesOk(tables, flat, ramBase, 0)
      ensures tables.l1 == old(tables.l1) && tables.counts == old(tables.counts)
    {
      hide TablesOk;
      Released(tables, flat, ramBase, table);
      ghost var row := SetEntry(tables.pool[table], 0, freeHead);
      StoreEntry(table, 0, freeHead, tables.pool);
      freeHead := table;
      freeCount := freeCount + 1;
      tables := tables.(pool := tables.pool[table := row], freeHead := freeHead, freeCount := freeCount,
          free := [table] + tables.free);
    }

    /** One iteration of vmm_map's commit loop: a table for the slot if it has none, then the entry. */
    method CommitPage(vpn: nat, p: Page)
      requires Mirror() && Settled(tables, flat, ramBase)
      requires vpn < TOTAL_PAGES && vpn !in flat
      requires l1[Slot(vpn)] == 0 ==> |tables.owner| < L2_CAPACITY
      modifies l1, pool, counts, `freeHead, `freeCount, `carved, `flat, `tables
      ensures Mirror() && Settled(tables, flat, ramBase)
      ensures flat == old(flat)[vpn := p]
    {
      hide TablesOk;
      var slot := Slot(vpn);
      if l1[slot] == 0 {
        var table := AcquireTable();
        Attached(tables, flat, ramBase, slot, table);
        l1[slot] := table;
        tables := tables.(l1 := tables.l1[slot := table], owner := tables.owner[table := slot]);
      }
      Entered(tables, flat, ramBase, vpn, p);
      var table := l1[slot];
      ghost var row := SetEntry(tables.pool[table], Index(vpn), MakePte(ramBase, p));
      StoreEntry(table, Index(vpn), MakePte(ramBase, p), tables.pool);
      counts[slot] := counts[slot] + 1;
      flat := flat[vpn := p];
      tables := tables.(pool := tables.pool[table := row], counts := tables.counts[slot := counts[slot]]);
    }

    /** One iteration of vmm_unmap's loop: the last page of a slot gives its table back. */
    method RetirePage(vpn: nat)
      requires Mirror() && Settled(tables, flat, ramBase) && vpn in flat
      modifies l1, pool, counts, `freeHead, `freeCount, `flat, `tables
      ensures Mirror() && Settled(tables, flat, ramBase)
      ensures flat == old(flat) - {vpn}
    {
      hide TablesOk;
      var slot := Slot(vpn);
      Cleared(tables, flat, ramBase, vpn);
      var table := l1[slot];
      ghost var row := SetEntry(tables.pool[table], Index(vpn), 0);
      StoreEntry(table, Index(vpn), 0, tables.pool);
      counts[slot] := counts[slot] - 1;
      flat := flat - {vpn};
      tables := tables.(pool := tables.pool[table := row], counts := tables.counts[slot := counts[slot]]);
      if counts[slot] == 0 {
        DropTable(slot);
      }
    }

    /** Takes an emptied table out of its L1 slot and releases it. */
    method DropTable(slot: nat)
      requires Mirror() && TablesOk(tables, flat, ramBase, 0)
      requires slot < L1_ENTRIES && l1[slot] != 0 && counts[slot] == 0
      requires forall s :: 0 <= s < L1_ENTRIES && s != slot && tables.l1[s] != 0 ==> tables.counts[s] > 0
      modifies l1, pool, `freeHead, `freeCount, `tables
      ensures Mirror() && Settled(tables, flat, ramBase)
    {
      hide TablesOk;
      var table := l1[slot];
      Detached(tables, flat, ramBase, slot);
      l1[slot] := 0;
      tables := tables.(l1 := tables.l1[slot := 0], owner := tables.owner - {table});
      ReleaseTable(table);
    }

    // ----- Mapping -----

    /** A slot has a table exactly when it holds a mapped page. */
    lemma SlotTaken(slot: nat)
      requires Valid() && slot < L1_ENTRIES
      ensures Shape() && (l1[slot] == 0 <==> slot !in Slots(flat))
      ensures freeCount + (L2_CAPACITY - carved) == L2_CAPACITY - |Slots(flat)|
    {
      Available(tables, flat, ramBase);
      assert l1[slot] == tables.l1[slot];
    }

    /** The slots of a range that have no table yet. */
    method CountAbsentSlots(gva: nat, size: nat) returns (absent: nat)
      requires Valid() && ValidPageRange(gva, size)
      ensures absent == |RangeSlots(Vpn(gva), Vpn(size)) - Slots(flat)|
    {
      hide Vmm.Valid, Slots, RangeSlots, RangePages, Slot, Vpn;
      var first, last := Slot(Vpn(gva)), Slot(Vpn(gva + size - 1));
      ByteRangeSlots(gva, size);
      absent := 0;
      var i := first;
      while i <= last
        invariant first <= i <= last + 1
        invariant absent == |RangePages(first, i - first) - Slots(flat)|
      {
        ghost var seen := i - first;
        RangeCountStep(first, seen, Slots(flat));
        SlotTaken(i);
        if l1[i] == 0 {
          absent := absent + 1;
        }
        i := i + 1;
        assert i - first == seen + 1;
      }
    }

    /** No page of the range is mapped yet. */
    method RangeIsUnmapped(first: nat, count: nat) returns (free: bool)
      requires Valid() && first + count <= TOTAL_PAGES
      ensures free == NoneMapped(flat, first, count)
    {
      hide Settled, FlatOk, LeaseHolds;
      for i := 0 to count
        invariant NoneMapped(flat, first, i)
      {
        PteNonZero(first + i);
        if PteLoad(first + i) != 0 {
          return false;
        }
      }
      free := true;
    }

    /** vmm_map: validates the whole range, then commits page by page. */
    method Map(gva: U64, pa: U64, size: U64, perms: nat) returns (e: Error)
      requires Valid()
      requires MapError(flat, ramSize, gva, pa, size, perms) == Ok ==> NoBorrowOverlaps(gva, size)
      modifies l1, pool, counts, `freeHead, `freeCount, `carved, `flat, `tables
      ensures Valid()
      ensures e == MapError(old(flat), ramSize, gva, pa, size, perms)
      ensures flat == Mapped(old(flat), ramSize, gva, pa, size, perms)
    {
      hide Settled, Slots, RangeSlots, FlatOk, LeaseHolds, MapRange, NoneMapped, Vmm.Mirror;
      if !ValidPageRange(gva, size) {
        return InvalidArgument;
      }
      if !PageAligned(pa) || pa >= ramSize || size > ramSize - pa {
        return InvalidArgument;
      }
      if perms > PERM_ALL {
        return InvalidArgument;
      }
      var first, count := Vpn(gva), Vpn(size);
      VpnRange(gva, size, ADDRESS_SPACE_SIZE);
      var free := RangeIsUnmapped(first, count);
      if !free {
        return InvalidArgument;
      }
      var absent := CountAbsentSlots(gva, size);
      SlotTaken(0);
      UnionSize(Slots(flat), RangeSlots(first, count));
      if absent > freeCount + (L2_CAPACITY - carved) {
        return OutOfMemory;
      }
      MapRangeOk(flat, ramSize, gva, pa, size, perms);
      ghost var m := flat;
      CommitPages(first, Vpn(pa), count, perms);
      MapRangeKeeps(m, first, Vpn(pa), count, perms);
      LeasesSurvive(m, flat, gva, size);
      e := Ok;
    }

    lemma PermsBounded()
      requires Valid()
      ensures forall v :: v in flat ==> v < TOTAL_PAGES && flat[v].perms <= PERM_ALL
    {
    }

    lemma PteNonZero(vpn: nat)
      requires Valid() && vpn < TOTAL_PAGES
      ensures PteLoad(vpn) == 0 <==> vpn !in flat
      ensures vpn in flat ==> PteLoad(vpn) % 8 == flat[vpn].perms
    {
      if vpn in flat {
        PteDecodes(ramBase, flat[vpn], 0);
      }
    }

    /** vmm_map's commit loop. */
    method CommitPages(first: nat, ppn: nat, count: nat, perms: nat)
      requires Mirror() && Settled(tables, flat, ramBase)
      requires first + count <= TOTAL_PAGES && NoneMapped(flat, first, count)
      requires |Slots(flat) + RangeSlots(first, count)| <= L2_CAPACITY
      modifies l1, pool, counts, `freeHead, `freeCount, `carved, `flat, `tables
      ensures Mirror() && Settled(tables, flat, ramBase)
      ensures flat == MapRange(old(flat), first, ppn, count, perms)
    {
      hide Settled, Slots, RangeSlots, MapRange;
      ghost var m := flat;
      ghost var wanted := Slots(flat) + RangeSlots(first, count);
      MapRangeEmpty(m, first, ppn, perms);
      for i := 0 to count
        invariant Mirror() && Settled(tables, flat, ramBase)
        invariant flat == MapRange(m, first, ppn, i, perms)
        invariant Slots(flat) <= wanted
      {
        var vpn := first + i;
        RangeSlotsMonotone(first, i, count);
        RangeSlotsMonotone(first, i + 1, count);
        MapRangeStep(m, first, ppn, i, perms);
        Available(tables, flat, ramBase);
        if l1[Slot(vpn)] == 0 {
          assert tables.l1[Slot(vpn)] == 0;
          ProperSubsetSize(Slots(flat), wanted);
        }
        MapRangeSlots(m, first, ppn, i + 1, perms);
        CommitPage(vpn, Page(ppn + i, perms));
      }
    }

    /** A mutation that keeps every page outside [gva, gva + size) keeps every borrow outside it. */
    lemma LeasesSurvive(m: FlatMap, m': FlatMap, gva: nat, size: nat)
      requires PageAligned(gva) && PageAligned(size) && NoBorrowOverlaps(gva, size)
      requires forall v :: v in m && !(Vpn(gva) <= v < Vpn(gva) + Vpn(size)) ==> v in m' && m'[v] == m[v]
      ensures forall k :: 0 <= k < |borrows| && k < |leases| && LeaseHolds(m, ramBase, borrows[k], leases[k]) ==>
                LeaseHolds(m', ramBase, borrows[k], leases[k])
    {
      forall k | 0 <= k < |borrows| && k < |leases| && LeaseHolds(m, ramBase, borrows[k], leases[k])
        ensures LeaseHolds(m', ramBase, borrows[k], leases[k])
      {
        var b, l := borrows[k], leases[k];
        assert Disjoint(b, gva, size);
        forall a | b.gva <= a < b.gva + b.size
          ensures Translates(m', a, l.perms) && ramBase + Pa(m', a) == l.host + (a - b.gva)
        {
          assert Translates(m, a, l.perms);
        }
      }
    }

    /** The shared precondition of unmap and reprotect. */
    method RequireRangeMapped(gva: U64, size: U64) returns (e: Error)
      requires Valid()
      ensures e == MappedRangeError(flat, gva, size)
    {
      hide Settled, FlatOk, LeaseHolds;
      if !ValidPageRange(gva, size) {
        return InvalidArgument;
      }
      var first, count := Vpn(gva), Vpn(size);
      VpnRange(gva, size, ADDRESS_SPACE_SIZE);
      for i := 0 to count
        invariant AllMapped(flat, first, i)
      {
        PteNonZero(first + i);
        if PteLoad(first + i) == 0 {
          return InvalidArgument;
        }
      }
      e := Ok;
    }

    method Unmap(gva: U64, size: U64) returns (e: Error)
      requires Valid()
      requires MappedRangeError(flat, gva, size) == Ok ==> NoBorrowOverlaps(gva, size)
      modifies l1, pool, counts, `freeHead, `freeCount, `flat, `tables
      ensures Valid()
      ensures e == MappedRangeError(old(flat), gva, size)
      ensures flat == Unmapped(old(flat), gva, size)
    {
      hide Settled, FlatOk, LeaseHolds, UnmapRange;
      e := RequireRangeMapped(gva, size);
      if e != Ok {
        return;
      }
      var first, count := Vpn(gva), Vpn(size);
      ghost var m := flat;
      UnmapRangeOk(flat, ramSize, gva, size);
      UnmapRangeKeeps(m, first, count);
      for i := 0 to count
        invariant Mirror() && Settled(tables, flat, ramBase)
        invariant flat == UnmapRange(m, first, i)
      {
        UnmapRangeStep(m, first, i);
        RetirePage(first + i);
      }
      LeasesSurvive(m, flat, gva, size);
    }

    method Reprotect(gva: U64, size: U64, perms: nat) returns (e: Error)
      requires Valid()
      requires ReprotectError(flat, gva, size, perms) == Ok ==> NoBorrowOverlaps(gva, size)
      modifies pool, `flat, `tables
      ensures Valid()
      ensures e == ReprotectError(old(flat), gva, size, perms)
      ensures flat == Reprotected(old(flat), gva, size, perms)
    {
      hide Settled, FlatOk, LeaseHolds, ReprotectRange;
      if perms > PERM_ALL {
        return InvalidArgument;
      }
      e := RequireRangeMapped(gva, size);
      if e != Ok {
        return;
      }
      var first, count := Vpn(gva), Vpn(size);
      ghost var m := flat;
      ReprotectRangeOk(flat, ramSize, gva, size, perms);
      ReprotectRangeKeeps(m, first, count, perms);
      PermsBounded();
      for i := 0 to count
        invariant Mirror() && Settled(tables, flat, ramBase)
        invariant flat == ReprotectRange(m, first, i, perms)
      {
        ReprotectRangeStep(m, first, i, perms);
        ReplacePerms(first + i, perms);
      }
      LeasesSurvive(m, flat, gva, size);
    }

    /** One iteration of vmm_reprotect's loop: the host bits stay, the permission bits are replaced. */
    method ReplacePerms(vpn: nat, perms: nat)
      requires Mirror() && Settled(tables, flat, ramBase) && vpn in flat && perms <= PERM_ALL
      requires vpn < TOTAL_PAGES && flat[vpn].perms <= PERM_ALL
      modifies pool, `flat, `tables
      ensures Mirror() && Settled(tables, flat, ramBase)
      ensures flat == old(flat)[vpn := Page(old(flat)[vpn].ppn, perms)]
    {
      var pte := PteLoad(vpn);
      PteDecodes(ramBase, flat[vpn], 0);
      ReplacePte(vpn, (pte - pte % PAGE_SIZE) + perms, Page(flat[vpn].ppn, perms));
    }

    // ----- Query -----

    function PageRunKey(vpn: nat): (key: nat)
      requires Valid() && vpn < TOTAL_PAGES
      reads this, l1, pool, counts
      ensures key == Key(flat, vpn)
    {
      PteNonZero(vpn);
      var pte := PteLoad(vpn);
      if pte != 0 then pte % 8 + 8 else 0
    }

    predicate SlotAbsent(vpn: nat)
      requires Mirror() && vpn < TOTAL_PAGES
      reads this, l1, pool, counts
    {
      l1[Slot(vpn)] == 0
    }

    lemma AbsentSlotIsHole(vpn: nat, first: nat)
      requires Valid() && vpn < TOTAL_PAGES && SlotAbsent(vpn) && first == Slot(vpn) * L2_ENTRIES
      ensures forall k :: first <= k < first + L2_ENTRIES ==> Key(flat, k) == 0
    {
      forall k | first <= k < first + L2_ENTRIES
        ensures k !in flat
      {
        assert Slot(k) == Slot(vpn);
        assert tables.l1[Slot(vpn)] == 0;
      }
    }

    /** Extends a run backward; whole absent tables are stepped over when it is a hole. */
    method ExtendBackward(vpn: nat, key: nat) returns (start: nat)
      requires Valid() && vpn < TOTAL_PAGES && key == Key(flat, vpn)
      ensures start <= vpn
      ensures forall k :: start <= k <= vpn ==> Key(flat, k) == key
      ensures start > 0 ==> Key(flat, start - 1) != key
    {
      hide Settled, FlatOk, LeaseHolds;
      start := vpn;
      while start > 0
        invariant 0 <= start <= vpn
        invariant forall k :: start <= k <= vpn ==> Key(flat, k) == key
        decreases start
      {
        if key == 0 && Index(start) == 0 && SlotAbsent(start - 1) {
          assert start - L2_ENTRIES == Slot(start - 1) * L2_ENTRIES;
          AbsentSlotIsHole(start - 1, start - L2_ENTRIES);
          start := start - L2_ENTRIES;
          continue;
        }
        if PageRunKey(start - 1) != key {
          break;
        }
        start := start - 1;
      }
    }

    method ExtendForward(vpn: nat, key: nat) returns (end: nat)
      requires Valid() && vpn < TOTAL_PAGES && key == Key(flat, vpn)
      ensures vpn < end <= TOTAL_PAGES
      ensures forall k :: vpn <= k < end ==> Key(flat, k) == key
      ensures end < TOTAL_PAGES ==> Key(flat, end) != key
    {
      hide Settled, FlatOk, LeaseHolds;
      end := vpn + 1;
      while end < TOTAL_PAGES
        invariant vpn < end <= TOTAL_PAGES
        invariant forall k :: vpn <= k < end ==> Key(flat, k) == key
      {
        if key == 0 && Index(end) == 0 && SlotAbsent(end) {
          assert end == Slot(end) * L2_ENTRIES;
          AbsentSlotIsHole(end, end);
          end := end + L2_ENTRIES;
          continue;
        }
        if PageRunKey(end) != key {
          break;
        }
        end := end + 1;
      }
    }

    /** vmm_query: the maximal run of pages in the same state as the page of `gva`. */
    method Query(gva: U64) returns (e: Error, info: RegionInfo)
      requires Valid()
      ensures e == if gva < ADDRESS_SPACE_SIZE then Ok else InvalidArgument
      ensures e == Ok ==>
        && IsRun(flat, Vpn(gva), Vpn(info.baseGva), Vpn(info.baseGva) + Vpn(info.size))
        && PageAligned(info.baseGva) && PageAligned(info.size)
        && info.isMapped == (Vpn(gva) in flat)
        && info.perms == (if Vpn(gva) in flat then flat[Vpn(gva)].perms else PERM_NONE)
    {
      hide Settled, FlatOk, LeaseHolds;
      info := RegionInfo(0, 0, PERM_NONE, false);
      if gva >= ADDRESS_SPACE_SIZE {
        return InvalidArgument, info;
      }
      var vpn := Vpn(gva);
      var key := PageRunKey(vpn);
      var hole := key == 0;
      var start := ExtendBackward(vpn, key);
      var end := ExtendForward(vpn, key);
      PteNonZero(vpn);
      info := RegionInfo(start * PAGE_SIZE, (end - start) * PAGE_SIZE, if hole then PERM_NONE else key % 8, !hole);
      e := Ok;
    }

    // ----- Access -----

    /** vmm_translate_inline: the host address of a byte, or the fault. */
    function Translate(gva: nat, perms: nat): (t: Translation)
      requires Valid()
      reads this, l1, pool, counts
      ensures t.Host? <==> Translates(flat, gva, perms)
      ensures t.Host? ==> t.addr == ramBase + Pa(flat, gva)
      ensures t.Faulted? ==> t.fault == Fault(FaultKindAt(flat, gva), perms, gva)
    {
      if gva >= ADDRESS_SPACE_SIZE then Faulted(Fault(FaultOutOfRange, perms, gva))
      else
        PteNonZero(Vpn(gva));
        var pte := PteLoad(Vpn(gva));
        if pte == 0 then Faulted(Fault(FaultUnmapped, perms, gva))
        else
          PteDecodes(ramBase, flat[Vpn(gva)], perms);
          if !PermsCover(pte, perms) then Faulted(Fault(FaultPermission, perms, gva))
          else Host(pte - pte % PAGE_SIZE + PageOffset(gva))
    }

    /** One translation decides a whole page. */
    lemma PageTranslates(gva: nat, perms: nat)
      requires Translates(flat, gva, perms)
      ensures var next := gva - PageOffset(gva) + PAGE_SIZE;
              && gva < next <= ADDRESS_SPACE_SIZE && PageOffset(next) == 0
              && forall a :: gva <= a < next ==> Translates(flat, a, perms)
    {
      forall a | gva <= a < gva - PageOffset(gva) + PAGE_SIZE
        ensures Translates(flat, a, perms)
      {
        SamePage(gva, a - gva);
      }
    }

    /**
     What a permission check decides: bit by bit of the mask, against the bits of the page. The address
     is the page's host address plus the offset; a refusal names its cause.
     */
    lemma TranslateDecides(gva: nat, read: bool, write: bool, execute: bool)
      requires Valid()
      ensures var t := Translate(gva, Mask(read, write, execute));
              && (t.Host? <==> Grants(flat, gva, read, write, execute))
              && (t.Host? ==> t.addr == ramBase + flat[gva / 4096].ppn * 4096 + gva % 4096)
              && (t.Faulted? ==> t.fault.gva == gva && t.fault.requiredPerms == Mask(read, write, execute))
              && (t.Faulted? ==> t.fault.kind == if gva >= 0x80_0000_0000 then FaultOutOfRange
                                                 else if gva / 4096 !in flat then FaultUnmapped else FaultPermission)
    {
      hide Vmm.Valid, PermsCover, Mask;
      TranslatesMeans(flat, gva, read, write, execute);
    }

    /** Translates the first byte of every page of the range. */
    method ValidateByteRange(gva: U64, size: U64, perms: nat) returns (ok: bool, fault: Fault)
      requires Valid()
      ensures ok <==> ValidByteRange(gva, size) && AllTranslate(flat, gva, size, perms)
      ensures !ok ==> IsFirstFault(flat, gva, size, perms, fault)
    {
      hide Vmm.Valid, PermsCover, Translates, PageOffset;
      fault := Fault(FaultNone, perms, gva);
      if !ValidByteRange(gva, size) {
        return false, Fault(FaultOutOfRange, perms, gva);
      }
      var end: U64 := gva + size;
      var cursor: U64 := gva;
      while cursor < end
        invariant gva <= cursor <= ADDRESS_SPACE_SIZE
        invariant cursor == gva || PageOffset(cursor) == 0
        invariant forall a :: gva <= a < cursor && a < end ==> Translates(flat, a, perms)
      {
        var t := Translate(cursor, perms);
        if t.Faulted? {
          return false, t.fault;
        }
        PageTranslates(cursor, perms);
        cursor := cursor - PageOffset(cursor) + PAGE_SIZE;
      }
      ok := true;
    }

    lemma BackedWhen(gva: nat, size: nat, perms: nat)
      requires Valid() && Accessible(flat, gva, size, perms)
      ensures Backed(flat, gva, size, ramSize)
      ensures size > 0 ==> ValidByteRange(gva, size)
    {
      AccessibleIsBacked(flat, gva, size, perms, ramSize);
    }

    /** Copies page by page out of a validated range. */
    method CopyGuestToHost(gva: nat, size: nat) returns (out: seq<Byte>)
      requires Valid() && Accessible(flat, gva, size, PERM_R)
      requires Backed(flat, gva, size, ram.Length)
      ensures out == Loaded(flat, ram[..], gva, size)
    {
      hide Settled, FlatOk, LeaseHolds, PermsCover, Pa;
      out := [];
      var cursor, remaining := gva, size;
      ghost var at := Addresses(flat, gva, size, ramSize);
      while remaining > 0
        invariant |out| <= size && remaining == size - |out| && cursor == gva + |out|
        invariant forall k :: 0 <= k < |out| ==> out[k] == ram[at[k]]
      {
        assert Translates(flat, cursor, PERM_R);
        var host := Translate(cursor, PERM_R).addr;
        var pageLeft := PAGE_SIZE - PageOffset(cursor);
        var chunk := if remaining < pageLeft then remaining else pageLeft;
        ghost var done := |out|;
        ChunkAddresses(at, gva, size, done, chunk);
        var from := host - ramBase;
        assert at[done + chunk - 1] == from + chunk - 1;
        out := out + ram[from..from + chunk];
        cursor := cursor + chunk;
        remaining := remaining - chunk;
      }
    }

    /** Within one page the addresses of consecutive bytes are consecutive. */
    lemma ChunkAddresses(at: seq<nat>, gva: nat, size: nat, done: nat, chunk: nat)
      requires Backed(flat, gva, size, ramSize) && at == Addresses(flat, gva, size, ramSize)
      requires done + chunk <= size && PageOffset(gva + done) + chunk <= PAGE_SIZE
      ensures forall k :: done <= k < done + chunk ==> at[k] == Pa(flat, gva + done) + (k - done)
    {
      forall k | done <= k < done + chunk
        ensures at[k] == Pa(flat, gva + done) + (k - done)
      {
        SamePage(gva + done, k - done);
      }
    }

    /** memcpy into guest RAM. */
    method CopyBytes(to: nat, bytes: seq<Byte>, ghost was: seq<Byte>, ghost at: seq<nat>, ghost src: seq<Byte>,
                     ghost done: nat)
      requires |at| == |src| && |was| == ram.Length && forall k :: 0 <= k < |at| ==> at[k] < |was|
      requires done + |bytes| <= |src| && bytes == src[done..done + |bytes|]
      requires forall k :: done <= k < done + |bytes| ==> at[k] == to + (k - done)
      requires ram[..] == Scatter(was, at[..done], src[..done])
      modifies ram
      ensures ram[..] == Scatter(was, at[..done + |bytes|], src[..done + |bytes|])
    {
      for k := 0 to |bytes|
        invariant ram[..] == Scatter(was, at[..done + k], src[..done + k])
      {
        ghost var before := ram[..];
        ScatterSnoc(was, at, src, done + k);
        assert at[done + k] == to + k;
        ram[to + k] := bytes[k];
        assert ram[..] == before[to + k := bytes[k]];
        assert done + (k + 1) == done + k + 1;
      }
    }

    /** Copies page by page into a validated range. */
    method CopyHostToGuest(gva: nat, src: seq<Byte>)
      requires Valid() && Accessible(flat, gva, |src|, PERM_W)
      requires Backed(flat, gva, |src|, ram.Length)
      modifies ram
      ensures Valid()
      ensures ram[..] == Stored(flat, old(ram[..]), gva, src)
    {
      hide Settled, FlatOk, LeaseHolds, PermsCover, Pa, Scatter;
      var cursor, done := gva, 0;
      ghost var was := ram[..];
      ghost var at := Addresses(flat, gva, |src|, ramSize);
      ScatterNothing(was);
      assert at[..0] == [] && src[..0] == [];
      while done < |src|
        invariant 0 <= done <= |src| && cursor == gva + done
        invariant Valid()
        invariant ram[..] == Scatter(was, at[..done], src[..done])
      {
        assert Translates(flat, cursor, PERM_W);
        var host := Translate(cursor, PERM_W).addr;
        var pageLeft := PAGE_SIZE - PageOffset(cursor);
        var chunk := if |src| - done < pageLeft then |src| - done else pageLeft;
        ChunkAddresses(at, gva, |src|, done, chunk);
        CopyBytes(host - ramBase, src[done..done + chunk], was, at, src, done);
        cursor := cursor + chunk;
        done := done + chunk;
      }
      assert at[..done] == at && src[..done] == src;
    }

    // ----- Block access -----

    method RecordFault(fault: Fault) returns (e: Error)
      modifies `lastFault
      ensures e == MemoryFault && lastFault == fault
    {
      lastFault := fault;
      e := MemoryFault;
    }

    /** vmm_read_block: all of the range or nothing. */
    method ReadBlock(gva: U64, size: U64) returns (e: Error, out: seq<Byte>)
      requires Valid()
      modifies `lastFault
      ensures Valid()
      ensures Backed(flat, gva, size, ram.Length) || !Accessible(flat, gva, size, PERM_R)
      ensures if Accessible(flat, gva, size, PERM_R)
              then e == Ok && out == Loaded(flat, ram[..], gva, size) && lastFault == old(lastFault)
              else e == MemoryFault && out == [] && IsFirstFault(flat, gva, size, PERM_R, lastFault)
    {
      hide Settled, FlatOk, LeaseHolds, PermsCover, Pa, Loaded;
      if size == 0 {
        LoadedNothing(flat, ram[..], gva);
        return Ok, [];
      }
      var ok, fault := ValidateByteRange(gva, size, PERM_R);
      if !ok {
        e := RecordFault(fault);
        return e, [];
      }
      BackedWhen(gva, size, PERM_R);
      out := CopyGuestToHost(gva, size);
      e := Ok;
    }

    /** vmm_write_block: all of the range or nothing. */
    method WriteBlock(gva: U64, src: seq<Byte>) returns (e: Error)
      requires Valid() && |src| < TWO_TO_THE_64
      modifies ram, `lastFault
      ensures Valid()
      ensures Backed(flat, gva, |src|, ram.Length) || !Accessible(flat, gva, |src|, PERM_W)
      ensures if Accessible(flat, gva, |src|, PERM_W)
              then e == Ok && ram[..] == Stored(flat, old(ram[..]), gva, src) && lastFault == old(lastFault)
              else e == MemoryFault && ram[..] == old(ram[..]) && IsFirstFault(flat, gva, |src|, PERM_W, lastFault)
    {
      hide Settled, FlatOk, LeaseHolds, PermsCover, Pa, Scatter;
      if |src| == 0 {
        ScatterNothing(ram[..]);
        return Ok;
      }
      var ok, fault := ValidateByteRange(gva, |src|, PERM_W);
      if !ok {
        e := RecordFault(fault);
        return;
      }
      BackedWhen(gva, |src|, PERM_W);
      CopyHostToGuest(gva, src);
      e := Ok;
    }

    // ----- Sized inline access -----

    /** vmm_read8/16/32/64_inline: one translation unless the access straddles a page. */
    method ReadInline(gva: U64, size: nat) returns (ok: bool, out: seq<Byte>, fault: Fault)
      requires Valid() && 1 <= size <= 8
      ensures ok <==> Accessible(flat, gva, size, PERM_R)
      ensures ok ==> Backed(flat, gva, size, ram.Length) && out == Loaded(flat, ram[..], gva, size)
      ensures !ok ==> out == [] && IsFirstFault(flat, gva, size, PERM_R, fault)
    {
      hide Settled, FlatOk, LeaseHolds, PermsCover, Pa, Loaded;
      out, fault := [], Fault(FaultNone, PERM_R, gva);
      if PageOffset(gva) + size > PAGE_SIZE {
        ok, fault := ValidateByteRange(gva, size, PERM_R);
        if ok {
          BackedWhen(gva, size, PERM_R);
          out := CopyGuestToHost(gva, size);
        }
        return;
      }
      InPage(gva, size, PERM_R);
      var t := Translate(gva, PERM_R);
      if t.Faulted? {
        return false, [], t.fault;
      }
      BackedWhen(gva, size, PERM_R);
      InPageBytes(gva, size);
      out := ram[t.addr - ramBase..t.addr - ramBase + size];
      ok := true;
    }

    /** vmm_write8/16/32/64_inline. */
    method WriteInline(gva: U64, src: seq<Byte>) returns (ok: bool, fault: Fault)
      requires Valid() && 1 <= |src| <= 8
      modifies ram
      ensures Valid()
      ensures ok <==> Accessible(flat, gva, |src|, PERM_W)
      ensures ok ==> Backed(flat, gva, |src|, ram.Length) && ram[..] == Stored(flat, old(ram[..]), gva, src)
      ensures !ok ==> ram[..] == old(ram[..]) && IsFirstFault(flat, gva, |src|, PERM_W, fault)
    {
      hide Settled, FlatOk, LeaseHolds, PermsCover, Pa, Loaded, Scatter;
      fault := Fault(FaultNone, PERM_W, gva);
      if PageOffset(gva) + |src| > PAGE_SIZE {
        ok, fault := ValidateByteRange(gva, |src|, PERM_W);
        if ok {
          BackedWhen(gva, |src|, PERM_W);
          CopyHostToGuest(gva, src);
        }
        return;
      }
      InPage(gva, |src|, PERM_W);
      var t := Translate(gva, PERM_W);
      if t.Faulted? {
        return false, t.fault;
      }
      BackedWhen(gva, |src|, PERM_W);
      ghost var was := ram[..];
      ghost var at := Addresses(flat, gva, |src|, ramSize);
      ChunkAddresses(at, gva, |src|, 0, |src|);
      ScatterNothing(was);
      assert at[..0] == [] && src[..0] == [] && src[0..|src|] == src && at[..|src|] == at && src[..|src|] == src;
      CopyBytes(t.addr - ramBase, src, was, at, src, 0);
      ok := true;
    }

    /** An access inside one page translates throughout when its first byte does. */
    lemma InPage(gva: nat, size: nat, perms: nat)
      requires size > 0 && PageOffset(gva) + size <= PAGE_SIZE
      ensures Accessible(flat, gva, size, perms) <==> Translates(flat, gva, perms)
      ensures !Translates(flat, gva, perms) ==>
                IsFirstFault(flat, gva, size, perms, Fault(FaultKindAt(flat, gva), perms, gva))
    {
      if Translates(flat, gva, perms) {
        forall a | gva <= a < gva + size
          ensures Translates(flat, a, perms)
        {
          SamePage(gva, a - gva);
        }
      }
    }

    lemma InPageBytes(gva: nat, size: nat)
      requires Valid() && PageOffset(gva) + size <= PAGE_SIZE && size > 0
      requires Backed(flat, gva, size, ram.Length)
      ensures Pa(flat, gva) + size <= ram.Length
      ensures Loaded(flat, ram[..], gva, size) == ram[Pa(flat, gva)..Pa(flat, gva) + size]
    {
      RamLength();
      hide Vmm.Valid, Pa;
      var at := Addresses(flat, gva, size, ramSize);
      ChunkAddresses(at, gva, size, 0, size);
      assert at[size - 1] == Pa(flat, gva) + (size - 1);
    }

    lemma RamLength()
      requires Valid()
      ensures ram.Length == ramSize
    {
    }

    // ----- Borrowed host pointers -----

    method BorrowScopeBegin()
      requires Valid() && !scopeOpen
      modifies `scopeOpen, `borrows, `leases
      ensures Valid() && scopeOpen && borrows == []
    {
      scopeOpen, borrows, leases := true, [], [];
    }

    method BorrowScopeEnd()
      requires Valid() && scopeOpen
      modifies `scopeOpen, `borrows, `leases
      ensures Valid() && !scopeOpen && borrows == []
    {
      scopeOpen, borrows, leases := false, [], [];
    }

    /** vmm_guest_to_host: a pointer good for the whole range, or why there is none. */
    method GuestToHost(gva: U64, size: U64, perms: nat) returns (e: Error, host: nat)
      requires Valid()
      requires HostContiguous(flat, gva, size, perms) ==> scopeOpen && |borrows| < MAX_BORROWS
      modifies `lastFault, `borrows, `leases
      ensures Valid()
      ensures e == Ok <==> HostContiguous(flat, gva, size, perms)
      ensures e == InvalidArgument <==> size == 0 || perms == 0 || perms > PERM_ALL
      ensures e in {Ok, InvalidArgument, MemoryFault, NotContiguous}
      ensures e == Ok ==> borrows == old(borrows) + [Borrow(gva, size)]
      ensures e == Ok ==> leases == old(leases) + [Lease(host, perms)]
      ensures e == Ok ==> host == ramBase + Pa(flat, gva) && host + size <= ramBase + ramSize
      ensures e != Ok ==> borrows == old(borrows) && leases == old(leases)
      ensures e == MemoryFault ==> IsFirstFault(flat, gva, size, perms, lastFault)
      ensures e != MemoryFault ==> lastFault == old(lastFault)
      ensures e == NotContiguous ==>
                exists a :: gva < a < gva + size && ScatteredAt(flat, gva, a, perms)
    {
      hide Settled, FlatOk, PermsCover, Pa;
      host := 0;
      if size == 0 || perms == 0 || perms > PERM_ALL {
        return InvalidArgument, 0;
      }
      if !ValidByteRange(gva, size) {
        e := RecordFault(Fault(FaultOutOfRange, perms, gva));
        return;
      }
      var first := Translate(gva, perms);
      if first.Faulted? {
        e := RecordFault(first.fault);
        return;
      }
      e := FollowRun(gva, size, perms, first.addr);
      if e != Ok {
        return;
      }
      BackedWhen(gva, size, perms);
      assert Translates(flat, gva + (size - 1), perms);
      host := first.addr;
      borrows := borrows + [Borrow(gva, size)];
      leases := leases + [Lease(host, perms)];
      e := Ok;
    }

    /** Every further page must translate and sit exactly where a contiguous run would put it. */
    method FollowRun(gva: U64, size: U64, perms: nat, first: nat) returns (e: Error)
      requires Valid() && ValidByteRange(gva, size) && Translates(flat, gva, perms)
      requires first == ramBase + Pa(flat, gva)
      modifies `lastFault
      ensures Valid()
      ensures e == Ok <==> RunsFrom(flat, gva, gva + size, gva + size, perms)
      ensures e in {Ok, MemoryFault, NotContiguous}
      ensures e == MemoryFault ==> IsFirstFault(flat, gva, size, perms, lastFault)
      ensures e != MemoryFault ==> lastFault == old(lastFault)
      ensures e == NotContiguous ==>
                exists a :: gva < a < gva + size && ScatteredAt(flat, gva, a, perms)
    {
      hide Settled, FlatOk, PermsCover, Pa, LeaseHolds;
      var end: U64 := gva + size;
      var cursor: U64 := gva - PageOffset(gva) + PAGE_SIZE;
      FirstPageRun(gva, cursor, perms);
      while cursor < end
        invariant gva < cursor <= ADDRESS_SPACE_SIZE && PageOffset(cursor) == 0
        invariant RunsFrom(flat, gva, cursor, end, perms)
        invariant Valid() && lastFault == old(lastFault)
      {
        var t := Translate(cursor, perms);
        if t.Faulted? {
          e := RecordFault(t.fault);
          return;
        }
        if t.addr != first + (cursor - gva) {
          assert ScatteredAt(flat, gva, cursor, perms);
          return NotContiguous;
        }
        NextPageRun(gva, cursor, end, perms);
        cursor := cursor + PAGE_SIZE;
      }
      e := Ok;
    }

    lemma FirstPageRun(gva: nat, next: nat, perms: nat)
      requires Translates(flat, gva, perms) && next == gva - PageOffset(gva) + PAGE_SIZE
      ensures forall end :: RunsFrom(flat, gva, next, end, perms)
      ensures gva < next <= ADDRESS_SPACE_SIZE && PageOffset(next) == 0
    {
      forall a | gva <= a < next
        ensures Translates(flat, a, perms) && Pa(flat, a) == Pa(flat, gva) + (a - gva)
      {
        SamePage(gva, a - gva);
      }
    }

    lemma NextPageRun(gva: nat, cursor: nat, end: nat, perms: nat)
      requires gva < cursor < end <= ADDRESS_SPACE_SIZE && PageOffset(cursor) == 0
      requires RunsFrom(flat, gva, cursor, end, perms)
      requires Translates(flat, cursor, perms) && Pa(flat, cursor) == Pa(flat, gva) + (cursor - gva)
      ensures RunsFrom(flat, gva, cursor + PAGE_SIZE, end, perms)
      ensures cursor + PAGE_SIZE <= ADDRESS_SPACE_SIZE && PageOffset(cursor + PAGE_SIZE) == 0
    {
      forall a | gva <= a < cursor + PAGE_SIZE && a < end
        ensures Translates(flat, a, perms) && Pa(flat, a) == Pa(flat, gva) + (a - gva)
      {
        if a >= cursor {
          SamePage(cursor, a - cursor);
        }
      }
    }

    /** memset(host, 0, size). */
    method HostZero(host: nat, size: nat)
      requires Valid() && ramBase <= host && host + size <= ramBase + ramSize
      modifies ram
      ensures Valid()
      ensures ram[..] == Splice(old(ram[..]), host - ramBase, Zeros(size))
    {
      HostCopy(host, Zeros(size));
    }

    /** memcpy(host, bytes). */
    method HostCopy(host: nat, bytes: seq<Byte>)
      requires Valid() && ramBase <= host && host + |bytes| <= ramBase + ramSize
      modifies ram
      ensures Valid()
      ensures ram[..] == Splice(old(ram[..]), host - ramBase, bytes)
    {
      hide Settled, FlatOk, LeaseHolds;
      var to := host - ramBase;
      forall k | 0 <= k < |bytes| {
        ram[to + k] := bytes[k];
      }
    }
  }
}

/**
 What the softmmu's tables (core/common/vmm.c) mean: the pool invariant, and how each single
 store to the tables changes the flat map they stand for. Everything here is about values;
 the class Vmm keeps its arrays in this shape.
 */
module PageTables {
  import opened Results
  import opened Geometry
  import opened FlatMaps

  /** An L2 table: L2_ENTRIES page-table entries. A table's address is its number in the pool; number 0 is NULL. */
  type Row = seq<nat>

  /** PTE bits: page-aligned host address, then three permission bits. */
  function MakePte(base: nat, p: Page): nat {
    base + p.ppn * PAGE_SIZE + p.perms
  }

  function PteOf(m: FlatMap, base: nat, v: nat): nat {
    if v in m then MakePte(base, m[v]) else 0
  }

  function PageAt(slot: nat, index: nat): nat {
    slot * L2_ENTRIES + index
  }

  /** Where entry i of table t lies in the pool. */
  function EntryOf(t: nat, i: nat): (at: nat)
    ensures t <= L2_CAPACITY && i < L2_ENTRIES ==> at < (L2_CAPACITY + 1) * L2_ENTRIES
  {
    t * L2_ENTRIES + i
  }

  lemma EntriesDiffer()
    ensures forall t: nat, i: nat, u: nat, k: nat ::
              i < L2_ENTRIES && k < L2_ENTRIES && EntryOf(t, i) == EntryOf(u, k) ==> t == u && i == k
  {
  }

  /** The pool cut into tables. */
  ghost function RowsOf(pool: seq<nat>): (rows: seq<Row>)
    requires |pool| == (L2_CAPACITY + 1) * L2_ENTRIES
    ensures |rows| == L2_CAPACITY + 1 && forall t :: 0 <= t < |rows| ==> |rows[t]| == L2_ENTRIES
    ensures forall t: nat, i: nat :: t <= L2_CAPACITY && i < L2_ENTRIES ==> rows[t][i] == pool[EntryOf(t, i)]
  {
    seq(L2_CAPACITY + 1, (t: nat) requires t <= L2_CAPACITY => pool[EntryOf(t, 0)..EntryOf(t, 0) + L2_ENTRIES])
  }

  function ZeroRow(): (r: Row)
    ensures |r| == L2_ENTRIES && forall i :: 0 <= i < L2_ENTRIES ==> r[i] == 0
  {
    seq(L2_ENTRIES, i => 0)
  }

  /** The table the flat map prescribes for a slot. */
  function RowOf(m: FlatMap, base: nat, slot: nat): (r: Row)
    ensures |r| == L2_ENTRIES
    ensures forall i :: 0 <= i < L2_ENTRIES ==> r[i] == PteOf(m, base, PageAt(slot, i))
  {
    seq(L2_ENTRIES, (i: nat) => PteOf(m, base, PageAt(slot, i)))
  }

  function SetEntry(r: Row, i: nat, pte: nat): (r': Row)
    requires i < |r|
    ensures |r'| == |r|
  {
    r[i := pte]
  }

  function Link(free: seq<nat>, i: nat): nat {
    if i < |free| then free[i] else 0
  }

  ghost predicate FlatOk(m: FlatMap, ramSize: nat) {
    forall v :: v in m ==>
      v < TOTAL_PAGES && m[v].perms <= PERM_ALL && (m[v].ppn + 1) * PAGE_SIZE <= ramSize
  }

  /** L1 entries and table owners are inverse to each other. */
  ghost predicate OwnerOk(l1: seq<nat>, owner: map<nat, nat>, carved: nat) {
    && |l1| == L1_ENTRIES && carved <= L2_CAPACITY
    && (forall t :: t in owner ==> 1 <= t <= carved && owner[t] < L1_ENTRIES && l1[owner[t]] == t)
    && (forall s :: 0 <= s < L1_ENTRIES && l1[s] != 0 ==> l1[s] in owner && owner[l1[s]] == s)
  }

  /** The free list visits `free` in order, through entry 0 of tables that are otherwise zero. */
  ghost predicate FreeOk(pool: seq<Row>, free: seq<nat>, freeHead: nat, carved: nat) {
    && |pool| == L2_CAPACITY + 1 && carved <= L2_CAPACITY
    && (forall i :: 0 <= i < |free| ==> 1 <= free[i] <= carved)
    && (forall i, j :: 0 <= i < j < |free| ==> free[i] != free[j])
    && freeHead == Link(free, 0)
    && (forall i :: 0 <= i < |free| ==> pool[free[i]] == SetEntry(ZeroRow(), 0, Link(free, i + 1)))
  }

  /** Live, free and uncarved tables partition the pool; `loose` is in transit (0: none is). */
  ghost predicate PartitionOk(owner: map<nat, nat>, free: seq<nat>, carved: nat, loose: nat) {
    && (forall i :: 0 <= i < |free| ==> free[i] !in owner && (loose != 0 ==> free[i] != loose))
    && (loose != 0 ==> loose !in owner && loose <= carved)
    && (forall t :: 1 <= t <= carved ==> t in owner || t in free || t == loose)
    && |owner| + |free| + (if loose == 0 then 0 else 1) == carved
  }

  /** Every live table holds exactly the PTEs of its slot, and every mapped page has a table. */
  ghost predicate ContentOk(l1: seq<nat>, pool: seq<Row>, m: FlatMap, base: nat)
    requires |l1| == L1_ENTRIES
  {
    && |pool| == L2_CAPACITY + 1
    && (forall s :: 0 <= s < L1_ENTRIES ==> l1[s] <= L2_CAPACITY)
    && (forall s :: 0 <= s < L1_ENTRIES && l1[s] != 0 ==> pool[l1[s]] == RowOf(m, base, s))
    && (forall v :: v in m ==> v < TOTAL_PAGES && l1[Slot(v)] != 0)
  }

  ghost predicate CountsOk(counts: seq<nat>, m: FlatMap) {
    && |counts| == L1_ENTRIES
    && (forall s :: 0 <= s < L1_ENTRIES ==> counts[s] == |PagesIn(m, s)|)
  }

  // ----- Single stores -----

  lemma RowStore(m: FlatMap, base: nat, v: nat, p: Page, slot: nat)
    ensures RowOf(m[v := p], base, slot) ==
            if Slot(v) == slot then RowOf(m, base, slot)[Index(v) := MakePte(base, p)] else RowOf(m, base, slot)
  {
    var m' := m[v := p];
    forall i | 0 <= i < L2_ENTRIES
      ensures PteOf(m', base, PageAt(slot, i)) ==
              if slot == Slot(v) && i == Index(v) then MakePte(base, p) else PteOf(m, base, PageAt(slot, i))
    {
      assert PageAt(slot, i) == v <==> slot == Slot(v) && i == Index(v);
    }
  }

  lemma RowClear(m: FlatMap, base: nat, v: nat, slot: nat)
    ensures RowOf(m - {v}, base, slot) ==
            if Slot(v) == slot then RowOf(m, base, slot)[Index(v) := 0] else RowOf(m, base, slot)
  {
    var m' := m - {v};
    forall i | 0 <= i < L2_ENTRIES
      ensures PteOf(m', base, PageAt(slot, i)) ==
              if slot == Slot(v) && i == Index(v) then 0 else PteOf(m, base, PageAt(slot, i))
    {
      assert PageAt(slot, i) == v <==> slot == Slot(v) && i == Index(v);
    }
  }

  /** pte_store of a mapped entry (fresh or replaced). */
  lemma StoreContent(l1: seq<nat>, pool: seq<Row>, m: FlatMap, base: nat, owner: map<nat, nat>, carved: nat, v: nat,
                     p: Page)
    requires OwnerOk(l1, owner, carved) && ContentOk(l1, pool, m, base)
    requires v < TOTAL_PAGES && l1[Slot(v)] != 0
    ensures ContentOk(l1, pool[l1[Slot(v)] := SetEntry(pool[l1[Slot(v)]], Index(v), MakePte(base, p))], m[v := p], base)
  {
    forall s | 0 <= s < L1_ENTRIES && l1[s] != 0
      ensures l1[s] == l1[Slot(v)] ==> s == Slot(v)
    {
    }
    forall s | 0 <= s < L1_ENTRIES {
      RowStore(m, base, v, p, s);
    }
  }

  /** pte_store of 0. */
  lemma ClearContent(l1: seq<nat>, pool: seq<Row>, m: FlatMap, base: nat, owner: map<nat, nat>, carved: nat, v: nat)
    requires OwnerOk(l1, owner, carved) && ContentOk(l1, pool, m, base)
    requires v in m
    ensures ContentOk(l1, pool[l1[Slot(v)] := SetEntry(pool[l1[Slot(v)]], Index(v), 0)], m - {v}, base)
  {
    forall s | 0 <= s < L1_ENTRIES && l1[s] != 0
      ensures l1[s] == l1[Slot(v)] ==> s == Slot(v)
    {
    }
    forall s | 0 <= s < L1_ENTRIES {
      RowClear(m, base, v, s);
    }
  }

  /** Writing a row that belongs to no live table leaves the contents alone. */
  lemma OtherRowContent(l1: seq<nat>, pool: seq<Row>, m: FlatMap, base: nat, owner: map<nat, nat>, carved: nat,
                        t: nat, row: Row)
    requires OwnerOk(l1, owner, carved) && ContentOk(l1, pool, m, base)
    requires t <= L2_CAPACITY && t !in owner
    ensures ContentOk(l1, pool[t := row], m, base)
  {
  }

  /** Writing a row that is not on the free list leaves the free list alone. */
  lemma OtherRowFree(pool: seq<Row>, free: seq<nat>, freeHead: nat, carved: nat, t: nat, row: Row)
    requires FreeOk(pool, free, freeHead, carved)
    requires t <= L2_CAPACITY && t !in free
    ensures FreeOk(pool[t := row], free, freeHead, carved)
  {
  }

  /** A slot with no mapped page has an all-zero row. */
  lemma EmptyRow(m: FlatMap, base: nat, slot: nat)
    requires |PagesIn(m, slot)| == 0
    ensures RowOf(m, base, slot) == ZeroRow()
  {
    forall i | 0 <= i < L2_ENTRIES
      ensures PageAt(slot, i) !in m
    {
      assert PagesIn(m, slot) == {};
      assert PageAt(slot, i) !in PagesIn(m, slot);
    }
  }

  lemma InsertCounts(counts: seq<nat>, m: FlatMap, v: nat, p: Page)
    requires CountsOk(counts, m) && v !in m && v < TOTAL_PAGES
    ensures CountsOk(counts[Slot(v) := counts[Slot(v)] + 1], m[v := p])
  {
    forall s | 0 <= s < L1_ENTRIES {
      PagesInInsert(m, v, p, s);
    }
  }

  lemma RemoveCounts(counts: seq<nat>, m: FlatMap, v: nat)
    requires CountsOk(counts, m) && v in m && v < TOTAL_PAGES
    ensures counts[Slot(v)] > 0
    ensures CountsOk(counts[Slot(v) := counts[Slot(v)] - 1], m - {v})
  {
    forall s | 0 <= s < L1_ENTRIES {
      PagesInRemove(m, v, s);
    }
  }

  lemma ReplaceCounts(counts: seq<nat>, m: FlatMap, v: nat, p: Page)
    requires CountsOk(counts, m) && v in m
    ensures CountsOk(counts, m[v := p])
  {
    forall s | 0 <= s < L1_ENTRIES {
      PagesInReplace(m, v, p, s);
    }
  }

  // ----- Tables moving between live, free and uncarved -----

  lemma TailFree(pool: seq<Row>, free: seq<nat>, freeHead: nat, carved: nat)
    requires FreeOk(pool, free, freeHead, carved) && free != []
    ensures FreeOk(pool, free[1..], Link(free, 1), carved)
    ensures free[0] !in free[1..]
  {
    var rest := free[1..];
    forall i | 0 <= i < |rest|
      ensures pool[rest[i]] == SetEntry(ZeroRow(), 0, Link(rest, i + 1))
    {
      assert rest[i] == free[i + 1];
    }
  }

  /** l2_table_acquire, list branch. */
  lemma PopFree(pool: seq<Row>, free: seq<nat>, freeHead: nat, owner: map<nat, nat>, carved: nat)
    requires FreeOk(pool, free, freeHead, carved) && PartitionOk(owner, free, carved, 0) && free != []
    ensures var t := freeHead;
            && 1 <= t <= carved && t !in free[1..] && |pool[t]| == L2_ENTRIES
            && FreeOk(pool[t := SetEntry(pool[t], 0, 0)], free[1..], pool[t][0], carved)
            && PartitionOk(owner, free[1..], carved, t)
            && SetEntry(pool[t], 0, 0) == ZeroRow()
  {
    var t := freeHead;
    assert t == free[0];
    assert pool[t] == SetEntry(ZeroRow(), 0, Link(free, 1));
    assert SetEntry(pool[t], 0, 0) == ZeroRow();
    var rest := free[1..];
    TailFree(pool, free, freeHead, carved);
    OtherRowFree(pool, rest, pool[t][0], carved, t, SetEntry(pool[t], 0, 0));
  }

  /** l2_table_acquire, carving branch. */
  lemma CarveRow(pool: seq<Row>, free: seq<nat>, freeHead: nat, owner: map<nat, nat>, carved: nat)
    requires FreeOk(pool, free, freeHead, carved) && PartitionOk(owner, free, carved, 0) && carved < L2_CAPACITY
    requires forall t :: t in owner ==> t <= carved
    ensures FreeOk(pool[carved + 1 := ZeroRow()], free, freeHead, carved + 1)
    ensures PartitionOk(owner, free, carved + 1, carved + 1)
  {
    OtherRowFree(pool, free, freeHead, carved, carved + 1, ZeroRow());
  }

  /** l2_table_release. */
  lemma PushFree(pool: seq<Row>, free: seq<nat>, freeHead: nat, owner: map<nat, nat>, carved: nat, t: nat)
    requires FreeOk(pool, free, freeHead, carved) && PartitionOk(owner, free, carved, t)
    requires t != 0 && pool[t] == ZeroRow()
    ensures FreeOk(pool[t := SetEntry(pool[t], 0, freeHead)], [t] + free, t, carved)
    ensures PartitionOk(owner, [t] + free, carved, 0)
  {
    assert t !in free;
    OtherRowFree(pool, free, freeHead, carved, t, SetEntry(pool[t], 0, freeHead));
    var pool', free' := pool[t := SetEntry(pool[t], 0, freeHead)], [t] + free;
    forall i | 0 <= i < |free'|
      ensures pool'[free'[i]] == SetEntry(ZeroRow(), 0, Link(free', i + 1))
    {
      if i > 0 { assert free'[i] == free[i - 1]; }
    }
  }

  /** The L1 entry takes the acquired table. */
  lemma AttachTable(l1: seq<nat>, owner: map<nat, nat>, free: seq<nat>, carved: nat, slot: nat, t: nat)
    requires OwnerOk(l1, owner, carved) && PartitionOk(owner, free, carved, t)
    requires t != 0 && slot < L1_ENTRIES && l1[slot] == 0
    ensures OwnerOk(l1[slot := t], owner[t := slot], carved)
    ensures PartitionOk(owner[t := slot], free, carved, 0)
  {
    var owner' := owner[t := slot];
    assert owner'.Keys == owner.Keys + {t};
    assert |owner'| == |owner'.Keys| == |owner| + 1;
    assert forall i :: 0 <= i < |free| ==> free[i] !in owner';
  }

  /** The L1 entry lets go of an emptied table. */
  lemma DetachTable(l1: seq<nat>, owner: map<nat, nat>, free: seq<nat>, carved: nat, slot: nat)
    requires OwnerOk(l1, owner, carved) && PartitionOk(owner, free, carved, 0)
    requires slot < L1_ENTRIES && l1[slot] != 0
    ensures OwnerOk(l1[slot := 0], owner - {l1[slot]}, carved)
    ensures PartitionOk(owner - {l1[slot]}, free, carved, l1[slot])
  {
    var t := l1[slot];
    assert (owner - {t}).Keys == owner.Keys - {t};
    assert |(owner - {t}).Keys| == |owner.Keys| - 1;
  }

  /** The number of live tables is the number of 64 MB slots in use: it depends on the flat map alone. */
  lemma LiveTables(l1: seq<nat>, owner: map<nat, nat>, carved: nat, pool: seq<Row>, counts: seq<nat>, m: FlatMap,
                   base: nat)
    requires OwnerOk(l1, owner, carved) && ContentOk(l1, pool, m, base) && CountsOk(counts, m)
    requires forall s :: 0 <= s < L1_ENTRIES && l1[s] != 0 ==> counts[s] > 0
    ensures |owner| == |Slots(m)|
    ensures forall s :: 0 <= s < L1_ENTRIES ==> (s in Slots(m) <==> l1[s] != 0)
  {
    InjectiveMapSize(owner);
    forall s | 0 <= s < L1_ENTRIES && l1[s] != 0
      ensures s in Slots(m)
    {
      var v :| v in PagesIn(m, s);
    }
    assert Slots(m) == owner.Values by {
      forall s | s in owner.Values ensures s in Slots(m) {
        var t :| t in owner && owner[t] == s;
      }
      forall s | s in Slots(m) ensures s in owner.Values {
        assert l1[s] in owner;
      }
    }
  }

  // ----- The whole state of the tables -----

  /** The C state, plus two ghost components: the slot each live table serves, and the free list in order. */
  datatype Tables = Tables(l1: seq<nat>, pool: seq<Row>, counts: seq<nat>,
                           freeHead: nat, freeCount: nat, carved: nat,
                           owner: map<nat, nat>, free: seq<nat>)

  ghost predicate TablesOk(t: Tables, m: FlatMap, base: nat, loose: nat) {
    && OwnerOk(t.l1, t.owner, t.carved)
    && FreeOk(t.pool, t.free, t.freeHead, t.carved) && t.freeCount == |t.free|
    && PartitionOk(t.owner, t.free, t.carved, loose)
    && ContentOk(t.l1, t.pool, m, base)
    && CountsOk(t.counts, m)
  }

  /** Page v's slot has a table, and all the indices that reach its entry are in range. */
  ghost predicate HasTable(t: Tables, v: nat) {
    && Slot(v) < |t.l1| && Slot(v) < |t.counts|
    && 1 <= t.l1[Slot(v)] < |t.pool| && |t.pool[t.l1[Slot(v)]]| == L2_ENTRIES
  }

  /** No live table is empty: an emptied table goes back at once. */
  ghost predicate NoEmptyTable(t: Tables) {
    forall s :: 0 <= s < |t.l1| && s < |t.counts| && t.l1[s] != 0 ==> t.counts[s] > 0
  }

  ghost predicate Settled(t: Tables, m: FlatMap, base: nat) {
    TablesOk(t, m, base, 0) && NoEmptyTable(t)
  }

  lemma AcquirePopped(t: Tables, m: FlatMap, base: nat)
    requires TablesOk(t, m, base, 0) && t.freeHead != 0
    ensures t.freeHead <= L2_CAPACITY && t.freeHead < |t.pool| && t.freeCount > 0 && t.free != []
            && |t.pool[t.freeHead]| == L2_ENTRIES
    ensures var row := t.pool[t.freeHead];
            && SetEntry(row, 0, 0) == ZeroRow()
            && TablesOk(t.(pool := t.pool[t.freeHead := SetEntry(row, 0, 0)], freeHead := row[0],
                           freeCount := t.freeCount - 1, free := t.free[1..]), m, base, t.freeHead)
  {
    PopFree(t.pool, t.free, t.freeHead, t.owner, t.carved);
    OtherRowContent(t.l1, t.pool, m, base, t.owner, t.carved, t.freeHead, SetEntry(t.pool[t.freeHead], 0, 0));
  }

  lemma NoFreeTable(pool: seq<Row>, free: seq<nat>, freeHead: nat, carved: nat)
    requires FreeOk(pool, free, freeHead, carved)
    ensures freeHead == 0 <==> free == []
  {
  }

  lemma AcquireCarved(t: Tables, m: FlatMap, base: nat)
    requires TablesOk(t, m, base, 0) && t.freeHead == 0 && |t.owner| < L2_CAPACITY
    ensures t.carved < L2_CAPACITY && t.carved + 1 < |t.pool|
    ensures TablesOk(t.(pool := t.pool[t.carved + 1 := ZeroRow()], carved := t.carved + 1), m, base, t.carved + 1)
  {
    NoFreeTable(t.pool, t.free, t.freeHead, t.carved);
    CarveRow(t.pool, t.free, t.freeHead, t.owner, t.carved);
    OtherRowContent(t.l1, t.pool, m, base, t.owner, t.carved, t.carved + 1, ZeroRow());
  }

  lemma Released(t: Tables, m: FlatMap, base: nat, table: nat)
    requires TablesOk(t, m, base, table) && 1 <= table <= L2_CAPACITY && t.pool[table] == ZeroRow()
    ensures TablesOk(t.(pool := t.pool[table := SetEntry(t.pool[table], 0, t.freeHead)], freeHead := table,
                        freeCount := t.freeCount + 1, free := [table] + t.free), m, base, 0)
  {
    PushFree(t.pool, t.free, t.freeHead, t.owner, t.carved, table);
    OtherRowContent(t.l1, t.pool, m, base, t.owner, t.carved, table, SetEntry(t.pool[table], 0, t.freeHead));
  }

  lemma Attached(t: Tables, m: FlatMap, base: nat, slot: nat, table: nat)
    requires TablesOk(t, m, base, table) && 1 <= table <= L2_CAPACITY && t.pool[table] == ZeroRow()
    requires slot < |t.l1| && t.l1[slot] == 0
    ensures TablesOk(t.(l1 := t.l1[slot := table], owner := t.owner[table := slot]), m, base, 0)
  {
    AttachTable(t.l1, t.owner, t.free, t.carved, slot, table);
    forall v | v in m ensures v !in PagesIn(m, slot) {
      assert t.l1[Slot(v)] != 0;
    }
    assert PagesIn(m, slot) == {};
    EmptyRow(m, base, slot);
  }

  lemma Detached(t: Tables, m: FlatMap, base: nat, slot: nat)
    requires TablesOk(t, m, base, 0)
    requires slot < |t.l1| && slot < |t.counts| && t.l1[slot] != 0 && t.counts[slot] == 0
    ensures t.l1[slot] < |t.pool| && t.pool[t.l1[slot]] == ZeroRow()
    ensures TablesOk(t.(l1 := t.l1[slot := 0], owner := t.owner - {t.l1[slot]}), m, base, t.l1[slot])
  {
    hide PartitionOk, FreeOk, RowOf, PagesIn;
    DetachTable(t.l1, t.owner, t.free, t.carved, slot);
    EmptyRow(m, base, slot);
    EmptySlot(m, slot);
  }

  lemma EmptySlot(m: FlatMap, slot: nat)
    requires |PagesIn(m, slot)| == 0
    ensures forall v :: v in m ==> Slot(v) != slot
  {
    forall v | v in m ensures Slot(v) != slot {
      assert v in m && Slot(v) == slot ==> v in PagesIn(m, slot);
    }
  }

  /** Storing the PTE of a page that was unmapped, and counting it. */
  lemma Entered(t: Tables, m: FlatMap, base: nat, v: nat, p: Page)
    requires TablesOk(t, m, base, 0) && v < TOTAL_PAGES && v !in m && t.l1[Slot(v)] != 0
    ensures HasTable(t, v)
    ensures var table, s := t.l1[Slot(v)], Slot(v);
            TablesOk(t.(pool := t.pool[table := SetEntry(t.pool[table], Index(v), MakePte(base, p))],
                        counts := t.counts[s := t.counts[s] + 1]), m[v := p], base, 0)
  {
    var table := t.l1[Slot(v)];
    assert table in t.owner;
    StoreContent(t.l1, t.pool, m, base, t.owner, t.carved, v, p);
    InsertCounts(t.counts, m, v, p);
    OtherRowFree(t.pool, t.free, t.freeHead, t.carved, table, SetEntry(t.pool[table], Index(v), MakePte(base, p)));
  }

  /** Replacing the PTE of a mapped page. */
  lemma Replaced(t: Tables, m: FlatMap, base: nat, v: nat, p: Page)
    requires Settled(t, m, base) && v in m
    ensures HasTable(t, v)
    ensures var table := t.l1[Slot(v)];
            Settled(t.(pool := t.pool[table := SetEntry(t.pool[table], Index(v), MakePte(base, p))]), m[v := p], base)
  {
    var table := t.l1[Slot(v)];
    assert table in t.owner;
    StoreContent(t.l1, t.pool, m, base, t.owner, t.carved, v, p);
    ReplaceCounts(t.counts, m, v, p);
    OtherRowFree(t.pool, t.free, t.freeHead, t.carved, table, SetEntry(t.pool[table], Index(v), MakePte(base, p)));
  }

  /** Clearing the PTE of a mapped page, and uncounting it. */
  lemma Cleared(t: Tables, m: FlatMap, base: nat, v: nat)
    requires TablesOk(t, m, base, 0) && v in m
    ensures HasTable(t, v) && t.counts[Slot(v)] > 0
    ensures var table, s := t.l1[Slot(v)], Slot(v);
            TablesOk(t.(pool := t.pool[table := SetEntry(t.pool[table], Index(v), 0)],
                        counts := t.counts[s := t.counts[s] - 1]), m - {v}, base, 0)
  {
    var table := t.l1[Slot(v)];
    assert table in t.owner;
    ClearContent(t.l1, t.pool, m, base, t.owner, t.carved, v);
    RemoveCounts(t.counts, m, v);
    OtherRowFree(t.pool, t.free, t.freeHead, t.carved, table, SetEntry(t.pool[table], Index(v), 0));
  }

  /** The tables still available are a function of the flat map: history does not matter. */
  lemma Available(t: Tables, m: FlatMap, base: nat)
    requires Settled(t, m, base)
    ensures |t.owner| == |Slots(m)|
    ensures forall s :: 0 <= s < L1_ENTRIES ==> (s in Slots(m) <==> t.l1[s] != 0)
    ensures t.freeCount + (L2_CAPACITY - t.carved) == L2_CAPACITY - |Slots(m)|
  {
    LiveTables(t.l1, t.owner, t.carved, t.pool, t.counts, m, base);
  }

  /** Remaining capacity has no history: tables that mean the same flat map have as many tables left. */
  lemma SameMapSameCapacity(t: Tables, t': Tables, m: FlatMap, base: nat)
    requires Settled(t, m, base) && Settled(t', m, base)
    ensures t.freeCount + (L2_CAPACITY - t.carved) == t'.freeCount + (L2_CAPACITY - t'.carved)
    ensures t.owner.Values == t'.owner.Values
  {
    hide Settled;
    Available(t, m, base);
    Available(t', m, base);
    OwnersAreSlots(t, m, base);
    OwnersAreSlots(t', m, base);
  }

  lemma OwnersAreSlots(t: Tables, m: FlatMap, base: nat)
    requires Settled(t, m, base)
    ensures t.owner.Values == Slots(m)
  {
    Available(t, m, base);
    hide Slots, FreeOk, PartitionOk, CountsOk;
    forall s: nat
      ensures s in t.owner.Values <==> s in Slots(m)
    {
      if s in t.owner.Values {
        var table :| table in t.owner && t.owner[table] == s;
        assert t.l1[s] == table;
      }
      if s in Slots(m) {
        SlotBound(t, m, base, s);
        assert t.l1[s] in t.owner && t.owner[t.l1[s]] == s;
      }
    }
  }

  lemma SlotBound(t: Tables, m: FlatMap, base: nat, s: nat)
    requires Settled(t, m, base) && s in Slots(m)
    ensures s < L1_ENTRIES
  {
  }

  // ----- Decoding -----

  /** The low bits of a PTE are its permissions and the rest is the host page. */
  lemma PteDecodes(base: nat, p: Page, want: nat)
    requires PageAligned(base) && base > 0 && p.perms <= PERM_ALL
    ensures MakePte(base, p) != 0
    ensures MakePte(base, p) % 8 == p.perms
    ensures MakePte(base, p) - MakePte(base, p) % PAGE_SIZE == base + p.ppn * PAGE_SIZE
    ensures PermsCover(MakePte(base, p), want) <==> PermsCover(p.perms, want)
  {
    var k := base / PAGE_SIZE + p.ppn;
    assert MakePte(base, p) == k * PAGE_SIZE + p.perms;
    LowBits(MakePte(base, p), k * 512, p.perms);
  }

  lemma LowBits(x: nat, j: nat, p: nat)
    requires x == 8 * j + p && p < 8
    ensures x % 8 == p && x % 2 == p % 2 && x / 2 % 2 == p / 2 % 2 && x / 4 % 2 == p / 4 % 2
  {
    assert x / 2 == 4 * j + p / 2;
    assert x / 4 == 2 * j + p / 4;
  }

  lemma MapRangeOk(m: FlatMap, ramSize: nat, gva: nat, pa: nat, size: nat, perms: nat)
    requires FlatOk(m, ramSize)
    ensures FlatOk(Mapped(m, ramSize, gva, pa, size, perms), ramSize)
  {
    hide Slots, RangeSlots, NoneMapped;
    if MapError(m, ramSize, gva, pa, size, perms) == Ok {
      MapOk(m, ramSize, gva, pa, size, perms);
      VpnRange(gva, size, ADDRESS_SPACE_SIZE);
      VpnRange(pa, size, ramSize);
      hide MapError, Mapped, Vpn;
    }
  }

  lemma UnmapRangeOk(m: FlatMap, ramSize: nat, gva: nat, size: nat)
    requires FlatOk(m, ramSize)
    ensures FlatOk(Unmapped(m, gva, size), ramSize)
  {
  }

  lemma ReprotectRangeOk(m: FlatMap, ramSize: nat, gva: nat, size: nat, perms: nat)
    requires FlatOk(m, ramSize)
    ensures FlatOk(Reprotected(m, gva, size, perms), ramSize)
  {
  }
}

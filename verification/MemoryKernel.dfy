/**
 The memory SVCs (core/hle/kernel/svc_memory.c) as a state machine over the flat map, the page
 allocator, the committed heap size and the table of MapMemory borrows. `Abort` is a
 SWITCH_ASSERT_ALWAYS that fires.
 */
module MemoryKernel {
  import opened Results
  import opened Geometry
  import opened FlatMaps
  import opened GuestMemory
  import opened AddressSpaces
  import Pages = PageAllocators

  const HEAP_GRANULE: nat := 0x20_0000
  const MAX_HEAP_BORROWS: nat := 8

  /** A live MapMemory: heap source, now inaccessible, and its stack-region mirror. */
  datatype MemoryBorrow = MemoryBorrow(dst: nat, src: nat, size: nat) {
    predicate HasSrc(v: nat) {
      Vpn(src) <= v < Vpn(src) + Vpn(size)
    }

    predicate HasDst(v: nat) {
      Vpn(dst) <= v < Vpn(dst) + Vpn(size)
    }
  }

  datatype Kernel = Kernel(flat: FlatMap, alloc: Pages.State, heapSize: nat, borrows: seq<MemoryBorrow>)

  /** What stays fixed over a run: regions, guest RAM, the bootstrap's own mappings and its page count. */
  datatype Config = Config(space: AddressSpace, ramSize: nat, boot: FlatMap, p0: nat)

  datatype Outcome = Done(kernel: Kernel, result: SvcResult) | Abort

  // ----- The handlers as functions -----

  predicate RangesOverlap(aBase: nat, aSize: nat, bBase: nat, bSize: nat) {
    aBase < bBase + bSize && bBase < aBase + aSize
  }

  predicate OverlapsSource(borrows: seq<MemoryBorrow>, base: nat, size: nat) {
    exists i :: 0 <= i < |borrows| && RangesOverlap(base, size, borrows[i].src, borrows[i].size)
  }

  /** Releases pages one at a time; None when a page is unreadable or is refused. */
  ghost function FreePageByPage(flat: FlatMap, alloc: Pages.State, first: nat, count: nat): Option<Pages.State>
    decreases count
  {
    if count == 0 then Some(alloc)
    else if !HostContiguous(flat, first * PAGE_SIZE, PAGE_SIZE, PERM_R) then None
    else
      var r := Pages.Return(alloc, flat[first].ppn, 1);
      if r.error == Ok then FreePageByPage(flat, r.state, first + 1, count - 1) else None
  }

  /** free_and_unmap_heap_range: the whole range as one physical run if it is one. */
  ghost function FreeAndUnmap(k: Kernel, gva: nat, size: nat): Option<Kernel> {
    var freed :=
      if HostContiguous(k.flat, gva, size, PERM_R) then
        var r := Pages.Return(k.alloc, k.flat[Vpn(gva)].ppn, Vpn(size));
        if r.error == Ok then Some(r.state) else None
      else FreePageByPage(k.flat, k.alloc, Vpn(gva), Vpn(size));
    if freed.None? || MappedRangeError(k.flat, gva, size) != Ok then None
    else Some(k.(flat := Unmapped(k.flat, gva, size), alloc := freed.value))
  }

  ghost function Grow(c: Config, k: Kernel, requested: nat, commits: bool): Outcome
    requires requested > k.heapSize
  {
    var grow := requested - k.heapSize;
    var gva := c.space.heap.base + k.heapSize;
    var t := Pages.Take(k.alloc, Vpn(grow), commits);
    if t.error != Ok then Done(k, SvcOutOfMemory)
    else if MapError(k.flat, c.ramSize, gva, t.page * PAGE_SIZE, grow, PERM_RW) != Ok then
      var r := Pages.Return(t.state, t.page, Vpn(grow));
      if r.error == Ok then Done(k.(alloc := r.state), SvcOutOfMemory) else Abort
    else
      var flat := Mapped(k.flat, c.ramSize, gva, t.page * PAGE_SIZE, grow, PERM_RW);
      if HostContiguous(flat, gva, grow, PERM_RW)
      then Done(Kernel(flat, t.state, requested, k.borrows), Success) else Abort
  }

  ghost function Shrink(c: Config, k: Kernel, requested: nat): Outcome
    requires requested < k.heapSize
  {
    var gva := c.space.heap.base + requested;
    var size := k.heapSize - requested;
    if OverlapsSource(k.borrows, gva, size) then Done(k, SvcInvalidMemoryState)
    else
      match FreeAndUnmap(k, gva, size)
      case None => Abort
      case Some(k') => Done(k'.(heapSize := requested), Success)
  }

  ghost function SetHeapSize(c: Config, k: Kernel, requested: nat, commits: bool): Outcome {
    if requested % HEAP_GRANULE != 0 then Done(k, SvcInvalidSize)
    else if requested > c.space.heap.size then Done(k, SvcInvalidMemoryRange)
    else if requested > k.heapSize then Grow(c, k, requested, commits)
    else if requested < k.heapSize then Shrink(c, k, requested)
    else Done(k, Success)
  }

  ghost function Mirror(c: Config, k: Kernel, dst: nat, src: nat, size: nat): Outcome
    requires Vpn(src) in k.flat
  {
    var pa := Pa(k.flat, src);
    var hidden := Reprotected(k.flat, src, size, PERM_NONE);
    if ReprotectError(k.flat, src, size, PERM_NONE) != Ok then Abort
    else if MapError(hidden, c.ramSize, dst, pa, size, PERM_RW) != Ok then
      if ReprotectError(hidden, src, size, PERM_RW) == Ok
      then Done(k.(flat := Reprotected(hidden, src, size, PERM_RW)), SvcOutOfMemory) else Abort
    else
      Done(k.(flat := Mapped(hidden, c.ramSize, dst, pa, size, PERM_RW),
              borrows := k.borrows + [MemoryBorrow(dst, src, size)]), Success)
  }

  ghost function MapMemory(c: Config, k: Kernel, dst: nat, src: nat, size: nat): Outcome {
    if size == 0 || !PageAligned(size) || !PageAligned(dst) || !PageAligned(src) then Done(k, SvcInvalidSize)
    else if !c.space.stack.Contains(dst, size) || !c.space.heap.Contains(src, size) then Done(k, SvcInvalidMemoryRange)
    else if |k.borrows| >= MAX_HEAP_BORROWS then Done(k, SvcOutOfMemory)
    else if !NoneMapped(k.flat, Vpn(dst), Vpn(size)) then Done(k, SvcInvalidMemoryState)
    else if !HostContiguous(k.flat, src, size, PERM_R) then Done(k, SvcInvalidMemoryState)
    else Mirror(c, k, dst, src, size)
  }

  /** The first recorded borrow with exactly this triple; the table's length when there is none. */
  function FindBorrow(borrows: seq<MemoryBorrow>, b: MemoryBorrow): (i: nat)
    ensures i <= |borrows|
    ensures i < |borrows| ==> borrows[i] == b
    ensures forall k :: 0 <= k < i ==> borrows[k] != b
  {
    if borrows == [] then 0
    else if borrows[0] == b then 0
    else
      var i := FindBorrow(borrows[1..], b);
      assert forall k :: 1 <= k <= i ==> borrows[k] == borrows[1..][k - 1];
      i + 1
  }

  function SwapRemove(borrows: seq<MemoryBorrow>, i: nat): (r: seq<MemoryBorrow>)
    requires i < |borrows|
    ensures |r| == |borrows| - 1
    ensures forall j :: 0 <= j < |r| ==> r[j] == borrows[if j == i then |borrows| - 1 else j]
  {
    borrows[i := borrows[|borrows| - 1]][..|borrows| - 1]
  }

  ghost function UnmapMemory(k: Kernel, dst: nat, src: nat, size: nat): Outcome {
    var i := FindBorrow(k.borrows, MemoryBorrow(dst, src, size));
    if i == |k.borrows| then Done(k, SvcInvalidMemoryState)
    else
      var flat := Unmapped(k.flat, dst, size);
      if MappedRangeError(k.flat, dst, size) != Ok || ReprotectError(flat, src, size, PERM_RW) != Ok then Abort
      else Done(k.(flat := Reprotected(flat, src, size, PERM_RW), borrows := SwapRemove(k.borrows, i)), Success)
  }

  // ----- The invariant -----

  ghost function HeapFirst(c: Config): nat {
    Vpn(c.space.heap.base)
  }

  ghost predicate InSrc(borrows: seq<MemoryBorrow>, v: nat) {
    exists b :: b in borrows && b.HasSrc(v)
  }

  ghost predicate InDst(borrows: seq<MemoryBorrow>, v: nat) {
    exists b :: b in borrows && b.HasDst(v)
  }

  /**
   The bootstrap's own mappings: in the code, stack and TLS regions, on distinct pages below p0,
   never writable and executable.
   */
  ghost predicate ConfigOk(c: Config) {
    && SpaceOk(c.space) && PageAligned(c.ramSize)
    && (forall v :: v in c.boot ==>
          c.boot[v].ppn < c.p0 && c.boot[v].perms <= PERM_ALL && !(Writable(c.boot[v]) && Executable(c.boot[v])))
    && (forall v :: v in c.boot ==> c.space.code.Pages(v) || c.space.stack.Pages(v) || c.space.tlsIo.Pages(v))
    && (forall v, w :: v in c.boot && w in c.boot && c.boot[v].ppn == c.boot[w].ppn ==> v == w)
  }

  /** The free list is empty and the heap's backing is one run that ends at the bump cursor. */
  ghost predicate AllocOk(c: Config, alloc: Pages.State, heapPages: nat) {
    && alloc.runs == [] && alloc.base <= c.p0 && alloc.Cursor() == c.p0 + heapPages
    && alloc.used <= alloc.size && (alloc.base + alloc.size) * PAGE_SIZE <= c.ramSize
  }

  ghost predicate BorrowOk(c: Config, heapPages: nat, b: MemoryBorrow) {
    && b.size > 0 && PageAligned(b.dst) && PageAligned(b.src) && PageAligned(b.size)
    && HeapFirst(c) <= Vpn(b.src) && Vpn(b.src) + Vpn(b.size) <= HeapFirst(c) + heapPages
    && Vpn(c.space.stack.base) <= Vpn(b.dst)
    && Vpn(b.dst) + Vpn(b.size) <= Vpn(c.space.stack.base) + Vpn(c.space.stack.size)
    && (forall v :: b.HasDst(v) ==> v !in c.boot)
  }

  ghost predicate BorrowsApart(a: MemoryBorrow, b: MemoryBorrow) {
    && (Vpn(a.src) + Vpn(a.size) <= Vpn(b.src) || Vpn(b.src) + Vpn(b.size) <= Vpn(a.src))
    && (Vpn(a.dst) + Vpn(a.size) <= Vpn(b.dst) || Vpn(b.dst) + Vpn(b.size) <= Vpn(a.dst))
  }

  ghost predicate BorrowsOk(c: Config, heapPages: nat, borrows: seq<MemoryBorrow>) {
    && |borrows| <= MAX_HEAP_BORROWS
    && (forall b :: b in borrows ==> BorrowOk(c, heapPages, b))
    && (forall i, j :: 0 <= i < j < |borrows| ==> BorrowsApart(borrows[i], borrows[j]))
  }

  /** The heap page v, as committed: RW unless it is lent out. */
  ghost function HeapPage(c: Config, borrows: seq<MemoryBorrow>, v: nat): Page
    requires v >= HeapFirst(c)
  {
    Page(c.p0 + (v - HeapFirst(c)), if InSrc(borrows, v) then PERM_NONE else PERM_RW)
  }

  /** A page of a mirror shows the matching source page. */
  ghost function MirrorPage(c: Config, b: MemoryBorrow, v: nat): Page
    requires b.HasDst(v) && Vpn(b.src) >= HeapFirst(c)
  {
    Page(c.p0 + (Vpn(b.src) - HeapFirst(c)) + (v - Vpn(b.dst)), PERM_RW)
  }

  /** What page v must be: the bootstrap's, the heap's, a mirror's, or unmapped. */
  ghost predicate At(c: Config, heapPages: nat, borrows: seq<MemoryBorrow>, v: nat, p: Option<Page>) {
    if v in c.boot then p == Some(c.boot[v])
    else if HeapFirst(c) <= v < HeapFirst(c) + heapPages then p == Some(HeapPage(c, borrows, v))
    else
      && (forall b :: b in borrows && b.HasDst(v) && Vpn(b.src) >= HeapFirst(c) ==> p == Some(MirrorPage(c, b, v)))
      && (!InDst(borrows, v) ==> p == None)
  }

  /** The whole flat map is determined by the bootstrap, the heap size and the borrow table. */
  ghost predicate FlatShape(c: Config, flat: FlatMap, heapPages: nat, borrows: seq<MemoryBorrow>) {
    forall v: nat :: At(c, heapPages, borrows, v, Lookup(flat, v))
  }

  ghost predicate Inv(c: Config, k: Kernel) {
    && ConfigOk(c)
    && k.heapSize % HEAP_GRANULE == 0 && k.heapSize <= c.space.heap.size
    && AllocOk(c, k.alloc, Vpn(k.heapSize))
    && BorrowsOk(c, Vpn(k.heapSize), k.borrows)
    && FlatShape(c, k.flat, Vpn(k.heapSize), k.borrows)
  }

  // ----- Consequences of the invariant -----

  datatype Origin = Boot | Heap | MirrorOf(b: MemoryBorrow)

  /** Every mapped page is the bootstrap's, the heap's, or the mirror of one borrow. */
  lemma OriginOf(c: Config, k: Kernel, v: nat) returns (o: Origin)
    requires Inv(c, k) && v in k.flat
    ensures v < TOTAL_PAGES
    ensures o.Boot? ==> v in c.boot && k.flat[v] == c.boot[v] && k.flat[v].ppn < c.p0 && !c.space.heap.Pages(v)
    ensures o.Boot? ==> c.space.code.Pages(v) || c.space.stack.Pages(v) || c.space.tlsIo.Pages(v)
    ensures o.Boot? ==> !(Writable(k.flat[v]) && Executable(k.flat[v]))
    ensures o.Heap? ==> HeapFirst(c) <= v < HeapFirst(c) + Vpn(k.heapSize) && k.flat[v] == HeapPage(c, k.borrows, v)
    ensures o.Heap? ==> v !in c.boot && c.space.heap.Pages(v)
    ensures o.MirrorOf? ==> o.b in k.borrows && o.b.HasDst(v) && BorrowOk(c, Vpn(k.heapSize), o.b)
    ensures o.MirrorOf? ==> k.flat[v] == MirrorPage(c, o.b, v) && v !in c.boot && c.space.stack.Pages(v)
  {
    assert At(c, Vpn(k.heapSize), k.borrows, v, Lookup(k.flat, v));
    RegionsApart(c, v);
    if v in c.boot {
      o := Boot;
    } else if HeapFirst(c) <= v < HeapFirst(c) + Vpn(k.heapSize) {
      HeapPagesFit(c, k);
      o := Heap;
    } else {
      var b :| b in k.borrows && b.HasDst(v);
      assert BorrowOk(c, Vpn(k.heapSize), b);
      o := MirrorOf(b);
    }
  }

  lemma HeapPagesFit(c: Config, k: Kernel)
    requires k.heapSize <= c.space.heap.size
    ensures Vpn(k.heapSize) <= Vpn(c.space.heap.size)
  {
  }

  /** w shows through the mirror what v is in the source. */
  ghost predicate Halves(b: MemoryBorrow, v: nat, w: nat) {
    b.HasSrc(v) && b.HasDst(w) && v - Vpn(b.src) == w - Vpn(b.dst)
  }

  lemma BootInjective(c: Config, v: nat, w: nat)
    requires ConfigOk(c) && v in c.boot && w in c.boot && c.boot[v].ppn == c.boot[w].ppn
    ensures v == w
  {
  }

  lemma TwoBorrowsApart(c: Config, heapPages: nat, borrows: seq<MemoryBorrow>, a: MemoryBorrow, b: MemoryBorrow)
    requires BorrowsOk(c, heapPages, borrows) && a in borrows && b in borrows && a != b
    ensures BorrowsApart(a, b)
  {
    var i :| 0 <= i < |borrows| && borrows[i] == a;
    var j :| 0 <= j < |borrows| && borrows[j] == b;
    if i > j {
      assert BorrowsApart(borrows[j], borrows[i]);
    }
  }

  /**
   Two different guest pages share a physical page only as matching offsets of the two halves of
   one live borrow.
   */
  lemma NoOtherAliases(c: Config, k: Kernel, v: nat, w: nat)
    requires Inv(c, k) && v in k.flat && w in k.flat && v != w && k.flat[v].ppn == k.flat[w].ppn
    ensures exists b :: b in k.borrows && (Halves(b, v, w) || Halves(b, w, v))
  {
    var ov := OriginOf(c, k, v);
    var ow := OriginOf(c, k, w);
    hide FlatShape, BorrowsOk, AllocOk, InSrc;
    match (ov, ow) {
      case (Boot, Boot) => BootInjective(c, v, w);
      case (MirrorOf(a), MirrorOf(b)) =>
        if a != b {
          TwoBorrowsApart(c, Vpn(k.heapSize), k.borrows, a, b);
        }
      case (MirrorOf(b), Heap) => assert Halves(b, w, v);
      case (Heap, MirrorOf(b)) => assert Halves(b, v, w);
      case _ =>
    }
  }

  /** No page is both writable and executable, and the bootstrap's pages are as it left them. */
  lemma CodeIsSafe(c: Config, k: Kernel)
    requires Inv(c, k)
    ensures forall v :: v in k.flat ==> !(Writable(k.flat[v]) && Executable(k.flat[v]))
    ensures forall v :: v in c.boot ==> v in k.flat && k.flat[v] == c.boot[v]
    ensures forall v :: v in k.flat && c.space.code.Pages(v) ==> v in c.boot
  {
    forall v | v in k.flat
      ensures !(Writable(k.flat[v]) && Executable(k.flat[v]))
      ensures c.space.code.Pages(v) ==> v in c.boot
    {
      var o := OriginOf(c, k, v);
      RegionsApart(c, v);
    }
    forall v | v in c.boot
      ensures v in k.flat && k.flat[v] == c.boot[v]
    {
      assert At(c, Vpn(k.heapSize), k.borrows, v, Lookup(k.flat, v));
    }
  }

  lemma RegionsApart(c: Config, v: nat)
    requires ConfigOk(c)
    ensures c.space.code.Pages(v) ==> !c.space.heap.Pages(v) && !c.space.stack.Pages(v)
    ensures c.space.heap.Pages(v) ==> !c.space.stack.Pages(v) && v < TOTAL_PAGES
    ensures c.space.stack.Pages(v) ==> v < TOTAL_PAGES
    ensures c.space.code.Pages(v) ==> v < TOTAL_PAGES
    ensures c.space.tlsIo.Pages(v) ==>
              v < TOTAL_PAGES && !c.space.code.Pages(v) && !c.space.heap.Pages(v) && !c.space.stack.Pages(v)
  {
    RegionPages(c.space.tlsIo);
    RegionPages(c.space.code);
    RegionPages(c.space.heap);
    RegionPages(c.space.stack);
  }

  lemma RegionPages(r: Region)
    requires RegionOk(r)
    ensures (Vpn(r.base) + Vpn(r.size)) * PAGE_SIZE == r.base + r.size && Vpn(r.base) * PAGE_SIZE == r.base
  {
    VpnRange(r.base, r.size, END);
  }

  /** Everything mapped is backed below the bump cursor: fresh pages are visible nowhere. */
  lemma BackedBelowCursor(c: Config, k: Kernel)
    requires Inv(c, k)
    ensures forall v :: v in k.flat ==> k.flat[v].ppn < k.alloc.Cursor()
  {
    forall v | v in k.flat
      ensures k.flat[v].ppn < k.alloc.Cursor()
    {
      var o := OriginOf(c, k, v);
    }
  }

  // ----- How each map change moves the shape -----

  lemma FreshHeapUnmapped(c: Config, k: Kernel, v: nat)
    requires Inv(c, k) && HeapFirst(c) + Vpn(k.heapSize) <= v && c.space.heap.Pages(v)
    ensures v !in k.flat
  {
    if v in k.flat {
      var o := OriginOf(c, k, v);
      RegionsApart(c, v);
    }
  }

  lemma GrowAt(c: Config, flat: FlatMap, heapPages: nat, more: nat, borrows: seq<MemoryBorrow>, v: nat)
    requires At(c, heapPages, borrows, v, Lookup(flat, v)) && BorrowsOk(c, heapPages, borrows)
    requires NoneMapped(flat, HeapFirst(c) + heapPages, more)
    ensures At(c, heapPages + more, borrows, v,
               Lookup(MapRange(flat, HeapFirst(c) + heapPages, c.p0 + heapPages, more, PERM_RW), v))
  {
    MapRangeAt(flat, HeapFirst(c) + heapPages, c.p0 + heapPages, more, PERM_RW, v);
    hide MapRange;
    assert HeapFirst(c) + heapPages <= v ==> !InSrc(borrows, v);
  }

  lemma ShapeGrow(c: Config, flat: FlatMap, heapPages: nat, more: nat, borrows: seq<MemoryBorrow>)
    requires FlatShape(c, flat, heapPages, borrows) && BorrowsOk(c, heapPages, borrows)
    requires NoneMapped(flat, HeapFirst(c) + heapPages, more)
    ensures FlatShape(c, MapRange(flat, HeapFirst(c) + heapPages, c.p0 + heapPages, more, PERM_RW),
            heapPages + more, borrows)
    ensures BorrowsOk(c, heapPages + more, borrows)
  {
    var flat' := MapRange(flat, HeapFirst(c) + heapPages, c.p0 + heapPages, more, PERM_RW);
    forall v: nat
      ensures At(c, heapPages + more, borrows, v, Lookup(flat', v))
    {
      GrowAt(c, flat, heapPages, more, borrows, v);
    }
  }

  lemma ShrinkAt(c: Config, flat: FlatMap, heapPages: nat, kept: nat, borrows: seq<MemoryBorrow>, v: nat)
    requires At(c, heapPages, borrows, v, Lookup(flat, v)) && BorrowsOk(c, heapPages, borrows) && ConfigOk(c)
    requires kept <= heapPages <= Vpn(c.space.heap.size)
    ensures At(c, kept, borrows, v, Lookup(UnmapRange(flat, HeapFirst(c) + kept, heapPages - kept), v))
  {
    UnmapRangeAt(flat, HeapFirst(c) + kept, heapPages - kept, v);
    hide UnmapRange;
    if HeapFirst(c) <= v < HeapFirst(c) + heapPages {
      assert c.space.heap.Pages(v);
      RegionsApart(c, v);
      forall b | b in borrows
        ensures !b.HasDst(v)
      {
        assert BorrowOk(c, heapPages, b);
      }
    }
  }

  lemma ShapeShrink(c: Config, flat: FlatMap, heapPages: nat, kept: nat, borrows: seq<MemoryBorrow>)
    requires FlatShape(c, flat, heapPages, borrows) && BorrowsOk(c, heapPages, borrows) && ConfigOk(c)
    requires kept <= heapPages <= Vpn(c.space.heap.size)
    requires forall b :: b in borrows ==> Vpn(b.src) + Vpn(b.size) <= HeapFirst(c) + kept
    ensures FlatShape(c, UnmapRange(flat, HeapFirst(c) + kept, heapPages - kept), kept, borrows)
    ensures BorrowsOk(c, kept, borrows)
  {
    var flat' := UnmapRange(flat, HeapFirst(c) + kept, heapPages - kept);
    forall v: nat
      ensures At(c, kept, borrows, v, Lookup(flat', v))
    {
      ShrinkAt(c, flat, heapPages, kept, borrows, v);
    }
  }

  /** A page of the heap region is no bootstrap page and no mirror page. */
  lemma HeapPageAlone(c: Config, heapPages: nat, borrows: seq<MemoryBorrow>, v: nat)
    requires ConfigOk(c) && BorrowsOk(c, heapPages, borrows) && c.space.heap.Pages(v)
    ensures v !in c.boot && !InDst(borrows, v)
  {
    RegionsApart(c, v);
    forall b | b in borrows
      ensures !b.HasDst(v)
    {
      assert BorrowOk(c, heapPages, b);
    }
  }

  lemma MirrorAt(c: Config, flat: FlatMap, heapPages: nat, borrows: seq<MemoryBorrow>, b: MemoryBorrow, v: nat)
    requires At(c, heapPages, borrows, v, Lookup(flat, v)) && BorrowsOk(c, heapPages, borrows) && ConfigOk(c)
    requires BorrowOk(c, heapPages, b) && NoneMapped(flat, Vpn(b.dst), Vpn(b.size))
    requires heapPages <= Vpn(c.space.heap.size) && Vpn(b.src) >= HeapFirst(c)
    ensures var hidden := ReprotectRange(flat, Vpn(b.src), Vpn(b.size), PERM_NONE);
            At(c, heapPages, borrows + [b], v,
               Lookup(MapRange(hidden, Vpn(b.dst), c.p0 + (Vpn(b.src) - HeapFirst(c)), Vpn(b.size), PERM_RW), v))
  {
    hide MapRange, ReprotectRange, BorrowsOk, ConfigOk, InSrc, InDst, NoneMapped, At;
    var hidden := ReprotectRange(flat, Vpn(b.src), Vpn(b.size), PERM_NONE);
    var ppn := c.p0 + (Vpn(b.src) - HeapFirst(c));
    ReprotectRangeAt(flat, Vpn(b.src), Vpn(b.size), PERM_NONE, v);
    MapRangeAt(hidden, Vpn(b.dst), ppn, Vpn(b.size), PERM_RW, v);
    if b.HasSrc(v) {
      SourceHiddenAt(c, flat, heapPages, borrows, b, v);
    } else if b.HasDst(v) {
      StackPageFresh(c, flat, heapPages, borrows, b, v);
    } else {
      AtElsewhere(c, heapPages, borrows, b, v, Lookup(flat, v));
    }
  }

  lemma SourceHiddenAt(c: Config, flat: FlatMap, heapPages: nat, borrows: seq<MemoryBorrow>, b: MemoryBorrow, v: nat)
    requires At(c, heapPages, borrows, v, Lookup(flat, v)) && BorrowsOk(c, heapPages, borrows) && ConfigOk(c)
    requires BorrowOk(c, heapPages, b) && b.HasSrc(v) && heapPages <= Vpn(c.space.heap.size)
    ensures !b.HasDst(v) && v in flat
    ensures At(c, heapPages, borrows + [b], v, Some(Page(flat[v].ppn, PERM_NONE)))
  {
    assert c.space.heap.Pages(v);
    HeapPageAlone(c, heapPages, borrows, v);
    RegionsApart(c, v);
    InMore(borrows, b, v);
  }

  lemma AtElsewhere(c: Config, heapPages: nat, borrows: seq<MemoryBorrow>, b: MemoryBorrow, v: nat, p: Option<Page>)
    requires At(c, heapPages, borrows, v, p) && !b.HasSrc(v) && !b.HasDst(v)
    ensures At(c, heapPages, borrows + [b], v, p)
  {
    InMore(borrows, b, v);
    assert forall a :: a in borrows + [b] && a.HasDst(v) ==> a in borrows;
  }

  lemma StackPageFresh(c: Config, flat: FlatMap, heapPages: nat, borrows: seq<MemoryBorrow>, b: MemoryBorrow, v: nat)
    requires At(c, heapPages, borrows, v, Lookup(flat, v)) && BorrowsOk(c, heapPages, borrows) && ConfigOk(c)
    requires BorrowOk(c, heapPages, b) && b.HasDst(v) && NoneMapped(flat, Vpn(b.dst), Vpn(b.size))
    requires heapPages <= Vpn(c.space.heap.size) && Vpn(b.src) >= HeapFirst(c)
    ensures At(c, heapPages, borrows + [b], v, Some(MirrorPage(c, b, v))) && v !in flat
  {
    RegionsApart(c, v);
    assert c.space.stack.Pages(v) && v !in flat;
    forall a | a in borrows
      ensures !a.HasDst(v)
    {
      assert BorrowOk(c, heapPages, a);
    }
    assert forall a :: a in borrows + [b] && a.HasDst(v) ==> a == b;
  }

  lemma InMore(borrows: seq<MemoryBorrow>, b: MemoryBorrow, v: nat)
    ensures InSrc(borrows + [b], v) <==> InSrc(borrows, v) || b.HasSrc(v)
    ensures InDst(borrows + [b], v) <==> InDst(borrows, v) || b.HasDst(v)
  {
    assert forall a :: a in borrows + [b] <==> a in borrows || a == b;
  }

  lemma ShapeMirror(c: Config, flat: FlatMap, heapPages: nat, borrows: seq<MemoryBorrow>, b: MemoryBorrow)
    requires FlatShape(c, flat, heapPages, borrows) && BorrowsOk(c, heapPages, borrows) && ConfigOk(c)
    requires BorrowOk(c, heapPages, b) && NoneMapped(flat, Vpn(b.dst), Vpn(b.size))
    requires heapPages <= Vpn(c.space.heap.size) && Vpn(b.src) >= HeapFirst(c)
    ensures var hidden := ReprotectRange(flat, Vpn(b.src), Vpn(b.size), PERM_NONE);
            FlatShape(c, MapRange(hidden, Vpn(b.dst), c.p0 + (Vpn(b.src) - HeapFirst(c)), Vpn(b.size), PERM_RW),
                      heapPages, borrows + [b])
  {
    var hidden := ReprotectRange(flat, Vpn(b.src), Vpn(b.size), PERM_NONE);
    var flat' := MapRange(hidden, Vpn(b.dst), c.p0 + (Vpn(b.src) - HeapFirst(c)), Vpn(b.size), PERM_RW);
    forall v: nat
      ensures At(c, heapPages, borrows + [b], v, Lookup(flat', v))
    {
      MirrorAt(c, flat, heapPages, borrows, b, v);
    }
  }

  /** Removing a borrow: the others remain, and do not touch it. */
  lemma Fewer(c: Config, heapPages: nat, borrows: seq<MemoryBorrow>, i: nat)
    requires BorrowsOk(c, heapPages, borrows) && i < |borrows|
    ensures BorrowsOk(c, heapPages, SwapRemove(borrows, i))
    ensures forall b :: b in SwapRemove(borrows, i) <==> b in borrows && b != borrows[i]
    ensures forall b :: b in SwapRemove(borrows, i) ==> BorrowsApart(b, borrows[i])
  {
    var fewer := SwapRemove(borrows, i);
    forall j | 0 <= j < |borrows| && j != i
      ensures BorrowsApart(borrows[j], borrows[i]) && borrows[j] != borrows[i] && borrows[j] in fewer
    {
      if j > i {
        assert BorrowsApart(borrows[i], borrows[j]);
      }
      assert BorrowOk(c, heapPages, borrows[i]);
      assert fewer[if j == |borrows| - 1 then i else j] == borrows[j];
    }
    forall b | b in fewer
      ensures b in borrows && b != borrows[i] && BorrowsApart(b, borrows[i])
    {
      var j :| 0 <= j < |fewer| && fewer[j] == b;
      assert borrows[if j == i then |borrows| - 1 else j] == b;
    }
    forall j, l | 0 <= j < l < |fewer|
      ensures BorrowsApart(fewer[j], fewer[l])
    {
      var a, b := if j == i then |borrows| - 1 else j, if l == i then |borrows| - 1 else l;
      if a > b {
        assert BorrowsApart(borrows[b], borrows[a]);
      }
    }
  }

  lemma UnmirrorAt(c: Config, flat: FlatMap, heapPages: nat, borrows: seq<MemoryBorrow>, b: MemoryBorrow,
                   fewer: seq<MemoryBorrow>, v: nat)
    requires At(c, heapPages, borrows, v, Lookup(flat, v)) && BorrowsOk(c, heapPages, borrows) && ConfigOk(c)
    requires b in borrows && heapPages <= Vpn(c.space.heap.size)
    requires forall a :: a in fewer <==> a in borrows && a != b
    requires forall a :: a in fewer ==> BorrowsApart(a, b)
    ensures At(c, heapPages, fewer, v,
               Lookup(ReprotectRange(UnmapRange(flat, Vpn(b.dst), Vpn(b.size)), Vpn(b.src), Vpn(b.size), PERM_RW), v))
  {
    var cut := UnmapRange(flat, Vpn(b.dst), Vpn(b.size));
    UnmapRangeAt(flat, Vpn(b.dst), Vpn(b.size), v);
    ReprotectRangeAt(cut, Vpn(b.src), Vpn(b.size), PERM_RW, v);
    hide UnmapRange, ReprotectRange;
    assert BorrowOk(c, heapPages, b);
    assert InSrc(borrows, v) <==> InSrc(fewer, v) || b.HasSrc(v);
    assert InDst(borrows, v) <==> InDst(fewer, v) || b.HasDst(v);
    if b.HasSrc(v) {
      assert c.space.heap.Pages(v);
      HeapPageAlone(c, heapPages, borrows, v);
      assert !InSrc(fewer, v);
    } else if b.HasDst(v) {
      assert c.space.stack.Pages(v);
      RegionsApart(c, v);
      assert !InDst(fewer, v);
    }
  }

  lemma ShapeUnmirror(c: Config, flat: FlatMap, heapPages: nat, borrows: seq<MemoryBorrow>, i: nat)
    requires FlatShape(c, flat, heapPages, borrows) && BorrowsOk(c, heapPages, borrows) && ConfigOk(c)
    requires i < |borrows| && heapPages <= Vpn(c.space.heap.size)
    ensures var b := borrows[i];
            FlatShape(c, ReprotectRange(UnmapRange(flat, Vpn(b.dst), Vpn(b.size)), Vpn(b.src), Vpn(b.size), PERM_RW),
                      heapPages, SwapRemove(borrows, i))
  {
    Fewer(c, heapPages, borrows, i);
    var b := borrows[i];
    var flat' := ReprotectRange(UnmapRange(flat, Vpn(b.dst), Vpn(b.size)), Vpn(b.src), Vpn(b.size), PERM_RW);
    forall v: nat
      ensures At(c, heapPages, SwapRemove(borrows, i), v, Lookup(flat', v))
    {
      UnmirrorAt(c, flat, heapPages, borrows, borrows[i], SwapRemove(borrows, i), v);
    }
  }

  // ----- Every handler keeps the invariant and never aborts -----

  lemma GranuleAligned(x: nat)
    requires x % HEAP_GRANULE == 0
    ensures PageAligned(x)
  {
  }

  /** Sums and differences of page-aligned byte counts, in pages. */
  lemma AlignedPages(base: nat, low: nat, high: nat)
    requires PageAligned(base) && PageAligned(low) && PageAligned(high) && low < high
    ensures Vpn(base + low) == Vpn(base) + Vpn(low) && PageAligned(base + low) && PageAligned(high - low)
    ensures Vpn(high) == Vpn(low) + Vpn(high - low) && Vpn(high - low) > 0
    ensures Vpn(low) * PAGE_SIZE == low && Vpn(high) * PAGE_SIZE == high && Vpn(high - low) * PAGE_SIZE == high - low
  {
    var b, l, h := base / PAGE_SIZE, low / PAGE_SIZE, high / PAGE_SIZE;
    assert base == b * PAGE_SIZE && low == l * PAGE_SIZE && high == h * PAGE_SIZE;
    PageVpn(b + l);
    PageVpn(h - l);
  }

  /** Sizes and addresses of a heap change, in bytes and in pages. */
  lemma HeapRange(c: Config, low: nat, high: nat)
    requires ConfigOk(c) && low % HEAP_GRANULE == 0 && high % HEAP_GRANULE == 0 && low < high <= c.space.heap.size
    ensures ValidPageRange(c.space.heap.base + low, high - low)
    ensures Vpn(c.space.heap.base + low) == HeapFirst(c) + Vpn(low)
    ensures Vpn(high) == Vpn(low) + Vpn(high - low) <= Vpn(c.space.heap.size)
    ensures Vpn(low) * PAGE_SIZE == low && Vpn(high) * PAGE_SIZE == high
    ensures Vpn(high - low) > 0 && Vpn(high - low) * PAGE_SIZE == high - low
  {
    assert RegionOk(c.space.heap);
    hide ConfigOk;
    GranuleAligned(low);
    GranuleAligned(high);
    AlignedPages(c.space.heap.base, low, high);
    VpnMonotone(high, c.space.heap.size);
    hide Vpn, PageAligned;
  }

  lemma VpnMonotone(a: nat, b: nat)
    requires a <= b
    ensures Vpn(a) <= Vpn(b)
  {
  }

  /** On an allocator with no free runs, taking bumps the cursor and returning the top retracts it. */
  lemma BumpOnly(a: Pages.State, count: nat, commits: bool)
    requires a.runs == [] && count > 0
    ensures var t := Pages.Take(a, count, commits);
            t == if a.used + count > a.size || !commits then Pages.Taken(OutOfMemory, a, 0)
                 else Pages.Taken(Ok, a.(used := a.used + count), a.Cursor())
    ensures count <= a.used ==>
              Pages.Return(a, a.Cursor() - count, count) == Pages.Returned(Ok, a.(used := a.used - count))
    ensures Pages.Return(a.(used := a.used + count), a.Cursor(), count) == Pages.Returned(Ok, a)
  {
  }

  /** A grow maps an unmapped range inside guest RAM: only the table pool can refuse it. */
  lemma GrowRange(c: Config, k: Kernel, requested: nat)
    requires Inv(c, k) && requested % HEAP_GRANULE == 0 && k.heapSize < requested <= c.space.heap.size
    requires k.alloc.used + Vpn(requested - k.heapSize) <= k.alloc.size
    ensures var gva, size := c.space.heap.base + k.heapSize, requested - k.heapSize;
            MapError(k.flat, c.ramSize, gva, k.alloc.Cursor() * PAGE_SIZE, size, PERM_RW) in {Ok, OutOfMemory}
    ensures NoneMapped(k.flat, HeapFirst(c) + Vpn(k.heapSize), Vpn(requested - k.heapSize))
  {
    var hp, more := Vpn(k.heapSize), Vpn(requested - k.heapSize);
    HeapRange(c, k.heapSize, requested);
    forall v | HeapFirst(c) + hp <= v < HeapFirst(c) + hp + more
      ensures v !in k.flat
    {
      FreshHeapUnmapped(c, k, v);
    }
    hide FlatShape, BorrowsOk, ConfigOk, Slots, RangeSlots;
    assert k.alloc.Cursor() + more <= k.alloc.base + k.alloc.size;
    PageVpn(k.alloc.Cursor());
  }

  /** What vmm_map does for a grow, in pages. */
  lemma GrowMapped(c: Config, k: Kernel, requested: nat)
    requires Inv(c, k) && requested % HEAP_GRANULE == 0 && k.heapSize < requested <= c.space.heap.size
    requires MapError(k.flat, c.ramSize, c.space.heap.base + k.heapSize, k.alloc.Cursor() * PAGE_SIZE,
                      requested - k.heapSize, PERM_RW) == Ok
    ensures Mapped(k.flat, c.ramSize, c.space.heap.base + k.heapSize, k.alloc.Cursor() * PAGE_SIZE,
                   requested - k.heapSize, PERM_RW)
            == MapRange(k.flat, HeapFirst(c) + Vpn(k.heapSize), c.p0 + Vpn(k.heapSize),
                Vpn(requested - k.heapSize), PERM_RW)
  {
    hide FlatShape, BorrowsOk, ConfigOk, MapRange, MapError, Vpn;
    HeapRange(c, k.heapSize, requested);
    PageVpn(k.alloc.Cursor());
  }

  /** Mapping the range onto the cursor's pages extends the heap by one contiguous run. */
  lemma GrowMaps(c: Config, k: Kernel, requested: nat)
    requires Inv(c, k) && requested % HEAP_GRANULE == 0 && k.heapSize < requested <= c.space.heap.size
    requires k.alloc.used + Vpn(requested - k.heapSize) <= k.alloc.size
    ensures var flat := MapRange(k.flat, HeapFirst(c) + Vpn(k.heapSize), c.p0 + Vpn(k.heapSize),
                                 Vpn(requested - k.heapSize), PERM_RW);
            && FlatShape(c, flat, Vpn(requested), k.borrows) && BorrowsOk(c, Vpn(requested), k.borrows)
            && HostContiguous(flat, c.space.heap.base + k.heapSize, requested - k.heapSize, PERM_RW)
  {
    hide FlatShape, BorrowsOk, ConfigOk, MapRange, HostContiguous, Vpn, AllocOk;
    var hp, more := Vpn(k.heapSize), Vpn(requested - k.heapSize);
    var first := HeapFirst(c) + hp;
    HeapRange(c, k.heapSize, requested);
    GrowRange(c, k, requested);
    ShapeGrow(c, k.flat, hp, more, k.borrows);
    var flat := MapRange(k.flat, first, c.p0 + hp, more, PERM_RW);
    forall v | first <= v < first + more
      ensures v in flat && flat[v] == Page(c.p0 + hp + (v - first), PERM_RW)
    {
      MapRangeAt(k.flat, first, c.p0 + hp, more, PERM_RW, v);
    }
    PagesAreContiguous(flat, c.space.heap.base + k.heapSize, requested - k.heapSize, c.p0 + hp, PERM_RW);
  }

  lemma GrowKeeps(c: Config, k: Kernel, requested: nat, commits: bool)
    requires Inv(c, k) && requested % HEAP_GRANULE == 0 && k.heapSize < requested <= c.space.heap.size
    ensures var o := Grow(c, k, requested, commits);
            && o.Done? && Inv(c, o.kernel)
            && (o.result != Success ==> o == Done(k, SvcOutOfMemory))
            && (o.result == Success ==> o.kernel.heapSize == requested && o.kernel.borrows == k.borrows)
  {
    hide FlatShape, BorrowsOk, MapError, Mapped, HostContiguous, Pages.Take, Pages.Return;
    var more := Vpn(requested - k.heapSize);
    HeapRange(c, k.heapSize, requested);
    BumpOnly(k.alloc, more, commits);
    if k.alloc.used + more <= k.alloc.size {
      GrowRange(c, k, requested);
      if MapError(k.flat, c.ramSize, c.space.heap.base + k.heapSize, k.alloc.Cursor() * PAGE_SIZE,
                  requested - k.heapSize, PERM_RW) == Ok {
        GrowMapped(c, k, requested);
        GrowMaps(c, k, requested);
      }
    }
  }

  /** Without free runs, overlap in bytes is overlap in pages. */
  lemma OverlapIsPages(c: Config, heapPages: nat, borrows: seq<MemoryBorrow>, base: nat, size: nat)
    requires BorrowsOk(c, heapPages, borrows) && PageAligned(base) && PageAligned(size) && size > 0
    requires Vpn(base) + Vpn(size) == HeapFirst(c) + heapPages
    ensures !OverlapsSource(borrows, base, size) ==>
              (forall b :: b in borrows ==> Vpn(b.src) + Vpn(b.size) <= Vpn(base))
              && (forall v :: Vpn(base) <= v < Vpn(base) + Vpn(size) ==> !InSrc(borrows, v))
  {
    if !OverlapsSource(borrows, base, size) {
      forall b | b in borrows
        ensures Vpn(b.src) + Vpn(b.size) <= Vpn(base)
      {
        var i :| 0 <= i < |borrows| && borrows[i] == b;
        assert BorrowOk(c, heapPages, b);
        assert !RangesOverlap(base, size, borrows[i].src, borrows[i].size);
      }
    }
  }

  /** The pages a shrink releases: RW, and one physical run up to the cursor. */
  lemma ShrinkRange(c: Config, k: Kernel, requested: nat)
    requires Inv(c, k) && requested % HEAP_GRANULE == 0 && requested < k.heapSize
    requires !OverlapsSource(k.borrows, c.space.heap.base + requested, k.heapSize - requested)
    ensures var gva, size := c.space.heap.base + requested, k.heapSize - requested;
            && MappedRangeError(k.flat, gva, size) == Ok
            && HostContiguous(k.flat, gva, size, PERM_R)
            && k.flat[Vpn(gva)].ppn == c.p0 + Vpn(requested)
    ensures forall b :: b in k.borrows ==> Vpn(b.src) + Vpn(b.size) <= HeapFirst(c) + Vpn(requested)
  {
    var hp, kept := Vpn(k.heapSize), Vpn(requested);
    var gva, size := c.space.heap.base + requested, k.heapSize - requested;
    HeapRange(c, requested, k.heapSize);
    OverlapIsPages(c, hp, k.borrows, gva, size);
    HeapPagesFit(c, k);
    hide OverlapsSource, AllocOk, HostContiguous, InSrc, BorrowsOk;
    forall v | Vpn(gva) <= v < Vpn(gva) + Vpn(size)
      ensures v in k.flat && k.flat[v] == Page(c.p0 + (v - HeapFirst(c)), PERM_RW)
    {
      assert At(c, hp, k.borrows, v, Lookup(k.flat, v));
      assert c.space.heap.Pages(v);
      HeapPageAlone(c, hp, k.borrows, v);
    }
    PagesAreContiguous(k.flat, gva, size, c.p0 + kept, PERM_R);
  }

  lemma ShrinkKeeps(c: Config, k: Kernel, requested: nat)
    requires Inv(c, k) && requested % HEAP_GRANULE == 0 && requested < k.heapSize
    ensures var o := Shrink(c, k, requested);
            && o.Done? && Inv(c, o.kernel)
            && (o.result != Success ==> o == Done(k, SvcInvalidMemoryState))
            && (o.result == Success ==> o.kernel.heapSize == requested && o.kernel.borrows == k.borrows)
            // The released range is one physical run: the page-by-page path is never taken.
            && (o.result == Success ==>
                  HostContiguous(k.flat, c.space.heap.base + requested, k.heapSize - requested, PERM_R))
  {
    hide FlatShape, BorrowsOk, ConfigOk, OverlapsSource, UnmapRange, HostContiguous, Pages.Return, FreePageByPage;
    var hp, kept := Vpn(k.heapSize), Vpn(requested);
    HeapRange(c, requested, k.heapSize);
    HeapPagesFit(c, k);
    if !OverlapsSource(k.borrows, c.space.heap.base + requested, k.heapSize - requested) {
      ShrinkRange(c, k, requested);
      BumpOnly(k.alloc, hp - kept, true);
      ShapeShrink(c, k.flat, hp, kept, k.borrows);
    }
  }

  lemma SetHeapSizeKeeps(c: Config, k: Kernel, requested: nat, commits: bool)
    requires Inv(c, k)
    ensures var o := SetHeapSize(c, k, requested, commits);
            && o.Done? && Inv(c, o.kernel)
            && (o.result != Success ==> o.kernel == k)
            && (o.result == Success ==> o.kernel.heapSize == requested && o.kernel.borrows == k.borrows)
  {
    hide Inv, Grow, Shrink;
    if requested % HEAP_GRANULE == 0 && requested <= c.space.heap.size {
      if requested > k.heapSize {
        GrowKeeps(c, k, requested, commits);
      } else if requested < k.heapSize {
        ShrinkKeeps(c, k, requested);
      }
    }
  }

  // ----- When the SVCs succeed, and what every refusal means -----

  /** No borrow lends out a byte of the heap at or above `size` bytes. */
  ghost predicate UnlentAbove(c: Config, borrows: seq<MemoryBorrow>, size: nat) {
    forall b :: b in borrows ==> b.src + b.size <= c.space.heap.base + size
  }

  lemma OverlapIsAbove(c: Config, k: Kernel, requested: nat)
    requires Inv(c, k) && requested < k.heapSize
    ensures OverlapsSource(k.borrows, c.space.heap.base + requested, k.heapSize - requested) <==>
              !UnlentAbove(c, k.borrows, requested)
  {
    hide FlatShape, AllocOk;
    RegionPages(c.space.heap);
    GranuleAligned(k.heapSize);
    forall b | b in k.borrows
      ensures b.src < c.space.heap.base + k.heapSize
    {
      assert BorrowOk(c, Vpn(k.heapSize), b);
      RangeEnds(b.src, b.size, c.space.heap.base, k.heapSize);
    }
    if !UnlentAbove(c, k.borrows, requested) {
      var b :| b in k.borrows && b.src + b.size > c.space.heap.base + requested;
      var i :| 0 <= i < |k.borrows| && k.borrows[i] == b;
      assert RangesOverlap(c.space.heap.base + requested, k.heapSize - requested, k.borrows[i].src, k.borrows[i].size);
    }
  }

  lemma RangeEnds(a: nat, aSize: nat, b: nat, bSize: nat)
    requires PageAligned(a) && PageAligned(aSize) && PageAligned(b) && PageAligned(bSize)
    ensures Vpn(a) + Vpn(aSize) <= Vpn(b) + Vpn(bSize) <==> a + aSize <= b + bSize
    ensures Vpn(a) <= Vpn(b) <==> a <= b
  {
  }

  /** A larger heap needs the host's memory, pages above the cursor, and room for its 64 MB tables. */
  ghost predicate GrowFits(c: Config, k: Kernel, requested: nat, commits: bool)
    requires requested > k.heapSize
  {
    var more := (requested - k.heapSize) / 4096;
    && commits && k.alloc.used + more <= k.alloc.size
    && |Slots(k.flat) + RangeSlots((c.space.heap.base + k.heapSize) / 4096, more)| <= 256
  }

  lemma GrowResult(c: Config, k: Kernel, requested: nat, commits: bool)
    requires Inv(c, k) && requested % HEAP_GRANULE == 0 && k.heapSize < requested <= c.space.heap.size
    ensures Grow(c, k, requested, commits).Done?
    ensures Grow(c, k, requested, commits).result ==
            if GrowFits(c, k, requested, commits) then Success else SvcOutOfMemory
  {
    hide FlatShape, BorrowsOk, Mapped, HostContiguous, Pages.Take, Pages.Return, Slots, RangeSlots, NoneMapped;
    var more := Vpn(requested - k.heapSize);
    GrowKeeps(c, k, requested, commits);
    HeapRange(c, k.heapSize, requested);
    BumpOnly(k.alloc, more, commits);
    if k.alloc.used + more <= k.alloc.size {
      GrowRange(c, k, requested);
      MapErrorIs(k.flat, c.ramSize, c.space.heap.base + k.heapSize, k.alloc.Cursor() * PAGE_SIZE,
                 requested - k.heapSize, PERM_RW);
      hide MapError, ConfigOk;
      if MapError(k.flat, c.ramSize, c.space.heap.base + k.heapSize, k.alloc.Cursor() * PAGE_SIZE,
                  requested - k.heapSize, PERM_RW) == Ok {
        GrowMapped(c, k, requested);
        GrowMaps(c, k, requested);
      }
    }
  }

  /** A map that can only run out of tables is decided by their number. */
  lemma MapErrorIs(m: FlatMap, ramSize: nat, gva: nat, pa: nat, size: nat, perms: nat)
    requires MapError(m, ramSize, gva, pa, size, perms) in {Ok, OutOfMemory}
    ensures MapError(m, ramSize, gva, pa, size, perms) == Ok <==>
              |Slots(m) + RangeSlots(gva / 4096, size / 4096)| <= 256
  {
  }

  /**
   svcSetHeapSize, decided: the size must be whole 2 MB granules inside the heap region; growing
   needs what GrowFits says; shrinking needs the dropped part unlent; the current size always works.
   */
  lemma SetHeapSizeResult(c: Config, k: Kernel, requested: nat, commits: bool)
    requires Inv(c, k)
    ensures SetHeapSize(c, k, requested, commits).Done?
    ensures var r := SetHeapSize(c, k, requested, commits).result;
            && (r == SvcInvalidSize <==> requested % 0x20_0000 != 0)
            && (r == SvcInvalidMemoryRange <==> requested % 0x20_0000 == 0 && requested > c.space.heap.size)
            && (requested % 0x20_0000 == 0 && k.heapSize < requested <= c.space.heap.size ==>
                  r == if GrowFits(c, k, requested, commits) then Success else SvcOutOfMemory)
            && (requested % 0x20_0000 == 0 && requested < k.heapSize ==>
                  r == if UnlentAbove(c, k.borrows, requested) then Success else SvcInvalidMemoryState)
            && (requested == k.heapSize ==> r == Success)
  {
    hide GrowFits, UnlentAbove, Grow, Shrink, FlatShape, BorrowsOk, ConfigOk, AllocOk;
    if requested % HEAP_GRANULE == 0 && requested <= c.space.heap.size {
      if requested > k.heapSize {
        GrowResult(c, k, requested, commits);
      } else if requested < k.heapSize {
        ShrinkResult(c, k, requested);
      }
    }
  }

  lemma ShrinkResult(c: Config, k: Kernel, requested: nat)
    requires Inv(c, k) && requested % HEAP_GRANULE == 0 && requested < k.heapSize
    ensures Shrink(c, k, requested).Done?
    ensures Shrink(c, k, requested).result ==
            if UnlentAbove(c, k.borrows, requested) then Success else SvcInvalidMemoryState
  {
    ShrinkKeeps(c, k, requested);
    OverlapIsAbove(c, k, requested);
    hide Inv, UnlentAbove, OverlapsSource, FreeAndUnmap;
  }

  lemma RegionRange(c: Config, r: Region, gva: nat, size: nat)
    requires RegionOk(r) && r.Contains(gva, size) && PageAligned(gva) && PageAligned(size) && size > 0
    ensures ValidPageRange(gva, size) && Vpn(size) > 0
    ensures Vpn(r.base) <= Vpn(gva) && Vpn(gva) + Vpn(size) <= Vpn(r.base) + Vpn(r.size)
  {
  }

  /** A readable source lies in the committed heap, is not lent out, and is backed in step with it. */
  lemma SourcePages(c: Config, k: Kernel, src: nat, size: nat)
    requires Inv(c, k) && PageAligned(src) && PageAligned(size) && size > 0 && c.space.heap.Contains(src, size)
    requires HostContiguous(k.flat, src, size, PERM_R)
    ensures Vpn(src) in k.flat && Pa(k.flat, src) == (c.p0 + (Vpn(src) - HeapFirst(c))) * PAGE_SIZE
    ensures HeapFirst(c) <= Vpn(src) && Vpn(src) + Vpn(size) <= HeapFirst(c) + Vpn(k.heapSize)
    ensures forall v :: Vpn(src) <= v < Vpn(src) + Vpn(size) ==>
              v in k.flat && k.flat[v] == Page(c.p0 + (v - HeapFirst(c)), PERM_RW) && !InSrc(k.borrows, v)
  {
    RegionRange(c, c.space.heap, src, size);
    ContiguousPages(k.flat, src, size, PERM_R);
    hide HostContiguous, FlatShape, BorrowsOk, AllocOk;
    forall v | Vpn(src) <= v < Vpn(src) + Vpn(size)
      ensures v in k.flat && k.flat[v] == Page(c.p0 + (v - HeapFirst(c)), PERM_RW) && !InSrc(k.borrows, v)
      ensures v < HeapFirst(c) + Vpn(k.heapSize)
    {
      var o := OriginOf(c, k, v);
      RegionsApart(c, v);
      assert c.space.heap.Pages(v);
    }
    assert Vpn(src) + Vpn(size) - 1 in k.flat;
  }

  /** Conversely, every committed and unlent range is one readable run: backing is never scattered. */
  lemma SourceReadable(c: Config, k: Kernel, src: nat, size: nat)
    requires Inv(c, k) && PageAligned(src) && PageAligned(size) && size > 0 && c.space.heap.Contains(src, size)
    ensures HostContiguous(k.flat, src, size, PERM_R) <==>
              Vpn(src) + Vpn(size) <= HeapFirst(c) + Vpn(k.heapSize)
              && forall v :: Vpn(src) <= v < Vpn(src) + Vpn(size) ==> !InSrc(k.borrows, v)
  {
    RegionRange(c, c.space.heap, src, size);
    if HostContiguous(k.flat, src, size, PERM_R) {
      SourcePages(c, k, src, size);
    }
    if Vpn(src) + Vpn(size) <= HeapFirst(c) + Vpn(k.heapSize)
       && forall v :: Vpn(src) <= v < Vpn(src) + Vpn(size) ==> !InSrc(k.borrows, v) {
      HeapPagesFit(c, k);
      hide HostContiguous, AllocOk, BorrowsOk;
      forall v | Vpn(src) <= v < Vpn(src) + Vpn(size)
        ensures v in k.flat && k.flat[v] == Page(c.p0 + (v - HeapFirst(c)), PERM_RW)
      {
        assert At(c, Vpn(k.heapSize), k.borrows, v, Lookup(k.flat, v));
        assert c.space.heap.Pages(v);
        HeapPageAlone(c, Vpn(k.heapSize), k.borrows, v);
      }
      PagesAreContiguous(k.flat, src, size, c.p0 + (Vpn(src) - HeapFirst(c)), PERM_R);
    }
  }

  /** A new borrow fits beside the live ones. */
  lemma BorrowFits(c: Config, k: Kernel, b: MemoryBorrow)
    requires Inv(c, k) && |k.borrows| < MAX_HEAP_BORROWS
    requires b.size > 0 && PageAligned(b.dst) && PageAligned(b.src) && PageAligned(b.size)
    requires c.space.stack.Contains(b.dst, b.size) && c.space.heap.Contains(b.src, b.size)
    requires NoneMapped(k.flat, Vpn(b.dst), Vpn(b.size)) && HostContiguous(k.flat, b.src, b.size, PERM_R)
    ensures BorrowOk(c, Vpn(k.heapSize), b) && BorrowsOk(c, Vpn(k.heapSize), k.borrows + [b])
  {
    SourcePages(c, k, b.src, b.size);
    RegionRange(c, c.space.stack, b.dst, b.size);
    CodeIsSafe(c, k);
    hide HostContiguous, AllocOk;
    forall a | a in k.borrows
      ensures BorrowsApart(a, b)
    {
      assert BorrowOk(c, Vpn(k.heapSize), a);
      var s := if Vpn(a.src) <= Vpn(b.src) then Vpn(b.src) else Vpn(a.src);
      var d := if Vpn(a.dst) <= Vpn(b.dst) then Vpn(b.dst) else Vpn(a.dst);
      assert a.HasSrc(s) ==> InSrc(k.borrows, s);
      MirrorMapped(c, k, a, d);
    }
  }

  lemma MirrorMapped(c: Config, k: Kernel, b: MemoryBorrow, v: nat)
    requires Inv(c, k) && b in k.borrows
    ensures BorrowOk(c, Vpn(k.heapSize), b)
    ensures b.HasDst(v) ==> v in k.flat && k.flat[v] == MirrorPage(c, b, v) && v < TOTAL_PAGES
  {
    if b.HasDst(v) {
      assert At(c, Vpn(k.heapSize), k.borrows, v, Lookup(k.flat, v));
      assert BorrowOk(c, Vpn(k.heapSize), b);
      RegionsApart(c, v);
      HeapPagesFit(c, k);
    }
  }

  /** The two page-table calls of MapMemory: which can fail, and what they leave. */
  lemma MirrorCalls(c: Config, k: Kernel, b: MemoryBorrow)
    requires Inv(c, k)
    requires b.size > 0 && PageAligned(b.dst) && PageAligned(b.src) && PageAligned(b.size)
    requires c.space.stack.Contains(b.dst, b.size) && c.space.heap.Contains(b.src, b.size)
    requires NoneMapped(k.flat, Vpn(b.dst), Vpn(b.size)) && HostContiguous(k.flat, b.src, b.size, PERM_R)
    ensures Vpn(b.src) in k.flat && Vpn(b.src) >= HeapFirst(c)
    ensures ReprotectError(k.flat, b.src, b.size, PERM_NONE) == Ok
    ensures var pa := Pa(k.flat, b.src);
            var hidden := Reprotected(k.flat, b.src, b.size, PERM_NONE);
            && ReprotectError(hidden, b.src, b.size, PERM_RW) == Ok
            && Reprotected(hidden, b.src, b.size, PERM_RW) == k.flat
            && hidden == ReprotectRange(k.flat, Vpn(b.src), Vpn(b.size), PERM_NONE)
            && Vpn(pa) == c.p0 + (Vpn(b.src) - HeapFirst(c))
            && MapError(hidden, c.ramSize, b.dst, pa, b.size, PERM_RW) in {Ok, OutOfMemory}
  {
    RegionRange(c, c.space.heap, b.src, b.size);
    RegionRange(c, c.space.stack, b.dst, b.size);
    SourcePages(c, k, b.src, b.size);
    hide HostContiguous, FlatShape, BorrowsOk, Slots, RangeSlots;
    var hidden := ReprotectRange(k.flat, Vpn(b.src), Vpn(b.size), PERM_NONE);
    ReprotectBack(k.flat, Vpn(b.src), Vpn(b.size), PERM_NONE, PERM_RW);
    assert hidden.Keys == k.flat.Keys;
    var page := c.p0 + (Vpn(b.src) - HeapFirst(c));
    assert page + Vpn(b.size) <= k.alloc.base + k.alloc.size;
    assert Pa(k.flat, b.src) == page * PAGE_SIZE && Vpn(page * PAGE_SIZE) == page;
  }

  lemma MapMemoryKeeps(c: Config, k: Kernel, dst: nat, src: nat, size: nat)
    requires Inv(c, k)
    ensures var o := MapMemory(c, k, dst, src, size);
            && o.Done? && Inv(c, o.kernel)
            && (o.result != Success ==> o.kernel == k)
            && (o.result == Success ==> o.kernel == k.(flat := o.kernel.flat,
                    borrows := k.borrows + [MemoryBorrow(dst, src, size)]))
  {
    hide ReprotectError, MapError, ReprotectRange, MapRange, FlatShape, BorrowsOk, HostContiguous, NoneMapped,
         AllocOk;
    var o := MapMemory(c, k, dst, src, size);
    var b := MemoryBorrow(dst, src, size);
    if o != Done(k, SvcInvalidSize) && o != Done(k, SvcInvalidMemoryRange) && |k.borrows| < MAX_HEAP_BORROWS
       && NoneMapped(k.flat, Vpn(dst), Vpn(size)) && HostContiguous(k.flat, src, size, PERM_R) {
      MirrorCalls(c, k, b);
      BorrowFits(c, k, b);
      HeapPagesFit(c, k);
      ShapeMirror(c, k.flat, Vpn(k.heapSize), k.borrows, b);
    }
  }

  /** The source is committed heap, and no live borrow lends out a byte of it. */
  ghost predicate Lendable(c: Config, k: Kernel, src: nat, size: nat) {
    && src + size <= c.space.heap.base + k.heapSize
    && forall b :: b in k.borrows ==> src + size <= b.src || b.src + b.size <= src
  }

  lemma LendableIsReadable(c: Config, k: Kernel, src: nat, size: nat)
    requires Inv(c, k) && PageAligned(src) && PageAligned(size) && size > 0 && c.space.heap.Contains(src, size)
    ensures HostContiguous(k.flat, src, size, PERM_R) <==> Lendable(c, k, src, size)
  {
    SourceReadable(c, k, src, size);
    hide FlatShape, AllocOk, HostContiguous;
    RegionPages(c.space.heap);
    GranuleAligned(k.heapSize);
    RangeEnds(src, size, c.space.heap.base, k.heapSize);
    var v := Vpn(src);
    if !(forall b :: b in k.borrows ==> src + size <= b.src || b.src + b.size <= src) {
      var b :| b in k.borrows && src + size > b.src && b.src + b.size > src;
      assert BorrowOk(c, Vpn(k.heapSize), b);
      RangeEnds(src, size, b.src, 0);
      RangeEnds(b.src, b.size, src, 0);
      var shared := if Vpn(src) <= Vpn(b.src) then Vpn(b.src) else Vpn(src);
      assert b.HasSrc(shared);
      assert InSrc(k.borrows, shared);
    } else {
      forall v | Vpn(src) <= v < Vpn(src) + Vpn(size)
        ensures !InSrc(k.borrows, v)
      {
        forall b | b in k.borrows
          ensures !b.HasSrc(v)
        {
          assert BorrowOk(c, Vpn(k.heapSize), b);
          RangeEnds(src, size, b.src, 0);
          RangeEnds(b.src, b.size, src, 0);
        }
      }
    }
  }

  /**
   svcMapMemory, decided: page-aligned and not empty, into the stack region and out of the heap
   region; at most 8 live borrows; nothing mapped at the destination, the source committed and
   unlent; and room for the 64 MB tables of the mirror.
   */
  lemma MapMemoryResult(c: Config, k: Kernel, dst: nat, src: nat, size: nat)
    requires Inv(c, k)
    ensures MapMemory(c, k, dst, src, size).Done?
    ensures var aligned := size > 0 && size % 4096 == 0 && dst % 4096 == 0 && src % 4096 == 0;
            var inside := && c.space.stack.base <= dst && dst + size <= c.space.stack.base + c.space.stack.size
                          && c.space.heap.base <= src && src + size <= c.space.heap.base + c.space.heap.size;
            var free := forall a :: dst <= a < dst + size ==> a / 4096 !in k.flat;
            var slots := |Slots(k.flat) + RangeSlots(dst / 4096, size / 4096)|;
            MapMemory(c, k, dst, src, size).result ==
              if !aligned then SvcInvalidSize
              else if !inside then SvcInvalidMemoryRange
              else if |k.borrows| == 8 then SvcOutOfMemory
              else if !free || !Lendable(c, k, src, size) then SvcInvalidMemoryState
              else if slots > 256 then SvcOutOfMemory
              else Success
  {
    hide ReprotectError, MapError, ReprotectRange, MapRange, FlatShape, BorrowsOk, HostContiguous, NoneMapped,
         AllocOk, Lendable, Slots, RangeSlots, ConfigOk, Reprotected, Mapped;
    if size > 0 && PageAligned(size) && PageAligned(dst) && PageAligned(src)
       && c.space.stack.Contains(dst, size) && c.space.heap.Contains(src, size) {
      RegionsValid(c);
      RegionRange(c, c.space.stack, dst, size);
      UnmappedBytes(k.flat, dst, size);
      LendableIsReadable(c, k, src, size);
      AtMostEight(c, k);
      if |k.borrows| < 8 && NoneMapped(k.flat, Vpn(dst), Vpn(size)) && HostContiguous(k.flat, src, size, PERM_R) {
        MirrorResult(c, k, MemoryBorrow(dst, src, size));
      }
    }
  }

  lemma RegionsValid(c: Config)
    requires ConfigOk(c)
    ensures RegionOk(c.space.stack) && RegionOk(c.space.heap)
  {
  }

  lemma AtMostEight(c: Config, k: Kernel)
    requires Inv(c, k)
    ensures |k.borrows| <= 8
  {
  }

  lemma MirrorResult(c: Config, k: Kernel, b: MemoryBorrow)
    requires Inv(c, k)
    requires b.size > 0 && PageAligned(b.dst) && PageAligned(b.src) && PageAligned(b.size)
    requires c.space.stack.Contains(b.dst, b.size) && c.space.heap.Contains(b.src, b.size)
    requires NoneMapped(k.flat, Vpn(b.dst), Vpn(b.size)) && HostContiguous(k.flat, b.src, b.size, PERM_R)
    ensures Vpn(b.src) in k.flat && Mirror(c, k, b.dst, b.src, b.size).Done?
    ensures Mirror(c, k, b.dst, b.src, b.size).result ==
            if |Slots(k.flat) + RangeSlots(b.dst / 4096, b.size / 4096)| > 256 then SvcOutOfMemory else Success
  {
    MirrorCalls(c, k, b);
    var hidden := Reprotected(k.flat, b.src, b.size, PERM_NONE);
    ReprotectKeepsSlots(k.flat, Vpn(b.src), Vpn(b.size), PERM_NONE);
    MapErrorIs(hidden, c.ramSize, b.dst, Pa(k.flat, b.src), b.size, PERM_RW);
    hide ReprotectError, MapError, ReprotectRange, Inv, HostContiguous, NoneMapped, Slots, RangeSlots, Reprotected,
         Mapped, Pa;
  }

  lemma ReprotectKeepsSlots(m: FlatMap, first: nat, count: nat, perms: nat)
    ensures Slots(ReprotectRange(m, first, count, perms)) == Slots(m)
  {
    assert ReprotectRange(m, first, count, perms).Keys == m.Keys;
  }

  lemma UnmirrorCalls(c: Config, k: Kernel, b: MemoryBorrow)
    requires Inv(c, k) && b in k.borrows
    ensures MappedRangeError(k.flat, b.dst, b.size) == Ok
    ensures Unmapped(k.flat, b.dst, b.size) == UnmapRange(k.flat, Vpn(b.dst), Vpn(b.size))
    ensures ReprotectError(Unmapped(k.flat, b.dst, b.size), b.src, b.size, PERM_RW) == Ok
    ensures Reprotected(Unmapped(k.flat, b.dst, b.size), b.src, b.size, PERM_RW) ==
            ReprotectRange(UnmapRange(k.flat, Vpn(b.dst), Vpn(b.size)), Vpn(b.src), Vpn(b.size), PERM_RW)
  {
    assert BorrowOk(c, Vpn(k.heapSize), b);
    HeapPagesFit(c, k);
    RegionPages(c.space.heap);
    RegionPages(c.space.stack);
    hide BorrowsOk, AllocOk, ReprotectRange;
    forall v | b.HasDst(v)
      ensures v in k.flat
    {
      MirrorMapped(c, k, b, v);
    }
    forall v | b.HasSrc(v)
      ensures v in k.flat && !b.HasDst(v)
    {
      assert At(c, Vpn(k.heapSize), k.borrows, v, Lookup(k.flat, v));
      assert c.space.heap.Pages(v);
      RegionsApart(c, v);
    }
    var cut := UnmapRange(k.flat, Vpn(b.dst), Vpn(b.size));
    assert Unmapped(k.flat, b.dst, b.size) == cut;
    assert AllMapped(cut, Vpn(b.src), Vpn(b.size));
  }

  lemma UnmapMemoryKeeps(c: Config, k: Kernel, dst: nat, src: nat, size: nat)
    requires Inv(c, k)
    ensures var o := UnmapMemory(k, dst, src, size);
            && o.Done? && Inv(c, o.kernel)
            && (o.result == Success <==> MemoryBorrow(dst, src, size) in k.borrows)
            && (o.result != Success ==> o.kernel == k)
            && (o.result == Success ==> o.kernel.heapSize == k.heapSize && o.kernel.alloc == k.alloc)
            && (o.result == Success ==>
                  forall b :: b in o.kernel.borrows <==> b in k.borrows && b != MemoryBorrow(dst, src, size))
  {
    hide ReprotectError, MappedRangeError, ReprotectRange, UnmapRange, FlatShape, BorrowsOk, AllocOk, SwapRemove;
    var i := FindBorrow(k.borrows, MemoryBorrow(dst, src, size));
    if i < |k.borrows| {
      UnmirrorCalls(c, k, k.borrows[i]);
      HeapPagesFit(c, k);
      Fewer(c, Vpn(k.heapSize), k.borrows, i);
      ShapeUnmirror(c, k.flat, Vpn(k.heapSize), k.borrows, i);
    }
  }

  /** The invariant leaves no freedom: two maps that satisfy it for the same borrows are equal. */
  lemma ShapeDetermines(c: Config, f: FlatMap, g: FlatMap, heapPages: nat, borrows: seq<MemoryBorrow>)
    requires BorrowsOk(c, heapPages, borrows)
    requires FlatShape(c, f, heapPages, borrows) && FlatShape(c, g, heapPages, borrows)
    ensures f == g
  {
    forall v: nat
      ensures Lookup(f, v) == Lookup(g, v)
    {
      assert At(c, heapPages, borrows, v, Lookup(f, v)) && At(c, heapPages, borrows, v, Lookup(g, v));
      if InDst(borrows, v) {
        var b :| b in borrows && b.HasDst(v);
        assert BorrowOk(c, heapPages, b);
      }
    }
    LookupsDetermine(f, g);
  }

  lemma LookupsDetermine(f: FlatMap, g: FlatMap)
    requires forall v: nat :: Lookup(f, v) == Lookup(g, v)
    ensures f == g
  {
    forall v: nat
      ensures v in f <==> v in g
      ensures v in f ==> f[v] == g[v]
    {
      assert Lookup(f, v) == Lookup(g, v);
    }
  }

  /** UnmapMemory after MapMemory with the same triple is the identity. */
  lemma MapThenUnmap(c: Config, k: Kernel, dst: nat, src: nat, size: nat)
    requires Inv(c, k) && MapMemory(c, k, dst, src, size).Done? && MapMemory(c, k, dst, src, size).result == Success
    ensures UnmapMemory(MapMemory(c, k, dst, src, size).kernel, dst, src, size) == Done(k, Success)
  {
    var b := MemoryBorrow(dst, src, size);
    var k' := MapMemory(c, k, dst, src, size).kernel;
    MapMemoryKeeps(c, k, dst, src, size);
    if b in k.borrows {
      MirrorMapped(c, k, b, Vpn(dst));
    }
    assert b !in k.borrows;
    UnmapMemoryKeeps(c, k', dst, src, size);
    hide MapMemory, FlatShape, BorrowsOk, AllocOk;
    var i := FindBorrow(k'.borrows, b);
    assert i == |k.borrows|;
    assert SwapRemove(k'.borrows, i) == k.borrows;
    ShapeDetermines(c, UnmapMemory(k', dst, src, size).kernel.flat, k.flat, Vpn(k.heapSize), k.borrows);
  }

  // ----- Whole runs -----

  datatype Event =
    | DoSetHeapSize(requested: nat, commits: bool)
    | DoMapMemory(dst: nat, src: nat, size: nat)
    | DoUnmapMemory(dst: nat, src: nat, size: nat)

  /** QueryMemory and the guest's own loads and stores do not appear: they leave the kernel state alone. */
  ghost function Step(c: Config, k: Kernel, e: Event): Outcome {
    match e
    case DoSetHeapSize(requested, commits) => SetHeapSize(c, k, requested, commits)
    case DoMapMemory(dst, src, size) => MapMemory(c, k, dst, src, size)
    case DoUnmapMemory(dst, src, size) => UnmapMemory(k, dst, src, size)
  }

  ghost function After(c: Config, k: Kernel, es: seq<Event>): Option<Kernel>
    decreases |es|
  {
    if es == [] then Some(k)
    else
      match Step(c, k, es[0])
      case Abort => None
      case Done(k', _) => After(c, k', es[1..])
  }

  lemma StepKeeps(c: Config, k: Kernel, e: Event)
    requires Inv(c, k)
    ensures var o := Step(c, k, e); o.Done? && Inv(c, o.kernel) && (o.result != Success ==> o.kernel == k)
  {
    match e {
      case DoSetHeapSize(requested, commits) => SetHeapSizeKeeps(c, k, requested, commits);
      case DoMapMemory(dst, src, size) => MapMemoryKeeps(c, k, dst, src, size);
      case DoUnmapMemory(dst, src, size) => UnmapMemoryKeeps(c, k, dst, src, size);
    }
  }

  /** No run of the memory SVCs fires an assertion or leaves the invariant. */
  lemma {:induction false} RunKeeps(c: Config, k: Kernel, es: seq<Event>)
    requires Inv(c, k)
    ensures After(c, k, es).Some? && Inv(c, After(c, k, es).value)
    decreases |es|
  {
    if es != [] {
      StepKeeps(c, k, es[0]);
      RunKeeps(c, Step(c, k, es[0]).kernel, es[1..]);
    }
  }

  /** Safety over every run: aliasing only through a live borrow, W^X, and code exactly as it was loaded. */
  lemma RunIsSafe(c: Config, k: Kernel, es: seq<Event>)
    requires Inv(c, k)
    ensures After(c, k, es).Some?
    ensures var flat, borrows := After(c, k, es).value.flat, After(c, k, es).value.borrows;
            && (forall v, w :: v in flat && w in flat && v != w && flat[v].ppn == flat[w].ppn ==>
                  exists b :: b in borrows && (Halves(b, v, w) || Halves(b, w, v)))
            && (forall v :: v in flat ==> !(Writable(flat[v]) && Executable(flat[v])))
            && (forall v: nat :: c.space.code.Pages(v) ==> Lookup(flat, v) == Lookup(c.boot, v))
  {
    RunKeeps(c, k, es);
    var k' := After(c, k, es).value;
    hide Inv, After, Halves, Region.Pages;
    CodeIsSafe(c, k');
    forall v, w | v in k'.flat && w in k'.flat && v != w && k'.flat[v].ppn == k'.flat[w].ppn
      ensures exists b :: b in k'.borrows && (Halves(b, v, w) || Halves(b, w, v))
    {
      NoOtherAliases(c, k', v, w);
    }
  }

  /** The borrow table and the heap, spelled out for every reachable state. */
  lemma BorrowTable(c: Config, k: Kernel)
    requires Inv(c, k)
    ensures forall i, j :: 0 <= i < j < |k.borrows| ==> BorrowsApart(k.borrows[i], k.borrows[j])
    ensures forall b, s, d :: b in k.borrows && Halves(b, s, d) ==>
              && s in k.flat && d in k.flat && k.flat[s].ppn == k.flat[d].ppn
              && k.flat[s].perms == PERM_NONE && k.flat[d].perms == PERM_RW
              && c.space.heap.Pages(s) && c.space.stack.Pages(d)
    ensures forall v: nat :: c.space.heap.Pages(v) && v in k.flat && !InSrc(k.borrows, v) ==> k.flat[v].perms == PERM_RW
    ensures forall v: nat :: c.space.heap.Pages(v) ==> (v in k.flat <==> v < HeapFirst(c) + Vpn(k.heapSize))
  {
    HeapPagesFit(c, k);
    hide AllocOk;
    forall b, s, d | b in k.borrows && Halves(b, s, d)
      ensures && s in k.flat && d in k.flat && k.flat[s].ppn == k.flat[d].ppn
              && k.flat[s].perms == PERM_NONE && k.flat[d].perms == PERM_RW
              && c.space.heap.Pages(s) && c.space.stack.Pages(d)
    {
      MirrorMapped(c, k, b, d);
      assert At(c, Vpn(k.heapSize), k.borrows, s, Lookup(k.flat, s));
      assert c.space.heap.Pages(s);
      HeapPageAlone(c, Vpn(k.heapSize), k.borrows, s);
    }
    forall v: nat | c.space.heap.Pages(v)
      ensures v in k.flat <==> v < HeapFirst(c) + Vpn(k.heapSize)
      ensures v in k.flat && !InSrc(k.borrows, v) ==> k.flat[v].perms == PERM_RW
    {
      assert At(c, Vpn(k.heapSize), k.borrows, v, Lookup(k.flat, v));
      HeapPageAlone(c, Vpn(k.heapSize), k.borrows, v);
    }
  }

  /** No two writable pages share a physical page: the source half of a borrow is inaccessible. */
  lemma WritableIsUnshared(c: Config, k: Kernel, v: nat, w: nat)
    requires Inv(c, k) && v in k.flat && w in k.flat && v != w && Writable(k.flat[v]) && Writable(k.flat[w])
    ensures k.flat[v].ppn != k.flat[w].ppn
  {
    hide Inv, Region.Pages, HeapFirst;
    if k.flat[v].ppn == k.flat[w].ppn {
      NoOtherAliases(c, k, v, w);
      BorrowTable(c, k);
    }
  }

  /** So in every reachable state whatever the guest stores reads back. */
  lemma GuestStoreReadsBack(c: Config, k: Kernel, ram: seq<Byte>, gva: nat, src: seq<Byte>)
    requires Inv(c, k) && Accessible(k.flat, gva, |src|, PERM_W) && Backed(k.flat, gva, |src|, |ram|)
    ensures Loaded(k.flat, Stored(k.flat, ram, gva, src), gva, |src|) == src
  {
    hide Inv, Stored, Loaded;
    forall a, b | gva <= a < gva + |src| && gva <= b < gva + |src| && Vpn(a) != Vpn(b)
      ensures k.flat[Vpn(a)].ppn != k.flat[Vpn(b)].ppn
    {
      assert Translates(k.flat, a, PERM_W) && Translates(k.flat, b, PERM_W);
      WritableIsUnshared(c, k, Vpn(a), Vpn(b));
    }
    assert DistinctBacking(k.flat, gva, |src|);
    StoreThenLoad(k.flat, ram, gva, src);
  }

  /** A read-only page of the bootstrap is shared with no writable page. */
  lemma ReadOnlyUnshared(c: Config, k: Kernel, v: nat, w: nat)
    requires Inv(c, k) && v in c.boot && !Writable(c.boot[v]) && w in k.flat && Writable(k.flat[w])
    ensures v in k.flat && k.flat[v] == c.boot[v] && k.flat[w].ppn != c.boot[v].ppn
  {
    hide FlatShape, AllocOk, BorrowsOk, HeapFirst;
    CodeIsSafe(c, k);
    BorrowTable(c, k);
    RegionsApart(c, v);
    if k.flat[w].ppn == c.boot[v].ppn {
      NoOtherAliases(c, k, v, w);
    }
  }

  /** So no store of the guest changes a byte of the program's code or constants, in any reachable state. */
  lemma CodeBytesSurvive(c: Config, k: Kernel, ram: seq<Byte>, gva: nat, src: seq<Byte>, v: nat, h: nat)
    requires Inv(c, k) && Accessible(k.flat, gva, |src|, PERM_W) && Backed(k.flat, gva, |src|, |ram|)
    requires v in c.boot && !Writable(c.boot[v]) && h < |ram| && h / 4096 == c.boot[v].ppn
    ensures Stored(k.flat, ram, gva, src)[h] == ram[h]
  {
    hide Inv, Stored;
    forall a | gva <= a < gva + |src|
      ensures Pa(k.flat, a) != h
    {
      assert Translates(k.flat, a, PERM_W);
      ReadOnlyUnshared(c, k, v, Vpn(a));
    }
    StoredElsewhere(k.flat, ram, gva, src, h);
  }
}

/**
 The memory SVC handlers in place (core/hle/kernel/svc_memory.c), over the page table, the page allocator and the
 process.
 */
module SvcMemory {
  import opened Results
  import opened Geometry
  import opened FlatMaps
  import opened PageTables
  import opened QueryRuns
  import opened GuestMemory
  import opened Bytes
  import opened AddressSpaces
  import opened Vmms
  import opened MemoryKernel
  import opened Processes
  import opened FreshMapping
  import Pages = PageAllocators

  // ----- Page by page release -----

  /** The backing pages of a range are held, and no two of its pages share one. */
  ghost predicate BackingHeld(m: FlatMap, first: nat, count: nat, out: set<nat>) {
    && (forall v :: first <= v < first + count && v in m ==> m[v].ppn in out)
    && (forall v, w :: first <= v < w < first + count && v in m && w in m ==> m[v].ppn != m[w].ppn)
  }

  lemma PageRange(page: nat)
    ensures RangePages(page, 1) == {page}
  {
    assert RangePages(page, 0) == {};
  }

  /** free_one_page: the page behind one heap page goes back, in a borrow scope of its own. */
  method FreeOnePage(vmm: Vmm, pages: Pages.PageAllocator, gva: U64)
    requires vmm.Valid() && !vmm.scopeOpen && pages.Valid() && vmm.Repr() !! pages.Repr()
    requires PageAligned(gva) && HostContiguous(vmm.flat, gva, PAGE_SIZE, PERM_R)
    requires vmm.flat[Vpn(gva)].ppn in pages.out
    requires Pages.Return(pages.Now(), vmm.flat[Vpn(gva)].ppn, 1).error == Ok
    modifies vmm.Repr(), pages.Repr()
    ensures vmm.Valid() && !vmm.scopeOpen && pages.Valid() && vmm.flat == old(vmm.flat)
    ensures pages.Now() == Pages.Return(old(pages.Now()), vmm.flat[Vpn(gva)].ppn, 1).state
    ensures pages.out == old(pages.out) - {vmm.flat[Vpn(gva)].ppn}
    ensures vmm.ram[..] == old(vmm.ram[..])
  {
    hide HostContiguous, Vmm.Valid, Pages.PageAllocator.Valid, Pages.Return;
    ContiguousStart(vmm.flat, gva, PAGE_SIZE, PERM_R);
    vmm.Idle();
    pages.HasShape();
    vmm.BorrowScopeBegin();
    var got, host := vmm.GuestToHost(gva, PAGE_SIZE, PERM_R);
    assert got == Ok;
    var pa := host - vmm.ramBase;
    vmm.BorrowScopeEnd();
    PageVpn(vmm.flat[Vpn(gva)].ppn);
    PageRange(vmm.flat[Vpn(gva)].ppn);
    assert pa == vmm.flat[Vpn(gva)].ppn * PAGE_SIZE;
    var freed := pages.Free(pa, 1);
    assert freed == Ok;
  }

  method FreePages(vmm: Vmm, pages: Pages.PageAllocator, gva: U64, size: U64)
    requires vmm.Valid() && !vmm.scopeOpen && pages.Valid() && vmm.Repr() !! pages.Repr()
    requires ValidPageRange(gva, size) && BackingHeld(vmm.flat, Vpn(gva), Vpn(size), pages.out)
    requires FreePageByPage(vmm.flat, pages.Now(), Vpn(gva), Vpn(size)).Some?
    modifies vmm.Repr(), pages.Repr()
    ensures vmm.Valid() && !vmm.scopeOpen && pages.Valid() && vmm.flat == old(vmm.flat)
    ensures Some(pages.Now()) == FreePageByPage(old(vmm.flat), old(pages.Now()), Vpn(gva), Vpn(size))
    ensures vmm.ram[..] == old(vmm.ram[..])
  {
    hide HostContiguous, Vmm.Valid, Pages.PageAllocator.Valid, Pages.Return;
    pages.HasShape();
    ghost var m := vmm.flat;
    ghost var first, count := Vpn(gva), Vpn(size);
    ghost var goal := FreePageByPage(m, pages.Now(), first, count);
    var offset := 0;
    ghost var i := 0;
    while offset < size
      invariant i <= count && offset == i * PAGE_SIZE
      invariant vmm.Valid() && !vmm.scopeOpen && pages.Valid() && vmm.flat == m && pages.Shape()
      invariant goal.Some? && FreePageByPage(m, pages.Now(), first + i, count - i) == goal
      invariant BackingHeld(m, first + i, count - i, pages.out)
      invariant vmm.ram[..] == old(vmm.ram[..])
      decreases size - offset
    {
      assert gva + offset == (first + i) * PAGE_SIZE;
      PageVpn(first + i);
      ContiguousStart(m, gva + offset, PAGE_SIZE, PERM_R);
      FreeOnePage(vmm, pages, gva + offset);
      pages.HasShape();
      offset := offset + PAGE_SIZE;
      i := i + 1;
    }
  }

  /** The backing of a host-contiguous page range is one run of held pages. */
  lemma ContiguousBackingHeld(m: FlatMap, gva: nat, size: nat, out: set<nat>)
    requires ValidPageRange(gva, size) && HostContiguous(m, gva, size, PERM_R)
    requires BackingHeld(m, Vpn(gva), Vpn(size), out)
    ensures Vpn(gva) in m && Pa(m, gva) == m[Vpn(gva)].ppn * PAGE_SIZE
    ensures RangePages(m[Vpn(gva)].ppn, Vpn(size)) <= out
  {
    ContiguousPages(m, gva, size, PERM_R);
    hide HostContiguous, Pa;
    var ppn := m[Vpn(gva)].ppn;
    forall p: nat | p in RangePages(ppn, Vpn(size))
      ensures p in out
    {
      var v := Vpn(gva) + (p - ppn);
      assert v in m && m[v].ppn == p;
    }
  }

  /** free_and_unmap_heap_range: the pages as one physical run if they are one, else one by one; then one unmap. */
  method FreeAndUnmapHeapRange(vmm: Vmm, pages: Pages.PageAllocator, gva: U64, size: U64, ghost k: Kernel)
    requires vmm.Valid() && !vmm.scopeOpen && pages.Valid() && vmm.Repr() !! pages.Repr()
    requires k.flat == vmm.flat && k.alloc == pages.Now() && FreeAndUnmap(k, gva, size).Some?
    requires BackingHeld(vmm.flat, Vpn(gva), Vpn(size), pages.out)
    modifies vmm.Repr(), pages.Repr()
    ensures vmm.Valid() && !vmm.scopeOpen && pages.Valid()
    ensures FreeAndUnmap(k, gva, size) == Some(k.(flat := vmm.flat, alloc := pages.Now()))
    ensures vmm.ram[..] == old(vmm.ram[..])
  {
    hide HostContiguous, Vmm.Valid, Pages.PageAllocator.Valid, Pages.Return, UnmapRange, RangePages, BackingHeld,
         FreePageByPage;
    vmm.Idle();
    pages.HasShape();
    vmm.BorrowScopeBegin();
    var got, host := vmm.GuestToHost(gva, size, PERM_R);
    vmm.BorrowScopeEnd();
    if got == Ok {
      ContiguousBackingHeld(vmm.flat, gva, size, pages.out);
      PageVpn(vmm.flat[Vpn(gva)].ppn);
      var freed := pages.Free(host - vmm.ramBase, Vpn(size));
      assert freed == Ok;
    } else {
      FreePages(vmm, pages, gva, size);
    }
    pages.HasShape();
    vmm.Idle();
    var unmapped := vmm.Unmap(gva, size);
    assert unmapped == Ok;
  }

  // ----- Memory types -----

  datatype MemoryType =
    | MemUnmapped | MemCodeStatic | MemHeap | MemWeirdMapped | MemMappedMemory | MemThreadLocal | MemNormal
  {
    function Code(): (n: nat)
      ensures n < 16
    {
      match this
      case MemUnmapped => 0x00
      case MemNormal => 0x02
      case MemCodeStatic => 0x03
      case MemHeap => 0x05
      case MemWeirdMapped => 0x07
      case MemMappedMemory => 0x0B
      case MemThreadLocal => 0x0C
    }
  }

  /** The address lies in the destination half of a live borrow. */
  predicate InMirror(borrows: seq<MemoryBorrow>, gva: nat) {
    exists i :: 0 <= i < |borrows| && Region(borrows[i].dst, borrows[i].size).Contains(gva, 1)
  }

  /** classify_type, by region and borrow table rather than by permissions. */
  function Classify(space: AddressSpace, borrows: seq<MemoryBorrow>, gva: nat, isMapped: bool): MemoryType {
    if !isMapped then MemUnmapped
    else if space.code.Contains(gva, 1) then MemCodeStatic
    else if space.heap.Contains(gva, 1) then if OverlapsSource(borrows, gva, 1) then MemWeirdMapped else MemHeap
    else if space.stack.Contains(gva, 1) then if InMirror(borrows, gva) then MemMappedMemory else MemNormal
    else if space.tlsIo.Contains(gva, 1) then MemThreadLocal
    else MemUnmapped
  }

  lemma ContainsByte(r: Region, gva: nat)
    requires PageAligned(r.base) && PageAligned(r.size)
    ensures r.Contains(gva, 1) <==> Vpn(r.base) <= Vpn(gva) < Vpn(r.base) + Vpn(r.size)
  {
  }

  lemma LentByte(c: Config, k: Kernel, gva: nat)
    requires Inv(c, k)
    ensures OverlapsSource(k.borrows, gva, 1) <==> InSrc(k.borrows, Vpn(gva))
    ensures InMirror(k.borrows, gva) <==> InDst(k.borrows, Vpn(gva))
  {
    hide FlatShape, ConfigOk, AllocOk;
    forall i | 0 <= i < |k.borrows|
      ensures RangesOverlap(gva, 1, k.borrows[i].src, k.borrows[i].size) <==> k.borrows[i].HasSrc(Vpn(gva))
      ensures Region(k.borrows[i].dst, k.borrows[i].size).Contains(gva, 1) <==> k.borrows[i].HasDst(Vpn(gva))
    {
      var b := k.borrows[i];
      assert BorrowOk(c, Vpn(k.heapSize), b);
      ContainsByte(Region(b.src, b.size), gva);
      ContainsByte(Region(b.dst, b.size), gva);
    }
    if InSrc(k.borrows, Vpn(gva)) {
      var b :| b in k.borrows && b.HasSrc(Vpn(gva));
      var i :| 0 <= i < |k.borrows| && k.borrows[i] == b;
      assert RangesOverlap(gva, 1, k.borrows[i].src, k.borrows[i].size);
    }
    if InDst(k.borrows, Vpn(gva)) {
      var b :| b in k.borrows && b.HasDst(Vpn(gva));
      var i :| 0 <= i < |k.borrows| && k.borrows[i] == b;
      assert Region(k.borrows[i].dst, k.borrows[i].size).Contains(gva, 1);
    }
  }

  /**
   In every state the memory SVCs can reach, the type QueryMemory reports tells what the page is:
   committed heap or lent-out heap, a mirror or plain stack, the bootstrap's code, TLS, or nothing.
   */
  lemma ClassifyIsTruth(c: Config, k: Kernel, gva: nat)
    requires Inv(c, k)
    ensures var v := Vpn(gva);
            var t := Classify(c.space, k.borrows, gva, v in k.flat);
            && (t == MemUnmapped <==> v !in k.flat)
            && (t == MemHeap <==> c.space.heap.Pages(v) && v in k.flat && k.flat[v].perms == PERM_RW)
            && (t == MemWeirdMapped <==> c.space.heap.Pages(v) && v in k.flat && k.flat[v].perms == PERM_NONE)
            && (t == MemMappedMemory <==> exists b, s :: b in k.borrows && Halves(b, s, v))
            && (t == MemCodeStatic <==> v in c.boot && c.space.code.Pages(v))
            && (t == MemNormal <==> v in c.boot && c.space.stack.Pages(v))
            && (t == MemThreadLocal <==> v in c.boot && c.space.tlsIo.Pages(v))
  {
    var v := Vpn(gva);
    LentByte(c, k, gva);
    RegionsApart(c, v);
    ContainsByte(c.space.code, gva);
    ContainsByte(c.space.heap, gva);
    ContainsByte(c.space.stack, gva);
    ContainsByte(c.space.tlsIo, gva);
    MirrorHasSource(c, k, v);
    BootMapped(c, k, v);
    hide FlatShape, BorrowsOk, AllocOk, InSrc, InDst, OverlapsSource, InMirror, Halves, Region.Contains,
         MemoryKernel.ConfigOk, Vpn;
    if v in k.flat {
      var o := OriginOf(c, k, v);
      if o.Boot? || o.Heap? {
        NoMirror(c, k, v);
      }
    }
  }

  lemma BootMapped(c: Config, k: Kernel, v: nat)
    requires Inv(c, k)
    ensures v in c.boot ==> v in k.flat
  {
    assert At(c, Vpn(k.heapSize), k.borrows, v, Lookup(k.flat, v));
  }

  lemma NoMirror(c: Config, k: Kernel, v: nat)
    requires Inv(c, k) && (v in c.boot || c.space.heap.Pages(v))
    ensures !InDst(k.borrows, v)
  {
    forall b | b in k.borrows
      ensures !b.HasDst(v)
    {
      assert BorrowOk(c, Vpn(k.heapSize), b);
    }
    if c.space.heap.Pages(v) {
      HeapPageAlone(c, Vpn(k.heapSize), k.borrows, v);
    }
  }

  lemma MirrorHasSource(c: Config, k: Kernel, v: nat)
    requires Inv(c, k)
    ensures InDst(k.borrows, v) <==> exists b, s :: b in k.borrows && Halves(b, s, v)
    ensures InDst(k.borrows, v) ==> v in k.flat && c.space.stack.Pages(v)
  {
    if InDst(k.borrows, v) {
      var b :| b in k.borrows && b.HasDst(v);
      assert Halves(b, v - Vpn(b.dst) + Vpn(b.src), v);
      MirrorMapped(c, k, b, v);
    }
  }

  // ----- MemoryInfo -----

  /** HLE_Memory_Info as it lies in guest memory: two 64-bit and six 32-bit little-endian fields. */
  function InfoBytes(addr: nat, size: nat, kind: MemoryType, perms: nat): (s: seq<Byte>)
    ensures |s| == INFO_BYTES
  {
    Le(addr, 8) + Le(size, 8) + Le(kind.Code(), 4) + Le(0, 4) + Le(perms, 4) + Le(0, 4) + Le(0, 4) + Le(0, 4)
  }

  const INFO_BYTES: nat := 40

  /** The guest reads back each field. */
  lemma InfoDecodes(addr: nat, size: nat, kind: MemoryType, perms: nat)
    requires addr <= ADDRESS_SPACE_SIZE && size <= ADDRESS_SPACE_SIZE && perms <= PERM_ALL
    ensures var s := InfoBytes(addr, size, kind, perms);
            && FromLe(s[0..8]) == addr && FromLe(s[8..16]) == size
            && FromLe(s[16..20]) == kind.Code() && FromLe(s[24..28]) == perms
  {
    var s := InfoBytes(addr, size, kind, perms);
    hide Le, FromLe;
    assert s[0..8] == Le(addr, 8) && s[8..16] == Le(size, 8);
    assert s[16..20] == Le(kind.Code(), 4) && s[24..28] == Le(perms, 4);
    WordBounds();
    LeReadsBack(addr, 8);
    LeReadsBack(size, 8);
    LeReadsBack(kind.Code(), 4);
    LeReadsBack(perms, 4);
  }

  lemma WordBounds()
    ensures Pow256(8) == TWO_TO_THE_64 && Pow256(4) == 0x1_0000_0000
  {
    assert Pow256(4) == 256 * Pow256(3) && Pow256(3) == 256 * Pow256(2) && Pow256(2) == 65536;
    assert Pow256(8) == 256 * Pow256(7) && Pow256(7) == 256 * Pow256(6);
    assert Pow256(6) == 256 * Pow256(5) && Pow256(5) == 256 * Pow256(4);
  }

  /** What QueryMemory says about an address: its maximal run, what it is, and its permissions. */
  function AnswerFor(flat: FlatMap, space: AddressSpace, borrows: seq<MemoryBorrow>, gva: nat): (s: seq<Byte>)
    requires gva < ADDRESS_SPACE_SIZE
    ensures |s| == INFO_BYTES
  {
    var v := Vpn(gva);
    var start := RunStart(flat, v);
    InfoBytes(start * PAGE_SIZE, (RunEnd(flat, v) - start) * PAGE_SIZE,
              Classify(space, borrows, gva, v in flat), if v in flat then flat[v].perms else PERM_NONE)
  }

  /** The Horizon type number n is the truth about a page. */
  ghost predicate TypeTells(c: Config, k: Kernel, v: nat, n: nat) {
    && (n == 0x00 <==> v !in k.flat)
    && (n == 0x05 <==> c.space.heap.Pages(v) && v in k.flat && k.flat[v].perms == 3)
    && (n == 0x07 <==> c.space.heap.Pages(v) && v in k.flat && k.flat[v].perms == 0)
    && (n == 0x0B <==> exists b, s :: b in k.borrows && Halves(b, s, v))
    && (n == 0x03 <==> v in c.boot && c.space.code.Pages(v))
    && (n == 0x02 <==> v in c.boot && c.space.stack.Pages(v))
    && (n == 0x0C <==> v in c.boot && c.space.tlsIo.Pages(v))
  }

  /**
   Forty bytes that tell the truth about an address: base and size of its maximal run, its type and
   permissions, and zero everywhere else.
   */
  ghost predicate Tells(c: Config, k: Kernel, gva: nat, s: seq<Byte>) {
    && |s| == 40
    && var addr, size := FromLe(s[0..8]), FromLe(s[8..16]);
       && addr % 4096 == 0 && size % 4096 == 0 && IsRun(k.flat, gva / 4096, addr / 4096, (addr + size) / 4096)
       && TypeTells(c, k, gva / 4096, FromLe(s[16..20]))
       && FromLe(s[24..28]) == (if gva / 4096 in k.flat then k.flat[gva / 4096].perms else 0)
       && FromLe(s[20..24]) == 0 && FromLe(s[28..32]) == 0 && FromLe(s[32..36]) == 0 && FromLe(s[36..40]) == 0
  }

  lemma TypeNumbers(c: Config, k: Kernel, gva: nat)
    requires Inv(c, k)
    ensures TypeTells(c, k, gva / 4096, Classify(c.space, k.borrows, gva, gva / 4096 in k.flat).Code())
  {
    ClassifyIsTruth(c, k, gva);
    hide Inv, Classify, Halves, Region.Pages;
  }

  lemma OtherWordsZero(addr: nat, size: nat, kind: MemoryType, perms: nat)
    ensures var s := InfoBytes(addr, size, kind, perms);
            FromLe(s[20..24]) == 0 && FromLe(s[28..32]) == 0 && FromLe(s[32..36]) == 0 && FromLe(s[36..40]) == 0
  {
    var s := InfoBytes(addr, size, kind, perms);
    hide Le, FromLe;
    assert s[20..24] == Le(0, 4) && s[28..32] == Le(0, 4) && s[32..36] == Le(0, 4) && s[36..40] == Le(0, 4);
    WordBounds();
    LeReadsBack(0, 4);
  }

  lemma MappedPerms(c: Config, k: Kernel, v: nat)
    requires Inv(c, k) && v in k.flat
    ensures k.flat[v].perms <= PERM_ALL
  {
    var o := OriginOf(c, k, v);
    hide AllocOk, BorrowsOk, FlatShape;
  }

  lemma RunOf(m: FlatMap, v: nat)
    requires v < TOTAL_PAGES
    ensures RunStart(m, v) <= v < RunEnd(m, v) <= TOTAL_PAGES && IsRun(m, v, RunStart(m, v), RunEnd(m, v))
  {
    RunIsUnique(m, v, RunStart(m, v), RunEnd(m, v));
    hide RunStart, RunEnd;
  }

  /** The answer is true in every state the memory SVCs can reach. */
  lemma AnswerTells(c: Config, k: Kernel, gva: nat)
    requires Inv(c, k) && gva < ADDRESS_SPACE_SIZE
    ensures Tells(c, k, gva, AnswerFor(k.flat, c.space, k.borrows, gva))
  {
    hide Inv, IsRun, RunStart, RunEnd, Classify, InfoBytes, TypeTells, FromLe;
    var v := gva / 4096;
    RunOf(k.flat, v);
    if v in k.flat {
      MappedPerms(c, k, v);
    }
    TypeNumbers(c, k, gva);
    var start, end := RunStart(k.flat, v), RunEnd(k.flat, v);
    var kind := Classify(c.space, k.borrows, gva, v in k.flat);
    var perms := if v in k.flat then k.flat[v].perms else PERM_NONE;
    InfoDecodes(start * PAGE_SIZE, (end - start) * PAGE_SIZE, kind, perms);
    OtherWordsZero(start * PAGE_SIZE, (end - start) * PAGE_SIZE, kind, perms);
  }

  // ----- Helpers of the handlers -----

  lemma FindBorrowIs(borrows: seq<MemoryBorrow>, b: MemoryBorrow, i: nat)
    requires i <= |borrows| && (i < |borrows| ==> borrows[i] == b)
    requires forall k :: 0 <= k < i ==> borrows[k] != b
    ensures FindBorrow(borrows, b) == i
  {
  }

  /** An unmapped run covers a range exactly when no page of the range is mapped. */
  lemma UnmappedRunCovers(m: FlatMap, gva: nat, size: nat, base: nat, length: nat)
    requires ValidPageRange(gva, size) && PageAligned(base) && PageAligned(length)
    requires IsRun(m, Vpn(gva), Vpn(base), Vpn(base) + Vpn(length))
    ensures Vpn(gva) !in m && Region(base, length).Contains(gva, size) <==> NoneMapped(m, Vpn(gva), Vpn(size))
  {
    VpnRange(gva, size, ADDRESS_SPACE_SIZE);
    var v, e := Vpn(gva), Vpn(base) + Vpn(length);
    assert Key(m, v) == 0 <==> v !in m;
    if v !in m && Region(base, length).Contains(gva, size) {
      forall w | v <= w < v + Vpn(size)
        ensures w !in m
      {
        assert Key(m, w) == Key(m, v);
      }
    }
    // A maximal hole ends at a mapped page or at the top of the space.
    assert Key(m, e) == 0 <==> e !in m;
  }

  /** The heap's backing is held: pages of the committed heap are distinct and handed out. */
  lemma HeapHeld(c: Config, k: Kernel, first: nat, count: nat, out: set<nat>)
    requires Inv(c, k) && Pages.Conserved(k.alloc, out)
    requires HeapFirst(c) <= first && first + count <= HeapFirst(c) + Vpn(k.heapSize)
    ensures BackingHeld(k.flat, first, count, out)
  {
    HeapPagesFit(c, k);
    forall v | first <= v < first + count && v in k.flat
      ensures k.flat[v].ppn == c.p0 + (v - HeapFirst(c)) && k.flat[v].ppn in out
    {
      assert At(c, Vpn(k.heapSize), k.borrows, v, Lookup(k.flat, v));
      assert c.space.heap.Pages(v);
      HeapPageAlone(c, Vpn(k.heapSize), k.borrows, v);
      assert !Pages.InRuns(k.alloc.runs, k.flat[v].ppn);
    }
  }

  // ----- The handlers -----

  /** Every byte of a page that is mapped now and was not before is zero. */
  ghost predicate FreshIsZero(before: FlatMap, after: FlatMap, ram: seq<Byte>) {
    forall v, a: nat ::
      v in after && v !in before && after[v].ppn * PAGE_SIZE <= a < (after[v].ppn + 1) * PAGE_SIZE && a < |ram| ==>
        ram[a] == 0
  }

  /** The context the handlers run in: page table, physical pages and the running process. */
  class MemoryService {
    const vmm: Vmm
    const pages: Pages.PageAllocator
    const process: Process

    ghost function Repr(): set<object> {
      {process} + vmm.Repr() + pages.Repr()
    }

    ghost predicate Apart() {
      vmm.Repr() !! pages.Repr() && process !in vmm.Repr() && process !in pages.Repr()
    }

    ghost function Config(): MemoryKernel.Config
      reads process
    {
      MemoryKernel.Config(process.space, vmm.ramSize, process.boot, process.p0)
    }

    ghost function Now(): Kernel
      requires pages.Shape()
      reads process, vmm, pages, pages.freeRuns
    {
      Kernel(vmm.flat, pages.Now(), process.heapSize, process.borrows)
    }

    /** Every part is valid, no borrow scope is open, and the state is one the SVCs can reach. */
    ghost predicate Valid()
      reads Repr()
    {
      Apart() && vmm.Valid() && !vmm.scopeOpen && pages.Valid() && Inv(Config(), Now())
    }

    lemma Parts()
      requires Valid()
      ensures Apart() && vmm.Valid() && !vmm.scopeOpen && pages.Valid() && pages.Shape() && Inv(Config(), Now())
      ensures ConfigOk(Config()) && process.heapSize <= process.space.heap.size && process.heapSize % HEAP_GRANULE == 0
      ensures process.space.heap.base + process.space.heap.size <= END && |process.borrows| <= MAX_HEAP_BORROWS
    {
    }

    constructor (vmm: Vmm, pages: Pages.PageAllocator, process: Process)
      requires vmm.Repr() !! pages.Repr() && process !in vmm.Repr() && process !in pages.Repr()
      requires vmm.Valid() && !vmm.scopeOpen && pages.Valid()
      requires Inv(MemoryKernel.Config(process.space, vmm.ramSize, process.boot, process.p0),
                   Kernel(vmm.flat, pages.Now(), process.heapSize, process.borrows))
      ensures Valid() && this.vmm == vmm && this.pages == pages && this.process == process
    {
      this.vmm, this.pages, this.process := vmm, pages, process;
    }

    /** hle_svc_set_heap_size; X1 is the heap base on success. */
    method SetHeapSize(requested: U64, commits: bool) returns (result: SvcResult, x1: nat)
      requires Valid()
      modifies process`heapSize, process`borrows, vmm.Repr(), pages.Repr()
      ensures Valid() && Config() == old(Config())
      ensures Done(Now(), result) == MemoryKernel.SetHeapSize(Config(), old(Now()), requested, commits)
      ensures x1 == if result == Success then process.space.heap.base else requested
      ensures BytesKept(old(vmm.flat), old(vmm.ram[..]), vmm.ram[..])
      ensures FreshIsZero(old(vmm.flat), vmm.flat, vmm.ram[..])
    {
      hide Inv, Vmm.Valid, Pages.PageAllocator.Valid, ConfigOk, Grow, Shrink;
      Parts();
      SetHeapSizeKeeps(Config(), Now(), requested, commits);
      x1 := requested;
      if requested % HEAP_GRANULE != 0 {
        return SvcInvalidSize, x1;
      }
      if requested > process.space.heap.size {
        return SvcInvalidMemoryRange, x1;
      }
      if requested > process.heapSize {
        result := GrowHeap(requested, commits);
        if result != Success {
          return;
        }
      } else if requested < process.heapSize {
        result := ShrinkHeap(requested);
        if result != Success {
          return;
        }
      }
      result, x1 := Success, process.space.heap.base;
    }

    method GrowHeap(requested: U64, commits: bool) returns (result: SvcResult)
      requires Valid() && requested % HEAP_GRANULE == 0 && process.heapSize < requested <= process.space.heap.size
      modifies process`heapSize, process`borrows, vmm.Repr(), pages.Repr()
      ensures Valid() && Config() == old(Config())
      ensures Done(Now(), result) == Grow(Config(), old(Now()), requested, commits)
      ensures BytesKept(old(vmm.flat), old(vmm.ram[..]), vmm.ram[..])
      ensures FreshIsZero(old(vmm.flat), vmm.flat, vmm.ram[..])
    {
      hide Inv, Vmm.Valid, Pages.PageAllocator.Valid, ConfigOk, Pages.Take, Pages.Return, MapError, Mapped,
           HostContiguous, BytesKept, FreshIsZero, RangePages, Vpn, Zeroed;
      Parts();
      ghost var c, k := Config(), Now();
      GrowKeeps(c, k, requested, commits);
      HeapRange(c, k.heapSize, requested);
      vmm.Idle();
      var heap := process.space.heap;
      var grow: U64 := requested - process.heapSize;
      var e, pa := pages.Allocate(Vpn(grow), commits);
      pages.HasShape();
      if e != Ok {
        Pages.TakeRefused(k.alloc, Vpn(grow), commits);
        BytesSame(k.flat, vmm.ram[..]);
        return SvcOutOfMemory;
      }
      PageVpn(Pages.Take(k.alloc, Vpn(grow), commits).page);
      e := vmm.Map(heap.base + process.heapSize, pa, grow, PERM_RW);
      if e != Ok {
        NotMapped(k.flat, vmm.ramSize, heap.base + process.heapSize, pa, grow, PERM_RW);
        var freed := pages.Free(pa, Vpn(grow));
        assert freed == Ok;
        pages.HasShape();
        BytesSame(k.flat, vmm.ram[..]);
        return SvcOutOfMemory;
      }
      ZeroRange(vmm, heap.base + process.heapSize, grow);
      process.heapSize := requested;
      GrownBytes(c, k, requested, commits, old(vmm.ram[..]), vmm.ram[..]);
      result := Success;
    }

    method ShrinkHeap(requested: U64) returns (result: SvcResult)
      requires Valid() && requested % HEAP_GRANULE == 0 && requested < process.heapSize
      modifies process`heapSize, process`borrows, vmm.Repr(), pages.Repr()
      ensures Valid() && Config() == old(Config())
      ensures Done(Now(), result) == Shrink(Config(), old(Now()), requested)
      ensures vmm.ram[..] == old(vmm.ram[..]) && BytesKept(old(vmm.flat), old(vmm.ram[..]), vmm.ram[..])
      ensures FreshIsZero(old(vmm.flat), vmm.flat, vmm.ram[..])
    {
      hide Inv, Vmm.Valid, Pages.PageAllocator.Valid, ConfigOk, FreeAndUnmap, BytesKept, FreshIsZero, BackingHeld,
           OverlapsSource, Vpn;
      Parts();
      ghost var c, k := Config(), Now();
      ShrinkKeeps(c, k, requested);
      HeapRange(c, requested, k.heapSize);
      var base := process.space.heap.base + requested;
      var size := process.heapSize - requested;
      ShrunkBytes(c, k, requested, vmm.ram[..]);
      var lent := BorrowOverlapsSource(base, size);
      if lent {
        return SvcInvalidMemoryState;
      }
      HeapIsHeld(requested);
      FreeAndUnmapHeapRange(vmm, pages, base, size, k);
      process.heapSize := requested;
      result := Success;
    }

    lemma HeapIsHeld(kept: nat)
      requires Valid() && kept % HEAP_GRANULE == 0 && kept < process.heapSize
      ensures BackingHeld(vmm.flat, Vpn(process.space.heap.base + kept), Vpn(process.heapSize - kept), pages.out)
    {
      hide Inv, BackingHeld, ConfigOk, Vmm.Valid, Vpn;
      Parts();
      HeapRange(Config(), kept, process.heapSize);
      HeapHeld(Config(), Now(), Vpn(process.space.heap.base + kept), Vpn(process.heapSize - kept), pages.out);
    }

    /** hle_svc_map_memory. */
    method MapMemory(dst: U64, src: U64, size: U64) returns (result: SvcResult)
      requires Valid()
      modifies process`heapSize, process`borrows, vmm.Repr(), pages.Repr()
      ensures Valid() && Config() == old(Config())
      ensures Done(Now(), result) == MemoryKernel.MapMemory(Config(), old(Now()), dst, src, size)
      ensures vmm.ram[..] == old(vmm.ram[..])
    {
      hide Inv, Vmm.Valid, Pages.PageAllocator.Valid, ConfigOk, Mirror, HostContiguous, IsRun, NoneMapped,
           Region.Contains, Vpn, Reprotected, ReprotectError, MapError, PageAligned, ValidPageRange;
      Parts();
      ghost var c, k := Config(), Now();
      MapMemoryKeeps(c, k, dst, src, size);
      if size == 0 || !PageAligned(size) || !PageAligned(dst) || !PageAligned(src) {
        return SvcInvalidSize;
      }
      if !process.space.stack.Contains(dst, size) || !process.space.heap.Contains(src, size) {
        return SvcInvalidMemoryRange;
      }
      if |process.borrows| >= MAX_HEAP_BORROWS {
        return SvcOutOfMemory;
      }
      StackRange(c, dst, size);
      var e, info := vmm.Query(dst);
      UnmappedRunCovers(vmm.flat, dst, size, info.baseGva, info.size);
      if e != Ok || info.isMapped || !Region(info.baseGva, info.size).Contains(dst, size) {
        return SvcInvalidMemoryState;
      }
      vmm.Idle();
      vmm.BorrowScopeBegin();
      var host;
      e, host := vmm.GuestToHost(src, size, PERM_R);
      vmm.BorrowScopeEnd();
      if e != Ok {
        return SvcInvalidMemoryState;
      }
      MirrorCalls(c, k, MemoryBorrow(dst, src, size));
      result := MirrorOnto(dst, src, size, host - vmm.ramBase);
    }

    lemma StackRange(c: MemoryKernel.Config, gva: nat, size: nat)
      requires ConfigOk(c) && c.space.stack.Contains(gva, size) && PageAligned(gva) && PageAligned(size) && size > 0
      ensures ValidPageRange(gva, size)
    {
      RegionRange(c, c.space.stack, gva, size);
    }

    /** The source is hidden, then mirrored; a refused mirror shows the source again. */
    method MirrorOnto(dst: U64, src: U64, size: U64, pa: U64) returns (result: SvcResult)
      requires Valid() && Vpn(src) in vmm.flat && pa == Pa(vmm.flat, src) && |process.borrows| < MAX_HEAP_BORROWS
      requires Mirror(Config(), Now(), dst, src, size).Done?
              && Inv(Config(), Mirror(Config(), Now(), dst, src, size).kernel)
      requires var hidden := Reprotected(vmm.flat, src, size, PERM_NONE);
               MapError(hidden, vmm.ramSize, dst, pa, size, PERM_RW) in {Ok, OutOfMemory}
      modifies process`heapSize, process`borrows, vmm.Repr(), pages.Repr()
      ensures Valid() && Config() == old(Config())
      ensures Done(Now(), result) == Mirror(Config(), old(Now()), dst, src, size)
      ensures vmm.ram[..] == old(vmm.ram[..])
    {
      hide Inv, Vmm.Valid, Pages.PageAllocator.Valid, MapError, ReprotectError, Reprotected, Mapped;
      Parts();
      vmm.Idle();
      var e := vmm.Reprotect(src, size, PERM_NONE);
      assert e == Ok;
      vmm.Idle();
      ghost var hidden := vmm.flat;
      e := vmm.Map(dst, pa, size, PERM_RW);
      vmm.Idle();
      if e != Ok {
        NotMapped(hidden, vmm.ramSize, dst, pa, size, PERM_RW);
        var undo := vmm.Reprotect(src, size, PERM_RW);
        assert undo == Ok;
        return SvcOutOfMemory;
      }
      process.borrows := process.borrows + [MemoryBorrow(dst, src, size)];
      result := Success;
    }

    /** hle_svc_unmap_memory: only an exact recorded triple. */
    method UnmapMemory(dst: U64, src: U64, size: U64) returns (result: SvcResult)
      requires Valid()
      modifies process`heapSize, process`borrows, vmm.Repr(), pages.Repr()
      ensures Valid() && Config() == old(Config())
      ensures Done(Now(), result) == MemoryKernel.UnmapMemory(old(Now()), dst, src, size)
      ensures vmm.ram[..] == old(vmm.ram[..])
    {
      hide Inv, Vmm.Valid, Pages.PageAllocator.Valid, MappedRangeError, ReprotectError, Reprotected, Unmapped;
      Parts();
      UnmapMemoryKeeps(Config(), Now(), dst, src, size);
      ghost var b := MemoryBorrow(dst, src, size);
      var index := 0;
      while index < |process.borrows|
        invariant index <= |process.borrows|
        invariant forall k :: 0 <= k < index ==> process.borrows[k] != b
      {
        if process.borrows[index].dst == dst && process.borrows[index].src == src
            && process.borrows[index].size == size {
          break;
        }
        index := index + 1;
      }
      FindBorrowIs(process.borrows, b, index);
      if index == |process.borrows| {
        return SvcInvalidMemoryState;
      }
      vmm.Idle();
      var e := vmm.Unmap(dst, size);
      assert e == Ok;
      vmm.Idle();
      e := vmm.Reprotect(src, size, PERM_RW);
      assert e == Ok;
      process.borrows := SwapRemove(process.borrows, index);
      result := Success;
    }

    /** classify_type. */
    method ClassifyType(gva: nat, isMapped: bool) returns (kind: MemoryType)
      ensures kind == Classify(process.space, process.borrows, gva, isMapped)
    {
      hide OverlapsSource, InMirror;
      if !isMapped {
        return MemUnmapped;
      }
      if process.space.code.Contains(gva, 1) {
        return MemCodeStatic;
      }
      if process.space.heap.Contains(gva, 1) {
        var lent := BorrowOverlapsSource(gva, 1);
        return if lent then MemWeirdMapped else MemHeap;
      }
      if process.space.stack.Contains(gva, 1) {
        var mirror := FindBorrowByDst(gva);
        return if mirror then MemMappedMemory else MemNormal;
      }
      kind := if process.space.tlsIo.Contains(gva, 1) then MemThreadLocal else MemUnmapped;
    }

    /** find_borrow_by_dst. */
    method FindBorrowByDst(gva: nat) returns (found: bool)
      ensures found == InMirror(process.borrows, gva)
    {
      for i := 0 to |process.borrows|
        invariant forall j :: 0 <= j < i ==> !Region(process.borrows[j].dst, process.borrows[j].size).Contains(gva, 1)
      {
        if Region(process.borrows[i].dst, process.borrows[i].size).Contains(gva, 1) {
          return true;
        }
      }
      found := false;
    }

    /**
     hle_svc_query_memory: all forty bytes or none, and nothing but the guest's buffer changes; page info is always 0.
     */
    method QueryMemory(outGva: U64, queryAddr: U64) returns (result: SvcResult, x1: nat)
      requires Valid()
      modifies process`heapSize, process`borrows, vmm.Repr(), pages.Repr()
      ensures Valid() && Config() == old(Config()) && Now() == old(Now())
      ensures result == if queryAddr >= ADDRESS_SPACE_SIZE then SvcInvalidMemoryRange
                        else if Accessible(vmm.flat, outGva, INFO_BYTES, PERM_W) then Success else SvcInvalidPointer
      ensures result == Success ==> x1 == 0
      ensures result == Success ==> Backed(vmm.flat, outGva, INFO_BYTES, vmm.ram.Length)
      ensures result == Success ==>
                vmm.ram[..] == Stored(vmm.flat, old(vmm.ram[..]), outGva,
                                      AnswerFor(vmm.flat, process.space, process.borrows, queryAddr))
      // What the guest then loads from its buffer is the truth about the address.
      ensures result == Success ==> Tells(Config(), Now(), queryAddr, Loaded(vmm.flat, vmm.ram[..], outGva, INFO_BYTES))
      ensures result != Success ==> vmm.ram[..] == old(vmm.ram[..])
    {
      hide Inv, Vmm.Valid, Pages.PageAllocator.Valid, IsRun, RunStart, RunEnd, Classify, InfoBytes, Accessible,
           Backed, Stored, Loaded, Tells;
      Parts();
      x1 := 0;
      var e, info := vmm.Query(queryAddr);
      if e != Ok {
        return SvcInvalidMemoryRange, x1;
      }
      var v := Vpn(queryAddr);
      RunIsUnique(vmm.flat, v, Vpn(info.baseGva), Vpn(info.baseGva) + Vpn(info.size));
      var kind := ClassifyType(queryAddr, info.isMapped);
      var out := InfoBytes(info.baseGva, info.size, kind, info.perms);
      assert out == AnswerFor(vmm.flat, process.space, process.borrows, queryAddr);
      var wrote := vmm.WriteBlock(outGva, out);
      if wrote != Ok {
        return SvcInvalidPointer, x1;
      }
      GuestStoreReadsBack(Config(), Now(), old(vmm.ram[..]), outGva, out);
      AnswerTells(Config(), Now(), queryAddr);
      result := Success;
    }

    /** borrow_overlaps_src. */
    method BorrowOverlapsSource(base: nat, size: nat) returns (overlaps: bool)
      ensures overlaps == OverlapsSource(process.borrows, base, size)
    {
      for i := 0 to |process.borrows|
        invariant forall j :: 0 <= j < i ==> !RangesOverlap(base, size, process.borrows[j].src, process.borrows[j].size)
      {
        var b := process.borrows[i];
        if RangesOverlap(base, size, b.src, b.size) {
          return true;
        }
      }
      overlaps := false;
    }
  }

  lemma BytesSame(flat: FlatMap, ram: seq<Byte>)
    ensures BytesKept(flat, ram, ram) && FreshIsZero(flat, flat, ram)
  {
  }

  /** The grown range is zero and lies above everything that was mapped. */
  lemma GrownBytes(c: Config, k: Kernel, requested: nat, commits: bool, was: seq<Byte>, ram: seq<Byte>)
    requires Inv(c, k) && requested % HEAP_GRANULE == 0 && k.heapSize < requested <= c.space.heap.size
    requires var o := Grow(c, k, requested, commits);
             o.Done? && o.result == Success
             && Zeroed(o.kernel.flat, was, ram, c.space.heap.base + k.heapSize, requested - k.heapSize)
    ensures BytesKept(k.flat, was, ram)
    ensures FreshIsZero(k.flat, Grow(c, k, requested, commits).kernel.flat, ram)
  {
    hide Grow, Inv, MapError, Mapped, MapRange, Pages.Take, Vpn, Splice, BytesKept, FreshIsZero, ConfigOk;
    var more := Vpn(requested - k.heapSize);
    HeapAligned(c, k, requested);
    GrownFlat(c, k, requested, commits);
    BackedBelowCursor(c, k);
    var first, ppn := HeapFirst(c) + Vpn(k.heapSize), k.alloc.Cursor();
    var flat := MapRange(k.flat, first, ppn, more, PERM_RW);
    MapRangeAt(k.flat, first, ppn, more, PERM_RW, first);
    PageVpn(first);
    assert Pa(flat, c.space.heap.base + k.heapSize) == ppn * PAGE_SIZE;
    SpliceZeros(was, ppn * PAGE_SIZE, requested - k.heapSize);
    forall v | v in flat && v !in k.flat
      ensures ppn <= flat[v].ppn < ppn + more
    {
      MapRangeAt(k.flat, first, ppn, more, PERM_RW, v);
    }
    ZeroedAbove(k.flat, flat, was, ram, ppn, more);
  }

  /** The range a grow adds, in pages. */
  lemma HeapAligned(c: Config, k: Kernel, requested: nat)
    requires Inv(c, k) && requested % HEAP_GRANULE == 0 && k.heapSize < requested <= c.space.heap.size
    ensures var first, more := HeapFirst(c) + Vpn(k.heapSize), Vpn(requested - k.heapSize);
            first * PAGE_SIZE == c.space.heap.base + k.heapSize && more * PAGE_SIZE == requested - k.heapSize
                && more > 0
  {
    HeapRange(c, k.heapSize, requested);
    assert RegionOk(c.space.heap);
    hide Inv, ConfigOk;
    RegionPages(c.space.heap);
  }

  lemma GrownFlat(c: Config, k: Kernel, requested: nat, commits: bool)
    requires Inv(c, k) && requested % HEAP_GRANULE == 0 && k.heapSize < requested <= c.space.heap.size
    requires Grow(c, k, requested, commits).Done? && Grow(c, k, requested, commits).result == Success
    ensures Grow(c, k, requested, commits).kernel.flat ==
            MapRange(k.flat, HeapFirst(c) + Vpn(k.heapSize), k.alloc.Cursor(), Vpn(requested - k.heapSize), PERM_RW)
  {
    hide ConfigOk, FlatShape, BorrowsOk, MapError, Mapped, MapRange, Pages.Take, Pages.Return, HostContiguous;
    HeapRange(c, k.heapSize, requested);
    BumpOnly(k.alloc, Vpn(requested - k.heapSize), commits);
    if MapError(k.flat, c.ramSize, c.space.heap.base + k.heapSize, k.alloc.Cursor() * PAGE_SIZE,
                requested - k.heapSize, PERM_RW) == Ok {
      GrowMapped(c, k, requested);
    }
  }

  lemma SpliceZeros(was: seq<Byte>, at: nat, n: nat)
    requires at + n <= |was|
    ensures forall a: nat :: a < |was| ==> Splice(was, at, Zeros(n))[a] == if at <= a < at + n then 0 else was[a]
  {
  }

  lemma ZeroedAbove(before: FlatMap, after: FlatMap, was: seq<Byte>, ram: seq<Byte>, ppn: nat, more: nat)
    requires |ram| == |was|
    requires forall a: nat :: a < |ram| ==>
               ram[a] == if ppn * PAGE_SIZE <= a < ppn * PAGE_SIZE + more * PAGE_SIZE then 0 else was[a]
    requires forall v :: v in before ==> before[v].ppn < ppn
    requires forall v :: v in after && v !in before ==> ppn <= after[v].ppn < ppn + more
    ensures BytesKept(before, was, ram) && FreshIsZero(before, after, ram)
  {
  }

  lemma ShrunkBytes(c: Config, k: Kernel, requested: nat, ram: seq<Byte>)
    requires Inv(c, k) && requested % HEAP_GRANULE == 0 && requested < k.heapSize
    ensures BytesKept(k.flat, ram, ram)
    ensures Shrink(c, k, requested).Done? ==> FreshIsZero(k.flat, Shrink(c, k, requested).kernel.flat, ram)
  {
    hide Inv, HostContiguous, FreePageByPage, Pages.Return, OverlapsSource;
  }
}

/** Guest thread-local-storage blocks (core/hle/kernel/tls.c): eight 0x200-byte blocks per mapped page. */
module TlsAllocators {
  import opened Results
  import opened Geometry
  import opened FlatMaps
  import opened PageTables
  import opened GuestMemory
  import opened AddressSpaces
  import opened Bits
  import opened Vmms
  import opened FreshMapping
  import Pages = PageAllocators

  const BLOCK_BYTES: nat := 0x200
  const BLOCKS_PER_PAGE: nat := 8
  const MAX_PAGES: nat := 64
  const FULL_MASK: nat := 255

  datatype TlsPage = TlsPage(gva: nat, usedMask: nat)

  // ----- The set of allocated blocks, numbered from the region base -----

  /** The number of the block at an address. */
  function BlockNumber(region: Region, gva: nat): nat {
    if gva >= region.base then (gva - region.base) / BLOCK_BYTES else 0
  }

  predicate IsBlock(region: Region, gva: nat, k: nat) {
    gva == region.base + BLOCK_BYTES * k
  }

  predicate MaskOk(mask: nat) {
    mask < 256
  }

  ghost function Used(masks: seq<nat>): set<nat> {
    set k | 0 <= k < |masks| * BLOCKS_PER_PAGE && TestBit(masks[k / BLOCKS_PER_PAGE], k % BLOCKS_PER_PAGE)
  }

  ghost predicate IsUsed(masks: seq<nat>, k: nat) {
    k < |masks| * BLOCKS_PER_PAGE && TestBit(masks[k / BLOCKS_PER_PAGE], k % BLOCKS_PER_PAGE)
  }

  lemma UsedMeans(masks: seq<nat>, k: nat)
    ensures k in Used(masks) <==> IsUsed(masks, k)
  {
  }

  lemma BlockIndex(page: nat, block: nat)
    requires block < BLOCKS_PER_PAGE
    ensures (page * BLOCKS_PER_PAGE + block) / BLOCKS_PER_PAGE == page
    ensures (page * BLOCKS_PER_PAGE + block) % BLOCKS_PER_PAGE == block
  {
  }

  /** Setting a mask bit allocates exactly that block. */
  lemma AllocateUsed(masks: seq<nat>, page: nat, block: nat)
    requires page < |masks| && block < BLOCKS_PER_PAGE && !TestBit(masks[page], block)
    ensures var k := page * BLOCKS_PER_PAGE + block;
            Used(masks[page := SetBit(masks[page], block)]) == Used(masks) + {k} && k !in Used(masks)
  {
    var k := page * BLOCKS_PER_PAGE + block;
    BlockIndex(page, block);
    var masks' := masks[page := SetBit(masks[page], block)];
    forall j: nat
      ensures IsUsed(masks', j) <==> IsUsed(masks, j) || j == k
    {
      TestSet(masks[page], block, j % BLOCKS_PER_PAGE);
    }
    SameUsed(masks', masks, k);
  }

  lemma SameUsed(masks': seq<nat>, masks: seq<nat>, k: nat)
    requires forall j: nat :: IsUsed(masks', j) <==> IsUsed(masks, j) || j == k
    ensures Used(masks') == Used(masks) + {k}
  {
    forall j: nat
      ensures j in Used(masks') <==> j in Used(masks) + {k}
    {
      UsedMeans(masks', j);
      UsedMeans(masks, j);
    }
  }

  lemma FreeUsed(masks: seq<nat>, page: nat, block: nat)
    requires page < |masks| && block < BLOCKS_PER_PAGE && TestBit(masks[page], block)
    ensures var k := page * BLOCKS_PER_PAGE + block;
            Used(masks[page := ClearBit(masks[page], block)]) == Used(masks) - {k} && k in Used(masks)
  {
    var k := page * BLOCKS_PER_PAGE + block;
    BlockIndex(page, block);
    var masks' := masks[page := ClearBit(masks[page], block)];
    forall j: nat
      ensures IsUsed(masks, j) <==> IsUsed(masks', j) || j == k
      ensures j == k ==> !IsUsed(masks', j)
    {
      TestClear(masks[page], block, j % BLOCKS_PER_PAGE);
    }
    SameUsed(masks, masks', k);
    UsedMeans(masks', k);
  }

  /** A freshly mapped page has no block in use. */
  lemma FreshPageUsed(masks: seq<nat>)
    ensures Used(masks + [0]) == Used(masks)
  {
    forall j: nat
      ensures j in Used(masks + [0]) <==> j in Used(masks)
    {
      UsedMeans(masks + [0], j);
      UsedMeans(masks, j);
      TestZero(j % BLOCKS_PER_PAGE);
    }
  }

  /** k is the least block not in use. */
  ghost predicate IsLeastFree(used: set<nat>, k: nat) {
    k !in used && forall j :: 0 <= j < k ==> j in used
  }

  /** The lowest free block of the lowest page with one is the least free block. */
  lemma LowestIsLeast(masks: seq<nat>, page: nat, block: nat)
    requires page <= |masks| && block < BLOCKS_PER_PAGE && (page == |masks| ==> block == 0)
    requires forall p :: 0 <= p < page ==> masks[p] == FULL_MASK
    requires page < |masks| ==> !TestBit(masks[page], block) && forall b :: 0 <= b < block ==> TestBit(masks[page], b)
    ensures IsLeastFree(Used(masks), page * BLOCKS_PER_PAGE + block)
  {
    var k := page * BLOCKS_PER_PAGE + block;
    BlockIndex(page, block);
    UsedMeans(masks, k);
    forall j | 0 <= j < k
      ensures j in Used(masks)
    {
      UsedMeans(masks, j);
      var p, b := j / BLOCKS_PER_PAGE, j % BLOCKS_PER_PAGE;
      if p < page {
        FullMaskBit(b);
      }
      assert TestBit(masks[p], b);
    }
  }

  lemma FullMaskBit(b: nat)
    requires b < BLOCKS_PER_PAGE
    ensures TestBit(FULL_MASK, b)
  {
    assert Pow2(8) == 256;
    OnesSet(8, b);
  }

  /** A mask that is not full has a clear bit. */
  lemma NotFullMask(mask: nat)
    requires MaskOk(mask) && mask != FULL_MASK
    ensures exists b :: 0 <= b < BLOCKS_PER_PAGE && !TestBit(mask, b)
  {
    assert Pow2(8) == 256;
    if forall b :: 0 <= b < BLOCKS_PER_PAGE ==> TestBit(mask, b) {
      OnlyOnes(mask, 8);
    }
  }

  lemma BlockInPage(base: nat, page: nat, gva: nat)
    requires PageAligned(base) && gva % BLOCK_BYTES == 0
            && base + page * PAGE_SIZE <= gva < base + (page + 1) * PAGE_SIZE
    ensures var block := (gva - (base + page * PAGE_SIZE)) / BLOCK_BYTES;
            block < BLOCKS_PER_PAGE && gva == base + BLOCK_BYTES * (page * BLOCKS_PER_PAGE + block)
  {
    var start := base + page * PAGE_SIZE;
    assert base == 8 * (base / PAGE_SIZE) * BLOCK_BYTES;
    assert start == (8 * (base / PAGE_SIZE) + 8 * page) * BLOCK_BYTES;
    WholeBlocks(gva - start, gva / BLOCK_BYTES, 8 * (base / PAGE_SIZE) + 8 * page);
  }

  lemma WholeBlocks(rest: nat, a: nat, b: nat)
    requires rest == a * BLOCK_BYTES - b * BLOCK_BYTES && rest < PAGE_SIZE
    ensures rest / BLOCK_BYTES * BLOCK_BYTES == rest && rest / BLOCK_BYTES < BLOCKS_PER_PAGE
  {
  }

  // ----- The allocator -----

  class TlsAllocator {
    const vmm: Vmm
    const pages: Pages.PageAllocator
    const region: Region
    const mapped: array<TlsPage>
    var pageCount: nat
    var blocksInUse: nat

    ghost function Masks(): seq<nat>
      requires pageCount <= mapped.Length
      reads this, mapped
    {
      seq(pageCount, (p: nat) requires p < mapped.Length reads mapped => mapped[p].usedMask)
    }

    /** The allocated blocks: block k lives at region.base + 0x200 * k. */
    ghost function InUse(): set<nat>
      requires pageCount <= mapped.Length
      reads this, mapped
    {
      Used(Masks())
    }

    ghost function Repr(): set<object> {
      {this, mapped}
    }

    ghost predicate Apart() {
      Repr() !! vmm.Repr() && Repr() !! pages.Repr() && vmm.Repr() !! pages.Repr()
    }

    ghost predicate Shape()
      reads this, mapped
    {
      && Apart()
      && mapped.Length == MAX_PAGES && pageCount <= MAX_PAGES
      && RegionOk(region) && pageCount * PAGE_SIZE <= region.size
      && (forall p :: 0 <= p < pageCount ==>
            mapped[p].gva == region.base + p * PAGE_SIZE && MaskOk(mapped[p].usedMask))
      && blocksInUse == |InUse()|
    }

    /** Every page of the allocator is mapped RW. */
    ghost predicate PagesMapped(m: FlatMap)
      reads this
    {
      forall v :: Vpn(region.base) <= v < Vpn(region.base) + pageCount ==> v in m && m[v].perms == PERM_RW
    }

    ghost predicate Valid()
      reads this, mapped, vmm.Repr(), pages.Repr()
    {
      Shape() && vmm.Valid() && !vmm.scopeOpen && pages.Valid() && PagesMapped(vmm.flat)
    }

    /** tls_allocator_init. */
    constructor (vmm: Vmm, pages: Pages.PageAllocator, region: Region)
      requires vmm.Valid() && !vmm.scopeOpen && pages.Valid() && vmm.Repr() !! pages.Repr() && RegionOk(region)
      ensures Valid() && pageCount == 0 && InUse() == {}
      ensures this.vmm == vmm && this.pages == pages && this.region == region && fresh(mapped)
    {
      this.vmm, this.pages, this.region := vmm, pages, region;
      mapped := new TlsPage[MAX_PAGES](_ => TlsPage(0, 0));
      pageCount, blocksInUse := 0, 0;
    }

    lemma HasShape()
      requires Valid()
      ensures Shape()
    {
    }

    /** Without pages there are no blocks. */
    lemma NoPagesNothingUsed()
      requires Valid()
      ensures pageCount <= mapped.Length && (pageCount == 0 ==> InUse() == {})
    {
    }

    /** Every block of the mapped pages is in use. */
    ghost predicate AllTaken(used: set<nat>, count: nat) {
      forall k: nat :: k < count * BLOCKS_PER_PAGE ==> k in used
    }

    /** There are at most 512 blocks, and all of them lie in the region. */
    lemma Capacity(k: nat)
      requires Shape() && k in InUse()
      ensures k < MAX_PAGES * BLOCKS_PER_PAGE
      ensures region.base + BLOCK_BYTES * (k + 1) <= region.base + region.size
    {
      UsedMeans(Masks(), k);
      var page := k / BLOCKS_PER_PAGE;
      assert (page + 1) * PAGE_SIZE <= pageCount * PAGE_SIZE;
    }

    /** pick_block: the lowest free block of the lowest page that has one; page == pageCount when all are full. */
    method PickBlock() returns (page: nat, block: nat)
      requires Shape()
      ensures page <= pageCount && block < BLOCKS_PER_PAGE
      ensures IsLeastFree(InUse(), page * BLOCKS_PER_PAGE + block)
      ensures page < pageCount ==> !TestBit(mapped[page].usedMask, block)
      ensures page == pageCount ==> block == 0
      ensures page == pageCount <==> AllTaken(InUse(), pageCount)
    {
      for p := 0 to pageCount
        invariant forall q :: 0 <= q < p ==> mapped[q].usedMask == FULL_MASK
      {
        var used := mapped[p].usedMask;
        if used == FULL_MASK {
          continue;
        }
        NotFullMask(used);
        for b := 0 to BLOCKS_PER_PAGE
          invariant forall i :: 0 <= i < b ==> TestBit(used, i)
        {
          if !TestBit(used, b) {
            LowestIsLeast(Masks(), p, b);
            return p, b;
          }
        }
        assert false;
      }
      LowestIsLeast(Masks(), pageCount, 0);
      page, block := pageCount, 0;
    }

    /** A block in use lies in one of the mapped pages. */
    lemma UsedPage(gva: nat, k: nat) returns (q: nat)
      requires Shape() && IsBlock(region, gva, k) && k in InUse()
      ensures q < pageCount && mapped[q].gva <= gva < mapped[q].gva + PAGE_SIZE
    {
      UsedMeans(Masks(), k);
      q := k / BLOCKS_PER_PAGE;
    }

    /** locate_block: the mapped page and block whose base is `gva`. */
    method LocateBlock(gva: U64) returns (found: bool, page: nat, block: nat)
      requires Shape()
      ensures found ==> page < pageCount && block < BLOCKS_PER_PAGE
      ensures found ==> IsBlock(region, gva, page * BLOCKS_PER_PAGE + block)
      ensures !found ==> forall k: nat :: IsBlock(region, gva, k) ==> k !in InUse()
    {
      hide Used;
      page, block := 0, 0;
      if gva % BLOCK_BYTES != 0 {
        return false, 0, 0;
      }
      for p := 0 to pageCount
        invariant forall q :: 0 <= q < p ==> !(mapped[q].gva <= gva < mapped[q].gva + PAGE_SIZE)
      {
        var pageGva := mapped[p].gva;
        if gva >= pageGva && gva - pageGva < PAGE_SIZE {
          BlockInPage(region.base, p, gva);
          return true, p, (gva - pageGva) / BLOCK_BYTES;
        }
      }
      forall k: nat | IsBlock(region, gva, k)
        ensures k !in InUse()
      {
        if k in InUse() {
          var q := UsedPage(gva, k);
        }
      }
      found := false;
    }

    /** A block of a mapped page is one host run. */
    lemma BlockContiguous(page: nat, block: nat)
      requires Shape() && PagesMapped(vmm.flat) && page < pageCount && block < BLOCKS_PER_PAGE
      ensures HostContiguous(vmm.flat, mapped[page].gva + block * BLOCK_BYTES, BLOCK_BYTES, PERM_RW)
    {
      hide HostContiguous, InUse;
      var gva := mapped[page].gva + block * BLOCK_BYTES;
      var v := Vpn(region.base) + page;
      assert Vpn(gva) == v && PageOffset(gva) + BLOCK_BYTES <= PAGE_SIZE;
      assert v in vmm.flat;
      InPageContiguous(vmm.flat, gva, BLOCK_BYTES, PERM_RW);
    }

    /** Why a page cannot be added: the page table of the allocator or its region is full, or mapping fails. */
    function NewPageError(m: FlatMap, count: nat, t: Pages.Taken): Error {
      if count >= MAX_PAGES || !region.Contains(region.base + count * PAGE_SIZE, PAGE_SIZE) then OutOfMemory
      else MapFreshError(m, vmm.ramSize, region.base + count * PAGE_SIZE, PAGE_SIZE, t)
    }

    /** Blocks of 0x200 bytes, eight to a page, at most 64 pages inside the region, each needing a page of RAM. */
    lemma NewPageMeans(m: FlatMap, used: set<nat>, count: nat, t: Pages.Taken)
      ensures AllTaken(used, count) <==> forall k: nat :: k < 8 * count ==> k in used
      ensures NewPageError(m, count, t) == Ok <==>
                && count < 64 && 4096 * (count + 1) <= region.size && t.error == Ok
                && MapError(m, vmm.ramSize, region.base + 4096 * count, 4096 * t.page, 4096, 3) == Ok
      ensures forall gva: nat, k: nat :: IsBlock(region, gva, k) <==> gva == region.base + 0x200 * k
      ensures forall gva: nat, k: nat :: IsBlock(region, gva, k) ==> BlockNumber(region, gva) == k
    {
      hide MapError;
    }

    /** map_new_page; the physical page taken is not given back when mapping it fails. */
    method MapNewPage(commits: bool) returns (e: Error)
      requires Valid()
      modifies `pageCount, mapped, vmm.Repr(), pages.Repr()
      ensures Valid() && blocksInUse == old(blocksInUse)
      ensures e == Ok ==> pageCount == old(pageCount) + 1 && Masks() == old(Masks()) + [0]
      ensures e == Ok ==> Added(old(vmm.flat), vmm.flat, Vpn(region.base) + old(pageCount), 1,
              Pages.Take(old(pages.Now()), 1, commits))
      ensures e == Ok ==> pages.Now() == Pages.Take(old(pages.Now()), 1, commits).state
      ensures e == Ok ==> Pages.Take(old(pages.Now()), 1, commits).error == Ok
      ensures e == NewPageError(old(vmm.flat), old(pageCount), Pages.Take(old(pages.Now()), 1, commits))
      ensures e != Ok ==> pageCount == old(pageCount) && Masks() == old(Masks()) && vmm.flat == old(vmm.flat)
      ensures e != Ok ==> pages.Now() in {old(pages.Now()), Pages.Take(old(pages.Now()), 1, commits).state}
      ensures vmm.ram[..] == old(vmm.ram[..])
    {
      hide Vmm.Valid, Pages.PageAllocator.Valid, Pages.Take, MapRange, MapFreshError, Used, TestBit;
      if pageCount >= MAX_PAGES {
        return OutOfMemory;
      }
      var gva := region.base + pageCount * PAGE_SIZE;
      if !region.Contains(gva, PAGE_SIZE) {
        return OutOfMemory;
      }
      assert Vpn(PAGE_SIZE) == 1 && Vpn(gva) == Vpn(region.base) + pageCount;
      ghost var m := vmm.flat;
      pages.HasShape();
      ghost var t := Pages.Take(pages.Now(), 1, commits);
      e := MapFresh(vmm, pages, gva, PAGE_SIZE, commits);
      if e != Ok {
        return;
      }
      MapRangeKeeps(m, Vpn(gva), t.page, 1, PERM_RW);
      MapRangeAt(m, Vpn(gva), t.page, 1, PERM_RW, Vpn(gva));
      ghost var masks := Masks();
      mapped[pageCount] := TlsPage(gva, 0);
      pageCount := pageCount + 1;
      assert Masks() == masks + [0];
      FreshPageUsed(masks);
    }

    /** tls_allocate: the least free block, zeroed. */
    method Allocate(commits: bool) returns (e: Error, gva: nat)
      requires Valid()
      modifies this, mapped, vmm.Repr(), pages.Repr()
      ensures Valid()
      ensures e == Ok ==> IsBlock(region, gva, BlockNumber(region, gva))
      ensures e == Ok ==> IsLeastFree(old(InUse()), BlockNumber(region, gva))
      ensures e == Ok ==> InUse() == old(InUse()) + {BlockNumber(region, gva)}
      ensures e == Ok ==> HostContiguous(vmm.flat, gva, BLOCK_BYTES, PERM_RW)
      ensures e == Ok ==> Zeroed(vmm.flat, old(vmm.ram[..]), vmm.ram[..], gva, BLOCK_BYTES)
      ensures e != Ok ==> InUse() == old(InUse()) && vmm.flat == old(vmm.flat) && vmm.ram[..] == old(vmm.ram[..])
      ensures pageCount == old(pageCount) || (e == Ok && pageCount == old(pageCount) + 1)
      ensures pageCount == old(pageCount) ==> vmm.flat == old(vmm.flat)
      ensures pageCount == old(pageCount) && e == Ok ==> pages.Now() == old(pages.Now())
      ensures pageCount != old(pageCount) ==>
                Added(old(vmm.flat), vmm.flat, Vpn(region.base) + old(pageCount), 1,
                      Pages.Take(old(pages.Now()), 1, commits))
      ensures pageCount != old(pageCount) ==> pages.Now() == Pages.Take(old(pages.Now()), 1, commits).state
      ensures pageCount != old(pageCount) ==> Pages.Take(old(pages.Now()), 1, commits).error == Ok
      ensures e != Ok <==> AllTaken(old(InUse()), old(pageCount))
                           && NewPageError(old(vmm.flat), old(pageCount),
                                           Pages.Take(old(pages.Now()), 1, commits)) != Ok
    {
      hide Vmm.Valid, Pages.PageAllocator.Valid, Pages.Take, Used, HostContiguous, MapRange, Added, Zeroed,
           IsLeastFree, TestBit;
      var page, block;
      e, page, block := PickOrMap(commits);
      if e != Ok {
        return e, 0;
      }
      gva := mapped[page].gva + block * BLOCK_BYTES;
      BlockContiguous(page, block);
      ZeroRange(vmm, gva, BLOCK_BYTES);
      MarkUsed(page, block);
      assert BlockNumber(region, gva) == page * BLOCKS_PER_PAGE + block;
    }

    /** A free block to hand out, on a fresh page when every mapped page is full. */
    method PickOrMap(commits: bool) returns (e: Error, page: nat, block: nat)
      requires Valid()
      modifies `pageCount, mapped, vmm.Repr(), pages.Repr()
      ensures Valid() && InUse() == old(InUse()) && vmm.ram[..] == old(vmm.ram[..])
      ensures e == Ok ==> page < pageCount && block < BLOCKS_PER_PAGE && !TestBit(mapped[page].usedMask, block)
      ensures e == Ok ==> IsLeastFree(old(InUse()), page * BLOCKS_PER_PAGE + block)
      ensures pageCount == old(pageCount) || (e == Ok && pageCount == old(pageCount) + 1)
      ensures pageCount == old(pageCount) ==> vmm.flat == old(vmm.flat)
      ensures pageCount == old(pageCount) && e == Ok ==> pages.Now() == old(pages.Now())
      ensures pageCount != old(pageCount) ==>
                Added(old(vmm.flat), vmm.flat, Vpn(region.base) + old(pageCount), 1,
                      Pages.Take(old(pages.Now()), 1, commits))
      ensures pageCount != old(pageCount) ==> pages.Now() == Pages.Take(old(pages.Now()), 1, commits).state
      ensures pageCount != old(pageCount) ==> Pages.Take(old(pages.Now()), 1, commits).error == Ok
      ensures e != Ok <==> AllTaken(old(InUse()), old(pageCount))
                           && NewPageError(old(vmm.flat), old(pageCount),
                                           Pages.Take(old(pages.Now()), 1, commits)) != Ok
    {
      hide Vmm.Valid, Pages.PageAllocator.Valid, Pages.Take, Used, MapRange, Added, IsLeastFree, TestBit;
      page, block := PickBlock();
      e := Ok;
      if page == pageCount {
        ghost var masks := Masks();
        FreshPageUsed(masks);
        e := MapNewPage(commits);
        if e == Ok {
          TestZero(0);
          assert Masks()[page] == 0 && mapped[page].usedMask == 0;
        }
      }
    }

    /** used_mask |= 1 << block */
    method MarkUsed(page: nat, block: nat)
      requires Shape() && page < pageCount && block < BLOCKS_PER_PAGE && !TestBit(mapped[page].usedMask, block)
      modifies mapped, `blocksInUse
      ensures Shape() && InUse() == old(InUse()) + {page * BLOCKS_PER_PAGE + block}
    {
      hide Used;
      ghost var masks := Masks();
      AllocateUsed(masks, page, block);
      MaskBound(mapped[page].usedMask, block);
      mapped[page] := TlsPage(mapped[page].gva, SetBit(mapped[page].usedMask, block));
      blocksInUse := blocksInUse + 1;
      assert Masks() == masks[page := SetBit(masks[page], block)];
    }

    /** tls_free: only the base of an allocated block is accepted. */
    method Free(gva: U64) returns (e: Error)
      requires Shape()
      modifies mapped, `blocksInUse
      ensures Shape()
      ensures e == Ok ==> IsBlock(region, gva, BlockNumber(region, gva)) && BlockNumber(region, gva) in old(InUse())
      ensures e == Ok ==> InUse() == old(InUse()) - {BlockNumber(region, gva)}
      ensures e != Ok ==> e == InvalidArgument && InUse() == old(InUse())
      ensures e != Ok ==> forall k: nat :: IsBlock(region, gva, k) ==> k !in InUse()
    {
      hide Used;
      var found, page, block := LocateBlock(gva);
      if !found {
        return InvalidArgument;
      }
      ghost var masks := Masks();
      BlockIndex(page, block);
      UsedMeans(masks, page * BLOCKS_PER_PAGE + block);
      if !TestBit(mapped[page].usedMask, block) {
        return InvalidArgument;
      }
      FreeUsed(masks, page, block);
      MaskBound(mapped[page].usedMask, block);
      mapped[page] := TlsPage(mapped[page].gva, ClearBit(mapped[page].usedMask, block));
      blocksInUse := blocksInUse - 1;
      assert Masks() == masks[page := ClearBit(masks[page], block)];
      e := Ok;
    }

    method IsAllocated(gva: U64) returns (yes: bool)
      requires Shape()
      ensures yes <==> exists k: nat :: IsBlock(region, gva, k) && k in InUse()
    {
      hide Used;
      var found, page, block := LocateBlock(gva);
      if found {
        BlockIndex(page, block);
        UsedMeans(Masks(), page * BLOCKS_PER_PAGE + block);
        yes := TestBit(mapped[page].usedMask, block);
        assert IsBlock(region, gva, page * BLOCKS_PER_PAGE + block);
      } else {
        yes := false;
      }
    }

    /** tls_allocator_teardown: every page is unmapped. */
    method Teardown()
      requires Valid()
      modifies this, vmm.Repr()
      ensures pageCount == 0 && blocksInUse == 0 && vmm.Valid() && !vmm.scopeOpen
      ensures vmm.flat == UnmapRange(old(vmm.flat), Vpn(region.base), old(pageCount))
      ensures vmm.ram[..] == old(vmm.ram[..])
    {
      hide Vmm.Valid, Pages.PageAllocator.Valid, Used, UnmapRange;
      ghost var m := vmm.flat;
      UnmapRangeKeeps(m, Vpn(region.base), pageCount);
      for p := 0 to pageCount
        invariant vmm.Valid() && !vmm.scopeOpen && pageCount == old(pageCount)
        invariant Shape() && PagesMapped(m)
        invariant vmm.flat == UnmapRange(m, Vpn(region.base), p)
        invariant vmm.ram[..] == old(vmm.ram[..])
      {
        UnmapRangeStep(m, Vpn(region.base), p);
        vmm.Idle();
        var e := vmm.Unmap(mapped[p].gva, PAGE_SIZE);
        UnmapOnePage(UnmapRange(m, Vpn(region.base), p), mapped[p].gva);
      }
      pageCount, blocksInUse := 0, 0;
    }
  }

  lemma MaskBound(mask: nat, block: nat)
    requires MaskOk(mask) && block < BLOCKS_PER_PAGE
    ensures MaskOk(SetBit(mask, block)) && MaskOk(ClearBit(mask, block))
  {
    assert Pow2(8) == 256;
    SetBound(mask, block, 8);
    ClearBound(mask, block, 8);
  }

  lemma UnmapOnePage(m: FlatMap, gva: nat)
    requires PageAligned(gva) && gva + PAGE_SIZE <= ADDRESS_SPACE_SIZE && Vpn(gva) in m
    ensures Unmapped(m, gva, PAGE_SIZE) == m - {Vpn(gva)}
  {
    assert Vpn(PAGE_SIZE) == 1;
    UnmapRangeStep(m, Vpn(gva), 0);
    UnmapRangeKeeps(m, Vpn(gva), 0);
  }
}

/** Process bootstrap (process_bootstrap in core/hle/kernel/process.c). */
module Bootstraps {
  import opened Results
  import opened Geometry
  import opened FlatMaps
  import opened GuestMemory
  import opened AddressSpaces
  import opened Bits
  import opened Bytes
  import opened Nsos
  import opened MemoryKernel
  import opened Vmms
  import opened TlsAllocators
  import opened Processes
  import opened FreshMapping
  import opened ModuleImages
  import opened MappingLists
  import opened CodeRegions
  import Pages = PageAllocators

  const MAX_MODULES: nat := 13
  const MAIN: nat := 1

  // ----- Pass 1: opening the modules -----

  /** The present files, in load order. */
  function Present(files: seq<Option<seq<Byte>>>): seq<seq<Byte>> {
    if files == [] then []
    else
      var n := |files| - 1;
      Present(files[..n]) + if files[n].Some? then [files[n].value] else []
  }

  lemma PresentSnoc(files: seq<Option<seq<Byte>>>, i: nat)
    requires i < |files|
    ensures Present(files[..i + 1]) == Present(files[..i]) + if files[i].Some? then [files[i].value] else []
  {
    assert files[..i + 1][..i] == files[..i];
  }

  lemma {:induction false} PresentPrefix(files: seq<Option<seq<Byte>>>, i: nat)
    requires i <= |files|
    ensures Present(files[..i]) <= Present(files)
    decreases |files| - i
  {
    if i == |files| {
      assert files[..i] == files;
    } else {
      PresentSnoc(files, i);
      PresentPrefix(files, i + 1);
    }
  }

  ghost predicate Opened(sources: seq<seq<Byte>>, nsos: seq<Nso>) {
    |nsos| == |sources| && forall k :: 0 <= k < |nsos| ==> Acceptable(sources[k]) && nsos[k] == Decoded(sources[k])
  }

  /** Opens every module present and totals the code region. */
  method OpenModules(files: seq<Option<seq<Byte>>>) returns (e: Error, nsos: seq<Nso>, codeSize: nat)
    requires |files| == MAX_MODULES
    ensures e == Ok <==> files[MAIN].Some? && forall s :: s in Present(files) ==> Acceptable(s)
    ensures e == Ok ==> Opened(Present(files), nsos) && codeSize == CodeSize(nsos, |nsos|) && |nsos| <= MAX_MODULES
    ensures e in {Ok, InvalidArgument, NotImplemented, NotFound}
  {
    hide Acceptable, Decoded, CodeSize, Present, Laid, HeaderKnown, Word, TestBit;
    nsos, codeSize := [], 0;
    var hasMain := false;
    NothingOpened();
    assert files[..0] == [] && files[..|files|] == files;
    for i := 0 to |files|
      invariant Opened(Present(files[..i]), nsos) && |nsos| <= i
      invariant codeSize == CodeSize(nsos, |nsos|)
      invariant hasMain == (i > MAIN && files[MAIN].Some?)
    {
      PresentSnoc(files, i);
      if files[i].Some? {
        var nso;
        e, nso := Open(files[i].value);
        PresentPrefix(files, i + 1);
        assert files[i].value == Present(files[..i + 1])[|nsos|];
        if e != Ok {
          assert files[i].value in Present(files);
          return;
        }
        CodeSizePrefix(nsos, nso, |nsos|);
        TotalSnoc(nsos, nso);
        codeSize := codeSize + nso.imageSize;
        nsos := nsos + [nso];
        if i == MAIN {
          hasMain := true;
        }
      }
    }
    if !hasMain {
      return NotFound, nsos, codeSize;
    }
    e := Ok;
  }

  lemma NothingOpened()
    ensures Present([]) == [] && CodeSize([], 0) == 0
  {
  }

  lemma TotalSnoc(nsos: seq<Nso>, nso: Nso)
    ensures CodeSize(nsos + [nso], |nsos| + 1) == CodeSize(nsos + [nso], |nsos|) + nso.imageSize
  {
  }

  // ----- One module in memory -----

  ghost predicate ByteIs(boot: FlatMap, ram: seq<Byte>, gva: nat, byte: Byte) {
    Vpn(gva) in boot && Pa(boot, gva) < |ram| && ram[Pa(boot, gva)] == byte
  }

  ghost predicate PermsAre(boot: FlatMap, v: nat, perms: nat) {
    v in boot && boot[v].perms == perms
  }

  /** The image at `base` has its final permissions, and every byte is its segment's or zero. */
  ghost predicate InPlace(boot: FlatMap, ram: seq<Byte>, nso: Nso, decode: Decoder, base: nat)
    requires Laid(nso)
  {
    && Readable(nso, decode)
    && (forall i: nat :: i < Vpn(nso.imageSize) ==> PermsAre(boot, Vpn(base) + i, PagePerms(nso, i)))
    && (forall i: nat :: i < nso.imageSize ==> ByteIs(boot, ram, base + i, ImageByte(nso, decode, i)))
  }

  /** Later steps leave the pages already built and their bytes alone. */
  ghost predicate Kept(boot: FlatMap, ram: seq<Byte>, boot': FlatMap, ram': seq<Byte>) {
    (forall v :: v in boot ==> v in boot' && boot'[v] == boot[v]) && BytesKept(boot, ram, ram')
  }

  lemma InPlaceKept(boot: FlatMap, ram: seq<Byte>, boot': FlatMap, ram': seq<Byte>, nso: Nso, decode: Decoder,
                    base: nat)
    requires Laid(nso) && InPlace(boot, ram, nso, decode, base) && Kept(boot, ram, boot', ram')
    ensures InPlace(boot', ram', nso, decode, base)
  {
    hide Laid, Readable, ImageByte, PagePerms;
    forall gva: nat, byte: Byte | ByteIs(boot, ram, gva, byte)
      ensures ByteIs(boot', ram', gva, byte)
    {
      var v, at := Vpn(gva), Pa(boot, gva);
      assert boot[v].ppn * PAGE_SIZE <= at < (boot[v].ppn + 1) * PAGE_SIZE;
    }
  }

  /** Stores into fresh pages touch nothing built before. */
  lemma FreshStoreKeeps(boot: FlatMap, held: set<nat>, out: set<nat>, page: nat, count: nat, offset: nat,
                        ram: seq<Byte>, bytes: seq<Byte>)
    requires Owned(boot, held, out) && RangePages(page, count) !! out
    requires offset + |bytes| <= count * PAGE_SIZE && page * PAGE_SIZE + offset + |bytes| <= |ram|
    ensures BytesKept(boot, ram, Splice(ram, page * PAGE_SIZE + offset, bytes))
  {
    var at := page * PAGE_SIZE + offset;
    var ram' := Splice(ram, at, bytes);
    forall v, a: nat | v in boot && boot[v].ppn * PAGE_SIZE <= a < (boot[v].ppn + 1) * PAGE_SIZE && a < |ram|
      ensures ram'[a] == ram[a]
    {
      assert boot[v].ppn in out && boot[v].ppn !in RangePages(page, count);
      SpliceByte(ram, at, bytes, a);
    }
  }

  lemma MapRangeAgrees(boot: FlatMap, v: nat, page: nat, count: nat)
    requires NoneMapped(boot, v, count)
    ensures forall w :: w in boot ==>
              w in MapRange(boot, v, page, count, PERM_RW) && MapRange(boot, v, page, count, PERM_RW)[w] == boot[w]
  {
  }

  // ----- Protecting the image's own pages -----

  lemma ProtectedKeys(m: FlatMap, image: Module)
    ensures Protected(m, image).Keys == m.Keys
  {
  }

  lemma ProtectedExtends(before: FlatMap, flat: FlatMap, boot: FlatMap, nso: Nso, base: nat)
    requires Laid(nso) && PageAligned(base) && Extends(before, flat, boot)
    requires RangePages(Vpn(base), Vpn(nso.imageSize)) <= boot.Keys
    ensures Extends(before, Protected(flat, Describe(nso, base)), Protected(boot, Describe(nso, base)))
  {
    hide Laid, Protected, PagePerms, Describe;
    var flat', boot' := Protected(flat, Describe(nso, base)), Protected(boot, Describe(nso, base));
    ProtectedKeys(flat, Describe(nso, base));
    ProtectedKeys(boot, Describe(nso, base));
    forall v | v in flat'
      ensures flat'[v] == (before + boot')[v]
    {
      ProtectedAt(flat, nso, base, v);
      ProtectedAt(boot, nso, base, v);
      assert v in before && v !in boot ==> v !in RangePages(Vpn(base), Vpn(nso.imageSize));
    }
    assert flat' == before + boot';
  }

  lemma ProtectedOwned(boot: FlatMap, held: set<nat>, out: set<nat>, nso: Nso, base: nat)
    requires Laid(nso) && PageAligned(base) && Owned(boot, held, out)
    ensures Owned(Protected(boot, Describe(nso, base)), held, out)
  {
    hide Laid, Protected, PagePerms, Describe;
    var boot' := Protected(boot, Describe(nso, base));
    ProtectedKeys(boot, Describe(nso, base));
    forall v | v in boot'
      ensures boot'[v].ppn == boot[v].ppn && (boot'[v] == boot[v] || boot'[v].perms in {PERM_RX, PERM_R, PERM_RW})
    {
      ProtectedAt(boot, nso, base, v);
    }
  }

  /** Page v of a freshly mapped and protected image. */
  lemma FreshImagePage(boot: FlatMap, nso: Nso, base: nat, page: nat, i: nat)
    requires Laid(nso) && PageAligned(base) && i < Vpn(nso.imageSize)
    ensures var image := Protected(MapRange(boot, Vpn(base), page, Vpn(nso.imageSize), PERM_RW), Describe(nso, base));
            Lookup(image, Vpn(base) + i) == Some(Page(page + i, PagePerms(nso, i)))
  {
    hide Laid, Protected, PagePerms, Describe, MapRange;
    var mapped := MapRange(boot, Vpn(base), page, Vpn(nso.imageSize), PERM_RW);
    MapRangeAt(boot, Vpn(base), page, Vpn(nso.imageSize), PERM_RW, Vpn(base) + i);
    ProtectedAt(mapped, nso, base, Vpn(base) + i);
  }

  lemma OtherImagePage(boot: FlatMap, nso: Nso, base: nat, page: nat, v: nat)
    requires Laid(nso) && PageAligned(base) && !(Vpn(base) <= v < Vpn(base) + Vpn(nso.imageSize))
    ensures var mapped := MapRange(boot, Vpn(base), page, Vpn(nso.imageSize), PERM_RW);
            Lookup(Protected(mapped, Describe(nso, base)), v) == Lookup(boot, v)
  {
    hide Laid, Protected, PagePerms, Describe, MapRange;
    MapRangeAt(boot, Vpn(base), page, Vpn(nso.imageSize), PERM_RW, v);
    ProtectedAt(MapRange(boot, Vpn(base), page, Vpn(nso.imageSize), PERM_RW), nso, base, v);
  }

  lemma ByteOfPage(base: nat, i: nat, size: nat)
    requires PageAligned(base) && PageAligned(size) && i < size
    ensures Vpn(base + i) == Vpn(base) + Vpn(i) && PageOffset(base + i) == PageOffset(i) && Vpn(i) < Vpn(size)
    ensures Vpn(i) * PAGE_SIZE + PageOffset(i) == i
  {
  }

  lemma FreshImageByte(boot: FlatMap, boot': FlatMap, ram: seq<Byte>, nso: Nso, decode: Decoder, base: nat, page: nat,
                       i: nat)
    requires Laid(nso) && Readable(nso, decode) && PageAligned(base) && PageAligned(nso.imageSize)
    requires boot' == Protected(MapRange(boot, Vpn(base), page, Vpn(nso.imageSize), PERM_RW), Describe(nso, base))
    requires page * PAGE_SIZE + nso.imageSize <= |ram| && i < nso.imageSize
    ensures ByteIs(boot', Splice(ram, page * PAGE_SIZE, Image(nso, decode)), base + i, ImageByte(nso, decode, i))
  {
    hide Laid, Readable, ImageByte, PagePerms, Protected, Describe, MapRange, Splice, Image, Vpn, PageOffset;
    ByteOfPage(base, i, nso.imageSize);
    FreshImagePage(boot, nso, base, page, Vpn(i));
    ImageBytes(nso, decode, i);
    SpliceByte(ram, page * PAGE_SIZE, Image(nso, decode), page * PAGE_SIZE + i);
    assert boot'[Vpn(base + i)].ppn == page + Vpn(i);
  }

  /** A fresh image with its bytes spliced in is in place. */
  lemma FreshInPlace(boot: FlatMap, boot': FlatMap, ram: seq<Byte>, nso: Nso, decode: Decoder, base: nat, page: nat)
    requires Laid(nso) && Readable(nso, decode) && PageAligned(base) && PageAligned(nso.imageSize)
    requires boot' == Protected(MapRange(boot, Vpn(base), page, Vpn(nso.imageSize), PERM_RW), Describe(nso, base))
    requires page * PAGE_SIZE + nso.imageSize <= |ram|
    ensures InPlace(boot', Splice(ram, page * PAGE_SIZE, Image(nso, decode)), nso, decode, base)
  {
    hide Laid, Readable, ImageByte, PagePerms, Protected, Describe, MapRange, Splice, Image, Vpn, PageOffset, ByteIs;
    var ram' := Splice(ram, page * PAGE_SIZE, Image(nso, decode));
    forall i: nat | i < Vpn(nso.imageSize)
      ensures PermsAre(boot', Vpn(base) + i, PagePerms(nso, i))
    {
      FreshImagePage(boot, nso, base, page, i);
    }
    forall i: nat | i < nso.imageSize
      ensures ByteIs(boot', ram', base + i, ImageByte(nso, decode, i))
    {
      FreshImageByte(boot, boot', ram, nso, decode, base, page, i);
    }
  }

  lemma FreshImageAgrees(boot: FlatMap, nso: Nso, base: nat, page: nat)
    requires Laid(nso) && PageAligned(base) && NoneMapped(boot, Vpn(base), Vpn(nso.imageSize))
    ensures var boot' := Protected(MapRange(boot, Vpn(base), page, Vpn(nso.imageSize), PERM_RW), Describe(nso, base));
            forall v :: v in boot ==> v in boot' && boot'[v] == boot[v]
  {
    hide Laid, Protected, Describe, MapRange, PagePerms;
    var boot' := Protected(MapRange(boot, Vpn(base), page, Vpn(nso.imageSize), PERM_RW), Describe(nso, base));
    forall v | v in boot
      ensures v in boot' && boot'[v] == boot[v]
    {
      OtherImagePage(boot, nso, base, page, v);
    }
  }

  /** Maps, fills and protects one module; only the mapping itself can be left behind by a failure. */
  method MapModule(vmm: Vmm, pages: Pages.PageAllocator, mapped: seq<Region>, nso: Nso, decode: Decoder, gva: U64,
                   commits: bool, ghost before: FlatMap, ghost boot: FlatMap, ghost held: set<nat>)
    returns (e: Error, mapped': seq<Region>, ghost boot': FlatMap)
    requires vmm.Valid() && !vmm.scopeOpen && pages.Valid() && vmm.Repr() !! pages.Repr()
    requires Building(before, vmm.flat, boot, held, pages.out, mapped) && Laid(nso)
    modifies vmm.Repr(), pages.Repr()
    ensures vmm.Valid() && !vmm.scopeOpen && pages.Valid() && pages.Shape()
    ensures Undoable(before, vmm.flat, boot', mapped')
    ensures e == Ok ==> Building(before, vmm.flat, boot', held, pages.out, mapped')
    ensures e == Ok ==> mapped' == mapped + [Region(gva, nso.imageSize)] && ValidPageRange(gva, nso.imageSize)
    ensures e == Ok ==> InPlace(boot', vmm.ram[..], nso, decode, gva)
    ensures e == Ok ==> Kept(boot, old(vmm.ram[..]), boot', vmm.ram[..])
    ensures e == Ok ==> boot'.Keys == boot.Keys + RangePages(Vpn(gva), Vpn(nso.imageSize))
    ensures e == Ok ==> old(pages.Shape()) && SamePool(old(pages.Now()), pages.Now())
    ensures old(pages.Shape())
    ensures Bumping(old(pages.Now()), vmm.ramSize) && Vacant(old(vmm.flat), gva, nso.imageSize) ==>
              (e == Ok <==> Readable(nso, decode)
                            && Room(old(vmm.flat), old(pages.Now()), Vpn(gva), Vpn(nso.imageSize), commits))
    ensures Bumping(old(pages.Now()), vmm.ramSize) && Vacant(old(vmm.flat), gva, nso.imageSize) && e == Ok ==>
              pages.Now() == old(pages.Now()).(used := old(pages.Now()).used + Vpn(nso.imageSize))
  {
    hide Vmm.Valid, Pages.PageAllocator.Valid, MapRange, Protected, Owned, Extends, ListOk, PagesOf, RangePages,
         HostContiguous, Laid, InPlace, BytesKept, Splice, Image, Readable, ValidPageRange, SamePool, Vpn,
         Bumping, Vacant, Room;
    pages.HasShape();
    ghost var flat, ram, out := vmm.flat, vmm.ram[..], pages.out;
    ghost var page;
    PagesApart(nso);
    e, mapped', boot', page := MapFreshRw(vmm, pages, mapped, gva, nso.imageSize, commits, before, boot, held);
    if e != Ok {
      return;
    }
    FreshRangeContiguous(flat, gva, nso.imageSize, page);
    AddExtends(before, flat, boot, Vpn(gva), page, Vpn(nso.imageSize));
    e := LoadModuleImage(vmm, nso, decode, gva, Describe(nso, gva));
    if e != Ok {
      return;
    }
    AlignedRange(gva, nso.imageSize);
    ProtectedExtends(before, MapRange(flat, Vpn(gva), page, Vpn(nso.imageSize), PERM_RW), boot', nso, gva);
    ProtectedOwned(boot', held, pages.out, nso, gva);
    ProtectedKeys(boot', Describe(nso, gva));
    boot' := Protected(boot', Describe(nso, gva));
    FreshInPlace(boot, boot', ram, nso, decode, gva, page);
    FreshImageAgrees(boot, nso, gva, page);
    FreshStoreKeeps(boot, held, out, page, Vpn(nso.imageSize), 0, ram, Image(nso, decode));
  }

  lemma AlignedRange(gva: nat, size: nat)
    requires ValidPageRange(gva, size)
    ensures PageAligned(gva) && Vpn(size) * PAGE_SIZE == size && PageAligned(size)
            && Vpn(gva) + Vpn(size) <= TOTAL_PAGES
  {
  }

  /** A freshly mapped range is one RW host run. */
  lemma FreshRangeContiguous(flat: FlatMap, gva: nat, size: nat, page: nat)
    requires ValidPageRange(gva, size)
    ensures var flat' := MapRange(flat, Vpn(gva), page, Vpn(size), PERM_RW);
            HostContiguous(flat', gva, size, PERM_RW) && Vpn(gva) in flat' && Pa(flat', gva) == page * PAGE_SIZE
  {
    hide HostContiguous;
    var flat' := MapRange(flat, Vpn(gva), page, Vpn(size), PERM_RW);
    forall v | Vpn(gva) <= v < Vpn(gva) + Vpn(size)
      ensures v in flat' && flat'[v] == Page(page + (v - Vpn(gva)), PERM_RW)
    {
      MapRangeAt(flat, Vpn(gva), page, Vpn(size), PERM_RW, v);
    }
    hide MapRange;
    PagesAreContiguous(flat', gva, size, page, PERM_RW);
    ContiguousStart(flat', gva, size, PERM_RW);
  }

  // ----- All modules -----

  /** The first n modules are in place, back to back from `start`. */
  ghost predicate ModulesInPlace(boot: FlatMap, ram: seq<Byte>, nsos: seq<Nso>, n: nat, decode: Decoder, start: nat)
    requires AllLaid(nsos) && n <= |nsos|
  {
    forall k :: 0 <= k < n ==> InPlace(boot, ram, nsos[k], decode, start + CodeSize(nsos, k))
  }

  ghost predicate Described(modules: seq<Module>, nsos: seq<Nso>, n: nat, start: nat)
    requires AllLaid(nsos) && n <= |nsos|
  {
    |modules| == n && forall k :: 0 <= k < n ==> modules[k] == Describe(nsos[k], start + CodeSize(nsos, k))
  }

  /** The mapping list entries of the modules. */
  function ModuleRanges(modules: seq<Module>): seq<Region> {
    seq(|modules|, (k: nat) requires k < |modules| => Region(modules[k].baseGva, modules[k].imageSize))
  }

  lemma ModulesKept(boot: FlatMap, ram: seq<Byte>, boot': FlatMap, ram': seq<Byte>, nsos: seq<Nso>, n: nat,
                    decode: Decoder, start: nat)
    requires AllLaid(nsos) && n <= |nsos| && ModulesInPlace(boot, ram, nsos, n, decode, start)
            && Kept(boot, ram, boot', ram')
    ensures ModulesInPlace(boot', ram', nsos, n, decode, start)
  {
    hide InPlace, Kept, Laid, CodeSize;
    forall k | 0 <= k < n
      ensures InPlace(boot', ram', nsos[k], decode, start + CodeSize(nsos, k))
    {
      InPlaceKept(boot, ram, boot', ram', nsos[k], decode, start + CodeSize(nsos, k));
    }
  }

  lemma RangeJoin(first: nat, a: nat, b: nat)
    ensures RangePages(first, a) + RangePages(first + a, b) == RangePages(first, a + b)
  {
  }

  lemma NextModule(nsos: seq<Nso>, m: nat, start: nat)
    requires AllLaid(nsos) && m < |nsos| && PageAligned(start)
    ensures CodeSize(nsos, m + 1) == CodeSize(nsos, m) + nsos[m].imageSize
    ensures RangePages(Vpn(start), Vpn(CodeSize(nsos, m)))
            + RangePages(Vpn(start + CodeSize(nsos, m)), Vpn(nsos[m].imageSize))
            == RangePages(Vpn(start), Vpn(CodeSize(nsos, m + 1)))
  {
    hide AlignUpPage, SegmentOk, RangePages;
    CodeSizeAligned(nsos, m);
    PagesApart(nsos[m]);
    OffsetPages(start, CodeSize(nsos, m));
    OffsetPages(CodeSize(nsos, m), nsos[m].imageSize);
    RangeJoin(Vpn(start), Vpn(CodeSize(nsos, m)), Vpn(nsos[m].imageSize));
  }

  /** Maps the modules back to back from the code base. */
  method MapModules(vmm: Vmm, pages: Pages.PageAllocator, process: Process, nsos: seq<Nso>, decode: Decoder,
                    start: U64, commits: nat -> bool, ghost before: FlatMap, ghost held: set<nat>)
    returns (e: Error, mapped: seq<Region>, ghost boot: FlatMap)
    requires vmm.Valid() && !vmm.scopeOpen && pages.Valid() && vmm.Repr() !! pages.Repr()
    requires process !in vmm.Repr() && process !in pages.Repr() && process.modules == []
    requires AllLaid(nsos) && PageAligned(start) && start + CodeSize(nsos, |nsos|) <= ADDRESS_SPACE_SIZE
    requires vmm.flat == before && pages.out == held
    modifies vmm.Repr(), pages.Repr(), process`modules
    ensures vmm.Valid() && !vmm.scopeOpen && pages.Valid() && pages.Shape()
    ensures Undoable(before, vmm.flat, boot, mapped)
    ensures e == Ok ==> Building(before, vmm.flat, boot, held, pages.out, mapped)
    ensures e == Ok ==> boot.Keys == RangePages(Vpn(start), Vpn(CodeSize(nsos, |nsos|)))
    ensures e == Ok ==> ModulesInPlace(boot, vmm.ram[..], nsos, |nsos|, decode, start)
    ensures e == Ok ==> Described(process.modules, nsos, |nsos|, start) && mapped == ModuleRanges(process.modules)
    ensures e == Ok ==> old(pages.Shape()) && SamePool(old(pages.Now()), pages.Now())
    ensures old(pages.Shape())
    ensures Blank(before, old(pages.Now()), vmm.ramSize) ==>
              (e == Ok <==> ModulesFit(nsos, |nsos|, decode, commits, start, old(pages.Now())))
    ensures Blank(before, old(pages.Now()), vmm.ramSize) && e == Ok ==>
              pages.Now() == old(pages.Now()).(used := old(pages.Now()).used + Vpn(CodeSize(nsos, |nsos|)))
  {
    hide Vmm.Valid, Pages.PageAllocator.Valid, Owned, Extends, ListOk, PagesOf, RangePages, Laid, InPlace, Kept,
         SamePool, Vpn, CodeSize, Describe, AlignUpPage, ValidPageRange, Bumping, Vacant, Room, ModuleFits, Readable;
    mapped, boot, e := [], map[], Ok;
    pages.HasShape();
    ghost var pool := pages.Now();
    ghost var blank := Blank(before, pool, vmm.ramSize);
    NothingUsed(pool, nsos);
    StartsEmpty(before, held, start, nsos);
    SamePoolSelf(pages.Now());
    var cursor: nat := start;
    for m := 0 to |nsos|
      invariant vmm.Valid() && !vmm.scopeOpen && pages.Valid() && pages.Shape()
      invariant Building(before, vmm.flat, boot, held, pages.out, mapped)
      invariant cursor == start + CodeSize(nsos, m)
      invariant boot.Keys == RangePages(Vpn(start), Vpn(CodeSize(nsos, m)))
      invariant ModulesInPlace(boot, vmm.ram[..], nsos, m, decode, start)
      invariant Described(process.modules, nsos, m, start) && mapped == ModuleRanges(process.modules)
      invariant old(pages.Shape()) && SamePool(old(pages.Now()), pages.Now())
      invariant e == Ok
      invariant blank ==> ModulesFit(nsos, m, decode, commits, start, pool)
      invariant blank ==> pages.Now() == pool.(used := pool.used + Vpn(CodeSize(nsos, m)))
    {
      CodeSizeGrows(nsos, m, |nsos|);
      ghost var boot0, ram0 := boot, vmm.ram[..];
      ghost var pool0 := pages.Now();
      if blank {
        StillBumping(pool, Vpn(CodeSize(nsos, m)), vmm.ramSize);
        OnlyBuilt(vmm.flat, boot);
        VacantNext(vmm.flat, nsos, m, start);
        ModuleHasRoom(vmm.flat, nsos, m, decode, commits, start, pool, pool0);
      }
      e, mapped, boot := MapModule(vmm, pages, mapped, nsos[m], decode, cursor, commits(m), before, boot, held);
      assert blank ==> (e == Ok <==> ModuleFits(nsos, m, decode, commits, start, pool));
      if e != Ok {
        return;
      }
      SamePoolTransitive(old(pages.Now()), pool0, pages.Now());
      NextModule(nsos, m, start);
      ModulesKept(boot0, ram0, boot, vmm.ram[..], nsos, m, decode, start);
      process.modules := process.modules + [Describe(nsos[m], cursor)];
      DescribedRange(nsos[m], cursor);
      cursor := cursor + nsos[m].imageSize;
    }
  }

  /** An empty page table, and an allocator without free runs over guest RAM. */
  ghost predicate Blank(before: FlatMap, s: Pages.State, ramSize: nat) {
    before == map[] && Bumping(s, ramSize)
  }

  lemma NothingUsed(s: Pages.State, nsos: seq<Nso>)
    ensures s == s.(used := s.used + Vpn(CodeSize(nsos, 0)))
  {
  }

  lemma StillBumping(s: Pages.State, more: nat, ramSize: nat)
    requires Bumping(s, ramSize)
    ensures Bumping(s.(used := s.used + more), ramSize)
  {
  }

  lemma OnlyBuilt(flat: FlatMap, boot: FlatMap)
    requires Extends(map[], flat, boot)
    ensures flat == boot
  {
  }

  lemma DescribedRange(nso: Nso, base: nat)
    requires Laid(nso)
    ensures Describe(nso, base).baseGva == base && Describe(nso, base).imageSize == nso.imageSize
  {
  }

  lemma StartsEmpty(before: FlatMap, held: set<nat>, start: nat, nsos: seq<Nso>)
    ensures Building(before, before, map[], held, held, [])
    ensures RangePages(Vpn(start), Vpn(CodeSize(nsos, 0))) == {} && CodeSize(nsos, 0) == 0
  {
  }

  lemma SamePoolSelf(a: Pages.State)
    ensures SamePool(a, a)
  {
  }

  lemma SamePoolTransitive(a: Pages.State, b: Pages.State, c: Pages.State)
    requires SamePool(a, b) && SamePool(b, c)
    ensures SamePool(a, c)
  {
  }

  // ----- Stack and thread-local storage -----

  /** Every byte of the range is zero. */
  ghost predicate ZeroIn(boot: FlatMap, ram: seq<Byte>, gva: nat, size: nat) {
    forall a: nat :: gva <= a < gva + size ==> ByteIs(boot, ram, a, 0)
  }

  ghost predicate RwIn(boot: FlatMap, first: nat, count: nat) {
    forall v: nat :: first <= v < first + count ==> PermsAre(boot, v, PERM_RW)
  }

  lemma ZeroKept(boot: FlatMap, ram: seq<Byte>, boot': FlatMap, ram': seq<Byte>, gva: nat, size: nat)
    requires ZeroIn(boot, ram, gva, size) && Kept(boot, ram, boot', ram')
    ensures ZeroIn(boot', ram', gva, size)
  {
    forall a: nat | gva <= a < gva + size
      ensures ByteIs(boot', ram', a, 0)
    {
      assert ByteIs(boot, ram, a, 0);
      var v, at := Vpn(a), Pa(boot, a);
      assert boot[v].ppn * PAGE_SIZE <= at < (boot[v].ppn + 1) * PAGE_SIZE;
    }
  }

  lemma RwKept(boot: FlatMap, ram: seq<Byte>, boot': FlatMap, ram': seq<Byte>, first: nat, count: nat)
    requires RwIn(boot, first, count) && Kept(boot, ram, boot', ram')
    ensures RwIn(boot', first, count)
  {
    forall v: nat | first <= v < first + count
      ensures PermsAre(boot', v, PERM_RW)
    {
      assert PermsAre(boot, v, PERM_RW);
    }
  }

  /** Zeroing part of a freshly mapped range. */
  lemma FreshZeroed(boot: FlatMap, held: set<nat>, out: set<nat>, gva: nat, size: nat, page: nat, count: nat,
                    flat': FlatMap, ram: seq<Byte>, ram': seq<Byte>)
    requires Owned(boot, held, out) && RangePages(page, count) !! out && NoneMapped(boot, Vpn(gva), count)
    requires PageAligned(gva) && size <= count * PAGE_SIZE
    requires Zeroed(flat', ram, ram', gva, size) && Pa(flat', gva) == page * PAGE_SIZE
    ensures var boot' := MapRange(boot, Vpn(gva), page, count, PERM_RW);
            Kept(boot, ram, boot', ram') && ZeroIn(boot', ram', gva, size) && RwIn(boot', Vpn(gva), count)
  {
    var boot' := MapRange(boot, Vpn(gva), page, count, PERM_RW);
    hide MapRange, Splice, Owned, RangePages, Zeros;
    FreshStoreKeeps(boot, held, out, page, count, 0, ram, Zeros(size));
    MapRangeAgrees(boot, Vpn(gva), page, count);
    forall a: nat | gva <= a < gva + size
      ensures ByteIs(boot', ram', a, 0)
    {
      FreshZeroByte(boot, gva, size, page, count, ram, a);
    }
    forall v: nat | Vpn(gva) <= v < Vpn(gva) + count
      ensures PermsAre(boot', v, PERM_RW)
    {
      MapRangeAt(boot, Vpn(gva), page, count, PERM_RW, v);
    }
  }

  lemma FreshZeroByte(boot: FlatMap, gva: nat, size: nat, page: nat, count: nat, ram: seq<Byte>, a: nat)
    requires PageAligned(gva) && size <= count * PAGE_SIZE && gva <= a < gva + size && page * PAGE_SIZE + size <= |ram|
    ensures ByteIs(MapRange(boot, Vpn(gva), page, count, PERM_RW), Splice(ram, page * PAGE_SIZE, Zeros(size)), a, 0)
  {
    hide MapRange, Splice;
    ByteOfPage(gva, a - gva, count * PAGE_SIZE);
    PageVpn(count);
    MapRangeAt(boot, Vpn(gva), page, count, PERM_RW, Vpn(a));
    SpliceByte(ram, page * PAGE_SIZE, Zeros(size), page * PAGE_SIZE + (a - gva));
    hide Vpn, PageOffset;
  }

  /** The main thread's stack, above its guard page. */
  method MapStack(vmm: Vmm, pages: Pages.PageAllocator, mapped: seq<Region>, region: Region, stack: Region,
                  commits: bool, ghost before: FlatMap, ghost boot: FlatMap, ghost held: set<nat>)
    returns (e: Error, mapped': seq<Region>, ghost boot': FlatMap)
    requires vmm.Valid() && !vmm.scopeOpen && pages.Valid() && vmm.Repr() !! pages.Repr()
    requires Building(before, vmm.flat, boot, held, pages.out, mapped)
    requires stack.base < TWO_TO_THE_64 && stack.size < TWO_TO_THE_64
    modifies vmm.Repr(), pages.Repr()
    ensures vmm.Valid() && !vmm.scopeOpen && pages.Valid() && pages.Shape()
    ensures Undoable(before, vmm.flat, boot', mapped')
    ensures e == Ok ==> Building(before, vmm.flat, boot', held, pages.out, mapped')
    ensures e == Ok ==> mapped' == mapped + [stack] && region.Contains(stack.base, stack.size)
    ensures e == Ok ==> ValidPageRange(stack.base, stack.size)
    ensures e == Ok ==> Kept(boot, old(vmm.ram[..]), boot', vmm.ram[..])
    ensures e == Ok ==> ZeroIn(boot', vmm.ram[..], stack.base, stack.size)
    ensures e == Ok ==> RwIn(boot', Vpn(stack.base), Vpn(stack.size))
    ensures e == Ok ==> boot'.Keys == boot.Keys + Covered(stack)
    ensures e == Ok ==> old(pages.Shape()) && SamePool(old(pages.Now()), pages.Now())
    ensures old(pages.Shape())
    ensures Bumping(old(pages.Now()), vmm.ramSize)
            && (region.Contains(stack.base, stack.size) ==> Vacant(old(vmm.flat), stack.base, stack.size)) ==>
              (e == Ok <==> region.Contains(stack.base, stack.size)
                            && Room(old(vmm.flat), old(pages.Now()), Vpn(stack.base), Vpn(stack.size), commits))
    ensures Bumping(old(pages.Now()), vmm.ramSize) && Vacant(old(vmm.flat), stack.base, stack.size) && e == Ok ==>
              pages.Now() == old(pages.Now()).(used := old(pages.Now()).used + Vpn(stack.size))
  {
    hide Vmm.Valid, Pages.PageAllocator.Valid, MapRange, Owned, Extends, ListOk, PagesOf, RangePages, HostContiguous,
         Kept, ZeroIn, RwIn, ValidPageRange, SamePool, Vpn, Zeroed, Bumping, Vacant, Room, Region.Contains;
    mapped', boot' := mapped, boot;
    pages.HasShape();
    if !region.Contains(stack.base, stack.size) {
      return InvalidArgument, mapped, boot;
    }
    ghost var flat, ram, out := vmm.flat, vmm.ram[..], pages.out;
    ghost var page;
    e, mapped', boot', page := MapFreshRw(vmm, pages, mapped, stack.base, stack.size, commits, before, boot, held);
    if e != Ok {
      return;
    }
    FreshRangeContiguous(flat, stack.base, stack.size, page);
    AlignedRange(stack.base, stack.size);
    ZeroRange(vmm, stack.base, stack.size);
    AddExtends(before, flat, boot, Vpn(stack.base), page, Vpn(stack.size));
    FreshZeroed(boot, held, out, stack.base, stack.size, page, Vpn(stack.size), vmm.flat, ram, vmm.ram[..]);
  }

  lemma FirstBlock(region: Region, gva: nat, used: set<nat>)
    requires used == {} && IsBlock(region, gva, BlockNumber(region, gva)) && IsLeastFree(used, BlockNumber(region, gva))
    ensures gva == region.base && BlockNumber(region, gva) == 0
  {
    assert BlockNumber(region, gva) > 0 ==> 0 in used;
  }

  lemma NoBlocks(tls: TlsAllocator)
    requires tls.pageCount <= tls.mapped.Length
    ensures tls.AllTaken(tls.InUse(), 0)
  {
  }

  /** The first TLS page can be had exactly when there is room for it. */
  lemma FirstPageRoom(tls: TlsAllocator, m: FlatMap, s: Pages.State, commits: bool)
    ensures Bumping(s, tls.vmm.ramSize) && Vacant(m, tls.region.base, 4096)
            && tls.region.Contains(tls.region.base, 4096)
            ==> (tls.NewPageError(m, 0, Pages.Take(s, 1, commits)) == Ok
                 <==> Room(m, s, Vpn(tls.region.base), 1, commits))
  {
    hide Bumping, Vacant, Room, Pages.Take, MapFreshError;
    PageVpn(1);
    if Bumping(s, tls.vmm.ramSize) && Vacant(m, tls.region.base, 4096) {
      FreshGoesThrough(m, tls.vmm.ramSize, s, tls.region.base, 4096, commits);
    }
  }

  /** The process's TLS allocator and the main thread's block. */
  method StartTls(vmm: Vmm, pages: Pages.PageAllocator, mapped: seq<Region>, region: Region, commits: bool,
                  ghost before: FlatMap, ghost boot: FlatMap, ghost held: set<nat>)
    returns (e: Error, tls: TlsAllocator, gva: nat, ghost boot': FlatMap)
    requires vmm.Valid() && !vmm.scopeOpen && pages.Valid() && vmm.Repr() !! pages.Repr() && RegionOk(region)
    requires Building(before, vmm.flat, boot, held, pages.out, mapped)
    modifies vmm.Repr(), pages.Repr()
    ensures fresh(tls) && fresh(tls.mapped) && tls.Valid() && tls.vmm == vmm && tls.pages == pages
            && tls.region == region
    ensures vmm.Valid() && !vmm.scopeOpen && pages.Valid() && pages.Shape()
    ensures tls.Shape()
    ensures e != Ok ==> tls.pageCount == 0 && vmm.flat == old(vmm.flat) && boot' == boot
    ensures e == Ok ==> tls.pageCount == 1 && tls.InUse() == {0} && gva == region.base
    ensures e == Ok ==> Extends(before, vmm.flat, boot') && Owned(boot', held, pages.out)
    ensures e == Ok ==> boot'.Keys == boot.Keys + {Vpn(region.base)} && Vpn(region.base) !in boot
    ensures e == Ok ==> Kept(boot, old(vmm.ram[..]), boot', vmm.ram[..])
    ensures e == Ok ==> ZeroIn(boot', vmm.ram[..], gva, BLOCK_BYTES) && RwIn(boot', Vpn(region.base), 1)
    ensures e == Ok ==> old(pages.Shape()) && pages.Shape() && SamePool(old(pages.Now()), pages.Now())
    ensures old(pages.Shape())
    ensures Bumping(old(pages.Now()), vmm.ramSize) && Vacant(old(vmm.flat), region.base, 4096)
            && region.Contains(region.base, 4096) ==>
              (e == Ok <==> Room(old(vmm.flat), old(pages.Now()), Vpn(region.base), 1, commits))
  {
    hide Vmm.Valid, Pages.PageAllocator.Valid, Pages.Take, MapRange, Owned, Extends, ListOk, PagesOf, HostContiguous,
         Kept, ZeroIn, RwIn, SamePool, Vpn, Zeroed, Used, IsLeastFree, Pa, TlsAllocator.Shape,
         TlsAllocator.PagesMapped, TlsAllocator.AllTaken, TlsAllocator.NewPageError, Bumping, Vacant, Room,
         MapFreshError, Region.Contains;
    boot' := boot;
    pages.HasShape();
    pages.IsConserved();
    ghost var flat, ram, s, out := vmm.flat, vmm.ram[..], pages.Now(), pages.out;
    tls := new TlsAllocator(vmm, pages, region);
    tls.NoPagesNothingUsed();
    NoBlocks(tls);
    FirstPageRoom(tls, flat, s, commits);
    e, gva := tls.Allocate(commits);
    pages.HasShape();
    pages.IsConserved();
    tls.NoPagesNothingUsed();
    if e != Ok {
      return;
    }
    FirstBlock(region, gva, {});
    ghost var t := Pages.Take(s, 1, commits);
    Pages.TakenPages(s, out, pages.out, 1, commits);
    TakeSamePool(s, 1, commits);
    AddExtends(before, flat, boot, Vpn(gva), t.page, 1);
    AddOwned(boot, held, out, Vpn(gva), t.page, 1);
    boot' := MapRange(boot, Vpn(gva), t.page, 1, PERM_RW);
    FreshPageAddress(flat, gva, t.page);
    FreshZeroed(boot, held, out, gva, BLOCK_BYTES, t.page, 1, vmm.flat, ram, vmm.ram[..]);
  }

  lemma FreshPageAddress(flat: FlatMap, gva: nat, page: nat)
    requires PageAligned(gva)
    ensures var flat' := MapRange(flat, Vpn(gva), page, 1, PERM_RW);
            Vpn(gva) in flat' && Pa(flat', gva) == page * PAGE_SIZE
    ensures RangePages(Vpn(gva), 1) == {Vpn(gva)}
  {
    MapRangeAt(flat, Vpn(gva), page, 1, PERM_RW, Vpn(gva));
    hide MapRange;
    assert RangePages(Vpn(gva), 0) == {};
  }

  // ----- The whole bootstrap -----

  const STACK_GUARD_PAGES: nat := 1

  /** What the process records about its own mappings: enough to take them down again. */
  ghost predicate Recorded(process: Process, vmm: Vmm, pages: Pages.PageAllocator)
    reads process, process.tls, if process.tls == null then {} else {process.tls.mapped}
  {
    && process.tls != null && process !in process.tls.Repr()
    && process.tls.vmm == vmm && process.tls.pages == pages && process.tls.region == process.space.tlsIo
    && process.tls.Shape() && process.mainStack.size > 0
    && ListOk(ModuleRanges(process.modules) + [process.mainStack])
    && var own := PagesOf(ModuleRanges(process.modules) + [process.mainStack]);
       var tlsPages := RangePages(Vpn(process.space.tlsIo.base), process.tls.pageCount);
       && process.boot.Keys == own + tlsPages && own !! tlsPages
       && RwIn(process.boot, Vpn(process.space.tlsIo.base), process.tls.pageCount)
  }

  /** The address space the process was given, and where its modules lie in it. */
  ghost predicate InSpace(process: Process, nsos: seq<Nso>, stackSize: nat)
    requires AllLaid(nsos)
    reads process
  {
    && SpaceOk(process.space) && process.space.code.size == CodeSize(nsos, |nsos|) && process.space.tlsIo.size > 0
            && |nsos| > 0
    && Described(process.modules, nsos, |nsos|, process.space.code.base)
    && process.entryPoint == process.modules[0].text.base && process.codeBytesMapped == process.space.code.size
    && process.mainStack == Region(process.space.stack.base + STACK_GUARD_PAGES * PAGE_SIZE, stackSize)
    && process.space.stack.Contains(process.mainStack.base, process.mainStack.size)
    && process.mainThreadTls == process.space.tlsIo.base
  }

  /** The bootstrap's pages: the code region, the stack behind its guard page, and one TLS page. */
  ghost predicate Places(boot: FlatMap, space: AddressSpace, stack: Region) {
    && boot.Keys == RangePages(Vpn(space.code.base), Vpn(space.code.size)) + Covered(stack) + {Vpn(space.tlsIo.base)}
    && Vpn(space.stack.base) !in boot
  }

  /** The bootstrap's memory: every image byte, a zeroed stack, a zeroed TLS block, nothing else mapped. */
  ghost predicate MemoryLoaded(process: Process, ram: seq<Byte>, nsos: seq<Nso>, decode: Decoder)
    requires AllLaid(nsos)
    reads process
  {
    && Places(process.boot, process.space, process.mainStack)
    && ModulesInPlace(process.boot, ram, nsos, |nsos|, decode, process.space.code.base)
    && ZeroIn(process.boot, ram, process.mainStack.base, process.mainStack.size)
    && RwIn(process.boot, Vpn(process.mainStack.base), Vpn(process.mainStack.size))
    && ZeroIn(process.boot, ram, process.mainThreadTls, BLOCK_BYTES)
    && RwIn(process.boot, Vpn(process.space.tlsIo.base), 1)
  }

  /** The guard page below the stack belongs to no mapping. */
  lemma GuardFree(space: AddressSpace, stack: Region)
    requires SpaceOk(space) && space.tlsIo.size > 0 && stack.base == space.stack.base + STACK_GUARD_PAGES * PAGE_SIZE
    requires space.stack.Contains(stack.base, stack.size)
    ensures var v := Vpn(space.stack.base);
            && v !in RangePages(Vpn(space.code.base), Vpn(space.code.size)) && v !in Covered(stack)
            && v != Vpn(space.tlsIo.base)
  {
    RegionPages(space.code);
    RegionPages(space.stack);
    RegionPages(space.tlsIo);
    PageVpn(Vpn(space.stack.base) + 1);
  }

  lemma StackFits(space: AddressSpace, stackSize: nat)
    requires SpaceOk(space)
    ensures space.stack.base + STACK_GUARD_PAGES * PAGE_SIZE < TWO_TO_THE_64
            && space.code.base + space.code.size <= ADDRESS_SPACE_SIZE
    ensures PageAligned(space.code.base) && RegionOk(space.tlsIo)
  {
  }

  /** Modules and stack are in memory; TLS is not yet. */
  ghost predicate HalfLoaded(boot: FlatMap, ram: seq<Byte>, nsos: seq<Nso>, decode: Decoder, space: AddressSpace,
                             stack: Region)
    requires AllLaid(nsos)
  {
    && boot.Keys == RangePages(Vpn(space.code.base), Vpn(space.code.size)) + Covered(stack)
    && ModulesInPlace(boot, ram, nsos, |nsos|, decode, space.code.base)
    && ZeroIn(boot, ram, stack.base, stack.size) && RwIn(boot, Vpn(stack.base), Vpn(stack.size))
  }

  /** The process and its memory after the stack is mapped. */
  ghost predicate CodeAndStackIn(process: Process, ram: seq<Byte>, nsos: seq<Nso>, decode: Decoder, stackSize: nat)
    requires AllLaid(nsos)
    reads process
  {
    && Described(process.modules, nsos, |nsos|, process.space.code.base) && |nsos| > 0
    && process.entryPoint == process.modules[0].text.base && process.codeBytesMapped == process.space.code.size
    && process.mainStack == Region(process.space.stack.base + STACK_GUARD_PAGES * PAGE_SIZE, stackSize)
    && process.space.stack.Contains(process.mainStack.base, process.mainStack.size)
    && HalfLoaded(process.boot, ram, nsos, decode, process.space, process.mainStack)
  }

  lemma HalfKept(boot: FlatMap, ram: seq<Byte>, boot': FlatMap, ram': seq<Byte>, nsos: seq<Nso>, decode: Decoder,
                 space: AddressSpace, stack: Region)
    requires AllLaid(nsos) && HalfLoaded(boot, ram, nsos, decode, space, stack) && Kept(boot, ram, boot', ram')
    ensures ModulesInPlace(boot', ram', nsos, |nsos|, decode, space.code.base)
    ensures ZeroIn(boot', ram', stack.base, stack.size) && RwIn(boot', Vpn(stack.base), Vpn(stack.size))
  {
    hide Kept, ZeroIn, RwIn, ModulesInPlace, Laid, Vpn;
    ModulesKept(boot, ram, boot', ram', nsos, |nsos|, decode, space.code.base);
    ZeroKept(boot, ram, boot', ram', stack.base, stack.size);
    RwKept(boot, ram, boot', ram', Vpn(stack.base), Vpn(stack.size));
  }

  /** What the modules and the stack leave of the allocator. */
  ghost function HalfUsed(s: Pages.State, nsos: seq<Nso>, stackSize: nat): Pages.State {
    s.(used := s.used + Vpn(CodeSize(nsos, |nsos|)) + Vpn(stackSize))
  }

  /** With the modules in place the stack can be had exactly when everything so far fits. */
  lemma StackRoom(nsos: seq<Nso>, stackSize: nat, decode: Decoder, commits: nat -> bool, space: AddressSpace,
                  before: FlatMap, flat: FlatMap, boot: FlatMap, s: Pages.State, now: Pages.State, ramSize: nat)
    requires AllLaid(nsos) && SpaceOk(space) && space.code.size == CodeSize(nsos, |nsos|) && stackSize > 0
    requires Extends(before, flat, boot) && boot.Keys == RangePages(Vpn(space.code.base), Vpn(CodeSize(nsos, |nsos|)))
    ensures var stack := Region(space.stack.base + STACK_GUARD_PAGES * PAGE_SIZE, stackSize);
            Blank(before, s, ramSize) && stackSize % 4096 == 0
            && ModulesFit(nsos, |nsos|, decode, commits, space.code.base, s)
            && now == s.(used := s.used + Vpn(CodeSize(nsos, |nsos|))) ==>
              && Bumping(now, ramSize)
              && (space.stack.Contains(stack.base, stack.size) ==> Vacant(flat, stack.base, stack.size))
              && (space.stack.Contains(stack.base, stack.size)
                  && Room(flat, now, Vpn(stack.base), Vpn(stack.size), commits(|nsos|))
                  <==> HalfFits(nsos, stackSize, decode, commits, space, s))
  {
    hide AllLaid, SpaceOk, CodeSize, RangePages, Vpn, Vacant, Room, HalfFits, ModulesFit, Region.Contains, Bumping;
    if Blank(before, s, ramSize) && stackSize % 4096 == 0
       && ModulesFit(nsos, |nsos|, decode, commits, space.code.base, s)
       && now == s.(used := s.used + Vpn(CodeSize(nsos, |nsos|))) {
      OnlyBuilt(flat, boot);
      StillBumping(s, Vpn(CodeSize(nsos, |nsos|)), ramSize);
      StackVacant(flat, space, stackSize);
      StackHasRoom(flat, nsos, stackSize, decode, commits, space, s, now);
    }
  }

  method MapCodeAndStack(vmm: Vmm, pages: Pages.PageAllocator, process: Process, nsos: seq<Nso>, decode: Decoder,
                         stackSize: nat, commits: nat -> bool, ghost before: FlatMap, ghost held: set<nat>)
    returns (e: Error, mapped: seq<Region>)
    requires vmm.Valid() && !vmm.scopeOpen && pages.Valid() && vmm.Repr() !! pages.Repr()
    requires process !in vmm.Repr() && process !in pages.Repr() && process.modules == []
    requires AllLaid(nsos) && |nsos| > 0 && SpaceOk(process.space) && process.space.code.size == CodeSize(nsos, |nsos|)
    requires 0 < stackSize < 0x1_0000_0000
    requires vmm.flat == before && pages.out == held
    modifies vmm.Repr(), pages.Repr(), process`modules, process`boot, process`mainStack, process`entryPoint,
        process`codeBytesMapped
    ensures vmm.Valid() && !vmm.scopeOpen && pages.Valid() && pages.Shape()
    ensures Undoable(before, vmm.flat, process.boot, mapped)
    ensures e == Ok ==> Building(before, vmm.flat, process.boot, held, pages.out, mapped)
    ensures e == Ok ==> CodeAndStackIn(process, vmm.ram[..], nsos, decode, stackSize)
    ensures e == Ok ==> mapped == ModuleRanges(process.modules) + [process.mainStack]
    ensures e == Ok ==> old(pages.Shape()) && SamePool(old(pages.Now()), pages.Now())
    ensures old(pages.Shape())
    ensures Blank(before, old(pages.Now()), vmm.ramSize) && stackSize % 4096 == 0 ==>
              (e == Ok <==> HalfFits(nsos, stackSize, decode, commits, process.space, old(pages.Now())))
    ensures Blank(before, old(pages.Now()), vmm.ramSize) && stackSize % 4096 == 0 && e == Ok ==>
              pages.Now() == HalfUsed(old(pages.Now()), nsos, stackSize)
  {
    hide Vmm.Valid, Pages.PageAllocator.Valid, Owned, Extends, ListOk, PagesOf, RangePages, Laid, InPlace, Kept,
         SamePool, Vpn, CodeSize, Describe, SpaceOk, ZeroIn, RwIn, ModulesInPlace, Covered, ValidPageRange,
         ModuleRanges, Region.Contains, Blank, Bumping, Vacant, Room, ModulesFit, HalfFits;
    StackFits(process.space, stackSize);
    var start := process.space.code.base;
    pages.HasShape();
    HalfNeedsModules(nsos, stackSize, decode, commits, process.space, pages.Now());
    ghost var boot;
    e, mapped, boot := MapModules(vmm, pages, process, nsos, decode, start, commits, before, held);
    process.boot := boot;
    if e != Ok {
      return;
    }
    process.codeBytesMapped, process.entryPoint := process.space.code.size, process.modules[0].text.base;
    process.mainStack := Region(process.space.stack.base + STACK_GUARD_PAGES * PAGE_SIZE, stackSize);
    ghost var boot0, ram0, pool0 := boot, vmm.ram[..], pages.Now();
    StackRoom(nsos, stackSize, decode, commits, process.space, before, vmm.flat, boot, old(pages.Now()), pool0,
              vmm.ramSize);
    e, mapped, boot := MapStack(vmm, pages, mapped, process.space.stack, process.mainStack, commits(|nsos|),
        before, boot, held);
    process.boot := boot;
    if e != Ok {
      return;
    }
    SamePoolTransitive(old(pages.Now()), pool0, pages.Now());
    ModulesKept(boot0, ram0, boot, vmm.ram[..], nsos, |nsos|, decode, start);
  }

  /** With modules and stack in place the TLS page can be had exactly when the whole program fits. */
  lemma TlsRoom(nsos: seq<Nso>, stackSize: nat, decode: Decoder, commits: nat -> bool, space: AddressSpace,
                before: FlatMap, flat: FlatMap, boot: FlatMap, ram: seq<Byte>, s: Pages.State, now: Pages.State,
                ramSize: nat)
    requires AllLaid(nsos) && SpaceOk(space) && space.code.size == CodeSize(nsos, |nsos|) && space.tlsIo.size > 0
    requires Extends(before, flat, boot)
    requires var stack := Region(space.stack.base + STACK_GUARD_PAGES * PAGE_SIZE, stackSize);
             HalfLoaded(boot, ram, nsos, decode, space, stack) && space.stack.Contains(stack.base, stack.size)
    ensures Blank(before, s, ramSize) && stackSize % 4096 == 0
            && HalfFits(nsos, stackSize, decode, commits, space, s) && now == HalfUsed(s, nsos, stackSize) ==>
              && Bumping(now, ramSize)
              && Vacant(flat, space.tlsIo.base, 4096) && space.tlsIo.Contains(space.tlsIo.base, 4096)
              && (Room(flat, now, Vpn(space.tlsIo.base), 1, commits(|nsos| + 1))
                  <==> ProgramFits(nsos, stackSize, decode, commits, space, s))
  {
    hide AllLaid, SpaceOk, CodeSize, RangePages, Vpn, Vacant, Room, HalfFits, ProgramFits, ModulesInPlace, ZeroIn,
         RwIn, Bumping, Extends, Slots, RangeSlots;
    var stack := Region(space.stack.base + STACK_GUARD_PAGES * PAGE_SIZE, stackSize);
    if Blank(before, s, ramSize) && stackSize % 4096 == 0
       && HalfFits(nsos, stackSize, decode, commits, space, s) && now == HalfUsed(s, nsos, stackSize) {
      OnlyBuilt(flat, boot);
      StillBumping(s, Vpn(CodeSize(nsos, |nsos|)) + Vpn(stackSize), ramSize);
      TlsVacant(flat, space, stack);
      TlsHasRoom(flat, nsos, stackSize, decode, commits, space, s, now);
    }
  }

  /** The last mapping: thread-local storage, after modules and stack. */
  method MapTls(vmm: Vmm, pages: Pages.PageAllocator, process: Process, mapped: seq<Region>, nsos: seq<Nso>,
                decode: Decoder, stackSize: nat, commits: bool, ghost before: FlatMap, ghost held: set<nat>)
    returns (e: Error)
    requires vmm.Valid() && !vmm.scopeOpen && pages.Valid() && vmm.Repr() !! pages.Repr()
    requires process !in vmm.Repr() && process !in pages.Repr() && process.tls == null
    requires AllLaid(nsos) && |nsos| > 0 && SpaceOk(process.space) && process.space.code.size == CodeSize(nsos, |nsos|)
    requires stackSize > 0 && process.space.tlsIo.size > 0
    requires Building(before, vmm.flat, process.boot, held, pages.out, mapped)
    requires CodeAndStackIn(process, vmm.ram[..], nsos, decode, stackSize)
    requires mapped == ModuleRanges(process.modules) + [process.mainStack]
    modifies vmm.Repr(), pages.Repr(), process`tls, process`mainThreadTls, process`boot, process`p0
    ensures vmm.Valid() && !vmm.scopeOpen && pages.Valid() && pages.Shape()
    ensures e != Ok ==> vmm.flat == old(vmm.flat) && process.boot == old(process.boot)
    ensures process.tls != null && fresh(process.tls) && fresh(process.tls.mapped) && process.tls.Valid()
    ensures process.tls.vmm == vmm
    ensures e != Ok ==> process.tls.pageCount == 0
    ensures e == Ok ==> Extends(before, vmm.flat, process.boot) && Owned(process.boot, held, pages.out)
    ensures e == Ok ==> InSpace(process, nsos, stackSize) && MemoryLoaded(process, vmm.ram[..], nsos, decode)
    ensures e == Ok ==> Recorded(process, vmm, pages) && process.tls.InUse() == {0}
    ensures e == Ok ==> process.p0 == pages.Now().Cursor()
    ensures old(pages.Shape()) && (e == Ok ==> SamePool(old(pages.Now()), pages.Now()))
    ensures Bumping(old(pages.Now()), vmm.ramSize) && Vacant(old(vmm.flat), process.space.tlsIo.base, 4096)
            && process.space.tlsIo.Contains(process.space.tlsIo.base, 4096) ==>
              (e == Ok <==> Room(old(vmm.flat), old(pages.Now()), Vpn(process.space.tlsIo.base), 1, commits))
  {
    hide Vmm.Valid, Pages.PageAllocator.Valid, Owned, Extends, ListOk, PagesOf, RangePages, Laid, Kept, SamePool, Vpn,
         CodeSize, SpaceOk, ZeroIn, RwIn, ModulesInPlace, Described, Covered, TlsAllocator.Shape,
         TlsAllocator.PagesMapped, Used, ModuleRanges, Region.Contains, HalfLoaded, InSpace, MemoryLoaded, Recorded,
         Bumping, Vacant, Room, TlsAllocator.Valid;
    StackFits(process.space, stackSize);
    ghost var boot, ram := process.boot, vmm.ram[..];
    var tls, gva;
    ghost var boot';
    e, tls, gva, boot' := StartTls(vmm, pages, mapped, process.space.tlsIo, commits, before, boot, held);
    process.tls := tls;
    if e != Ok {
      return;
    }
    process.mainThreadTls, process.boot, process.p0 := gva, boot', pages.Now().Cursor();
    LoadedSpace(process, nsos, stackSize);
    LoadedMemory(process, boot, ram, vmm.ram[..], nsos, decode);
    LoadedRecord(process, vmm, pages, boot, mapped);
  }

  /** Everything between the first mapping and success; failures leave the undo list. */
  method MapProcess(vmm: Vmm, pages: Pages.PageAllocator, process: Process, nsos: seq<Nso>, decode: Decoder,
                    stackSize: nat, commits: nat -> bool, ghost before: FlatMap, ghost held: set<nat>)
    returns (e: Error, mapped: seq<Region>)
    requires vmm.Valid() && !vmm.scopeOpen && pages.Valid() && vmm.Repr() !! pages.Repr()
    requires process !in vmm.Repr() && process !in pages.Repr() && process.modules == [] && process.tls == null
    requires AllLaid(nsos) && |nsos| > 0 && SpaceOk(process.space) && process.space.code.size == CodeSize(nsos, |nsos|)
    requires 0 < stackSize < 0x1_0000_0000 && process.space.tlsIo.size > 0
    requires vmm.flat == before && pages.out == held
    modifies vmm.Repr(), pages.Repr(), process
    ensures vmm.Valid() && !vmm.scopeOpen && pages.Valid() && pages.Shape()
    ensures e != Ok ==> Undoable(before, vmm.flat, process.boot, mapped)
    ensures process.tls != null ==> fresh(process.tls) && fresh(process.tls.mapped) && process.tls.Valid()
    ensures process.tls != null ==> process.tls.vmm == vmm
    ensures process.tls != null && e != Ok ==> process.tls.pageCount == 0
    ensures process.heapSize == old(process.heapSize) && process.borrows == old(process.borrows)
            && process.space == old(process.space)
    ensures e == Ok ==> Extends(before, vmm.flat, process.boot) && Owned(process.boot, held, pages.out)
    ensures e == Ok ==> InSpace(process, nsos, stackSize) && MemoryLoaded(process, vmm.ram[..], nsos, decode)
    ensures e == Ok ==> Recorded(process, vmm, pages) && process.tls.InUse() == {0}
    ensures e == Ok ==> process.p0 == pages.Now().Cursor()
    ensures e == Ok ==> old(pages.Shape()) && SamePool(old(pages.Now()), pages.Now())
    ensures old(pages.Shape())
    ensures Blank(before, old(pages.Now()), vmm.ramSize) && stackSize % 4096 == 0 ==>
              (e == Ok <==> ProgramFits(nsos, stackSize, decode, commits, process.space, old(pages.Now())))
  {
    hide Vmm.Valid, Pages.PageAllocator.Valid, Owned, Extends, ListOk, PagesOf, RangePages, Laid, Kept, SamePool, Vpn,
         CodeSize, SpaceOk, ZeroIn, RwIn, ModulesInPlace, Described, Covered, TlsAllocator.Shape,
         TlsAllocator.PagesMapped, Used, ModuleRanges, Region.Contains, HalfLoaded, InSpace, MemoryLoaded, Recorded,
         Blank, Bumping, Vacant, Room, HalfFits, ProgramFits, HalfUsed, Undoable, TlsAllocator.Valid;
    StackFits(process.space, stackSize);
    pages.HasShape();
    ProgramNeedsHalf(nsos, stackSize, decode, commits, process.space, pages.Now());
    e, mapped := MapCodeAndStack(vmm, pages, process, nsos, decode, stackSize, commits, before, held);
    if e != Ok {
      return;
    }
    ghost var pool := pages.Now();
    TlsRoom(nsos, stackSize, decode, commits, process.space, before, vmm.flat, process.boot, vmm.ram[..],
            old(pages.Now()), pool, vmm.ramSize);
    e := MapTls(vmm, pages, process, mapped, nsos, decode, stackSize, commits(|nsos| + 1), before, held);
    if e == Ok {
      SamePoolTransitive(old(pages.Now()), pool, pages.Now());
    }
  }

  lemma LoadedSpace(process: Process, nsos: seq<Nso>, stackSize: nat)
    requires AllLaid(nsos) && |nsos| > 0 && SpaceOk(process.space) && process.space.code.size == CodeSize(nsos, |nsos|)
    requires process.space.tlsIo.size > 0 && Described(process.modules, nsos, |nsos|, process.space.code.base)
    requires process.codeBytesMapped == process.space.code.size
    requires process.entryPoint == process.modules[0].text.base && process.mainThreadTls == process.space.tlsIo.base
    requires process.mainStack == Region(process.space.stack.base + STACK_GUARD_PAGES * PAGE_SIZE, stackSize)
    requires process.space.stack.Contains(process.mainStack.base, process.mainStack.size)
    ensures InSpace(process, nsos, stackSize)
  {
  }

  lemma LoadedMemory(process: Process, boot: FlatMap, ram: seq<Byte>, ram': seq<Byte>, nsos: seq<Nso>, decode: Decoder)
    requires AllLaid(nsos) && HalfLoaded(boot, ram, nsos, decode, process.space, process.mainStack)
    requires Kept(boot, ram, process.boot, ram') && process.mainThreadTls == process.space.tlsIo.base
    requires process.boot.Keys == boot.Keys + {Vpn(process.space.tlsIo.base)}
    requires ZeroIn(process.boot, ram', process.mainThreadTls, BLOCK_BYTES)
            && RwIn(process.boot, Vpn(process.space.tlsIo.base), 1)
    requires SpaceOk(process.space) && process.space.tlsIo.size > 0
    requires process.mainStack.base == process.space.stack.base + STACK_GUARD_PAGES * PAGE_SIZE
    requires process.space.stack.Contains(process.mainStack.base, process.mainStack.size)
    ensures MemoryLoaded(process, ram', nsos, decode)
  {
    hide SpaceOk, Kept, ZeroIn, RwIn, ModulesInPlace, Laid, Vpn, Covered, RangePages;
    HalfKept(boot, ram, process.boot, ram', nsos, decode, process.space, process.mainStack);
    GuardFree(process.space, process.mainStack);
  }

  lemma LoadedRecord(process: Process, vmm: Vmm, pages: Pages.PageAllocator, boot: FlatMap, mapped: seq<Region>)
    requires process.tls != null && process !in process.tls.Repr() && process.tls.Shape() && process.tls.pageCount == 1
    requires process.tls.vmm == vmm && process.tls.pages == pages && process.tls.region == process.space.tlsIo
    requires mapped == ModuleRanges(process.modules) + [process.mainStack] && ListOk(mapped)
            && boot.Keys == PagesOf(mapped)
    requires process.boot.Keys == boot.Keys + {Vpn(process.space.tlsIo.base)} && Vpn(process.space.tlsIo.base) !in boot
    requires RwIn(process.boot, Vpn(process.space.tlsIo.base), 1) && process.mainStack.size > 0
    ensures Recorded(process, vmm, pages)
  {
    hide ListOk, PagesOf, RwIn, TlsAllocator.Shape, ModuleRanges;
    PageSet(Vpn(process.space.tlsIo.base));
  }

  lemma PageSet(v: nat)
    ensures RangePages(v, 1) == {v}
  {
    assert RangePages(v, 0) == {};
  }

  lemma OpenedAreLaid(sources: seq<seq<Byte>>, nsos: seq<Nso>)
    requires Opened(sources, nsos)
    ensures AllLaid(nsos)
  {
    hide Laid, Decoded;
    forall k | 0 <= k < |nsos|
      ensures Laid(nsos[k])
    {
      assert Acceptable(sources[k]);
    }
  }

  lemma MainIsPresent(files: seq<Option<seq<Byte>>>)
    requires |files| == MAX_MODULES && files[MAIN].Some?
    ensures |Present(files)| > 0
  {
    PresentPrefix(files, MAIN + 1);
    PresentSnoc(files, MAIN);
    hide Present;
  }

  lemma CodeRegionIs(space: AddressSpace, codeSize: nat, k: nat)
    requires PageAligned(codeSize) && space == Carve(AlignUpPage(codeSize), k * ASLR_GRANULE)
    ensures space.code.size == codeSize && space.tlsIo.size > 0 && AlignUpPage(codeSize) == codeSize
  {
  }

  /** Takes everything back down: TLS through its allocator, the rest through the list. */
  method Unwind(vmm: Vmm, process: Process, mapped: seq<Region>, ghost before: FlatMap)
    requires vmm.Valid() && !vmm.scopeOpen && process !in vmm.Repr()
    requires Undoable(before, vmm.flat, process.boot, mapped)
    requires process.tls != null ==> process.tls.Valid() && process.tls.vmm == vmm && process.tls.pageCount == 0
    requires process.tls != null ==> process !in process.tls.Repr()
    modifies vmm.Repr(), process, process.tls
    ensures vmm.Valid() && !vmm.scopeOpen && vmm.flat == before && process.IsZero()
  {
    hide Vmm.Valid, Extends, ListOk, PagesOf, TlsAllocator.Shape, TlsAllocator.PagesMapped, Pages.PageAllocator.Valid,
         UnmapRange;
    UnmapRangeKeeps(vmm.flat, if process.tls == null then 0 else Vpn(process.tls.region.base), 0);
    if process.tls != null {
      process.tls.Teardown();
    }
    Unwinds(before, vmm.flat, process.boot);
    UnmapAll(vmm, mapped);
    process.Clear();
  }

  predicate StackSizeOk(stackSize: nat) {
    stackSize > 0 && PageAligned(stackSize)
  }

  /** The address space of a program: its code, shifted by the seed's whole number of 2 MB granules. */
  function SpaceFor(codeBytes: nat, seed: bv64): AddressSpace
    requires codeBytes <= END - START - FIXED_SIZE
  {
    Carve(codeBytes, AslrShift(codeBytes, seed) * ASLR_GRANULE)
  }

  /** A 39-bit layout holds the code, and modules, stack and thread-local storage fit in it. */
  ghost predicate Boots(nsos: seq<Nso>, stackSize: nat, kind: AddressSpaceType, seed: bv64, decode: Decoder,
                        commits: nat -> bool, s: Pages.State)
    requires AllLaid(nsos)
  {
    var code := CodeSize(nsos, |nsos|);
    && kind.Bits39? && 0 < code <= END - START - FIXED_SIZE
    && ProgramFits(nsos, stackSize, decode, commits, SpaceFor(code, seed), s)
  }

  /** The files give acceptable modules, main among them, that boot. */
  ghost predicate Bootable(files: seq<Option<seq<Byte>>>, stackSize: nat, kind: AddressSpaceType, seed: bv64,
                           decode: Decoder, commits: nat -> bool, s: Pages.State)
    requires |files| == MAX_MODULES
  {
    && StackSizeOk(stackSize) && files[MAIN].Some?
    && exists nsos :: Opened(Present(files), nsos) && AllLaid(nsos)
                      && Boots(nsos, stackSize, kind, seed, decode, commits, s)
  }

  lemma OpenedIsUnique(sources: seq<seq<Byte>>, a: seq<Nso>, b: seq<Nso>)
    requires Opened(sources, a) && Opened(sources, b)
    ensures a == b
  {
    hide Acceptable, Decoded;
  }

  lemma OpenedAcceptable(files: seq<Option<seq<Byte>>>, nsos: seq<Nso>)
    requires Opened(Present(files), nsos)
    ensures forall s :: s in Present(files) ==> Acceptable(s)
  {
    hide Acceptable, Decoded, Present;
  }

  lemma NotAccepted(files: seq<Option<seq<Byte>>>)
    ensures (exists nsos :: Opened(Present(files), nsos)) ==> forall s :: s in Present(files) ==> Acceptable(s)
  {
    hide Acceptable, Decoded, Present, Opened;
    forall nsos | Opened(Present(files), nsos)
      ensures forall s :: s in Present(files) ==> Acceptable(s)
    {
      OpenedAcceptable(files, nsos);
    }
  }

  lemma BootableIs(files: seq<Option<seq<Byte>>>, nsos: seq<Nso>, stackSize: nat, kind: AddressSpaceType, seed: bv64,
                   decode: Decoder, commits: nat -> bool, s: Pages.State)
    requires |files| == MAX_MODULES && Opened(Present(files), nsos) && AllLaid(nsos)
    ensures Bootable(files, stackSize, kind, seed, decode, commits, s) <==>
              StackSizeOk(stackSize) && files[MAIN].Some? && Boots(nsos, stackSize, kind, seed, decode, commits, s)
  {
    hide Opened, AllLaid, Boots, Present;
    forall other | Opened(Present(files), other)
      ensures other == nsos
    {
      OpenedIsUnique(Present(files), other, nsos);
    }
  }

  lemma BootsIs(nsos: seq<Nso>, stackSize: nat, kind: AddressSpaceType, seed: bv64, decode: Decoder,
                commits: nat -> bool, s: Pages.State)
    requires AllLaid(nsos)
    ensures var code := CodeSize(nsos, |nsos|);
            Boots(nsos, stackSize, kind, seed, decode, commits, s) <==>
              && kind.Bits39? && 0 < code <= END - START - FIXED_SIZE
              && ProgramFits(nsos, stackSize, decode, commits, SpaceFor(code, seed), s)
  {
    hide AllLaid, CodeSize, SpaceFor, ProgramFits;
  }

  /**
   process_bootstrap. All or nothing on the page table: any failure leaves it exactly as it was;
   success adds the modules, the stack and the first TLS page, on pages of their own.
   */
  method Bootstrap(files: seq<Option<seq<Byte>>>, stackSize: nat, kind: AddressSpaceType, seed: bv64, decode: Decoder,
                   commits: nat -> bool, vmm: Vmm, pages: Pages.PageAllocator, process: Process)
    returns (e: Error, ghost nsos: seq<Nso>)
    requires vmm.Valid() && !vmm.scopeOpen && pages.Valid() && vmm.Repr() !! pages.Repr()
    requires process !in vmm.Repr() && process !in pages.Repr()
    requires |files| == MAX_MODULES && stackSize < 0x1_0000_0000
    modifies vmm.Repr(), pages.Repr(), process
    ensures vmm.Valid() && !vmm.scopeOpen && pages.Valid()
    ensures e != Ok ==> vmm.flat == old(vmm.flat) && (StackSizeOk(stackSize) ==> process.IsZero())
    ensures e == Ok ==> StackSizeOk(stackSize) && Opened(Present(files), nsos) && AllLaid(nsos)
    ensures e == Ok ==> Extends(old(vmm.flat), vmm.flat, process.boot) && Owned(process.boot, old(pages.out), pages.out)
    ensures e == Ok ==> InSpace(process, nsos, stackSize) && MemoryLoaded(process, vmm.ram[..], nsos, decode)
    ensures e == Ok ==> Recorded(process, vmm, pages) && process.tls.InUse() == {0}
    ensures e == Ok ==> process.heapSize == 0 && process.borrows == []
    ensures e == Ok ==> fresh(process.tls) && fresh(process.tls.mapped)
    ensures e == Ok ==> pages.Shape() && process.p0 == pages.Now().Cursor()
    ensures e == Ok ==> old(pages.Shape()) && SamePool(old(pages.Now()), pages.Now())
    ensures e == Ok ==> CodeSize(nsos, |nsos|) <= END - START - FIXED_SIZE
    ensures e == Ok ==> process.space == SpaceFor(CodeSize(nsos, |nsos|), seed)
    ensures old(pages.Shape())
    ensures Blank(old(vmm.flat), old(pages.Now()), vmm.ramSize) ==>
              (e == Ok <==> Bootable(files, stackSize, kind, seed, decode, commits, old(pages.Now())))
  {
    hide Vmm.Valid, Pages.PageAllocator.Valid, Owned, Extends, ListOk, PagesOf, Acceptable, Laid, SamePool, SpaceOk,
         CodeSize, Opened, InSpace, MemoryLoaded, TlsAllocator.Valid, Carve, AlignUpPage, Present, AslrShift,
         Blank, ProgramFits, Boots;
    nsos := [];
    pages.HasShape();
    ghost var pool, blank := pages.Now(), Blank(vmm.flat, pages.Now(), vmm.ramSize);
    if stackSize == 0 || stackSize % PAGE_SIZE != 0 {
      return InvalidArgument, nsos;
    }
    process.Clear();
    var images, codeSize;
    e, images, codeSize := OpenModules(files);
    nsos := images;
    NotAccepted(files);
    if e != Ok {
      return;
    }
    OpenedAreLaid(Present(files), images);
    MainIsPresent(files);
    CodeSizeAligned(images, |images|);
    BootableIs(files, images, stackSize, kind, seed, decode, commits, pool);
    BootsIs(images, stackSize, kind, seed, decode, commits, pool);
    var space;
    e, space := AddressSpaceInit(kind, codeSize, seed);
    if e != Ok {
      return;
    }
    process.space := space;
    CodeRegionIs(space, codeSize, AslrShift(AlignUpPage(codeSize), seed));
    var mapped;
    e, mapped := MapProcess(vmm, pages, process, images, decode, stackSize, commits, vmm.flat, pages.out);
    if e != Ok {
      Unwind(vmm, process, mapped, old(vmm.flat));
      return;
    }
  }
}

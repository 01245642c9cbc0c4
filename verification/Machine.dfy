/** From an empty machine to a running process (core/emulator.c): the state the memory SVCs start in. */
module Machines {
  import opened Results
  import opened Geometry
  import opened FlatMaps
  import opened GuestMemory
  import opened AddressSpaces
  import opened Nsos
  import opened MemoryKernel
  import opened Vmms
  import opened Processes
  import opened MappingLists
  import opened CodeRegions
  import opened Bootstraps
  import opened ModuleImages
  import opened LoadedPrograms
  import opened SvcMemory
  import opened Teardowns
  import Pages = PageAllocators

  /** What a bootstrap on an empty page table and a fresh allocator leaves is where the SVC machine starts. */
  lemma BootedInv(space: AddressSpace, stack: Region, boot: FlatMap, alloc: Pages.State, held: set<nat>,
                  out: set<nat>, ramSize: nat)
    requires Owned(boot, held, out) && Pages.Conserved(alloc, out) && alloc.runs == []
    requires (alloc.base + alloc.size) * PAGE_SIZE <= ramSize && PageAligned(ramSize)
    requires SpaceOk(space) && Places(boot, space, stack) && space.stack.Contains(stack.base, stack.size)
    requires PageAligned(stack.base) && PageAligned(stack.size) && space.tlsIo.size > 0
    ensures Inv(Config(space, ramSize, boot, alloc.Cursor()), Kernel(boot, alloc, 0, []))
  {
    var c := Config(space, ramSize, boot, alloc.Cursor());
    BootRegions(space, stack, boot);
    hide SpaceOk, Places;
    forall v | v in boot
      ensures boot[v].ppn < c.p0
    {
      assert boot[v].ppn in out;
    }
    assert ConfigOk(c);
    forall v: nat
      ensures At(c, 0, [], v, Lookup(boot, v))
    {
    }
  }

  lemma BootRegions(space: AddressSpace, stack: Region, boot: FlatMap)
    requires SpaceOk(space) && Places(boot, space, stack) && space.stack.Contains(stack.base, stack.size)
    requires PageAligned(stack.base) && PageAligned(stack.size) && space.tlsIo.size > 0
    ensures forall v :: v in boot ==> space.code.Pages(v) || space.stack.Pages(v) || space.tlsIo.Pages(v)
  {
    RegionPages(space.tlsIo);
    if stack.size > 0 {
      StackPages(space.stack, stack);
    }
    forall v | v in boot
      ensures space.code.Pages(v) || space.stack.Pages(v) || space.tlsIo.Pages(v)
    {
      assert v in RangePages(Vpn(space.code.base), Vpn(space.code.size)) || v in Covered(stack)
             || v == Vpn(space.tlsIo.base);
    }
  }

  lemma StackPages(region: Region, stack: Region)
    requires RegionOk(region) && region.Contains(stack.base, stack.size) && PageAligned(stack.base)
            && PageAligned(stack.size)
    ensures forall v :: v in Covered(stack) ==> region.Pages(v)
  {
  }

  /** Guest RAM, its page table and pages, and at most one program. */
  class Emulator {
    const vmm: Vmm
    const pages: Pages.PageAllocator
    const process: Process
    var service: MemoryService?

    ghost predicate Apart() {
      && vmm.Repr() !! pages.Repr() && process !in vmm.Repr() && process !in pages.Repr()
      && this !in vmm.Repr() && this !in pages.Repr()
    }

    /** Nothing is mapped and no page is handed out. */
    ghost predicate Fresh()
      reads vmm, pages, pages.freeRuns
    {
      vmm.flat == map[] && pages.Shape() && pages.Now() == Pages.State(0, vmm.ramSize / PAGE_SIZE, 0, [])
    }

    /** A running program is in a state the memory SVCs can reach, with what its teardown needs on record. */
    ghost predicate Running()
      requires service != null
      reads this, service, vmm.Repr(), pages.Repr(), process, process.tls, service.Repr()
      reads if process.tls == null then {} else {process.tls.mapped}
    {
      && service.vmm == vmm && service.pages == pages && service.process == process
      && service.Valid() && Recorded(process, vmm, pages)
      && process.tls != this as object && this as object != process.tls.mapped
    }

    ghost predicate Valid()
      reads this, service, vmm.Repr(), pages.Repr(), process, process.tls
      reads if process.tls == null then {} else {process.tls.mapped}
      reads if service == null then {} else service.Repr()
    {
      && Apart() && vmm.Valid() && !vmm.scopeOpen && pages.Valid()
      && PageAligned(vmm.ramSize) && pages.base == 0 && pages.size == vmm.ramSize / PAGE_SIZE
      && (if service == null then Fresh() else Running())
    }

    /** emulator_create. */
    constructor (ramBase: nat, ramSize: nat)
      requires ramBase > 0 && PageAligned(ramBase) && PageAligned(ramSize) && ramBase + ramSize <= TWO_TO_THE_64
      ensures Valid() && service == null
    {
      hide Vmm.Valid, Pages.PageAllocator.Valid, Inv, Recorded;
      vmm := new Vmm(ramBase, ramSize);
      pages := new Pages.PageAllocator(0, ramSize / PAGE_SIZE);
      process := new Process();
      service := null;
      new;
      pages.HasShape();
    }

    /** The loading half of emulator_load_program: a failure leaves the machine fresh, ready to load again. */
    method LoadProgram(files: seq<Option<seq<Byte>>>, stackSize: nat, kind: AddressSpaceType, seed: bv64,
                       decode: Decoder, commits: nat -> bool)
      returns (e: Error, ghost nsos: seq<Nso>)
      requires Valid() && |files| == MAX_MODULES && stackSize < 0x1_0000_0000
      modifies this, vmm.Repr(), pages.Repr(), process
      ensures Valid()
      ensures old(service) != null ==> e == InvalidArgument && service == old(service)
      ensures old(service) == null ==> (e == Ok <==> service != null)
      ensures old(service) == null && e == Ok ==>
                && vmm.flat == process.boot && process.heapSize == 0 && process.borrows == []
                && AllLaid(nsos) && Opened(Present(files), nsos) && InSpace(process, nsos, stackSize)
                && MemoryLoaded(process, vmm.ram[..], nsos, decode)
      // It succeeds exactly when the program can boot on an empty machine, and then the guest sees its files.
      ensures old(service) == null ==>
                (e == Ok <==> Bootable(files, stackSize, kind, seed, decode, commits,
                                       Pages.State(0, vmm.ramSize / PAGE_SIZE, 0, [])))
      ensures old(service) == null && e == Ok ==>
                && CodeSize(nsos, |nsos|) <= END - START - FIXED_SIZE
                && process.space == SpaceFor(CodeSize(nsos, |nsos|), seed)
      ensures old(service) == null && e == Ok ==>
                && Loads(process.space, process.modules, vmm.flat, vmm.ram[..], nsos, decode)
                && process.entryPoint == process.space.code.base + nsos[0].segments[0].memoryOffset
    {
      hide Vmm.Valid, Pages.PageAllocator.Valid, Inv, MemoryLoaded, Recorded, Owned, Opened, Laid, SpaceOk, Places,
           InSpace, Extends, SamePool, Pages.Conserved, Present, Bootable, SpaceFor, Loads, CodeSize;
      nsos := [];
      if service != null {
        return InvalidArgument, nsos;
      }
      BlankMachine(vmm.ramSize);
      e, nsos := Bootstrap(files, stackSize, kind, seed, decode, commits, vmm, pages, process);
      if e != Ok {
        pages.Reset();
        pages.HasShape();
        return;
      }
      pages.IsConserved();
      LoadedPlaces(process, vmm.ram[..], nsos, decode, stackSize);
      NothingElse(vmm.flat, process.boot);
      StillFresh(Pages.State(0, vmm.ramSize / PAGE_SIZE, 0, []), pages.Now());
      BootedInv(process.space, process.mainStack, process.boot, pages.Now(), old(pages.out), pages.out, vmm.ramSize);
      BackedByRam(vmm);
      GuestSees(process, vmm.flat, vmm.ram[..], nsos, decode, stackSize);
      service := new MemoryService(vmm, pages, process);
    }

    /** emulator_unload_program: whatever the program did, the machine is fresh again. */
    method UnloadProgram()
      requires Valid()
      modifies this, vmm.Repr(), pages.Repr(), process, process.tls
      ensures Valid() && service == null && Fresh()
    {
      hide Vmm.Valid, Pages.PageAllocator.Valid, Inv, Recorded;
      if service == null {
        return;
      }
      TeardownProcess(service);
      pages.Reset();
      pages.HasShape();
      service := null;
    }
  }

  lemma LoadedPlaces(process: Process, ram: seq<Byte>, nsos: seq<Nso>, decode: Decoder, stackSize: nat)
    requires AllLaid(nsos) && MemoryLoaded(process, ram, nsos, decode) && InSpace(process, nsos, stackSize)
            && StackSizeOk(stackSize)
    ensures Places(process.boot, process.space, process.mainStack)
    ensures SpaceOk(process.space) && process.space.tlsIo.size > 0
    ensures process.space.stack.Contains(process.mainStack.base, process.mainStack.size)
    ensures PageAligned(process.mainStack.base) && PageAligned(process.mainStack.size)
  {
    hide ModulesInPlace, Laid, Described, Places, ZeroIn, RwIn;
  }

  lemma BlankMachine(ramSize: nat)
    ensures Blank(map[], Pages.State(0, ramSize / PAGE_SIZE, 0, []), ramSize)
  {
  }

  lemma BackedByRam(vmm: Vmm)
    requires vmm.Valid() && !vmm.scopeOpen
    ensures forall v :: v in vmm.flat ==> (vmm.flat[v].ppn + 1) * 4096 <= |vmm.ram[..]|
  {
    vmm.Idle();
  }

  lemma GuestSees(process: Process, flat: FlatMap, ram: seq<Byte>, nsos: seq<Nso>, decode: Decoder, stackSize: nat)
    requires AllLaid(nsos) && MemoryLoaded(process, ram, nsos, decode) && InSpace(process, nsos, stackSize)
    requires flat == process.boot && forall v :: v in flat ==> (flat[v].ppn + 1) * 4096 <= |ram|
    ensures Loads(process.space, process.modules, flat, ram, nsos, decode)
    ensures |nsos| > 0 && |nsos[0].segments| == 3
    ensures process.entryPoint == process.space.code.base + nsos[0].segments[0].memoryOffset
  {
    hide AllLaid, SpaceOk, Described, ModulesInPlace, Laid, CodeSize, Loads, Places, ZeroIn, RwIn, Describe;
    EntryAt(process.modules, nsos, process.space.code.base);
    ProgramLoaded(process.space, process.modules, flat, ram, nsos, decode);
  }

  lemma EntryAt(modules: seq<Module>, nsos: seq<Nso>, start: nat)
    requires AllLaid(nsos) && |nsos| > 0 && Described(modules, nsos, |nsos|, start)
    ensures |nsos[0].segments| == 3 && |modules| > 0
    ensures modules[0].text.base == start + nsos[0].segments[0].memoryOffset
  {
    assert Laid(nsos[0]) && modules[0] == Describe(nsos[0], start + CodeSize(nsos, 0));
    DescribeMeans(nsos[0], start);
    hide Laid;
  }

  /** When a program of opened modules boots on an empty machine, in numbers. */
  lemma BootableMeans(files: seq<Option<seq<Byte>>>, nsos: seq<Nso>, stackSize: nat, kind: AddressSpaceType, seed: bv64,
                      decode: Decoder, commits: nat -> bool, ramPages: nat)
    requires |files| == 13 && Opened(Present(files), nsos) && AllLaid(nsos)
    ensures var code := CodeSize(nsos, |nsos|);
            Bootable(files, stackSize, kind, seed, decode, commits, Pages.State(0, ramPages, 0, [])) <==>
              && stackSize > 0 && stackSize % 4096 == 0 && stackSize + 4096 <= 0x8000_0000
              && files[1].Some? && kind.Bits39? && 0 < code && code + 0x22_0800_0000 <= 0x80_0000_0000
              && AllReadable(nsos, decode) && (forall k: nat :: k < |nsos| + 2 ==> commits(k))
              && code / 4096 + stackSize / 4096 + 1 <= ramPages
              && |ProgramSlots(SpaceFor(code, seed), code, stackSize)| <= 256
  {
    hide Opened, AllLaid, Present, CodeSize, ProgramSlots, AllReadable, ProgramFits, Boots, AslrShift;
    var s := Pages.State(0, ramPages, 0, []);
    BootableIs(files, nsos, stackSize, kind, seed, decode, commits, s);
    BootsIs(nsos, stackSize, kind, seed, decode, commits, s);
    if stackSize % 4096 == 0 && CodeSize(nsos, |nsos|) <= END - START - FIXED_SIZE {
      ProgramFitsMeans(nsos, stackSize, decode, commits, SpaceFor(CodeSize(nsos, |nsos|), seed), s);
    }
    hide Bootable;
  }

  lemma NothingElse(flat: FlatMap, boot: FlatMap)
    requires Extends(map[], flat, boot)
    ensures flat == boot
  {
  }

  lemma StillFresh(a: Pages.State, b: Pages.State)
    requires SamePool(a, b) && a.runs == []
    ensures b.runs == [] && b.base == a.base && b.size == a.size
  {
  }
}

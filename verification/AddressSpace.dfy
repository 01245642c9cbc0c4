/** The 39-bit region carve-up (core/hle/kernel/address_space.c). */
module AddressSpaces {
  import opened Results
  import opened Geometry

  const START: nat := 0x800_0000
  const END: nat := 0x80_0000_0000
  const ALIAS_SIZE: nat := 0x10_0000_0000
  const HEAP_SIZE: nat := 0x1_8000_0000
  const STACK_SIZE: nat := 0x8000_0000
  const TLS_IO_SIZE: nat := 0x10_0000_0000
  const FIXED_SIZE: nat := ALIAS_SIZE + HEAP_SIZE + STACK_SIZE + TLS_IO_SIZE
  const ASLR_GRANULE: nat := 0x20_0000

  datatype Region = Region(base: nat, size: nat) {
    /** address_region_contains, with its overflow-safe comparisons. */
    predicate Contains(gva: nat, count: nat) {
      gva >= base && gva - base <= size && count <= size - (gva - base)
    }

    predicate Has(gva: nat) {
      base <= gva < base + size
    }

    ghost predicate Pages(v: nat) {
      Vpn(base) <= v < Vpn(base) + Vpn(size)
    }
  }

  datatype AddressSpace = AddressSpace(code: Region, alias: Region, heap: Region, stack: Region, tlsIo: Region)

  datatype AddressSpaceType = Bits32 | Bits36 | Bits32NoReserved | Bits39

  function AlignUpPage(value: nat): (r: nat)
    ensures PageAligned(r) && value <= r < value + PAGE_SIZE
  {
    (value + 4095) / PAGE_SIZE * PAGE_SIZE
  }

  // The three xorshift steps.

  function Left13(x: bv64): bv64 {
    x ^ (x << 13)
  }

  function Right7(x: bv64): bv64 {
    x ^ (x >> 7)
  }

  function Left17(x: bv64): bv64 {
    x ^ (x << 17)
  }

  /** xorshift64 over the caller's seed. */
  function MixSeed(seed: bv64): bv64 {
    Left17(Right7(Left13(seed)))
  }

  /** Regions back to back from the shifted start. */
  function Carve(codeBytes: nat, offset: nat): AddressSpace {
    var code := START + offset;
    var alias := code + codeBytes;
    var heap := alias + ALIAS_SIZE;
    var stack := heap + HEAP_SIZE;
    AddressSpace(Region(code, codeBytes), Region(alias, ALIAS_SIZE), Region(heap, HEAP_SIZE),
                 Region(stack, STACK_SIZE), Region(stack + STACK_SIZE, TLS_IO_SIZE))
  }

  /** The number of granules the code base is shifted by: the mixed seed, folded into the slack. */
  function AslrShift(codeBytes: nat, seed: bv64): nat
    requires codeBytes <= END - START - FIXED_SIZE
  {
    (MixSeed(seed) as nat) % ((END - START - FIXED_SIZE - codeBytes) / 0x20_0000 + 1)
  }

  lemma SeedZero()
    ensures MixSeed(0) == 0 && MixSeed(0) as nat == 0
  {
  }

  /** Mixing loses nothing: different seeds mix to different words. */
  lemma MixSeedInjective(a: bv64, b: bv64)
    requires MixSeed(a) == MixSeed(b)
    ensures a == b
  {
    hide Left13, Right7, Left17, Unshift13, Unshift7, Unshift17;
    Undo13(a);
    Undo13(b);
    Undo7(Left13(a));
    Undo7(Left13(b));
    Undo17(Right7(Left13(a)));
    Undo17(Right7(Left13(b)));
  }

  // The three xorshift steps, undone.

  function Unshift13(y: bv64): bv64 {
    y ^ (y << 13) ^ (y << 26) ^ (y << 39) ^ (y << 52)
  }

  function Unshift7(y: bv64): bv64 {
    var z := y ^ (y >> 7);
    var w := z ^ (z >> 14);
    var v := w ^ (w >> 28);
    v ^ (v >> 56)
  }

  function Unshift17(y: bv64): bv64 {
    y ^ (y << 17) ^ (y << 34) ^ (y << 51)
  }

  lemma Undo13(x: bv64)
    ensures Unshift13(Left13(x)) == x
  {
    hide Unshift13;
    Undo13Bits(x);
  }

  lemma Undo13Bits(x: bv64)
    ensures Unshift13(x ^ (x << 13)) == x
  {
  }

  lemma Undo7(x: bv64)
    ensures Unshift7(Right7(x)) == x
  {
    hide Unshift7;
    Undo7Bits(x);
  }

  lemma Undo7Bits(x: bv64)
    ensures Unshift7(x ^ (x >> 7)) == x
  {
  }

  lemma Undo17(x: bv64)
    ensures Unshift17(Left17(x)) == x
  {
    hide Unshift17;
    Undo17Bits(x);
  }

  lemma Undo17Bits(x: bv64)
    ensures Unshift17(x ^ (x << 17)) == x
  {
  }

  /** xorshift64 of 1, by hand: shifts of 13 left, 7 right and 17 left. */
  lemma MixSeedOfOne()
    ensures MixSeed(1) == 0x4082_2041 && MixSeed(1) as nat == 0x4082_2041
  {
  }

  /** The shift in numbers: the mixed seed folded into the whole 2 MB granules of slack, none for seed 0. */
  lemma AslrShiftMeans(codeBytes: nat, seed: bv64)
    requires codeBytes + 0x22_0800_0000 <= 0x80_0000_0000
    ensures AslrShift(codeBytes, 0) == 0
    ensures AslrShift(codeBytes, 1) == 0x4082_2041 % ((0x80_0000_0000 - 0x22_0800_0000 - codeBytes) / 0x20_0000 + 1)
    ensures AslrShift(codeBytes, seed) <= (0x80_0000_0000 - 0x22_0800_0000 - codeBytes) / 0x20_0000
  {
    hide MixSeed;
    SeedZero();
    MixSeedOfOne();
    AslrFolds(codeBytes, 0);
    AslrFolds(codeBytes, 1);
    AslrFolds(codeBytes, seed);
    hide AslrShift;
  }

  lemma AslrFolds(codeBytes: nat, seed: bv64)
    requires codeBytes + 0x22_0800_0000 <= 0x80_0000_0000
    ensures AslrShift(codeBytes, seed)
            == (MixSeed(seed) as nat) % ((0x80_0000_0000 - 0x22_0800_0000 - codeBytes) / 0x20_0000 + 1)
  {
    hide MixSeed;
  }

  /** The regions in address order, back to back, with the sizes of the 39-bit layout. */
  lemma CarveMeans(codeBytes: nat, offset: nat)
    ensures var s := Carve(codeBytes, offset);
            && s.code == Region(0x800_0000 + offset, codeBytes)
            && s.alias == Region(s.code.base + s.code.size, 0x10_0000_0000)
            && s.heap == Region(s.alias.base + s.alias.size, 0x1_8000_0000)
            && s.stack == Region(s.heap.base + s.heap.size, 0x8000_0000)
            && s.tlsIo == Region(s.stack.base + s.stack.size, 0x10_0000_0000)
  {
  }

  ghost predicate RegionOk(r: Region) {
    PageAligned(r.base) && PageAligned(r.size) && START <= r.base && r.base + r.size <= END
  }

  ghost predicate Apart(a: Region, b: Region) {
    a.base + a.size <= b.base || b.base + b.size <= a.base
  }

  /** What every later layer relies on: aligned, inside the space, pairwise disjoint. */
  ghost predicate SpaceOk(s: AddressSpace) {
    && RegionOk(s.code) && RegionOk(s.alias) && RegionOk(s.heap) && RegionOk(s.stack) && RegionOk(s.tlsIo)
    && Apart(s.code, s.alias) && Apart(s.code, s.heap) && Apart(s.code, s.stack) && Apart(s.code, s.tlsIo)
    && Apart(s.alias, s.heap) && Apart(s.alias, s.stack) && Apart(s.alias, s.tlsIo)
    && Apart(s.heap, s.stack) && Apart(s.heap, s.tlsIo) && Apart(s.stack, s.tlsIo)
  }

  lemma CarveOk(codeBytes: nat, offset: nat)
    requires PageAligned(codeBytes) && PageAligned(offset) && START + offset + codeBytes + FIXED_SIZE <= END
    ensures SpaceOk(Carve(codeBytes, offset))
  {
  }

  /** Rounding up never crosses an aligned bound. */
  lemma AlignUpBound(value: nat, bound: nat)
    requires PageAligned(bound)
    ensures AlignUpPage(value) <= bound <==> value <= bound
  {
  }

  lemma ShiftOf(codeBytes: nat, seed: bv64)
    requires codeBytes <= END - START - FIXED_SIZE
    ensures var granules := (END - START - FIXED_SIZE - codeBytes) / ASLR_GRANULE;
            && (seed == 0 || granules == 0 ==> AslrShift(codeBytes, seed) == 0)
            && AslrShift(codeBytes, seed) == (MixSeed(seed) as nat) % (granules + 1)
  {
    hide MixSeed;
    SeedZero();
  }

  lemma OffsetFits(k: nat, granules: nat, slack: nat)
    requires k <= granules && granules == slack / ASLR_GRANULE
    ensures k * ASLR_GRANULE <= slack && PageAligned(k * ASLR_GRANULE)
  {
    assert k * ASLR_GRANULE == (k * 512) * PAGE_SIZE;
  }

  /** address_space_init: carves the regions around the code, shifted by whole granules that fit the slack. */
  method AddressSpaceInit(kind: AddressSpaceType, codeSize: U64, seed: bv64)
    returns (e: Error, space: AddressSpace)
    ensures e == (if codeSize == 0 then InvalidArgument
                  else if !kind.Bits39? then NotImplemented
                  else if codeSize > END - START - FIXED_SIZE then InvalidArgument
                  else Ok)
    ensures e == Ok ==> SpaceOk(space)
    ensures e == Ok ==> space == Carve(AlignUpPage(codeSize), AslrShift(AlignUpPage(codeSize), seed) * ASLR_GRANULE)
    ensures e == Ok ==> space.heap.size == HEAP_SIZE && space.stack.size == STACK_SIZE
    ensures e == Ok ==> space.tlsIo.size == TLS_IO_SIZE
  {
    hide MixSeed, AlignUpPage, SpaceOk, AslrShift;
    space := Carve(0, 0);
    AlignUpBound(codeSize, END - START - FIXED_SIZE);
    if codeSize == 0 {
      return InvalidArgument, space;
    }
    if !kind.Bits39? {
      return NotImplemented, space;
    }
    var span := END - START;
    // The C check `code_bytes < code_size` catches the wrap of the rounding in uint64_t.
    var wraps := AlignUpPage(codeSize) >= TWO_TO_THE_64;
    if wraps {
      return InvalidArgument, space;
    }
    var codeBytes: U64 := AlignUpPage(codeSize);
    if codeBytes > span - FIXED_SIZE {
      return InvalidArgument, space;
    }
    var slack := span - FIXED_SIZE - codeBytes;
    ShiftOf(codeBytes, seed);
    var k: nat := 0;
    if seed != 0 {
      var granules := slack / ASLR_GRANULE;
      if granules > 0 {
        k := (MixSeed(seed) as nat) % (granules + 1);
      }
    }
    OffsetFits(k, slack / ASLR_GRANULE, slack);
    var offset := k * ASLR_GRANULE;
    CarveOk(codeBytes, offset);
    var cursor: U64 := START + offset;
    var code := Region(cursor, codeBytes);
    cursor := cursor + codeBytes;
    var alias := Region(cursor, ALIAS_SIZE);
    cursor := cursor + ALIAS_SIZE;
    var heap := Region(cursor, HEAP_SIZE);
    cursor := cursor + HEAP_SIZE;
    var stack := Region(cursor, STACK_SIZE);
    cursor := cursor + STACK_SIZE;
    var tlsIo := Region(cursor, TLS_IO_SIZE);
    space := AddressSpace(code, alias, heap, stack, tlsIo);
    assert space == Carve(AlignUpPage(codeSize), k * ASLR_GRANULE);
    e := Ok;
  }
}

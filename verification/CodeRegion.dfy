/** Where the modules of a program go, and when all of it fits (core/hle/kernel/process.c). */
module CodeRegions {
  import opened Results
  import opened Geometry
  import opened FlatMaps
  import opened AddressSpaces
  import opened Nsos
  import opened MappingLists
  import opened MemoryKernel
  import Pages = PageAllocators

  ghost predicate AllLaid(nsos: seq<Nso>) {
    forall k :: 0 <= k < |nsos| ==> Laid(nsos[k])
  }

  /** The bytes of the first n images. */
  function CodeSize(nsos: seq<Nso>, n: nat): nat
    requires n <= |nsos|
  {
    if n == 0 then 0 else CodeSize(nsos, n - 1) + nsos[n - 1].imageSize
  }

  lemma {:induction false} CodeSizePrefix(nsos: seq<Nso>, more: Nso, n: nat)
    requires n <= |nsos|
    ensures CodeSize(nsos + [more], n) == CodeSize(nsos, n)
    decreases n
  {
    if n > 0 {
      CodeSizePrefix(nsos, more, n - 1);
    }
  }

  lemma {:induction false} CodeSizeGrows(nsos: seq<Nso>, n: nat, m: nat)
    requires n <= m <= |nsos|
    ensures CodeSize(nsos, n) <= CodeSize(nsos, m)
    decreases m
  {
    if n < m {
      CodeSizeGrows(nsos, n, m - 1);
    }
  }

  lemma {:induction false} CodeSizeAligned(nsos: seq<Nso>, n: nat)
    requires n <= |nsos| && forall k :: 0 <= k < |nsos| ==> Laid(nsos[k])
    ensures PageAligned(CodeSize(nsos, n)) && CodeSize(nsos, n) <= n * 0x4_0000_0000
    decreases n
  {
    hide AlignUpPage, SegmentOk;
    if n > 0 {
      CodeSizeAligned(nsos, n - 1);
      PagesApart(nsos[n - 1]);
    }
  }

  // ----- Fitting the modules -----

  /** Module k can be read and is not empty, its pages are committed, and pages and tables last up to its end. */
  ghost predicate ModuleFits(nsos: seq<Nso>, k: nat, decode: Decoder, commits: nat -> bool, start: nat, s: Pages.State)
    requires AllLaid(nsos) && k < |nsos|
  {
    && Readable(nsos[k], decode) && nsos[k].imageSize > 0 && commits(k)
    && s.used + Vpn(CodeSize(nsos, k + 1)) <= s.size
    && |RangeSlots(Vpn(start), Vpn(CodeSize(nsos, k + 1)))| <= 256
  }

  ghost predicate ModulesFit(nsos: seq<Nso>, n: nat, decode: Decoder, commits: nat -> bool, start: nat, s: Pages.State)
    requires AllLaid(nsos) && n <= |nsos|
  {
    forall k: nat :: k < n ==> ModuleFits(nsos, k, decode, commits, start, s)
  }

  /** The slots of back-to-back ranges. */
  lemma SlotsJoin(first: nat, a: nat, b: nat)
    ensures RangeSlots(first, a) + RangeSlots(first + a, b) == RangeSlots(first, a + b)
  {
    var joined, whole := RangeSlots(first, a) + RangeSlots(first + a, b), RangeSlots(first, a + b);
    forall slot | slot in whole
      ensures slot in joined
    {
      var v :| first <= v < first + a + b && Slot(v) == slot;
    }
    assert joined == whole;
  }

  lemma SlotsOfKeys(m: FlatMap, keys: set<nat>)
    requires m.Keys == keys
    ensures Slots(m) == set v | v in keys :: Slot(v)
  {
  }

  lemma SlotsOfRange(m: FlatMap, first: nat, count: nat)
    requires m.Keys == RangePages(first, count)
    ensures Slots(m) == RangeSlots(first, count)
  {
    forall slot | slot in RangeSlots(first, count)
      ensures slot in Slots(m)
    {
      var v :| first <= v < first + count && Slot(v) == slot;
      assert v in m;
    }
  }

  /** With the modules before it in place, module k has room exactly when it fits. */
  lemma ModuleHasRoom(m: FlatMap, nsos: seq<Nso>, k: nat, decode: Decoder, commits: nat -> bool, start: nat,
                      s: Pages.State, now: Pages.State)
    requires AllLaid(nsos) && k < |nsos| && start % 4096 == 0
    requires m.Keys == RangePages(Vpn(start), Vpn(CodeSize(nsos, k)))
    requires now == s.(used := s.used + Vpn(CodeSize(nsos, k)))
    ensures var gva, size := start + CodeSize(nsos, k), nsos[k].imageSize;
            Readable(nsos[k], decode) && Room(m, now, Vpn(gva), Vpn(size), commits(k))
            <==> ModuleFits(nsos, k, decode, commits, start, s)
    ensures Vpn(CodeSize(nsos, k + 1)) == Vpn(CodeSize(nsos, k)) + Vpn(nsos[k].imageSize)
  {
    hide Slots, RangeSlots, RangePages, CodeSize, Readable, Laid, AllLaid, Vpn;
    NextPages(nsos, k, start);
    SlotsOfRange(m, Vpn(start), Vpn(CodeSize(nsos, k)));
    SlotsJoin(Vpn(start), Vpn(CodeSize(nsos, k)), Vpn(nsos[k].imageSize));
  }

  lemma NextPages(nsos: seq<Nso>, k: nat, start: nat)
    requires AllLaid(nsos) && k < |nsos| && start % 4096 == 0
    ensures Vpn(start + CodeSize(nsos, k)) == Vpn(start) + Vpn(CodeSize(nsos, k))
    ensures CodeSize(nsos, k + 1) == CodeSize(nsos, k) + nsos[k].imageSize
    ensures Vpn(CodeSize(nsos, k + 1)) == Vpn(CodeSize(nsos, k)) + Vpn(nsos[k].imageSize)
    ensures CodeSize(nsos, k) % 4096 == 0 && nsos[k].imageSize % 4096 == 0
    ensures Vpn(nsos[k].imageSize) > 0 <==> nsos[k].imageSize > 0
  {
    CodeSizeAligned(nsos, k);
    PagesApart(nsos[k]);
    assert CodeSize(nsos, k + 1) == CodeSize(nsos, k) + nsos[k].imageSize;
    hide AlignUpPage, SegmentOk, CodeSize, AllLaid, Laid;
    PageSum(start, CodeSize(nsos, k));
    PageSum(CodeSize(nsos, k), nsos[k].imageSize);
  }

  lemma PageSum(a: nat, b: nat)
    requires a % 4096 == 0 && b % 4096 == 0
    ensures Vpn(a + b) == Vpn(a) + Vpn(b) && (a + b) % 4096 == 0 && (Vpn(b) > 0 <==> b > 0)
  {
  }

  /** The page after the last module is vacant when nothing but the modules is mapped. */
  lemma VacantNext(m: FlatMap, nsos: seq<Nso>, k: nat, start: nat)
    requires AllLaid(nsos) && k < |nsos| && start % 4096 == 0
    requires start + CodeSize(nsos, |nsos|) <= ADDRESS_SPACE_SIZE
    requires m.Keys == RangePages(Vpn(start), Vpn(CodeSize(nsos, k)))
    ensures Vacant(m, start + CodeSize(nsos, k), nsos[k].imageSize)
  {
    hide CodeSize, AllLaid, Laid, RangePages;
    NextPages(nsos, k, start);
    CodeSizeGrows(nsos, k + 1, |nsos|);
    PageSum(start, CodeSize(nsos, k));
    VacantAfter(m, start, CodeSize(nsos, k), nsos[k].imageSize);
  }

  lemma VacantAfter(m: FlatMap, start: nat, used: nat, size: nat)
    requires start % 4096 == 0 && used % 4096 == 0 && size % 4096 == 0 && start + used + size <= ADDRESS_SPACE_SIZE
    requires m.Keys == RangePages(Vpn(start), Vpn(used))
    ensures Vacant(m, start + used, size)
  {
    PageSum(start, used);
    hide Vpn;
  }

  // ----- Fitting the rest -----

  /** The modules fit, and after them the stack above its guard page. */
  ghost predicate HalfFits(nsos: seq<Nso>, stackSize: nat, decode: Decoder, commits: nat -> bool, space: AddressSpace,
                           s: Pages.State)
    requires AllLaid(nsos)
  {
    var code, stack := Vpn(CodeSize(nsos, |nsos|)), Vpn(stackSize);
    && ModulesFit(nsos, |nsos|, decode, commits, space.code.base, s)
    && 4096 + stackSize <= space.stack.size && commits(|nsos|) && s.used + code + stack <= s.size
    && |RangeSlots(Vpn(space.code.base), code) + RangeSlots(Vpn(space.stack.base + 4096), stack)| <= 256
  }

  lemma HalfNeedsModules(nsos: seq<Nso>, stackSize: nat, decode: Decoder, commits: nat -> bool, space: AddressSpace,
                         s: Pages.State)
    requires AllLaid(nsos)
    ensures HalfFits(nsos, stackSize, decode, commits, space, s) ==>
              ModulesFit(nsos, |nsos|, decode, commits, space.code.base, s)
  {
    hide ModulesFit;
  }

  lemma StackHasRoom(m: FlatMap, nsos: seq<Nso>, stackSize: nat, decode: Decoder, commits: nat -> bool,
                     space: AddressSpace, s: Pages.State, now: Pages.State)
    requires AllLaid(nsos) && stackSize % 4096 == 0 && stackSize > 0 && SpaceOk(space)
    requires ModulesFit(nsos, |nsos|, decode, commits, space.code.base, s)
    requires m.Keys == RangePages(Vpn(space.code.base), Vpn(CodeSize(nsos, |nsos|)))
    requires now == s.(used := s.used + Vpn(CodeSize(nsos, |nsos|)))
    ensures space.stack.Contains(space.stack.base + 4096, stackSize)
            && Room(m, now, Vpn(space.stack.base + 4096), Vpn(stackSize), commits(|nsos|))
            <==> HalfFits(nsos, stackSize, decode, commits, space, s)
  {
    hide Slots, RangeSlots, RangePages, CodeSize, ModulesFit, AllLaid, SpaceOk, Vpn;
    PageSum(0, stackSize);
    SlotsOfRange(m, Vpn(space.code.base), Vpn(CodeSize(nsos, |nsos|)));
  }

  /** Nothing is mapped in the stack region while only the code region is. */
  lemma StackVacant(m: FlatMap, space: AddressSpace, stackSize: nat)
    requires SpaceOk(space) && stackSize % 4096 == 0
    requires m.Keys == RangePages(Vpn(space.code.base), Vpn(space.code.size))
    ensures space.stack.Contains(space.stack.base + 4096, stackSize) ==> Vacant(m, space.stack.base + 4096, stackSize)
  {
  }

  /** A whole program fits: the modules, the stack and one page of thread-local storage. */
  ghost predicate ProgramFits(nsos: seq<Nso>, stackSize: nat, decode: Decoder, commits: nat -> bool,
                              space: AddressSpace, s: Pages.State)
    requires AllLaid(nsos)
  {
    var code, stack := Vpn(CodeSize(nsos, |nsos|)), Vpn(stackSize);
    && HalfFits(nsos, stackSize, decode, commits, space, s)
    && commits(|nsos| + 1) && s.used + code + stack + 1 <= s.size
    && |RangeSlots(Vpn(space.code.base), code) + RangeSlots(Vpn(space.stack.base + 4096), stack)
        + RangeSlots(Vpn(space.tlsIo.base), 1)| <= 256
  }

  lemma ProgramNeedsHalf(nsos: seq<Nso>, stackSize: nat, decode: Decoder, commits: nat -> bool, space: AddressSpace,
                         s: Pages.State)
    requires AllLaid(nsos)
    ensures ProgramFits(nsos, stackSize, decode, commits, space, s) ==>
              HalfFits(nsos, stackSize, decode, commits, space, s)
  {
    hide HalfFits;
  }

  lemma TlsHasRoom(m: FlatMap, nsos: seq<Nso>, stackSize: nat, decode: Decoder, commits: nat -> bool,
                   space: AddressSpace, s: Pages.State, now: Pages.State)
    requires AllLaid(nsos) && HalfFits(nsos, stackSize, decode, commits, space, s)
    requires m.Keys == RangePages(Vpn(space.code.base), Vpn(CodeSize(nsos, |nsos|)))
                       + RangePages(Vpn(space.stack.base + 4096), Vpn(stackSize))
    requires now == s.(used := s.used + Vpn(CodeSize(nsos, |nsos|)) + Vpn(stackSize))
    ensures Room(m, now, Vpn(space.tlsIo.base), 1, commits(|nsos| + 1))
            <==> ProgramFits(nsos, stackSize, decode, commits, space, s)
  {
    hide Slots, RangeSlots, RangePages, CodeSize, HalfFits, AllLaid, Vpn;
    SlotsOfTwo(m, Vpn(space.code.base), Vpn(CodeSize(nsos, |nsos|)), Vpn(space.stack.base + 4096), Vpn(stackSize));
  }

  lemma SlotsOfTwo(m: FlatMap, a: nat, n: nat, b: nat, k: nat)
    requires m.Keys == RangePages(a, n) + RangePages(b, k)
    ensures Slots(m) == RangeSlots(a, n) + RangeSlots(b, k)
  {
    var both := RangeSlots(a, n) + RangeSlots(b, k);
    forall slot | slot in both
      ensures slot in Slots(m)
    {
      var v :| (a <= v < a + n || b <= v < b + k) && Slot(v) == slot;
      assert v in m;
    }
    assert Slots(m) == both;
  }

  lemma TlsVacant(m: FlatMap, space: AddressSpace, stack: Region)
    requires SpaceOk(space) && space.tlsIo.size > 0 && stack.base == space.stack.base + 4096 && stack.size % 4096 == 0
    requires space.stack.Contains(stack.base, stack.size)
    requires m.Keys == RangePages(Vpn(space.code.base), Vpn(space.code.size)) + Covered(stack)
    ensures Vacant(m, space.tlsIo.base, 4096) && space.tlsIo.Contains(space.tlsIo.base, 4096)
  {
    RegionPages(space.code);
    RegionPages(space.stack);
    RegionPages(space.tlsIo);
    PageVpn(Vpn(space.stack.base) + 1);
    var v := Vpn(space.tlsIo.base);
    assert v !in RangePages(Vpn(space.code.base), Vpn(space.code.size)) && v !in Covered(stack);
  }

  // ----- The whole program in numbers -----

  /** The image is not empty and its segments can be read. */
  ghost predicate Loadable(nso: Nso, decode: Decoder)
    requires Laid(nso)
  {
    nso.imageSize > 0 && Readable(nso, decode)
  }

  ghost predicate AllReadable(nsos: seq<Nso>, decode: Decoder)
    requires AllLaid(nsos)
  {
    forall k :: 0 <= k < |nsos| ==> Loadable(nsos[k], decode)
  }

  /** The 64 MB slots of code, stack and one page of thread-local storage. */
  function ProgramSlots(space: AddressSpace, codeBytes: nat, stackSize: nat): set<nat> {
    RangeSlots(space.code.base / 4096, codeBytes / 4096)
    + RangeSlots((space.stack.base + 4096) / 4096, stackSize / 4096) + RangeSlots(space.tlsIo.base / 4096, 1)
  }

  /**
   A program fits when its modules are readable and not empty, the host commits every one of its
   allocations, its stack fits its region behind the guard page, and pages and 256 tables are enough.
   */
  lemma ProgramFitsMeans(nsos: seq<Nso>, stackSize: nat, decode: Decoder, commits: nat -> bool, space: AddressSpace,
                         s: Pages.State)
    requires AllLaid(nsos) && stackSize % 4096 == 0
    ensures ProgramFits(nsos, stackSize, decode, commits, space, s) <==>
              && AllReadable(nsos, decode) && (forall k: nat :: k < |nsos| + 2 ==> commits(k))
              && 4096 + stackSize <= space.stack.size
              && s.used + CodeSize(nsos, |nsos|) / 4096 + stackSize / 4096 + 1 <= s.size
              && |ProgramSlots(space, CodeSize(nsos, |nsos|), stackSize)| <= 256
  {
    hide CodeSize, Readable, RangeSlots, ModuleFits, Laid, Loadable;
    var start, code := space.code.base, CodeSize(nsos, |nsos|);
    if ProgramFits(nsos, stackSize, decode, commits, space, s) {
      forall k: nat | k < |nsos|
        ensures commits(k) && Loadable(nsos[k], decode)
      {
        assert ModuleFits(nsos, k, decode, commits, start, s);
        FitsAlone(nsos, k, decode, commits, start, s);
      }
    }
    if s.used + code / 4096 <= s.size && |ProgramSlots(space, code, stackSize)| <= 256
       && AllReadable(nsos, decode) && forall k: nat :: k < |nsos| + 2 ==> commits(k) {
      SubsetSize(RangeSlots(start / 4096, code / 4096), ProgramSlots(space, code, stackSize));
      SubsetSize(RangeSlots(start / 4096, code / 4096) + RangeSlots((space.stack.base + 4096) / 4096, stackSize / 4096),
                 ProgramSlots(space, code, stackSize));
      forall k: nat | k < |nsos|
        ensures ModuleFits(nsos, k, decode, commits, start, s)
      {
        EarlierFits(nsos, k, decode, commits, start, s);
      }
    }
  }

  lemma FitsAlone(nsos: seq<Nso>, k: nat, decode: Decoder, commits: nat -> bool, start: nat, s: Pages.State)
    requires AllLaid(nsos) && k < |nsos| && ModuleFits(nsos, k, decode, commits, start, s)
    ensures Loadable(nsos[k], decode) && commits(k)
  {
    hide RangeSlots, Readable, CodeSize;
  }

  lemma EarlierFits(nsos: seq<Nso>, k: nat, decode: Decoder, commits: nat -> bool, start: nat, s: Pages.State)
    requires AllLaid(nsos) && k < |nsos| && Loadable(nsos[k], decode) && commits(k)
    requires s.used + CodeSize(nsos, |nsos|) / 4096 <= s.size
    requires |RangeSlots(start / 4096, CodeSize(nsos, |nsos|) / 4096)| <= 256
    ensures ModuleFits(nsos, k, decode, commits, start, s)
  {
    hide Readable, AllLaid, Laid, CodeSize;
    CodeSizeGrows(nsos, k + 1, |nsos|);
    SubsetSize(RangeSlots(start / 4096, CodeSize(nsos, k + 1) / 4096),
               RangeSlots(start / 4096, CodeSize(nsos, |nsos|) / 4096));
  }

  lemma SubsetSize(a: set<nat>, b: set<nat>)
    requires a <= b
    ensures |a| <= |b|
  {
    assert b == a + (b - a);
  }
}

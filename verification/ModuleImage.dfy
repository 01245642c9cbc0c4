/** Placing one NSO in memory (describe_module and load_module_image in core/hle/kernel/process.c). */
module ModuleImages {
  import opened Results
  import opened Geometry
  import opened FlatMaps
  import opened GuestMemory
  import opened AddressSpaces
  import opened Nsos
  import opened Vmms
  import opened Processes

  /** The page-rounded segment regions of a module; .data runs through .bss. */
  function Describe(nso: Nso, baseGva: nat): Module
    requires Laid(nso)
  {
    PagesApart(nso);
    var t, r, d := nso.segments[TEXT], nso.segments[RODATA], nso.segments[DATA];
    Module(baseGva, nso.imageSize, Region(baseGva + t.memoryOffset, AlignUpPage(t.memorySize)),
           Region(baseGva + r.memoryOffset, AlignUpPage(r.memorySize)),
           Region(baseGva + d.memoryOffset, nso.imageSize - d.memoryOffset))
  }

  // ----- Final permissions -----

  /** The permissions of the image's page i: text RX, rodata R, everything else RW. */
  function PagePerms(nso: Nso, i: nat): (p: nat)
    requires Laid(nso)
    ensures p in {PERM_RX, PERM_R, PERM_RW}
  {
    var t, r := nso.segments[TEXT], nso.segments[RODATA];
    if Vpn(t.memoryOffset) <= i < Vpn(t.memoryOffset) + Vpn(AlignUpPage(t.memorySize)) then PERM_RX
    else if Vpn(r.memoryOffset) <= i < Vpn(r.memoryOffset) + Vpn(AlignUpPage(r.memorySize)) then PERM_R
    else PERM_RW
  }

  function Protected(m: FlatMap, image: Module): FlatMap {
    ReprotectRange(ReprotectRange(m, Vpn(image.text.base), Vpn(image.text.size), PERM_RX),
                   Vpn(image.rodata.base), Vpn(image.rodata.size), PERM_R)
  }

  lemma OffsetPages(base: nat, offset: nat)
    requires PageAligned(base) && PageAligned(offset)
    ensures Vpn(base + offset) == Vpn(base) + Vpn(offset) && PageAligned(base + offset)
  {
  }

  /** Reprotecting gives every page of the image its permissions, and touches nothing else. */
  lemma ProtectedAt(m: FlatMap, nso: Nso, base: nat, v: nat)
    requires Laid(nso) && PageAligned(base)
    ensures Lookup(Protected(m, Describe(nso, base)), v) ==
            if v in m && Vpn(base) <= v < Vpn(base) + Vpn(nso.imageSize) && PagePerms(nso, v - Vpn(base)) != PERM_RW
            then Some(Page(m[v].ppn, PagePerms(nso, v - Vpn(base)))) else Lookup(m, v)
  {
    hide ReprotectRange;
    PagesApart(nso);
    var t, r, d := nso.segments[TEXT], nso.segments[RODATA], nso.segments[DATA];
    var md := Describe(nso, base);
    OffsetPages(base, t.memoryOffset);
    OffsetPages(base, r.memoryOffset);
    PagesInOrder(t.memoryOffset, AlignUpPage(t.memorySize), r.memoryOffset);
    PagesInOrder(r.memoryOffset, AlignUpPage(r.memorySize), nso.imageSize);
    var text := ReprotectRange(m, Vpn(md.text.base), Vpn(md.text.size), PERM_RX);
    ReprotectRangeAt(m, Vpn(md.text.base), Vpn(md.text.size), PERM_RX, v);
    ReprotectRangeAt(text, Vpn(md.rodata.base), Vpn(md.rodata.size), PERM_R, v);
  }

  lemma PagesInOrder(offset: nat, size: nat, next: nat)
    requires PageAligned(offset) && PageAligned(size) && offset + size <= next && PageAligned(next)
    ensures Vpn(offset) + Vpn(size) <= Vpn(next)
  {
  }

  // ----- Image bytes -----

  /** The image after zeroing it and copying in the first n segments. */
  ghost function ImageUpTo(nso: Nso, decode: Decoder, n: nat): (image: seq<Byte>)
    requires Laid(nso) && n <= SEGMENTS
    requires forall k: nat :: k < n ==> SegmentBytes(nso, k, decode).Some?
    ensures |image| == nso.imageSize
  {
    if n == 0 then Zeros(nso.imageSize)
    else
      SegmentFits(nso, n - 1);
      Splice(ImageUpTo(nso, decode, n - 1), nso.segments[n - 1].memoryOffset, SegmentBytes(nso, n - 1, decode).value)
  }

  lemma SegmentFits(nso: Nso, k: nat)
    requires Laid(nso) && k < SEGMENTS
    ensures nso.segments[k].End() <= nso.imageSize
    ensures !nso.segments[k].isCompressed ==> nso.segments[k].fileSize == nso.segments[k].memorySize
    ensures nso.segments[k].fileOffset + nso.segments[k].fileSize <= |nso.source|
  {
    PagesApart(nso);
    hide AlignUpPage;
  }

  ghost function Image(nso: Nso, decode: Decoder): (image: seq<Byte>)
    requires Laid(nso) && Readable(nso, decode)
    ensures |image| == nso.imageSize
  {
    ImageUpTo(nso, decode, SEGMENTS)
  }

  lemma SpliceByte(s: seq<Byte>, at: nat, bytes: seq<Byte>, i: nat)
    requires at + |bytes| <= |s| && i < |s|
    ensures Splice(s, at, bytes)[i] == if at <= i < at + |bytes| then bytes[i - at] else s[i]
  {
  }

  /** Copying the segments over zeros leaves each byte its segment's, or zero. */
  lemma ImageBytes(nso: Nso, decode: Decoder, i: nat)
    requires Laid(nso) && Readable(nso, decode) && i < nso.imageSize
    ensures Image(nso, decode)[i] == ImageByte(nso, decode, i)
  {
    hide Splice, AlignUpPage, SegmentBytes;
    PagesApart(nso);
    forall k: nat | k < SEGMENTS
      ensures |SegmentBytes(nso, k, decode).value| == nso.segments[k].memorySize
      ensures nso.segments[k].End() <= nso.imageSize
    {
      SegmentFits(nso, k);
      assert SegmentBytes(nso, k, decode).Some?;
    }
    var zeros, text, rodata := ImageUpTo(nso, decode, 0), ImageUpTo(nso, decode, 1), ImageUpTo(nso, decode, 2);
    assert Image(nso, decode) == ImageUpTo(nso, decode, 3);
    SpliceByte(zeros, nso.segments[TEXT].memoryOffset, SegmentBytes(nso, TEXT, decode).value, i);
    SpliceByte(text, nso.segments[RODATA].memoryOffset, SegmentBytes(nso, RODATA, decode).value, i);
    SpliceByte(rodata, nso.segments[DATA].memoryOffset, SegmentBytes(nso, DATA, decode).value, i);
  }

  /** Writing inside a window is writing the window. */
  lemma SpliceInside(ram: seq<Byte>, at: nat, window: seq<Byte>, offset: nat, bytes: seq<Byte>)
    requires at + |window| <= |ram| && offset + |bytes| <= |window|
    ensures Splice(Splice(ram, at, window), at + offset, bytes) == Splice(ram, at, Splice(window, offset, bytes))
  {
    var a, b := Splice(Splice(ram, at, window), at + offset, bytes), Splice(ram, at, Splice(window, offset, bytes));
    forall i | 0 <= i < |ram|
      ensures a[i] == b[i]
    {
      SpliceByte(ram, at, window, i);
      SpliceByte(Splice(ram, at, window), at + offset, bytes, i);
      SpliceByte(ram, at, Splice(window, offset, bytes), i);
    }
  }

  // ----- load_module_image -----

  /** The part of load_module_image that fills the image, inside one borrow scope. */
  method FillImage(vmm: Vmm, nso: Nso, decode: Decoder, baseGva: U64) returns (e: Error)
    requires vmm.Valid() && !vmm.scopeOpen && Laid(nso)
    requires HostContiguous(vmm.flat, baseGva, nso.imageSize, PERM_RW)
    modifies vmm.Repr()
    ensures vmm.Valid() && !vmm.scopeOpen && vmm.flat == old(vmm.flat)
    ensures e == (if Readable(nso, decode) then Ok else InvalidArgument)
    ensures Vpn(baseGva) in vmm.flat && Pa(vmm.flat, baseGva) + nso.imageSize <= vmm.ram.Length
    ensures e == Ok ==> vmm.ram[..] == Splice(old(vmm.ram[..]), Pa(vmm.flat, baseGva), Image(nso, decode))
  {
    hide HostContiguous, Vmm.Valid, Pa, Splice, AlignUpPage, SegmentBytes;
    PagesApart(nso);
    ContiguousStart(vmm.flat, baseGva, nso.imageSize, PERM_RW);
    vmm.Idle();
    vmm.BorrowScopeBegin();
    var got, host := vmm.GuestToHost(baseGva, nso.imageSize, PERM_RW);
    assert got == Ok;
    ghost var was, at := vmm.ram[..], Pa(vmm.flat, baseGva);
    vmm.HostZero(host, nso.imageSize);
    e := Ok;
    for kind := 0 to SEGMENTS
      invariant vmm.Valid() && vmm.flat == old(vmm.flat) && vmm.scopeOpen
      invariant forall k: nat :: k < kind ==> SegmentBytes(nso, k, decode).Some?
      invariant vmm.ram[..] == Splice(was, at, ImageUpTo(nso, decode, kind))
    {
      SegmentFits(nso, kind);
      var bytes := SegmentBytes(nso, kind, decode);
      if bytes.None? {
        e := InvalidArgument;
        vmm.BorrowScopeEnd();
        return;
      }
      SpliceInside(was, at, ImageUpTo(nso, decode, kind), nso.segments[kind].memoryOffset, bytes.value);
      vmm.HostCopy(host + nso.segments[kind].memoryOffset, bytes.value);
    }
    vmm.BorrowScopeEnd();
  }

  /** load_module_image: fill the RW image, then give text and rodata their final permissions. */
  method LoadModuleImage(vmm: Vmm, nso: Nso, decode: Decoder, baseGva: U64, image: Module) returns (e: Error)
    requires vmm.Valid() && !vmm.scopeOpen && Laid(nso) && image == Describe(nso, baseGva)
    requires ValidPageRange(baseGva, nso.imageSize) && HostContiguous(vmm.flat, baseGva, nso.imageSize, PERM_RW)
    modifies vmm.Repr()
    ensures vmm.Valid() && !vmm.scopeOpen
    ensures e == (if Readable(nso, decode) then Ok else InvalidArgument)
    ensures e == Ok ==> vmm.flat == Protected(old(vmm.flat), image)
    ensures e != Ok ==> vmm.flat == old(vmm.flat)
    ensures Vpn(baseGva) in old(vmm.flat) && Pa(old(vmm.flat), baseGva) + nso.imageSize <= vmm.ram.Length
    ensures e == Ok ==> vmm.ram[..] == Splice(old(vmm.ram[..]), Pa(old(vmm.flat), baseGva), Image(nso, decode))
  {
    hide HostContiguous, Vmm.Valid, Pa, Splice, Image, Readable, ReprotectRange;
    ghost var m := vmm.flat;
    e := FillImage(vmm, nso, decode, baseGva);
    if e != Ok {
      return;
    }
    RegionsMapped(m, nso, baseGva);
    vmm.Idle();
    if image.text.size > 0 {
      var done := vmm.Reprotect(image.text.base, image.text.size, PERM_RX);
      assert done == Ok;
    } else {
      ReprotectRangeKeeps(m, Vpn(image.text.base), 0, PERM_RX);
    }
    ghost var m' := vmm.flat;
    vmm.Idle();
    if image.rodata.size > 0 {
      var done := vmm.Reprotect(image.rodata.base, image.rodata.size, PERM_R);
      assert done == Ok;
    } else {
      ReprotectRangeKeeps(m', Vpn(image.rodata.base), 0, PERM_R);
    }
  }

  /** Both reprotections of a mapped image succeed. */
  lemma RegionsMapped(m: FlatMap, nso: Nso, baseGva: nat)
    requires Laid(nso) && ValidPageRange(baseGva, nso.imageSize) && HostContiguous(m, baseGva, nso.imageSize, PERM_RW)
    ensures var d := Describe(nso, baseGva);
            && d.text.base + d.text.size < TWO_TO_THE_64 && d.rodata.base + d.rodata.size < TWO_TO_THE_64
            && (d.text.size > 0 ==> ReprotectError(m, d.text.base, d.text.size, PERM_RX) == Ok)
            && (d.rodata.size > 0 ==>
                  ReprotectError(ReprotectRange(m, Vpn(d.text.base), Vpn(d.text.size), PERM_RX),
                                 d.rodata.base, d.rodata.size, PERM_R) == Ok)
  {
    hide HostContiguous, Laid, AlignUpPage;
    LaidPages(nso);
    ContiguousPages(m, baseGva, nso.imageSize, PERM_RW);
    var t, r := nso.segments[TEXT], nso.segments[RODATA];
    InImage(baseGva, nso.imageSize, t.memoryOffset, AlignUpPage(t.memorySize));
    InImage(baseGva, nso.imageSize, r.memoryOffset, AlignUpPage(r.memorySize));
    ReprotectKeys(m, Vpn(baseGva + t.memoryOffset), Vpn(AlignUpPage(t.memorySize)), PERM_RX);
    hide Vpn, ReprotectRange, ValidPageRange;
  }

  lemma LaidPages(nso: Nso)
    requires Laid(nso)
    ensures |nso.segments| == SEGMENTS
    ensures var t, r := nso.segments[TEXT], nso.segments[RODATA];
            && t.memoryOffset + AlignUpPage(t.memorySize) <= nso.imageSize
            && r.memoryOffset + AlignUpPage(r.memorySize) <= nso.imageSize
            && PageAligned(t.memoryOffset) && PageAligned(r.memoryOffset)
  {
    PagesApart(nso);
    hide AlignUpPage;
  }

  lemma ReprotectKeys(m: FlatMap, first: nat, count: nat, perms: nat)
    ensures ReprotectRange(m, first, count, perms).Keys == m.Keys
  {
  }

  lemma InImage(baseGva: nat, imageSize: nat, offset: nat, size: nat)
    requires ValidPageRange(baseGva, imageSize) && PageAligned(offset) && PageAligned(size)
            && offset + size <= imageSize
    ensures size > 0 ==> ValidPageRange(baseGva + offset, size)
    ensures Vpn(baseGva) <= Vpn(baseGva + offset)
    ensures Vpn(baseGva + offset) + Vpn(size) <= Vpn(baseGva) + Vpn(imageSize)
  {
  }
}

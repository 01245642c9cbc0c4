/** What a loaded program looks like to the guest: its files' bytes, with the rights they ask for. */
module LoadedPrograms {
  import opened Results
  import opened Geometry
  import opened FlatMaps
  import opened GuestMemory
  import opened AddressSpaces
  import opened Nsos
  import opened MemoryKernel
  import opened Processes
  import opened ModuleImages
  import opened CodeRegions
  import opened Bootstraps

  // ----- Load order and regions -----

  /** `present` are the files that exist, in the order of their list: the ones at the ascending positions `at`. */
  ghost predicate Picks(files: seq<Option<seq<Byte>>>, at: seq<nat>, present: seq<seq<Byte>>) {
    && |at| == |present| && (forall j, k :: 0 <= j < k < |at| ==> at[j] < at[k])
    && (forall j :: 0 <= j < |at| ==> at[j] < |files| && files[at[j]] == Some(present[j]))
    && (forall i :: 0 <= i < |files| && files[i].Some? ==> i in at)
  }

  lemma PicksMore(files: seq<Option<seq<Byte>>>, at: seq<nat>, present: seq<seq<Byte>>, n: nat)
    requires |files| == n + 1 && Picks(files[..n], at, present)
    ensures files[n].None? ==> Picks(files, at, present)
    ensures files[n].Some? ==> Picks(files, at + [n], present + [files[n].value])
  {
    var less := files[..n];
    forall j | 0 <= j < |at|
      ensures at[j] < n && files[at[j]] == Some(present[j])
    {
      assert less[at[j]] == Some(present[j]);
    }
    forall i | 0 <= i < n && files[i].Some?
      ensures i in at && i in at + [n]
    {
      assert less[i].Some?;
    }
    assert n in at + [n];
  }

  /** The modules are the files that exist, in the order of their list. */
  lemma {:induction false} PresentMeans(files: seq<Option<seq<Byte>>>) returns (at: seq<nat>)
    ensures Picks(files, at, Present(files))
    decreases |files|
  {
    if files == [] {
      at := [];
    } else {
      var n := |files| - 1;
      hide Picks;
      at := PresentMeans(files[..n]);
      PicksMore(files, at, Present(files[..n]), n);
      if files[n].Some? {
        at := at + [n];
      }
    }
  }

  /** The segment has a byte on the same page as byte a of the image. */
  ghost predicate OnPageOf(s: Segment, a: nat) {
    exists i :: s.memoryOffset <= i < s.memoryOffset + s.memorySize && i / 4096 == a / 4096
  }

  /** Whole pages of text are read and execute, of rodata read only, everything else read and write. */
  lemma PagePermsMeans(nso: Nso, a: nat)
    requires Laid(nso)
    ensures PagePerms(nso, a / 4096) ==
            if OnPageOf(nso.segments[0], a) then 5 else if OnPageOf(nso.segments[1], a) then 1 else 3
  {
    PageHolds(nso.segments[TEXT], a, |nso.source|);
    PageHolds(nso.segments[RODATA], a, |nso.source|);
    hide OnPageOf, AlignUpPage;
  }

  lemma PageHolds(s: Segment, a: nat, fileSize: nat)
    requires SegmentOk(s, fileSize)
    ensures OnPageOf(s, a) <==>
              Vpn(s.memoryOffset) <= a / 4096 < Vpn(s.memoryOffset) + Vpn(AlignUpPage(s.memorySize))
  {
    var first, count := Vpn(s.memoryOffset), Vpn(AlignUpPage(s.memorySize));
    var page := a / 4096;
    assert s.memoryOffset == first * 4096 && count == (s.memorySize + 4095) / 4096;
    if first <= page < first + count {
      var i := page * 4096;
      assert i / 4096 == page;
      assert s.memoryOffset <= i < s.memoryOffset + s.memorySize;
    }
  }

  /** Regions of whole pages around text and rodata; the data region runs to the end of the image. */
  lemma DescribeMeans(nso: Nso, base: nat)
    requires Laid(nso)
    ensures var m, t, r, d := Describe(nso, base), nso.segments[0], nso.segments[1], nso.segments[2];
            && m.baseGva == base && m.imageSize == nso.imageSize
            && m.text.base == base + t.memoryOffset && m.text.size == (t.memorySize + 4095) / 4096 * 4096
            && m.rodata.base == base + r.memoryOffset && m.rodata.size == (r.memorySize + 4095) / 4096 * 4096
            && m.data.base == base + d.memoryOffset && m.data.base + m.data.size == base + nso.imageSize
  {
    PagesApart(nso);
  }

  // ----- One loaded module -----

  /** The module's image lies page-aligned in the address space, in place, on pages of guest RAM. */
  ghost predicate ModuleAt(boot: FlatMap, ram: seq<Byte>, nso: Nso, decode: Decoder, base: nat) {
    && Laid(nso) && base % 4096 == 0 && nso.imageSize % 4096 == 0 && base + nso.imageSize <= 0x80_0000_0000
    && InPlace(boot, ram, nso, decode, base)
    && forall v :: v in boot ==> (boot[v].ppn + 1) * 4096 <= |ram|
  }

  /** Byte i of the image: its page's rights and its byte in guest RAM. */
  lemma ModuleByte(boot: FlatMap, ram: seq<Byte>, nso: Nso, decode: Decoder, base: nat, i: nat)
    requires ModuleAt(boot, ram, nso, decode, base) && i < nso.imageSize
    ensures base + i < 0x80_0000_0000 && (base + i) / 4096 in boot
    ensures var page := boot[(base + i) / 4096];
            && page.ppn * 4096 + (base + i) % 4096 < |ram|
            && ram[page.ppn * 4096 + (base + i) % 4096] == ImageByte(nso, decode, i)
            && page.perms == if OnPageOf(nso.segments[0], i) then 5 else if OnPageOf(nso.segments[1], i) then 1 else 3
  {
    PagePermsMeans(nso, i);
    ByteOfPage(base, i, nso.imageSize);
    hide Laid, Readable, ImageByte, PagePerms, OnPageOf;
    assert PermsAre(boot, Vpn(base) + Vpn(i), PagePerms(nso, Vpn(i)));
    assert ByteIs(boot, ram, base + i, ImageByte(nso, decode, i));
  }

  /** Reading any part of a loaded module goes through, and gives the bytes of its image. */
  lemma ModuleReads(boot: FlatMap, ram: seq<Byte>, nso: Nso, decode: Decoder, base: nat, offset: nat, size: nat)
    requires ModuleAt(boot, ram, nso, decode, base) && offset + size <= nso.imageSize
    ensures Accessible(boot, base + offset, size, PERM_R) && Backed(boot, base + offset, size, |ram|)
    ensures forall i :: offset <= i < offset + size ==>
              Loaded(boot, ram, base + offset, size)[i - offset] == ImageByte(nso, decode, i)
  {
    var gva := base + offset;
    assert Readable(nso, decode);
    hide Laid, Readable, ImageByte, OnPageOf, Loaded, Accessible, InPlace;
    forall a | gva <= a < gva + size
      ensures Grants(boot, a, true, false, false) && Vpn(a) in boot && Pa(boot, a) < |ram|
      ensures ram[Pa(boot, a)] == ImageByte(nso, decode, a - base)
    {
      ModuleByte(boot, ram, nso, decode, base, a - base);
    }
    AccessibleMeans(boot, gva, size);
    forall i | offset <= i < offset + size
      ensures Loaded(boot, ram, gva, size)[i - offset] == ImageByte(nso, decode, i)
    {
      LoadedByte(boot, ram, gva, size, i - offset);
    }
  }

  /** The part of the image a segment fills: its stored bytes, or what the decoder makes of them. */
  lemma SegmentContent(nso: Nso, decode: Decoder, k: nat) returns (bytes: seq<Byte>)
    requires Laid(nso) && Readable(nso, decode) && k < 3
    ensures var s := nso.segments[k];
            && s.fileOffset + s.fileSize <= |nso.source| && |bytes| == s.memorySize
            && (forall i :: s.memoryOffset <= i < s.memoryOffset + s.memorySize ==>
                  ImageByte(nso, decode, i) == bytes[i - s.memoryOffset])
    ensures var s := nso.segments[k];
            var stored := nso.source[s.fileOffset..s.fileOffset + s.fileSize];
            if s.isCompressed then decode(stored, s.memorySize) == Some(bytes) else bytes == stored
  {
    var s := nso.segments[k];
    SegmentFits(nso, k);
    hide Laid, Readable, ImageByte;
    var stored := nso.source[s.fileOffset..s.fileOffset + s.fileSize];
    if s.isCompressed {
      DecodedSize(nso, decode, k);
      bytes := decode(stored, s.memorySize).value;
    } else {
      bytes := stored;
    }
    forall i | s.memoryOffset <= i < s.memoryOffset + s.memorySize
      ensures ImageByte(nso, decode, i) == bytes[i - s.memoryOffset]
    {
      ImageByteIs(nso, decode, k, i - s.memoryOffset);
    }
  }

  /**
   What the guest reads in a segment is what the file stores there: the very bytes at the segment's
   file offset, or what the decoder makes of them.
   */
  lemma SegmentReads(boot: FlatMap, ram: seq<Byte>, nso: Nso, decode: Decoder, base: nat, k: nat)
    requires ModuleAt(boot, ram, nso, decode, base) && k < 3
    ensures var s := nso.segments[k];
            && s.fileOffset + s.fileSize <= |nso.source|
            && Backed(boot, base + s.memoryOffset, s.memorySize, |ram|)
            && Accessible(boot, base + s.memoryOffset, s.memorySize, PERM_R)
    ensures var s := nso.segments[k];
            var stored := nso.source[s.fileOffset..s.fileOffset + s.fileSize];
            var read := Loaded(boot, ram, base + s.memoryOffset, s.memorySize);
            if s.isCompressed then decode(stored, s.memorySize) == Some(read) else read == stored
  {
    var s := nso.segments[k];
    SegmentFits(nso, k);
    assert Readable(nso, decode);
    hide Laid, Readable, ImageByte, Loaded, Accessible, ModuleAt, Backed;
    ModuleReads(boot, ram, nso, decode, base, s.memoryOffset, s.memorySize);
    var bytes := SegmentContent(nso, decode, k);
    var read := Loaded(boot, ram, base + s.memoryOffset, s.memorySize);
    forall j | 0 <= j < s.memorySize
      ensures read[j] == bytes[j]
    {
      assert ImageByte(nso, decode, s.memoryOffset + j) == bytes[(s.memoryOffset + j) - s.memoryOffset];
    }
    assert read == bytes;
  }

  lemma DecodedSize(nso: Nso, decode: Decoder, k: nat)
    requires Laid(nso) && Readable(nso, decode) && k < 3 && nso.segments[k].isCompressed
    ensures var s := nso.segments[k];
            var d := decode(nso.source[s.fileOffset..s.fileOffset + s.fileSize], s.memorySize);
            d.Some? && |d.value| == s.memorySize
  {
    ReadableMeans(nso, decode);
    hide Readable;
    assert nso.segments[k] in nso.segments;
  }

  /** A store that touches a page of text or rodata faults; one inside other pages of the image goes through. */
  lemma ModuleWrites(boot: FlatMap, ram: seq<Byte>, nso: Nso, decode: Decoder, base: nat, offset: nat, size: nat)
    requires ModuleAt(boot, ram, nso, decode, base) && offset + size <= nso.imageSize && size > 0
    ensures Accessible(boot, base + offset, size, PERM_W) <==>
              forall i :: offset <= i < offset + size ==> !OnPageOf(nso.segments[0], i) && !OnPageOf(nso.segments[1], i)
  {
    var gva := base + offset;
    assert |nso.segments| == 3;
    hide Laid, Readable, ImageByte, OnPageOf, Accessible, InPlace;
    forall i | offset <= i < offset + size
      ensures Grants(boot, base + i, false, true, false)
              <==> !OnPageOf(nso.segments[0], i) && !OnPageOf(nso.segments[1], i)
    {
      ModuleByte(boot, ram, nso, decode, base, i);
    }
    AccessibleMeans(boot, gva, size);
    if Accessible(boot, gva, size, PERM_W) {
      forall i | offset <= i < offset + size
        ensures !OnPageOf(nso.segments[0], i) && !OnPageOf(nso.segments[1], i)
      {
        assert Grants(boot, base + i, false, true, false);
      }
    } else {
      var a :| gva <= a < gva + size && !Grants(boot, a, false, true, false);
      assert OnPageOf(nso.segments[0], a - base) || OnPageOf(nso.segments[1], a - base);
    }
  }

  /** The guest can execute exactly the pages of text. */
  lemma ModuleExecutes(boot: FlatMap, ram: seq<Byte>, nso: Nso, decode: Decoder, base: nat, i: nat)
    requires ModuleAt(boot, ram, nso, decode, base) && i < nso.imageSize
    ensures Translates(boot, base + i, 4) <==> OnPageOf(nso.segments[0], i)
  {
    ModuleByte(boot, ram, nso, decode, base, i);
    TranslatesMeans(boot, base + i, false, false, true);
    hide Laid, ModuleAt, OnPageOf, Translates, ImageByte, Readable;
  }

  // ----- The loaded process -----

  /** The modules' images, back to back in the code region. */
  ghost predicate Loads(space: AddressSpace, modules: seq<Module>, boot: FlatMap, ram: seq<Byte>, nsos: seq<Nso>,
                        decode: Decoder)
  {
    && |nsos| > 0 && |modules| == |nsos| && space.code.base % 4096 == 0
    && modules[0].baseGva == space.code.base
    && (forall k :: 0 < k < |nsos| ==> modules[k].baseGva == modules[k - 1].baseGva + modules[k - 1].imageSize)
    && modules[|nsos| - 1].baseGva + modules[|nsos| - 1].imageSize == space.code.base + space.code.size
    && (forall k :: 0 <= k < |nsos| ==> ModuleAt(boot, ram, nsos[k], decode, modules[k].baseGva))
    && (forall k :: 0 <= k < |nsos| ==> Laid(nsos[k]) && modules[k] == Describe(nsos[k], modules[k].baseGva))
  }

  lemma ModuleLoaded(space: AddressSpace, modules: seq<Module>, boot: FlatMap, ram: seq<Byte>, nsos: seq<Nso>,
                     decode: Decoder, k: nat)
    requires AllLaid(nsos) && SpaceOk(space) && space.code.size == CodeSize(nsos, |nsos|) && k < |nsos|
    requires Described(modules, nsos, |nsos|, space.code.base)
    requires ModulesInPlace(boot, ram, nsos, |nsos|, decode, space.code.base)
    requires forall v :: v in boot ==> (boot[v].ppn + 1) * 4096 <= |ram|
    ensures |modules| == |nsos| && Laid(nsos[k])
    ensures modules[k].baseGva == space.code.base + CodeSize(nsos, k) && modules[k].imageSize == nsos[k].imageSize
    ensures modules[k] == Describe(nsos[k], modules[k].baseGva)
    ensures ModuleAt(boot, ram, nsos[k], decode, modules[k].baseGva)
  {
    hide InPlace, SegmentOk, CodeSize, Describe, SpaceOk, Laid;
    var base := space.code.base + CodeSize(nsos, k);
    DescribedRange(nsos[k], base);
    CodeFits(space, nsos, k);
    assert InPlace(boot, ram, nsos[k], decode, base);
  }

  lemma CodeFits(space: AddressSpace, nsos: seq<Nso>, k: nat)
    requires AllLaid(nsos) && SpaceOk(space) && space.code.size == CodeSize(nsos, |nsos|) && k < |nsos|
    ensures space.code.base % 4096 == 0 && nsos[k].imageSize % 4096 == 0
    ensures (space.code.base + CodeSize(nsos, k)) % 4096 == 0
    ensures space.code.base + CodeSize(nsos, k) + nsos[k].imageSize <= 0x80_0000_0000
    ensures CodeSize(nsos, k + 1) == CodeSize(nsos, k) + nsos[k].imageSize
  {
    StackFits(space, 0);
    CodeSizeGrows(nsos, k + 1, |nsos|);
    CodeSizeAligned(nsos, k);
    PagesApart(nsos[k]);
    assert CodeSize(nsos, k + 1) == CodeSize(nsos, k) + nsos[k].imageSize;
    hide AlignUpPage, SegmentOk, CodeSize, SpaceOk, AllLaid, Laid;
    OffsetPages(space.code.base, CodeSize(nsos, k));
  }

  lemma ProgramLoaded(space: AddressSpace, modules: seq<Module>, boot: FlatMap, ram: seq<Byte>, nsos: seq<Nso>,
                      decode: Decoder)
    requires AllLaid(nsos) && SpaceOk(space) && space.code.size == CodeSize(nsos, |nsos|) && |nsos| > 0
    requires Described(modules, nsos, |nsos|, space.code.base)
    requires ModulesInPlace(boot, ram, nsos, |nsos|, decode, space.code.base)
    requires forall v :: v in boot ==> (boot[v].ppn + 1) * 4096 <= |ram|
    ensures Loads(space, modules, boot, ram, nsos, decode)
  {
    hide AllLaid, SpaceOk, Described, ModulesInPlace, ModuleAt, Describe, Laid, CodeSize;
    forall k | 0 <= k < |nsos|
      ensures |modules| == |nsos| && Laid(nsos[k]) && modules[k] == Describe(nsos[k], modules[k].baseGva)
      ensures modules[k].baseGva == space.code.base + CodeSize(nsos, k) && modules[k].imageSize == nsos[k].imageSize
      ensures ModuleAt(boot, ram, nsos[k], decode, modules[k].baseGva)
    {
      LaidOf(nsos, k);
      ModuleLoaded(space, modules, boot, ram, nsos, decode, k);
    }
    NoModules(nsos);
    assert Laid(nsos[0]) && modules[0].baseGva == space.code.base + CodeSize(nsos, 0);
    forall k | 0 < k < |nsos|
      ensures modules[k].baseGva == modules[k - 1].baseGva + modules[k - 1].imageSize
    {
      CodeFits(space, nsos, k - 1);
    }
    CodeFits(space, nsos, |nsos| - 1);
  }

  lemma LaidOf(nsos: seq<Nso>, k: nat)
    requires AllLaid(nsos) && k < |nsos|
    ensures Laid(nsos[k])
  {
    hide Laid;
  }

  lemma NoModules(nsos: seq<Nso>)
    ensures CodeSize(nsos, 0) == 0
  {
  }
}

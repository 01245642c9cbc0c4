/** NSO executables (core/hle/loader/nso.c): three page-aligned segments and a .bss. */
module Nsos {
  import opened Results
  import opened Geometry
  import opened Bytes
  import opened Bits
  import opened GuestMemory
  import opened AddressSpaces

  const MAGIC: nat := 0x304F_534E
  const HEADER_SIZE: nat := 0x100
  const MAX_SEGMENT_BYTES: nat := 0x2000_0000
  const LZ4_MAX_INPUT_SIZE: nat := 0x7E00_0000
  const TEXT: nat := 0
  const RODATA: nat := 1
  const DATA: nat := 2
  const SEGMENTS: nat := 3
  const ZSTD_FLAG: nat := 7

  /** Where the headers of .text, .rodata and .data and their file sizes lie. */
  const HEADERS: seq<nat> := [0x10, 0x20, 0x30]
  const FILE_SIZES: seq<nat> := [0x60, 0x64, 0x68]

  /** LZ4 block decoding into a buffer of the given capacity. */
  type Decoder = (seq<Byte>, nat) -> Option<seq<Byte>>

  datatype Segment = Segment(fileOffset: nat, fileSize: nat, memoryOffset: nat, memorySize: nat, isCompressed: bool) {
    function End(): nat {
      memoryOffset + memorySize
    }

    predicate Has(i: nat) {
      memoryOffset <= i < memoryOffset + memorySize
    }
  }

  datatype Nso = Nso(source: seq<Byte>, segments: seq<Segment>, bssSize: nat, imageSize: nat)

  // ----- What the bootstrap relies on -----

  ghost predicate SegmentOk(s: Segment, fileSize: nat) {
    && s.memorySize <= MAX_SEGMENT_BYTES && s.memoryOffset < 0x1_0000_0000
    && s.fileOffset + s.fileSize <= fileSize
    && (!s.isCompressed ==> s.fileSize == s.memorySize)
    && PageAligned(s.memoryOffset)
  }

  /** Segments in bounds of the file, page-aligned, ascending and apart in memory; the image covers them and .bss. */
  ghost predicate Laid(nso: Nso) {
    && |nso.segments| == SEGMENTS && nso.bssSize < 0x1_0000_0000
    && (forall i :: 0 <= i < SEGMENTS ==> SegmentOk(nso.segments[i], |nso.source|))
    && nso.segments[TEXT].End() <= nso.segments[RODATA].memoryOffset
    && nso.segments[RODATA].End() <= nso.segments[DATA].memoryOffset
    && nso.imageSize == AlignUpPage(nso.segments[DATA].End() + nso.bssSize)
  }

  /** Rounding a segment to pages never reaches the next one, and all of them lie in the image. */
  lemma PagesApart(nso: Nso)
    requires Laid(nso)
    ensures var t, r, d := nso.segments[TEXT], nso.segments[RODATA], nso.segments[DATA];
            && t.memoryOffset + AlignUpPage(t.memorySize) <= r.memoryOffset
            && r.memoryOffset + AlignUpPage(r.memorySize) <= d.memoryOffset
            && d.End() <= nso.imageSize < 0x4_0000_0000 && PageAligned(nso.imageSize)
            && PageAligned(t.memoryOffset) && PageAligned(r.memoryOffset) && PageAligned(d.memoryOffset)
  {
    var t, r, d := nso.segments[TEXT], nso.segments[RODATA], nso.segments[DATA];
    AlignUpBound(t.memorySize, r.memoryOffset - t.memoryOffset);
    AlignUpBound(r.memorySize, d.memoryOffset - r.memoryOffset);
  }

  // ----- nso_open -----

  predicate HeaderKnown(source: seq<Byte>) {
    |source| >= HEADER_SIZE && Word(source, 0) == MAGIC && Word(source, 4) == 0
  }

  function DecodedSegment(source: seq<Byte>, i: nat): Segment
    requires |source| >= HEADER_SIZE && i < SEGMENTS
  {
    Segment(Word(source, HEADERS[i]), Word(source, FILE_SIZES[i]), Word(source, HEADERS[i] + 4),
            Word(source, HEADERS[i] + 8), TestBit(Word(source, 0x0C), i))
  }

  function Decoded(source: seq<Byte>): (nso: Nso)
    requires |source| >= HEADER_SIZE
    ensures |nso.segments| == SEGMENTS && forall i :: 0 <= i < SEGMENTS ==> nso.segments[i] == DecodedSegment(source, i)
  {
    var segments := [DecodedSegment(source, 0), DecodedSegment(source, 1), DecodedSegment(source, 2)];
    Nso(source, segments, Word(source, 0x3C), AlignUpPage(segments[DATA].End() + Word(source, 0x3C)))
  }

  /** A sub-section of .rodata: absent, or entirely inside. */
  predicate SectionInBounds(source: seq<Byte>, at: nat, rodataSize: nat)
    requires |source| >= HEADER_SIZE && at + 8 <= HEADER_SIZE
  {
    Word(source, at + 4) == 0 || Word(source, at) + Word(source, at + 4) <= rodataSize
  }

  predicate NameInBounds(source: seq<Byte>)
    requires |source| >= HEADER_SIZE
  {
    Word(source, 0x2C) == 0 || Word(source, 0x1C) + Word(source, 0x2C) <= |source|
  }

  ghost predicate Acceptable(source: seq<Byte>) {
    && HeaderKnown(source) && !TestBit(Word(source, 0x0C), ZSTD_FLAG)
    && Laid(Decoded(source))
    && (forall at :: at in {0x88, 0x90, 0x98} ==>
          SectionInBounds(source, at, Decoded(source).segments[RODATA].memorySize))
    && NameInBounds(source)
  }

  /** Where the header keeps what: 16 bytes a segment from 0x10, .bss size after the last, file sizes from 0x60. */
  lemma HeaderFields(source: seq<Byte>)
    requires |source| >= 0x100
    ensures var n, flags := Decoded(source), Word(source, 0x0C);
            && n.source == source && |n.segments| == 3
            && n.segments[0] == Segment(Word(source, 0x10), Word(source, 0x60), Word(source, 0x14), Word(source, 0x18),
                                        flags % 2 == 1)
            && n.segments[1] == Segment(Word(source, 0x20), Word(source, 0x64), Word(source, 0x24), Word(source, 0x28),
                                        flags / 2 % 2 == 1)
            && n.segments[2] == Segment(Word(source, 0x30), Word(source, 0x68), Word(source, 0x34), Word(source, 0x38),
                                        flags / 4 % 2 == 1)
            && n.bssSize == Word(source, 0x3C)
            && n.imageSize == (Word(source, 0x34) + Word(source, 0x38) + Word(source, 0x3C) + 4095) / 4096 * 4096
  {
    var flags := Word(source, 0x0C);
    hide Word;
    BitsOfFlags(flags);
    hide TestBit;
  }

  lemma BitsOfFlags(flags: nat)
    ensures TestBit(flags, 0) <==> flags % 2 == 1
    ensures TestBit(flags, 1) <==> flags / 2 % 2 == 1
    ensures TestBit(flags, 2) <==> flags / 4 % 2 == 1
    ensures TestBit(flags, 7) <==> flags / 128 % 2 == 1
  {
    assert Pow2(1) == 2 && Pow2(2) == 4 && Pow2(3) == 8 && Pow2(5) == 4 * Pow2(3) && Pow2(7) == 4 * Pow2(5);
    TestBitMeans(flags, 0, flags, 0);
    TestBitMeans(flags, 1, flags / 2, flags % 2);
    TestBitMeans(flags, 2, flags / 4, flags % 4);
    TestBitMeans(flags, 7, flags / 128, flags % 128);
  }

  /** In the file, of a size the loader takes, stored whole unless compressed, and on a page boundary. */
  predicate SegmentStored(s: Segment, fileSize: nat) {
    && s.memorySize <= 0x2000_0000 && s.fileOffset + s.fileSize <= fileSize
    && (s.isCompressed || s.fileSize == s.memorySize) && s.memoryOffset % 4096 == 0
  }

  /** "NSO0", version 0, not compressed as one block, and every offset and size within its bounds. */
  lemma AcceptableMeans(source: seq<Byte>)
    ensures Acceptable(source) <==>
              && |source| >= 0x100 && Word(source, 0) == 0x304F_534E && Word(source, 4) == 0
              && Word(source, 0x0C) / 128 % 2 == 0
              && (forall s :: s in Decoded(source).segments ==> SegmentStored(s, |source|))
              && Word(source, 0x14) + Word(source, 0x18) <= Word(source, 0x24)
              && Word(source, 0x24) + Word(source, 0x28) <= Word(source, 0x34)
              && (Word(source, 0x8C) == 0 || Word(source, 0x88) + Word(source, 0x8C) <= Word(source, 0x28))
              && (Word(source, 0x94) == 0 || Word(source, 0x90) + Word(source, 0x94) <= Word(source, 0x28))
              && (Word(source, 0x9C) == 0 || Word(source, 0x98) + Word(source, 0x9C) <= Word(source, 0x28))
              && (Word(source, 0x2C) == 0 || Word(source, 0x1C) + Word(source, 0x2C) <= |source|)
  {
    hide Word, TestBit, AlignUpPage, Decoded, Laid, SectionInBounds, SegmentStored;
    if |source| >= 0x100 {
      BitsOfFlags(Word(source, 0x0C));
      LaidMeans(source);
      SectionsMean(source);
    }
  }

  lemma SectionsMean(source: seq<Byte>)
    requires |source| >= 0x100
    ensures (forall at :: at in {0x88, 0x90, 0x98} ==>
               SectionInBounds(source, at, Decoded(source).segments[RODATA].memorySize)) <==>
              && (Word(source, 0x8C) == 0 || Word(source, 0x88) + Word(source, 0x8C) <= Word(source, 0x28))
              && (Word(source, 0x94) == 0 || Word(source, 0x90) + Word(source, 0x94) <= Word(source, 0x28))
              && (Word(source, 0x9C) == 0 || Word(source, 0x98) + Word(source, 0x9C) <= Word(source, 0x28))
  {
    hide Word, TestBit, AlignUpPage;
    var rodataSize := Decoded(source).segments[RODATA].memorySize;
    var a, b, c := SectionInBounds(source, 0x88, rodataSize), SectionInBounds(source, 0x90, rodataSize),
        SectionInBounds(source, 0x98, rodataSize);
    hide SectionInBounds, Decoded;
    assert 0x88 in {0x88, 0x90, 0x98} && 0x90 in {0x88, 0x90, 0x98} && 0x98 in {0x88, 0x90, 0x98};
  }

  lemma LaidMeans(source: seq<Byte>)
    requires |source| >= 0x100
    ensures Laid(Decoded(source)) <==>
              && (forall s :: s in Decoded(source).segments ==> SegmentStored(s, |source|))
              && Word(source, 0x14) + Word(source, 0x18) <= Word(source, 0x24)
              && Word(source, 0x24) + Word(source, 0x28) <= Word(source, 0x34)
  {
    hide FromLe, TestBit, AlignUpPage;
    var n := Decoded(source);
    assert forall k :: 0 <= k < 3 ==> n.segments[k] == DecodedSegment(source, k) && n.segments[k] in n.segments;
  }

  method Open(source: seq<Byte>) returns (e: Error, nso: Nso)
    ensures e == Ok <==> Acceptable(source)
    ensures e == Ok ==> nso == Decoded(source) && Laid(nso)
    ensures e == NotImplemented <==> HeaderKnown(source) && TestBit(Word(source, 0x0C), ZSTD_FLAG)
    ensures e in {Ok, InvalidArgument, NotImplemented}
  {
    hide TestBit, FromLe, AlignUpPage;
    nso := Nso(source, [], 0, 0);
    if |source| < HEADER_SIZE || Word(source, 0) != MAGIC || Word(source, 4) != 0 {
      return InvalidArgument, nso;
    }
    var flags := Word(source, 0x0C);
    if TestBit(flags, ZSTD_FLAG) {
      return NotImplemented, nso;
    }
    var segments: seq<Segment> := [];
    for i := 0 to SEGMENTS
      invariant |segments| == i
      invariant forall k :: 0 <= k < i ==> segments[k] == DecodedSegment(source, k) && SegmentOk(segments[k], |source|)
    {
      var s := Segment(Word(source, HEADERS[i]), Word(source, FILE_SIZES[i]), Word(source, HEADERS[i] + 4),
                       Word(source, HEADERS[i] + 8), TestBit(flags, i));
      segments := segments + [s];
      assert s == DecodedSegment(source, i);
      if s.memorySize > MAX_SEGMENT_BYTES {
        assert !SegmentOk(Decoded(source).segments[i], |source|);
        return InvalidArgument, nso;
      }
      if s.fileOffset > |source| || s.fileSize > |source| - s.fileOffset {
        assert !SegmentOk(Decoded(source).segments[i], |source|);
        return InvalidArgument, nso;
      }
      if !s.isCompressed && s.fileSize != s.memorySize {
        assert !SegmentOk(Decoded(source).segments[i], |source|);
        return InvalidArgument, nso;
      }
      if s.memoryOffset % PAGE_SIZE != 0 {
        assert !SegmentOk(Decoded(source).segments[i], |source|);
        return InvalidArgument, nso;
      }
    }
    assert segments == Decoded(source).segments;
    for i := 1 to SEGMENTS
      invariant forall k :: 1 <= k < i ==> segments[k - 1].End() <= segments[k].memoryOffset
    {
      if segments[i].memoryOffset < segments[i - 1].End() {
        return InvalidArgument, nso;
      }
    }
    assert segments[TEXT].End() <= segments[TEXT + 1].memoryOffset
        && segments[RODATA].End() <= segments[RODATA + 1].memoryOffset;
    var bssSize := Word(source, 0x3C);
    nso := Nso(source, segments, bssSize, AlignUpPage(segments[DATA].End() + bssSize));
    assert nso == Decoded(source);
    var rodataSize := segments[RODATA].memorySize;
    if !SectionInBounds(source, 0x88, rodataSize) || !SectionInBounds(source, 0x90, rodataSize)
       || !SectionInBounds(source, 0x98, rodataSize) {
      return InvalidArgument, nso;
    }
    if !NameInBounds(source) {
      return InvalidArgument, nso;
    }
    e := Ok;
  }

  // ----- nso_read_segment -----

  /** The bytes of a segment: raw from the file, or decoded to exactly its memory size. */
  function SegmentBytes(nso: Nso, kind: nat, decode: Decoder): (r: Option<seq<Byte>>)
    requires kind < |nso.segments| && nso.segments[kind].fileOffset + nso.segments[kind].fileSize <= |nso.source|
    ensures r.Some? && !nso.segments[kind].isCompressed ==> |r.value| == nso.segments[kind].fileSize
    ensures r.Some? && nso.segments[kind].isCompressed ==> |r.value| == nso.segments[kind].memorySize
  {
    var s := nso.segments[kind];
    var stored := nso.source[s.fileOffset..s.fileOffset + s.fileSize];
    if !s.isCompressed then Some(stored)
    else if s.fileSize > LZ4_MAX_INPUT_SIZE || s.memorySize > LZ4_MAX_INPUT_SIZE then None
    else
      var decoded := decode(stored, s.memorySize);
      if decoded.Some? && |decoded.value| == s.memorySize then decoded else None
  }

  /** Every segment of the image can be read. */
  predicate Readable(nso: Nso, decode: Decoder)
    requires |nso.segments| == SEGMENTS
    requires forall k :: 0 <= k < SEGMENTS ==> nso.segments[k].fileOffset + nso.segments[k].fileSize <= |nso.source|
  {
    forall k: nat :: k < SEGMENTS ==> SegmentBytes(nso, k, decode).Some?
  }

  /** The loaded image: the segment's byte where there is a segment, zero in gaps and .bss. */
  ghost function ImageByte(nso: Nso, decode: Decoder, i: nat): Byte
    requires Laid(nso) && Readable(nso, decode)
  {
    var t, r, d := nso.segments[TEXT], nso.segments[RODATA], nso.segments[DATA];
    if t.Has(i) then SegmentBytes(nso, TEXT, decode).value[i - t.memoryOffset]
    else if r.Has(i) then SegmentBytes(nso, RODATA, decode).value[i - r.memoryOffset]
    else if d.Has(i) then SegmentBytes(nso, DATA, decode).value[i - d.memoryOffset]
    else 0
  }

  // ----- What the image holds -----

  /** A segment can be read when it is stored raw, or small enough and decoded to exactly its memory size. */
  lemma ReadableMeans(nso: Nso, decode: Decoder)
    requires Laid(nso)
    ensures Readable(nso, decode) <==>
              forall s :: s in nso.segments && s.isCompressed ==>
                var d := decode(nso.source[s.fileOffset..s.fileOffset + s.fileSize], s.memorySize);
                s.fileSize <= 0x7E00_0000 && d.Some? && |d.value| == s.memorySize
  {
    forall s | s in nso.segments
      ensures SegmentOk(s, |nso.source|)
    {
    }
    if Readable(nso, decode) {
      forall s | s in nso.segments && s.isCompressed
        ensures s.fileSize <= 0x7E00_0000
        ensures var d := decode(nso.source[s.fileOffset..s.fileOffset + s.fileSize], s.memorySize);
                d.Some? && |d.value| == s.memorySize
      {
        var k: nat :| k < |nso.segments| && nso.segments[k] == s;
        assert SegmentBytes(nso, k, decode).Some?;
      }
    }
    forall k: nat | k < SEGMENTS
      ensures nso.segments[k] in nso.segments
    {
    }
  }

  /** Byte i of a segment in memory: the file's own byte, or byte i of what the decoder makes of the stored bytes. */
  lemma ImageByteIs(nso: Nso, decode: Decoder, k: nat, i: nat)
    requires Laid(nso) && Readable(nso, decode) && k < 3 && i < nso.segments[k].memorySize
    ensures var s := nso.segments[k];
            var stored := nso.source[s.fileOffset..s.fileOffset + s.fileSize];
            && (!s.isCompressed ==> s.fileSize == s.memorySize)
            && (!s.isCompressed ==> ImageByte(nso, decode, s.memoryOffset + i) == nso.source[s.fileOffset + i])
            && (s.isCompressed ==>
                  && decode(stored, s.memorySize).Some? && |decode(stored, s.memorySize).value| == s.memorySize
                  && ImageByte(nso, decode, s.memoryOffset + i) == decode(stored, s.memorySize).value[i])
  {
    hide AlignUpPage;
    var s := nso.segments[k];
    assert SegmentBytes(nso, k, decode).Some?;
  }

  /** Between the segments and in .bss the image is zero. */
  lemma ImageGap(nso: Nso, decode: Decoder, i: nat)
    requires Laid(nso) && Readable(nso, decode)
    requires forall s :: s in nso.segments ==> i < s.memoryOffset || s.memoryOffset + s.memorySize <= i
    ensures ImageByte(nso, decode, i) == 0
  {
    hide SegmentBytes, AlignUpPage;
    assert forall k: nat :: k < SEGMENTS ==> nso.segments[k] in nso.segments;
  }
}

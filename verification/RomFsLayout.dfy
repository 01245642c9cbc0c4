/** What the bytes of a RomFS image mean to the lookup: header, records, hash, paths (core/hle/loader/romfs.c). */
module RomFsLayouts {
  import opened Results
  import opened Bytes
  import opened RomFss

  // ----- The image header -----

  /** Tables where the header says, past its 0x50 bytes and inside the source; 64 MB of them at most. */
  lemma HeaderMeans(source: seq<Byte>)
    requires |source| >= 0x50
    ensures var dirHash, dirHashSize := FromLe(source[0x08..0x10]), FromLe(source[0x10..0x18]);
            var dirs, dirsSize := FromLe(source[0x18..0x20]), FromLe(source[0x20..0x28]);
            var fileHash, fileHashSize := FromLe(source[0x28..0x30]), FromLe(source[0x30..0x38]);
            var files, filesSize := FromLe(source[0x38..0x40]), FromLe(source[0x40..0x48]);
            && (HeaderOk(source) <==>
                  && FromLe(source[0x00..0x08]) == 0x50 && FromLe(source[0x48..0x50]) <= |source|
                  && dirHash >= 0x50 && dirHash + dirHashSize <= |source| && dirHashSize % 4 == 0
                  && dirs >= 0x50 && dirs + dirsSize <= |source|
                  && fileHash >= 0x50 && fileHash + fileHashSize <= |source| && fileHashSize % 4 == 0
                  && files >= 0x50 && files + filesSize <= |source|
                  && dirHashSize + dirsSize + fileHashSize + filesSize <= 0x400_0000)
  {
    hide FromLe;
    var r0, r1, r2, r3 := TableRange(source, 0), TableRange(source, 1), TableRange(source, 2), TableRange(source, 3);
    if forall i: nat :: i < 4 ==> TableInSource(source, TableRange(source, i).0, TableRange(source, i).1) {
      assert TableInSource(source, r0.0, r0.1) && TableInSource(source, r1.0, r1.1);
      assert TableInSource(source, r2.0, r2.1) && TableInSource(source, r3.0, r3.1);
    }
  }

  /** Bucket i of a hash table is word i of its bytes. */
  lemma ImageMeans(source: seq<Byte>)
    requires HeaderOk(source)
    ensures var fs := Image(source);
            var dirHash, dirHashSize := FromLe(source[0x08..0x10]), FromLe(source[0x10..0x18]);
            var dirs, dirsSize := FromLe(source[0x18..0x20]), FromLe(source[0x20..0x28]);
            var fileHash, fileHashSize := FromLe(source[0x28..0x30]), FromLe(source[0x30..0x38]);
            var files, filesSize := FromLe(source[0x38..0x40]), FromLe(source[0x40..0x48]);
            && dirs + dirsSize <= |source| && fs.dirTable == source[dirs..dirs + dirsSize]
            && files + filesSize <= |source| && fs.fileTable == source[files..files + filesSize]
            && |fs.dirBuckets| == dirHashSize / 4 && |fs.fileBuckets| == fileHashSize / 4
            && dirHash + dirHashSize <= |source| && fileHash + fileHashSize <= |source|
            && (forall i :: 0 <= i < |fs.dirBuckets| ==> fs.dirBuckets[i] == Word(source, dirHash + 4 * i))
            && (forall i :: 0 <= i < |fs.fileBuckets| ==> fs.fileBuckets[i] == Word(source, fileHash + 4 * i))
            && fs.dataOffset == FromLe(source[0x48..0x50]) && fs.sourceSize == |source|
  {
    hide FromLe;
    HeaderMeans(source);
    TableWords(source, 0);
    TableWords(source, 2);
    TableSlice(source, 1);
    TableSlice(source, 3);
    hide HeaderOk, TableBytes, Words;
  }

  lemma TableSlice(source: seq<Byte>, i: nat)
    requires HeaderOk(source) && i < 4
    ensures var at, size := FromLe(source[8 + 16 * i..16 + 16 * i]), FromLe(source[16 + 16 * i..24 + 16 * i]);
            && TableRange(source, i) == (at, size) && TableInSource(source, at, size) && at + size <= |source|
            && TableBytes(source, i) == source[at..at + size]
  {
    hide FromLe;
  }

  lemma SliceOfSlice(s: seq<Byte>, at: nat, size: nat, i: nat)
    requires at + size <= |s| && i + 4 <= size
    ensures s[at..at + size][i..i + 4] == s[at + i..at + i + 4]
  {
    var a, b := s[at..at + size][i..i + 4], s[at + i..at + i + 4];
    forall k | 0 <= k < 4
      ensures a[k] == b[k]
    {
      assert a[k] == s[at + (i + k)];
    }
  }

  lemma TableWords(source: seq<Byte>, i: nat)
    requires HeaderOk(source) && i < 4
    ensures var at, size := FromLe(source[8 + 16 * i..16 + 16 * i]), FromLe(source[16 + 16 * i..24 + 16 * i]);
            && TableRange(source, i) == (at, size) && TableInSource(source, at, size) && at + size <= |source|
            && |Words(TableBytes(source, i))| == size / 4
            && forall k :: 0 <= k < size / 4 ==> Words(TableBytes(source, i))[k] == Word(source, at + 4 * k)
  {
    TableSlice(source, i);
    hide HeaderOk, FromLe;
    var at, size := TableRange(source, i).0, TableRange(source, i).1;
    var bytes := TableBytes(source, i);
    forall k | 0 <= k < size / 4
      ensures Words(bytes)[k] == Word(source, at + 4 * k)
    {
      SliceOfSlice(source, at, size, 4 * k);
    }
  }

  // ----- Records -----

  /** A directory record: parent, next sibling, first child directory and file, next in bucket, name length, name. */
  lemma DirRecord(fs: RomFs, o: nat)
    ensures Decodable(fs, Dirs, o) <==>
              && o != 0xFFFF_FFFF && o % 4 == 0 && o + 0x18 <= |fs.dirTable|
              && Word(fs.dirTable, o + 0x14) <= 0x300 && o + 0x18 + Word(fs.dirTable, o + 0x14) <= |fs.dirTable|
    ensures Decodable(fs, Dirs, o) ==>
              var end := o + 0x18 + Word(fs.dirTable, o + 0x14);
              && EntryAt(fs, Dirs, o) == Entry(o, Word(fs.dirTable, o), Word(fs.dirTable, o + 4),
                                               fs.dirTable[o + 0x18..end])
              && Next(fs, Dirs, o) == Word(fs.dirTable, o + 0x10)
              && end <= EntryEnd(fs, Dirs, o) < end + 4 && EntryEnd(fs, Dirs, o) % 4 == 0
  {
    hide FromLe;
  }

  /** A file record: parent, next sibling, data offset and size, next in bucket, name length, name. */
  lemma FileRecord(fs: RomFs, o: nat)
    ensures Decodable(fs, Files, o) <==>
              && o != 0xFFFF_FFFF && o % 4 == 0 && o + 0x20 <= |fs.fileTable|
              && Word(fs.fileTable, o + 0x1C) <= 0x300 && o + 0x20 + Word(fs.fileTable, o + 0x1C) <= |fs.fileTable|
              && fs.dataOffset + FromLe(fs.fileTable[o + 8..o + 0x10]) + FromLe(fs.fileTable[o + 0x10..o + 0x18])
                 <= fs.sourceSize
    ensures Decodable(fs, Files, o) ==>
              var end := o + 0x20 + Word(fs.fileTable, o + 0x1C);
              && EntryAt(fs, Files, o) == Entry(o, Word(fs.fileTable, o), Word(fs.fileTable, o + 4),
                                                fs.fileTable[o + 0x20..end])
              && Next(fs, Files, o) == Word(fs.fileTable, o + 0x18)
              && end <= EntryEnd(fs, Files, o) < end + 4 && EntryEnd(fs, Files, o) % 4 == 0
  {
    hide FromLe;
  }

  /** Records one right behind the other's padded name, from `offset` until the first that is malformed. */
  ghost predicate Listing(fs: RomFs, kind: Kind, offset: nat, s: seq<nat>) {
    && (s == [] <==> !Decodable(fs, kind, offset)) && (s != [] ==> s[0] == offset)
    && (forall i :: 0 <= i < |s| ==> Decodable(fs, kind, s[i]))
    && (forall i, j :: 0 <= i < |s| && 0 <= j < |s| && j == i + 1 ==> s[j] == EntryEnd(fs, kind, s[i]))
    && (s != [] ==> !Decodable(fs, kind, EntryEnd(fs, kind, s[|s| - 1])))
  }

  lemma ListingCons(fs: RomFs, kind: Kind, offset: nat, rest: seq<nat>)
    requires Decodable(fs, kind, offset) && Listing(fs, kind, EntryEnd(fs, kind, offset), rest)
    ensures Listing(fs, kind, offset, [offset] + rest)
  {
    hide Decodable, EntryEnd;
    var s := [offset] + rest;
    forall i | 0 <= i < |s|
      ensures Decodable(fs, kind, s[i])
      ensures i + 1 < |s| ==> s[i + 1] == EntryEnd(fs, kind, s[i])
    {
      if i > 0 {
        assert s[i] == rest[i - 1];
        if i + 1 < |s| {
          assert s[i + 1] == rest[(i - 1) + 1];
        }
      }
    }
  }

  lemma {:induction false} ScanSteps(fs: RomFs, kind: Kind, offset: nat)
    ensures Listing(fs, kind, offset, Scan(fs, kind, offset))
    decreases |fs.Table(kind)| - offset
  {
    hide EntryAt, NameLength, Listing;
    if Decodable(fs, kind, offset) {
      ScanSteps(fs, kind, EntryEnd(fs, kind, offset));
      ListingCons(fs, kind, offset, Scan(fs, kind, EntryEnd(fs, kind, offset)));
    } else {
      NothingListed(fs, kind, offset);
    }
  }

  lemma NothingListed(fs: RomFs, kind: Kind, offset: nat)
    requires !Decodable(fs, kind, offset)
    ensures Listing(fs, kind, offset, [])
  {
  }

  // ----- The hash -----

  /** The seed is 123456789 xor the parent; each byte in turn is xored into the hash rotated right by five. */
  lemma HashMeans(parent: nat, name: seq<Byte>, byte: Byte)
    requires parent < 0x1_0000_0000
    ensures HashOf(parent, []) == ((parent as bv32) ^ 0x075B_CD15) as nat
    ensures HashFrom(HashSeed(parent), name + [byte])
            == HashFrom(HashSeed(parent), name).RotateRight(5) ^ (byte as bv32)
  {
    hide HashSeed;
    assert (name + [byte])[..|name|] == name;
    Rotates(HashFrom(HashSeed(parent), name), byte);
    EmptyHash(HashSeed(parent));
    SeedIs(parent);
    hide HashFrom, HashStep;
  }

  lemma SeedIs(parent: nat)
    requires parent < 0x1_0000_0000
    ensures HashSeed(parent) == (parent as bv32) ^ 0x075B_CD15
  {
  }

  lemma Rotates(hash: bv32, byte: Byte)
    ensures HashStep(hash, byte) == hash.RotateRight(5) ^ (byte as bv32)
  {
  }

  // ----- Hashed lookup, by content -----

  /** On a well-formed table a name is found exactly at the record that has it, and is missing when none does. */
  lemma ChildMeans(fs: RomFs, kind: Kind, chains: seq<seq<nat>>, parent: nat, name: seq<Byte>)
    requires WellFormed(fs, kind, chains) && name != [] && parent < 0x1_0000_0000
    ensures forall o :: Child(fs, kind, parent, name) == Found(o) <==>
              o in Scan(fs, kind, 0) && Decodable(fs, kind, o)
              && EntryAt(fs, kind, o).parent == parent && EntryAt(fs, kind, o).name == name
    ensures Child(fs, kind, parent, name).Missing? ==> Child(fs, kind, parent, name) == Missing(NotFound)
  {
    hide Scan, Decodable, EntryAt, Child, LinearFind, WellFormed;
    HashedIsLinear(fs, kind, chains, parent, name);
    LinearFindScans(fs, kind, 0, parent, name);
    var found := LinearFind(fs, kind, 0, parent, name);
    forall o | o in Scan(fs, kind, 0) && Decodable(fs, kind, o) && Matches(fs, kind, o, parent, name)
      ensures found == Found(o)
    {
      KeysUnique(fs, kind, chains, found.offset, o, parent, name);
    }
  }

  // ----- Paths -----

  /** The parts with a separator between any two. */
  function Joined(parts: seq<seq<Byte>>): seq<Byte>
    requires parts != []
  {
    if |parts| == 1 then parts[0] else parts[0] + [0x2F] + Joined(parts[1..])
  }

  /** The components hold no separator, and joined by separators they give the path back. */
  lemma {:induction false} ComponentsMean(s: seq<Byte>)
    ensures Joined(Components(s)) == s
    ensures forall i :: 0 <= i < |Components(s)| ==> 0x2F !in Components(s)[i]
    decreases |s|
  {
    var i := FirstSeparator(s);
    if i < |s| {
      var rest := s[i + 1..];
      ComponentsMean(rest);
      var c, d := Components(s), Components(rest);
      assert c == [s[..i]] + d && c[1..] == d;
      assert s == s[..i] + [0x2F] + rest;
    }
  }

  /** One separator may lead and one may trail; the rest of the path is what is walked. */
  lemma TrimmedMeans(path: seq<Byte>)
    ensures var lead := if path != [] && path[0] == 0x2F then [0x2F as Byte] else [];
            var trail := if |path| > |lead| && path[|path| - 1] == 0x2F then [0x2F as Byte] else [];
            path == lead + Trimmed(path) + trail && (HasTrailing(path) <==> trail != [])
  {
    var cursor := if path != [] && path[0] == SEPARATOR then 1 else 0;
    var end := if |path| > cursor && path[|path| - 1] == SEPARATOR then |path| - 1 else |path|;
    TrimmedIs(path, cursor, end);
    hide Trimmed, HasTrailing;
  }

  /** Paths of more than 0x301 bytes are refused; one that is empty but for separators promises the root. */
  lemma PathLimits(fs: RomFs, path: seq<Byte>)
    requires |fs.dirTable| < 0xFFFF_FFFF
    ensures |path| > 0x301 ==> Promised(fs, path) == DirFound(fs, path) == Missing(InvalidArgument)
    ensures path in {[], [0x2F], [0x2F, 0x2F]} ==> Promised(fs, path) == Found(0) && DirFound(fs, path) == Found(0)
  {
    hide Components, Resolve;
    TrimmedMeans(path);
  }

  /** Each step of the trail is the directory of that name in the one before. */
  ghost predicate IsTrail(fs: RomFs, trail: seq<nat>, names: seq<seq<Byte>>) {
    && |trail| == |names| + 1 && (forall i :: 0 <= i < |trail| ==> trail[i] < 0xFFFF_FFFF)
    && forall i :: 0 <= i < |names| ==> names[i] != [] && Child(fs, Dirs, trail[i], names[i]) == Found(trail[i + 1])
  }

  lemma TrailCons(fs: RomFs, from: nat, trail: seq<nat>, names: seq<seq<Byte>>)
    requires names != [] && IsTrail(fs, trail, names[1..]) && from < 0xFFFF_FFFF && names[0] != []
    requires Child(fs, Dirs, from, names[0]) == Found(trail[0])
    ensures IsTrail(fs, [from] + trail, names)
  {
    hide Child;
    var longer := [from] + trail;
    forall i | 0 <= i < |names|
      ensures names[i] != [] && Child(fs, Dirs, longer[i], names[i]) == Found(longer[i + 1])
    {
      if i > 0 {
        assert names[1..][i - 1] == names[i] && longer[i] == trail[i - 1] && longer[i + 1] == trail[(i - 1) + 1];
      }
    }
  }

  /**
   Resolving names from a directory follows the trail they leave as far as it goes; it fails at the
   first name that is empty, or that names no directory inside the one before.
   */
  lemma {:induction false} ResolveTrails(fs: RomFs, from: nat, names: seq<seq<Byte>>) returns (trail: seq<nat>)
    requires |fs.dirTable| < 0xFFFF_FFFF && from < 0xFFFF_FFFF
    ensures 0 < |trail| <= |names| + 1 && trail[0] == from && IsTrail(fs, trail, names[..|trail| - 1])
    ensures var n, last := |trail| - 1, trail[|trail| - 1];
            Resolve(fs, from, names) ==
            if n == |names| then Found(last)
            else if names[n] == [] then Missing(InvalidArgument)
            else Child(fs, Dirs, last, names[n])
    ensures var n := |trail| - 1;
            n < |names| && names[n] != [] ==> Child(fs, Dirs, trail[n], names[n]).Missing?
    decreases |names|
  {
    hide Child;
    if names == [] || names[0] == [] {
      trail := [from];
      assert names[..0] == [];
    } else {
      var child := Child(fs, Dirs, from, names[0]);
      if child.Missing? {
        trail := [from];
        assert names[..0] == [];
      } else {
        OffsetBound(fs, child.offset);
        var rest := ResolveTrails(fs, child.offset, names[1..]);
        var n := |rest|;
        assert names[..n][1..] == names[1..][..n - 1];
        TrailCons(fs, from, rest, names[..n]);
        trail := [from] + rest;
      }
    }
  }
}

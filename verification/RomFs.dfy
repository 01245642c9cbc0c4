/**
 RomFS lookup (core/hle/loader/romfs.c): directory and file tables addressed by byte offset, each with a
 hash table of bucket chains threaded through its entries.
 */
module RomFss {
  import opened Results
  import opened Bytes
  import opened FlatMaps
  import Pages = PageAllocators

  const NO_ENTRY: nat := 0xFFFF_FFFF
  const ROOT: nat := 0
  const MAX_NAME_BYTES: nat := 0x300
  const MAX_PATH_BYTES: nat := 0x301
  const MAX_TABLE_BYTES: nat := 0x400_0000
  const HEADER_SIZE: nat := 0x50
  const PATH_HASH_SEED: bv32 := 123456789
  const SEPARATOR: Byte := 0x2F

  datatype Kind = Dirs | Files {
    /** Bytes of an entry before its name. */
    function FixedSize(): nat {
      if this == Dirs then 0x18 else 0x20
    }

    function NextAt(): nat {
      if this == Dirs then 0x10 else 0x18
    }

    function LengthAt(): nat {
      if this == Dirs then 0x14 else 0x1C
    }
  }

  datatype RomFs = RomFs(dirTable: seq<Byte>, fileTable: seq<Byte>, dirBuckets: seq<nat>, fileBuckets: seq<nat>,
                         dataOffset: nat, sourceSize: nat) {
    function Table(kind: Kind): seq<Byte> {
      if kind == Dirs then dirTable else fileTable
    }

    function Buckets(kind: Kind): seq<nat> {
      if kind == Dirs then dirBuckets else fileBuckets
    }
  }

  datatype Entry = Entry(offset: nat, parent: nat, nextSibling: nat, name: seq<Byte>)

  datatype Found = Found(offset: nat) | Missing(error: Error)

  // ----- Decoding -----

  function Long(s: seq<Byte>, at: nat): nat
    requires at + 8 <= |s|
  {
    FromLe(s[at..at + 8])
  }

  predicate FixedPartFits(fs: RomFs, kind: Kind, offset: nat) {
    offset != NO_ENTRY && offset + kind.FixedSize() <= |fs.Table(kind)|
  }

  function NameLength(fs: RomFs, kind: Kind, offset: nat): nat
    requires FixedPartFits(fs, kind, offset)
  {
    Word(fs.Table(kind), offset + kind.LengthAt())
  }

  /** A file's data lies in the source. */
  predicate DataInSource(fs: RomFs, offset: nat)
    requires FixedPartFits(fs, Files, offset)
  {
    fs.dataOffset + Long(fs.fileTable, offset + 8) + Long(fs.fileTable, offset + 0x10) <= fs.sourceSize
  }

  /** The entry at an offset is aligned and lies in its table, name and all. */
  predicate Decodable(fs: RomFs, kind: Kind, offset: nat) {
    && FixedPartFits(fs, kind, offset) && offset % 4 == 0
    && NameLength(fs, kind, offset) <= MAX_NAME_BYTES
    && offset + kind.FixedSize() + NameLength(fs, kind, offset) <= |fs.Table(kind)|
    && (kind == Files ==> DataInSource(fs, offset))
  }

  function EntryAt(fs: RomFs, kind: Kind, offset: nat): Entry
    requires Decodable(fs, kind, offset)
  {
    var t := fs.Table(kind);
    var name := offset + kind.FixedSize();
    Entry(offset, Word(t, offset), Word(t, offset + 4), t[name..name + NameLength(fs, kind, offset)])
  }

  function Next(fs: RomFs, kind: Kind, offset: nat): nat
    requires Decodable(fs, kind, offset)
  {
    Word(fs.Table(kind), offset + kind.NextAt())
  }

  /** check_entry_bounds. */
  predicate EntryInBounds(offset: nat, fixedSize: nat, tableSize: nat, nameLength: nat) {
    && offset != NO_ENTRY && offset % 4 == 0
    && offset <= tableSize && fixedSize <= tableSize - offset
    && nameLength <= MAX_NAME_BYTES && nameLength <= tableSize - offset - fixedSize
  }

  /** romfs_dir_entry and romfs_file_entry: nothing outside the table is read. */
  method DecodeEntry(fs: RomFs, kind: Kind, offset: nat) returns (e: Error, entry: Entry)
    requires fs.dataOffset <= fs.sourceSize
    ensures e == if Decodable(fs, kind, offset) then Ok else InvalidArgument
    ensures e == Ok ==> entry == EntryAt(fs, kind, offset)
  {
    hide FromLe;
    entry := Entry(offset, 0, 0, []);
    var t := fs.Table(kind);
    var fixedSize := kind.FixedSize();
    if offset == NO_ENTRY || offset > |t| || fixedSize > |t| - offset {
      return InvalidArgument, entry;
    }
    var nameLength := Word(t, offset + kind.LengthAt());
    if !EntryInBounds(offset, fixedSize, |t|, nameLength) {
      return InvalidArgument, entry;
    }
    if kind == Files {
      var dataOffset, dataSize := Long(t, offset + 8), Long(t, offset + 0x10);
      var region := fs.sourceSize - fs.dataOffset;
      if dataOffset > region || dataSize > region - dataOffset {
        return InvalidArgument, entry;
      }
    }
    var name := offset + fixedSize;
    entry := Entry(offset, Word(t, offset), Word(t, offset + 4), t[name..name + nameLength]);
    e := Ok;
  }

  // ----- Hashing -----

  function HashSeed(parent: nat): bv32
    requires parent < 0x1_0000_0000
  {
    (parent as bv32) ^ PATH_HASH_SEED
  }

  /** Rotate right by five, then mix in a byte. */
  function HashStep(hash: bv32, byte: Byte): bv32 {
    ((hash >> 5) | (hash << 27)) ^ (byte as bv32)
  }

  function HashFrom(hash: bv32, name: seq<Byte>): bv32 {
    if name == [] then hash else HashStep(HashFrom(hash, name[..|name| - 1]), name[|name| - 1])
  }

  function HashOf(parent: nat, name: seq<Byte>): nat
    requires parent < 0x1_0000_0000
  {
    HashFrom(HashSeed(parent), name) as nat
  }

  lemma HashSnoc(hash: bv32, name: seq<Byte>, i: nat)
    requires i < |name|
    ensures HashFrom(hash, name[..i + 1]) == HashStep(HashFrom(hash, name[..i]), name[i])
  {
    hide HashStep;
    assert name[..i + 1][..i] == name[..i] && name[..i + 1][i] == name[i];
  }

  /** romfs_path_hash. */
  method PathHash(parent: nat, name: seq<Byte>) returns (hash: nat)
    requires parent < 0x1_0000_0000
    ensures hash == HashOf(parent, name)
  {
    hide HashStep, HashSeed, HashFrom;
    var h := HashSeed(parent);
    EmptyHash(h);
    assert name[..0] == [];
    for i := 0 to |name|
      invariant h == HashFrom(HashSeed(parent), name[..i])
    {
      HashSnoc(HashSeed(parent), name, i);
      h := HashStep(h, name[i]);
    }
    assert name[..|name|] == name;
    hash := h as nat;
  }

  lemma EmptyHash(hash: bv32)
    ensures HashFrom(hash, []) == hash
  {
  }

  // ----- The bucket-chain walk -----

  predicate Matches(fs: RomFs, kind: Kind, offset: nat, parent: nat, name: seq<Byte>)
    requires Decodable(fs, kind, offset)
  {
    EntryAt(fs, kind, offset).parent == parent && EntryAt(fs, kind, offset).name == name
  }

  /** Following a chain for at most `steps` entries: whatever is found lies in the table and has the key. */
  function Search(fs: RomFs, kind: Kind, offset: nat, parent: nat, name: seq<Byte>, steps: nat): (r: Found)
    ensures r.Found? ==> Decodable(fs, kind, r.offset) && Matches(fs, kind, r.offset, parent, name)
    decreases steps
  {
    if offset == NO_ENTRY then Missing(NotFound)
    else if steps == 0 || !Decodable(fs, kind, offset) then Missing(InvalidArgument)
    else if Matches(fs, kind, offset, parent, name) then Found(offset)
    else Search(fs, kind, Next(fs, kind, offset), parent, name, steps - 1)
  }

  function MaxSteps(fs: RomFs, kind: Kind): nat {
    |fs.Table(kind)| / kind.FixedSize() + 1
  }

  /** What a hashed lookup finds. */
  function Child(fs: RomFs, kind: Kind, parent: nat, name: seq<Byte>): (r: Found)
    requires parent < 0x1_0000_0000
    ensures r.Found? ==> Decodable(fs, kind, r.offset) && Matches(fs, kind, r.offset, parent, name)
  {
    if fs.Buckets(kind) == [] then Missing(NotFound)
    else Search(fs, kind, fs.Buckets(kind)[HashOf(parent, name) % |fs.Buckets(kind)|], parent, name, MaxSteps(fs, kind))
  }

  /** find_child_dir and find_child_file. */
  method FindChild(fs: RomFs, kind: Kind, parent: nat, name: seq<Byte>) returns (found: Found)
    requires fs.dataOffset <= fs.sourceSize && parent < 0x1_0000_0000
    ensures found == Child(fs, kind, parent, name)
  {
    hide FromLe, HashFrom, Decodable;
    if |fs.Buckets(kind)| == 0 {
      return Missing(NotFound);
    }
    var hash := PathHash(parent, name);
    var offset := fs.Buckets(kind)[hash % |fs.Buckets(kind)|];
    var maxSteps := MaxSteps(fs, kind);
    var step := 0;
    while offset != NO_ENTRY
      invariant step <= maxSteps
      invariant Search(fs, kind, offset, parent, name, maxSteps - step) == Child(fs, kind, parent, name)
      decreases maxSteps - step
    {
      if step >= maxSteps {
        return Missing(InvalidArgument);
      }
      var e, entry := DecodeEntry(fs, kind, offset);
      if e != Ok {
        return Missing(e);
      }
      if entry.parent == parent && entry.name == name {
        return Found(offset);
      }
      offset := Next(fs, kind, offset);
      step := step + 1;
    }
    found := Missing(NotFound);
  }

  // ----- The step bound -----

  /** `chain` lists the entries from `offset` to the end of its bucket. */
  ghost predicate IsChain(fs: RomFs, kind: Kind, offset: nat, chain: seq<nat>)
    decreases |chain|
  {
    if chain == [] then offset == NO_ENTRY
    else
      chain[0] == offset && offset != NO_ENTRY && Decodable(fs, kind, offset)
      && IsChain(fs, kind, Next(fs, kind, offset), chain[1..])
  }

  /** No two entries of the chain share a byte of their fixed parts; in particular none repeats. */
  ghost predicate ApartBy(chain: seq<nat>, size: nat) {
    forall i, j :: 0 <= i < j < |chain| ==> chain[i] + size <= chain[j] || chain[j] + size <= chain[i]
  }

  ghost function BytesOf(chain: seq<nat>, size: nat): set<nat> {
    if chain == [] then {} else BytesOf(chain[..|chain| - 1], size) + RangePages(chain[|chain| - 1], size)
  }

  lemma {:induction false} BytesMember(chain: seq<nat>, size: nat, b: nat)
    ensures b in BytesOf(chain, size) <==> exists i :: 0 <= i < |chain| && chain[i] <= b < chain[i] + size
    decreases |chain|
  {
    if chain != [] {
      var n := |chain| - 1;
      BytesMember(chain[..n], size, b);
      hide BytesOf;
      assert chain[n] <= b < chain[n] + size <==> b in RangePages(chain[n], size);
    }
  }

  /** The last entry of a chain shares no byte with the others. */
  lemma LastApart(before: seq<nat>, last: nat, size: nat)
    requires ApartBy(before + [last], size)
    ensures ApartBy(before, size)
    ensures forall b :: b in BytesOf(before, size) ==> b !in RangePages(last, size)
  {
    hide RangePages, BytesOf;
    var chain := before + [last];
    forall b | b in BytesOf(before, size)
      ensures b !in RangePages(last, size)
    {
      BytesMember(before, size, b);
      var i :| 0 <= i < |before| && before[i] <= b < before[i] + size;
      assert chain[i] == before[i] && chain[|before|] == last;
    }
    assert forall i :: 0 <= i < |before| ==> before[i] == chain[i];
  }

  lemma NoBytes(size: nat)
    ensures BytesOf([], size) == {}
  {
  }

  lemma {:induction false} BytesCount(chain: seq<nat>, size: nat)
    requires ApartBy(chain, size)
    ensures |BytesOf(chain, size)| == |chain| * size
    decreases |chain|
  {
    hide RangePages, ApartBy, BytesOf;
    if chain == [] {
      NoBytes(size);
    } else {
      var n := |chain| - 1;
      assert chain == chain[..n] + [chain[n]];
      LastApart(chain[..n], chain[n], size);
      BytesCount(chain[..n], size);
      Pages.RangeSize(chain[n], size);
      Pages.DisjointUnionSize(BytesOf(chain[..n], size), RangePages(chain[n], size));
      BytesSnoc(chain[..n], chain[n], size);
      OneMore(n, size);
    }
  }

  lemma BytesSnoc(before: seq<nat>, last: nat, size: nat)
    ensures BytesOf(before + [last], size) == BytesOf(before, size) + RangePages(last, size)
  {
    hide RangePages;
    assert (before + [last])[..|before|] == before;
  }

  lemma OneMore(n: nat, size: nat)
    ensures (n + 1) * size == n * size + size
  {
  }

  /** Pigeonhole on bytes: entries that do not overlap are no more than fit in the table. */
  lemma ChainFits(fs: RomFs, kind: Kind, chain: seq<nat>)
    requires ApartBy(chain, kind.FixedSize())
    requires forall i :: 0 <= i < |chain| ==> chain[i] + kind.FixedSize() <= |fs.Table(kind)|
    ensures |chain| < MaxSteps(fs, kind)
  {
    var size, limit := kind.FixedSize(), |fs.Table(kind)|;
    BytesCount(chain, size);
    Pages.RangeSize(0, limit);
    var all := RangePages(0, limit);
    forall b | b in BytesOf(chain, size)
      ensures b in all
    {
      BytesMember(chain, size, b);
    }
    SubsetSize(BytesOf(chain, size), all);
  }

  lemma SubsetSize(a: set<nat>, b: set<nat>)
    requires a <= b
    ensures |a| <= |b|
  {
    if a != b {
      ProperSubsetSize(a, b);
    }
  }

  lemma {:induction false} ChainMembers(fs: RomFs, kind: Kind, offset: nat, chain: seq<nat>)
    requires IsChain(fs, kind, offset, chain)
    ensures forall i :: 0 <= i < |chain| ==> Decodable(fs, kind, chain[i])
    decreases |chain|
  {
    hide Decodable;
    if chain != [] {
      ChainMembers(fs, kind, Next(fs, kind, offset), chain[1..]);
      assert forall i :: 1 <= i < |chain| ==> chain[i] == chain[1..][i - 1];
    }
  }

  /** The first entry of the chain with this parent and name. */
  ghost function InChain(fs: RomFs, kind: Kind, chain: seq<nat>, parent: nat, name: seq<Byte>): Found
    requires forall i :: 0 <= i < |chain| ==> Decodable(fs, kind, chain[i])
  {
    if chain == [] then Missing(NotFound)
    else if Matches(fs, kind, chain[0], parent, name) then Found(chain[0])
    else InChain(fs, kind, chain[1..], parent, name)
  }

  lemma {:induction false} SearchWalksChain(fs: RomFs, kind: Kind, offset: nat, chain: seq<nat>, parent: nat,
                                            name: seq<Byte>, steps: nat)
    requires IsChain(fs, kind, offset, chain) && |chain| <= steps
    ensures forall i :: 0 <= i < |chain| ==> Decodable(fs, kind, chain[i])
    ensures Search(fs, kind, offset, parent, name, steps) == InChain(fs, kind, chain, parent, name)
    decreases |chain|
  {
    hide Decodable, Matches;
    ChainMembers(fs, kind, offset, chain);
    if chain != [] {
      SearchWalksChain(fs, kind, Next(fs, kind, offset), chain[1..], parent, name, steps - 1);
    }
  }

  /** The bound never rejects an acyclic chain of entries that do not overlap: the search sees all of it. */
  lemma BoundNeverRejects(fs: RomFs, kind: Kind, offset: nat, chain: seq<nat>, parent: nat, name: seq<Byte>)
    requires IsChain(fs, kind, offset, chain) && ApartBy(chain, kind.FixedSize())
    ensures forall i :: 0 <= i < |chain| ==> Decodable(fs, kind, chain[i])
    ensures Search(fs, kind, offset, parent, name, MaxSteps(fs, kind)) == InChain(fs, kind, chain, parent, name)
    ensures Search(fs, kind, offset, parent, name, MaxSteps(fs, kind)) != Missing(InvalidArgument)
  {
    ChainMembers(fs, kind, offset, chain);
    ChainFits(fs, kind, chain);
    SearchWalksChain(fs, kind, offset, chain, parent, name, MaxSteps(fs, kind));
    InChainFinds(fs, kind, chain, parent, name);
  }

  lemma {:induction false} InChainFinds(fs: RomFs, kind: Kind, chain: seq<nat>, parent: nat, name: seq<Byte>)
    requires forall i :: 0 <= i < |chain| ==> Decodable(fs, kind, chain[i])
    ensures match InChain(fs, kind, chain, parent, name)
            case Found(o) => o in chain && Matches(fs, kind, o, parent, name)
            case Missing(e) =>
              (e == NotFound && forall i :: 0 <= i < |chain| ==> !Matches(fs, kind, chain[i], parent, name))
    decreases |chain|
  {
    hide Decodable, Matches;
    if chain != [] {
      InChainFinds(fs, kind, chain[1..], parent, name);
      assert forall i :: 1 <= i < |chain| ==> chain[i] == chain[1..][i - 1];
    }
  }

  // ----- Well-formed images: hashed lookup against a linear scan -----

  function AlignUp4(value: nat): (r: nat)
    ensures r % 4 == 0 && value <= r < value + 4
  {
    (value + 3) / 4 * 4
  }

  /** The offset right after an entry and its padded name. */
  function EntryEnd(fs: RomFs, kind: Kind, offset: nat): (end: nat)
    requires Decodable(fs, kind, offset)
    ensures end >= offset + kind.FixedSize()
  {
    offset + kind.FixedSize() + AlignUp4(NameLength(fs, kind, offset))
  }

  /** The entries met when scanning the table from `offset`, one after the other. */
  function Scan(fs: RomFs, kind: Kind, offset: nat): seq<nat>
    decreases |fs.Table(kind)| - offset
  {
    if !Decodable(fs, kind, offset) then [] else [offset] + Scan(fs, kind, EntryEnd(fs, kind, offset))
  }

  /** The first entry of the scan with this parent and name. */
  function LinearFind(fs: RomFs, kind: Kind, offset: nat, parent: nat, name: seq<Byte>): Found
    decreases |fs.Table(kind)| - offset
  {
    if !Decodable(fs, kind, offset) then Missing(NotFound)
    else if Matches(fs, kind, offset, parent, name) then Found(offset)
    else LinearFind(fs, kind, EntryEnd(fs, kind, offset), parent, name)
  }

  lemma {:induction false} ScanMeans(fs: RomFs, kind: Kind, offset: nat)
    ensures forall i :: 0 <= i < |Scan(fs, kind, offset)| ==> Decodable(fs, kind, Scan(fs, kind, offset)[i])
    ensures forall i :: 0 <= i < |Scan(fs, kind, offset)| ==> Scan(fs, kind, offset)[i] >= offset
    ensures ApartBy(Scan(fs, kind, offset), kind.FixedSize())
    decreases |fs.Table(kind)| - offset
  {
    hide EntryAt, NameLength;
    if Decodable(fs, kind, offset) {
      var end := EntryEnd(fs, kind, offset);
      var rest := Scan(fs, kind, end);
      ScanMeans(fs, kind, end);
      hide Decodable, Scan, EntryEnd;
      assert forall i :: 1 <= i < |[offset] + rest| ==> ([offset] + rest)[i] == rest[i - 1];
    }
  }

  /** A linear find sees the first match of the scan. */
  lemma {:induction false} LinearFindScans(fs: RomFs, kind: Kind, offset: nat, parent: nat, name: seq<Byte>)
    ensures match LinearFind(fs, kind, offset, parent, name)
            case Found(o) => o in Scan(fs, kind, offset) && Decodable(fs, kind, o) && Matches(fs, kind, o, parent, name)
            case Missing(e) =>
              (e == NotFound && forall o :: o in Scan(fs, kind, offset) && Decodable(fs, kind, o) ==>
                  !Matches(fs, kind, o, parent, name))
    decreases |fs.Table(kind)| - offset
  {
    hide Matches, EntryAt, NameLength;
    if Decodable(fs, kind, offset) {
      LinearFindScans(fs, kind, EntryEnd(fs, kind, offset), parent, name);
    }
  }

  /** The bucket of a decodable entry. */
  function BucketOf(fs: RomFs, kind: Kind, offset: nat): nat
    requires Decodable(fs, kind, offset) && |fs.Buckets(kind)| > 0
  {
    HashOf(EntryAt(fs, kind, offset).parent, EntryAt(fs, kind, offset).name) % |fs.Buckets(kind)|
  }

  /** Entry o of the scan is on the chain of its bucket, unless it has no name (the root). */
  ghost predicate Reachable(fs: RomFs, kind: Kind, o: nat, chains: seq<seq<nat>>)
    requires Decodable(fs, kind, o) && |chains| == |fs.Buckets(kind)|
  {
    EntryAt(fs, kind, o).name != [] ==> |chains| > 0 && o in chains[BucketOf(fs, kind, o)]
  }

  /**
   A well-formed table: `chains` are the bucket chains, acyclic and made of scanned entries; every named
   entry is on the chain of its bucket; no two entries have the same parent and name.
   */
  ghost predicate WellFormed(fs: RomFs, kind: Kind, chains: seq<seq<nat>>) {
    var entries := Scan(fs, kind, 0);
    ScanMeans(fs, kind, 0);
    && |chains| == |fs.Buckets(kind)|
    && (forall b :: 0 <= b < |chains| ==>
          IsChain(fs, kind, fs.Buckets(kind)[b], chains[b])
          && (forall i, j :: 0 <= i < j < |chains[b]| ==> chains[b][i] != chains[b][j])
          && forall o :: o in chains[b] ==> o in entries)
    && (forall i :: 0 <= i < |entries| ==> Reachable(fs, kind, entries[i], chains))
    && (forall i, j :: 0 <= i < |entries| && 0 <= j < |entries| && i != j ==>
          !Matches(fs, kind, entries[j], EntryAt(fs, kind, entries[i]).parent, EntryAt(fs, kind, entries[i]).name))
  }

  /** Distinct entries of a scan do not overlap. */
  lemma ChainApart(fs: RomFs, kind: Kind, chain: seq<nat>)
    requires forall i, j :: 0 <= i < j < |chain| ==> chain[i] != chain[j]
    requires forall o :: o in chain ==> o in Scan(fs, kind, 0)
    ensures ApartBy(chain, kind.FixedSize())
  {
    hide Scan, Decodable;
    ScanMeans(fs, kind, 0);
    var entries := Scan(fs, kind, 0);
    forall i, j | 0 <= i < j < |chain|
      ensures chain[i] + kind.FixedSize() <= chain[j] || chain[j] + kind.FixedSize() <= chain[i]
    {
      assert chain[i] in entries && chain[j] in entries;
      var a :| 0 <= a < |entries| && entries[a] == chain[i];
      var b :| 0 <= b < |entries| && entries[b] == chain[j];
      if a > b {
        assert entries[b] + kind.FixedSize() <= entries[a] || entries[a] + kind.FixedSize() <= entries[b];
      }
    }
  }

  lemma KeysUnique(fs: RomFs, kind: Kind, chains: seq<seq<nat>>, a: nat, b: nat, parent: nat, name: seq<Byte>)
    requires WellFormed(fs, kind, chains) && a in Scan(fs, kind, 0) && b in Scan(fs, kind, 0)
    requires Decodable(fs, kind, a) && Decodable(fs, kind, b)
    requires Matches(fs, kind, a, parent, name) && Matches(fs, kind, b, parent, name)
    ensures a == b
  {
    hide Scan, Decodable, EntryAt, IsChain, Reachable;
    var entries := Scan(fs, kind, 0);
    var i :| 0 <= i < |entries| && entries[i] == a;
    var j :| 0 <= j < |entries| && entries[j] == b;
    var key := EntryAt(fs, kind, entries[i]);
    var same := Matches(fs, kind, entries[j], key.parent, key.name);
  }

  /** A matching entry of a well-formed table is on the chain the lookup walks. */
  lemma MatchIsChained(fs: RomFs, kind: Kind, chains: seq<seq<nat>>, o: nat, parent: nat, name: seq<Byte>)
    requires WellFormed(fs, kind, chains) && o in Scan(fs, kind, 0) && Decodable(fs, kind, o)
    requires Matches(fs, kind, o, parent, name) && name != [] && parent < 0x1_0000_0000
    ensures |chains| == |fs.Buckets(kind)| > 0 && o in chains[HashOf(parent, name) % |fs.Buckets(kind)|]
  {
    hide Scan, Decodable, EntryAt, IsChain, HashOf;
    var entries := Scan(fs, kind, 0);
    var i :| 0 <= i < |entries| && entries[i] == o;
    assert Reachable(fs, kind, entries[i], chains);
  }

  /** On every well-formed image the hashed lookup of a name finds what a linear scan of the table finds. */
  lemma HashedIsLinear(fs: RomFs, kind: Kind, chains: seq<seq<nat>>, parent: nat, name: seq<Byte>)
    requires WellFormed(fs, kind, chains) && name != [] && parent < 0x1_0000_0000
    ensures Child(fs, kind, parent, name) == LinearFind(fs, kind, 0, parent, name)
  {
    hide Scan, Decodable, EntryAt, HashOf, LinearFind, Matches, InChain, Search, Reachable, MaxSteps;
    LinearFindScans(fs, kind, 0, parent, name);
    if LinearFind(fs, kind, 0, parent, name).Found? {
      MatchIsChained(fs, kind, chains, LinearFind(fs, kind, 0, parent, name).offset, parent, name);
    }
    if |chains| == 0 {
      return;
    }
    var b := HashOf(parent, name) % |fs.Buckets(kind)|;
    var chain := chains[b];
    assert IsChain(fs, kind, fs.Buckets(kind)[b], chain);
    ChainApart(fs, kind, chain);
    BoundNeverRejects(fs, kind, fs.Buckets(kind)[b], chain, parent, name);
    InChainFinds(fs, kind, chain, parent, name);
    var hashed, linear := InChain(fs, kind, chain, parent, name), LinearFind(fs, kind, 0, parent, name);
    assert Child(fs, kind, parent, name) == hashed;
    hide WellFormed, IsChain;
    if linear.Found? {
      var i :| 0 <= i < |chain| && chain[i] == linear.offset;
    }
    if linear.Found? && hashed.Found? {
      KeysUnique(fs, kind, chains, linear.offset, hashed.offset, parent, name);
    }
  }

  // ----- Opening an image -----

  /** What romfs_open establishes. */
  ghost predicate FsOk(fs: RomFs) {
    && fs.dataOffset <= fs.sourceSize
    && 4 * |fs.dirBuckets| + |fs.dirTable| + 4 * |fs.fileBuckets| + |fs.fileTable| <= MAX_TABLE_BYTES
    && Decodable(fs, Dirs, ROOT)
  }

  /** A table lies past the header, inside the source. */
  predicate TableInSource(source: seq<Byte>, offset: nat, size: nat) {
    offset >= HEADER_SIZE && offset + size <= |source|
  }

  /** The offset and size of table i: dir hash, dirs, file hash, files. */
  function TableRange(source: seq<Byte>, i: nat): (r: (nat, nat))
    requires |source| >= HEADER_SIZE && i < 4
  {
    (Long(source, 8 + 16 * i), Long(source, 16 + 16 * i))
  }

  function Words(bytes: seq<Byte>): seq<nat> {
    seq(|bytes| / 4, (i: nat) requires 4 * i + 4 <= |bytes| => Word(bytes, 4 * i))
  }

  function TableBytes(source: seq<Byte>, i: nat): seq<Byte>
    requires |source| >= HEADER_SIZE && i < 4 && TableInSource(source, TableRange(source, i).0, TableRange(source, i).1)
  {
    source[TableRange(source, i).0..TableRange(source, i).0 + TableRange(source, i).1]
  }

  predicate HeaderOk(source: seq<Byte>) {
    && |source| >= HEADER_SIZE && Long(source, 0) == HEADER_SIZE
    && (forall i: nat :: i < 4 ==> TableInSource(source, TableRange(source, i).0, TableRange(source, i).1))
    && TableRange(source, 0).1 % 4 == 0 && TableRange(source, 2).1 % 4 == 0
    && TableRange(source, 0).1 + TableRange(source, 1).1 + TableRange(source, 2).1
       + TableRange(source, 3).1 <= MAX_TABLE_BYTES
    && Long(source, 0x48) <= |source|
  }

  function Image(source: seq<Byte>): RomFs
    requires HeaderOk(source)
  {
    assert TableInSource(source, TableRange(source, 0).0, TableRange(source, 0).1);
    RomFs(TableBytes(source, 1), TableBytes(source, 3), Words(TableBytes(source, 0)), Words(TableBytes(source, 2)),
          Long(source, 0x48), |source|)
  }

  /** decode_hash_table. */
  method DecodeHashTable(bytes: seq<Byte>) returns (table: seq<nat>)
    requires |bytes| % 4 == 0
    ensures table == Words(bytes)
  {
    hide FromLe;
    table := [];
    for i := 0 to |bytes| / 4
      invariant |table| == i && forall k :: 0 <= k < i ==> table[k] == Word(bytes, 4 * k)
    {
      table := table + [Word(bytes, 4 * i)];
    }
  }

  /** romfs_open. */
  method Open(source: seq<Byte>) returns (e: Error, fs: RomFs)
    ensures e == (if HeaderOk(source) && Decodable(Image(source), Dirs, ROOT) then Ok else InvalidArgument)
    ensures e == Ok ==> fs == Image(source) && FsOk(fs)
  {
    hide FromLe, Decodable, TableBytes, Words;
    fs := RomFs([], [], [], [], 0, 0);
    if |source| < HEADER_SIZE || Long(source, 0) != HEADER_SIZE {
      return InvalidArgument, fs;
    }
    for i: nat := 0 to 4
      invariant forall k: nat :: k < i ==> TableInSource(source, TableRange(source, k).0, TableRange(source, k).1)
    {
      var range := TableRange(source, i);
      if !TableInSource(source, range.0, range.1) {
        return InvalidArgument, fs;
      }
    }
    var dirHash, dirs := TableRange(source, 0).1, TableRange(source, 1).1;
    var fileHash, files := TableRange(source, 2).1, TableRange(source, 3).1;
    if dirHash % 4 != 0 || fileHash % 4 != 0 || dirHash + dirs + fileHash + files > MAX_TABLE_BYTES {
      return InvalidArgument, fs;
    }
    if Long(source, 0x48) > |source| {
      return InvalidArgument, fs;
    }
    TableSizes(source);
    var dirBuckets := DecodeHashTable(TableBytes(source, 0));
    var fileBuckets := DecodeHashTable(TableBytes(source, 2));
    fs := RomFs(TableBytes(source, 1), TableBytes(source, 3), dirBuckets, fileBuckets, Long(source, 0x48), |source|);
    var decoded, root := DecodeEntry(fs, Dirs, ROOT);
    e := decoded;
  }

  lemma TableSizes(source: seq<Byte>)
    requires HeaderOk(source)
    ensures forall i: nat :: i < 4 ==>
              TableInSource(source, TableRange(source, i).0, TableRange(source, i).1)
                  && |TableBytes(source, i)| == TableRange(source, i).1
    ensures |Words(TableBytes(source, 0))| == TableRange(source, 0).1 / 4
            && |Words(TableBytes(source, 2))| == TableRange(source, 2).1 / 4
  {
    hide FromLe;
  }

  // ----- Paths -----

  function FirstSeparator(s: seq<Byte>): (i: nat)
    ensures i <= |s| && (i < |s| ==> s[i] == SEPARATOR)
    ensures forall k :: 0 <= k < i ==> s[k] != SEPARATOR
  {
    if s == [] then 0
    else if s[0] == SEPARATOR then 0
    else
      var i := FirstSeparator(s[1..]);
      assert forall k :: 1 <= k <= i ==> s[k] == s[1..][k - 1];
      i + 1
  }

  /** The components between separators; at least one, possibly empty. */
  function Components(s: seq<Byte>): (c: seq<seq<Byte>>)
    ensures |c| > 0
    decreases |s|
  {
    var i := FirstSeparator(s);
    if i == |s| then [s] else [s[..i]] + Components(s[i + 1..])
  }

  function Unrooted(path: seq<Byte>): seq<Byte> {
    if path != [] && path[0] == SEPARATOR then path[1..] else path
  }

  predicate HasTrailing(path: seq<Byte>) {
    Unrooted(path) != [] && Unrooted(path)[|Unrooted(path)| - 1] == SEPARATOR
  }

  /** One leading and one trailing separator are optional. */
  function Trimmed(path: seq<Byte>): seq<Byte> {
    if HasTrailing(path) then Unrooted(path)[..|Unrooted(path)| - 1] else Unrooted(path)
  }

  /** Looks the components up one inside the other; an empty one is malformed. */
  function Resolve(fs: RomFs, from: nat, components: seq<seq<Byte>>): (r: Found)
    requires |fs.dirTable| < NO_ENTRY && from < NO_ENTRY
    ensures r.Found? ==> r.offset < NO_ENTRY
    decreases |components|
  {
    if components == [] then Found(from)
    else if components[0] == [] then Missing(InvalidArgument)
    else
      var child := Child(fs, Dirs, from, components[0]);
      if child.Missing? then child else Resolve(fs, child.offset, components[1..])
  }

  datatype Walk = At(parent: nat, leaf: seq<Byte>) | Failed(error: Error)

  /** walk_to_parent's loop, on what is left of the path. */
  function WalkFrom(fs: RomFs, from: nat, s: seq<Byte>): (r: Walk)
    requires |fs.dirTable| < NO_ENTRY && from < NO_ENTRY
    ensures r.At? ==> r.parent < NO_ENTRY
    decreases |s|
  {
    var i := FirstSeparator(s);
    if s == [] then At(from, [])
    else if i == 0 then Failed(InvalidArgument)
    else if i == |s| then At(from, s)
    else
      var child := Child(fs, Dirs, from, s[..i]);
      if child.Missing? then Failed(child.error) else WalkFrom(fs, child.offset, s[i + 1..])
  }

  lemma FirstSeparatorIs(s: seq<Byte>, i: nat)
    requires i <= |s| && (i < |s| ==> s[i] == SEPARATOR) && forall k :: 0 <= k < i ==> s[k] != SEPARATOR
    ensures FirstSeparator(s) == i
  {
  }

  /** One component of the walk, ending at offset i of what is left. */
  lemma WalkStep(fs: RomFs, from: nat, s: seq<Byte>, i: nat)
    requires |fs.dirTable| < NO_ENTRY && from < NO_ENTRY && s != []
    requires i <= |s| && (i < |s| ==> s[i] == SEPARATOR) && forall k :: 0 <= k < i ==> s[k] != SEPARATOR
    ensures WalkFrom(fs, from, s) ==
            if i == 0 then Failed(InvalidArgument)
            else if i == |s| then At(from, s)
            else
              var child := Child(fs, Dirs, from, s[..i]);
              if child.Missing? then Failed(child.error) else WalkFrom(fs, child.offset, s[i + 1..])
  {
    hide Child, FirstSeparator, Decodable, Matches, EntryAt;
    FirstSeparatorIs(s, i);
  }

  lemma TrimmedIs(path: seq<Byte>, cursor: nat, end: nat)
    requires cursor == if path != [] && path[0] == SEPARATOR then 1 else 0
    requires end == if |path| > cursor && path[|path| - 1] == SEPARATOR then |path| - 1 else |path|
    ensures cursor <= end <= |path| && path[cursor..end] == Trimmed(path)
    ensures HasTrailing(path) <==> end < |path|
  {
    var p := Unrooted(path);
    assert p == path[cursor..];
    assert p != [] ==> p[|p| - 1] == path[|path| - 1];
    assert path[cursor..end] == p[..end - cursor];
  }

  /** walk_to_parent, with its cursors. */
  method WalkToParent(fs: RomFs, path: seq<Byte>) returns (walk: Walk, trailing: bool)
    requires FsOk(fs)
    ensures trailing == (|path| <= MAX_PATH_BYTES && HasTrailing(path))
    ensures walk == if |path| > MAX_PATH_BYTES then Failed(InvalidArgument) else WalkFrom(fs, ROOT, Trimmed(path))
  {
    hide Decodable, Child, WalkFrom, Trimmed, HasTrailing, Matches;
    trailing := false;
    if |path| > MAX_PATH_BYTES {
      return Failed(InvalidArgument), trailing;
    }
    var cursor, end := 0, |path|;
    if cursor < end && path[cursor] == SEPARATOR {
      cursor := cursor + 1;
    }
    trailing := end > 0 && path[end - 1] == SEPARATOR && end - 1 >= cursor;
    if trailing {
      end := end - 1;
    }
    var current: nat := ROOT;
    TrimmedIs(path, cursor, end);
    while cursor < end
      invariant cursor <= end <= |path| && current < NO_ENTRY
      invariant WalkFrom(fs, current, path[cursor..end]) == WalkFrom(fs, ROOT, Trimmed(path))
      decreases end - cursor
    {
      var component := cursor;
      cursor := ComponentEnd(path, cursor, end);
      WalkStep(fs, current, path[component..end], cursor - component);
      var name := path[component..cursor];
      assert name == path[component..end][..cursor - component];
      if |name| == 0 {
        return Failed(InvalidArgument), trailing;
      }
      if cursor == end {
        return At(current, name), trailing;
      }
      var child := FindChild(fs, Dirs, current, name);
      if child.Missing? {
        return Failed(child.error), trailing;
      }
      assert path[component..end][cursor - component + 1..] == path[cursor + 1..end];
      OffsetBound(fs, child.offset);
      current := child.offset;
      cursor := cursor + 1;
    }
    assert path[cursor..end] == [];
    WalkNothing(fs, current);
    walk := At(current, []);
  }

  lemma OffsetBound(fs: RomFs, offset: nat)
    requires Decodable(fs, Dirs, offset) && |fs.dirTable| < NO_ENTRY
    ensures offset < NO_ENTRY
  {
  }

  /** The inner scan: the end of the component that starts at `cursor`. */
  method ComponentEnd(path: seq<Byte>, start: nat, end: nat) returns (cursor: nat)
    requires start <= end <= |path|
    ensures start <= cursor <= end
    ensures var s := path[start..end];
            var i := cursor - start;
            (i < |s| ==> s[i] == SEPARATOR) && forall k :: 0 <= k < i ==> s[k] != SEPARATOR
  {
    cursor := start;
    while cursor < end && path[cursor] != SEPARATOR
      invariant start <= cursor <= end
      invariant forall k :: start <= k < cursor ==> path[k] != SEPARATOR
    {
      cursor := cursor + 1;
    }
  }

  /** The walk is the fold over all components but the last. */
  lemma {:induction false} WalkIsFold(fs: RomFs, from: nat, s: seq<Byte>)
    requires |fs.dirTable| < NO_ENTRY && from < NO_ENTRY && s != []
    ensures var c := Components(s);
            var dirs := Resolve(fs, from, c[..|c| - 1]);
            WalkFrom(fs, from, s) == if dirs.Found? then At(dirs.offset, c[|c| - 1]) else Failed(dirs.error)
    decreases |s|
  {
    hide Child;
    var i := FirstSeparator(s);
    var c := Components(s);
    if i < |s| {
      var rest := s[i + 1..];
      var d := Components(rest);
      assert c == [s[..i]] + d;
      assert c[..|c| - 1][1..] == d[..|d| - 1];
      if i > 0 {
        var child := Child(fs, Dirs, from, s[..i]);
        if child.Found? {
          if rest != [] {
            WalkIsFold(fs, child.offset, rest);
          } else {
            assert d == [[]] && d[..0] == [];
          }
        }
      }
    }
  }

  // ----- Finding directories and files -----

  /** What the header promises: components looked up in turn, empty ones rejected, no components the root. */
  function Promised(fs: RomFs, path: seq<Byte>): Found
    requires |fs.dirTable| < NO_ENTRY
  {
    if |path| > MAX_PATH_BYTES then Missing(InvalidArgument)
    else if Trimmed(path) == [] then Found(ROOT)
    else Resolve(fs, ROOT, Components(Trimmed(path)))
  }

  /** A path that still ends with a separator after one was stripped. */
  predicate DoublyTrailing(path: seq<Byte>) {
    |path| <= MAX_PATH_BYTES && Trimmed(path) != [] && Trimmed(path)[|Trimmed(path)| - 1] == SEPARATOR
  }

  /** The directories before the last component. */
  function Ancestors(fs: RomFs, path: seq<Byte>): Found
    requires |fs.dirTable| < NO_ENTRY
  {
    var c := Components(Trimmed(path));
    Resolve(fs, ROOT, c[..|c| - 1])
  }

  lemma {:induction false} ResolveSnoc(fs: RomFs, from: nat, components: seq<seq<Byte>>)
    requires |fs.dirTable| < NO_ENTRY && from < NO_ENTRY && components != []
    ensures var n := |components| - 1;
            var dirs := Resolve(fs, from, components[..n]);
            Resolve(fs, from, components) ==
            if dirs.Missing? then dirs
            else if components[n] == [] then Missing(InvalidArgument)
            else Child(fs, Dirs, dirs.offset, components[n])
    decreases |components|
  {
    hide Child;
    var n := |components| - 1;
    if n > 0 && components[0] != [] {
      var child := Child(fs, Dirs, from, components[0]);
      assert components[..n][1..] == components[1..][..n - 1];
      if child.Found? {
        ResolveSnoc(fs, child.offset, components[1..]);
      }
    }
  }

  /** The last component is empty exactly when the string ends with a separator (or is empty). */
  lemma {:induction false} LastComponent(s: seq<Byte>)
    ensures var c := Components(s); c[|c| - 1] == [] <==> s == [] || s[|s| - 1] == SEPARATOR
    decreases |s|
  {
    var i := FirstSeparator(s);
    if i < |s| {
      LastComponent(s[i + 1..]);
      assert Components(s) == [s[..i]] + Components(s[i + 1..]);
    }
  }

  /** What romfs_find_dir yields: the root for a doubly trailing separator after directories that exist. */
  function DirFound(fs: RomFs, path: seq<Byte>): Found
    requires |fs.dirTable| < NO_ENTRY
  {
    if DoublyTrailing(path) && Ancestors(fs, path).Found? then Found(ROOT) else Promised(fs, path)
  }

  method FindDir(fs: RomFs, path: seq<Byte>) returns (found: Found)
    requires FsOk(fs)
    ensures found == DirFound(fs, path)
  {
    hide Decodable, Child, Components, WalkFrom, Resolve;
    var walk, trailing := WalkToParent(fs, path);
    if Trimmed(path) != [] {
      WalkIsFold(fs, ROOT, Trimmed(path));
      LastComponent(Trimmed(path));
      ResolveSnoc(fs, ROOT, Components(Trimmed(path)));
    } else {
      WalkNothing(fs, ROOT);
    }
    if walk.Failed? {
      return Missing(walk.error);
    }
    if walk.leaf == [] {
      var e, root := DecodeEntry(fs, Dirs, ROOT);
      return if e == Ok then Found(ROOT) else Missing(e);
    }
    found := FindChild(fs, Dirs, walk.parent, walk.leaf);
  }

  lemma WalkNothing(fs: RomFs, from: nat)
    requires |fs.dirTable| < NO_ENTRY && from < NO_ENTRY
    ensures WalkFrom(fs, from, []) == At(from, [])
  {
  }

  /** Exactly when romfs_find_dir does what its header promises. */
  lemma FindDirAsPromised(fs: RomFs, path: seq<Byte>)
    requires FsOk(fs)
    ensures DirFound(fs, path) == Promised(fs, path) <==> !(DoublyTrailing(path) && Ancestors(fs, path).Found?)
  {
    hide Decodable, Child, Components, Resolve;
    if DoublyTrailing(path) {
      LastComponent(Trimmed(path));
      ResolveSnoc(fs, ROOT, Components(Trimmed(path)));
    }
  }

  /** A concrete path that breaks the promise: "a//" names the root on any image with a directory "a" in it. */
  lemma DoubleSlashIsRoot(fs: RomFs)
    requires FsOk(fs) && Child(fs, Dirs, ROOT, [0x61]).Found?
    ensures var path := [0x61, SEPARATOR, SEPARATOR];
            DirFound(fs, path) == Found(ROOT) && Promised(fs, path) == Missing(InvalidArgument)
  {
    hide Decodable, Child, Components, Resolve, DoublyTrailing, Trimmed;
    var path: seq<Byte> := [0x61, SEPARATOR, SEPARATOR];
    var q: seq<Byte> := [0x61, SEPARATOR];
    var a: seq<Byte> := [0x61];
    assert path[0..2] == q;
    TrimmedIs(path, 0, 2);
    TwoComponents(q, a);
    assert [a, []][..1] == [a];
    OneComponent(fs, a);
    ResolveSnoc(fs, ROOT, [a, []]);
    NowTrailing(path);
  }

  lemma NowTrailing(path: seq<Byte>)
    requires Trimmed(path) == [0x61, SEPARATOR] && |path| == 3
    ensures DoublyTrailing(path)
  {
  }

  lemma TwoComponents(q: seq<Byte>, a: seq<Byte>)
    requires q == [0x61, SEPARATOR] && a == [0x61]
    ensures Components(q) == [a, []]
  {
    FirstSeparatorIs(q, 1);
    assert q[..1] == a && q[2..] == [];
    assert Components([]) == [[]];
  }

  lemma OneComponent(fs: RomFs, a: seq<Byte>)
    requires |fs.dirTable| < NO_ENTRY && a != []
    ensures Resolve(fs, ROOT, [a]) == Child(fs, Dirs, ROOT, a)
  {
    hide Child;
    assert [a][1..] == [];
  }

  /** romfs_find_file: as promised on every path; a path with a trailing separator or no component names no file. */
  method FindFile(fs: RomFs, path: seq<Byte>) returns (found: Found)
    requires FsOk(fs)
    ensures found ==
            if |path| > MAX_PATH_BYTES then Missing(InvalidArgument)
            else if Trimmed(path) == [] then Missing(InvalidArgument)
            else
              var dirs := Ancestors(fs, path);
              var c := Components(Trimmed(path));
              if dirs.Missing? then dirs
              else if c[|c| - 1] == [] || HasTrailing(path) then Missing(InvalidArgument)
              else Child(fs, Files, dirs.offset, c[|c| - 1])
  {
    hide Decodable, Child, Components, WalkFrom, Resolve;
    var walk, trailing := WalkToParent(fs, path);
    if Trimmed(path) != [] {
      WalkIsFold(fs, ROOT, Trimmed(path));
    } else {
      WalkNothing(fs, ROOT);
    }
    if walk.Failed? {
      return Missing(walk.error);
    }
    if |walk.leaf| == 0 || trailing {
      return Missing(InvalidArgument);
    }
    found := FindChild(fs, Files, walk.parent, walk.leaf);
  }
}

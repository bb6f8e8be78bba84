/**
 * The container round trip: parsing the file the writer emits and reading any range of sectors
 * gives those sectors of the disk that was wrapped.
 */
module ReadBack {
  import opened Bytes
  import opened Codec
  import opened Segments
  import opened Sections
  import opened Planner
  import opened SectorRead
  import opened Fixture
  import opened Reparse
  import opened RoundTrip

  // ------------------------------------------------------------ the file parses back

  function WrapTail(c: Codec, disk: bytes, opts: Options): (r: seq<Sec>)
    ensures Named(r)
  {
    [Sec(Data, VolumeData(c, disk, opts), [])] + HashSections(opts)
  }

  /** A list of sections in three stretches: the middle one starts behind the first. */
  lemma MiddleHeld(c: Codec, image: bytes, addr: nat, a: seq<Sec>, b: seq<Sec>, z: seq<Sec>)
    requires Named(a) && Named(b) && Named(z) && Named(a + (b + z))
    requires Holds(image, addr, SecsBytes(c, addr, a + (b + z)))
    ensures Holds(image, addr + SecsSize(a), SecsBytes(c, addr + SecsSize(a), b))
    ensures SecsSize(a) + SecsSize(b) <= SecsSize(a + (b + z))
  {
    hide Holds, SecsBytes, SecsSize;
    var next := addr + SecsSize(a);
    SecsBytesSplit(c, next, b, z);
    SecsBytesSplit(c, addr, a, b + z);
    HoldsPrefix(image, addr, SecsBytes(c, addr, a), SecsBytes(c, next, b + z));
    HoldsPrefix(image, next, SecsBytes(c, next, b), SecsBytes(c, next + SecsSize(b), z));
    SecsBytesLength(c, addr, a);
  }

  /** The body of a wrapped file lies at its address inside the file. */
  lemma BodyHeld(c: Codec, disk: bytes, opts: Options)
    ensures Holds(WrapBytes(c, disk, opts), BodyAddress(c, disk, opts),
                  SecsBytes(c, BodyAddress(c, disk, opts), BodySections(c, disk, opts)))
    ensures BodyAddress(c, disk, opts) + SecsSize(BodySections(c, disk, opts)) <= |WrapBytes(c, disk, opts)|
  {
    hide Holds, SecsBytes, FrontSections, BodySections, HashSections, VolumeData, WrapSections, SecsSize, FileHeader,
         Chain, Descriptor;
    WrapShape(c, disk, opts);
    FileShape(c, 1, WrapSections(c, disk, opts));
    MiddleHeld(c, WrapBytes(c, disk, opts), FILE_HEADER_LENGTH, FrontSections(c, disk, opts),
               BodySections(c, disk, opts), WrapTail(c, disk, opts));
  }

  /** Files the reader refuses: no chunk to list, or the tables left out where they are needed. */
  predicate Unlisted(disk: bytes, opts: Options) {
    disk == [] || (opts.skipTable && opts.layout != EnCase1)
  }

  lemma NoChunks(c: Codec, disk: bytes, opts: Options)
    ensures WrapStored(c, disk, opts) == [] <==> disk == []
    ensures disk == [] && opts.layout != EnCase1 ==> WrapGroups(c, disk, opts) == [[]]
  {
    var cb := ChunkBytesOf(opts);
    if disk == [] {
      DivModUnique(cb - 1, cb, 0, cb - 1);
      var counts := GroupCounts(0, opts.sections);
      assert counts == [0];
      assert Split(WrapStored(c, disk, opts), counts)[0] == [];
    } else {
      var n := |disk| + cb - 1;
      assert n == n / cb * cb + n % cb;
      if n / cb <= 0 { MulLe(n / cb, 0, cb); assert false; }
    }
  }

  lemma GroupsNotEmpty(c: Codec, disk: bytes, opts: Options)
    requires disk != [] && opts.layout != EnCase1
    ensures forall s :: 0 <= s < |WrapGroups(c, disk, opts)| ==> WrapGroups(c, disk, opts)[s] != []
    ensures WrapGroups(c, disk, opts) != []
  {
    hide WrapStored, GroupCounts;
    NoChunks(c, disk, opts);
    var n := |WrapStored(c, disk, opts)|;
    CountsPositive(n, opts.sections);
    var groups := Split(WrapStored(c, disk, opts), GroupCounts(n, opts.sections));
    forall s | 0 <= s < |groups| ensures groups[s] != [] {
      assert |groups[s]| == GroupCounts(n, opts.sections)[s];
    }
  }

  /** The tables of an EnCase 1 file. */
  lemma EnCase1Paired(c: Codec, disk: bytes, opts: Options)
    requires opts.layout == EnCase1 && Expressible(c, disk, opts)
    ensures var f := WrapBytes(c, disk, opts);
            && PairTables(f, BodyHomes(c, disk, opts), BodyTables(c, disk, opts)) ==
               (if disk == [] then Progress([], false) else Progress(WrapTables(c, disk, opts), true))
            && AllServe(Single(f), f, WrapTables(c, disk, opts), opts.compress, WrapGroups(c, disk, opts))
  {
    hide WrapStored, BodyAddress, TableWithChunks, EnCase1Table, Holds, Serves, TableOf, OffsetsFit, SecsBytes,
         SecSize, WrapBytes, PlacedAt;
    var f, stored, addr := WrapBytes(c, disk, opts), WrapStored(c, disk, opts), BodyAddress(c, disk, opts);
    var s := TableWithChunks(c, opts.compress, addr, stored);
    BodyHeld(c, disk, opts);
    EnCase1Name(c, opts.compress, addr, stored);
    assert [s] == [s] + [] && SecsSize([s]) == SecSize(s);
    SecWritten(c, f, 0, addr, s, []);
    EnCase1Parsed(c, Single(f), f, 0, opts.compress, addr, stored);
    NoChunks(c, disk, opts);
    PairOne(f, PlacedAt(0, 0, addr, s), EnCase1Table(0, 0, opts.compress, addr, stored), addr, stored == []);
    EnCase1Fields(c, opts.compress, addr, stored);
  }

  lemma EnCase1Fields(c: Codec, mode: CompressMode, addr: nat, stored: seq<bytes>)
    ensures PlacedAt(0, 0, addr, TableWithChunks(c, mode, addr, stored)).address == addr
    ensures PlacedAt(0, 0, addr, TableWithChunks(c, mode, addr, stored)).segment == 0
    ensures EnCase1Table(0, 0, mode, addr, stored).address == addr
    ensures EnCase1Table(0, 0, mode, addr, stored).segment == 0
  {
  }

  /** A table that stands for itself. */
  lemma PairOne(image: bytes, v: SectionAt, t: ChunkTable, addr: nat, empty: bool)
    requires TableOf(image, v) == if empty then None else Some(TableData(t.entries, t.base))
    ensures PairTables(image, [], [v]) ==
            if empty then Progress([], false) else Progress([ChunkTable(v.address, t.entries, t.base, v.segment)], true)
  {
    hide TableOf;
    assert [v][1..] == [];
    assert PairTables(image, [], [v]) == PairFrom(image, [v], [v]);
    if !empty {
      var x := [ChunkTable(v.address, t.entries, t.base, v.segment)];
      assert PairFrom(image, [v], [v]) == Prepend(x, PairFrom(image, [], []));
      assert x + [] == x;
    }
  }

  lemma NoTables(image: bytes, homes: seq<SectionAt>)
    requires homes != []
    ensures PairTables(image, homes, []) == Progress([], false)
  {
  }

  lemma HomesAndTables(image: bytes, homes: seq<SectionAt>, tables: seq<SectionAt>)
    requires homes != []
    ensures PairTables(image, homes, tables) == PairFrom(image, homes, tables)
  {
  }

  /** The tables of an image with sectors sections. */
  lemma GroupsPaired(c: Codec, disk: bytes, opts: Options)
    requires opts.layout != EnCase1 && Expressible(c, disk, opts)
    ensures var f := WrapBytes(c, disk, opts);
            var paired := PairTables(f, BodyHomes(c, disk, opts), BodyTables(c, disk, opts));
            if Unlisted(disk, opts) then !paired.ok
            else paired == Progress(WrapTables(c, disk, opts), true)
                 && AllServe(Single(f), f, WrapTables(c, disk, opts), opts.compress, WrapGroups(c, disk, opts))
  {
    hide WrapStored, BodyAddress, Holds, AllServe, TableOf, SecsBytes, SecsSize, WrapBytes, PairTables, PairFrom,
         GroupsFit,
         Homes, TableHomes, GroupTables, WrapGroups, AllPairs;
    var f, addr, groups := WrapBytes(c, disk, opts), BodyAddress(c, disk, opts), WrapGroups(c, disk, opts);
    var homes := Homes(c, 0, 0, opts, addr, groups);
    NoChunks(c, disk, opts);
    if disk != [] { GroupsNotEmpty(c, disk, opts); }
    if opts.skipTable {
      NoTables(f, homes);
    } else {
      BodyHeld(c, disk, opts);
      HomesAndTables(f, homes, TableHomes(c, 0, 0, opts, addr, groups));
      if disk == [] {
        PairsRejected(c, f, opts, addr);
      } else {
        PairsParsed(c, Single(f), f, 0, opts, addr, groups);
      }
    }
  }

  /** What a wrapped file parses to. */
  function WrapParsed(c: Codec, disk: bytes, opts: Options): Option<Parsed> {
    var g, h := DiskGeometry(disk, opts), StoredHashes(opts, [], []);
    if Unlisted(disk, opts) then None else Some(Parsed([g, g], WrapTables(c, disk, opts), h.0, h.1))
  }

  /**
   * Walking and parsing a wrapped file gives the geometry, tables and hashes it was written with,
   * and through those tables every chunk is found where it was stored.
   */
  lemma ParseWrapped(c: Codec, disk: bytes, opts: Options)
    requires Lawful(c) && Expressible(c, disk, opts)
    ensures var f := WrapBytes(c, disk, opts);
            && ParseImage(c, Single(f)) == WrapParsed(c, disk, opts)
            && (!Unlisted(disk, opts) ==>
                 AllServe(Single(f), f, WrapTables(c, disk, opts), opts.compress, WrapGroups(c, disk, opts)))
  {
    hide WrapSections, AllServe, PairTables, CollectSecs, CollectAll, BodyHomes, BodyTables, WrapTables, WrapGroups,
         DiskGeometry, StoredHashes, WalkSegments, Placed, AllOrdinary, SecsSize, FileBytes, WrapStored, BodyAddress,
             GroupsFit, OffsetsFit;
    var f, ss := WrapBytes(c, disk, opts), WrapSections(c, disk, opts);
    SingleJoined(f);
    WrapPlain(c, disk, opts);
    FileSize(c, ss);
    assert Holds(f, 0, f) by { assert f[0..|f|] == f; }
    WalkFile(c, f, 0, 0, 1, ss);
    WalkOnly(f);
    CollectWrapped(c, disk, opts);
    CollectVisited(c, f, NOTHING, 0, 0, ss);
    if opts.layout == EnCase1 {
      EnCase1Paired(c, disk, opts);
    } else {
      GroupsPaired(c, disk, opts);
    }
  }

  lemma WalkOnly(f: bytes)
    ensures WalkFrom(f, 0, 0, FILE_HEADER_LENGTH).ok ==>
            WalkSegments(f, Single(f), 0) == WalkFrom(f, 0, 0, FILE_HEADER_LENGTH)
  {
    hide WalkFrom;
    var w := WalkFrom(f, 0, 0, FILE_HEADER_LENGTH);
    assert w.value + [] == w.value;
  }

  lemma FileSize(c: Codec, ss: seq<Sec>)
    requires Named(ss)
    ensures FILE_HEADER_LENGTH + SecsSize(ss) <= |FileBytes(c, 1, ss)|
  {
  }

  // ------------------------------------------------------------ one stored chunk read back

  /** A zlib chunk reads back exactly when its stream fits in the bytes the reader asks for. */
  lemma ZlibChunkRead(c: Codec, image: bytes, off: nat, data: bytes, cb: nat, expected: nat)
    requires Lawful(c) && Holds(image, off, c.deflate(data)) && 0 < expected <= cb && expected <= |data| && cb >= 2
    ensures ReadChunk(c, image, off, cb, true, expected) == if |c.deflate(data)| <= cb then Some(data) else None
  {
    var z := c.deflate(data);
    DeflateNonEmpty(c, data);
    if |z| <= cb {
      ClampLong(image, off, z, cb);
      var junk := Clamp(image, off + |z|, cb - |z|);
      assert c.zlibHeader(z + junk) && c.zlibRead(z + junk) == Inflated(data, true);
    } else {
      HoldsSlice(image, off, z, 0, cb);
      assert c.zlibHeader(z[..cb]) && !c.zlibRead(z[..cb]).clean;
    }
  }

  lemma ClampLong(image: bytes, off: nat, z: bytes, n: nat)
    requires Holds(image, off, z) && z != [] && |z| <= n
    ensures Clamp(image, off, n) == z + Clamp(image, off + |z|, n - |z|)
  {
    SliceJoin(image, off, off + |z|, Min(off + n, |image|));
  }

  /** A raw chunk stored at its valid length reads back. */
  lemma RawChunkRead(c: Codec, image: bytes, off: nat, data: bytes, cb: nat)
    requires Lawful(c) && Holds(image, off, data + ToLE(c.adler(data), 4)) && 0 < |data| <= cb
    ensures ReadChunk(c, image, off, cb, false, |data|) == Some(data)
  {
    var s := data + ToLE(c.adler(data), 4);
    ClampHolds(image, off, s);
    assert s[..|data|] == data && s[|data|..|data| + 4] == ToLE(c.adler(data), 4);
    LE4(c.adler(data));
  }

  /** A raw chunk padded past its valid bytes is checked against padding instead of a checksum. */
  lemma RawPaddedRead(c: Codec, image: bytes, off: nat, valid: bytes, pad: nat, cb: nat)
    requires Lawful(c) && 0 < |valid| <= cb && pad >= 4
    requires Holds(image, off, valid + Zeros(pad) + ToLE(c.adler(valid + Zeros(pad)), 4))
    ensures ReadChunk(c, image, off, cb, false, |valid|) == if c.adler(valid) == 0 then Some(valid) else None
  {
    var s := valid + Zeros(pad) + ToLE(c.adler(valid + Zeros(pad)), 4);
    HoldsSlice(image, off, s, 0, |valid| + 4);
    var data := Clamp(image, off, |valid| + CHUNK_FOOTER_LENGTH);
    assert s[0..|valid| + 4] == valid + Zeros(4);
    assert data == valid + Zeros(4);
    assert data[..|valid|] == valid && data[|valid|..|valid| + 4] == Zeros(4);
    ZeroValue(4);
  }

  lemma {:induction false} ZeroValue(n: nat)
    ensures LE(Zeros(n)) == 0
  {
    if n > 0 {
      assert Zeros(n)[1..] == Zeros(n - 1);
      ZeroValue(n - 1);
    }
  }

  // ------------------------------------------------------------ the chunks of a disk

  /** The disk bytes chunk g covers. */
  function Covered(disk: bytes, cb: nat, g: nat): (r: bytes)
    requires cb > 0 && g < ChunkCount(disk, cb)
    ensures 0 < |r| <= cb
  {
    ChunkInDisk(disk, cb, g);
    disk[g * cb..Min(g * cb + cb, |disk|)]
  }

  /**
   * Whether the reader accepts a stored chunk: a zlib stream must not be longer than a chunk, and a
   * raw chunk must carry its checksum right behind the bytes the media covers.
   */
  predicate Readable(c: Codec, disk: bytes, cb: nat, mode: CompressMode, short: bool, g: nat)
    requires cb > 0 && g < ChunkCount(disk, cb)
  {
    ChunkInDisk(disk, cb, g);
    match mode
    case Zlib => |c.deflate(ChunkData(disk, cb, g, short))| <= cb
    case Raw =>
      var v := Covered(disk, cb, g);
      |ChunkData(disk, cb, g, short)| == |v| || c.adler(v) == 0
  }

  function WrapDecoded(c: Codec, disk: bytes, cb: nat, mode: CompressMode, short: bool, g: nat): Option<bytes>
    requires cb > 0 && g < ChunkCount(disk, cb)
  {
    ChunkInDisk(disk, cb, g);
    if !Readable(c, disk, cb, mode, short, g) then None
    else if mode == Zlib then Some(ChunkData(disk, cb, g, short))
    else Some(Covered(disk, cb, g))
  }

  /** A chunk's data is what it covers of the disk, then zeros up to a full chunk unless kept short. */
  lemma DataOfChunk(disk: bytes, cb: nat, g: nat, short: bool)
    requires cb > 0 && g < ChunkCount(disk, cb) && g * cb < |disk|
    ensures var d, v := ChunkData(disk, cb, g, short), Covered(disk, cb, g);
            d == v || d == v + Zeros(cb - |v|)
  {
    var v := Covered(disk, cb, g);
    if short && g == ChunkCount(disk, cb) - 1 && |disk| % cb != 0 {
      var n := |disk| + cb - 1;
      assert n == n / cb * cb + n % cb;
      MulAdd(g, 1, cb);
      assert disk[g * cb..] == v;
    }
  }

  /** Reading a stored chunk at the length the media covers gives the chunk, or an error. */
  lemma StoredChunkRead(c: Codec, image: bytes, off: nat, disk: bytes, cb: nat, mode: CompressMode, short: bool, g: nat)
    requires Lawful(c) && cb >= 512 && |disk| % 512 == 0 && cb % 512 == 0 && g < ChunkCount(disk, cb) && g * cb < |disk|
    requires Holds(image, off, ChunkPayload(c, ChunkData(disk, cb, g, short), mode))
    ensures ReadChunk(c, image, off, cb, mode == Zlib, |Covered(disk, cb, g)|) ==
            WrapDecoded(c, disk, cb, mode, short, g)
  {
    hide ReadChunk, Holds, ChunkData, Covered, ChunkCount, Lawful;
    var d, v := ChunkData(disk, cb, g, short), Covered(disk, cb, g);
    DataOfChunk(disk, cb, g, short);
    if mode == Zlib {
      ZlibChunkRead(c, image, off, d, cb, |v|);
    } else if |d| == |v| {
      assert d == v + Zeros(0) == v;
      RawChunkRead(c, image, off, v, cb);
    } else {
      CoveredAligned(disk, cb, g);
      RawPaddedRead(c, image, off, v, cb - |v|, cb);
    }
  }

  /** What a chunk leaves uncovered is a whole number of sectors. */
  lemma CoveredAligned(disk: bytes, cb: nat, g: nat)
    requires cb > 0 && |disk| % 512 == 0 && cb % 512 == 0 && g < ChunkCount(disk, cb)
    ensures |Covered(disk, cb, g)| < cb ==> cb - |Covered(disk, cb, g)| >= 512
  {
    ChunkInDisk(disk, cb, g);
    var q, d := cb / 512, |disk| / 512;
    assert cb == q * 512;
    MulAssoc(g, q, 512);
    if g * cb + cb > |disk| {
      assert cb - |Covered(disk, cb, g)| == 512 * (g * q + q - d);
    }
  }

  // ------------------------------------------------------------ all chunks, in flat order

  lemma {:induction false} SplitLocate<T>(xs: seq<T>, counts: seq<nat>, g: nat)
    requires Sum(counts) == |xs| && g < |xs|
    ensures var at := Locate(counts, g); Split(xs, counts)[at.0][at.1] == xs[g]
  {
    hide Split, Sum;
    SplitParts(xs, counts);
    var n := counts[0];
    if g >= n {
      SplitLocate(xs[n..], counts[1..], g - n);
      assert xs[n..][g - n] == xs[g];
    }
  }

  lemma SplitParts<T>(xs: seq<T>, counts: seq<nat>)
    requires Sum(counts) == |xs| > 0
    ensures counts != [] && counts[0] <= |xs| && Sum(counts[1..]) == |xs| - counts[0]
    ensures Split(xs, counts) == [xs[..counts[0]]] + Split(xs[counts[0]..], counts[1..])
  {
  }

  /** Tables that serve the stored chunks of a disk, in the geometry the disk was wrapped with. */
  ghost predicate TablesOfDisk(c: Codec, segs: seq<Segment>, tables: seq<ChunkTable>, l: Layout,
                               disk: bytes, mode: CompressMode, short: bool)
    requires l.Valid()
  {
    && l.counts == Counts(tables) && Sum(l.counts) == ChunkCount(disk, l.ChunkBytes())
    && AllServe(segs, Joined(segs), tables, mode, Split(StoredChunks(c, disk, l.ChunkBytes(), mode, short), l.counts))
    && l.ss == SECTOR_SIZE && l.media == |disk| / SECTOR_SIZE && |disk| % SECTOR_SIZE == 0
  }

  /** The length demanded of chunk g is what it covers of the disk. */
  lemma ValidIsCovered(l: Layout, disk: bytes, g: nat)
    requires l.Valid() && l.ss == SECTOR_SIZE && l.media == |disk| / SECTOR_SIZE && |disk| % SECTOR_SIZE == 0
    requires g < ChunkCount(disk, l.ChunkBytes())
    ensures l.ValidBytes(g) == |Covered(disk, l.ChunkBytes(), g)|
    ensures l.ChunkBytes() >= 512 && l.ChunkBytes() % 512 == 0
  {
    hide ChunkCount, Covered;
    var first := g * l.cs * 512;
    ChunkBytesAre(l);
    assert first == g * l.ChunkBytes() by { MulAssoc(g, l.cs, 512); }
    CoveredSize(disk, l.ChunkBytes(), g, first);
    ValidIs(l, g, first, |disk|);
  }

  lemma ChunkBytesAre(l: Layout)
    requires l.Valid() && l.ss == 512
    ensures l.ChunkBytes() == l.cs * 512 && l.ChunkBytes() >= 512
  {
  }

  lemma ValidIs(l: Layout, g: nat, first: nat, size: nat)
    requires l.ss == 512 && first == g * l.cs * 512 && first < size == l.media * 512
    ensures l.ValidBytes(g) == Min(l.cs * 512, size - first)
  {
  }

  lemma CoveredSize(disk: bytes, cb: nat, g: nat, first: nat)
    requires cb > 0 && g < ChunkCount(disk, cb) && first == g * cb
    ensures first < |disk| && |Covered(disk, cb, g)| == Min(cb, |disk| - first)
  {
    ChunkInDisk(disk, cb, g);
  }

  /** The table's answer for a served chunk is the chunk formula at the offset it names. */
  lemma ServedRead(c: Codec, segs: seq<Segment>, t: ChunkTable, mode: CompressMode, stored: seq<bytes>, i: nat,
                   cb: nat, expected: nat)
    requires Serves(segs, Joined(segs), t, mode, stored) && i < |stored|
    ensures ChunkOffset(segs, t, i) >= 0 && Holds(Joined(segs), ChunkOffset(segs, t, i), stored[i])
    ensures ReadTableChunk(c, segs, t, i, cb, expected) ==
            ReadChunk(c, Joined(segs), ChunkOffset(segs, t, i), cb, mode == Zlib, expected)
  {
    hide ReadChunk, ChunkOffset, Holds;
  }

  /** What decoding chunk g of the whole image gives. */
  lemma DecodedOne(c: Codec, segs: seq<Segment>, tables: seq<ChunkTable>, l: Layout, disk: bytes, mode: CompressMode,
                   short: bool, g: nat)
    requires Lawful(c) && l.Valid() && TablesOfDisk(c, segs, tables, l, disk, mode, short) && g < l.Chunks()
    ensures DecodedChunks(c, segs, tables, l)[g] == WrapDecoded(c, disk, l.ChunkBytes(), mode, short, g)
  {
    hide Lawful, ReadTableChunk, WrapDecoded, Serves, ReadChunk, Holds, Joined, ChunkPayload, ChunkData, Covered,
         ChunkOffset, ChunkCount;
    var cb := l.ChunkBytes();
    var stored := StoredChunks(c, disk, cb, mode, short);
    var at := Locate(l.counts, g);
    NumberOfLocated(l.counts, g);
    SplitLocate(stored, l.counts, g);
    ValidIsCovered(l, disk, g);
    ChunkInDisk(disk, cb, g);
    var group := Split(stored, l.counts)[at.0];
    ServedRead(c, segs, tables[at.0], mode, group, at.1, cb, l.ValidBytes(g));
    StoredChunkRead(c, Joined(segs), ChunkOffset(segs, tables[at.0], at.1), disk, cb, mode, short, g);
    DecodedAt(c, segs, tables, l, g);
  }

  lemma DecodedAt(c: Codec, segs: seq<Segment>, tables: seq<ChunkTable>, l: Layout, g: nat)
    requires l.Valid() && l.counts == Counts(tables) && g < l.Chunks()
    ensures var at := Locate(l.counts, g);
            && at.0 < |tables| && at.1 < |tables[at.0].entries|
            && DecodedChunks(c, segs, tables, l)[g] ==
               ReadTableChunk(c, segs, tables[at.0], at.1, l.ChunkBytes(), l.ValidBytes(g))
  {
    hide ReadTableChunk, Flatten, Lengths, DecodedTables, Locate;
    NumberOfLocated(l.counts, g);
    var at, cb := Locate(l.counts, g), l.ChunkBytes();
    LengthAt(l, at.0, at.1);
    TableChunkAt(c, segs, tables, cb, Lengths(l), at.0, at.1);
    FlattenAt(l, DecodedTables(c, segs, tables, cb, Lengths(l)), g);
  }

  lemma LengthAt(l: Layout, s: nat, i: nat)
    requires l.Valid() && s < |l.counts| && i < l.counts[s]
    ensures Lengths(l)[s][i] == l.ValidBytes(Sum(l.counts[..s]) + i)
  {
  }

  lemma TableChunkAt(c: Codec, segs: seq<Segment>, tables: seq<ChunkTable>, cb: nat, lengths: seq<seq<nat>>, s: nat,
                     i: nat)
    requires |lengths| == |tables| && s < |tables| && i < |lengths[s]|
    ensures DecodedTables(c, segs, tables, cb, lengths)[s][i] ==
            ReadTableChunk(c, segs, tables[s], i, cb, lengths[s][i])
  {
    hide ReadTableChunk;
  }

  lemma FlattenAt(l: Layout, decoded: seq<seq<Option<bytes>>>, g: nat)
    requires |decoded| == |l.counts| && (forall s :: 0 <= s < |decoded| ==> |decoded[s]| == l.counts[s])
             && g < l.Chunks()
    ensures var at := Locate(l.counts, g); Flatten(l, decoded)[g] == decoded[at.0][at.1]
  {
    hide Locate;
  }

  // ------------------------------------------------------------ sector reads of a wrapped disk

  /** n bytes of the disk from byte b, zero past its end. */
  function DiskBytes(disk: bytes, b: nat, n: nat): (r: bytes)
    ensures |r| == n
  {
    seq<byte>(n, k requires 0 <= k < n => if b + k < |disk| then disk[b + k] else 0)
  }

  /** Where a chunk decodes, each of its bytes is the disk's, or zero past the disk. */
  lemma DecodedByte(c: Codec, disk: bytes, cb: nat, mode: CompressMode, short: bool, b: nat, g: nat, w: nat,
                    chunks: Chunks)
    requires cb > 0 && |chunks| == ChunkCount(disk, cb) && b == g * cb + w && w < cb
    requires forall i :: 0 <= i < |chunks| ==> chunks[i] == WrapDecoded(c, disk, cb, mode, short, i)
    requires g < |chunks| ==> Readable(c, disk, cb, mode, short, g)
    ensures ByteAt(cb, chunks, b) == if b < |disk| then disk[b] else 0
  {
    hide Readable, WrapDecoded, ChunkCount;
    DivModUnique(b, cb, g, w);
    if g < |chunks| {
      ReadableByte(c, disk, cb, mode, short, g, w, b);
    } else {
      PastLastChunk(disk, cb, g);
    }
  }

  /** A byte of a readable chunk. */
  lemma ReadableByte(c: Codec, disk: bytes, cb: nat, mode: CompressMode, short: bool, g: nat, w: nat, o: nat)
    requires cb > 0 && g < ChunkCount(disk, cb) && w < cb && Readable(c, disk, cb, mode, short, g) && o == g * cb + w
    ensures WrapDecoded(c, disk, cb, mode, short, g).Some?
    ensures var d := WrapDecoded(c, disk, cb, mode, short, g).value;
            (if w < |d| then d[w] else 0) == if o < |disk| then disk[o] else 0
  {
    hide Readable, ChunkData, ChunkCount, Covered;
    ChunkInDisk(disk, cb, g);
    DataOfChunk(disk, cb, g, short);
    CoveredByte(disk, cb, g, w, o);
  }

  lemma CoveredByte(disk: bytes, cb: nat, g: nat, w: nat, o: nat)
    requires cb > 0 && g < ChunkCount(disk, cb) && w < cb && o == g * cb + w
    ensures o < |disk| <==> w < |Covered(disk, cb, g)|
    ensures o < |disk| ==> Covered(disk, cb, g)[w] == disk[o]
  {
    hide ChunkCount;
    ChunkInDisk(disk, cb, g);
    StretchByte(disk, g * cb, cb, w);
  }

  lemma StretchByte(disk: bytes, from: nat, n: nat, w: nat)
    requires from < |disk| && w < n
    ensures var v := disk[from..Min(from + n, |disk|)];
            (from + w < |disk| <==> w < |v|) && (from + w < |disk| ==> v[w] == disk[from + w])
  {
  }

  lemma PastLastChunk(disk: bytes, cb: nat, g: nat)
    requires cb > 0 && g >= ChunkCount(disk, cb)
    ensures g * cb >= |disk|
  {
    var n := |disk| + cb - 1;
    assert n == n / cb * cb + n % cb;
    MulLe(n / cb, g, cb);
  }

  /** Every chunk a request touches is readable. */
  ghost predicate TouchesReadable(c: Codec, disk: bytes, cs: nat, mode: CompressMode, short: bool, start: nat, end: nat)
    requires cs > 0
  {
    forall s :: start <= s < end && s / cs < ChunkCount(disk, cs * SECTOR_SIZE) ==>
      Readable(c, disk, cs * SECTOR_SIZE, mode, short, s / cs)
  }

  ghost predicate Decodes(cs: nat, chunks: Chunks, s: nat)
    requires cs > 0
  {
    s / cs < |chunks| ==> chunks[s / cs].Some?
  }

  /** The first failure found is the first sector of the request in an unreadable chunk. */
  lemma {:induction false} FirstBadSector(l: Layout, chunks: Chunks, end: nat, cur: nat)
    requires l.Valid() && |chunks| == l.Chunks()
    ensures match FirstBad(l, chunks, end, cur)
            case None => forall s :: cur <= s < end ==> Decodes(l.cs, chunks, s)
            case Some(b) =>
              && cur <= b < end && !Decodes(l.cs, chunks, b)
              && forall s :: cur <= s < b ==> Decodes(l.cs, chunks, s)
    decreases end - cur
  {
    hide FirstBad, Decodes;
    if cur < end && cur < l.TotalSectors() {
      var next := FirstStep(l, chunks, end, cur);
      if Decodes(l.cs, chunks, cur) { FirstBadSector(l, chunks, end, next); }
    } else {
      NoneBad(l, chunks, end, cur);
    }
  }

  lemma NoneBad(l: Layout, chunks: Chunks, end: nat, cur: nat)
    requires l.Valid() && |chunks| == l.Chunks() && (cur >= end || cur >= l.TotalSectors())
    ensures FirstBad(l, chunks, end, cur) == None && forall s :: cur <= s < end ==> Decodes(l.cs, chunks, s)
  {
    if cur < end { BehindChunks(l, cur, end); }
  }

  lemma FirstStep(l: Layout, chunks: Chunks, end: nat, cur: nat) returns (next: nat)
    requires l.Valid() && |chunks| == l.Chunks() && cur < end && cur < l.TotalSectors()
    ensures cur < next <= end
            && forall s :: cur <= s < next ==> (Decodes(l.cs, chunks, s) <==> Decodes(l.cs, chunks, cur))
    ensures FirstBad(l, chunks, end, cur) ==
            if Decodes(l.cs, chunks, cur) then FirstBad(l, chunks, end, next) else Some(cur)
  {
    hide FirstBad, Decodes;
    ChunkAdvances(l, cur);
    next := Min(cur / l.cs * l.cs + l.cs, end);
    FirstBadHere(l, chunks, end, cur, next);
    SameDecodes(l, chunks, cur, next);
  }

  lemma FirstBadHere(l: Layout, chunks: Chunks, end: nat, cur: nat, next: nat)
    requires l.Valid() && |chunks| == l.Chunks() && cur < end && cur < l.TotalSectors()
    requires next == Min(cur / l.cs * l.cs + l.cs, end)
    ensures FirstBad(l, chunks, end, cur) ==
            if Decodes(l.cs, chunks, cur) then FirstBad(l, chunks, end, next) else Some(cur)
  {
    hide FirstBad;
    JobsHead(l, chunks, cur, end, cur);
  }

  lemma SameDecodes(l: Layout, chunks: Chunks, cur: nat, next: nat)
    requires l.Valid() && next <= cur / l.cs * l.cs + l.cs
    ensures forall s :: cur <= s < next ==> (Decodes(l.cs, chunks, s) <==> Decodes(l.cs, chunks, cur))
  {
    SameChunk(l, cur, next);
  }

  lemma SameChunk(l: Layout, cur: nat, next: nat)
    requires l.Valid() && next <= cur / l.cs * l.cs + l.cs
    ensures forall s :: cur <= s < next ==> s / l.cs == cur / l.cs
  {
    ChunkAdvances(l, cur);
    forall s | cur <= s < next ensures s / l.cs == cur / l.cs {
      DivModUnique(s, l.cs, cur / l.cs, s - cur / l.cs * l.cs);
    }
  }

  lemma BehindChunks(l: Layout, cur: nat, end: nat)
    requires l.Valid() && cur >= l.TotalSectors()
    ensures forall s :: cur <= s < end ==> s / l.cs >= l.Chunks()
  {
    forall s | cur <= s < end ensures s / l.cs >= l.Chunks() {
      if s / l.cs < l.Chunks() {
        ChunkAdvances(l, s);
        MulLe(s / l.cs + 1, l.Chunks(), l.cs);
        MulAdd(s / l.cs, 1, l.cs);
        assert false;
      }
    }
  }

  /**
   * Real bytes or an explicit error: exactly the disk's bytes when every chunk the request touches
   * is readable, and otherwise a failure that names the first sector of an unreadable chunk.
   */
  ghost predicate RealOrError(c: Codec, disk: bytes, cs: nat, mode: CompressMode, short: bool, start: nat, n: nat,
                              r: Result<bytes, nat>)
    requires cs > 0
  {
    match r
    case Ok(b) => b == DiskBytes(disk, start * 512, n * 512)
        && TouchesReadable(c, disk, cs, mode, short, start, start + n)
    case Err(s) => start <= s < start + n && Unreadable(c, disk, cs, mode, short, s)
                   && TouchesReadable(c, disk, cs, mode, short, start, s)
  }

  ghost predicate Unreadable(c: Codec, disk: bytes, cs: nat, mode: CompressMode, short: bool, s: nat)
    requires cs > 0
  {
    s / cs < ChunkCount(disk, cs * SECTOR_SIZE) && !Readable(c, disk, cs * SECTOR_SIZE, mode, short, s / cs)
  }

  lemma RangeOfDisk(c: Codec, segs: seq<Segment>, tables: seq<ChunkTable>, l: Layout, disk: bytes, mode: CompressMode,
                    short: bool,
                    start: nat, n: nat)
    requires Lawful(c) && l.Valid() && TablesOfDisk(c, segs, tables, l, disk, mode, short)
    ensures RealOrError(c, disk, l.cs, mode, short, start, n, ReadRange(l, DecodedChunks(c, segs, tables, l), start, n))
  {
    hide DecodedChunks, WrapDecoded, AllServe, ChunkCount, Lawful, ReadRange, RealOrError;
    var chunks, cb := DecodedChunks(c, segs, tables, l), l.ChunkBytes();
    forall g | 0 <= g < |chunks| ensures chunks[g] == WrapDecoded(c, disk, cb, mode, short, g) {
      DecodedOne(c, segs, tables, l, disk, mode, short, g);
    }
    RangeOfChunks(c, l, chunks, disk, mode, short, start, n);
  }

  lemma RangeOfChunks(c: Codec, l: Layout, chunks: Chunks, disk: bytes, mode: CompressMode, short: bool, start: nat,
                      n: nat)
    requires l.Valid() && l.ss == SECTOR_SIZE && |chunks| == l.Chunks() == ChunkCount(disk, l.ChunkBytes())
    requires forall g :: 0 <= g < |chunks| ==> chunks[g] == WrapDecoded(c, disk, l.ChunkBytes(), mode, short, g)
    ensures RealOrError(c, disk, l.cs, mode, short, start, n, ReadRange(l, chunks, start, n))
  {
    hide WrapDecoded, Readable, FirstBad, ChunkCount, MediaBytes, DiskBytes, TouchesReadable, Unreadable, Decodes;
    assert l.ChunkBytes() == l.cs * SECTOR_SIZE;
    FirstBadSector(l, chunks, start + n, start);
    match FirstBad(l, chunks, start + n, start)
    case None =>
      DecodedTouched(c, disk, l.cs, mode, short, chunks, start, start + n);
      BytesOfChunks(c, l, chunks, disk, mode, short, start, n);
    case Some(b) =>
      DecodedTouched(c, disk, l.cs, mode, short, chunks, start, b);
      UndecodedSector(c, disk, l.cs, mode, short, chunks, b);
  }

  lemma DecodedTouched(c: Codec, disk: bytes, cs: nat, mode: CompressMode, short: bool, chunks: Chunks, a: nat, b: nat)
    requires cs > 0 && |chunks| == ChunkCount(disk, cs * SECTOR_SIZE)
    requires forall g :: 0 <= g < |chunks| ==> chunks[g] == WrapDecoded(c, disk, cs * SECTOR_SIZE, mode, short, g)
    requires forall s :: a <= s < b ==> Decodes(cs, chunks, s)
    ensures TouchesReadable(c, disk, cs, mode, short, a, b)
  {
    hide WrapDecoded, Readable, ChunkCount;
    ReadableDecodes(c, disk, cs * SECTOR_SIZE, mode, short);
    forall s | a <= s < b && s / cs < |chunks| ensures Readable(c, disk, cs * SECTOR_SIZE, mode, short, s / cs) {
      assert Decodes(cs, chunks, s);
    }
  }

  lemma UndecodedSector(c: Codec, disk: bytes, cs: nat, mode: CompressMode, short: bool, chunks: Chunks, s: nat)
    requires cs > 0 && |chunks| == ChunkCount(disk, cs * SECTOR_SIZE)
    requires forall g :: 0 <= g < |chunks| ==> chunks[g] == WrapDecoded(c, disk, cs * SECTOR_SIZE, mode, short, g)
    requires !Decodes(cs, chunks, s)
    ensures Unreadable(c, disk, cs, mode, short, s)
  {
    hide WrapDecoded, Readable, ChunkCount;
    ReadableDecodes(c, disk, cs * SECTOR_SIZE, mode, short);
  }

  lemma BytesOfChunks(c: Codec, l: Layout, chunks: Chunks, disk: bytes, mode: CompressMode, short: bool, start: nat,
                      n: nat)
    requires l.Valid() && l.ss == SECTOR_SIZE && |chunks| == ChunkCount(disk, l.ChunkBytes())
    requires forall g :: 0 <= g < |chunks| ==> chunks[g] == WrapDecoded(c, disk, l.ChunkBytes(), mode, short, g)
    requires TouchesReadable(c, disk, l.cs, mode, short, start, start + n)
    ensures MediaBytes(l.ChunkBytes(), chunks, start * 512, n * 512) == DiskBytes(disk, start * 512, n * 512)
  {
    hide WrapDecoded, Readable, ChunkCount, ByteAt;
    var cb := l.ChunkBytes();
    forall k | 0 <= k < n * 512
      ensures ByteAt(cb, chunks, start * 512 + k) == DiskBytes(disk, start * 512, n * 512)[k]
    {
      SectorOfByte(l.cs, start, n, k);
      var b := start * 512 + k;
      assert b == b / cb * cb + b % cb;
      DecodedByte(c, disk, cb, mode, short, b, b / cb, b % cb, chunks);
    }
  }

  lemma ReadableDecodes(c: Codec, disk: bytes, cb: nat, mode: CompressMode, short: bool)
    requires cb > 0
    ensures forall g :: 0 <= g < ChunkCount(disk, cb) ==>
              (WrapDecoded(c, disk, cb, mode, short, g).Some? <==> Readable(c, disk, cb, mode, short, g))
  {
  }

  /** Byte k of a request belongs to one of its sectors, and to that sector's chunk. */
  lemma SectorOfByte(cs: nat, start: nat, n: nat, k: nat)
    requires cs > 0 && k < n * 512
    ensures var s := start + k / 512; start <= s < start + n && (start * 512 + k) / (cs * 512) == s / cs
  {
    var s := start + k / 512;
    DivModUnique(start * 512 + k, 512, s, k % 512);
    assert s == s / cs * cs + s % cs;
    assert start * 512 + k == s / cs * (cs * 512) + (s % cs * 512 + k % 512) by {
      MulAssoc(s / cs, cs, 512);
    }
    DivModUnique(start * 512 + k, cs * 512, s / cs, s % cs * 512 + k % 512);
  }

  // ------------------------------------------------------------ the round trip

  /** What a request for n sectors from start gives, told from the disk that was wrapped. */
  ghost predicate ReadsDisk(c: Codec, disk: bytes, cs: nat, mode: CompressMode, short: bool, start: nat, n: nat,
                            r: Result<bytes, ReadError>)
    requires cs > 0
  {
    if cs > MAX_CHUNK_BYTES / SECTOR_SIZE then r == Err(BadGeometry)
    else if start >= ChunkCount(disk, cs * SECTOR_SIZE) * cs then r == Err(BeyondEnd)
    else if n > MAX_READ_BYTES / SECTOR_SIZE then r == Err(TooLarge)
    else
      match r
      case Ok(b) => RealOrError(c, disk, cs, mode, short, start, n, Ok(b))
      case Err(BadChunk(s)) => RealOrError(c, disk, cs, mode, short, start, n, Err(s))
      case Err(_) => false
  }

  /** The geometry read from a volume section that describes the disk. */
  lemma GeometryOfDisk(disks: seq<DiskSMART>, tables: seq<ChunkTable>, disk: bytes, cs: nat)
    requires disks != [] && cs > 0 && disks[0] == DiskSMART(cs, SECTOR_SIZE, |disk| / SECTOR_SIZE)
    requires disk != [] && |disk| % SECTOR_SIZE == 0 && Sum(Counts(tables)) == ChunkCount(disk, cs * SECTOR_SIZE)
    ensures var l := LayoutOf(disks, tables);
            l.ss == SECTOR_SIZE && l.cs == cs && l.media == |disk| / SECTOR_SIZE && l.ChunkBytes() == cs * SECTOR_SIZE
  {
    hide Counts, Sum;
    var n, cb := ChunkCount(disk, cs * SECTOR_SIZE), cs * SECTOR_SIZE;
    assert |disk| + cb - 1 == n * cb + (|disk| + cb - 1) % cb;
    MulAssoc(n, cs, 512);
    assert |disk| <= n * cs * 512;
  }

  lemma ReadsOfDisk(c: Codec, segs: seq<Segment>, disks: seq<DiskSMART>, tables: seq<ChunkTable>, disk: bytes, cs: nat,
                    mode: CompressMode, short: bool, start: nat, n: nat)
    requires Lawful(c) && tables != [] && TablesOfDisk(c, segs, tables, LayoutOf(disks, tables), disk, mode, short)
    requires LayoutOf(disks, tables).cs == cs
    ensures cs > 0 && ReadsDisk(c, disk, cs, mode, short, start, n, ReadSectors(c, segs, disks, tables, start, n))
  {
    hide DecodedChunks, AllServe, ChunkCount, Lawful, ReadRange, RealOrError, LayoutOf;
    var l := LayoutOf(disks, tables);
    RangeOfDisk(c, segs, tables, l, disk, mode, short, start, n);
  }

  /** Tables that serve groups have as many entries as the groups have chunks. */
  lemma CountsOfGroups(segs: seq<Segment>, image: bytes, tables: seq<ChunkTable>, mode: CompressMode,
                       stored: seq<bytes>, counts: seq<nat>)
    requires Sum(counts) == |stored| && AllServe(segs, image, tables, mode, Split(stored, counts))
    ensures Counts(tables) == counts
  {
    hide Sum;
    var groups := Split(stored, counts);
    forall s | 0 <= s < |tables| ensures Counts(tables)[s] == counts[s] {
      assert Serves(segs, image, tables[s], mode, groups[s]);
    }
  }

  lemma OneGroup(stored: seq<bytes>)
    ensures Sum([|stored|]) == |stored| && Split(stored, [|stored|]) == [stored]
  {
    var counts := [|stored|];
    assert counts[1..] == [] && Sum(counts[1..]) == 0;
    assert stored[..counts[0]] == stored;
    assert Split(stored[counts[0]..], counts[1..]) == [];
  }

  function WrapCounts(c: Codec, disk: bytes, opts: Options): (r: seq<nat>)
    ensures r != [] && Sum(r) == |WrapStored(c, disk, opts)|
    ensures Split(WrapStored(c, disk, opts), r) == WrapGroups(c, disk, opts)
  {
    var n := |WrapStored(c, disk, opts)|;
    OneGroup(WrapStored(c, disk, opts));
    if opts.layout == EnCase1 then [n] else GroupCounts(n, opts.sections)
  }

  lemma WrapTablesOfDisk(c: Codec, disk: bytes, opts: Options)
    requires Lawful(c) && Expressible(c, disk, opts) && |disk| % SECTOR_SIZE == 0 && !Unlisted(disk, opts)
    ensures var l := LayoutOf([DiskGeometry(disk, opts), DiskGeometry(disk, opts)], WrapTables(c, disk, opts));
            && l.cs == EffectiveChunkSectors(opts) && WrapTables(c, disk, opts) != []
            && TablesOfDisk(c, Single(WrapBytes(c, disk, opts)), WrapTables(c, disk, opts), l, disk, opts.compress,
                            opts.shortFinalChunk)
  {
    hide AllServe, WrapTables, GroupCounts, Split, Counts, Sum, LayoutOf, ChunkCount, ParseImage, WrapParsed,
         StoredChunks,
         WrapBytes, Expressible, Lawful;
    var f, tables, counts := WrapBytes(c, disk, opts), WrapTables(c, disk, opts), WrapCounts(c, disk, opts);
    var g := DiskGeometry(disk, opts);
    ParseWrapped(c, disk, opts);
    CountsOfGroups(Single(f), f, tables, opts.compress, WrapStored(c, disk, opts), counts);
    SingleJoined(f);
    assert Counts(tables) == counts;
    GeometryOfDisk([g, g], tables, disk, EffectiveChunkSectors(opts));
  }

  /**
   * The container round trip, for every sector-aligned disk, layout, chunk size, slack and section
   * split the format can express: parsing the wrapped file fails exactly when it lists no chunks,
   * and otherwise every request reads the disk's own bytes unless it touches an unreadable chunk.
   */
  lemma SectorRoundTrip(c: Codec, disk: bytes, opts: Options, start: nat, n: nat)
    requires Lawful(c) && Expressible(c, disk, opts) && |disk| % SECTOR_SIZE == 0
    ensures var segs := Single(WrapBytes(c, disk, opts));
            match ParseImage(c, segs)
            case None => Unlisted(disk, opts)
            case Some(p) =>
              && !Unlisted(disk, opts)
              && ReadsDisk(c, disk, EffectiveChunkSectors(opts), opts.compress, opts.shortFinalChunk, start, n,
                           ReadSectors(c, segs, p.disks, p.tables, start, n))
  {
    hide AllServe, WrapTables, LayoutOf, ChunkCount, ParseImage, StoredHashes, ReadSectors, ReadsDisk, WrapBytes,
         Expressible, Lawful, TablesOfDisk, DiskGeometry;
    ParseWrapped(c, disk, opts);
    if !Unlisted(disk, opts) {
      var g := DiskGeometry(disk, opts);
      WrapTablesOfDisk(c, disk, opts);
      ReadsOfDisk(c, Single(WrapBytes(c, disk, opts)), [g, g], WrapTables(c, disk, opts), disk,
                  EffectiveChunkSectors(opts),
                  opts.compress, opts.shortFinalChunk, start, n);
    }
  }

  // ------------------------------------------------------------ when every chunk is readable

  predicate AllReadable(c: Codec, disk: bytes, cb: nat, mode: CompressMode, short: bool)
    requires cb > 0
  {
    forall g :: 0 <= g < ChunkCount(disk, cb) ==> Readable(c, disk, cb, mode, short, g)
  }

  lemma WholeDiskTouched(c: Codec, disk: bytes, cs: nat, mode: CompressMode, short: bool)
    requires cs > 0 && |disk| % SECTOR_SIZE == 0
    ensures TouchesReadable(c, disk, cs, mode, short, 0, |disk| / SECTOR_SIZE)
            <==> AllReadable(c, disk, cs * SECTOR_SIZE, mode, short)
  {
    hide Readable;
    var cb := cs * SECTOR_SIZE;
    forall g | 0 <= g < ChunkCount(disk, cb) ensures 0 <= g * cs < |disk| / SECTOR_SIZE && g * cs / cs == g {
      ChunkInDisk(disk, cb, g);
      MulAssoc(g, cs, SECTOR_SIZE);
      DivModUnique(g * cs, cs, g, 0);
    }
    if TouchesReadable(c, disk, cs, mode, short, 0, |disk| / SECTOR_SIZE) {
      forall g | 0 <= g < ChunkCount(disk, cb) ensures Readable(c, disk, cb, mode, short, g) {
        var s := g * cs;
        assert s / cs == g;
      }
    }
  }

  lemma DiskBytesWhole(disk: bytes)
    requires |disk| % SECTOR_SIZE == 0
    ensures DiskBytes(disk, 0, |disk| / SECTOR_SIZE * SECTOR_SIZE) == disk
  {
    assert |disk| / SECTOR_SIZE * SECTOR_SIZE == |disk|;
  }

  /** Reading the whole media gives the wrapped disk back exactly when every chunk is readable. */
  lemma WholeDiskReadsBack(c: Codec, disk: bytes, opts: Options)
    requires Lawful(c) && Expressible(c, disk, opts) && |disk| % SECTOR_SIZE == 0 && !Unlisted(disk, opts)
    requires EffectiveChunkSectors(opts) <= MAX_CHUNK_BYTES / SECTOR_SIZE && |disk| <= MAX_READ_BYTES
    ensures var segs := Single(WrapBytes(c, disk, opts));
            match ParseImage(c, segs)
            case None => false
            case Some(p) =>
              ReadSectors(c, segs, p.disks, p.tables, 0, |disk| / SECTOR_SIZE) == Ok(disk)
              <==> AllReadable(c, disk, ChunkBytesOf(opts), opts.compress, opts.shortFinalChunk)
  {
    hide ParseImage, ReadSectors, WrapBytes, Expressible, Lawful, TouchesReadable, AllReadable, DiskBytes;
    var n := |disk| / SECTOR_SIZE;
    SectorRoundTrip(c, disk, opts, 0, n);
    WholeDiskTouched(c, disk, EffectiveChunkSectors(opts), opts.compress, opts.shortFinalChunk);
    DiskBytesWhole(disk);
    NoChunks(c, disk, opts);
    var segs := Single(WrapBytes(c, disk, opts));
    var p := ParseImage(c, segs).value;
    TouchedRange(c, disk, EffectiveChunkSectors(opts), opts.compress, opts.shortFinalChunk, n,
                 ReadSectors(c, segs, p.disks, p.tables, 0, n));
  }

  lemma TouchedRange(c: Codec, disk: bytes, cs: nat, mode: CompressMode, short: bool, n: nat,
                     r: Result<bytes, ReadError>)
    requires 0 < cs <= MAX_CHUNK_BYTES / SECTOR_SIZE && disk != [] && |disk| <= MAX_READ_BYTES
    requires n == |disk| / SECTOR_SIZE
    requires ReadsDisk(c, disk, cs, mode, short, 0, n, r)
    ensures r.Ok? ==> r.value == DiskBytes(disk, 0, n * SECTOR_SIZE)
    ensures r.Ok? <==> TouchesReadable(c, disk, cs, mode, short, 0, n)
  {
    hide Readable, DiskBytes;
    var cb := cs * SECTOR_SIZE;
    assert |disk| + cb - 1 >= cb;
    if ChunkCount(disk, cb) * cs <= 0 {
      DivPositive(|disk| + cb - 1, cb);
      MulLe(1, ChunkCount(disk, cb), cs);
      assert false;
    }
  }

  lemma DivPositive(a: nat, b: nat)
    requires 0 < b <= a
    ensures a / b >= 1
  {
    var q := a / b;
    assert a == q * b + a % b;
    if q <= 0 { MulLe(q, 0, b); }
  }

  /**
   * Raw storage reads back exactly when the last chunk is full, or kept short, or the bytes it
   * covers happen to have the checksum zero that the padding spells.
   */
  lemma RawReadable(c: Codec, disk: bytes, cb: nat, short: bool)
    requires cb > 0 && disk != []
    ensures ChunkCount(disk, cb) > 0
    ensures AllReadable(c, disk, cb, Raw, short) <==>
            short || |disk| % cb == 0 || c.adler(Covered(disk, cb, ChunkCount(disk, cb) - 1)) == 0
  {
    DivPositive(|disk| + cb - 1, cb);
    var last := ChunkCount(disk, cb) - 1;
    forall g | 0 <= g <= last
      ensures Readable(c, disk, cb, Raw, short, g) <==>
              g < last || short || |disk| % cb == 0 || c.adler(Covered(disk, cb, last)) == 0
    {
      RawChunkLength(disk, cb, g, short);
    }
    if AllReadable(c, disk, cb, Raw, short) { assert Readable(c, disk, cb, Raw, short, last); }
  }

  /** Only the last chunk can be stored longer than what it covers. */
  lemma RawChunkLength(disk: bytes, cb: nat, g: nat, short: bool)
    requires cb > 0 && g < ChunkCount(disk, cb)
    ensures g * cb < |disk|
    ensures |ChunkData(disk, cb, g, short)| == |Covered(disk, cb, g)| <==>
            g < ChunkCount(disk, cb) - 1 || short || |disk| % cb == 0
  {
    ChunkInDisk(disk, cb, g);
    DataOfChunk(disk, cb, g, short);
    var n := ChunkCount(disk, cb);
    MulAdd(g, 1, cb);
    assert |disk| + cb - 1 == n * cb + (|disk| + cb - 1) % cb;
    if g < n - 1 {
      MulLe(g + 2, n, cb);
      MulAdd(g, 2, cb);
    } else {
      assert n == g + 1;
      DivModUnique(|disk|, cb, if |disk| - g * cb < cb then g else g + 1,
                   if |disk| - g * cb < cb then |disk| - g * cb else 0);
    }
  }

  /** The last chunk is not full, and its covered bytes do not have the checksum that the padding spells. */
  ghost predicate LastPadded(c: Codec, disk: bytes, cb: nat, last: nat) {
    cb > 0 && last + 1 == ChunkCount(disk, cb) && |disk| % cb != 0 && c.adler(Covered(disk, cb, last)) != 0
  }

  /** The image parses, and reading this one sector is refused. */
  ghost predicate FailsAt(c: Codec, segs: seq<Segment>, s: nat) {
    match ParseImage(c, segs)
    case None => false
    case Some(p) => ReadSectors(c, segs, p.disks, p.tables, s, 1) == Err(BadChunk(s))
  }

  /**
   * Under every codec that meets the laws a disk stored raw, whose last chunk is padded and whose covered
   * bytes do not happen to have the checksum zero, cannot be read there: the read names the sector.
   */
  lemma RawPaddedFails(c: Codec, disk: bytes, opts: Options, last: nat, s: nat)
    requires s == last * EffectiveChunkSectors(opts)
    requires Lawful(c) && Expressible(c, disk, opts) && |disk| % SECTOR_SIZE == 0 && !Unlisted(disk, opts)
    requires EffectiveChunkSectors(opts) <= MAX_CHUNK_BYTES / SECTOR_SIZE
    requires opts.compress == Raw && !opts.shortFinalChunk && LastPadded(c, disk, ChunkBytesOf(opts), last)
    ensures FailsAt(c, Single(WrapBytes(c, disk, opts)), s)
  {
    hide ParseImage, ReadSectors, WrapBytes, Expressible, Lawful, Readable, ReadsDisk, TouchesReadable, ChunkCount;
    var cs, cb := EffectiveChunkSectors(opts), ChunkBytesOf(opts);
    PaddedUnreadable(c, disk, cb, last);
    UnreadableTouched(c, disk, cs, Raw, false, last);
    SectorRoundTrip(c, disk, opts, s, 1);
    var segs := Single(WrapBytes(c, disk, opts));
    var p := ParseImage(c, segs).value;
    FailsThere(c, disk, cs, Raw, false, s, ReadSectors(c, segs, p.disks, p.tables, s, 1));
  }

  lemma PaddedUnreadable(c: Codec, disk: bytes, cb: nat, last: nat)
    requires LastPadded(c, disk, cb, last)
    ensures cb > 0 && last < ChunkCount(disk, cb) && !Readable(c, disk, cb, Raw, false, last)
  {
    hide Covered, ChunkData, ChunkCount;
    RawChunkLength(disk, cb, last, false);
  }

  lemma FailsThere(c: Codec, disk: bytes, cs: nat, mode: CompressMode, short: bool, s: nat, r: Result<bytes, ReadError>)
    requires 0 < cs <= MAX_CHUNK_BYTES / SECTOR_SIZE && s < ChunkCount(disk, cs * SECTOR_SIZE) * cs
    requires ReadsDisk(c, disk, cs, mode, short, s, 1, r) && !TouchesReadable(c, disk, cs, mode, short, s, s + 1)
    ensures r == Err(BadChunk(s))
  {
    hide TouchesReadable, ChunkCount, DiskBytes, Unreadable;
  }

  /** A read of the first sector of an unreadable chunk can only fail, there. */
  lemma UnreadableTouched(c: Codec, disk: bytes, cs: nat, mode: CompressMode, short: bool, g: nat)
    requires cs > 0 && g < ChunkCount(disk, cs * SECTOR_SIZE) && !Readable(c, disk, cs * SECTOR_SIZE, mode, short, g)
    ensures g * cs < ChunkCount(disk, cs * SECTOR_SIZE) * cs
    ensures !TouchesReadable(c, disk, cs, mode, short, g * cs, g * cs + 1)
  {
    hide Readable, ChunkCount;
    DivModUnique(g * cs, cs, g, 0);
    MulLe(g + 1, ChunkCount(disk, cs * SECTOR_SIZE), cs);
    MulAdd(g, 1, cs);
    assert g * cs / cs == g;
  }

  /** One sector of zeros in a padded chunk is such a disk, as soon as its checksum is not zero. */
  lemma OneSectorFails(c: Codec, opts: Options)
    requires Lawful(c) && Expressible(c, Zeros(512), opts) && c.adler(Zeros(512)) != 0
    requires 1 < EffectiveChunkSectors(opts) <= MAX_CHUNK_BYTES / SECTOR_SIZE
    requires opts.compress == Raw && !opts.shortFinalChunk && !Unlisted(Zeros(512), opts)
    ensures FailsAt(c, Single(WrapBytes(c, Zeros(512), opts)), 0)
  {
    hide ParseImage, ReadSectors, WrapBytes, Expressible, Lawful;
    var disk, cb := Zeros(512), ChunkBytesOf(opts);
    DivModUnique(512, cb, 0, 512);
    DivModUnique(512 + cb - 1, cb, 1, 511);
    assert Covered(disk, cb, 0) == disk;
    RawPaddedFails(c, disk, opts, 0, 0);
  }

  // ------------------------------------------------------------ stored hashes

  function OrEmpty(h: Option<bytes>): bytes { if h.Some? then h.value else [] }

  /**
   * The acquisition hashes read back as written exactly when they have their standard lengths and a
   * SHA-1 comes with an MD5: a SHA-1-only digest is read as if its first 16 bytes were the MD5.
   */
  lemma HashesReadBack(opts: Options)
    ensures StoredHashes(opts, [], []) == (OrEmpty(opts.md5Hash), OrEmpty(opts.sha1Hash)) <==>
            (opts.md5Hash.Some? ==> |opts.md5Hash.value| == 16)
            && (opts.sha1Hash.Some? ==> opts.md5Hash.Some? && |opts.sha1Hash.value| == 20)
  {
    match (opts.md5Hash, opts.sha1Hash) {
      case (Some(m), Some(s)) =>
        if |m| == 16 && |s| == 20 {
          assert Put(Zeros(36), 0, m)[..16] == m;
          assert Put(Put(Zeros(80), 0, m), 16, s)[16..36] == s;
        }
      case (Some(m), None) =>
        if |m| == 16 { assert Put(Zeros(36), 0, m)[..16] == m; }
      case (None, Some(s)) =>
        assert |Put(Zeros(20), 0, s)[..16]| == 16;
      case (None, None) =>
    }
  }
}

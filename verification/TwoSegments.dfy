/**
 * A disk split over two segment files (WrapDiskSegments in internal/ewffixture/fixture.go) reads
 * back: each table's offsets are relative to the segment that holds the table.
 */
module TwoSegments {
  import opened Bytes
  import opened Codec
  import opened Segments
  import opened Sections
  import opened Planner
  import opened SectorRead
  import opened Fixture
  import opened Reparse
  import RT = RoundTrip
  import opened ReadBack

  // ------------------------------------------------------------ the two files

  /** Tables only: every chunk behind its own table, stored raw. */
  function OwnTables(c: Codec, addr: nat, stored: seq<bytes>): (r: seq<Sec>)
    ensures Named(r) && |r| == |stored|
    decreases |stored|
  {
    if stored == [] then []
    else
      var s := TableWithChunks(c, Raw, addr, stored[..1]);
      [s] + OwnTables(c, addr + SecSize(s), stored[1..])
  }

  /** The options of a sectors/table pair of a segment: no slack, absolute offsets, a mirror in the first. */
  function PairOptions(opts: Options, mirror: bool): Options {
    opts.(layout := EnCase2To5, slackBytes := 0, noTable2 := !mirror, skipTable := false)
  }

  function SegmentMode(opts: Options, cross: bool): CompressMode {
    if cross then Raw else opts.compress
  }

  /** The sections that hold a run of chunks in one segment. */
  function RunSections(c: Codec, opts: Options, cross: bool, mirror: bool, addr: nat, stored: seq<bytes>): (r: seq<Sec>)
    ensures Named(r)
  {
    if cross then OwnTables(c, addr, stored) else AllPairs(c, PairOptions(opts, mirror), addr, [stored])
  }

  function SegmentStored(c: Codec, disk: bytes, opts: Options, cross: bool): seq<bytes> {
    StoredChunks(c, disk, ChunkBytesOf(opts), SegmentMode(opts, cross), false)
  }

  /** Chunk 0 goes to the first file, all others to the second. */
  function FirstRun(c: Codec, disk: bytes, opts: Options, cross: bool): seq<bytes> {
    var stored := SegmentStored(c, disk, opts, cross);
    stored[..Min(1, |stored|)]
  }

  function SecondRun(c: Codec, disk: bytes, opts: Options, cross: bool): seq<bytes> {
    var stored := SegmentStored(c, disk, opts, cross);
    stored[Min(1, |stored|)..]
  }

  function FirstSections(c: Codec, disk: bytes, opts: Options, cross: bool): (r: seq<Sec>)
    ensures Named(r)
  {
    FrontSections(c, disk, opts)
    + RunSections(c, opts, cross, true, RT.BodyAddress(c, disk, opts), FirstRun(c, disk, opts, cross))
  }

  function SecondSections(c: Codec, disk: bytes, opts: Options, cross: bool): (r: seq<Sec>)
    ensures Named(r)
  {
    RunSections(c, opts, cross, false, FILE_HEADER_LENGTH, SecondRun(c, disk, opts, cross))
  }

  /** The two segment files. */
  function SegmentFiles(c: Codec, disk: bytes, opts: Options, cross: bool): (r: seq<bytes>)
    ensures |r| == 2
  {
    [FileBytes(c, 1, FirstSections(c, disk, opts, cross)), FileBytes(c, 2, SecondSections(c, disk, opts, cross))]
  }

  function Pair(f: bytes, g: bytes): seq<Segment> { [Segment(f, 0), Segment(g, |f|)] }

  lemma PairJoined(f: bytes, g: bytes)
    ensures Files(Pair(f, g)) == [f, g] && Joined(Pair(f, g)) == f + g && PrefixSums(Pair(f, g))
    ensures Holds(f + g, 0, f) && Holds(f + g, |f|, g)
  {
    var files := Files(Pair(f, g));
    assert files == [f, g] && [f, g][1..] == [g];
    assert [g][1..] == [] && Concat([g]) == g + Concat([]) == g;
    assert Concat([f, g]) == f + g;
    assert files[..0] == [] && files[..1] == [f] && [f][1..] == [] && Concat([f]) == f + Concat([]) == f;
  }

  // ------------------------------------------------------------ one run of chunks

  function OwnHomes(c: Codec, k: nat, start: nat, addr: nat, stored: seq<bytes>): (r: seq<SectionAt>)
    ensures |r| == |stored|
    decreases |stored|
  {
    if stored == [] then []
    else
      var s := TableWithChunks(c, Raw, addr, stored[..1]);
      [PlacedAt(k, start, addr, s)] + OwnHomes(c, k, start, addr + SecSize(s), stored[1..])
  }

  function OwnChunkTables(c: Codec, k: nat, start: nat, addr: nat, stored: seq<bytes>): (r: seq<ChunkTable>)
    ensures |r| == |stored|
    decreases |stored|
  {
    if stored == [] then []
    else
      var s := TableWithChunks(c, Raw, addr, stored[..1]);
      [RT.EnCase1Table(k, start, Raw, addr, stored[..1])] + OwnChunkTables(c, k, start, addr + SecSize(s), stored[1..])
  }

  function Singles(stored: seq<bytes>): (r: seq<seq<bytes>>)
    ensures |r| == |stored|
  {
    if stored == [] then [] else [stored[..1]] + Singles(stored[1..])
  }

  function RunHomes(c: Codec, k: nat, start: nat, opts: Options, cross: bool, mirror: bool, addr: nat,
                    stored: seq<bytes>): seq<SectionAt> {
    if cross then [] else RT.Homes(c, k, start, PairOptions(opts, mirror), addr, [stored])
  }

  function RunTablesAt(c: Codec, k: nat, start: nat, opts: Options, cross: bool, mirror: bool, addr: nat,
                       stored: seq<bytes>): seq<SectionAt> {
    if cross then OwnHomes(c, k, start, addr, stored)
    else RT.TableHomes(c, k, start, PairOptions(opts, mirror), addr, [stored])
  }

  function RunTables(c: Codec, k: nat, start: nat, opts: Options, cross: bool, mirror: bool, addr: nat,
                     stored: seq<bytes>): seq<ChunkTable> {
    if cross then OwnChunkTables(c, k, start, addr, stored)
    else RT.GroupTables(c, k, start, PairOptions(opts, mirror), addr, [stored])
  }

  function RunGroups(cross: bool, stored: seq<bytes>): seq<seq<bytes>> {
    if cross then Singles(stored) else [stored]
  }

  /** What collecting a run adds. */
  function Added(p: Collected, homes: seq<SectionAt>, tables: seq<SectionAt>): Collected {
    p.(sectorsAt := p.sectorsAt + homes, tablesAt := p.tablesAt + tables)
  }

  lemma {:induction false} CollectOwn(c: Codec, p: Collected, k: nat, start: nat, addr: nat, stored: seq<bytes>)
    ensures RT.CollectSecs(c, p, k, start, addr, OwnTables(c, addr, stored)) ==
            Progress(Added(p, [], OwnHomes(c, k, start, addr, stored)), true)
    decreases |stored|
  {
    hide TableWithChunks, RT.CollectSecs, PlacedAt, SecSize;
    if stored == [] {
      assert p.sectorsAt + [] == p.sectorsAt && p.tablesAt + [] == p.tablesAt;
      CollectEmpty(c, p, k, start, addr);
    } else {
      var s := TableWithChunks(c, Raw, addr, stored[..1]);
      var next, v := addr + SecSize(s), PlacedAt(k, start, addr, s);
      RT.EnCase1Name(c, Raw, addr, stored[..1]);
      RT.PlacedName(k, start, addr, s);
      RT.CollectCons(c, p, k, start, addr, s, OwnTables(c, next, stored[1..]));
      var p1 := p.(tablesAt := p.tablesAt + [v]);
      assert CollectPayload(c, p, v, s.payload) == Progress(p1, true);
      CollectOwn(c, p1, k, start, next, stored[1..]);
      AppendAssoc(p.tablesAt, [v], OwnHomes(c, k, start, next, stored[1..]));
    }
  }

  lemma CollectEmpty(c: Codec, p: Collected, k: nat, start: nat, addr: nat)
    ensures RT.CollectSecs(c, p, k, start, addr, []) == Progress(p, true)
  {
  }

  lemma CollectRun(c: Codec, p: Collected, k: nat, start: nat, opts: Options, cross: bool, mirror: bool, addr: nat,
                   stored: seq<bytes>)
    ensures RT.CollectSecs(c, p, k, start, addr, RunSections(c, opts, cross, mirror, addr, stored)) ==
            Progress(Added(p, RunHomes(c, k, start, opts, cross, mirror, addr, stored),
                           RunTablesAt(c, k, start, opts, cross, mirror, addr, stored)), true)
  {
    hide RT.CollectSecs, RT.Homes, RT.TableHomes, AllPairs, OwnTables, OwnHomes;
    if cross {
      CollectOwn(c, p, k, start, addr, stored);
    } else {
      RT.CollectPairs(c, p, k, start, PairOptions(opts, mirror), addr, [stored]);
    }
  }

  /** A run of tables that parse to ts, for every way of naming their homes. */
  ghost predicate ParsesTo(image: bytes, homes: seq<SectionAt>, tables: seq<SectionAt>, ts: seq<ChunkTable>) {
    |homes| == |tables| && PairFrom(image, homes, tables) == Progress(ts, true)
  }

  lemma {:induction false} ParsesSplit(image: bytes, h: seq<SectionAt>, t: seq<SectionAt>, ts: seq<ChunkTable>,
                                       h': seq<SectionAt>, t': seq<SectionAt>, ts': seq<ChunkTable>)
    requires ParsesTo(image, h, t, ts) && ParsesTo(image, h', t', ts')
    ensures ParsesTo(image, h + h', t + t', ts + ts')
    decreases |h|
  {
    hide TableOf;
    if h == [] {
      assert h + h' == h' && t + t' == t' && ts + ts' == ts';
    } else {
      assert (h + h')[1..] == h[1..] + h' && (t + t')[1..] == t[1..] + t';
      var rest := PairFrom(image, h[1..], t[1..]);
      ParsesSplit(image, h[1..], t[1..], rest.value, h', t', ts');
      AppendAssoc([ts[0]], rest.value, ts');
      assert ts == [ts[0]] + rest.value;
    }
  }

  lemma {:induction false} OwnParsed(c: Codec, segs: seq<Segment>, image: bytes, k: nat, addr: nat, stored: seq<bytes>)
    requires k < |segs| && segs[k].start + addr + SecsSize(OwnTables(c, addr, stored)) < INT63
    requires Holds(image, segs[k].start + addr, SecsBytes(c, addr, OwnTables(c, addr, stored)))
    ensures ParsesTo(image, OwnHomes(c, k, segs[k].start, addr, stored), OwnHomes(c, k, segs[k].start, addr, stored),
                     OwnChunkTables(c, k, segs[k].start, addr, stored))
    ensures RT.AllServe(segs, image, OwnChunkTables(c, k, segs[k].start, addr, stored), Raw, Singles(stored))
    decreases |stored|
  {
    hide TableWithChunks, RT.EnCase1Table, Holds, RT.Serves, TableOf, SecsBytes, SecSize, PlacedAt;
    if stored != [] {
      var start, s := segs[k].start, TableWithChunks(c, Raw, addr, stored[..1]);
      var v, t, next := PlacedAt(k, start, addr, s), RT.EnCase1Table(k, start, Raw, addr, stored[..1]),
          addr + SecSize(s);
      RT.EnCase1Name(c, Raw, addr, stored[..1]);
      RT.SecWritten(c, image, start, addr, s, OwnTables(c, next, stored[1..]));
      OneFits(stored[..1]);
      RT.EnCase1Parsed(c, segs, image, k, Raw, addr, stored[..1]);
      OwnFields(c, k, start, addr, stored[..1]);
      OwnParsed(c, segs, image, k, next, stored[1..]);
      ParsesOne(image, v, t);
      ParsesSplit(image, [v], [v], [t], OwnHomes(c, k, start, next, stored[1..]),
                  OwnHomes(c, k, start, next, stored[1..]),
                  OwnChunkTables(c, k, start, next, stored[1..]));
    }
  }

  lemma OneFits(one: seq<bytes>)
    requires |one| == 1
    ensures RT.OffsetsFit(one, 0)
  {
    assert one[..0] == [];
  }

  lemma OwnFields(c: Codec, k: nat, start: nat, addr: nat, one: seq<bytes>)
    ensures PlacedAt(k, start, addr, TableWithChunks(c, Raw, addr, one)).address == start + addr ==
            RT.EnCase1Table(k, start, Raw, addr, one).address
    ensures PlacedAt(k, start, addr, TableWithChunks(c, Raw, addr, one)).segment == k ==
            RT.EnCase1Table(k, start, Raw, addr, one).segment
  {
  }

  lemma ParsesOne(image: bytes, v: SectionAt, t: ChunkTable)
    requires TableOf(image, v) == Some(TableData(t.entries, t.base)) && t.address == v.address && t.segment == v.segment
    ensures ParsesTo(image, [v], [v], [t])
  {
    hide TableOf;
    assert [v][1..] == [] && [t] + [] == [t];
    assert PairFrom(image, [v], [v]) == Prepend([t], PairFrom(image, [], []));
  }

  /** A run of chunks written to segment k parses to tables that serve it. */
  lemma RunParsed(c: Codec, segs: seq<Segment>, image: bytes, k: nat, opts: Options, cross: bool, mirror: bool,
                  addr: nat, stored: seq<bytes>)
    requires k < |segs| && stored != []
    requires segs[k].start + addr + SecsSize(RunSections(c, opts, cross, mirror, addr, stored)) < INT63
    requires Holds(image, segs[k].start + addr, SecsBytes(c, addr, RunSections(c, opts, cross, mirror, addr, stored)))
    requires !cross ==> RT.OffsetsFit(stored, addr + SECTION_LENGTH)
    ensures var tables := RunTablesAt(c, k, segs[k].start, opts, cross, mirror, addr, stored);
            ParsesTo(image,
                     if cross then tables else RunHomes(c, k, segs[k].start, opts, cross, mirror, addr, stored),
                     tables,
                     RunTables(c, k, segs[k].start, opts, cross, mirror, addr, stored))
    ensures RT.AllServe(segs, image, RunTables(c, k, segs[k].start, opts, cross, mirror, addr, stored),
                        SegmentMode(opts, cross), RunGroups(cross, stored))
  {
    hide Holds, RT.Homes, RT.TableHomes, RT.GroupTables, OwnTables, OwnHomes, OwnChunkTables, RT.AllServe, SecsSize,
         SecsBytes,
         AllPairs, RT.OffsetsFit;
    if cross {
      OwnParsed(c, segs, image, k, addr, stored);
    } else {
      GroupFits(c, PairOptions(opts, mirror), addr, stored);
      RT.PairsParsed(c, segs, image, k, PairOptions(opts, mirror), addr, [stored]);
    }
  }

  lemma GroupFits(c: Codec, opts: Options, addr: nat, stored: seq<bytes>)
    requires opts.layout == EnCase2To5 && opts.slackBytes == 0 && RT.OffsetsFit(stored, addr + SECTION_LENGTH)
    ensures RT.GroupsFit(c, opts, addr, [stored])
  {
    hide RT.OffsetsFit, PairSections, SecsSize;
    var groups := [stored];
    assert groups[1..] == [];
  }

  // ------------------------------------------------------------ both files

  /** What the format can express, for a disk of at least two chunks over two files. */
  ghost predicate SegmentsExpressible(c: Codec, disk: bytes, opts: Options, cross: bool) {
    && EffectiveChunkSectors(opts) < UINT32 && |disk| < INT63
    && ChunkCount(disk, ChunkBytesOf(opts)) >= 2
    && var files := SegmentFiles(c, disk, opts, cross);
       && |files[0]| + |files[1]| < INT63
       && (!cross ==> RT.OffsetsFit(FirstRun(c, disk, opts, cross), RT.BodyAddress(c, disk, opts) + SECTION_LENGTH)
                      && RT.OffsetsFit(SecondRun(c, disk, opts, cross), FILE_HEADER_LENGTH + SECTION_LENGTH))
  }

  lemma OwnPlain(c: Codec, addr: nat, stored: seq<bytes>)
    ensures AllOrdinary(OwnTables(c, addr, stored)) && RT.Filled(OwnTables(c, addr, stored))
    decreases |stored|
  {
    hide TablePayload;
    if stored != [] {
      var s := TableWithChunks(c, Raw, addr, stored[..1]);
      OwnPlain(c, addr + SecSize(s), stored[1..]);
      RT.PlainParts([s], OwnTables(c, addr + SecSize(s), stored[1..]));
    }
  }

  lemma RunPlain(c: Codec, opts: Options, cross: bool, mirror: bool, addr: nat, stored: seq<bytes>)
    ensures AllOrdinary(RunSections(c, opts, cross, mirror, addr, stored))
    ensures RT.Filled(RunSections(c, opts, cross, mirror, addr, stored))
  {
    OwnPlain(c, addr, stored);
    RT.PairsPlain(c, PairOptions(opts, mirror), addr, [stored]);
  }

  lemma FirstPlain(c: Codec, disk: bytes, opts: Options, cross: bool)
    requires Lawful(c)
    ensures AllOrdinary(FirstSections(c, disk, opts, cross)) && RT.Filled(FirstSections(c, disk, opts, cross))
  {
    hide AllOrdinary, RT.Filled, FrontSections, RunSections, FirstRun, RT.BodyAddress;
    var addr, one := RT.BodyAddress(c, disk, opts), FirstRun(c, disk, opts, cross);
    RT.FrontPlain(c, disk, opts);
    RunPlain(c, opts, cross, true, addr, one);
    RT.PlainParts(FrontSections(c, disk, opts), RunSections(c, opts, cross, true, addr, one));
  }

  /** Both chains are walked, one after the other. */
  lemma WalkBoth(image: bytes, f: bytes, g: bytes)
    requires WalkFrom(image, 0, 0, FILE_HEADER_LENGTH).ok && WalkFrom(image, 1, |f|, |f| + FILE_HEADER_LENGTH).ok
    ensures WalkSegments(image, Pair(f, g), 0) ==
            Progress(WalkFrom(image, 0, 0, FILE_HEADER_LENGTH).value
                     + WalkFrom(image, 1, |f|, |f| + FILE_HEADER_LENGTH).value, true)
  {
    hide WalkFrom;
    var b := WalkFrom(image, 1, |f|, |f| + FILE_HEADER_LENGTH);
    assert WalkSegments(image, Pair(f, g), 2) == Progress([], true);
    assert b.value + [] == b.value;
    assert WalkSegments(image, Pair(f, g), 1) == b;
  }

  /** What collecting both files gives. */
  function Homes2(c: Codec, disk: bytes, opts: Options, cross: bool): seq<SectionAt>
  {
    var start := |SegmentFiles(c, disk, opts, cross)[0]|;
    RunHomes(c, 0, 0, opts, cross, true, RT.BodyAddress(c, disk, opts), FirstRun(c, disk, opts, cross))
    + RunHomes(c, 1, start, opts, cross, false, FILE_HEADER_LENGTH, SecondRun(c, disk, opts, cross))
  }

  function TablesAt2(c: Codec, disk: bytes, opts: Options, cross: bool): seq<SectionAt>
  {
    var start := |SegmentFiles(c, disk, opts, cross)[0]|;
    RunTablesAt(c, 0, 0, opts, cross, true, RT.BodyAddress(c, disk, opts), FirstRun(c, disk, opts, cross))
    + RunTablesAt(c, 1, start, opts, cross, false, FILE_HEADER_LENGTH, SecondRun(c, disk, opts, cross))
  }

  function Tables2(c: Codec, disk: bytes, opts: Options, cross: bool): seq<ChunkTable>
  {
    var start := |SegmentFiles(c, disk, opts, cross)[0]|;
    RunTables(c, 0, 0, opts, cross, true, RT.BodyAddress(c, disk, opts), FirstRun(c, disk, opts, cross))
    + RunTables(c, 1, start, opts, cross, false, FILE_HEADER_LENGTH, SecondRun(c, disk, opts, cross))
  }

  lemma CollectFirstFile(c: Codec, disk: bytes, opts: Options, cross: bool)
    requires Lawful(c) && EffectiveChunkSectors(opts) < UINT32 && |disk| < INT63
    ensures var g, addr, one := RT.DiskGeometry(disk, opts), RT.BodyAddress(c, disk, opts),
            FirstRun(c, disk, opts, cross);
            RT.CollectSecs(c, NOTHING, 0, 0, FILE_HEADER_LENGTH, FirstSections(c, disk, opts, cross)) ==
            Progress(Collected([g, g], RunHomes(c, 0, 0, opts, cross, true, addr, one),
                               RunTablesAt(c, 0, 0, opts, cross, true, addr, one), [], []), true)
  {
    hide RT.CollectSecs, FrontSections, RunSections, RunHomes, RunTablesAt, RT.DiskGeometry, SecsSize, FirstRun,
         CollectPayload;
    var g, addr, one := RT.DiskGeometry(disk, opts), RT.BodyAddress(c, disk, opts), FirstRun(c, disk, opts, cross);
    var p1 := NOTHING.(disks := [g, g]);
    RT.CollectFront(c, NOTHING, 0, FILE_HEADER_LENGTH, disk, opts);
    assert NOTHING.disks + [g, g] == [g, g];
    CollectRun(c, p1, 0, 0, opts, cross, true, addr, one);
    RT.CollectSecsSplit(c, NOTHING, 0, 0, FILE_HEADER_LENGTH, FrontSections(c, disk, opts),
                        RunSections(c, opts, cross, true, addr, one));
    assert [] + RunHomes(c, 0, 0, opts, cross, true, addr, one) == RunHomes(c, 0, 0, opts, cross, true, addr, one);
    assert [] + RunTablesAt(c, 0, 0, opts, cross, true, addr, one) ==
        RunTablesAt(c, 0, 0, opts, cross, true, addr, one);
  }

  /** One file of the two: its walk, and what collecting the walk adds. */
  lemma FileVisited(c: Codec, image: bytes, p: Collected, k: nat, start: nat, number: nat, ss: seq<Sec>)
    requires Named(ss) && AllOrdinary(ss) && RT.Filled(ss) && start + |FileBytes(c, number, ss)| < INT63
    requires Holds(image, start, FileBytes(c, number, ss)) && RT.CollectSecs(c, p, k, start, FILE_HEADER_LENGTH, ss).ok
    ensures WalkFrom(image, k, start, start + FILE_HEADER_LENGTH).ok
    ensures CollectAll(c, image, p, WalkFrom(image, k, start, start + FILE_HEADER_LENGTH).value) ==
            RT.CollectSecs(c, p, k, start, FILE_HEADER_LENGTH, ss)
  {
    hide WalkFrom, CollectAll, RT.CollectSecs, Holds, Chain, AllOrdinary, RT.Filled, Placed;
    FileSizes(c, number, ss);
    RT.WalkFile(c, image, k, start, number, ss);
    RT.CollectVisited(c, image, p, k, start, ss);
  }

  lemma FileSizes(c: Codec, number: nat, ss: seq<Sec>)
    requires Named(ss)
    ensures FILE_HEADER_LENGTH + SecsSize(ss) <= |FileBytes(c, number, ss)|
  {
  }

  lemma CollectBothFiles(c: Codec, disk: bytes, opts: Options, cross: bool)
    requires Lawful(c) && SegmentsExpressible(c, disk, opts, cross)
    ensures var files, g := SegmentFiles(c, disk, opts, cross), RT.DiskGeometry(disk, opts);
            var image := files[0] + files[1];
            var w := WalkSegments(image, Pair(files[0], files[1]), 0);
            && w.ok
            && CollectAll(c, image, NOTHING, w.value) ==
               Progress(Collected([g, g], Homes2(c, disk, opts, cross), TablesAt2(c, disk, opts, cross), [], []), true)
  {
    hide WalkFrom, WalkSegments, CollectAll, RT.CollectSecs, Holds, AllOrdinary, RT.Filled, FirstSections, RunSections,
         RunHomes, RunTablesAt,
         RT.DiskGeometry, FirstRun, SecondRun, FileBytes, RT.BodyAddress, RT.OffsetsFit, CollectOne, ChunkCount;
    var files, g := SegmentFiles(c, disk, opts, cross), RT.DiskGeometry(disk, opts);
    var image, start := files[0] + files[1], |files[0]|;
    PairJoined(files[0], files[1]);
    FirstPlain(c, disk, opts, cross);
    CollectFirstFile(c, disk, opts, cross);
    FileVisited(c, image, NOTHING, 0, 0, 1, FirstSections(c, disk, opts, cross));
    var p1 := RT.CollectSecs(c, NOTHING, 0, 0, FILE_HEADER_LENGTH, FirstSections(c, disk, opts, cross)).value;
    RunPlain(c, opts, cross, false, FILE_HEADER_LENGTH, SecondRun(c, disk, opts, cross));
    CollectRun(c, p1, 1, start, opts, cross, false, FILE_HEADER_LENGTH, SecondRun(c, disk, opts, cross));
    FileVisited(c, image, p1, 1, start, 2, SecondSections(c, disk, opts, cross));
    WalkBoth(image, files[0], files[1]);
    CollectSplit(c, image, NOTHING, WalkFrom(image, 0, 0, FILE_HEADER_LENGTH).value,
                 WalkFrom(image, 1, start, start + FILE_HEADER_LENGTH).value);
  }

  lemma RunsHeld(c: Codec, disk: bytes, opts: Options, cross: bool)
    ensures var files, addr := SegmentFiles(c, disk, opts, cross), RT.BodyAddress(c, disk, opts);
            var image := files[0] + files[1];
            var first := RunSections(c, opts, cross, true, addr, FirstRun(c, disk, opts, cross));
            var second := RunSections(c, opts, cross, false, FILE_HEADER_LENGTH, SecondRun(c, disk, opts, cross));
            && Holds(image, addr, SecsBytes(c, addr, first)) && addr + SecsSize(first) <= |files[0]|
            && Holds(image, |files[0]| + FILE_HEADER_LENGTH, SecsBytes(c, FILE_HEADER_LENGTH, second))
            && FILE_HEADER_LENGTH + SecsSize(second) <= |files[1]|
  {
    hide Holds, SecsBytes, FrontSections, RunSections, FirstRun, SecondRun, SecsSize, FileBytes, Chain;
    var files, addr := SegmentFiles(c, disk, opts, cross), RT.BodyAddress(c, disk, opts);
    var front, ss, ss' := FrontSections(c, disk, opts), FirstSections(c, disk, opts, cross),
        SecondSections(c, disk, opts, cross);
    var first := RunSections(c, opts, cross, true, addr, FirstRun(c, disk, opts, cross));
    PairJoined(files[0], files[1]);
    FileSizes(c, 1, ss);
    FileSizes(c, 2, ss');
    RT.FileShape(c, 1, ss);
    RT.FileShape(c, 2, ss');
    RT.SecsBytesSplit(c, FILE_HEADER_LENGTH, front, first);
    HoldsPrefix(files[0], FILE_HEADER_LENGTH, SecsBytes(c, FILE_HEADER_LENGTH, front), SecsBytes(c, addr, first));
    RT.SecsBytesLength(c, FILE_HEADER_LENGTH, front);
    RT.PartHeld(files[0] + files[1], 0, files[0], addr, SecsBytes(c, addr, first));
    RT.PartHeld(files[0] + files[1], |files[0]|, files[1], FILE_HEADER_LENGTH, SecsBytes(c, FILE_HEADER_LENGTH, ss'));
  }

  lemma ServeJoin(segs: seq<Segment>, image: bytes, mode: CompressMode, ts: seq<ChunkTable>, gs: seq<seq<bytes>>,
                  ts': seq<ChunkTable>, gs': seq<seq<bytes>>)
    requires RT.AllServe(segs, image, ts, mode, gs) && RT.AllServe(segs, image, ts', mode, gs')
    ensures RT.AllServe(segs, image, ts + ts', mode, gs + gs')
  {
    hide RT.Serves;
  }

  function Groups2(c: Codec, disk: bytes, opts: Options, cross: bool): seq<seq<bytes>> {
    RunGroups(cross, FirstRun(c, disk, opts, cross)) + RunGroups(cross, SecondRun(c, disk, opts, cross))
  }

  /** The tables of both files, paired, serve all chunks: each rebased by its own segment. */
  lemma BothParsed(c: Codec, disk: bytes, opts: Options, cross: bool)
    requires SegmentsExpressible(c, disk, opts, cross)
    ensures var files := SegmentFiles(c, disk, opts, cross);
            var image, segs := files[0] + files[1], Pair(files[0], files[1]);
            && PairTables(image, Homes2(c, disk, opts, cross), TablesAt2(c, disk, opts, cross)) ==
               Progress(Tables2(c, disk, opts, cross), true)
            && RT.AllServe(segs, image, Tables2(c, disk, opts, cross), SegmentMode(opts, cross),
                           Groups2(c, disk, opts, cross))
            && Tables2(c, disk, opts, cross) != []
  {
    hide Holds, RunSections, FirstRun, SecondRun, SecsSize, SecsBytes, RT.AllServe, RT.OffsetsFit, RunHomes,
         RunTablesAt, RunTables,
         ParsesTo, PairTables, RunGroups, SegmentFiles, SegmentMode, ChunkCount;
    var files, addr := SegmentFiles(c, disk, opts, cross), RT.BodyAddress(c, disk, opts);
    var image, segs, start := files[0] + files[1], Pair(files[0], files[1]), |files[0]|;
    var one, rest := FirstRun(c, disk, opts, cross), SecondRun(c, disk, opts, cross);
    RunsHeld(c, disk, opts, cross);
    RunsNotEmpty(c, disk, opts, cross);
    RunParsed(c, segs, image, 0, opts, cross, true, addr, one);
    RunParsed(c, segs, image, 1, opts, cross, false, FILE_HEADER_LENGTH, rest);
    ServeJoin(segs, image, SegmentMode(opts, cross), RunTables(c, 0, 0, opts, cross, true, addr, one),
              RunGroups(cross, one),
              RunTables(c, 1, start, opts, cross, false, FILE_HEADER_LENGTH, rest), RunGroups(cross, rest));
    var t, t' := RunTablesAt(c, 0, 0, opts, cross, true, addr, one),
        RunTablesAt(c, 1, start, opts, cross, false, FILE_HEADER_LENGTH, rest);
    var h, h' := RunHomes(c, 0, 0, opts, cross, true, addr, one),
        RunHomes(c, 1, start, opts, cross, false, FILE_HEADER_LENGTH, rest);
    ParsesSplit(image, if cross then t else h, t, RunTables(c, 0, 0, opts, cross, true, addr, one),
                if cross then t' else h', t', RunTables(c, 1, start, opts, cross, false, FILE_HEADER_LENGTH, rest));
    RunSizes(c, 0, 0, opts, cross, true, addr, one);
    RunSizes(c, 1, start, opts, cross, false, FILE_HEADER_LENGTH, rest);
    PairingOf(image, h + h', t + t', Tables2(c, disk, opts, cross), cross);
  }

  lemma RunsNotEmpty(c: Codec, disk: bytes, opts: Options, cross: bool)
    requires ChunkCount(disk, ChunkBytesOf(opts)) >= 2
    ensures FirstRun(c, disk, opts, cross) != [] && SecondRun(c, disk, opts, cross) != []
  {
  }

  lemma RunSizes(c: Codec, k: nat, start: nat, opts: Options, cross: bool, mirror: bool, addr: nat, stored: seq<bytes>)
    requires stored != []
    ensures RunTablesAt(c, k, start, opts, cross, mirror, addr, stored) != []
    ensures RunTables(c, k, start, opts, cross, mirror, addr, stored) != []
    ensures (RunHomes(c, k, start, opts, cross, mirror, addr, stored) == []) == cross
  {
  }

  lemma PairingOf(image: bytes, homes: seq<SectionAt>, tables: seq<SectionAt>, ts: seq<ChunkTable>, alone: bool)
    requires tables != [] && (homes == []) == alone && ParsesTo(image, if alone then tables else homes, tables, ts)
    ensures PairTables(image, homes, tables) == Progress(ts, true)
  {
  }

  // ------------------------------------------------------------ the round trip

  function Ones(n: nat): (r: seq<nat>)
    ensures |r| == n && Sum(r) == n
  {
    if n == 0 then [] else [1] + Ones(n - 1)
  }

  lemma {:induction false} SinglesSplit(stored: seq<bytes>)
    ensures Split(stored, Ones(|stored|)) == Singles(stored)
  {
    if stored != [] {
      assert Ones(|stored|)[1..] == Ones(|stored| - 1);
      SinglesSplit(stored[1..]);
    }
  }

  function SegmentCounts(n: nat, cross: bool): (r: seq<nat>)
    requires n >= 2
    ensures Sum(r) == n
  {
    var two := [1, n - 1];
    assert two[1..] == [n - 1] && [n - 1][1..] == [];
    assert Sum([n - 1]) == n - 1;
    if cross then Ones(n) else two
  }

  lemma GroupsOfStored(c: Codec, disk: bytes, opts: Options, cross: bool)
    requires ChunkCount(disk, ChunkBytesOf(opts)) >= 2
    ensures var stored := SegmentStored(c, disk, opts, cross);
            |stored| >= 2 && Groups2(c, disk, opts, cross) == Split(stored, SegmentCounts(|stored|, cross))
  {
    hide ChunkCount, Singles, Split, Ones;
    var stored := SegmentStored(c, disk, opts, cross);
    if cross { SinglesOfBoth(stored); } else { SplitInTwo(stored); }
  }

  lemma SinglesOfBoth(stored: seq<bytes>)
    requires |stored| >= 2
    ensures Singles(stored[..1]) + Singles(stored[1..]) == Split(stored, Ones(|stored|))
  {
    hide Split, Ones;
    SinglesSplit(stored);
    OneSingle(stored[..1]);
  }

  lemma OneSingle(one: seq<bytes>)
    requires |one| == 1
    ensures Singles(one) == [one]
  {
    assert one[1..] == [] && one[..1] == one;
  }

  lemma SplitInTwo(stored: seq<bytes>)
    requires |stored| >= 2
    ensures Sum([1, |stored| - 1]) == |stored| && Split(stored, [1, |stored| - 1]) == [stored[..1], stored[1..]]
  {
    var n := |stored| - 1;
    var counts, last, rest := [1, n], [n], stored[1..];
    assert counts[1..] == last && last[1..] == [];
    assert rest[..n] == rest && rest[n..] == [];
    assert Split(rest, last) == [rest] + Split([], []);
    assert Split(stored, counts) == [stored[..1]] + Split(rest, last);
  }

  /** What the two files parse to. */
  lemma SegmentsParsed(c: Codec, disk: bytes, opts: Options, cross: bool)
    requires Lawful(c) && SegmentsExpressible(c, disk, opts, cross)
    ensures var files, g := SegmentFiles(c, disk, opts, cross), RT.DiskGeometry(disk, opts);
            ParseImage(c, Pair(files[0], files[1])) == Some(Parsed([g, g], Tables2(c, disk, opts, cross), [], []))
    ensures Tables2(c, disk, opts, cross) != [] && disk != []
  {
    hide CollectAll, WalkSegments, SegmentFiles, SegmentMode, Tables2, Homes2, TablesAt2, PairTables, Lawful,
         RT.DiskGeometry,
         RT.OffsetsFit, Groups2, RT.AllServe;
    var files := SegmentFiles(c, disk, opts, cross);
    PairJoined(files[0], files[1]);
    CollectBothFiles(c, disk, opts, cross);
    BothParsed(c, disk, opts, cross);
    NotEmptyDisk(disk, ChunkBytesOf(opts));
  }

  /**
   * The two-file round trip: the files parse, and every request reads the disk's own bytes unless
   * it touches an unreadable chunk.
   */
  lemma SegmentsRoundTrip(c: Codec, disk: bytes, opts: Options, cross: bool, start: nat, n: nat)
    requires Lawful(c) && SegmentsExpressible(c, disk, opts, cross) && |disk| % SECTOR_SIZE == 0
    ensures var files := SegmentFiles(c, disk, opts, cross);
            var segs := Pair(files[0], files[1]);
            match ParseImage(c, segs)
            case None => false
            case Some(p) =>
              ReadsDisk(c, disk, EffectiveChunkSectors(opts), SegmentMode(opts, cross), false, start, n,
                        ReadSectors(c, segs, p.disks, p.tables, start, n))
  {
    hide ParseImage, SegmentFiles, SegmentMode, Tables2, ReadsDisk, ReadSectors, Lawful, SegmentsExpressible,
         RT.DiskGeometry,
         LayoutOf, TablesOfDisk;
    var files, g := SegmentFiles(c, disk, opts, cross), RT.DiskGeometry(disk, opts);
    var segs, tables := Pair(files[0], files[1]), Tables2(c, disk, opts, cross);
    SegmentsParsed(c, disk, opts, cross);
    SegmentTablesOfDisk(c, disk, opts, cross);
    ReadsOfDisk(c, segs, [g, g], tables, disk, EffectiveChunkSectors(opts), SegmentMode(opts, cross), false, start, n);
  }

  lemma SegmentTablesOfDisk(c: Codec, disk: bytes, opts: Options, cross: bool)
    requires SegmentsExpressible(c, disk, opts, cross) && |disk| % SECTOR_SIZE == 0
    ensures var files, g := SegmentFiles(c, disk, opts, cross), RT.DiskGeometry(disk, opts);
            var l := LayoutOf([g, g], Tables2(c, disk, opts, cross));
            && l.cs == EffectiveChunkSectors(opts)
            && TablesOfDisk(c, Pair(files[0], files[1]), Tables2(c, disk, opts, cross), l, disk,
                            SegmentMode(opts, cross), false)
  {
    hide SegmentFiles, SegmentMode, Tables2, LayoutOf, RT.AllServe, ChunkCount, Split, Sum, SegmentCounts,
         StoredChunks, Groups2, RT.OffsetsFit, Counts;
    var files, g := SegmentFiles(c, disk, opts, cross), RT.DiskGeometry(disk, opts);
    var tables, stored := Tables2(c, disk, opts, cross), SegmentStored(c, disk, opts, cross);
    PairJoined(files[0], files[1]);
    BothParsed(c, disk, opts, cross);
    GroupsOfStored(c, disk, opts, cross);
    CountsOfGroups(Pair(files[0], files[1]), files[0] + files[1], tables, SegmentMode(opts, cross), stored,
                   SegmentCounts(|stored|, cross));
    NotEmptyDisk(disk, ChunkBytesOf(opts));
    GeometryOfDisk([g, g], tables, disk, EffectiveChunkSectors(opts));
  }

  lemma NotEmptyDisk(disk: bytes, cb: nat)
    requires cb > 0 && ChunkCount(disk, cb) >= 2
    ensures disk != []
  {
    ChunkInDisk(disk, cb, 1);
  }
}

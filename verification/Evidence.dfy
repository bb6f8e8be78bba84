/** The integrity promise end to end: what was wrapped is what is hashed. */
module Evidence {
  import opened Bytes
  import opened Codec
  import opened Segments
  import opened Sections
  import opened Planner
  import opened SectorRead
  import opened Fixture
  import RT = RoundTrip
  import opened ReadBack
  import opened TwoSegments
  import opened Media
  import opened Nbd

  /** The disk, or the first sector of an unreadable chunk: nothing else can come out of hashing. */
  ghost predicate HashesDisk(c: Codec, disk: bytes, cs: nat, mode: CompressMode, short: bool,
                             r: Result<bytes, ReadError>)
    requires cs > 0
  {
    if cs > MAX_CHUNK_BYTES / SECTOR_SIZE then r == Err(BadGeometry)
    else
      match r
      case Ok(b) => b == disk && AllReadable(c, disk, cs * SECTOR_SIZE, mode, short)
      case Err(BadChunk(s)) => Unreadable(c, disk, cs, mode, short, s)
      case Err(_) => false
  }

  lemma StreamOfDisk(c: Codec, segs: seq<Segment>, disks: seq<DiskSMART>, tables: seq<ChunkTable>, disk: bytes, cs: nat,
                     mode: CompressMode, short: bool)
    requires Lawful(c) && tables != [] && TablesOfDisk(c, segs, tables, LayoutOf(disks, tables), disk, mode, short)
    requires LayoutOf(disks, tables).cs == cs && disk != [] && MediaSectors(disks) == |disk| / SECTOR_SIZE
    ensures cs > 0 && HashesDisk(c, disk, cs, mode, short, MediaStream(c, segs, disks, tables))
  {
    hide DecodedChunks, RT.AllServe, ChunkCount, Lawful, FirstBad, LayoutOf, MediaBytes, DiskBytes, TouchesReadable,
         AllReadable, Unreadable;
    var l, total := LayoutOf(disks, tables), |disk| / SECTOR_SIZE;
    RangeOfDisk(c, segs, tables, l, disk, mode, short, 0, total);
    WholeDiskTouched(c, disk, cs, mode, short);
    DiskBytesWhole(disk);
    CoverageEnd(l, disk);
  }

  /** The chunks cover the whole disk, and there is at least one sector. */
  lemma CoverageEnd(l: Layout, disk: bytes)
    requires l.Valid() && l.ss == SECTOR_SIZE && Sum(l.counts) == ChunkCount(disk, l.ChunkBytes())
    requires disk != [] && |disk| % SECTOR_SIZE == 0
    ensures 0 < |disk| / SECTOR_SIZE <= l.TotalSectors()
    ensures (|disk| / SECTOR_SIZE - 1) / VERIFY_SECTORS * VERIFY_SECTORS < l.TotalSectors()
  {
    var n, cb, total := Sum(l.counts), l.ChunkBytes(), |disk| / SECTOR_SIZE;
    assert |disk| + cb - 1 == n * cb + (|disk| + cb - 1) % cb;
    MulAssoc(n, l.cs, SECTOR_SIZE);
  }

  /** Hash verification of a wrapped disk hashes exactly that disk, or reports an unreadable chunk. */
  lemma WrappedDiskIsHashed(c: Codec, disk: bytes, opts: Options)
    requires Lawful(c) && RT.Expressible(c, disk, opts) && |disk| % SECTOR_SIZE == 0
    ensures var segs := RT.Single(WrapBytes(c, disk, opts));
            match ParseImage(c, segs)
            case None => Unlisted(disk, opts)
            case Some(p) => HashesDisk(c, disk, EffectiveChunkSectors(opts), opts.compress, opts.shortFinalChunk,
                                       MediaStream(c, segs, p.disks, p.tables))
  {
    hide RT.AllServe, RT.WrapTables, LayoutOf, ParseImage, RT.StoredHashes, MediaStream, HashesDisk, WrapBytes,
         RT.Expressible, Lawful,
         TablesOfDisk;
    ParseWrapped(c, disk, opts);
    if !Unlisted(disk, opts) {
      var g := RT.DiskGeometry(disk, opts);
      WrapTablesOfDisk(c, disk, opts);
      StreamOfDisk(c, RT.Single(WrapBytes(c, disk, opts)), [g, g], RT.WrapTables(c, disk, opts), disk,
                   EffectiveChunkSectors(opts),
                   opts.compress, opts.shortFinalChunk);
    }
  }

  /** The same over two segment files. */
  lemma SegmentsAreHashed(c: Codec, disk: bytes, opts: Options, cross: bool)
    requires Lawful(c) && SegmentsExpressible(c, disk, opts, cross) && |disk| % SECTOR_SIZE == 0
    ensures var files := SegmentFiles(c, disk, opts, cross);
            var segs := Pair(files[0], files[1]);
            match ParseImage(c, segs)
            case None => false
            case Some(p) => HashesDisk(c, disk, EffectiveChunkSectors(opts), SegmentMode(opts, cross), false,
                                       MediaStream(c, segs, p.disks, p.tables))
  {
    hide ParseImage, SegmentFiles, SegmentMode, Tables2, LayoutOf, MediaStream, HashesDisk, Lawful,
         SegmentsExpressible, TablesOfDisk, ReadsDisk, ReadSectors;
    SegmentsParsed(c, disk, opts, cross);
    SegmentTablesOfDisk(c, disk, opts, cross);
    var files, g := SegmentFiles(c, disk, opts, cross), RT.DiskGeometry(disk, opts);
    StreamOfDisk(c, Pair(files[0], files[1]), [g, g], Tables2(c, disk, opts, cross), disk, EffectiveChunkSectors(opts),
                 SegmentMode(opts, cross), false);
  }

  /**
   * Verification of a wrapped disk whose chunks are readable: the hashes computed are the disk's, and a stored
   * hash matches exactly when it is that one.
   */
  lemma IntegrityVerified(c: Codec, disk: bytes, opts: Options, md5: bytes -> bytes, sha1: bytes -> bytes)
    requires Lawful(c) && RT.Expressible(c, disk, opts) && |disk| % SECTOR_SIZE == 0 && !Unlisted(disk, opts)
    requires opts.md5Hash.Some? && |opts.md5Hash.value| == 16 && opts.sha1Hash.Some? && |opts.sha1Hash.value| == 20
    requires AllReadable(c, disk, ChunkBytesOf(opts), opts.compress, opts.shortFinalChunk)
    requires EffectiveChunkSectors(opts) <= MAX_CHUNK_BYTES / SECTOR_SIZE
    ensures var segs := RT.Single(WrapBytes(c, disk, opts));
            match ParseImage(c, segs)
            case None => false
            case Some(p) =>
              match MediaStream(c, segs, p.disks, p.tables)
              case Err(_) => false
              case Ok(b) =>
                var r := HashOf(md5, sha1, p.md5, p.sha1, b);
                && r.bytesHashed == |disk| && r.computedMD5 == md5(disk) && r.computedSHA1 == sha1(disk)
                && (r.md5Match <==> opts.md5Hash.value == md5(disk))
                && (r.sha1Match <==> opts.sha1Hash.value == sha1(disk))
  {
    hide RT.AllServe, RT.WrapTables, ParseImage, MediaStream, WrapBytes, RT.Expressible, Lawful, RT.StoredHashes,
         Readable;
    ParseWrapped(c, disk, opts);
    WrappedDiskIsHashed(c, disk, opts);
    HashesReadBack(opts);
  }

  // ------------------------------------------------------------ serving the disk over NBD

  lemma DiskSlice(disk: bytes, first: nat, count: nat, off: nat, n: nat)
    requires first * 512 <= off && off + n <= |disk| && off - first * 512 + n <= count * 512
    ensures DiskBytes(disk, first * 512, count * 512)[off - first * 512..off - first * 512 + n] == disk[off..off + n]
  {
  }

  /** A range of the disk is served exactly, or not at all when it touches an unreadable chunk. */
  lemma RangeServed(c: Codec, segs: seq<Segment>, disks: seq<DiskSMART>, tables: seq<ChunkTable>, disk: bytes, cs: nat,
                    mode: CompressMode, short: bool, off: nat, n: nat)
    requires Lawful(c) && tables != [] && TablesOfDisk(c, segs, tables, LayoutOf(disks, tables), disk, mode, short)
    requires LayoutOf(disks, tables).cs == cs && 0 < cs <= MAX_CHUNK_BYTES / SECTOR_SIZE && ExportSize(disks) == |disk|
    requires 0 < n <= MAX_READ_LENGTH && off + n <= |disk|
    ensures var cover := Cover(SECTOR_SIZE, off, n);
            MediaRange(c, segs, disks, tables, off, n) ==
            if TouchesReadable(c, disk, cs, mode, short, cover.0, cover.0 + cover.1) then Some(disk[off..off + n])
            else None
  {
    hide DecodedChunks, RT.AllServe, ChunkCount, Lawful, LayoutOf, MediaBytes, DiskBytes, Readable, FirstBad,
         ExportSize;
    var l, cover := LayoutOf(disks, tables), Cover(SECTOR_SIZE, off, n);
    CoverageEnd(l, disk);
    CoverCount(SECTOR_SIZE, off, n);
    RangeOfDisk(c, segs, tables, l, disk, mode, short, cover.0, cover.1);
    CoveredBytes(c, segs, disks, tables, off, n);
    CoverInside(disk, off, n, l.TotalSectors());
    DiskSlice(disk, cover.0, cover.1, off, n);
  }

  lemma CoverInside(disk: bytes, off: nat, n: nat, total: nat)
    requires 0 < n <= MAX_READ_LENGTH && off + n <= |disk| && |disk| % SECTOR_SIZE == 0 && |disk| / SECTOR_SIZE <= total
    ensures Cover(SECTOR_SIZE, off, n).0 < total && Cover(SECTOR_SIZE, off, n).1 <= MAX_READ_BYTES / SECTOR_SIZE
  {
  }

  /** What a request over a disk is owed, told from the disk and from which of its chunks can be read. */
  ghost function DiskAnswer(c: Codec, disk: bytes, opts: Options, q: Request): Reply {
    if q.typ == CMD_READ then ReadAnswer(c, disk, opts, q)
    else if q.typ in {CMD_WRITE, CMD_TRIM, CMD_WRITE_ZEROES} then Reply(EPERM, q.handle, [])
    else Reply(if q.typ == CMD_FLUSH then 0 else EINVAL, q.handle, [])
  }

  ghost function ReadAnswer(c: Codec, disk: bytes, opts: Options, q: Request): Reply {
    if q.offset + q.length > |disk| || q.length > MAX_READ_LENGTH then Reply(EINVAL, q.handle, [])
    else if q.length == 0 then Reply(0, q.handle, [])
    else
      var cover := Cover(SECTOR_SIZE, q.offset, q.length);
      if TouchesReadable(c, disk, EffectiveChunkSectors(opts), opts.compress, opts.shortFinalChunk,
                         cover.0, cover.0 + cover.1)
      then Reply(0, q.handle, disk[q.offset..q.offset + q.length])
      else Reply(EIO, q.handle, [])
  }

  /** What an NBD request over a wrapped disk is answered with. */
  lemma WrappedDiskIsServed(c: Codec, disk: bytes, opts: Options, q: Request)
    requires Lawful(c) && RT.Expressible(c, disk, opts) && |disk| % SECTOR_SIZE == 0 && !Unlisted(disk, opts)
    requires EffectiveChunkSectors(opts) <= MAX_CHUNK_BYTES / SECTOR_SIZE
    ensures var segs := RT.Single(WrapBytes(c, disk, opts));
            match ParseImage(c, segs)
            case None => false
            case Some(p) => Answer(ImageExport(c, segs, p.disks, p.tables), q) == DiskAnswer(c, disk, opts, q)
  {
    hide RT.AllServe, RT.WrapTables, LayoutOf, ParseImage, RT.StoredHashes, MediaRange, WrapBytes, Lawful,
         TablesOfDisk, TouchesReadable,
         RT.GroupsFit, RT.OffsetsFit;
    ParseWrapped(c, disk, opts);
    WrapTablesOfDisk(c, disk, opts);
    var f, g, tables := WrapBytes(c, disk, opts), RT.DiskGeometry(disk, opts), RT.WrapTables(c, disk, opts);
    assert ExportSize([g, g]) == |disk|;
    if q.offset + q.length <= |disk| && 0 < q.length <= MAX_READ_LENGTH {
      RangeServed(c, RT.Single(f), [g, g], tables, disk, EffectiveChunkSectors(opts), opts.compress,
                  opts.shortFinalChunk, q.offset, q.length);
    }
  }

  ghost function DiskAnswers(c: Codec, disk: bytes, opts: Options, qs: seq<Request>): (rs: seq<Reply>)
    ensures |rs| == |qs|
  {
    seq(|qs|, i requires 0 <= i < |qs| => DiskAnswer(c, disk, opts, qs[i]))
  }

  /** The image parses, and from what is written for these requests a client reads these replies and nothing more. */
  ghost predicate ClientRecovers(c: Codec, segs: seq<Segment>, qs: seq<Request>, rs: seq<Reply>) {
    match ParseImage(c, segs)
    case None => false
    case Some(p) =>
      ClientReads(qs, EncodeReplies(Answers(ImageExport(c, segs, p.disks, p.tables), qs))) == Some((rs, []))
  }

  /**
   * A whole session over a wrapped disk, whatever the client sends: from what is written for the requests of
   * its one session the client recovers, in order, the disk's bytes of every range it asked for or an error,
   * and the status of every other request.
   */
  lemma WrappedDiskSession(c: Codec, disk: bytes, opts: Options, input: bytes)
    requires Lawful(c) && RT.Expressible(c, disk, opts) && |disk| % SECTOR_SIZE == 0 && !Unlisted(disk, opts)
    requires EffectiveChunkSectors(opts) <= MAX_CHUNK_BYTES / SECTOR_SIZE
    ensures forall s :: IsSession(input, s) ==>
              ClientRecovers(c, RT.Single(WrapBytes(c, disk, opts)), s.requests, DiskAnswers(c, disk, opts, s.requests))
  {
    hide RT.Expressible, ParseImage, WrapBytes, Lawful, ImageExport, Answer, DiskAnswer, ClientReads, EncodeReplies,
         IsSession, Exact, SessionOf;
    var segs := RT.Single(WrapBytes(c, disk, opts));
    ParseWrapped(c, disk, opts);
    var p := ParseImage(c, segs).value;
    var x := ImageExport(c, segs, p.disks, p.tables);
    ImageExportExact(c, segs, p.disks, p.tables);
    forall s | IsSession(input, s) ensures ClientRecovers(c, segs, s.requests, DiskAnswers(c, disk, opts, s.requests)) {
      SessionHandles(input, s);
      var qs := s.requests;
      forall i | 0 <= i < |qs| ensures Answer(x, qs[i]) == DiskAnswer(c, disk, opts, qs[i]) {
        WrappedDiskIsServed(c, disk, opts, qs[i]);
      }
      ClientRecoversAnswers(x, qs, []);
      assert EncodeReplies(Answers(x, qs)) + [] == EncodeReplies(Answers(x, qs));
      assert Answers(x, qs) == DiskAnswers(c, disk, opts, qs);
    }
  }

  lemma SessionHandles(input: bytes, s: Session)
    requires IsSession(input, s)
    ensures forall i :: 0 <= i < |s.requests| ==> |s.requests[i].handle| == 8
  {
    hide Frame, DecodeRequest;
    forall i | 0 <= i < |s.requests| ensures |s.requests[i].handle| == 8 {
      assert DecodeRequest(Frame(input, i)) == Some(s.requests[i]);
    }
  }
}

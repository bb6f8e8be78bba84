/**
 * Consumers of the whole media: hash verification (read.go) and byte reads of an exported image
 * (nbd/export.go).
 */
module Media {
  import opened Bytes
  import opened Codec
  import opened Segments
  import opened Sections
  import opened Planner
  import opened SectorRead
  import opened Image

  const VERIFY_SECTORS: nat := 4096

  /** TotalSectors and SectorSize as the public accessors report them. */
  function MediaSectors(disks: seq<DiskSMART>): nat { if disks == [] then 0 else disks[0].sectorsCount }

  function ReportedSectorSize(disks: seq<DiskSMART>): nat {
    if disks == [] then DEFAULT_SECTOR_SIZE else disks[0].sectorBytes
  }

  // ------------------------------------------------------------ VerifyImageHash

  /**
   * What is hashed: every media byte once and in order, or the error that stops the stream.  A
   * media longer than the chunks cover is hashed as zeros only inside the last read that starts
   * on covered sectors.
   */
  function MediaStream(c: Codec, segs: seq<Segment>, disks: seq<DiskSMART>,
                       tables: seq<ChunkTable>): Result<bytes, ReadError> {
    var l, total := LayoutOf(disks, tables), MediaSectors(disks);
    if total == 0 then Ok([])
    else if tables == [] then Err(NoSectors)
    else if l.cs > MAX_CHUNK_BYTES / l.ss then Err(BadGeometry)
    else if l.TotalSectors() == 0 then Err(BeyondEnd)
    else if Min(total, VERIFY_SECTORS) > MAX_READ_BYTES / l.ss then Err(TooLarge)
    else
      var chunks := DecodedChunks(c, segs, tables, l);
      match FirstBad(l, chunks, total, 0)
      case Some(s) => Err(BadChunk(s))
      case None =>
        if (total - 1) / VERIFY_SECTORS * VERIFY_SECTORS >= l.TotalSectors() then Err(BeyondEnd)
        else Ok(FirstSectors(l, chunks, total))
  }

  /** The bytes of the first n sectors. */
  function FirstSectors(l: Layout, chunks: Chunks, n: nat): bytes
    requires l.Valid()
  {
    MediaBytes(l.ChunkBytes(), chunks, 0, n * l.ss)
  }

  datatype HashResult = HashResult(computedMD5: bytes, computedSHA1: bytes, md5Match: bool, sha1Match: bool,
                                   bytesHashed: nat)

  /** The result for a stream that was read to its end. */
  function HashOf(md5: bytes -> bytes, sha1: bytes -> bytes, storedMD5: bytes, storedSHA1: bytes,
                  stream: bytes): HashResult {
    HashResult(md5(stream), sha1(stream),
               |storedMD5| == 16 && storedMD5 == md5(stream), |storedSHA1| == 20
                   && storedSHA1 == sha1(stream), |stream|)
  }

  /** Where the stream stands before sector lba. */
  ghost predicate StreamedTo(l: Layout, chunks: Chunks, total: nat, lba: nat, fed: bytes)
    requires l.Valid() && |chunks| == l.Chunks()
  {
    && lba <= total && (lba == total || lba % VERIFY_SECTORS == 0)
    && FirstBad(l, chunks, lba, 0) == None
    && fed == FirstSectors(l, chunks, lba)
  }

  /** One successful read extends the stream. */
  lemma StreamStep(l: Layout, chunks: Chunks, total: nat, lba: nat, n: nat, fed: bytes)
    requires l.Valid() && |chunks| == l.Chunks() && StreamedTo(l, chunks, total, lba, fed)
    requires lba < total && n == Min(total - lba, VERIFY_SECTORS)
    ensures match ReadRange(l, chunks, lba, n)
            case Err(s) => FirstBad(l, chunks, total, 0) == Some(s)
            case Ok(b) => StreamedTo(l, chunks, total, lba + n, fed + b)
  {
    hide FirstBad, MediaBytes;
    AdjacentReads(l, chunks, 0, lba, n);
    FirstBadSplit(l, chunks, 0, lba, lba + n);
    FirstBadSplit(l, chunks, 0, lba + n, total);
  }

  /** The last read starts at the last multiple of the block size. */
  lemma LastBlock(total: nat, lba: nat)
    requires lba < total && lba % VERIFY_SECTORS == 0
    ensures lba <= (total - 1) / VERIFY_SECTORS * VERIFY_SECTORS
    ensures total - lba <= VERIFY_SECTORS ==> (total - 1) / VERIFY_SECTORS * VERIFY_SECTORS == lba
  {
  }

  /** No chunk is looked at past the coverage. */
  lemma {:induction false} NothingBadBeyond(l: Layout, chunks: Chunks, end: nat, cur: nat)
    requires l.Valid() && |chunks| == l.Chunks() && cur >= l.TotalSectors()
    ensures FirstBad(l, chunks, end, cur) == None
  {
  }

  /** Streams the whole media through the sector read path and compares the hashes with the stored ones. */
  method VerifyImageHash(e: EWFImage, md5: bytes -> bytes, sha1: bytes -> bytes, gomaxprocs: int)
    returns (r: Result<HashResult, ReadError>)
    requires e.Ready(e.AllDecoded())
    modifies e.CacheRepr()
    ensures e.Ready(e.AllDecoded())
    ensures r == match MediaStream(e.codec, e.segments, e.disks, e.sectors)
                 case Err(x) => Err(x)
                 case Ok(b) => Ok(HashOf(md5, sha1, e.storedMD5, e.storedSHA1, b))
  {
    hide DecodedChunks, MediaStream, LayoutOf, Streamed, ReadSectors, HashOf, EWFImage.Ready, EWFImage.AllDecoded;
    var total := MediaSectors(e.disks);
    var fed: bytes := [];
    var lba := 0;
    StreamStart(e.codec, e.segments, e.disks, e.sectors);
    e.ReadyOwns(e.AllDecoded());
    while lba < total
      invariant e.Ready(e.AllDecoded()) && (forall o :: o in e.CacheRepr() ==> o in old(e.CacheRepr()) || fresh(o))
      invariant e.disks == old(e.disks) && lba <= total && Streamed(e.codec, e.segments, e.disks, e.sectors, lba, fed)
    {
      var n := Min(total - lba, VERIFY_SECTORS);
      e.ReadyOwns(e.AllDecoded());
      var buf := e.ReadSectorData(lba, n, gomaxprocs);
      StreamGoes(e.codec, e.segments, e.disks, e.sectors, lba, n, fed);
      if buf.Err? { return Err(buf.error); }
      fed := fed + buf.value;
      lba := lba + n;
    }
    r := Ok(HashOf(md5, sha1, e.storedMD5, e.storedSHA1, fed));
    StreamEnds(e.codec, e.segments, e.disks, e.sectors, fed);
  }

  /** The image has readable geometry, and one read's worth of sectors is not too much. */
  predicate Streams(tables: seq<ChunkTable>, l: Layout, total: nat)
    requires l.Valid()
  {
    tables != [] && l.cs <= MAX_CHUNK_BYTES / l.ss && l.TotalSectors() > 0
        && Min(total, VERIFY_SECTORS) <= MAX_READ_BYTES / l.ss
  }

  /** Everything before sector lba was read and fed. */
  ghost predicate Streamed(c: Codec, segs: seq<Segment>, disks: seq<DiskSMART>, tables: seq<ChunkTable>, lba: nat,
                           fed: bytes) {
    var l, total := LayoutOf(disks, tables), MediaSectors(disks);
    && StreamedTo(l, DecodedChunks(c, segs, tables, l), total, lba, fed)
    && (lba > 0 ==> Streams(tables, l, total))
    && (lba == total > 0 ==> (total - 1) / VERIFY_SECTORS * VERIFY_SECTORS < l.TotalSectors())
  }

  lemma StreamStart(c: Codec, segs: seq<Segment>, disks: seq<DiskSMART>, tables: seq<ChunkTable>)
    ensures Streamed(c, segs, disks, tables, 0, [])
  {
  }

  /** A read extends the stream, or fails it with the same error. */
  lemma StreamGoes(c: Codec, segs: seq<Segment>, disks: seq<DiskSMART>, tables: seq<ChunkTable>, lba: nat, n: nat,
                   fed: bytes)
    requires lba < MediaSectors(disks) && n == Min(MediaSectors(disks) - lba, VERIFY_SECTORS)
    requires Streamed(c, segs, disks, tables, lba, fed)
    ensures match ReadSectors(c, segs, disks, tables, lba, n)
            case Ok(b) => Streamed(c, segs, disks, tables, lba + n, fed + b)
            case Err(x) => MediaStream(c, segs, disks, tables) == Err(x)
  {
    hide DecodedChunks, MediaBytes, FirstBad, LayoutOf;
    var l, total := LayoutOf(disks, tables), MediaSectors(disks);
    var chunks := DecodedChunks(c, segs, tables, l);
    LastBlock(total, lba);
    StreamStep(l, chunks, total, lba, n, fed);
    if lba >= l.TotalSectors() {
      NothingBadBeyond(l, chunks, total, lba);
      FirstBadSplit(l, chunks, 0, lba, total);
    }
  }

  lemma StreamEnds(c: Codec, segs: seq<Segment>, disks: seq<DiskSMART>, tables: seq<ChunkTable>, fed: bytes)
    requires Streamed(c, segs, disks, tables, MediaSectors(disks), fed)
    ensures MediaStream(c, segs, disks, tables) == Ok(fed)
  {
    hide DecodedChunks, FirstBad, LayoutOf;
  }

  // ------------------------------------------------------------ byte reads of the exported image

  datatype ExportError = NegativeOffset | EndOfExport | ReadFailed(error: ReadError)

  function ExportSize(disks: seq<DiskSMART>): nat { MediaSectors(disks) * ReportedSectorSize(disks) }

  /** The sectors that cover n > 0 bytes from byte off: the first one, and how many. */
  function Cover(ss: nat, off: nat, n: nat): (nat, nat)
    requires ss > 0 && n > 0
  {
    var first, last := off / ss, (off + n - 1) / ss;
    (first, if last >= first then last - first + 1 else 0)
  }

  /**
   * What a read into a buffer p gives: nothing outside the export, else as many bytes as the export
   * has, which are the media bytes at that offset, whatever its alignment; a short read says so.
   */
  ghost predicate ExportReads(c: Codec, segs: seq<Segment>, disks: seq<DiskSMART>, tables: seq<ChunkTable>,
                              p: bytes, off: int, n: nat, err: Option<ExportError>, after: bytes) {
    var l, size := LayoutOf(disks, tables), ExportSize(disks);
    if off < 0 then n == 0 && err == Some(NegativeOffset) && after == p
    else if off >= size then n == 0 && err == Some(EndOfExport) && after == p
    else if p == [] then n == 0 && err == None && after == p
    else
      var want := Min(|p|, size - off);
      var cover := Cover(l.ss, off, want);
      match ReadSectors(c, segs, disks, tables, cover.0, cover.1)
      case Err(x) => n == 0 && err == Some(ReadFailed(x)) && after == p
      case Ok(_) => n == want && err == (if want < |p| then Some(EndOfExport) else None)
                    && after == MediaBytes(l.ChunkBytes(), DecodedChunks(c, segs, tables, l), off, want) + p[want..]
  }

  /** Counting sectors by rounding up the span is counting from the first to the last one touched. */
  lemma CoverCount(ss: nat, off: nat, n: nat)
    requires ss > 0 && n > 0
    ensures var span := off % ss + n;
            var count := if span % ss != 0 then span / ss + 1 else span / ss;
            Cover(ss, off, n) == (off / ss, count) && span <= count * ss && off == off / ss * ss + off % ss
  {
    var first, span := off / ss, off % ss + n;
    var q, r := span / ss, span % ss;
    LastSector(ss, off, n, first, q, r);
    if r != 0 { MulAdd(q, 1, ss); }
  }

  /** The last sector touched, when the range spans q whole sectors and r bytes from the start of the first. */
  lemma LastSector(ss: nat, off: nat, n: nat, first: nat, q: nat, r: nat)
    requires ss > 0 && n > 0 && first == off / ss && q == (off % ss + n) / ss && r == (off % ss + n) % ss
    ensures off == first * ss + off % ss && off % ss + n == q * ss + r
    ensures (off + n - 1) / ss == if r != 0 then first + q else first + q - 1
  {
    assert off == first * ss + off % ss && off % ss + n == q * ss + r;
    LastOfSpan(ss, off + n, first, q, r);
  }

  lemma LastOfSpan(ss: nat, end: nat, first: nat, q: nat, r: nat)
    requires 0 < end == first * ss + q * ss + r && r < ss
    ensures (end - 1) / ss == if r != 0 then first + q else first + q - 1
  {
    MulAdd(first, q, ss);
    if r != 0 {
      DivModUnique(end - 1, ss, first + q, r - 1);
    } else {
      MulAdd(first + q, -1, ss);
      DivModUnique(end - 1, ss, first + q - 1, ss - 1);
    }
  }

  lemma MediaSlice(cb: nat, chunks: Chunks, b: nat, n: nat, lo: nat, len: nat)
    requires cb > 0 && lo + len <= n
    ensures MediaBytes(cb, chunks, b, n)[lo..lo + len] == MediaBytes(cb, chunks, b + lo, len)
  {
    var whole, part := MediaBytes(cb, chunks, b, n), MediaBytes(cb, chunks, b + lo, len);
    forall k | 0 <= k < len ensures whole[lo..lo + len][k] == part[k] {
      assert whole[lo..lo + len][k] == whole[lo + k];
      assert b + lo + k == b + (lo + k);
    }
  }

  /** The bytes a successful covering read holds at the requested place. */
  lemma CoveredBytes(c: Codec, segs: seq<Segment>, disks: seq<DiskSMART>, tables: seq<ChunkTable>, off: nat, want: nat)
    requires want > 0
    ensures var l := LayoutOf(disks, tables);
            var cover := Cover(l.ss, off, want);
            match ReadSectors(c, segs, disks, tables, cover.0, cover.1)
            case Err(_) => true
            case Ok(raw) => off % l.ss + want <= |raw|
                            && raw[off % l.ss..off % l.ss + want] ==
                               MediaBytes(l.ChunkBytes(), DecodedChunks(c, segs, tables, l), off, want)
  {
    hide DecodedChunks, LayoutOf, FirstBad, MediaBytes;
    var l := LayoutOf(disks, tables);
    CoverCount(l.ss, off, want);
    var cover := Cover(l.ss, off, want);
    MediaSlice(l.ChunkBytes(), DecodedChunks(c, segs, tables, l), cover.0 * l.ss, cover.1 * l.ss, off % l.ss, want);
  }

  /** A non-empty export has a sector size, and it is the one reads use. */
  lemma ExportGeometry(disks: seq<DiskSMART>, tables: seq<ChunkTable>)
    requires ExportSize(disks) > 0
    ensures ReportedSectorSize(disks) > 0 && LayoutOf(disks, tables).ss == ReportedSectorSize(disks)
  {
    assert MediaSectors(disks) * 0 == 0;
  }

  /** A read that returns no bytes before any sector is read. */
  lemma ExportEdge(c: Codec, segs: seq<Segment>, disks: seq<DiskSMART>, tables: seq<ChunkTable>, p: bytes, off: int)
    ensures off < 0 ==> ExportReads(c, segs, disks, tables, p, off, 0, Some(NegativeOffset), p)
    ensures off >= 0 && off >= ExportSize(disks) ==>
              ExportReads(c, segs, disks, tables, p, off, 0, Some(EndOfExport), p)
    ensures 0 <= off < ExportSize(disks) && p == [] ==> ExportReads(c, segs, disks, tables, p, off, 0, None, p)
  {
  }

  /** A read that covers sectors: the error it met, or the bytes sliced from them. */
  lemma ExportServed(c: Codec, segs: seq<Segment>, disks: seq<DiskSMART>, tables: seq<ChunkTable>, p: bytes, off: nat,
                     want: nat,
                     raw: Result<bytes, ReadError>)
    requires off < ExportSize(disks) && p != [] && want == Min(|p|, ExportSize(disks) - off)
    requires ReportedSectorSize(disks) > 0
    requires var cover := Cover(ReportedSectorSize(disks), off, want);
             raw == ReadSectors(c, segs, disks, tables, cover.0, cover.1)
    ensures match raw
            case Err(x) => ExportReads(c, segs, disks, tables, p, off, 0, Some(ReadFailed(x)), p)
            case Ok(b) =>
              var intra := off % ReportedSectorSize(disks);
              intra + want <= |b|
              && ExportReads(c, segs, disks, tables, p, off, want, if want < |p| then Some(EndOfExport) else None,
                             b[intra..intra + want] + p[want..])
  {
    hide LayoutOf, ReadSectors, DecodedChunks, MediaBytes, ExportSize, ReportedSectorSize, Cover;
    ExportGeometry(disks, tables);
    CoveredBytes(c, segs, disks, tables, off, want);
  }

  /** imageExporter.ReadAt: the covering sectors are read and sliced, and the rest of p is left alone. */
  method ExportReadAt(e: EWFImage, p: array<byte>, off: int, gomaxprocs: int) returns (n: nat, err: Option<ExportError>)
    requires e.Ready(e.AllDecoded()) && p !in e.CacheRepr()
    modifies e.CacheRepr(), p
    ensures e.Ready(e.AllDecoded()) && (forall o :: o in e.CacheRepr() ==> o in old(e.CacheRepr()) || fresh(o))
    ensures ExportReads(e.codec, e.segments, e.disks, e.sectors, old(p[..]), off, n, err, p[..])
  {
    hide LayoutOf, ReadSectors, EWFImage.Ready, EWFImage.AllDecoded, ExportReads, ExportSize, ReportedSectorSize, Cover;
    ExportEdge(e.codec, e.segments, e.disks, e.sectors, p[..], off);
    if off < 0 { return 0, Some(NegativeOffset); }
    var size := ExportSize(e.disks);
    if off >= size { return 0, Some(EndOfExport); }
    if p.Length == 0 { return 0, None; }
    ExportGeometry(e.disks, e.sectors);
    n, err := FillCovered(e, p, off, Min(p.Length, size - off), gomaxprocs);
  }

  method FillCovered(e: EWFImage, p: array<byte>, off: nat, want: nat, gomaxprocs: int)
    returns (n: nat, err: Option<ExportError>)
    requires e.Ready(e.AllDecoded()) && p !in e.CacheRepr()
    requires off < ExportSize(e.disks) && p.Length > 0 && want == Min(p.Length, ExportSize(e.disks) - off)
    requires ReportedSectorSize(e.disks) > 0
    modifies e.CacheRepr(), p
    ensures e.Ready(e.AllDecoded()) && (forall o :: o in e.CacheRepr() ==> o in old(e.CacheRepr()) || fresh(o))
    ensures ExportReads(e.codec, e.segments, e.disks, e.sectors, old(p[..]), off, n, err, p[..])
  {
    hide LayoutOf, ReadSectors, EWFImage.Ready, EWFImage.AllDecoded, ExportReads, ExportSize, Cover;
    e.ReadyOwns(e.AllDecoded());
    var raw, intra := ReadCover(e, off, want, gomaxprocs);
    ghost var was := p[..];
    ExportServed(e.codec, e.segments, e.disks, e.sectors, was, off, want, raw);
    if raw.Err? { return 0, Some(ReadFailed(raw.error)); }
    CopyInto(p, 0, raw.value[intra..intra + want]);
    assert p[..] == raw.value[intra..intra + want] + was[want..];
    return want, if want < p.Length then Some(EndOfExport) else None;
  }

  /** The sectors covering the range, and where in them the range begins. */
  method ReadCover(e: EWFImage, off: nat, want: nat, gomaxprocs: int)
    returns (raw: Result<bytes, ReadError>, intra: nat)
    requires e.Ready(e.AllDecoded()) && want > 0 && ReportedSectorSize(e.disks) > 0
    modifies e.CacheRepr()
    ensures e.Ready(e.AllDecoded()) && (forall o :: o in e.CacheRepr() ==> o in old(e.CacheRepr()) || fresh(o))
    ensures intra == off % ReportedSectorSize(e.disks)
    ensures var cover := Cover(ReportedSectorSize(e.disks), off, want);
            raw == ReadSectors(e.codec, e.segments, e.disks, e.sectors, cover.0, cover.1)
  {
    hide ReadSectors, EWFImage.Ready, EWFImage.AllDecoded;
    var ss := ReportedSectorSize(e.disks);
    intra := off % ss;
    var span := intra + want;
    var count := span / ss;
    if span % ss != 0 { count := count + 1; }
    CoverCount(ss, off, want);
    e.ReadyOwns(e.AllDecoded());
    raw := e.ReadSectorData(off / ss, count, gomaxprocs);
  }
}

/**
 * Files read out of an evidence image: the sector reads of a partition's handler over a wrapped disk, and
 * what they make of the files on it.
 */
module FileEvidence {
  import opened Bytes
  import opened Codec
  import opened Segments
  import opened Sections
  import opened SectorRead
  import opened Fixture
  import RT = RoundTrip
  import opened ReadBack
  import opened SparseFile
  import Exports = Media
  import Streaming
  import ApfsFile
  import BtrfsFile
  import XfsFile

  /** What reading some sectors of an image gives; None for any error. */
  type Sectors = (nat, nat) -> Option<bytes>

  function ImageSectors(c: Codec, segs: seq<Segment>, disks: seq<DiskSMART>, tables: seq<ChunkTable>): Sectors {
    (lba: nat, n: nat) => match ReadSectors(c, segs, disks, tables, lba, n) case Err(_) => None case Ok(b) => Some(b)
  }

  /** The bytes of a partition that starts at a sector of the disk, by their address in it. */
  function PartitionMedia(disk: bytes, first: nat): SparseFile.Media {
    (a: nat) => if first * SECTOR_SIZE + a < |disk| then disk[first * SECTOR_SIZE + a] else 0
  }

  /** readBytes of a handler: the sectors that cover a range of its partition, cut to the range. */
  function PartitionRead(sectors: Sectors, first: nat, at: nat, n: nat): Option<bytes> {
    if n == 0 then Some([])
    else
      var off := first * SECTOR_SIZE + at;
      var cover := Exports.Cover(SECTOR_SIZE, off, n);
      match sectors(cover.0, cover.1)
      case None => None
      case Some(raw) =>
        var start := off % SECTOR_SIZE;
        if start + n > |raw| then None else Some(raw[start..start + n])
  }

  function PartitionReader(sectors: Sectors, first: nat): Reader {
    (at: nat, n: nat) => PartitionRead(sectors, first, at, n)
  }

  /** A source of sectors that gives those of a disk, or fails. */
  ghost predicate GivesDisk(sectors: Sectors, disk: bytes) {
    forall lba: nat, n: nat ::
      sectors(lba, n).Some? ==> sectors(lba, n).value == DiskBytes(disk, lba * SECTOR_SIZE, n * SECTOR_SIZE)
  }

  /** A run of sectors that can be read can be read in part, up to a last sector. */
  ghost predicate GivesParts(sectors: Sectors, end: nat) {
    forall lba: nat, n: nat, b: nat, k: nat ::
      sectors(lba, n).Some? && lba <= b < end && b + k <= lba + n ==> sectors(b, k).Some?
  }

  // ------------------------------------------------------------ a wrapped disk as a source of sectors

  lemma WrappedDiskGives(c: Codec, disk: bytes, opts: Options)
    requires Lawful(c) && RT.Expressible(c, disk, opts) && |disk| % SECTOR_SIZE == 0
    ensures var segs := RT.Single(WrapBytes(c, disk, opts));
            match ParseImage(c, segs)
            case None => Unlisted(disk, opts)
            case Some(p) =>
              && GivesDisk(ImageSectors(c, segs, p.disks, p.tables), disk)
              && GivesParts(ImageSectors(c, segs, p.disks, p.tables), |disk| / SECTOR_SIZE)
  {
    hide ParseImage, WrapBytes, Lawful, RT.Expressible, ReadsDisk, ReadSectors, DiskBytes;
    var segs, cs := RT.Single(WrapBytes(c, disk, opts)), EffectiveChunkSectors(opts);
    SectorRoundTrip(c, disk, opts, 0, 0);
    if ParseImage(c, segs).Some? {
      var p := ParseImage(c, segs).value;
      forall lba: nat, n: nat
        ensures ReadsDisk(c, disk, cs, opts.compress, opts.shortFinalChunk, lba, n,
                          ReadSectors(c, segs, p.disks, p.tables, lba, n))
      {
        SectorRoundTrip(c, disk, opts, lba, n);
      }
      forall lba: nat, n: nat, b: nat, k: nat
        ensures var r := ReadSectors(c, segs, p.disks, p.tables, lba, n);
                var s := ReadSectors(c, segs, p.disks, p.tables, b, k);
                && (r.Ok? ==> r.value == DiskBytes(disk, lba * SECTOR_SIZE, n * SECTOR_SIZE))
                && (r.Ok? && lba <= b < |disk| / SECTOR_SIZE && b + k <= lba + n ==> s.Ok?)
      {
        PartIsRead(c, disk, cs, opts.compress, opts.shortFinalChunk,
                   lba, n, ReadSectors(c, segs, p.disks, p.tables, lba, n),
                   b, k, ReadSectors(c, segs, p.disks, p.tables, b, k));
      }
    }
  }

  /** What is owed for a run of sectors, and for a part of it. */
  lemma PartIsRead(c: Codec, disk: bytes, cs: nat, mode: CompressMode, short: bool, lba: nat, n: nat,
                   r: Result<bytes, ReadError>, b: nat, k: nat, s: Result<bytes, ReadError>)
    requires cs > 0 && |disk| % SECTOR_SIZE == 0
    requires ReadsDisk(c, disk, cs, mode, short, lba, n, r) && ReadsDisk(c, disk, cs, mode, short, b, k, s)
    ensures r.Ok? ==> r.value == DiskBytes(disk, lba * SECTOR_SIZE, n * SECTOR_SIZE)
    ensures r.Ok? && lba <= b < |disk| / SECTOR_SIZE && b + k <= lba + n ==> s.Ok?
  {
    hide DiskBytes, Readable, ChunkCount;
    if r.Ok? && lba <= b < |disk| / SECTOR_SIZE && b + k <= lba + n {
      InsideCoverage(disk, cs, b);
    }
  }

  /** The chunks of a disk cover its sectors. */
  lemma InsideCoverage(disk: bytes, cs: nat, b: nat)
    requires cs > 0 && |disk| % SECTOR_SIZE == 0 && b < |disk| / SECTOR_SIZE
    ensures b < ChunkCount(disk, cs * SECTOR_SIZE) * cs
  {
  }

  // ------------------------------------------------------------ a partition as a reader of bytes

  /** What a successful read of a partition is. */
  lemma PartitionGives(sectors: Sectors, disk: bytes, first: nat, at: nat, n: nat)
    requires GivesDisk(sectors, disk) && n > 0
    ensures var off := first * SECTOR_SIZE + at;
            var cover := Exports.Cover(SECTOR_SIZE, off, n);
            && (PartitionRead(sectors, first, at, n).Some? <==> sectors(cover.0, cover.1).Some?)
            && (PartitionRead(sectors, first, at, n).Some? ==>
                  PartitionRead(sectors, first, at, n).value == Stored(PartitionMedia(disk, first), at, n))
  {
    hide Exports.Cover, DiskBytes, Stored;
    var off := first * SECTOR_SIZE + at;
    var cover := Exports.Cover(SECTOR_SIZE, off, n);
    Exports.CoverCount(SECTOR_SIZE, off, n);
    if sectors(cover.0, cover.1).Some? {
      PartOfDisk(disk, first, at, n, cover.0 * SECTOR_SIZE, cover.1 * SECTOR_SIZE, off % SECTOR_SIZE);
    }
  }

  lemma PartOfDisk(disk: bytes, first: nat, at: nat, n: nat, b: nat, len: nat, start: nat)
    requires b + start == first * SECTOR_SIZE + at && start + n <= len
    ensures DiskBytes(disk, b, len)[start..start + n] == Stored(PartitionMedia(disk, first), at, n)
  {
    var x, y := DiskBytes(disk, b, len), Stored(PartitionMedia(disk, first), at, n);
    forall i | 0 <= i < n ensures x[start..start + n][i] == y[i] {
      assert b + (start + i) == first * SECTOR_SIZE + (at + i);
    }
  }

  lemma PartitionIsHonest(sectors: Sectors, disk: bytes, first: nat)
    requires GivesDisk(sectors, disk)
    ensures Honest(PartitionMedia(disk, first), PartitionReader(sectors, first))
  {
    hide Stored, GivesDisk, PartitionRead, PartitionMedia;
    var read := PartitionReader(sectors, first);
    forall at: nat, n: nat
      ensures read(at, n).Some? ==> read(at, n).value == Stored(PartitionMedia(disk, first), at, n)
    {
      if n > 0 { PartitionGives(sectors, disk, first, at, n); } else { NothingRead(sectors, disk, first, at); }
    }
  }

  lemma NothingRead(sectors: Sectors, disk: bytes, first: nat, at: nat)
    ensures PartitionRead(sectors, first, at, 0) == Some(Stored(PartitionMedia(disk, first), at, 0))
  {
  }

  /** Reading part of a range covers part of its sectors. */
  lemma CoverShrinks(ss: nat, off: nat, n: nat, off': nat, n': nat)
    requires ss > 0 && n' > 0 && off <= off' && off' + n' <= off + n
    ensures var c, c' := Exports.Cover(ss, off, n), Exports.Cover(ss, off', n');
            c.0 <= c'.0 && c'.0 + c'.1 <= c.0 + c.1
  {
    DivLe(ss, off, off');
    DivLe(ss, off', off' + n' - 1);
    DivLe(ss, off' + n' - 1, off + n - 1);
  }

  lemma DivLe(k: nat, a: nat, b: nat)
    requires k > 0 && a <= b
    ensures a / k <= b / k
  {
    var q, r := a / k, b / k;
    assert a == q * k + a % k && b == r * k + b % k;
    MulAdd(r, 1, k);
    if q > r { MulLe(r + 1, q, k); }
  }

  lemma PartitionReadsParts(sectors: Sectors, disk: bytes, first: nat, limit: nat)
    requires GivesDisk(sectors, disk) && GivesParts(sectors, |disk| / SECTOR_SIZE)
    requires first * SECTOR_SIZE + limit <= |disk| && |disk| % SECTOR_SIZE == 0
    ensures Monotone(PartitionReader(sectors, first), limit)
  {
    hide Stored, GivesDisk, GivesParts, PartitionRead, PartitionMedia;
    var read := PartitionReader(sectors, first);
    forall at: nat, n: nat, b: nat, k: nat |
      read(at, n).Some? && 0 < k && at <= b && b + k <= at + n && b < limit
      ensures read(b, k).Some?
    {
      PartRead(sectors, disk, first, at, n, b, k);
    }
  }

  lemma PartRead(sectors: Sectors, disk: bytes, first: nat, at: nat, n: nat, b: nat, k: nat)
    requires GivesDisk(sectors, disk) && GivesParts(sectors, |disk| / SECTOR_SIZE)
    requires PartitionRead(sectors, first, at, n).Some? && 0 < k && at <= b && b + k <= at + n
    requires first * SECTOR_SIZE + b < |disk| && |disk| % SECTOR_SIZE == 0
    ensures PartitionRead(sectors, first, b, k).Some?
  {
    hide Stored, GivesDisk, PartitionRead, PartitionMedia, Exports.Cover;
    var whole, part := first * SECTOR_SIZE + at, first * SECTOR_SIZE + b;
    PartitionGives(sectors, disk, first, at, n);
    PartitionGives(sectors, disk, first, b, k);
    CoverShrinks(SECTOR_SIZE, whole, n, part, k);
    Exports.CoverCount(SECTOR_SIZE, part, k);
    var c, c' := Exports.Cover(SECTOR_SIZE, whole, n), Exports.Cover(SECTOR_SIZE, part, k);
    assert sectors(c.0, c.1).Some? && c.0 <= c'.0 < |disk| / SECTOR_SIZE;
  }

  // ------------------------------------------------------------ files

  /** The reader a handler has over a partition of a wrapped disk. */
  ghost predicate ReadsWrapped(c: Codec, disk: bytes, opts: Options, first: nat, read: Reader) {
    var segs := RT.Single(WrapBytes(c, disk, opts));
    match ParseImage(c, segs)
    case None => false
    case Some(p) => read == PartitionReader(ImageSectors(c, segs, p.disks, p.tables), first)
  }

  /**
   * Over a wrapped disk every handler reads the disk's own bytes or gets an error, and what it could read at
   * once it can read in part, as far as the disk goes.
   */
  lemma WrappedReader(c: Codec, disk: bytes, opts: Options, first: nat, read: Reader, limit: nat)
    requires Lawful(c) && RT.Expressible(c, disk, opts) && |disk| % SECTOR_SIZE == 0
    requires ReadsWrapped(c, disk, opts, first, read)
    ensures Honest(PartitionMedia(disk, first), read)
    ensures first * SECTOR_SIZE + limit <= |disk| ==> Monotone(read, limit)
  {
    hide ParseImage, WrapBytes, Lawful, RT.Expressible, GivesDisk, GivesParts, Honest, Monotone, ImageSectors,
         PartitionReader;
    WrappedDiskGives(c, disk, opts);
    var segs := RT.Single(WrapBytes(c, disk, opts));
    var p := ParseImage(c, segs).value;
    var sectors := ImageSectors(c, segs, p.disks, p.tables);
    PartitionIsHonest(sectors, disk, first);
    if first * SECTOR_SIZE + limit <= |disk| { PartitionReadsParts(sectors, disk, first, limit); }
  }

  /**
   * A Btrfs file on a wrapped disk: what GetFile returns, and every piece that is streamed, are bytes of that
   * disk; and what GetFile could read is streamed in full.
   */
  lemma BtrfsOnWrappedDisk(c: Codec, disk: bytes, opts: Options, first: nat, read: Reader, limit: nat,
                           cs: seq<BtrfsFile.Chunk>, items: seq<BtrfsFile.Item>, declared: nat)
    requires Lawful(c) && RT.Expressible(c, disk, opts) && |disk| % SECTOR_SIZE == 0
    requires ReadsWrapped(c, disk, opts, first, read) && BtrfsFile.OpenList(items).Some?
    requires first * SECTOR_SIZE + limit <= |disk| && limit <= BtrfsFile.MAX_ADDRESS + 1
    ensures var list, size := BtrfsFile.OpenList(items).value, BtrfsFile.FileSize(items, declared);
            var content := Content(BtrfsFile.LogicalMedia(cs, PartitionMedia(disk, first)), list, size);
            var eager := BtrfsFile.Eager(cs, read, items, declared);
            Steady(list) && BtrfsFile.Consistent(cs, list) ==>
              && Streaming.PieceHonest(content, BtrfsFile.Pieces(cs, read, list, size))
              && (eager.Some? && BtrfsFile.OneOriginOn(cs, list, size) ==> eager.value == content)
              && (eager.Some? && BtrfsFile.InReach(cs, list, size, limit) ==>
                    Streaming.PieceServes(content, BtrfsFile.Pieces(cs, read, list, size)))
  {
    hide Lawful, RT.Expressible, ReadsWrapped, Steady, Honest, Monotone, Content, PartitionMedia, BtrfsFile.OpenList,
         BtrfsFile.Consistent, BtrfsFile.Eager, BtrfsFile.OneOriginOn, BtrfsFile.InReach, BtrfsFile.Pieces,
         BtrfsFile.LogicalMedia, BtrfsFile.RestFails, Streaming.PieceServes, Streaming.PieceHonest;
    var m, list := PartitionMedia(disk, first), BtrfsFile.OpenList(items).value;
    WrappedReader(c, disk, opts, first, read, limit);
    BtrfsFile.StreamingHonest(cs, m, read, list, BtrfsFile.FileSize(items, declared));
    if BtrfsFile.Eager(cs, read, items, declared).Some? {
      BtrfsFile.StreamingMatchesEager(cs, m, read, limit, items, declared);
    }
  }

  /** The same for an APFS stream. */
  lemma ApfsOnWrappedDisk(c: Codec, disk: bytes, opts: Options, first: nat, read: Reader, limit: nat, bs: nat,
                          xs: seq<ApfsFile.FileExtent>, size: nat)
    requires Lawful(c) && RT.Expressible(c, disk, opts) && |disk| % SECTOR_SIZE == 0
    requires ReadsWrapped(c, disk, opts, first, read) && first * SECTOR_SIZE + limit <= |disk| && bs > 0
    ensures var es := ApfsFile.AsExtents(bs, xs);
            var content := Content(PartitionMedia(disk, first), es, size);
            var eager := ApfsFile.Eager(read, bs, xs, size);
            Steady(es) ==>
              && Streaming.PieceHonest(content, ApfsFile.Pieces(read, bs, xs, size))
              && (eager.Some? && OneOrigin(es, size) ==> eager.value == content)
              && (eager.Some? && (forall x :: x in xs ==> ApfsFile.BlocksBelow(bs, x, size, limit)) ==>
                    Streaming.PieceServes(content, ApfsFile.Pieces(read, bs, xs, size)))
  {
    hide Lawful, RT.Expressible, ReadsWrapped, Steady, Honest, Monotone, Content, PartitionMedia, OneOrigin,
         ApfsFile.AsExtents, ApfsFile.Eager, ApfsFile.BlocksBelow, ApfsFile.Pieces, ApfsFile.BlockFails,
         Streaming.PieceServes, Streaming.PieceHonest;
    var m := PartitionMedia(disk, first);
    WrappedReader(c, disk, opts, first, read, limit);
    ApfsFile.StreamingHonest(m, read, bs, xs, size);
    if ApfsFile.Eager(read, bs, xs, size).Some? { ApfsFile.StreamingMatchesEager(m, read, limit, bs, xs, size); }
  }

  /** And for an XFS data fork. */
  lemma XfsOnWrappedDisk(c: Codec, disk: bytes, opts: Options, first: nat, read: Reader, g: XfsFile.Geometry, bs: nat,
                         rs: seq<XfsFile.Record>, size: nat)
    requires Lawful(c) && RT.Expressible(c, disk, opts) && |disk| % SECTOR_SIZE == 0
    requires ReadsWrapped(c, disk, opts, first, read) && g.agSpan > 0 && bs > 0
    ensures var content := Content(PartitionMedia(disk, first), XfsFile.AsExtents(g, bs, rs), size);
            && ((forall o :: 0 <= o < size ==> !XfsFile.Astray(g, bs, rs, o)) ==>
                  Streaming.PieceHonest(content, XfsFile.Pieces(g, bs, read, rs)))
            && (XfsFile.Sorted(rs) && (forall k :: 0 <= k < |rs| ==> rs[k].blockCount > 0)
                && XfsFile.Addressable(g, bs, rs, size) && XfsFile.Eager(g, bs, read, rs, size).Some? ==>
                  XfsFile.Eager(g, bs, read, rs, size).value == content)
  {
    hide Lawful, RT.Expressible, ReadsWrapped, Honest, Monotone, Content, PartitionMedia, XfsFile.AsExtents,
         XfsFile.Eager, XfsFile.Astray, XfsFile.Sorted, XfsFile.Addressable, XfsFile.Pieces, XfsFile.BlockFails,
         XfsFile.BlockInRange, XfsFile.BlockReadable, Streaming.PieceServes, Streaming.PieceHonest;
    var m := PartitionMedia(disk, first);
    WrappedReader(c, disk, opts, first, read, 0);
    XfsFile.StreamingHonest(g, m, bs, read, rs, size);
    if XfsFile.Sorted(rs) && forall k :: 0 <= k < |rs| ==> rs[k].blockCount > 0 {
      XfsFile.ReadersAgree(g, m, bs, read, rs, size);
    }
  }
}

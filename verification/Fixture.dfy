/**
 * The writer side of the container (internal/ewffixture/fixture.go): what WrapDisk and
 * WrapDiskSegments emit, first as functions, then as the builder that appends and patches in place.
 */
module Fixture {
  import opened Bytes
  import opened Codec
  import opened Sections
  import opened Planner

  const SECTOR_SIZE: nat := 512
  const DEFAULT_CHUNK_SECTORS: nat := 64
  const UINT32: nat := 0x1_0000_0000
  const BIT31: nat := 0x8000_0000

  datatype TableLayout = EnCase2To5 | EnCase1 | EnCase6

  datatype CompressMode = Zlib | Raw

  datatype Options = Options(
    chunkSectors: nat,      // uint32; 0 means the default
    layout: TableLayout,
    compress: CompressMode,
    slackBytes: nat,
    noTable2: bool,
    skipTable: bool,
    sections: int,
    md5Hash: Option<bytes>,
    sha1Hash: Option<bytes>,
    shortFinalChunk: bool
  )

  // ------------------------------------------------------------ sections

  /**
   * One section to emit.  The tail is written behind the payload but is not counted in the
   * declared size: EnCase 1 keeps the chunk data there.
   */
  datatype Sec = Sec(name: Name, payload: bytes, tail: bytes)

  function SecSize(s: Sec): nat { SECTION_LENGTH + |s.payload| + |s.tail| }

  function SecsSize(ss: seq<Sec>): nat {
    if ss == [] then 0 else SecSize(ss[0]) + SecsSize(ss[1..])
  }

  /** The 76-byte descriptor: name, next offset, size, padding and the checksum of the first 72 bytes. */
  function Descriptor(c: Codec, name: Name, next: nat, size: nat): (d: bytes)
    requires !name.Other?
    ensures |d| == SECTION_LENGTH
  {
    var head := DescriptorHead(name, next, size);
    head + ToLE(c.adler(head), 4)
  }

  function DescriptorHead(name: Name, next: nat, size: nat): (d: bytes)
    requires !name.Other?
    ensures |d| == 72
  {
    NameText(name) + Zeros(16 - |NameText(name)|) + ToLE(next, 8) + ToLE(size, 8) + Zeros(40)
  }

  ghost predicate Named(ss: seq<Sec>) {
    forall i :: 0 <= i < |ss| ==> !ss[i].name.Other?
  }

  function SecBytes(c: Codec, addr: nat, s: Sec): (r: bytes)
    requires !s.name.Other?
    ensures |r| == SecSize(s)
  {
    Descriptor(c, s.name, addr + SecSize(s), SECTION_LENGTH + |s.payload|) + s.payload + s.tail
  }

  function SecsBytes(c: Codec, addr: nat, ss: seq<Sec>): (r: bytes)
    requires Named(ss)
    ensures |r| == SecsSize(ss)
    decreases |ss|
  {
    if ss == [] then [] else SecBytes(c, addr, ss[0]) + SecsBytes(c, addr + SecSize(ss[0]), ss[1..])
  }

  /** The 13-byte file header with its segment number. */
  function FileHeader(segment: nat): (r: bytes)
    ensures |r| == FILE_HEADER_LENGTH
  {
    [69, 86, 70, 9, 13, 10, 255, 0, 1] + ToLE(segment, 2) + [0, 0]
  }

  /** A whole segment file: header, sections, and a "done" section that points at itself. */
  function FileBytes(c: Codec, segment: nat, ss: seq<Sec>): (r: bytes)
    requires Named(ss)
    ensures |r| == FILE_HEADER_LENGTH + SecsSize(ss) + SECTION_LENGTH
  {
    var end := FILE_HEADER_LENGTH + SecsSize(ss);
    FileHeader(segment) + SecsBytes(c, FILE_HEADER_LENGTH, ss) + Descriptor(c, Done, end, SECTION_LENGTH)
  }

  // ------------------------------------------------------------ payloads

  function Ascii(s: string): (r: bytes)
    ensures |r| == |s|
  {
    seq<byte>(|s|, i requires 0 <= i < |s| => (s[i] as int) % 256)
  }

  const NEWLINE: bytes := [10]

  const HEADER_TEXT: bytes :=
    Ascii("1") + NEWLINE + (Ascii("main") + NEWLINE + (Ascii("a\tc\tn\te") + NEWLINE +
    (Ascii("fixture-desc\tfixture-case\tfixture-evidence\tfixture-examiner") + NEWLINE + NEWLINE)))

  /** The 1052-byte volume data; the last four bytes are the checksum of the rest. */
  function DiskSmart(c: Codec, chunkCount: nat, chunkSectors: nat, sectorBytes: nat, sectorsCount: nat): (d: bytes)
    ensures |d| == DISK_SMART_LENGTH
  {
    var head := DiskSmartHead(chunkCount, chunkSectors, sectorBytes, sectorsCount);
    head + ToLE(c.adler(head), 4)
  }

  function DiskSmartHead(chunkCount: nat, chunkSectors: nat, sectorBytes: nat, sectorsCount: nat): (d: bytes)
    ensures |d| == 1048
  {
    Geometry(chunkCount, chunkSectors, sectorBytes, sectorsCount)
    + (Zeros(12) + [1] + Zeros(15) + [1] + Zeros(3) + ToLE(64, 4) + Zeros(4) + Ascii("FIXTURE-GUID-001") + Zeros(968))
  }

  function Geometry(chunkCount: nat, chunkSectors: nat, sectorBytes: nat, sectorsCount: nat): (d: bytes)
    ensures |d| == 24
  {
    [1, 0, 0, 0] + ToLE(chunkCount, 4) + ToLE(chunkSectors, 4) + ToLE(sectorBytes, 4) + ToLE(sectorsCount, 8)
  }

  function EntryBytes(entries: seq<nat>): (r: bytes)
    ensures |r| == 4 * |entries|
  {
    if entries == [] then [] else ToLE(entries[0], 4) + EntryBytes(entries[1..])
  }

  function TableHead(count: nat, base: nat): (r: bytes)
    ensures |r| == 20
  {
    ToLE(count, 4) + Zeros(4) + ToLE(base, 8) + Zeros(4)
  }

  /** Table header with its checksum, the entries, and the checksum of the entries. */
  function TablePayload(c: Codec, entries: seq<nat>, base: nat): (r: bytes)
    ensures |r| == TABLE_HEADER_LENGTH + 4 * |entries| + CHUNK_FOOTER_LENGTH
  {
    var head := TableHead(|entries|, base);
    head + ToLE(c.adler(head), 4) + EntryBytes(entries) + ToLE(c.adler(EntryBytes(entries)), 4)
  }

  // ------------------------------------------------------------ chunks

  function EffectiveChunkSectors(opts: Options): (r: nat)
    ensures r > 0
  {
    if opts.chunkSectors == 0 then DEFAULT_CHUNK_SECTORS else opts.chunkSectors
  }

  function ChunkBytesOf(opts: Options): (r: nat)
    ensures r > 0
  {
    EffectiveChunkSectors(opts) * SECTOR_SIZE
  }

  function ChunkCount(disk: bytes, cb: nat): nat
    requires cb > 0
  {
    (|disk| + cb - 1) / cb
  }

  /** Chunk i of the disk, zero-padded to full size unless the final partial chunk is kept short. */
  function ChunkData(disk: bytes, cb: nat, i: nat, short: bool): (d: bytes)
    requires cb > 0 && i * cb < |disk|
  {
    var d := disk[i * cb..Min(i * cb + cb, |disk|)];
    if short && i == ChunkCount(disk, cb) - 1 && |disk| % cb != 0 then disk[i * cb..] else d + Zeros(cb - |d|)
  }

  function ChunkPayload(c: Codec, data: bytes, mode: CompressMode): bytes {
    match mode
    case Raw => data + ToLE(c.adler(data), 4)
    case Zlib => c.deflate(data)
  }

  lemma ChunkInDisk(disk: bytes, cb: nat, i: nat)
    requires cb > 0 && i < ChunkCount(disk, cb)
    ensures i * cb < |disk|
  {
    var n := |disk| + cb - 1;
    assert n == n / cb * cb + n % cb;
    MulLe(i + 1, n / cb, cb);
    MulAdd(i, 1, cb);
  }

  /** The stored form of every chunk, in order. */
  function StoredChunks(c: Codec, disk: bytes, cb: nat, mode: CompressMode, short: bool): (r: seq<bytes>)
    requires cb > 0
    ensures |r| == ChunkCount(disk, cb)
  {
    seq(ChunkCount(disk, cb), i requires 0 <= i < ChunkCount(disk, cb) =>
      ChunkInDisk(disk, cb, i); ChunkPayload(c, ChunkData(disk, cb, i, short), mode))
  }

  // ------------------------------------------------------------ table entries

  /** The entry of a chunk at relative offset rel: the low 32 bits, with bit 31 set for zlib. */
  function TableEntry(mode: CompressMode, rel: nat): (e: nat)
    ensures e < UINT32
  {
    var low := rel % UINT32;
    if mode == Zlib && low < BIT31 then low + BIT31 else low
  }

  /** Entries of consecutive chunks, the first of them at relative offset rel. */
  function TableEntries(mode: CompressMode, stored: seq<bytes>, rel: nat): (es: seq<nat>)
    ensures |es| == |stored|
  {
    if stored == [] then []
    else [TableEntry(mode, rel)] + TableEntries(mode, stored[1..], rel + |stored[0]|)
  }

  // ------------------------------------------------------------ WrapDisk

  function FrontSections(c: Codec, disk: bytes, opts: Options): (r: seq<Sec>)
    ensures |r| == 4 && Named(r)
  {
    var hz := c.deflate(HEADER_TEXT);
    var vol := VolumeData(c, disk, opts);
    [Sec(Header2, hz, []), Sec(Header, hz, []), Sec(Volume, vol, []), Sec(Disk, vol, [])]
  }

  function VolumeData(c: Codec, disk: bytes, opts: Options): (r: bytes)
    ensures |r| == DISK_SMART_LENGTH
  {
    DiskSmart(c, ChunkCount(disk, ChunkBytesOf(opts)), EffectiveChunkSectors(opts), SECTOR_SIZE, |disk| / SECTOR_SIZE)
  }

  /** The base offset of a table: EnCase 6 tables are relative to their first chunk. */
  function TableBase(layout: TableLayout, chunkAt: nat, n: nat): nat {
    if layout == EnCase6 && n > 0 then chunkAt else 0
  }

  /** A sectors section and its table (and mirror), for the chunks stored in it; addr is where it starts. */
  function PairSections(c: Codec, opts: Options, addr: nat, stored: seq<bytes>): (r: seq<Sec>)
    ensures Named(r) && r != []
  {
    var chunkAt := addr + SECTION_LENGTH + opts.slackBytes;
    var base := TableBase(opts.layout, chunkAt, |stored|);
    var payload := TablePayload(c, TableEntries(opts.compress, stored, chunkAt - base), base);
    [Sec(Sectors, Zeros(opts.slackBytes) + Concat(stored), [])] + TableSections(opts, payload)
  }

  function TableSections(opts: Options, payload: bytes): (r: seq<Sec>)
    ensures Named(r)
  {
    if opts.skipTable then []
    else if opts.noTable2 then [Sec(Table, payload, [])]
    else [Sec(Table, payload, []), Sec(Table2, payload, [])]
  }

  function AllPairs(c: Codec, opts: Options, addr: nat, groups: seq<seq<bytes>>): (r: seq<Sec>)
    ensures Named(r)
    decreases |groups|
  {
    if groups == [] then []
    else
      var here := PairSections(c, opts, addr, groups[0]);
      here + AllPairs(c, opts, addr + SecsSize(here), groups[1..])
  }

  lemma {:induction false} RunSum(n: nat, a: nat, m: nat)
    requires m <= n
    ensures Sum(EvenCounts(n, a, m)) == n * a + m
  {
    if n > 0 {
      var rest := if m > 0 then m - 1 else 0;
      RunSum(n - 1, a, rest);
      assert EvenCounts(n, a, m)[1..] == EvenCounts(n - 1, a, rest);
      MulAdd(n - 1, 1, a);
    }
  }

  /** n counts: the first m are a + 1, the others a. */
  function EvenCounts(n: nat, a: nat, m: nat): (r: seq<nat>)
    ensures |r| == n
  {
    seq<nat>(n, s requires 0 <= s < n => a + if s < m then 1 else 0)
  }

  /** How many chunks go into each sectors section: they add up, so no chunk is dropped or stored twice. */
  function GroupCounts(n: nat, sections: int): (r: seq<nat>)
    ensures |r| > 0 && Sum(r) == n
  {
    var k := if Min(sections, n) < 1 then 1 else Min(sections, n);
    RunSum(k, n / k, n % k);
    EvenCounts(k, n / k, n % k)
  }

  function Split<T>(xs: seq<T>, counts: seq<nat>): (r: seq<seq<T>>)
    requires Sum(counts) == |xs|
    ensures |r| == |counts| && forall s :: 0 <= s < |r| ==> |r[s]| == counts[s]
  {
    if counts == [] then [] else [xs[..counts[0]]] + Split(xs[counts[0]..], counts[1..])
  }

  /** Stored hashes, in the shapes real writers emit. */
  function HashSections(opts: Options): (r: seq<Sec>)
    ensures Named(r)
  {
    match (opts.md5Hash, opts.sha1Hash)
    case (Some(m), Some(s)) =>
      [Sec(Digest, Put(Put(Zeros(80), 0, m), 16, s), []), Sec(Hash, Put(Zeros(36), 0, m), [])]
    case (Some(m), None) => [Sec(Hash, Put(Zeros(36), 0, m), [])]
    case (None, Some(s)) => [Sec(Digest, Put(Zeros(20), 0, s), [])]
    case (None, None) => []
  }

  /** Go's copy(dst[at:], src): as much of src as fits. */
  function Put(dst: bytes, at: nat, src: bytes): (r: bytes)
    requires at <= |dst|
    ensures |r| == |dst|
  {
    Patch(dst, at, src[..Min(|src|, |dst| - at)])
  }

  function WrapSections(c: Codec, disk: bytes, opts: Options): (r: seq<Sec>)
    ensures Named(r)
  {
    var front := FrontSections(c, disk, opts);
    var stored := StoredChunks(c, disk, ChunkBytesOf(opts), opts.compress, opts.shortFinalChunk);
    var addr := FILE_HEADER_LENGTH + SecsSize(front);
    var body := if opts.layout == EnCase1 then [TableWithChunks(c, opts.compress, addr, stored)]
                else AllPairs(c, opts, addr, Split(stored, GroupCounts(|stored|, opts.sections)));
    front + body + [Sec(Data, VolumeData(c, disk, opts), [])] + HashSections(opts)
  }

  /** EnCase 1: the chunks follow the table footer inside the table section; base points at them. */
  function TableWithChunks(c: Codec, mode: CompressMode, addr: nat, stored: seq<bytes>): Sec {
    var base := addr + SECTION_LENGTH + TABLE_HEADER_LENGTH + 4 * |stored| + CHUNK_FOOTER_LENGTH;
    Sec(Table, TablePayload(c, TableEntries(mode, stored, 0), base), Concat(stored))
  }

  function WrapBytes(c: Codec, disk: bytes, opts: Options): bytes {
    FileBytes(c, 1, WrapSections(c, disk, opts))
  }
}

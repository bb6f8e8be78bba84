/**
 * What a sector read returns (internal/read.go): the chunk formula, and the bytes of a range as a
 * function of the decoded chunks.
 */
module SectorRead {
  import opened Bytes
  import opened Codec
  import opened Segments
  import opened Sections
  import opened Planner
  import opened ChunkLru

  const COMPRESSED: nat := 0x8000_0000

  // ------------------------------------------------------------ one chunk

  /** The logical offset of a chunk: base (if any) plus the low 31 bits, rebased by the table's own segment. */
  function ChunkOffset(segs: seq<Segment>, t: ChunkTable, ci: nat): int
    requires ci < |t.entries|
  {
    var rel := t.entries[ci] % COMPRESSED;
    var off := if t.base != 0 then Int64(Int64(t.base) + rel) else rel;
    if t.segment < |segs| then Int64(off + segs[t.segment].start) else off
  }

  /** readChunk: the stored bytes at off, decompressed or checksummed, or None for any error. */
  function ReadChunk(c: Codec, image: bytes, off: nat, chunkBytes: nat, compressed: bool,
                     expected: nat): Option<bytes> {
    if expected == 0 || expected > chunkBytes then None
    else if compressed then
      var data := Clamp(image, off, chunkBytes);
      if data == [] then None
      else
        var r := if c.zlibHeader(data) then c.zlibRead(data) else c.rawRead(data);
        if r.clean && |r.out| >= expected then Some(r.out) else None
    else
      var data := Clamp(image, off, expected + CHUNK_FOOTER_LENGTH);
      if |data| < expected + CHUNK_FOOTER_LENGTH || c.adler(data[..expected]) != LE(data[expected..expected + 4])
      then None
      else Some(data[..expected])
  }

  /** readChunkForSectionUncached. */
  function ReadTableChunk(c: Codec, segs: seq<Segment>, t: ChunkTable, ci: nat, chunkBytes: nat,
                          expected: nat): Option<bytes> {
    if ci >= |t.entries| || ChunkOffset(segs, t, ci) < 0 then None
    else ReadChunk(c, Joined(segs), ChunkOffset(segs, t, ci), chunkBytes, t.entries[ci] >= COMPRESSED, expected)
  }

  // ------------------------------------------------------------ a range of sectors

  /** What decoding each chunk gives, by flat chunk number. */
  type Chunks = seq<Option<bytes>>

  /** Byte b of the media: the covering chunk's byte, or zero past what is stored. */
  function ByteAt(cb: nat, chunks: Chunks, b: nat): byte
    requires cb > 0
  {
    var g := b / cb;
    if g < |chunks| && chunks[g].Some? && b % cb < |chunks[g].value| then chunks[g].value[b % cb] else 0
  }

  /** n bytes of the media from byte b. */
  function MediaBytes(cb: nat, chunks: Chunks, b: nat, n: nat): (r: bytes)
    requires cb > 0
    ensures |r| == n
  {
    seq<byte>(n, k requires 0 <= k < n => ByteAt(cb, chunks, b + k))
  }

  /** The first sector in [cur, end) whose chunk does not decode. */
  function FirstBad(l: Layout, chunks: Chunks, end: nat, cur: nat): Option<nat>
    requires l.Valid() && |chunks| == l.Chunks()
    decreases end - cur
  {
    if cur >= end || cur >= l.TotalSectors() then None
    else
      InRange(l, cur);
      ChunkAdvances(l, cur);
      if chunks[cur / l.cs].None? then Some(cur)
      else FirstBad(l, chunks, end, Min(cur / l.cs * l.cs + l.cs, end))
  }

  /** The specification of the two passes: the media bytes, or the first failing sector. */
  function ReadRange(l: Layout, chunks: Chunks, start: nat, n: nat): Result<bytes, nat>
    requires l.Valid() && |chunks| == l.Chunks()
  {
    match FirstBad(l, chunks, start + n, start)
    case Some(s) => Err(s)
    case None => Ok(MediaBytes(l.ChunkBytes(), chunks, start * l.ss, n * l.ss))
  }

  // ------------------------------------------------------------ the assembly pass

  /** Copies one decoded chunk's span home; a chunk shorter than the span leaves the tail zero. */
  function Place(result: bytes, j: Job, data: bytes): (r: bytes)
    requires j.dst + j.span <= |result|
    ensures |r| == |result|
  {
    var avail := Min(|data| - j.srcFirst, j.span);
    if avail > 0 then Patch(result, j.dst, data[j.srcFirst..j.srcFirst + avail]) else result
  }

  ghost predicate JobsFit(jobs: seq<Job>, len: nat) {
    forall i :: 0 <= i < |jobs| ==> jobs[i].dst + jobs[i].span <= len
  }

  /** Assembles decoded jobs in order; the first failure wins. */
  function Assemble(jobs: seq<Job>, data: seq<Option<bytes>>, result: bytes): (r: Result<bytes, nat>)
    requires |data| == |jobs| && JobsFit(jobs, |result|)
    ensures r.Ok? ==> |r.value| == |result|
  {
    if jobs == [] then Ok(result)
    else if data[0].None? then Err(jobs[0].sector)
    else Assemble(jobs[1..], data[1..], Place(result, jobs[0], data[0].value))
  }

  /** What each job's chunk decodes to. */
  function DecodeJobs(l: Layout, chunks: Chunks, jobs: seq<Job>): (r: seq<Option<bytes>>)
    requires l.Valid() && |chunks| == l.Chunks() && forall i :: 0 <= i < |jobs| ==> jobs[i].sector < l.TotalSectors()
    ensures |r| == |jobs|
  {
    seq(|jobs|, i requires 0 <= i < |jobs| => InRange(l, jobs[i].sector); chunks[jobs[i].sector / l.cs])
  }

  /** The spans of the jobs lie inside the result, and their sectors inside the coverage. */
  lemma {:induction false} JobsInBounds(l: Layout, start: nat, end: nat, cur: nat)
    requires l.Valid() && start <= cur <= end
    ensures JobsFit(JobsFrom(l, start, end, cur), (end - start) * l.ss)
    ensures forall j :: j in JobsFrom(l, start, end, cur) ==> j.sector < l.TotalSectors()
    decreases end - cur
  {
    if cur < end && cur < l.TotalSectors() {
      ChunkAdvances(l, cur);
      var next := Min(cur / l.cs * l.cs + l.cs, end);
      JobsInBounds(l, start, end, next);
      MulAdd(cur - start, next - cur, l.ss);
      MulLe(next - start, end - start, l.ss);
    }
  }

  /** The first m bytes of the result are media bytes from byte b; the rest is still zero. */
  ghost predicate AssembledTo(result: bytes, cb: nat, chunks: Chunks, b: nat, m: nat)
    requires cb > 0
  {
    && m <= |result|
    && (forall k :: 0 <= k < m ==> result[k] == ByteAt(cb, chunks, b + k))
    && (forall k :: m <= k < |result| ==> result[k] == 0)
  }

  /** Placing the span of chunk g at the frontier moves the frontier to the end of the span. */
  lemma PlaceAdvances(result: bytes, cb: nat, chunks: Chunks, b: nat, j: Job, g: nat)
    requires cb > 0 && g < |chunks| && chunks[g].Some?
    requires j.dst + j.span <= |result|
    requires b + j.dst == g * cb + j.srcFirst && j.srcFirst + j.span <= cb
    requires AssembledTo(result, cb, chunks, b, j.dst)
    ensures AssembledTo(Place(result, j, chunks[g].value), cb, chunks, b, j.dst + j.span)
  {
    var data := chunks[g].value;
    var r := Place(result, j, data);
    forall k | j.dst <= k < j.dst + j.span ensures r[k] == ByteAt(cb, chunks, b + k) {
      var o := j.srcFirst + (k - j.dst);
      assert b + k == g * cb + o;
      DivModUnique(b + k, cb, g, o);
      assert o < |data| ==> r[k] == data[j.srcFirst..j.srcFirst + Min(|data| - j.srcFirst, j.span)][k - j.dst];
    }
  }

  /** Byte and sector positions of the job covering cur. */
  lemma JobBytes(l: Layout, start: nat, end: nat, cur: nat)
    requires l.Valid() && start <= cur < end && cur < l.TotalSectors()
    ensures var j, g := JobFor(l, start, end, cur), cur / l.cs;
            && start * l.ss + j.dst == g * l.ChunkBytes() + j.srcFirst
            && j.srcFirst + j.span <= l.ChunkBytes()
            && j.dst + j.span == (Min(g * l.cs + l.cs, end) - start) * l.ss <= (end - start) * l.ss
  {
    ChunkAdvances(l, cur);
    var g := cur / l.cs;
    var next := Min(g * l.cs + l.cs, end);
    MulAdd(start, cur - start, l.ss);
    MulAdd(g * l.cs, cur - g * l.cs, l.ss);
    MulAssoc(g, l.cs, l.ss);
    MulAdd(cur - g * l.cs, next - cur, l.ss);
    MulLe(next - g * l.cs, l.cs, l.ss);
    MulAdd(cur - start, next - cur, l.ss);
    MulLe(next - start, end - start, l.ss);
  }

  /** Past the coverage the media reads as zero. */
  lemma BeyondCoverage(l: Layout, chunks: Chunks, b: nat)
    requires l.Valid() && |chunks| == l.Chunks() && b >= l.TotalSectors() * l.ss
    ensures ByteAt(l.ChunkBytes(), chunks, b) == 0
  {
    var cb := l.ChunkBytes();
    MulAssoc(l.Chunks(), l.cs, l.ss);
    assert b == b / cb * cb + b % cb;
    if b / cb < l.Chunks() {
      MulLe(b / cb + 1, l.Chunks(), cb);
      MulAdd(b / cb, 1, cb);
      assert false;
    }
  }

  /** Carrying on from sector cur with a result assembled so far gives the media bytes, or the first bad sector. */
  ghost predicate Completes(l: Layout, chunks: Chunks, start: nat, end: nat, cur: nat, result: bytes)
    requires l.Valid() && |chunks| == l.Chunks() && start <= cur
  {
    var jobs := JobsFrom(l, start, end, cur);
    && JobsFit(jobs, |result|) && (forall j :: j in jobs ==> j.sector < l.TotalSectors())
    && Assemble(jobs, DecodeJobs(l, chunks, jobs), result) ==
       match FirstBad(l, chunks, end, cur)
       case Some(s) => Err(s)
       case None => Ok(MediaBytes(l.ChunkBytes(), chunks, start * l.ss, |result|))
  }

  lemma {:induction false} AssembleFrom(l: Layout, chunks: Chunks, start: nat, end: nat, cur: nat, result: bytes)
    requires l.Valid() && |chunks| == l.Chunks() && start <= cur <= end && start < l.TotalSectors()
    requires |result| == (end - start) * l.ss && 0 <= (cur - start) * l.ss <= |result|
    requires AssembledTo(result, l.ChunkBytes(), chunks, start * l.ss, (cur - start) * l.ss)
    ensures Completes(l, chunks, start, end, cur, result)
    decreases end - cur
  {
    hide AssembledTo, MediaBytes, Place, Completes;
    if cur >= end || cur >= l.TotalSectors() {
      RestIsZero(l, chunks, start, end, cur, result);
      NoJobsLeft(l, chunks, start, end, cur, result);
    } else {
      ChunkAdvances(l, cur);
      InRange(l, cur);
      var g := cur / l.cs;
      var next := Min(g * l.cs + l.cs, end);
      JobBytes(l, start, end, cur);
      if chunks[g].Some? {
        var j := JobFor(l, start, end, cur);
        PlaceAdvances(result, l.ChunkBytes(), chunks, start * l.ss, j, g);
        AssembleFrom(l, chunks, start, end, next, Place(result, j, chunks[g].value));
      }
      FirstJobDone(l, chunks, start, end, cur, g, next, result);
    }
  }

  lemma NoJobsLeft(l: Layout, chunks: Chunks, start: nat, end: nat, cur: nat, result: bytes)
    requires l.Valid() && |chunks| == l.Chunks() && start <= cur && (cur >= end || cur >= l.TotalSectors())
    requires result == MediaBytes(l.ChunkBytes(), chunks, start * l.ss, |result|)
    ensures Completes(l, chunks, start, end, cur, result)
  {
  }

  lemma FirstJobDone(l: Layout, chunks: Chunks, start: nat, end: nat, cur: nat, g: nat, next: nat, result: bytes)
    requires l.Valid() && |chunks| == l.Chunks() && start <= cur < end && cur < l.TotalSectors()
    requires |result| == (end - start) * l.ss && g == cur / l.cs && g < |chunks|
    requires next == Min(g * l.cs + l.cs, end) && start <= next
    requires var j := JobFor(l, start, end, cur);
             && j.dst + j.span <= |result|
             && (chunks[g].Some? ==> Completes(l, chunks, start, end, next, Place(result, j, chunks[g].value)))
    ensures Completes(l, chunks, start, end, cur, result)
  {
    hide MediaBytes, Place, JobsFrom, Assemble, DecodeJobs, FirstBad, JobsFit;
    JobsInBounds(l, start, end, cur);
    JobsHead(l, chunks, start, end, cur);
    JobsInBounds(l, start, end, next);
    AssembleHead(l, chunks, JobFor(l, start, end, cur), JobsFrom(l, start, end, next), result);
  }

  /** The first job and the first chunk that may be bad, and the rest. */
  lemma JobsHead(l: Layout, chunks: Chunks, start: nat, end: nat, cur: nat)
    requires l.Valid() && |chunks| == l.Chunks() && start <= cur < end && cur < l.TotalSectors()
    ensures var next := Min(cur / l.cs * l.cs + l.cs, end);
            && cur < next
               && JobsFrom(l, start, end, cur) == [JobFor(l, start, end, cur)] + JobsFrom(l, start, end, next)
            && cur / l.cs < |chunks|
            && FirstBad(l, chunks, end, cur) ==
               if chunks[cur / l.cs].None? then Some(cur) else FirstBad(l, chunks, end, next)
  {
    ChunkAdvances(l, cur);
    InRange(l, cur);
  }

  lemma AssembleHead(l: Layout, chunks: Chunks, j: Job, rest: seq<Job>, result: bytes)
    requires l.Valid() && |chunks| == l.Chunks() && JobsFit(rest, |result|) && j.dst + j.span <= |result|
    requires j.sector < l.TotalSectors() && forall k :: k in rest ==> k.sector < l.TotalSectors()
    ensures JobsFit([j] + rest, |result|) && j.sector / l.cs < |chunks|
    ensures Assemble([j] + rest, DecodeJobs(l, chunks, [j] + rest), result) ==
            match chunks[j.sector / l.cs]
            case None => Err(j.sector)
            case Some(d) => Assemble(rest, DecodeJobs(l, chunks, rest), Place(result, j, d))
  {
    hide Place;
    InRange(l, j.sector);
    var jobs := [j] + rest;
    assert jobs[1..] == rest;
    assert JobsFit(jobs, |result|);
    DecodeFirst(l, chunks, j, rest);
  }

  lemma DecodeFirst(l: Layout, chunks: Chunks, j: Job, rest: seq<Job>)
    requires l.Valid() && |chunks| == l.Chunks() && j.sector < l.TotalSectors()
             && forall k :: k in rest ==> k.sector < l.TotalSectors()
    ensures j.sector / l.cs < |chunks|
    ensures DecodeJobs(l, chunks, [j] + rest)[0] == chunks[j.sector / l.cs]
    ensures DecodeJobs(l, chunks, [j] + rest)[1..] == DecodeJobs(l, chunks, rest)
  {
    InRange(l, j.sector);
  }

  lemma RestIsZero(l: Layout, chunks: Chunks, start: nat, end: nat, cur: nat, result: bytes)
    requires l.Valid() && |chunks| == l.Chunks() && start <= cur <= end
    requires |result| == (end - start) * l.ss && (cur == end || cur >= l.TotalSectors())
    requires 0 <= (cur - start) * l.ss <= |result|
    requires AssembledTo(result, l.ChunkBytes(), chunks, start * l.ss, (cur - start) * l.ss)
    ensures result == MediaBytes(l.ChunkBytes(), chunks, start * l.ss, |result|)
  {
    var cb, b := l.ChunkBytes(), start * l.ss;
    forall k | 0 <= k < |result| ensures result[k] == ByteAt(cb, chunks, b + k) {
      if k >= (cur - start) * l.ss {
        MulAdd(start, cur - start, l.ss);
        MulLe(l.TotalSectors(), cur, l.ss);
        BeyondCoverage(l, chunks, b + k);
      }
    }
  }

  /** Planning then assembling is the specification: the media bytes, or the first failing sector. */
  lemma AssembleIsReadRange(l: Layout, chunks: Chunks, start: nat, n: nat)
    requires l.Valid() && |chunks| == l.Chunks() && start < l.TotalSectors()
    ensures var jobs := JobsFrom(l, start, start + n, start);
            && JobsFit(jobs, n * l.ss) && (forall j :: j in jobs ==> j.sector < l.TotalSectors())
            && Assemble(jobs, DecodeJobs(l, chunks, jobs), Zeros(n * l.ss)) == ReadRange(l, chunks, start, n)
  {
    AssembleFrom(l, chunks, start, start + n, start, Zeros(n * l.ss));
  }

  // ------------------------------------------------------------ adjacent reads

  lemma {:induction false} FirstBadSplit(l: Layout, chunks: Chunks, cur: nat, mid: nat, end: nat)
    requires l.Valid() && |chunks| == l.Chunks() && cur <= mid <= end
    ensures FirstBad(l, chunks, end, cur) ==
            if FirstBad(l, chunks, mid, cur).Some? then FirstBad(l, chunks, mid, cur) else FirstBad(l, chunks, end, mid)
    decreases end - cur
  {
    if cur < mid && cur < l.TotalSectors() {
      InRange(l, cur);
      ChunkAdvances(l, cur);
      var chunkEnd := cur / l.cs * l.cs + l.cs;
      if chunks[cur / l.cs].Some? {
        if chunkEnd <= mid {
          FirstBadSplit(l, chunks, chunkEnd, mid, end);
        } else {
          DivModUnique(mid, l.cs, cur / l.cs, mid - cur / l.cs * l.cs);
        }
      }
    }
  }

  /**
   * Reads of adjacent ranges concatenate: one read of n + m sectors succeeds exactly when both
   * halves do, returns their bytes in order, and otherwise fails at the same first sector.
   */
  lemma AdjacentReads(l: Layout, chunks: Chunks, start: nat, n: nat, m: nat)
    requires l.Valid() && |chunks| == l.Chunks()
    ensures var a, b := ReadRange(l, chunks, start, n), ReadRange(l, chunks, start + n, m);
            ReadRange(l, chunks, start, n + m) ==
            if a.Err? then a else if b.Err? then b else Ok(a.value + b.value)
  {
    hide FirstBad, MediaBytes;
    FirstBadSplit(l, chunks, start, start + n, start + n + m);
    MulAdd(start, n, l.ss);
    MulAdd(n, m, l.ss);
    MediaJoin(l.ChunkBytes(), chunks, start * l.ss, n * l.ss, m * l.ss);
  }

  lemma MediaJoin(cb: nat, chunks: Chunks, b: nat, n: nat, m: nat)
    requires cb > 0
    ensures MediaBytes(cb, chunks, b, n + m) == MediaBytes(cb, chunks, b, n) + MediaBytes(cb, chunks, b + n, m)
  {
    hide ByteAt;
    var whole, first, second := MediaBytes(cb, chunks, b, n + m), MediaBytes(cb, chunks, b, n),
      MediaBytes(cb, chunks, b + n, m);
    forall k | 0 <= k < n + m ensures whole[k] == (first + second)[k] {
      if k >= n { assert b + n + (k - n) == b + k; }
    }
  }

  // ------------------------------------------------------------ a whole image

  const DEFAULT_SECTOR_SIZE: nat := 512
  const DEFAULT_CHUNK_SECTORS: nat := 64
  const MAX_CHUNK_BYTES: nat := 0x400_0000   // 64 MiB
  const MAX_READ_BYTES: nat := 0x4000_0000   // 1 GiB

  function SectorSize(disks: seq<DiskSMART>): (r: nat)
    ensures r > 0
  {
    if disks != [] && disks[0].sectorBytes > 0 then disks[0].sectorBytes else DEFAULT_SECTOR_SIZE
  }

  function ChunkSectors(disks: seq<DiskSMART>): (r: nat)
    ensures r > 0
  {
    if disks != [] && disks[0].chunkSectors > 0 then disks[0].chunkSectors else DEFAULT_CHUNK_SECTORS
  }

  function Counts(tables: seq<ChunkTable>): (r: seq<nat>)
    ensures |r| == |tables|
  {
    seq(|tables|, i requires 0 <= i < |tables| => |tables[i].entries|)
  }

  function LayoutOf(disks: seq<DiskSMART>, tables: seq<ChunkTable>): (l: Layout)
    ensures l.Valid() && l.counts == Counts(tables)
  {
    var cs := ChunkSectors(disks);
    var total := Sum(Counts(tables)) * cs;
    var media := if disks != [] && 0 < disks[0].sectorsCount < total then disks[0].sectorsCount else total;
    Layout(SectorSize(disks), cs, media, Counts(tables))
  }

  /** The length each chunk must decode to: a function of its section and index alone. */
  function Lengths(l: Layout): (r: seq<seq<nat>>)
    requires l.Valid()
    ensures |r| == |l.counts| && forall s :: 0 <= s < |r| ==> |r[s]| == l.counts[s]
  {
    seq<seq<nat>>(|l.counts|, s requires 0 <= s < |l.counts| =>
      seq<nat>(l.counts[s], i requires 0 <= i < l.counts[s] => l.ValidBytes(Sum(l.counts[..s]) + i)))
  }

  /** Decoding every chunk of every table with no cache. */
  function DecodedTables(c: Codec, segs: seq<Segment>, tables: seq<ChunkTable>, chunkBytes: nat, lengths: seq<seq<nat>>)
    : (r: seq<seq<Option<bytes>>>)
    requires |lengths| == |tables|
    ensures |r| == |tables| && forall s :: 0 <= s < |tables| ==> |r[s]| == |lengths[s]|
  {
    seq(|tables|, s requires 0 <= s < |tables| =>
      seq(|lengths[s]|, i requires 0 <= i < |lengths[s]| =>
        ReadTableChunk(c, segs, tables[s], i, chunkBytes, lengths[s][i])))
  }

  /** All chunks of the image in flat order. */
  function Flatten(l: Layout, decoded: seq<seq<Option<bytes>>>): (r: Chunks)
    requires |decoded| == |l.counts| && forall s :: 0 <= s < |decoded| ==> |decoded[s]| == l.counts[s]
    ensures |r| == l.Chunks()
  {
    seq(l.Chunks(), g requires 0 <= g < l.Chunks() => var at := Locate(l.counts, g); decoded[at.0][at.1])
  }

  function DecodedChunks(c: Codec, segs: seq<Segment>, tables: seq<ChunkTable>, l: Layout): (r: Chunks)
    requires l.Valid() && l.counts == Counts(tables)
    ensures |r| == l.Chunks()
  {
    Flatten(l, DecodedTables(c, segs, tables, l.ChunkBytes(), Lengths(l)))
  }

  datatype ReadError = NoSectors | BadGeometry | BeyondEnd | TooLarge | BadChunk(sector: nat)

  /** What ReadSectorData returns for a parsed image. */
  function ReadSectors(c: Codec, segs: seq<Segment>, disks: seq<DiskSMART>, tables: seq<ChunkTable>, start: nat, n: nat)
    : Result<bytes, ReadError>
  {
    var l := LayoutOf(disks, tables);
    if tables == [] then Err(NoSectors)
    else if l.cs > MAX_CHUNK_BYTES / l.ss then Err(BadGeometry)
    else if start >= l.TotalSectors() then Err(BeyondEnd)
    else if n > MAX_READ_BYTES / l.ss then Err(TooLarge)
    else
      match ReadRange(l, DecodedChunks(c, segs, tables, l), start, n)
      case Err(s) => Err(BadChunk(s))
      case Ok(b) => Ok(b)
  }

  /** A planned job names the key, and expects the length, of the chunk that covers its sector. */
  lemma {:induction false} JobsNameTheirChunks(l: Layout, start: nat, end: nat, cur: nat)
    requires l.Valid() && start <= cur
    ensures forall j :: j in JobsFrom(l, start, end, cur) ==> JobNamesChunk(l, j)
    decreases end - cur
  {
    if cur < end && cur < l.TotalSectors() {
      ChunkAdvances(l, cur);
      InRange(l, cur);
      NumberOfLocated(l.counts, cur / l.cs);
      JobsNameTheirChunks(l, start, end, Min(cur / l.cs * l.cs + l.cs, end));
      assert JobNamesChunk(l, JobFor(l, start, end, cur));
    }
  }

  ghost predicate JobNamesChunk(l: Layout, j: Job)
    requires l.Valid()
  {
    && j.sector < l.TotalSectors() && j.sector / l.cs < l.Chunks()
    && Locate(l.counts, j.sector / l.cs) == (j.si, j.ci)
    && j.valid == l.ValidBytes(j.sector / l.cs)
    && j.sector / l.cs == Sum(l.counts[..j.si]) + j.ci
  }

  /** Assembling batch by batch is assembling at once. */
  lemma {:induction false} AssembleSplit(a: seq<Job>, b: seq<Job>, da: seq<Option<bytes>>, db: seq<Option<bytes>>,
                                         result: bytes)
    requires |a| == |da| && |b| == |db| && JobsFit(a + b, |result|)
    ensures JobsFit(a, |result|) && JobsFit(b, |result|)
    ensures Assemble(a + b, da + db, result) ==
            match Assemble(a, da, result) case Err(s) => Err(s) case Ok(r) => Assemble(b, db, r)
  {
    forall i | 0 <= i < |a| ensures a[i].dst + a[i].span <= |result| { assert (a + b)[i] == a[i]; }
    forall i | 0 <= i < |b| ensures b[i].dst + b[i].span <= |result| { assert (a + b)[|a| + i] == b[i]; }
    if a == [] {
      assert a + b == b && da + db == db;
    } else if da[0].Some? {
      assert (a + b)[1..] == a[1..] + b && (da + db)[1..] == da[1..] + db;
      AssembleSplit(a[1..], b, da[1..], db, Place(result, a[0], da[0].value));
    }
  }
}

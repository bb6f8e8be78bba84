/** The evidence image object: section lists filled by parsing, sector reads served through the cache. */
module Image {
  import opened Bytes
  import opened Codec
  import opened Segments
  import opened Sections
  import opened Planner
  import opened SectorRead
  import opened ChunkLru
  import opened Schedule

  const CHUNK_CACHE_MAX_BYTES: nat := 0x400_0000   // 64 MiB

  class EWFImage {
    const codec: Codec
    var segments: seq<Segment>
    var sections: seq<SectionAt>
    var disks: seq<DiskSMART>
    var sectorsAddress: seq<SectionAt>
    var tableAddress: seq<SectionAt>
    var sectors: seq<ChunkTable>
    var storedMD5: bytes
    var storedSHA1: bytes
    var chunkCache: ChunkCache?   // null disables caching

    /** Open on files already read: cumulative starts, no sections yet, an empty cache. */
    constructor (codec: Codec, files: seq<bytes>)
      ensures this.codec == codec && Files(segments) == files && PrefixSums(segments)
      ensures sections == [] && sectors == [] && Gathered() == NOTHING
      ensures chunkCache != null && fresh(chunkCache.Repr) && Ready([]) && Cached() == []
    {
      this.codec := codec;
      var segs := AssignStarts(files);
      segments, sections, sectors := segs, [], [];
      disks, sectorsAddress, tableAddress, storedMD5, storedSHA1 := [], [], [], [], [];
      chunkCache := new ChunkCache(CHUNK_CACHE_MAX_BYTES);
    }

    ghost function Gathered(): Collected
      reads this
    {
      Collected(disks, sectorsAddress, tableAddress, storedMD5, storedSHA1)
    }

    /** Walks the section chain of every segment file, appending what it finds. */
    method ReadSections() returns (ok: bool)
      requires PrefixSums(segments)
      modifies this`sections
      ensures var w := WalkSegments(Joined(segments), segments, 0);
              sections == old(sections) + w.value && ok == w.ok
    {
      hide PrefixSums, WalkFrom;
      ghost var image, segs, was := Joined(segments), segments, sections;
      ghost var done: seq<SectionAt> := [];
      PrependTwice(done, done, WalkSegments(image, segs, 0));
      for k := 0 to |segments|
        invariant segments == segs && sections == was + done
        invariant WalkSegments(image, segs, 0) == Prepend(done, WalkSegments(image, segs, k))
      {
        WalkSegmentsStep(image, segs, k, done);
        ghost var found := WalkFrom(image, k, segs[k].start, segs[k].start + FILE_HEADER_LENGTH).value;
        AppendAssoc(was, done, found);
        ok := WalkSegment(k);
        done := done + found;
        if !ok { return; }
      }
      assert done + [] == done;
      ok := true;
    }

    /** One segment's chain: stops at "done", at a zero or backward next offset, or at a short descriptor. */
    method WalkSegment(k: nat) returns (ok: bool)
      requires PrefixSums(segments) && k < |segments|
      modifies this`sections
      ensures var w := WalkFrom(Joined(segments), k, segments[k].start, segments[k].start + FILE_HEADER_LENGTH);
              sections == old(sections) + w.value && ok == w.ok
    {
      ghost var image, was := Joined(segments), sections;
      var start := segments[k].start;
      var address := start + FILE_HEADER_LENGTH;
      ghost var done: seq<SectionAt> := [];
      PrependTwice(done, done, WalkFrom(image, k, start, address));
      while true
        invariant segments == old(segments) && sections == was + done
        invariant WalkFrom(image, k, start, start + FILE_HEADER_LENGTH) ==
                  Prepend(done, WalkFrom(image, k, start, address))
        decreases |image| - address
      {
        var buf := Segments.ReadAt(segments, address, SECTION_LENGTH);
        if buf.None? || |buf.value| < SECTION_LENGTH {
          assert done + [] == done;
          return false;
        }
        var here := SectionAt(address, k, DecodeSection(buf.value));
        var next := NextAddress(start, address, here.desc);
        sections := sections + [here];
        assert was + (done + [here]) == was + done + [here];
        if next.None? { return true; }
        PrependTwice(done, [here], WalkFrom(image, k, start, next.value));
        done := done + [here];
        address := next.value;
      }
    }

    /** One section of ParseSections' switch. */
    method ParseOne(v: SectionAt) returns (ok: bool)
      requires PrefixSums(segments)
      modifies this`disks, this`sectorsAddress, this`tableAddress, this`storedMD5, this`storedSHA1
      ensures Progress(Gathered(), ok) == CollectOne(codec, Joined(segments), old(Gathered()), v)
    {
      var image, name := Joined(segments), v.desc.name;
      ok := true;
      if name == Header2 || name == Header {
        ok := HeaderAccepted(codec, image, v);
      } else if name == Volume || name == Disk {
        var d := VolumeOf(image, v);
        if d.Some? { disks := disks + [d.value]; }
      } else if name == Sectors {
        sectorsAddress := sectorsAddress + [v];
      } else if name == Table {
        tableAddress := tableAddress + [v];
      } else if name == Digest {
        var b := HashPayload(image, v);
        if b.Some? {
          storedMD5 := b.value[..16];
          if |b.value| >= 36 { storedSHA1 := b.value[16..36]; }
        }
      } else if name == Hash {
        var b := HashPayload(image, v);
        if b.Some? { storedMD5 := b.value[..16]; }
      }
    }

    /**
     * Collects every section, then pairs sectors sections with tables.  A header or table that
     * fails stops the parse with what was gathered so far.
     */
    method ParseSections() returns (ok: bool)
      requires PrefixSums(segments)
      modifies this`disks, this`sectorsAddress, this`tableAddress, this`storedMD5, this`storedSHA1, this`sectors
      ensures var r := CollectAll(codec, Joined(segments), old(Gathered()), sections);
              && Gathered() == r.value
              && if !r.ok then !ok && sectors == old(sectors)
                 else var p := PairTables(Joined(segments), r.value.sectorsAt, r.value.tablesAt);
                      ok == p.ok && sectors == old(sectors) + p.value
    {
      ghost var image, before := Joined(segments), Gathered();
      for k := 0 to |sections|
        invariant sectors == old(sectors)
        invariant CollectAll(codec, image, before, sections) == CollectAll(codec, image, Gathered(), sections[k..])
      {
        assert sections[k..][1..] == sections[k + 1..];
        ok := ParseOne(sections[k]);
        if !ok { return; }
      }
      if |tableAddress| > 0 && |sectorsAddress| == 0 {
        ok := Pair(tableAddress);
      } else {
        ok := Pair(sectorsAddress);
      }
    }

    /** Gives the k-th of the homes the k-th table, stopping at a missing or malformed table. */
    method Pair(homes: seq<SectionAt>) returns (ok: bool)
      requires PrefixSums(segments)
      modifies this`sectors
      ensures var p := PairFrom(Joined(segments), homes, tableAddress);
              ok == p.ok && sectors == old(sectors) + p.value
    {
      ghost var image, was := Joined(segments), sectors;
      ghost var done: seq<ChunkTable> := [];
      PrependTwice(done, done, PairFrom(image, homes, tableAddress));
      assert homes[0..] == homes && tableAddress[0..] == tableAddress;
      for k := 0 to |homes|
        invariant k <= |tableAddress| && sectors == was + done
        invariant PairFrom(image, homes, tableAddress) == Prepend(done, PairFrom(image, homes[k..], tableAddress[k..]))
      {
        if k >= |tableAddress| {
          assert done + [] == done;
          return false;
        }
        var t := TableOf(Joined(segments), tableAddress[k]);
        if t.None? {
          assert done + [] == done;
          return false;
        }
        var table := ChunkTable(homes[k].address, t.value.entries, t.value.base, tableAddress[k].segment);
        assert homes[k..][1..] == homes[k + 1..] && tableAddress[k..][1..] == tableAddress[k + 1..];
        PrependTwice(done, [table], PairFrom(image, homes[k + 1..], tableAddress[k + 1..]));
        AppendAssoc(was, done, [table]);
        sectors := sectors + [table];
        done := done + [table];
      }
      assert done + [] == done;
      ok := true;
    }

    /** What opening does after the files are found: walk, then parse.  Nothing is cached yet. */
    method Load() returns (ok: bool)
      requires Ready([]) && Cached() == []
      requires sections == [] && sectors == [] && Gathered() == NOTHING
      modifies this`sections, this`disks, this`sectorsAddress, this`tableAddress, this`storedMD5, this`storedSHA1,
          this`sectors
      ensures ok == ParseImage(codec, segments).Some?
      ensures ok ==> Parsed(disks, sectors, storedMD5, storedSHA1) == ParseImage(codec, segments).value
      ensures ok ==> Ready(AllDecoded())
    {
      hide CollectAll, PairTables, WalkSegments;
      ghost var image := Joined(segments);
      ghost var w := WalkSegments(image, segments, 0);
      ghost var r := CollectAll(codec, image, NOTHING, w.value);
      ghost var t := PairTables(image, r.value.sectorsAt, r.value.tablesAt);
      assert [] + w.value == w.value && [] + t.value == t.value;
      ok := ReadSections();
      if ok { ok := ParseSections(); }
    }

    // ---------------------------------------------------------- sector reads

    /** The objects of the cache: all that a read may change. */
    ghost function CacheRepr(): set<object>
      reads this, chunkCache
    {
      if chunkCache == null then {} else chunkCache.Repr
    }

    ghost function Cached(): seq<Entry>
      reads this, chunkCache
    {
      if chunkCache == null then [] else chunkCache.Contents
    }

    /** Between reads: the cache, if there is one, holds nothing but what decoding its keys gives. */
    ghost predicate Ready(decoded: seq<seq<Option<bytes>>>)
      reads this, chunkCache, CacheRepr()
    {
      && PrefixSums(segments)
      && (chunkCache != null ==> chunkCache.Valid()) && this !in CacheRepr()
      && CacheCorrect(decoded, Cached())
    }

    lemma ReadyOwns(decoded: seq<seq<Option<bytes>>>)
      requires Ready(decoded)
      ensures this !in CacheRepr() && CacheCorrect(decoded, Cached())
    {
    }

    /** decoded[s][i] is what chunk i of section s decodes to, with the length recorded for it, without a cache. */
    ghost predicate Decodes(decoded: seq<seq<Option<bytes>>>, chunkBytes: nat, lengths: seq<seq<nat>>)
      reads this
    {
      |lengths| == |sectors| && decoded == DecodedTables(codec, segments, sectors, chunkBytes, lengths)
    }

    /** readChunk: one stored chunk, decompressed or checked, or None for an error. */
    method ReadStored(off: nat, chunkBytes: nat, compressed: bool, expected: nat) returns (r: Option<bytes>)
      requires PrefixSums(segments)
      ensures r == ReadChunk(codec, Joined(segments), off, chunkBytes, compressed, expected)
    {
      if expected == 0 || expected > chunkBytes { return None; }
      if compressed {
        var data := Segments.ReadAt(segments, off, chunkBytes);
        if data == None || data.value == [] { return None; }
        if codec.zlibHeader(data.value) {
          var z := codec.zlibRead(data.value);
          if !z.clean || |z.out| < expected { return None; }
          return Some(z.out);
        }
        var f := codec.rawRead(data.value);
        if !f.clean || |f.out| < expected { return None; }
        return Some(f.out);
      }
      var data := Segments.ReadAt(segments, off, expected + CHUNK_FOOTER_LENGTH);
      if data == None || |data.value| < expected + CHUNK_FOOTER_LENGTH { return None; }
      if codec.adler(data.value[..expected]) != LE(data.value[expected..expected + 4]) { return None; }
      return Some(data.value[..expected]);
    }

    method ReadUncached(si: nat, ci: nat, chunkBytes: nat, expected: nat) returns (r: Option<bytes>)
      requires PrefixSums(segments) && si < |sectors|
      ensures r == ReadTableChunk(codec, segments, sectors[si], ci, chunkBytes, expected)
    {
      var t := sectors[si];
      if ci >= |t.entries| { return None; }
      var off := ChunkOffset(segments, t, ci);
      if off < 0 { return None; }
      r := ReadStored(off, chunkBytes, t.entries[ci] >= COMPRESSED, expected);
    }

    /** A cache lookup, if there is a cache: a hit is what decoding would give. */
    method Recall(k: Key, ghost decoded: seq<seq<Option<bytes>>>) returns (hit: Option<bytes>)
      requires Ready(decoded)
      modifies chunkCache
      ensures Ready(decoded) && CacheRepr() == old(CacheRepr())
      ensures hit == if chunkCache == null then None else Find(old(Cached()), k)
      ensures Cached() == if hit == None then old(Cached()) else Touch(old(Cached()), k)
      ensures hit.Some? ==> hit == Truth(decoded, k)
    {
      if chunkCache == null { return None; }
      CacheKeeps(decoded, Cached(), chunkCache.cap, k, []);
      hit := chunkCache.Get(k);
    }

    /** Stores a decoded chunk, if there is a cache. */
    method Remember(k: Key, d: bytes, ghost decoded: seq<seq<Option<bytes>>>)
      requires Ready(decoded) && Truth(decoded, k) == Some(d)
      modifies CacheRepr()
      ensures Ready(decoded) && (forall o :: o in CacheRepr() ==> o in old(CacheRepr()) || fresh(o))
      ensures Cached() == if chunkCache == null then old(Cached()) else PutSpec(old(Cached()), chunkCache.cap, k, d)
    {
      if chunkCache != null {
        CacheKeeps(decoded, Cached(), chunkCache.cap, k, d);
        chunkCache.Put(k, d);
      }
    }

    /** A chunk through the cache: the same result as without it, and the cache stays correct. */
    method ReadCached(si: nat, ci: nat, chunkBytes: nat, expected: nat,
                      ghost decoded: seq<seq<Option<bytes>>>, ghost lengths: seq<seq<nat>>)
      returns (r: Option<bytes>)
      requires Ready(decoded) && Decodes(decoded, chunkBytes, lengths) && Expected(lengths, si, ci, expected)
      modifies CacheRepr()
      ensures Ready(decoded) && (forall o :: o in CacheRepr() ==> o in old(CacheRepr()) || fresh(o))
      ensures r == Truth(decoded, Key(si, ci))
    {
      r := Recall(Key(si, ci), decoded);
      if r == None {
        r := ReadUncached(si, ci, chunkBytes, expected);
        if r.Some? {
          Remember(Key(si, ci), r.value, decoded);
        }
      }
    }

    // ---------------------------------------------------------- batches of jobs

    ghost function BatchOf(jobs: seq<Job>, decoded: seq<seq<Option<bytes>>>): Batch
      reads this, chunkCache
    {
      Batch(KeysOf(jobs), decoded, chunkCache != null, if chunkCache == null then 0 else chunkCache.cap)
    }

    /** One move of worker w on the shared cache: a step of the scheduling state machine. */
    method Move(jobs: seq<Job>, chunkBytes: nat, w: nat, next: nat, phases: seq<Phase>,
                slots: seq<Option<Option<bytes>>>,
                ghost decoded: seq<seq<Option<bytes>>>, ghost lengths: seq<seq<nat>>)
      returns (next': nat, phases': seq<Phase>, slots': seq<Option<Option<bytes>>>)
      requires Ready(decoded) && Decodes(decoded, chunkBytes, lengths) && JobsExpected(lengths, jobs)
      requires var s := State(next, phases, Cached(), slots); Inv(BatchOf(jobs, decoded), s) && Active(s, w)
      modifies CacheRepr()
      ensures Ready(decoded) && (forall o :: o in CacheRepr() ==> o in old(CacheRepr()) || fresh(o))
      ensures State(next', phases', Cached(), slots') ==
              WorkerStep(BatchOf(jobs, decoded), State(next, phases, old(Cached()), slots), w)
    {
      next', phases', slots' := next, phases, slots;
      match phases[w] {
        case Idle =>
          if next < |jobs| {
            next', phases' := next + 1, phases[w := Phase.Lookup(next)];
          } else {
            phases' := phases[w := Phase.Exited];
          }
        case Lookup(i) =>
          var hit := Recall(Key(jobs[i].si, jobs[i].ci), decoded);
          phases' := phases[w := if hit.Some? then Phase.Write(i, hit) else Phase.Decode(i)];
        case Decode(i) =>
          var r := ReadUncached(jobs[i].si, jobs[i].ci, chunkBytes, jobs[i].valid);
          phases' := phases[w := if r.Some? then Phase.Store(i, r.value) else Phase.Write(i, r)];
        case Store(i, d) =>
          Remember(Key(jobs[i].si, jobs[i].ci), d, decoded);
          phases' := phases[w := Phase.Write(i, Some(d))];
        case Write(i, r) =>
          phases', slots' := phases[w := Phase.Idle], slots[i := Some(r)];
      }
    }

    /** The worker pool: any worker that has not exited may move next. */
    method RunPool(jobs: seq<Job>, chunkBytes: nat, workers: nat,
                   ghost decoded: seq<seq<Option<bytes>>>, ghost lengths: seq<seq<nat>>)
      returns (data: seq<Option<bytes>>)
      requires Ready(decoded) && Decodes(decoded, chunkBytes, lengths) && JobsExpected(lengths, jobs) && workers > 0
      modifies CacheRepr()
      ensures Ready(decoded) && (forall o :: o in CacheRepr() ==> o in old(CacheRepr()) || fresh(o))
      ensures data == Outcomes(decoded, jobs)
    {
      hide Ready, Decodes, Truth;
      ReadyOwns(decoded);
      ghost var b := BatchOf(jobs, decoded);
      var next := 0;
      var phases := seq(workers, _ => Phase.Idle);
      var slots: seq<Option<Option<bytes>>> := seq(|jobs|, _ => None);
      InitInv(b, State(next, phases, Cached(), slots));
      while exists w :: 0 <= w < |phases| && phases[w] != Phase.Exited
        invariant Ready(decoded) && (forall o :: o in CacheRepr() ==> o in old(CacheRepr()) || fresh(o))
                  && BatchOf(jobs, decoded) == b
        invariant Inv(b, State(next, phases, Cached(), slots)) && Decodes(decoded, chunkBytes, lengths)
        decreases Work(b, State(next, phases, Cached(), slots))
      {
        var w :| 0 <= w < |phases| && phases[w] != Phase.Exited;
        ReadyOwns(decoded);
        WorkerKeeps(b, State(next, phases, Cached(), slots), w);
        MoveUsesWork(b, State(next, phases, Cached(), slots), w);
        next, phases, slots := Move(jobs, chunkBytes, w, next, phases, slots, decoded, lengths);
      }
      FinishedSlots(b, State(next, phases, Cached(), slots));
      data := seq(|jobs|, i requires 0 <= i < |jobs| => slots[i].value);
    }

    /** The small-batch path: one chunk after the other. */
    method RunInOrder(jobs: seq<Job>, chunkBytes: nat,
                      ghost decoded: seq<seq<Option<bytes>>>, ghost lengths: seq<seq<nat>>)
      returns (data: seq<Option<bytes>>)
      requires Ready(decoded) && Decodes(decoded, chunkBytes, lengths) && JobsExpected(lengths, jobs)
      modifies CacheRepr()
      ensures Ready(decoded) && (forall o :: o in CacheRepr() ==> o in old(CacheRepr()) || fresh(o))
      ensures data == Outcomes(decoded, jobs)
    {
      hide Ready, Decodes, Truth;
      data := [];
      for i := 0 to |jobs|
        invariant Decodes(decoded, chunkBytes, lengths)
        invariant Ready(decoded) && (forall o :: o in CacheRepr() ==> o in old(CacheRepr()) || fresh(o))
        invariant data == Outcomes(decoded, jobs)[..i]
      {
        ReadyOwns(decoded);
        var d := ReadCached(jobs[i].si, jobs[i].ci, chunkBytes, jobs[i].valid, decoded, lengths);
        data := data + [d];
      }
    }

    method RunBatch(jobs: seq<Job>, chunkBytes: nat, gomaxprocs: int,
                    ghost decoded: seq<seq<Option<bytes>>>, ghost lengths: seq<seq<nat>>)
      returns (data: seq<Option<bytes>>)
      requires Ready(decoded) && Decodes(decoded, chunkBytes, lengths) && JobsExpected(lengths, jobs)
      modifies CacheRepr()
      ensures Ready(decoded) && (forall o :: o in CacheRepr() ==> o in old(CacheRepr()) || fresh(o))
      ensures data == Outcomes(decoded, jobs)
    {
      var workers := if gomaxprocs < 1 then 1 else gomaxprocs;
      if |jobs| >= workers * 2 {
        data := RunPool(jobs, chunkBytes, workers, decoded, lengths);
      } else {
        data := RunInOrder(jobs, chunkBytes, decoded, lengths);
      }
    }

    /** Runs the jobs batch by batch into a zeroed result; the first failing chunk aborts the read. */
    method ReadJobs(jobs: seq<Job>, chunkBytes: nat, len: nat, gomaxprocs: int,
                    ghost decoded: seq<seq<Option<bytes>>>, ghost lengths: seq<seq<nat>>)
      returns (r: Result<bytes, nat>)
      requires Ready(decoded) && Decodes(decoded, chunkBytes, lengths) && JobsExpected(lengths, jobs)
      requires JobsFit(jobs, len)
      modifies CacheRepr()
      ensures Ready(decoded) && (forall o :: o in CacheRepr() ==> o in old(CacheRepr()) || fresh(o))
      ensures r == Assemble(jobs, Outcomes(decoded, jobs), Zeros(len))
    {
      var result := new byte[len](_ => 0);
      assert result[..] == Zeros(len);
      NothingAssembledYet(decoded, jobs, result[..]);
      var lo := 0;
      while lo < |jobs|
        invariant 0 <= lo <= |jobs| && Ready(decoded)
                  && (forall o :: o in CacheRepr() ==> o in old(CacheRepr()) || fresh(o))
        invariant result !in CacheRepr() && result.Length == len
        invariant Assemble(jobs, Outcomes(decoded, jobs), Zeros(len)) == AssembleRest(decoded, jobs, lo, result[..])
      {
        var hi := Min(lo + PARALLEL_BATCH, |jobs|);
        BatchSplit(decoded, jobs, lo, hi, result[..]);
        var bad := ReadBatch(result, jobs[lo..hi], chunkBytes, gomaxprocs, decoded, lengths);
        if bad.Some? { return Err(bad.value); }
        lo := hi;
      }
      NothingAssembledYet(decoded, jobs, result[..]);
      return Ok(result[..]);
    }

    /** Decodes one batch and copies its spans into the result. */
    method ReadBatch(result: array<byte>, jobs: seq<Job>, chunkBytes: nat, gomaxprocs: int,
                     ghost decoded: seq<seq<Option<bytes>>>, ghost lengths: seq<seq<nat>>)
      returns (bad: Option<nat>)
      requires Ready(decoded) && Decodes(decoded, chunkBytes, lengths) && JobsExpected(lengths, jobs)
      requires result !in CacheRepr() && JobsFit(jobs, result.Length)
      modifies CacheRepr(), result
      ensures Ready(decoded) && (forall o :: o in CacheRepr() ==> o in old(CacheRepr()) || fresh(o))
              && result !in CacheRepr()
      ensures match Assemble(jobs, Outcomes(decoded, jobs), old(result[..]))
              case Ok(r) => bad == None && result[..] == r
              case Err(s) => bad == Some(s)
    {
      var data := RunBatch(jobs, chunkBytes, gomaxprocs, decoded, lengths);
      bad := AssembleBatch(result, jobs, data);
    }

    ghost function AllDecoded(): seq<seq<Option<bytes>>>
      reads this
    {
      var l := LayoutOf(disks, sectors);
      DecodedTables(codec, segments, sectors, l.ChunkBytes(), Lengths(l))
    }

    /**
     * Serves n sectors from start: plan, decode in batches on however many processors, assemble.
     * The result does not depend on the cache or on the schedule, and the cache stays correct.
     */
    method ReadSectorData(start: nat, n: nat, gomaxprocs: int) returns (r: Result<bytes, ReadError>)
      requires Ready(AllDecoded())
      modifies CacheRepr()
      ensures Ready(AllDecoded()) && (forall o :: o in CacheRepr() ==> o in old(CacheRepr()) || fresh(o))
      ensures r == ReadSectors(codec, segments, disks, sectors, start, n)
    {
      if |sectors| == 0 { return Err(NoSectors); }
      var l := LayoutOf(disks, sectors);
      if l.cs > MAX_CHUNK_BYTES / l.ss { return Err(BadGeometry); }
      if start >= l.TotalSectors() { return Err(BeyondEnd); }
      if n > MAX_READ_BYTES / l.ss { return Err(TooLarge); }
      var jobs := Plan(l, start, n);
      ghost var decoded := AllDecoded();
      PlannedJobs(l, decoded, start, n);
      var bytes := ReadJobs(jobs, l.ChunkBytes(), n * l.ss, gomaxprocs, decoded, Lengths(l));
      r := match bytes case Err(s) => Err(BadChunk(s)) case Ok(b) => Ok(b);
    }
  }

  /** The planned jobs expect the right lengths, and assembling their outcomes is the specified read. */
  lemma PlannedJobs(l: Layout, decoded: seq<seq<Option<bytes>>>, start: nat, n: nat)
    requires l.Valid() && start < l.TotalSectors()
    requires |decoded| == |l.counts| && forall s :: 0 <= s < |decoded| ==> |decoded[s]| == l.counts[s]
    ensures var jobs := JobsFrom(l, start, start + n, start);
            && JobsExpected(Lengths(l), jobs) && JobsFit(jobs, n * l.ss)
            && Assemble(jobs, Outcomes(decoded, jobs), Zeros(n * l.ss)) == ReadRange(l, Flatten(l, decoded), start, n)
  {
    AssembleIsReadRange(l, Flatten(l, decoded), start, n);
    JobsNameTheirChunks(l, start, start + n, start);
    OutcomesFlat(l, decoded, JobsFrom(l, start, start + n, start));
  }

  lemma OutcomesFlat(l: Layout, decoded: seq<seq<Option<bytes>>>, jobs: seq<Job>)
    requires l.Valid() && forall j :: j in jobs ==> j.sector < l.TotalSectors() && JobNamesChunk(l, j)
    requires |decoded| == |l.counts| && forall s :: 0 <= s < |decoded| ==> |decoded[s]| == l.counts[s]
    ensures JobsExpected(Lengths(l), jobs)
    ensures Outcomes(decoded, jobs) == DecodeJobs(l, Flatten(l, decoded), jobs)
  {
    forall i | 0 <= i < |jobs|
      ensures Expected(Lengths(l), jobs[i].si, jobs[i].ci, jobs[i].valid)
      ensures Outcomes(decoded, jobs)[i] == DecodeJobs(l, Flatten(l, decoded), jobs)[i]
    {
      assert JobNamesChunk(l, jobs[i]);
    }
  }

  const PARALLEL_BATCH: nat := 256

  /** What is still to come: assembling the jobs from lo on into the result so far. */
  ghost function AssembleRest(decoded: seq<seq<Option<bytes>>>, jobs: seq<Job>, lo: nat,
                              result: bytes): (r: Result<bytes, nat>)
    requires lo <= |jobs| && JobsFit(jobs, |result|)
  {
    Assemble(jobs[lo..], Outcomes(decoded, jobs[lo..]), result)
  }

  lemma BatchSplit(decoded: seq<seq<Option<bytes>>>, jobs: seq<Job>, lo: nat, hi: nat, result: bytes)
    requires lo <= hi <= |jobs| && JobsFit(jobs, |result|)
    ensures JobsFit(jobs[lo..hi], |result|)
    ensures AssembleRest(decoded, jobs, lo, result) ==
            match Assemble(jobs[lo..hi], Outcomes(decoded, jobs[lo..hi]), result)
            case Err(s) => Err(s)
            case Ok(r) => AssembleRest(decoded, jobs, hi, r)
  {
    assert jobs[lo..] == jobs[lo..hi] + jobs[hi..];
    assert Outcomes(decoded, jobs[lo..]) == Outcomes(decoded, jobs[lo..hi]) + Outcomes(decoded, jobs[hi..]);
    AssembleSplit(jobs[lo..hi], jobs[hi..], Outcomes(decoded, jobs[lo..hi]), Outcomes(decoded, jobs[hi..]), result);
  }

  lemma NothingAssembledYet(decoded: seq<seq<Option<bytes>>>, jobs: seq<Job>, result: bytes)
    requires JobsFit(jobs, |result|)
    ensures AssembleRest(decoded, jobs, 0, result) == Assemble(jobs, Outcomes(decoded, jobs), result)
    ensures AssembleRest(decoded, jobs, |jobs|, result) == Ok(result)
  {
    assert jobs[0..] == jobs;
  }

  /** Copies each decoded span home, stopping at the first failure. */
  method AssembleBatch(result: array<byte>, jobs: seq<Job>, data: seq<Option<bytes>>) returns (bad: Option<nat>)
    requires |data| == |jobs| && JobsFit(jobs, result.Length)
    modifies result
    ensures match Assemble(jobs, data, old(result[..]))
            case Ok(r) => bad == None && result[..] == r
            case Err(s) => bad == Some(s)
  {
    assert jobs[0..] == jobs && data[0..] == data;
    for i := 0 to |jobs|
      invariant Assemble(jobs, data, old(result[..])) == Assemble(jobs[i..], data[i..], result[..])
    {
      var j := jobs[i];
      assert jobs[i..][1..] == jobs[i + 1..] && data[i..][1..] == data[i + 1..];
      if data[i].None? { return Some(j.sector); }
      PlaceInto(result, j, data[i].value);
    }
    return None;
  }

  /** A decompressed chunk shorter than its span has its tail left as it is. */
  method PlaceInto(result: array<byte>, j: Job, data: bytes)
    requires j.dst + j.span <= result.Length
    modifies result
    ensures result[..] == Place(old(result[..]), j, data)
  {
    var avail := Min(|data| - j.srcFirst, j.span);
    if avail > 0 {
      CopyInto(result, j.dst, data[j.srcFirst..j.srcFirst + avail]);
    }
  }

  /** What each job's chunk decodes to. */
  function Outcomes(decoded: seq<seq<Option<bytes>>>, jobs: seq<Job>): (r: seq<Option<bytes>>)
    ensures |r| == |jobs|
  {
    seq(|jobs|, i requires 0 <= i < |jobs| => Truth(decoded, Key(jobs[i].si, jobs[i].ci)))
  }

  /** Chunk (si, ci) exists, and expected is the length it must decode to. */
  ghost predicate Expected(lengths: seq<seq<nat>>, si: nat, ci: nat, expected: nat) {
    si < |lengths| && ci < |lengths[si]| && expected == lengths[si][ci]
  }

  ghost predicate JobsExpected(lengths: seq<seq<nat>>, jobs: seq<Job>) {
    forall i :: 0 <= i < |jobs| ==> Expected(lengths, jobs[i].si, jobs[i].ci, jobs[i].valid)
  }

  function KeysOf(jobs: seq<Job>): (r: seq<Key>)
    ensures |r| == |jobs| && forall i :: 0 <= i < |jobs| ==> r[i] == Key(jobs[i].si, jobs[i].ci)
  {
    seq(|jobs|, i requires 0 <= i < |jobs| => Key(jobs[i].si, jobs[i].ci))
  }
}

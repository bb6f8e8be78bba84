/**
 * The container round trip: parsing the files the writer emits and reading any range of sectors
 * gives those sectors of the disk that was wrapped.
 */
module RoundTrip {
  import opened Bytes
  import opened Codec
  import opened Segments
  import opened Sections
  import opened Planner
  import opened SectorRead
  import opened Fixture
  import opened Reparse

  // ------------------------------------------------------------ collecting a written file

  /** Payloads that are read are not empty. */
  ghost predicate Filled(ss: seq<Sec>) {
    forall i :: 0 <= i < |ss| ==> ss[i].name == Sectors || ss[i].payload != []
  }

  /** What the sections of one file contribute, told from their payloads. */
  function CollectSecs(c: Codec, p: Collected, k: nat, start: nat, addr: nat, ss: seq<Sec>): Progress<Collected>
    decreases |ss|
  {
    if ss == [] then Progress(p, true)
    else
      var r := CollectPayload(c, p, PlacedAt(k, start, addr, ss[0]), ss[0].payload);
      if !r.ok then r else CollectSecs(c, r.value, k, start, addr + SecSize(ss[0]), ss[1..])
  }

  lemma CollectFirst(c: Codec, image: bytes, p: Collected, k: nat, start: nat, addr: nat, ss: seq<Sec>)
    requires Named(ss) && ss != [] && Ordinary(ss[0]) && (ss[0].name == Sectors || ss[0].payload != [])
    requires addr > 0 && start + addr + SecSize(ss[0]) < INT63
    requires Holds(image, start + addr, Chain(c, addr, ss))
    ensures CollectOne(c, image, p, PlacedAt(k, start, addr, ss[0])) ==
            CollectPayload(c, p, PlacedAt(k, start, addr, ss[0]), ss[0].payload)
    ensures Holds(image, start + (addr + SecSize(ss[0])), Chain(c, addr + SecSize(ss[0]), ss[1..]))
  {
    hide Descriptor, Chain, SecBytes, Holds, CollectOne, CollectPayload, SectionAtAddress, NextAddress;
    var s := ss[0];
    ChainSplit(c, addr, ss);
    HoldsPrefix(image, start + addr, SecBytes(c, addr, s), Chain(c, addr + SecSize(s), ss[1..]));
    SectionWritten(c, image, start, addr, s);
    HoldsPrefix(image, start + addr + SECTION_LENGTH, s.payload, s.tail);
    CollectWritten(c, image, p, PlacedAt(k, start, addr, s), s.payload);
  }

  lemma {:induction false} CollectFile(c: Codec, image: bytes, p: Collected, k: nat, start: nat, addr: nat,
                                       ss: seq<Sec>)
    requires Named(ss) && AllOrdinary(ss) && Filled(ss) && addr > 0 && start + addr + SecsSize(ss) < INT63
    requires Holds(image, start + addr, Chain(c, addr, ss))
    ensures CollectAll(c, image, p, Placed(k, start, addr, ss)) == CollectSecs(c, p, k, start, addr, ss)
    decreases |ss|
  {
    hide Chain, Holds, CollectOne, CollectPayload, SecBytes;
    if ss != [] {
      var v, next := PlacedAt(k, start, addr, ss[0]), addr + SecSize(ss[0]);
      CollectFirst(c, image, p, k, start, addr, ss);
      assert Placed(k, start, addr, ss)[1..] == Placed(k, start, next, ss[1..]);
      var r := CollectPayload(c, p, v, ss[0].payload);
      if r.ok {
        CollectFile(c, image, r.value, k, start, next, ss[1..]);
      }
    }
  }

  lemma CollectCons(c: Codec, p: Collected, k: nat, start: nat, addr: nat, s: Sec, rest: seq<Sec>)
    ensures CollectSecs(c, p, k, start, addr, [s] + rest) ==
            var r := CollectPayload(c, p, PlacedAt(k, start, addr, s), s.payload);
            if r.ok then CollectSecs(c, r.value, k, start, addr + SecSize(s), rest) else r
  {
    assert ([s] + rest)[0] == s && ([s] + rest)[1..] == rest;
  }

  lemma CollectNothing(c: Codec, p: Collected, k: nat, start: nat, addr: nat)
    ensures CollectSecs(c, p, k, start, addr, []) == Progress(p, true)
  {
  }

  lemma {:induction false} CollectSecsSplit(c: Codec, p: Collected, k: nat, start: nat, addr: nat, a: seq<Sec>,
                                            b: seq<Sec>)
    ensures SecsSize(a + b) == SecsSize(a) + SecsSize(b)
    ensures CollectSecs(c, p, k, start, addr, a + b) ==
            var r := CollectSecs(c, p, k, start, addr, a);
            if r.ok then CollectSecs(c, r.value, k, start, addr + SecsSize(a), b) else r
    decreases |a|
  {
    hide CollectPayload, PlacedAt, SecSize;
    if a == [] {
      assert a + b == b;
    } else {
      assert (a + b)[0] == a[0] && (a + b)[1..] == a[1..] + b;
      var r := CollectPayload(c, p, PlacedAt(k, start, addr, a[0]), a[0].payload);
      CollectSecsSplit(c, r.value, k, start, addr + SecSize(a[0]), a[1..], b);
    }
  }

  // ------------------------------------------------------------ the pieces of WrapDisk

  function DiskGeometry(disk: bytes, opts: Options): DiskSMART {
    DiskSMART(EffectiveChunkSectors(opts), SECTOR_SIZE, |disk| / SECTOR_SIZE)
  }

  /** Two accepted headers, then the same volume twice. */
  lemma CollectHeadersAndVolumes(c: Codec, p: Collected, start: nat, addr: nat, hz: bytes, vol: bytes)
    requires HeaderIn(c, hz) && |vol| == DISK_SMART_LENGTH
    ensures CollectSecs(c, p, 0, start, addr,
                        [Sec(Header2, hz, []), Sec(Header, hz, []), Sec(Volume, vol, []), Sec(Disk, vol, [])]) ==
            Progress(p.(disks := p.disks + [VolumeIn(vol), VolumeIn(vol)]), true)
  {
    hide VolumeIn, HeaderIn, CollectSecs;
    var g := VolumeIn(vol);
    var p1 := p.(disks := p.disks + [g]);
    var h2, h, v, d := Sec(Header2, hz, []), Sec(Header, hz, []), Sec(Volume, vol, []), Sec(Disk, vol, []);
    var a1 := addr + SecSize(h2);
    var a2 := a1 + SecSize(h);
    var a3 := a2 + SecSize(v);
    assert [h2, h, v, d] == [h2] + [h, v, d] && [h, v, d] == [h] + [v, d] && [v, d] == [v] + [d] && [d] == [d] + [];
    CollectCons(c, p, 0, start, addr, h2, [h, v, d]);
    CollectCons(c, p, 0, start, a1, h, [v, d]);
    CollectCons(c, p, 0, start, a2, v, [d]);
    CollectCons(c, p1, 0, start, a3, d, []);
    CollectNothing(c, p1.(disks := p1.disks + [g]), 0, start, a3 + SecSize(d));
    assert p.disks + [g] + [g] == p.disks + [g, g];
  }

  lemma CollectFront(c: Codec, p: Collected, start: nat, addr: nat, disk: bytes, opts: Options)
    requires Lawful(c) && EffectiveChunkSectors(opts) < UINT32 && |disk| < INT63
    ensures CollectSecs(c, p, 0, start, addr, FrontSections(c, disk, opts)) ==
            Progress(p.(disks := p.disks + [DiskGeometry(disk, opts), DiskGeometry(disk, opts)]), true)
  {
    HeaderWritten(c);
    VolumeWritten(c, ChunkCount(disk, ChunkBytesOf(opts)), EffectiveChunkSectors(opts), SECTOR_SIZE,
                  |disk| / SECTOR_SIZE);
    CollectHeadersAndVolumes(c, p, start, addr, c.deflate(HEADER_TEXT), VolumeData(c, disk, opts));
  }

  /** The stored hashes a list of digest and hash sections leaves behind. */
  function StoredHashes(opts: Options, md5: bytes, sha1: bytes): (bytes, bytes) {
    match (opts.md5Hash, opts.sha1Hash)
    case (Some(m), Some(s)) => (Put(Zeros(36), 0, m)[..16], Put(Put(Zeros(80), 0, m), 16, s)[16..36])
    case (Some(m), None) => (Put(Zeros(36), 0, m)[..16], sha1)
    case (None, Some(s)) => (Put(Zeros(20), 0, s)[..16], sha1)
    case (None, None) => (md5, sha1)
  }

  lemma CollectHashes(c: Codec, p: Collected, start: nat, addr: nat, opts: Options)
    ensures CollectSecs(c, p, 0, start, addr, HashSections(opts)) ==
            var h := StoredHashes(opts, p.md5, p.sha1); Progress(p.(md5 := h.0, sha1 := h.1), true)
  {
    var ss := HashSections(opts);
    if |ss| == 2 {
      assert ss == [ss[0]] + [ss[1]] && [ss[1]] == [ss[1]] + [];
      CollectCons(c, p, 0, start, addr, ss[0], [ss[1]]);
      var p1 := CollectPayload(c, p, PlacedAt(0, start, addr, ss[0]), ss[0].payload).value;
      CollectCons(c, p1, 0, start, addr + SecSize(ss[0]), ss[1], []);
    } else if |ss| == 1 {
      assert ss == [ss[0]] + [];
      CollectCons(c, p, 0, start, addr, ss[0], []);
    }
  }

  // ------------------------------------------------------------ sectors sections and their tables

  function ChunkStart(opts: Options, addr: nat): nat { addr + SECTION_LENGTH + opts.slackBytes }

  function PairBase(opts: Options, addr: nat, stored: seq<bytes>): (b: nat)
    ensures b <= ChunkStart(opts, addr)
  {
    TableBase(opts.layout, ChunkStart(opts, addr), |stored|)
  }

  function SectorsSec(opts: Options, stored: seq<bytes>): Sec {
    Sec(Sectors, Zeros(opts.slackBytes) + Concat(stored), [])
  }

  function TableSec(c: Codec, opts: Options, addr: nat, stored: seq<bytes>): Sec {
    var base := PairBase(opts, addr, stored);
    Sec(Table, TablePayload(c, TableEntries(opts.compress, stored, ChunkStart(opts, addr) - base), base), [])
  }

  /** The chunk table a pair is parsed to. */
  function PairTable(k: nat, start: nat, opts: Options, addr: nat, stored: seq<bytes>): ChunkTable {
    var base := PairBase(opts, addr, stored);
    ChunkTable(start + addr, TableEntries(opts.compress, stored, ChunkStart(opts, addr) - base), base, k)
  }

  function Homes(c: Codec, k: nat, start: nat, opts: Options, addr: nat, groups: seq<seq<bytes>>): (r: seq<SectionAt>)
    ensures |r| == |groups|
    decreases |groups|
  {
    if groups == [] then []
    else [PlacedAt(k, start, addr, SectorsSec(opts, groups[0]))]
         + Homes(c, k, start, opts, addr + SecsSize(PairSections(c, opts, addr, groups[0])), groups[1..])
  }

  function TableHomes(c: Codec, k: nat, start: nat, opts: Options, addr: nat,
                      groups: seq<seq<bytes>>): (r: seq<SectionAt>)
    ensures |r| == |groups|
    decreases |groups|
  {
    if groups == [] then []
    else [PlacedAt(k, start, addr + SecSize(SectorsSec(opts, groups[0])), TableSec(c, opts, addr, groups[0]))]
         + TableHomes(c, k, start, opts, addr + SecsSize(PairSections(c, opts, addr, groups[0])), groups[1..])
  }

  function GroupTables(c: Codec, k: nat, start: nat, opts: Options, addr: nat,
                       groups: seq<seq<bytes>>): (r: seq<ChunkTable>)
    ensures |r| == |groups|
    decreases |groups|
  {
    if groups == [] then []
    else [PairTable(k, start, opts, addr, groups[0])]
         + GroupTables(c, k, start, opts, addr + SecsSize(PairSections(c, opts, addr, groups[0])), groups[1..])
  }

  /** More sectors sections found, and their tables unless the writer left tables out. */
  function Extend(p: Collected, opts: Options, homes: seq<SectionAt>, tables: seq<SectionAt>): Collected {
    p.(sectorsAt := p.sectorsAt + homes, tablesAt := if opts.skipTable then p.tablesAt else p.tablesAt + tables)
  }

  lemma ExtendTwice(p: Collected, opts: Options, h: seq<SectionAt>, t: seq<SectionAt>, h': seq<SectionAt>,
                    t': seq<SectionAt>)
    ensures Extend(Extend(p, opts, h, t), opts, h', t') == Extend(p, opts, h + h', t + t')
    ensures Extend(p, opts, [], []) == p
  {
    AppendAssoc(p.sectorsAt, h, h');
    AppendAssoc(p.tablesAt, t, t');
    assert p.sectorsAt + [] == p.sectorsAt && p.tablesAt + [] == p.tablesAt;
  }

  lemma CollectTables(c: Codec, p: Collected, k: nat, start: nat, addr: nat, opts: Options, payload: bytes)
    ensures CollectSecs(c, p, k, start, addr, TableSections(opts, payload)) ==
            Progress(Extend(p, opts, [], [PlacedAt(k, start, addr, Sec(Table, payload, []))]), true)
  {
    var t, m := Sec(Table, payload, []), Sec(Table2, payload, []);
    assert p.sectorsAt + [] == p.sectorsAt;
    if !opts.skipTable {
      var mirror := if opts.noTable2 then [] else [m];
      assert TableSections(opts, payload) == [t] + mirror && [m] == [m] + [];
      CollectCons(c, p, k, start, addr, t, mirror);
      var p2 := p.(tablesAt := p.tablesAt + [PlacedAt(k, start, addr, t)]);
      CollectCons(c, p2, k, start, addr + SecSize(t), m, []);
    }
  }

  lemma CollectSectors(c: Codec, p: Collected, opts: Options, v: SectionAt, payload: bytes)
    requires v.desc.name == Sectors
    ensures CollectPayload(c, p, v, payload) == Progress(Extend(p, opts, [v], []), true)
  {
    assert p.tablesAt + [] == p.tablesAt;
  }

  lemma CollectPair(c: Codec, p: Collected, k: nat, start: nat, opts: Options, addr: nat, stored: seq<bytes>)
    ensures var s := SectorsSec(opts, stored);
            CollectSecs(c, p, k, start, addr, PairSections(c, opts, addr, stored)) ==
            Progress(Extend(p, opts, [PlacedAt(k, start, addr, s)],
                            [PlacedAt(k, start, addr + SecSize(s), TableSec(c, opts, addr, stored))]), true)
  {
    hide CollectSecs, TablePayload, TableEntries, TableSections, Extend;
    var s, t := SectorsSec(opts, stored), TableSec(c, opts, addr, stored);
    CollectCons(c, p, k, start, addr, s, TableSections(opts, t.payload));
    var p1 := Extend(p, opts, [PlacedAt(k, start, addr, s)], []);
    CollectSectors(c, p, opts, PlacedAt(k, start, addr, s), s.payload);
    CollectTables(c, p1, k, start, addr + SecSize(s), opts, t.payload);
    ExtendTwice(p, opts, [PlacedAt(k, start, addr, s)], [], [], [PlacedAt(k, start, addr + SecSize(s), t)]);
    assert [PlacedAt(k, start, addr, s)] + [] == [PlacedAt(k, start, addr, s)];
    assert [] + [PlacedAt(k, start, addr + SecSize(s), t)] == [PlacedAt(k, start, addr + SecSize(s), t)];
  }

  /** Collecting one stretch of sections and then another. */
  lemma CollectBoth(c: Codec, p: Collected, k: nat, start: nat, addr: nat, opts: Options, a: seq<Sec>, b: seq<Sec>,
                    h: seq<SectionAt>, t: seq<SectionAt>, h': seq<SectionAt>, t': seq<SectionAt>)
    requires CollectSecs(c, p, k, start, addr, a) == Progress(Extend(p, opts, h, t), true)
    requires CollectSecs(c, Extend(p, opts, h, t), k, start, addr + SecsSize(a), b) ==
             Progress(Extend(Extend(p, opts, h, t), opts, h', t'), true)
    ensures CollectSecs(c, p, k, start, addr, a + b) == Progress(Extend(p, opts, h + h', t + t'), true)
  {
    hide CollectSecs, Extend;
    CollectSecsSplit(c, p, k, start, addr, a, b);
    ExtendTwice(p, opts, h, t, h', t');
  }

  lemma {:induction false} CollectPairs(c: Codec, p: Collected, k: nat, start: nat, opts: Options, addr: nat,
                                        groups: seq<seq<bytes>>)
    ensures CollectSecs(c, p, k, start, addr, AllPairs(c, opts, addr, groups)) ==
            Progress(Extend(p, opts, Homes(c, k, start, opts, addr, groups),
                            TableHomes(c, k, start, opts, addr, groups)), true)
    decreases |groups|
  {
    hide CollectSecs, CollectPayload, PairSections, PlacedAt, TableSec, SectorsSec, Extend, SecsSize, SecSize;
    if groups == [] {
      CollectNone(c, p, k, start, addr, opts);
    } else {
      var here := PairSections(c, opts, addr, groups[0]);
      var next := addr + SecsSize(here);
      var h := [PlacedAt(k, start, addr, SectorsSec(opts, groups[0]))];
      var t := [PlacedAt(k, start, addr + SecSize(SectorsSec(opts, groups[0])), TableSec(c, opts, addr, groups[0]))];
      CollectPair(c, p, k, start, opts, addr, groups[0]);
      CollectPairs(c, Extend(p, opts, h, t), k, start, opts, next, groups[1..]);
      CollectBoth(c, p, k, start, addr, opts, here, AllPairs(c, opts, next, groups[1..]), h, t,
                  Homes(c, k, start, opts, next, groups[1..]), TableHomes(c, k, start, opts, next, groups[1..]));
    }
  }

  lemma CollectNone(c: Codec, p: Collected, k: nat, start: nat, addr: nat, opts: Options)
    ensures CollectSecs(c, p, k, start, addr, []) == Progress(Extend(p, opts, [], []), true)
  {
    ExtendTwice(p, opts, [], [], [], []);
  }

  // ------------------------------------------------------------ tables serve the chunks stored

  /** Through this table, chunk i is found at an offset where the image holds stored[i], with the right flag. */
  ghost predicate Serves(segs: seq<Segment>, image: bytes, t: ChunkTable, mode: CompressMode, stored: seq<bytes>) {
    |t.entries| == |stored| &&
    forall i :: 0 <= i < |stored| ==>
      && ChunkOffset(segs, t, i) >= 0 && Holds(image, ChunkOffset(segs, t, i), stored[i])
      && (t.entries[i] >= COMPRESSED <==> mode == Zlib)
  }

  /** The offsets relative to the table base fit the 31 bits an entry has for them. */
  ghost predicate OffsetsFit(stored: seq<bytes>, rel: nat) {
    forall i :: 0 <= i < |stored| ==> rel + |Concat(stored[..i])| < BIT31
  }

  lemma {:induction false} EntryOf(mode: CompressMode, stored: seq<bytes>, rel: nat, i: nat)
    requires i < |stored|
    ensures TableEntries(mode, stored, rel)[i] == TableEntry(mode, rel + |Concat(stored[..i])|)
  {
    if i > 0 {
      EntryOf(mode, stored[1..], rel + |stored[0]|, i - 1);
      assert stored[..i] == [stored[0]] + stored[1..][..i - 1];
      ConcatSplit([stored[0]], stored[1..][..i - 1]);
      assert Concat([stored[0]]) == stored[0];
    }
  }

  /** A table written over chunks that lie one after the other from logical offset start + at serves them. */
  lemma EntriesServe(segs: seq<Segment>, image: bytes, t: ChunkTable, mode: CompressMode, stored: seq<bytes>,
                     start: nat, at: nat)
    requires t.base <= at && t.entries == TableEntries(mode, stored, at - t.base) && OffsetsFit(stored, at - t.base)
    requires t.segment < |segs| && segs[t.segment].start == start
    requires Holds(image, start + at, Concat(stored)) && start + at + |Concat(stored)| < INT63
    ensures Serves(segs, image, t, mode, stored)
  {
    forall i | 0 <= i < |stored|
      ensures ChunkOffset(segs, t, i) >= 0 && Holds(image, ChunkOffset(segs, t, i), stored[i])
      ensures t.entries[i] >= COMPRESSED <==> mode == Zlib
    {
      EntryServes(segs, image, t, mode, stored, start, at, i);
    }
  }

  lemma EntryServes(segs: seq<Segment>, image: bytes, t: ChunkTable, mode: CompressMode, stored: seq<bytes>,
                    start: nat, at: nat, i: nat)
    requires t.base <= at && t.entries == TableEntries(mode, stored, at - t.base) && OffsetsFit(stored, at - t.base)
    requires t.segment < |segs| && segs[t.segment].start == start && i < |stored|
    requires Holds(image, start + at, Concat(stored)) && start + at + |Concat(stored)| < INT63
    ensures ChunkOffset(segs, t, i) >= 0 && Holds(image, ChunkOffset(segs, t, i), stored[i])
    ensures t.entries[i] >= COMPRESSED <==> mode == Zlib
  {
    hide Holds, Concat, TableEntries, ChunkOffset;
    var before := |Concat(stored[..i])|;
    EntryOf(mode, stored, at - t.base, i);
    ConcatAt(stored, i);
    PartHeld(image, start + at, Concat(stored), before, stored[i]);
    OffsetOf(segs, t, i, at - t.base + before);
  }

  lemma PartHeld(image: bytes, off: nat, whole: bytes, at: nat, part: bytes)
    requires Holds(image, off, whole) && Holds(whole, at, part)
    ensures Holds(image, off + at, part) && at + |part| <= |whole|
  {
    HoldsSlice(image, off, whole, at, at + |part|);
  }

  /** An entry whose low 31 bits are rel leads to start + base + rel. */
  lemma OffsetOf(segs: seq<Segment>, t: ChunkTable, i: nat, rel: nat)
    requires i < |t.entries| && t.entries[i] % COMPRESSED == rel && t.segment < |segs|
    requires segs[t.segment].start + t.base + rel < INT63
    ensures ChunkOffset(segs, t, i) == segs[t.segment].start + t.base + rel
  {
  }

  lemma {:induction false} SecsBytesSplit(c: Codec, addr: nat, a: seq<Sec>, b: seq<Sec>)
    requires Named(a) && Named(b)
    ensures Named(a + b)
    ensures SecsSize(a + b) == SecsSize(a) + SecsSize(b)
    ensures SecsBytes(c, addr, a + b) == SecsBytes(c, addr, a) + SecsBytes(c, addr + SecsSize(a), b)
    decreases |a|
  {
    hide SecBytes, SecSize, SecsBytes, SecsSize, Named;
    NamedJoin(a, b);
    if a == [] {
      assert a + b == b;
      NoSecs(c, addr);
      assert [] + SecsBytes(c, addr, b) == SecsBytes(c, addr, b);
    } else {
      var next := addr + SecSize(a[0]);
      NamedTail(a);
      assert (a + b)[0] == a[0] && (a + b)[1..] == a[1..] + b;
      FirstSec(c, addr, a);
      FirstSec(c, addr, a + b);
      SecsBytesSplit(c, next, a[1..], b);
      AppendAssoc(SecBytes(c, addr, a[0]), SecsBytes(c, next, a[1..]), SecsBytes(c, addr + SecsSize(a), b));
    }
  }

  lemma NamedJoin(a: seq<Sec>, b: seq<Sec>)
    requires Named(a) && Named(b)
    ensures Named(a + b)
  {
  }

  lemma NamedTail(a: seq<Sec>)
    requires Named(a) && a != []
    ensures !a[0].name.Other? && Named(a[1..])
  {
  }

  lemma NoSecs(c: Codec, addr: nat)
    ensures Named([]) && SecsSize([]) == 0 && SecsBytes(c, addr, []) == []
  {
  }

  lemma FirstSec(c: Codec, addr: nat, a: seq<Sec>)
    requires Named(a) && a != []
    ensures !a[0].name.Other? && Named(a[1..]) && SecsSize(a) == SecSize(a[0]) + SecsSize(a[1..])
    ensures SecsBytes(c, addr, a) == SecBytes(c, addr, a[0]) + SecsBytes(c, addr + SecSize(a[0]), a[1..])
  {
    hide SecBytes, SecSize;
  }

  /** A list of sections is in the image: so are each one's payload and tail. */
  lemma SecWritten(c: Codec, image: bytes, start: nat, addr: nat, s: Sec, rest: seq<Sec>)
    requires !s.name.Other? && Named(rest)
    requires Holds(image, start + addr, SecsBytes(c, addr, [s] + rest))
    ensures Holds(image, start + addr + SECTION_LENGTH, s.payload)
    ensures Holds(image, start + addr + SECTION_LENGTH + |s.payload|, s.tail)
    ensures Holds(image, start + (addr + SecSize(s)), SecsBytes(c, addr + SecSize(s), rest))
  {
    hide Holds, Descriptor;
    assert ([s] + rest)[0] == s && ([s] + rest)[1..] == rest;
    var d := Descriptor(c, s.name, addr + SecSize(s), SECTION_LENGTH + |s.payload|);
    HoldsPrefix(image, start + addr, SecBytes(c, addr, s), SecsBytes(c, addr + SecSize(s), rest));
    AppendAssoc(d, s.payload, s.tail);
    HoldsPrefix(image, start + addr, d, s.payload + s.tail);
    HoldsPrefix(image, start + addr + SECTION_LENGTH, s.payload, s.tail);
  }

  lemma PairShape(c: Codec, opts: Options, addr: nat, stored: seq<bytes>) returns (mirror: seq<Sec>)
    requires !opts.skipTable
    ensures Named(mirror)
            && PairSections(c, opts, addr, stored) ==
               [SectorsSec(opts, stored)] + ([TableSec(c, opts, addr, stored)] + mirror)
  {
    mirror := if opts.noTable2 then [] else [Sec(Table2, TableSec(c, opts, addr, stored).payload, [])];
  }

  /** One pair in the image: its chunks are where its table says, and its table payload is in place. */
  lemma PairInImage(c: Codec, image: bytes, start: nat, opts: Options, addr: nat, stored: seq<bytes>)
    requires !opts.skipTable
    requires Holds(image, start + addr, SecsBytes(c, addr, PairSections(c, opts, addr, stored)))
    ensures Holds(image, start + ChunkStart(opts, addr), Concat(stored))
    ensures Holds(image, start + (addr + SecSize(SectorsSec(opts, stored))) + SECTION_LENGTH,
                  TableSec(c, opts, addr, stored).payload)
  {
    hide Holds, SecsBytes, TablePayload, TableEntries, PairSections;
    var s, t := SectorsSec(opts, stored), TableSec(c, opts, addr, stored);
    var mirror := PairShape(c, opts, addr, stored);
    SecWritten(c, image, start, addr, s, [t] + mirror);
    HoldsPrefix(image, start + addr + SECTION_LENGTH, Zeros(opts.slackBytes), Concat(stored));
    SecWritten(c, image, start, addr + SecSize(s), t, mirror);
  }

  /** The table of a written pair parses back to its entries and base. */
  lemma PairParsed(c: Codec, image: bytes, k: nat, start: nat, opts: Options, addr: nat, stored: seq<bytes>)
    requires !opts.skipTable && stored != [] && start + addr + SecsSize(PairSections(c, opts, addr, stored)) < INT63
    requires Holds(image, start + addr, SecsBytes(c, addr, PairSections(c, opts, addr, stored)))
    ensures var t := PairTable(k, start, opts, addr, stored);
            TableOf(image,
                    PlacedAt(k, start, addr + SecSize(SectorsSec(opts, stored)), TableSec(c, opts, addr, stored))) ==
            Some(TableData(t.entries, t.base))
  {
    hide Holds, TableOf, TablePayload, TableEntries, SecsSize, PairSections;
    var rel := ChunkStart(opts, addr) - PairBase(opts, addr, stored);
    PairInImage(c, image, start, opts, addr, stored);
    PairSizes(c, opts, addr, stored);
    EntriesBounded(opts.compress, stored, rel);
    TableWritten(c, image,
                 PlacedAt(k, start, addr + SecSize(SectorsSec(opts, stored)), TableSec(c, opts, addr, stored)),
                 TableEntries(opts.compress, stored, rel), PairBase(opts, addr, stored));
  }

  lemma PairServes(c: Codec, segs: seq<Segment>, image: bytes, k: nat, opts: Options, addr: nat, stored: seq<bytes>)
    requires k < |segs| && !opts.skipTable
    requires segs[k].start + addr + SecsSize(PairSections(c, opts, addr, stored)) < INT63
    requires Holds(image, segs[k].start + addr, SecsBytes(c, addr, PairSections(c, opts, addr, stored)))
    requires OffsetsFit(stored, ChunkStart(opts, addr) - PairBase(opts, addr, stored))
    ensures Serves(segs, image, PairTable(k, segs[k].start, opts, addr, stored), opts.compress, stored)
  {
    hide Holds, TableEntries, Serves, OffsetsFit, SecsSize, PairSections;
    PairInImage(c, image, segs[k].start, opts, addr, stored);
    PairSizes(c, opts, addr, stored);
    EntriesServe(segs, image, PairTable(k, segs[k].start, opts, addr, stored), opts.compress, stored,
                 segs[k].start, ChunkStart(opts, addr));
  }

  lemma PairSizes(c: Codec, opts: Options, addr: nat, stored: seq<bytes>)
    requires !opts.skipTable
    ensures SecSize(SectorsSec(opts, stored)) + SecSize(TableSec(c, opts, addr, stored))
            <= SecsSize(PairSections(c, opts, addr, stored))
  {
    var s, t := SectorsSec(opts, stored), TableSec(c, opts, addr, stored);
    var ss := PairSections(c, opts, addr, stored);
    assert ss[0] == s && ss[1..][0] == t;
  }

  lemma {:induction false} EntriesBounded(mode: CompressMode, stored: seq<bytes>, rel: nat)
    ensures forall i :: 0 <= i < |stored| ==> TableEntries(mode, stored, rel)[i] < UINT32
  {
    if stored != [] { EntriesBounded(mode, stored[1..], rel + |stored[0]|); }
  }

  ghost predicate GroupsFit(c: Codec, opts: Options, addr: nat, groups: seq<seq<bytes>>)
    decreases |groups|
  {
    groups == [] ||
    (&& OffsetsFit(groups[0], ChunkStart(opts, addr) - PairBase(opts, addr, groups[0]))
     && GroupsFit(c, opts, addr + SecsSize(PairSections(c, opts, addr, groups[0])), groups[1..]))
  }

  ghost predicate AllServe(segs: seq<Segment>, image: bytes, ts: seq<ChunkTable>, mode: CompressMode,
                           groups: seq<seq<bytes>>) {
    |ts| == |groups| && forall s :: 0 <= s < |ts| ==> Serves(segs, image, ts[s], mode, groups[s])
  }

  /** All pairs of a file parse to tables that serve the chunks stored in them. */
  lemma {:induction false} PairsParsed(c: Codec, segs: seq<Segment>, image: bytes, k: nat, opts: Options, addr: nat,
                                       groups: seq<seq<bytes>>)
    requires k < |segs| && !opts.skipTable && GroupsFit(c, opts, addr, groups)
    requires forall s :: 0 <= s < |groups| ==> groups[s] != []
    requires segs[k].start + addr + SecsSize(AllPairs(c, opts, addr, groups)) < INT63
    requires Holds(image, segs[k].start + addr, SecsBytes(c, addr, AllPairs(c, opts, addr, groups)))
    ensures var start := segs[k].start;
            && PairFrom(image, Homes(c, k, start, opts, addr, groups), TableHomes(c, k, start, opts, addr, groups)) ==
               Progress(GroupTables(c, k, start, opts, addr, groups), true)
            && AllServe(segs, image, GroupTables(c, k, start, opts, addr, groups), opts.compress, groups)
    decreases |groups|
  {
    hide PairSections, SecsSize, SecsBytes, Holds, Serves, OffsetsFit, PlacedAt, TableSec, SectorsSec, TableOf;
    if groups != [] {
      var start, here := segs[k].start, PairSections(c, opts, addr, groups[0]);
      var next := addr + SecsSize(here);
      SecsBytesSplit(c, addr, here, AllPairs(c, opts, next, groups[1..]));
      HoldsPrefix(image, start + addr, SecsBytes(c, addr, here),
                  SecsBytes(c, next, AllPairs(c, opts, next, groups[1..])));
      SecsBytesLength(c, addr, here);
      PairParsed(c, image, k, start, opts, addr, groups[0]);
      PairServes(c, segs, image, k, opts, addr, groups[0]);
      PairsParsed(c, segs, image, k, opts, next, groups[1..]);
      ParseFirst(c, image, k, start, opts, addr, groups);
    }
  }

  lemma SecsBytesLength(c: Codec, addr: nat, ss: seq<Sec>)
    requires Named(ss)
    ensures |SecsBytes(c, addr, ss)| == SecsSize(ss)
  {
  }

  lemma ParseFirst(c: Codec, image: bytes, k: nat, start: nat, opts: Options, addr: nat, groups: seq<seq<bytes>>)
    requires groups != []
    requires var t := PairTable(k, start, opts, addr, groups[0]);
             TableOf(image,
                     PlacedAt(k, start, addr + SecSize(SectorsSec(opts, groups[0])),
                              TableSec(c, opts, addr, groups[0]))) ==
             Some(TableData(t.entries, t.base))
    ensures var next := addr + SecsSize(PairSections(c, opts, addr, groups[0]));
            PairFrom(image, Homes(c, k, start, opts, addr, groups), TableHomes(c, k, start, opts, addr, groups)) ==
            Prepend([PairTable(k, start, opts, addr, groups[0])],
                    PairFrom(image, Homes(c, k, start, opts, next, groups[1..]),
                             TableHomes(c, k, start, opts, next, groups[1..])))
  {
    hide TableOf, TableEntries, TablePayload, PairSections, SecsSize;
    var next := addr + SecsSize(PairSections(c, opts, addr, groups[0]));
    var h, t := Homes(c, k, start, opts, addr, groups), TableHomes(c, k, start, opts, addr, groups);
    assert h[1..] == Homes(c, k, start, opts, next, groups[1..]);
    assert t[1..] == TableHomes(c, k, start, opts, next, groups[1..]);
  }

  // ------------------------------------------------------------ one wrapped file

  function WrapStored(c: Codec, disk: bytes, opts: Options): seq<bytes> {
    StoredChunks(c, disk, ChunkBytesOf(opts), opts.compress, opts.shortFinalChunk)
  }

  function BodyAddress(c: Codec, disk: bytes, opts: Options): nat {
    FILE_HEADER_LENGTH + SecsSize(FrontSections(c, disk, opts))
  }

  /** How the stored chunks are distributed over tables. */
  function WrapGroups(c: Codec, disk: bytes, opts: Options): seq<seq<bytes>> {
    var stored := WrapStored(c, disk, opts);
    if opts.layout == EnCase1 then [stored] else Split(stored, GroupCounts(|stored|, opts.sections))
  }

  /** The chunk tables the file is parsed to. */
  function WrapTables(c: Codec, disk: bytes, opts: Options): seq<ChunkTable> {
    var stored, addr := WrapStored(c, disk, opts), BodyAddress(c, disk, opts);
    if opts.layout == EnCase1 then [EnCase1Table(0, 0, opts.compress, addr, stored)]
    else GroupTables(c, 0, 0, opts, addr, WrapGroups(c, disk, opts))
  }

  function EnCase1Table(k: nat, start: nat, mode: CompressMode, addr: nat, stored: seq<bytes>): ChunkTable {
    var base := addr + SECTION_LENGTH + TABLE_HEADER_LENGTH + 4 * |stored| + CHUNK_FOOTER_LENGTH;
    ChunkTable(start + addr, TableEntries(mode, stored, 0), base, k)
  }

  /** What the format can express: 32-bit geometry, 31-bit chunk offsets, 63-bit file offsets. */
  ghost predicate Expressible(c: Codec, disk: bytes, opts: Options) {
    && EffectiveChunkSectors(opts) < UINT32
    && |WrapBytes(c, disk, opts)| < INT63 && |disk| < INT63
    && (if opts.layout == EnCase1 then OffsetsFit(WrapStored(c, disk, opts), 0)
        else GroupsFit(c, opts, BodyAddress(c, disk, opts), WrapGroups(c, disk, opts)))
  }

  function BodySections(c: Codec, disk: bytes, opts: Options): (r: seq<Sec>)
    ensures Named(r)
  {
    var stored, addr := WrapStored(c, disk, opts), BodyAddress(c, disk, opts);
    if opts.layout == EnCase1 then [TableWithChunks(c, opts.compress, addr, stored)]
    else AllPairs(c, opts, addr, WrapGroups(c, disk, opts))
  }

  lemma WrapShape(c: Codec, disk: bytes, opts: Options)
    ensures WrapSections(c, disk, opts) ==
            FrontSections(c, disk, opts)
                + (BodySections(c, disk, opts) + ([Sec(Data, VolumeData(c, disk, opts), [])] + HashSections(opts)))
  {
    hide FrontSections, AllPairs, TableWithChunks, VolumeData, HashSections;
    AppendAssoc(FrontSections(c, disk, opts), BodySections(c, disk, opts), [Sec(Data, VolumeData(c, disk, opts), [])]);
    AppendAssoc(FrontSections(c, disk, opts), BodySections(c, disk, opts) + [Sec(Data, VolumeData(c, disk, opts), [])],
                HashSections(opts));
    AppendAssoc(BodySections(c, disk, opts), [Sec(Data, VolumeData(c, disk, opts), [])], HashSections(opts));
  }

  lemma {:induction false} CountsPositive(n: nat, sections: int)
    requires n > 0
    ensures forall s :: 0 <= s < |GroupCounts(n, sections)| ==> GroupCounts(n, sections)[s] > 0
  {
    var k := |GroupCounts(n, sections)|;
    assert 1 <= k <= n;
  }

  // ------------------------------------------------------------ collecting and parsing the body

  function BodyHomes(c: Codec, disk: bytes, opts: Options): seq<SectionAt> {
    if opts.layout == EnCase1 then [] else Homes(c, 0, 0, opts, BodyAddress(c, disk, opts), WrapGroups(c, disk, opts))
  }

  function BodyTables(c: Codec, disk: bytes, opts: Options): seq<SectionAt> {
    var addr := BodyAddress(c, disk, opts);
    if opts.layout == EnCase1
    then [PlacedAt(0, 0, addr, TableWithChunks(c, opts.compress, addr, WrapStored(c, disk, opts)))]
    else if opts.skipTable then []
    else TableHomes(c, 0, 0, opts, addr, WrapGroups(c, disk, opts))
  }

  lemma CollectBody(c: Codec, p: Collected, disk: bytes, opts: Options)
    requires p.sectorsAt == [] && p.tablesAt == []
    ensures CollectSecs(c, p, 0, 0, BodyAddress(c, disk, opts), BodySections(c, disk, opts)) ==
            Progress(p.(sectorsAt := BodyHomes(c, disk, opts), tablesAt := BodyTables(c, disk, opts)), true)
  {
    hide TableWithChunks, Homes, TableHomes, AllPairs, WrapGroups, WrapStored, BodyAddress, PlacedAt;
    var addr := BodyAddress(c, disk, opts);
    if opts.layout == EnCase1 {
      var t := TableWithChunks(c, opts.compress, addr, WrapStored(c, disk, opts));
      assert [t] == [t] + [];
      EnCase1Name(c, opts.compress, addr, WrapStored(c, disk, opts));
      CollectCons(c, p, 0, 0, addr, t, []);
      CollectNone(c, p, 0, 0, addr, opts);
      PlacedName(0, 0, addr, t);
      assert [] + [PlacedAt(0, 0, addr, t)] == [PlacedAt(0, 0, addr, t)];
    } else {
      var groups := WrapGroups(c, disk, opts);
      CollectPairs(c, p, 0, 0, opts, addr, groups);
      assert [] + Homes(c, 0, 0, opts, addr, groups) == Homes(c, 0, 0, opts, addr, groups);
      assert [] + TableHomes(c, 0, 0, opts, addr, groups) == TableHomes(c, 0, 0, opts, addr, groups);
    }
  }

  lemma EnCase1Name(c: Codec, mode: CompressMode, addr: nat, stored: seq<bytes>)
    ensures TableWithChunks(c, mode, addr, stored).name == Table
  {
  }

  lemma PlacedName(k: nat, start: nat, addr: nat, s: Sec)
    ensures PlacedAt(k, start, addr, s).desc.name == s.name
  {
  }

  /** EnCase 1: the one table, its chunks behind it. */
  lemma EnCase1Parsed(c: Codec, segs: seq<Segment>, image: bytes, k: nat, mode: CompressMode, addr: nat,
                      stored: seq<bytes>)
    requires k < |segs| && OffsetsFit(stored, 0)
    requires segs[k].start + addr + SecSize(TableWithChunks(c, mode, addr, stored)) < INT63
    requires Holds(image, segs[k].start + addr + SECTION_LENGTH, TableWithChunks(c, mode, addr, stored).payload)
    requires var s := TableWithChunks(c, mode, addr, stored);
             Holds(image, segs[k].start + addr + SECTION_LENGTH + |s.payload|, s.tail)
    ensures var t := EnCase1Table(k, segs[k].start, mode, addr, stored);
            && TableOf(image, PlacedAt(k, segs[k].start, addr, TableWithChunks(c, mode, addr, stored))) ==
               (if stored == [] then None else Some(TableData(t.entries, t.base)))
            && Serves(segs, image, t, mode, stored)
  {
    hide Holds, TableOf, TablePayload, TableEntries, Serves, OffsetsFit, Concat;
    var s, t := TableWithChunks(c, mode, addr, stored), EnCase1Table(k, segs[k].start, mode, addr, stored);
    assert t.base == addr + SECTION_LENGTH + |s.payload|;
    EntriesBounded(mode, stored, 0);
    TableWritten(c, image, PlacedAt(k, segs[k].start, addr, s), t.entries, t.base);
    EntriesServe(segs, image, t, mode, stored, segs[k].start, t.base);
  }

  /** The pairs of an image without chunks, or written without tables, are rejected. */
  lemma PairsRejected(c: Codec, image: bytes, opts: Options, addr: nat)
    requires !opts.skipTable && addr + SecsSize(AllPairs(c, opts, addr, [[]])) < INT63
    requires Holds(image, addr, SecsBytes(c, addr, AllPairs(c, opts, addr, [[]])))
    ensures !PairFrom(image, Homes(c, 0, 0, opts, addr, [[]]), TableHomes(c, 0, 0, opts, addr, [[]])).ok
  {
    hide PairSections, SecsSize, SecsBytes, Holds, PlacedAt, TableSec, SectorsSec, TableOf;
    var here := PairSections(c, opts, addr, []);
    var groups: seq<seq<bytes>> := [[]];
    assert groups[1..] == [];
    assert AllPairs(c, opts, addr, groups) == here + [];
    assert here + [] == here;
    NoEntriesRejected(c, image, opts, addr);
    var t := PlacedAt(0, 0, addr + SecSize(SectorsSec(opts, [])), TableSec(c, opts, addr, []));
    assert TableHomes(c, 0, 0, opts, addr, groups)[0] == t;
  }

  lemma NoEntriesRejected(c: Codec, image: bytes, opts: Options, addr: nat)
    requires !opts.skipTable && addr + SecsSize(PairSections(c, opts, addr, [])) < INT63
    requires Holds(image, addr, SecsBytes(c, addr, PairSections(c, opts, addr, [])))
    ensures TableOf(image, PlacedAt(0, 0, addr + SecSize(SectorsSec(opts, [])), TableSec(c, opts, addr, []))) == None
  {
    hide Holds, TableOf, TablePayload, SecsSize, PairSections;
    PairInImage(c, image, 0, opts, addr, []);
    PairSizes(c, opts, addr, []);
    TableWritten(c, image, PlacedAt(0, 0, addr + SecSize(SectorsSec(opts, [])), TableSec(c, opts, addr, [])), [],
                 PairBase(opts, addr, []));
  }

  // ------------------------------------------------------------ the whole file parses back

  lemma PlainParts(a: seq<Sec>, b: seq<Sec>)
    requires AllOrdinary(a) && Filled(a) && AllOrdinary(b) && Filled(b)
    ensures AllOrdinary(a + b) && Filled(a + b)
  {
  }

  lemma FrontPlain(c: Codec, disk: bytes, opts: Options)
    requires Lawful(c)
    ensures AllOrdinary(FrontSections(c, disk, opts)) && Filled(FrontSections(c, disk, opts))
  {
    hide HEADER_TEXT, VolumeData;
    DeflateNonEmpty(c, HEADER_TEXT);
  }

  lemma {:induction false} PairsPlain(c: Codec, opts: Options, addr: nat, groups: seq<seq<bytes>>)
    ensures AllOrdinary(AllPairs(c, opts, addr, groups)) && Filled(AllPairs(c, opts, addr, groups))
    decreases |groups|
  {
    hide PairSections, SecsSize;
    if groups != [] {
      var here := PairSections(c, opts, addr, groups[0]);
      PairPlain(c, opts, addr, groups[0]);
      PairsPlain(c, opts, addr + SecsSize(here), groups[1..]);
      PlainParts(here, AllPairs(c, opts, addr + SecsSize(here), groups[1..]));
    }
  }

  lemma PairPlain(c: Codec, opts: Options, addr: nat, stored: seq<bytes>)
    ensures AllOrdinary(PairSections(c, opts, addr, stored)) && Filled(PairSections(c, opts, addr, stored))
  {
  }

  lemma WrapPlain(c: Codec, disk: bytes, opts: Options)
    requires Lawful(c)
    ensures AllOrdinary(WrapSections(c, disk, opts)) && Filled(WrapSections(c, disk, opts))
  {
    hide FrontSections, AllPairs, AllOrdinary, WrapSections, HashSections;
    WrapShape(c, disk, opts);
    FrontPlain(c, disk, opts);
    PairsPlain(c, opts, BodyAddress(c, disk, opts), WrapGroups(c, disk, opts));
    BodyPlain(c, disk, opts);
    TailPlain(c, disk, opts);
    var tail := [Sec(Data, VolumeData(c, disk, opts), [])] + HashSections(opts);
    PlainParts(BodySections(c, disk, opts), tail);
    PlainParts(FrontSections(c, disk, opts), BodySections(c, disk, opts) + tail);
  }

  lemma BodyPlain(c: Codec, disk: bytes, opts: Options)
    ensures AllOrdinary(BodySections(c, disk, opts)) && Filled(BodySections(c, disk, opts))
  {
    hide WrapStored, WrapGroups, BodyAddress, AllPairs, TablePayload, TableEntries, Concat;
    PairsPlain(c, opts, BodyAddress(c, disk, opts), WrapGroups(c, disk, opts));
  }

  lemma TailPlain(c: Codec, disk: bytes, opts: Options)
    ensures var tail := [Sec(Data, VolumeData(c, disk, opts), [])] + HashSections(opts);
            AllOrdinary(tail) && Filled(tail)
  {
  }

  /** What collecting all sections of a wrapped file gives. */
  function WrapCollected(c: Codec, disk: bytes, opts: Options): Collected {
    var g, h := DiskGeometry(disk, opts), StoredHashes(opts, [], []);
    Collected([g, g], BodyHomes(c, disk, opts), BodyTables(c, disk, opts), h.0, h.1)
  }

  lemma CollectThree(c: Codec, addr: nat, x: seq<Sec>, y: seq<Sec>, z: seq<Sec>, p: Collected, p1: Collected,
                     p2: Collected, p3: Collected)
    requires CollectSecs(c, p, 0, 0, addr, x) == Progress(p1, true)
    requires CollectSecs(c, p1, 0, 0, addr + SecsSize(x), y) == Progress(p2, true)
    requires CollectSecs(c, p2, 0, 0, addr + SecsSize(x) + SecsSize(y), z) == Progress(p3, true)
    ensures CollectSecs(c, p, 0, 0, addr, x + (y + z)) == Progress(p3, true)
  {
    hide CollectSecs, SecsSize;
    CollectSecsSplit(c, p, 0, 0, addr, x, y + z);
    CollectSecsSplit(c, p1, 0, 0, addr + SecsSize(x), y, z);
  }

  lemma CollectTail(c: Codec, p: Collected, addr: nat, disk: bytes, opts: Options)
    ensures var h := StoredHashes(opts, p.md5, p.sha1);
            CollectSecs(c, p, 0, 0, addr, [Sec(Data, VolumeData(c, disk, opts), [])] + HashSections(opts)) ==
            Progress(p.(md5 := h.0, sha1 := h.1), true)
  {
    hide CollectSecs, HashSections, StoredHashes;
    var data := Sec(Data, VolumeData(c, disk, opts), []);
    CollectCons(c, p, 0, 0, addr, data, HashSections(opts));
    CollectHashes(c, p, 0, addr + SecSize(data), opts);
  }

  lemma CollectWrapped(c: Codec, disk: bytes, opts: Options)
    requires Lawful(c) && EffectiveChunkSectors(opts) < UINT32 && |disk| < INT63
    ensures CollectSecs(c, NOTHING, 0, 0, FILE_HEADER_LENGTH, WrapSections(c, disk, opts)) ==
            Progress(WrapCollected(c, disk, opts), true)
  {
    hide FrontSections, BodySections, HashSections, CollectSecs, BodyHomes, BodyTables, WrapSections, DiskGeometry,
         StoredHashes, VolumeData, SecsSize;
    var front, body := FrontSections(c, disk, opts), BodySections(c, disk, opts);
    var g := DiskGeometry(disk, opts);
    var p1 := NOTHING.(disks := [g, g]);
    var p2 := p1.(sectorsAt := BodyHomes(c, disk, opts), tablesAt := BodyTables(c, disk, opts));
    WrapShape(c, disk, opts);
    CollectFront(c, NOTHING, 0, FILE_HEADER_LENGTH, disk, opts);
    assert NOTHING.disks + [g, g] == [g, g];
    CollectBody(c, p1, disk, opts);
    CollectTail(c, p2, FILE_HEADER_LENGTH + SecsSize(front) + SecsSize(body), disk, opts);
    CollectThree(c, FILE_HEADER_LENGTH, front, body, [Sec(Data, VolumeData(c, disk, opts), [])] + HashSections(opts),
                 NOTHING, p1, p2, WrapCollected(c, disk, opts));
  }

  lemma FileShape(c: Codec, segment: nat, ss: seq<Sec>)
    requires Named(ss)
    ensures FileBytes(c, segment, ss) == FileHeader(segment) + Chain(c, FILE_HEADER_LENGTH, ss)
    ensures Holds(FileBytes(c, segment, ss), FILE_HEADER_LENGTH, Chain(c, FILE_HEADER_LENGTH, ss))
    ensures Holds(FileBytes(c, segment, ss), FILE_HEADER_LENGTH, SecsBytes(c, FILE_HEADER_LENGTH, ss))
  {
    hide SecsBytes, Descriptor, FileHeader, SecsSize;
    AppendAssoc(FileHeader(segment), SecsBytes(c, FILE_HEADER_LENGTH, ss),
                Descriptor(c, Done, FILE_HEADER_LENGTH + SecsSize(ss), SECTION_LENGTH));
    HoldsPrefix(FileBytes(c, segment, ss), FILE_HEADER_LENGTH, SecsBytes(c, FILE_HEADER_LENGTH, ss),
                Descriptor(c, Done, FILE_HEADER_LENGTH + SecsSize(ss), SECTION_LENGTH));
  }

  /** The segment list of a single file. */
  function Single(file: bytes): seq<Segment> { [Segment(file, 0)] }

  lemma SingleJoined(file: bytes)
    ensures Joined(Single(file)) == file && PrefixSums(Single(file))
  {
    assert Files(Single(file)) == [file];
    assert Concat([file]) == file + Concat([]);
    assert Files(Single(file))[..0] == [];
  }

  /** The walk of one segment file of the image visits what was written to it. */
  lemma WalkFile(c: Codec, image: bytes, k: nat, start: nat, number: nat, ss: seq<Sec>)
    requires Named(ss) && AllOrdinary(ss) && start + FILE_HEADER_LENGTH + SecsSize(ss) < INT63
    requires Holds(image, start, FileBytes(c, number, ss))
    ensures Holds(image, start + FILE_HEADER_LENGTH, Chain(c, FILE_HEADER_LENGTH, ss))
    ensures WalkFrom(image, k, start, start + FILE_HEADER_LENGTH) ==
            Progress(Placed(k, start, FILE_HEADER_LENGTH, ss) + [DoneAt(k, start, FILE_HEADER_LENGTH + SecsSize(ss))],
                     true)
  {
    hide FileBytes, WalkFrom, Chain, Holds;
    FileShape(c, number, ss);
    HoldsPrefix(image, start, FileHeader(number), Chain(c, FILE_HEADER_LENGTH, ss));
    WalkWritten(c, image, k, start, FILE_HEADER_LENGTH, ss);
  }

  lemma DoneAddsNothing(c: Codec, image: bytes, p: Collected, v: SectionAt)
    requires v.desc.name == Done
    ensures CollectAll(c, image, p, [v]) == Progress(p, true)
  {
    assert [v][1..] == [];
    assert CollectAll(c, image, p, []) == Progress(p, true);
  }

  /** Collecting what the walk of a segment file visits. */
  lemma CollectVisited(c: Codec, image: bytes, p: Collected, k: nat, start: nat, ss: seq<Sec>)
    requires Named(ss) && AllOrdinary(ss) && Filled(ss) && start + FILE_HEADER_LENGTH + SecsSize(ss) < INT63
    requires Holds(image, start + FILE_HEADER_LENGTH, Chain(c, FILE_HEADER_LENGTH, ss))
    requires CollectSecs(c, p, k, start, FILE_HEADER_LENGTH, ss).ok
    ensures CollectAll(c, image, p,
                       Placed(k, start, FILE_HEADER_LENGTH, ss)
                           + [DoneAt(k, start, FILE_HEADER_LENGTH + SecsSize(ss))]) ==
            CollectSecs(c, p, k, start, FILE_HEADER_LENGTH, ss)
  {
    hide Chain, Holds, CollectSecs, Placed, CollectAll, CollectOne, SecsSize, AllOrdinary, Filled;
    var done := DoneAt(k, start, FILE_HEADER_LENGTH + SecsSize(ss));
    CollectFile(c, image, p, k, start, FILE_HEADER_LENGTH, ss);
    CollectSplit(c, image, p, Placed(k, start, FILE_HEADER_LENGTH, ss), [done]);
    DoneAddsNothing(c, image, CollectSecs(c, p, k, start, FILE_HEADER_LENGTH, ss).value, done);
  }
}

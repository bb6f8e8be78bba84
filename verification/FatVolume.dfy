/**
 * FAT volumes (internal/filesystem/fat/fat32.go): the table, its markers and the data area make a volume
 * of cluster chains.
 */
module FatVolume {
  import opened Bytes
  import opened ClusterChain
  import opened Streaming
  import T = FatTable

  /** Where a volume's FAT and data area lie in the image, in sectors. */
  datatype Layout = Layout(g: T.Geometry, dataStart: nat, sectorsPerCluster: nat) {
    ghost predicate Valid() { g.Valid() && T.PowerOfTwo(sectorsPerCluster) && sectorsPerCluster <= 128 }
  }

  /** Entries from this value on end a chain. */
  function EndFrom(w: T.Width): nat {
    match w case Fat12 => 0xFF8 case Fat16 => 0xFFF8 case Fat32 => 0x0FFF_FFF8
  }

  function BadMarker(w: T.Width): nat {
    match w case Fat12 => 0xFF7 case Fat16 => 0xFFF7 case Fat32 => 0x0FFF_FFF7
  }

  /** The sectors of a data cluster. */
  function ClusterData(d: Layout, image: bytes, c: nat): Option<bytes> {
    if c < 2 then None
    else T.ReadSectors(image, d.g.bytesPerSector, d.dataStart + (c - 2) * d.sectorsPerCluster, d.sectorsPerCluster)
  }

  function VolumeOf(d: Layout, image: bytes): Volume
    requires d.Valid()
  {
    Volume(c => T.FatEntry(d.g, image, c), x => x == BadMarker(d.g.width), x => x >= EndFrom(d.g.width),
           c => ClusterData(d, image, c), d.g.bytesPerSector * d.sectorsPerCluster)
  }

  lemma VolumeSound(d: Layout, image: bytes)
    requires d.Valid()
    ensures Sound(VolumeOf(d, image))
  {
    hide T.ReadSectors, T.FatEntry;
    var v := VolumeOf(d, image);
    MulLe(1, d.sectorsPerCluster, d.g.bytesPerSector);
    forall c | v.cluster(c).Some? ensures |v.cluster(c).value| == v.clusterSize { }
  }

  // ------------------------------------------------------------ chains of an abstract table

  /** Where the table's value for cluster c leads. */
  function TableLink(w: T.Width, values: seq<nat>, c: nat): Link
    requires c < |values|
  {
    var x := T.Visible(w, values[c]);
    if x == BadMarker(w) || x == 0 then Broken else if x >= EndFrom(w) then Last else Next(x)
  }

  /** The first FAT is in the image and begins with these values, packed. */
  ghost predicate Packed(d: Layout, image: bytes, values: seq<nat>) {
    && d.Valid() && (d.g.fatStart + d.g.sectorsPerFAT) * d.g.bytesPerSector <= |image|
    && (d.g.width == T.Fat12 ==> |values| % 2 == 0) && |T.Pack(d.g.width, values)| <= d.g.TableBytes()
    && Holds(image, d.g.fatStart * d.g.bytesPerSector, T.Pack(d.g.width, values))
  }

  lemma PackedInTable(d: Layout, image: bytes, values: seq<nat>)
    requires Packed(d, image, values)
    ensures T.Pack(d.g.width, values) <= T.TableOf(d.g, image)
  {
    hide T.Pack, T.TableOf;
    T.TableIs(d.g, image);
  }

  /** Clusters that have an entry, and a value in the table. */
  ghost predicate Listed(d: Layout, values: seq<nat>, cs: seq<nat>) {
    forall i :: 0 <= i < |cs| ==> 2 <= cs[i] < T.EntryCount(d.g) && cs[i] < |values|
  }

  /** A chain of the table itself: no repeats, every value leads to the next cluster, and the last one ends it. */
  ghost predicate TableChain(d: Layout, values: seq<nat>, start: nat, cs: seq<nat>) {
    && cs != [] && cs[0] == start && Distinct(cs) && Listed(d, values, cs)
    && (forall i :: 0 <= i < |cs| - 1 ==> TableLink(d.g.width, values, cs[i]) == Next(cs[i + 1]))
    && TableLink(d.g.width, values, cs[|cs| - 1]) == Last
  }

  lemma LinkIsTableLink(d: Layout, image: bytes, values: seq<nat>, c: nat)
    requires Packed(d, image, values) && 2 <= c < T.EntryCount(d.g) && c < |values|
    ensures LinkOf(VolumeOf(d, image), c) == TableLink(d.g.width, values, c)
  {
    hide T.FatEntry, T.Pack, T.Visible, T.TableOf;
    PackedInTable(d, image, values);
    T.PackedEntryReads(d.g, image, values, c);
    assert VolumeOf(d, image).entry(c) == T.FatEntry(d.g, image, c);
  }

  /**
   * The chain that is followed through the sectors of the FAT is the chain of the table that was
   * packed there, at every entry width and sector size.
   */
  lemma ChainIsTableChain(d: Layout, image: bytes, values: seq<nat>, start: nat, cs: seq<nat>)
    requires Packed(d, image, values)
    ensures Follow(VolumeOf(d, image), start, []) == Some(cs) && Listed(d, values, cs)
       <==> TableChain(d, values, start, cs) && |cs| <= MAX_CLUSTER_CHAIN
  {
    hide Follow, VolumeOf, LinkOf, TableLink, T.Pack, T.TableOf, T.EntryCount;
    var v := VolumeOf(d, image);
    FollowIsChain(v, start, cs);
    if Listed(d, values, cs) {
      forall i | 0 <= i < |cs| ensures LinkOf(v, cs[i]) == TableLink(d.g.width, values, cs[i]) {
        LinkIsTableLink(d, image, values, cs[i]);
      }
    }
  }

  // ------------------------------------------------------------ entries as they lie on disk

  /**
   * Where an entry leads, byte for byte: 0x..F8 to 0x..FF below ones end a chain, 0x..F7 below ones and zero
   * break it. A 12-bit entry is the low or the high part of its bytes, and a FAT32 entry ignores its top four bits.
   */
  function Leads(w: T.Width, odd: bool, b: bytes): Link
    requires |b| == T.EntryWidth(w)
  {
    var lo: int, hi: int := b[0], b[1];
    match w
    case Fat12 =>
      if odd then Marked(hi == 0xFF, lo / 16, 0x7, lo / 16 + 0x10 * hi)
      else Marked(hi % 16 == 0xF, lo, 0xF7, lo + 0x100 * (hi % 16))
    case Fat16 => Marked(hi == 0xFF, lo, 0xF7, lo + 0x100 * hi)
    case Fat32 =>
      var third: int, top: int := b[2], b[3] as int % 16;
      Marked(hi == 0xFF && third == 0xFF && top == 0xF, lo, 0xF7,
             lo + 0x100 * hi + 0x1_0000 * third + 0x100_0000 * top)
  }

  /** An entry whose high bits are all ones is a marker from its bad value on. */
  function Marked(ones: bool, low: nat, bad: nat, value: nat): Link {
    if ones && low > bad then Last else if (ones && low == bad) || value == 0 then Broken else Next(value)
  }

  /** Where the bytes of an entry lie: three bytes hold two 12-bit entries, the second one from the second byte on. */
  function EntryPlace(w: T.Width, c: nat): nat {
    match w case Fat12 => c / 2 * 3 + c % 2 case Fat16 => 2 * c case Fat32 => 4 * c
  }

  lemma LinkOnDisk(d: Layout, image: bytes, c: nat, at: nat)
    requires d.Valid() && (d.g.fatStart + d.g.sectorsPerFAT) * d.g.bytesPerSector <= |image|
    requires 2 <= c < T.EntryCount(d.g) && at == d.g.fatStart * d.g.bytesPerSector + EntryPlace(d.g.width, c)
    ensures at + T.EntryWidth(d.g.width) <= |image|
    ensures LinkOf(VolumeOf(d, image), c) == Leads(d.g.width, c % 2 == 1, image[at..at + T.EntryWidth(d.g.width)])
  {
    hide T.FatEntry, T.TableOf, T.EntryCount, LE, Leads;
    var w, off, n := d.g.width, EntryPlace(d.g.width, c), T.EntryWidth(d.g.width);
    assert off == T.EntryOffset(w, c);
    T.EntryInsideTable(d.g, c);
    T.EntryIsUnpacked(d.g, image, c);
    T.TableIs(d.g, image);
    var b := image[at..at + n];
    SliceSlice(image, at - off, at - off + d.g.TableBytes(), off, off + n);
    assert T.Unpack(w, T.TableOf(d.g, image), c) == T.EntryIn(w, c, b, 0) by { assert b[0..n] == b; }
    LinkOfBytes(w, c, b);
  }

  lemma LinkOfBytes(w: T.Width, c: nat, b: bytes)
    requires |b| == T.EntryWidth(w)
    ensures var x := T.EntryIn(w, c, b, 0);
            Leads(w, c % 2 == 1, b) ==
            if x == BadMarker(w) || x == 0 then Broken else if x >= EndFrom(w) then Last else Next(x)
  {
    hide LE;
    match w {
      case Fat12 =>
        T.TwoBytes(b);
        assert b[0..2] == b;
        HalfBytes(b[0], b[1]);
      case Fat16 =>
        T.TwoBytes(b);
        assert b[0..2] == b;
      case Fat32 =>
        FourBytes(b);
        assert b[0..4] == b;
        TopMasked(b[0], b[1], b[2], b[3]);
    }
  }

  lemma HalfBytes(lo: nat, hi: nat)
    requires lo < 256 && hi < 256
    ensures (lo + 256 * hi) % 0x1000 == lo + 0x100 * (hi % 16)
    ensures (lo + 256 * hi) / 16 % 0x1000 == lo / 16 + 0x10 * hi
  {
    DivModUnique(lo + 256 * hi, 0x1000, hi / 16, lo + 0x100 * (hi % 16));
    DivModUnique(lo + 256 * hi, 16, lo / 16 + 0x10 * hi, lo % 16);
  }

  lemma TopMasked(a: nat, b: nat, c: nat, d: nat)
    requires a < 256 && b < 256 && c < 256 && d < 256
    ensures (a + 0x100 * b + 0x1_0000 * c + 0x100_0000 * d) % 0x1000_0000 ==
            a + 0x100 * b + 0x1_0000 * c + 0x100_0000 * (d % 16)
  {
    DivModUnique(a + 0x100 * b + 0x1_0000 * c + 0x100_0000 * d, 0x1000_0000, d / 16,
                 a + 0x100 * b + 0x1_0000 * c + 0x100_0000 * (d % 16));
  }

  lemma FourBytes(b: bytes)
    requires |b| == 4
    ensures var b0: int, b1: int, b2: int, b3: int := b[0], b[1], b[2], b[3];
            LE(b) == b0 + 0x100 * b1 + 0x1_0000 * b2 + 0x100_0000 * b3
  {
    T.TwoBytes(b[2..]);
    assert b[1..][1..] == b[2..];
    assert LE(b) == b[0] + 256 * LE(b[1..]) && LE(b[1..]) == b[1] + 256 * LE(b[2..]);
  }

  // ------------------------------------------------------------ a file of a packed volume

  /**
   * The data area as it is laid out: whole clusters one after the other from its first byte, the first one
   * numbered 2.
   */
  ghost predicate DataArea(d: Layout, image: bytes, clusters: seq<bytes>) {
    && Holds(image, d.dataStart * d.g.bytesPerSector, Concat(clusters))
    && forall i :: 0 <= i < |clusters| ==> |clusters[i]| == d.sectorsPerCluster * d.g.bytesPerSector
  }

  lemma ClusterIs(d: Layout, image: bytes, clusters: seq<bytes>, c: nat)
    requires DataArea(d, image, clusters) && 2 <= c < |clusters| + 2
    ensures ClusterData(d, image, c) == Some(clusters[c - 2])
  {
    hide Concat, ClusterData, DataArea;
    var skip := (c - 2) * d.sectorsPerCluster;
    AreaHolds(d, image, clusters, c - 2, skip);
    ClusterHeld(d, image, c, skip, clusters[c - 2]);
  }

  lemma AreaHolds(d: Layout, image: bytes, clusters: seq<bytes>, i: nat, skip: nat)
    requires DataArea(d, image, clusters) && i < |clusters| && skip == i * d.sectorsPerCluster
    ensures Holds(image, d.dataStart * d.g.bytesPerSector + skip * d.g.bytesPerSector, clusters[i])
    ensures |clusters[i]| == d.sectorsPerCluster * d.g.bytesPerSector
  {
    hide Concat, Holds;
    PartHeld(image, d.dataStart * d.g.bytesPerSector, clusters, d.sectorsPerCluster * d.g.bytesPerSector, i);
    MulAssoc(i, d.sectorsPerCluster, d.g.bytesPerSector);
  }

  lemma ClusterHeld(d: Layout, image: bytes, c: nat, skip: nat, x: bytes)
    requires c >= 2 && skip == (c - 2) * d.sectorsPerCluster
    requires Holds(image, d.dataStart * d.g.bytesPerSector + skip * d.g.bytesPerSector, x)
    requires |x| == d.sectorsPerCluster * d.g.bytesPerSector
    ensures ClusterData(d, image, c) == Some(x)
  {
    hide T.ReadSectors, Holds;
    SectorsHeld(image, d.g.bytesPerSector, d.dataStart, skip, d.sectorsPerCluster, x);
  }

  lemma SectorsHeld(image: bytes, bps: nat, first: nat, skip: nat, n: nat, x: bytes)
    requires Holds(image, first * bps + skip * bps, x) && |x| == n * bps
    ensures T.ReadSectors(image, bps, first + skip, n) == Some(x)
  {
    MulAdd(first, skip, bps);
    MulAdd(first + skip, n, bps);
  }

  lemma ChainFollowed(d: Layout, image: bytes, values: seq<nat>, cs: seq<nat>)
    requires Packed(d, image, values) && 0 < |cs| <= MAX_CLUSTER_CHAIN && TableChain(d, values, cs[0], cs)
    ensures Sound(VolumeOf(d, image)) && Follow(VolumeOf(d, image), cs[0], []) == Some(cs)
  {
    hide Follow, Sound, VolumeOf, LinkOf, TableLink, T.EntryCount;
    ChainIsTableChain(d, image, values, cs[0], cs);
    VolumeSound(d, image);
  }

  /**
   * A volume laid out byte by byte, its first FAT packed at the FAT's first byte and its clusters at the data
   * area's: a file is the data of its chain's clusters, one after the other, cut to its size, or an error when
   * its size is more than they hold.
   */
  lemma PackedFileContent(d: Layout, image: bytes, values: seq<nat>, cs: seq<nat>, clusters: seq<bytes>, size: nat)
    requires Packed(d, image, values) && 0 < |cs| <= MAX_CLUSTER_CHAIN && TableChain(d, values, cs[0], cs)
    requires DataArea(d, image, clusters) && InArea(clusters, cs)
    ensures var data := Concat(Chosen(clusters, cs));
            Content(VolumeOf(d, image), cs[0], size) == if size <= |data| then Some(data[..size]) else None
  {
    hide Follow, TableChain, T.Pack, T.FatEntry, Concat, ClusterData, DataArea, Content;
    var v := VolumeOf(d, image);
    ChainFollowed(d, image, values, cs);
    forall i | 0 <= i < |cs| ensures v.cluster(cs[i]) == Some(Chosen(clusters, cs)[i]) {
      ClusterIs(d, image, clusters, cs[i]);
    }
    ChainGathered(v, cs, Chosen(clusters, cs), size);
  }
}

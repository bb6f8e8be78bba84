/**
 * The FAT itself (internal/filesystem/fat/fat32.go): entries of 12, 16 or 32 bits read through
 * whole-sector reads, against a packed table of values.
 */
module FatTable {
  import opened Bytes

  datatype Width = Fat12 | Fat16 | Fat32

  /** One FAT of a volume; the entry width decides which sector count is used. */
  datatype Geometry = Geometry(width: Width, bytesPerSector: nat, fatStart: nat, sectorsPerFAT: nat) {
    /** What the boot sector is checked for before a volume is read. */
    ghost predicate Valid() { bytesPerSector >= 512 && PowerOfTwo(bytesPerSector) }

    function TableBytes(): nat { sectorsPerFAT * bytesPerSector }
  }

  predicate PowerOfTwo(n: nat) { n == 1 || (n > 0 && n % 2 == 0 && PowerOfTwo(n / 2)) }

  /** How many entries one FAT holds. */
  function EntryCount(g: Geometry): nat {
    match g.width
    case Fat12 => g.TableBytes() * 2 / 3
    case Fat16 => g.TableBytes() / 2
    case Fat32 => g.TableBytes() / 4
  }

  function EntryOffset(w: Width, cluster: nat): nat {
    match w
    case Fat12 => cluster * 3 / 2
    case Fat16 => cluster * 2
    case Fat32 => cluster * 4
  }

  function SectorOf(off: nat, bps: nat): nat
    requires bps > 0
  {
    off / bps
  }

  function RestOf(off: nat, bps: nat): (at: nat)
    requires bps > 0
    ensures at < bps
  {
    off % bps
  }

  lemma PlaceInSector(off: nat, bps: nat)
    requires bps > 0
    ensures off == SectorOf(off, bps) * bps + RestOf(off, bps)
  {
  }

  /** What reading whole sectors of a device image gives. */
  function ReadSectors(image: bytes, bps: nat, lba: nat, n: nat): (r: Option<bytes>)
    ensures r.Some? ==> |r.value| == n * bps
  {
    if (lba + n) * bps <= |image| then
      MulLe(lba, lba + n, bps);
      MulLe(0, lba, bps);
      MulAdd(lba, n, bps);
      Some(image[lba * bps..(lba + n) * bps])
    else None
  }

  /** The entry stored at this place in the bytes read. */
  function EntryIn(w: Width, cluster: nat, s: bytes, at: nat): nat
    requires at + 2 <= |s| && (w == Fat32 ==> at + 4 <= |s|)
  {
    match w
    case Fat12 => if cluster % 2 == 0 then LE(s[at..at + 2]) % 0x1000 else LE(s[at..at + 2]) / 16 % 0x1000
    case Fat16 => LE(s[at..at + 2])
    case Fat32 => LE(s[at..at + 4]) % 0x1000_0000
  }

  /** fatEntry: the sector that holds the entry, or two when it straddles; None is any error. */
  function FatEntry(g: Geometry, image: bytes, cluster: nat): Option<nat>
    requires g.Valid()
  {
    if cluster < 2 || cluster >= EntryCount(g) then None
    else
      var off := EntryOffset(g.width, cluster);
      var at := RestOf(off, g.bytesPerSector);
      EntryInSectors(g, cluster);
      match ReadSectors(image, g.bytesPerSector, g.fatStart + SectorOf(off, g.bytesPerSector),
                        SectorsFor(g.bytesPerSector, at))
      case None => None
      case Some(s) => Some(EntryIn(g.width, cluster, s, at))
  }

  /** One sector, or two when a 16-bit window would cross its end. */
  function SectorsFor(bps: nat, at: nat): nat { if at + 2 > bps then 2 else 1 }

  /** The sectors read for an entry hold all of it: only a 12-bit one can cross a sector's end. */
  lemma EntryInSectors(g: Geometry, cluster: nat)
    requires g.Valid()
    ensures var at := RestOf(EntryOffset(g.width, cluster), g.bytesPerSector);
            at + EntryWidth(g.width) <= SectorsFor(g.bytesPerSector, at) * g.bytesPerSector
  {
    hide EntryOffset;
    PlainOffsets(cluster);
    WholeEntries(g.bytesPerSector);
    if g.width == Fat32 { MultipleRest(4, cluster, g.bytesPerSector, g.bytesPerSector / 4); }
  }

  /** How many bytes an entry is taken from. */
  function EntryWidth(w: Width): nat { if w == Fat32 then 4 else 2 }

  lemma WholeEntries(bps: nat)
    requires bps >= 512 && PowerOfTwo(bps)
    ensures bps % 4 == 0
  {
    assert PowerOfTwo(bps / 2);
  }

  // ------------------------------------------------------------ packed tables

  /** Two 12-bit entries share three bytes. */
  function PairBytes(x: nat, y: nat): (b: bytes)
    requires x < 0x1000 && y < 0x1000
    ensures |b| == 3
  {
    [x % 256, x / 256 + y % 16 * 16, y / 16]
  }

  function PackPairs(values: seq<nat>): (b: bytes)
    requires |values| % 2 == 0
    ensures |b| == |values| / 2 * 3
  {
    if values == [] then [] else PairBytes(values[0] % 0x1000, values[1] % 0x1000) + PackPairs(values[2..])
  }

  function PackPlain(n: nat, values: seq<nat>): (b: bytes)
    ensures |b| == n * |values|
  {
    if values == [] then [] else ToLE(values[0], n) + PackPlain(n, values[1..])
  }

  /** Entries packed at their width. */
  function Pack(w: Width, values: seq<nat>): bytes
    requires w == Fat12 ==> |values| % 2 == 0
  {
    match w case Fat12 => PackPairs(values) case Fat16 => PackPlain(2, values) case Fat32 => PackPlain(4, values)
  }

  /** What a reader should see of a stored value: FAT32 reserves the top four bits. */
  function Visible(w: Width, value: nat): nat {
    match w case Fat12 => value % 0x1000 case Fat16 => value % 0x1_0000 case Fat32 => value % 0x1000_0000
  }

  /** The value of entry c, taken from the packed bytes at its own offset. */
  function Unpack(w: Width, table: bytes, c: nat): nat
    requires EntryOffset(w, c) + (if w == Fat32 then 4 else 2) <= |table|
  {
    var off := EntryOffset(w, c);
    match w
    case Fat12 => if c % 2 == 0 then LE(table[off..off + 2]) % 0x1000 else LE(table[off..off + 2]) / 16 % 0x1000
    case Fat16 => LE(table[off..off + 2])
    case Fat32 => LE(table[off..off + 4]) % 0x1000_0000
  }

  /** Every byte an in-range entry needs lies inside the first FAT. */
  lemma EntryInsideTable(g: Geometry, cluster: nat)
    requires cluster < EntryCount(g)
    ensures EntryOffset(g.width, cluster) + (if g.width == Fat32 then 4 else 2) <= g.TableBytes()
  {
  }

  function EntryBits(w: Width): nat { match w case Fat12 => 12 case Fat16 => 16 case Fat32 => 32 }

  /** The FAT has exactly the entries whose bits fit into it, counted from cluster 0. */
  lemma EntryCounted(g: Geometry, cluster: nat)
    ensures cluster < EntryCount(g) <==> EntryBits(g.width) * (cluster + 1) <= 8 * g.TableBytes()
  {
  }

  lemma TwoBytes(b: bytes)
    requires |b| == 2
    ensures LE(b) == (b[0] as int) + 256 * (b[1] as int)
  {
    assert b[1..][1..] == [];
    assert LE(b[1..]) == b[1];
  }

  /** An entry unpacks to the value packed, at every width. */
  lemma UnpackPacked(w: Width, values: seq<nat>, c: nat)
    requires c < |values| && (w == Fat12 ==> |values| % 2 == 0)
    ensures EntryOffset(w, c) + (if w == Fat32 then 4 else 2) <= |Pack(w, values)|
    ensures Unpack(w, Pack(w, values), c) == Visible(w, values[c])
  {
    hide Unpack, PackPairs, PackPlain, LE;
    match w {
      case Fat12 => UnpackPairs(values, c);
      case Fat16 => UnpackPlain(w, 2, values, c);
      case Fat32 => UnpackPlain(w, 4, values, c);
    }
  }

  lemma {:induction false} UnpackPairs(values: seq<nat>, c: nat)
    requires c < |values| && |values| % 2 == 0
    ensures EntryOffset(Fat12, c) + 2 <= |PackPairs(values)|
    ensures Unpack(Fat12, PackPairs(values), c) == values[c] % 0x1000
    decreases |values|
  {
    hide LE, PairBytes, Unpack;
    var pair, rest := PairBytes(values[0] % 0x1000, values[1] % 0x1000), PackPairs(values[2..]);
    if c < 2 {
      PairUnpacks(values[0] % 0x1000, values[1] % 0x1000, rest, c);
    } else {
      UnpackPairs(values[2..], c - 2);
      BehindPair(pair, rest, c);
    }
  }

  lemma BehindPair(pair: bytes, rest: bytes, c: nat)
    requires |pair| == 3 && c >= 2 && EntryOffset(Fat12, c - 2) + 2 <= |rest|
    ensures EntryOffset(Fat12, c) + 2 <= |pair + rest| && Unpack(Fat12, pair + rest, c) == Unpack(Fat12, rest, c - 2)
  {
    hide LE;
    var off, t := EntryOffset(Fat12, c - 2), pair + rest;
    assert EntryOffset(Fat12, c) == off + 3;
    assert t[off + 3..off + 5] == rest[off..off + 2];
  }

  lemma PairUnpacks(x: nat, y: nat, rest: bytes, c: nat)
    requires x < 0x1000 && y < 0x1000 && c < 2
    ensures Unpack(Fat12, PairBytes(x, y) + rest, c) == if c == 0 then x else y
  {
    hide LE;
    var t := PairBytes(x, y) + rest;
    TwoBytes(t[0..2]);
    TwoBytes(t[1..3]);
    PairArithmetic(x, y);
  }

  lemma PairArithmetic(x: nat, y: nat)
    requires x < 0x1000 && y < 0x1000
    ensures (x % 256 + 256 * (x / 256 + y % 16 * 16)) % 0x1000 == x
    ensures (x / 256 + y % 16 * 16 + 256 * (y / 16)) / 16 % 0x1000 == y
  {
    DivModUnique(x % 256 + 256 * (x / 256 + y % 16 * 16), 0x1000, y % 16, x);
    DivModUnique(x / 256 + y % 16 * 16 + 256 * (y / 16), 16, y, x / 256);
  }

  lemma UnpackPlain(w: Width, n: nat, values: seq<nat>, c: nat)
    requires c < |values| && w != Fat12 && n == (if w == Fat16 then 2 else 4)
    ensures EntryOffset(w, c) + n <= |PackPlain(n, values)|
    ensures Unpack(w, PackPlain(n, values), c) == Visible(w, values[c])
  {
    hide LE, ToLE, Pow256, PackPlain;
    PlainAt(n, values, c);
    ToLERoundTrip(values[c], n);
    Powers();
    if w == Fat32 { MaskTwice(values[c]); }
  }

  /** Where a whole-byte entry lies in the packed table. */
  lemma {:induction false} PlainAt(n: nat, values: seq<nat>, c: nat)
    requires c < |values|
    ensures n * c + n <= |PackPlain(n, values)| && PackPlain(n, values)[n * c..n * c + n] == ToLE(values[c], n)
    decreases |values|
  {
    hide ToLE;
    var t, rest := PackPlain(n, values), PackPlain(n, values[1..]);
    assert t == ToLE(values[0], n) + rest;
    MulAdd(c, 1, n);
    MulLe(c + 1, |values|, n);
    if c > 0 {
      PlainAt(n, values[1..], c - 1);
      MulAdd(c - 1, 1, n);
      var off := n * (c - 1);
      assert t[off + n..off + n + n] == rest[off..off + n];
    }
  }

  lemma Powers()
    ensures Pow256(2) == 0x1_0000 && Pow256(4) == 0x1_0000_0000
  {
    assert Pow256(4) == 256 * Pow256(3);
  }

  lemma MaskTwice(v: nat)
    ensures v % 0x1_0000_0000 % 0x1000_0000 == v % 0x1000_0000
  {
    var q, r := v / 0x1_0000_0000, v % 0x1_0000_0000;
    DivModUnique(v, 0x1000_0000, q * 16 + r / 0x1000_0000, r % 0x1000_0000);
  }

  /**
   * Reading an entry through sectors is unpacking it from the table, whatever the sector size and
   * wherever the entry straddles.
   */
  lemma EntryIsUnpacked(g: Geometry, image: bytes, cluster: nat)
    requires g.Valid() && 2 <= cluster < EntryCount(g)
    requires (g.fatStart + g.sectorsPerFAT) * g.bytesPerSector <= |image|
    ensures FatEntry(g, image, cluster) == Some(Unpack(g.width, TableOf(g, image), cluster))
  {
    hide LE, ReadSectors, EntryOffset, TableOf, EntryCount, PowerOfTwo, FatEntry, Unpack, SectorsFor, SectorOf, RestOf;
    var off, bps := EntryOffset(g.width, cluster), g.bytesPerSector;
    var q, at, need := SectorOf(off, bps), RestOf(off, bps), EntryWidth(g.width);
    var n := SectorsFor(bps, at);
    EntryInsideTable(g, cluster);
    EntryInSectors(g, cluster);
    PlaceInSector(off, bps);
    SectorsNeeded(bps, at);
    SectorsInside(g, q, at, need, n);
    WindowAt(g, image, q, at, off, need, n);
    EntryOfWindow(g, image, cluster, ReadSectors(image, bps, g.fatStart + q, n).value, off, at);
  }

  lemma SectorsNeeded(bps: nat, at: nat)
    ensures SectorsFor(bps, at) == if at + 2 > bps then 2 else 1
  {
  }

  /** What is read of the sectors is what is unpacked, when both see the same bytes. */
  lemma EntryOfWindow(g: Geometry, image: bytes, cluster: nat, s: bytes, off: nat, at: nat)
    requires g.Valid() && 2 <= cluster < EntryCount(g)
    requires (g.fatStart + g.sectorsPerFAT) * g.bytesPerSector <= |image|
    requires off == EntryOffset(g.width, cluster) && off + EntryWidth(g.width) <= g.TableBytes()
    requires at == RestOf(off, g.bytesPerSector)
    requires ReadSectors(image, g.bytesPerSector, g.fatStart + SectorOf(off, g.bytesPerSector),
                         SectorsFor(g.bytesPerSector, at)) == Some(s)
    requires at + EntryWidth(g.width) <= |s|
    requires s[at..at + EntryWidth(g.width)] == TableOf(g, image)[off..off + EntryWidth(g.width)]
    ensures FatEntry(g, image, cluster) == Some(Unpack(g.width, TableOf(g, image), cluster))
  {
    hide LE, ReadSectors, EntryOffset, TableOf, EntryCount, PowerOfTwo, SectorsFor, SectorOf, RestOf;
  }

  /** The bytes of the first FAT. */
  function TableOf(g: Geometry, image: bytes): (t: bytes)
    requires (g.fatStart + g.sectorsPerFAT) * g.bytesPerSector <= |image|
    ensures |t| == g.TableBytes()
  {
    MulAdd(g.fatStart, g.sectorsPerFAT, g.bytesPerSector);
    image[g.fatStart * g.bytesPerSector..(g.fatStart + g.sectorsPerFAT) * g.bytesPerSector]
  }

  lemma PlainOffsets(cluster: nat)
    ensures EntryOffset(Fat16, cluster) == 2 * cluster && EntryOffset(Fat32, cluster) == 4 * cluster
  {
  }

  lemma MultipleRest(k: nat, x: nat, bps: nat, q: nat)
    requires k > 0 && bps > 0 && bps == k * q
    ensures k * x % bps + k <= bps
  {
    ScaledRest(k, x, q);
  }

  lemma ScaledRest(k: nat, x: nat, q: nat)
    requires k > 0 && q > 0
    ensures k * q > 0 && k * x % (k * q) == k * (x % q) && k * (x % q) + k <= k * q
  {
    MulLe(1, q, k);
    MulAdd(x / q * q, x % q, k);
    MulAssoc(x / q, q, k);
    MulAdd(x % q, 1, k);
    MulLe(x % q + 1, q, k);
    DivModUnique(k * x, k * q, x / q, k * (x % q));
  }

  /** The sectors read for an entry end inside the FAT. */
  lemma SectorsInside(g: Geometry, q: nat, at: nat, need: nat, n: nat)
    requires g.bytesPerSector > 0 && at < g.bytesPerSector && q * g.bytesPerSector + at + need <= g.TableBytes()
    requires need >= 2
    requires n == if at + 2 > g.bytesPerSector then 2 else 1
    ensures q + n <= g.sectorsPerFAT
  {
    var bps := g.bytesPerSector;
    if q + n > g.sectorsPerFAT {
      MulLe(g.sectorsPerFAT, q + n - 1, bps);
      MulAdd(q, n - 1, bps);
    }
  }

  /** The window into the sectors read is the same stretch of the table. */
  lemma WindowAt(g: Geometry, image: bytes, q: nat, at: nat, off: nat, need: nat, n: nat)
    requires g.bytesPerSector > 0 && (g.fatStart + g.sectorsPerFAT) * g.bytesPerSector <= |image|
    requires off == q * g.bytesPerSector + at && off + need <= g.TableBytes() && q + n <= g.sectorsPerFAT
    requires at + need <= n * g.bytesPerSector
    ensures var s := ReadSectors(image, g.bytesPerSector, g.fatStart + q, n);
            && s.Some? && at + need <= |s.value| == n * g.bytesPerSector
            && s.value[at..at + need] == TableOf(g, image)[off..off + need]
  {
    hide ReadSectors, TableOf;
    var bps := g.bytesPerSector;
    SectorsAre(image, bps, g.fatStart, q, n, g.sectorsPerFAT);
    TableIs(g, image);
    WindowIn(image, g.fatStart * bps, q * bps, n * bps, g.sectorsPerFAT * bps, at, need);
  }

  lemma SectorsAre(image: bytes, bps: nat, first: nat, q: nat, n: nat, size: nat)
    requires (first + size) * bps <= |image| && q + n <= size
    ensures q * bps + n * bps <= size * bps && first * bps + size * bps <= |image|
    ensures ReadSectors(image, bps, first + q, n) == Some(image[first * bps + q * bps..first * bps + q * bps + n * bps])
  {
    MulLe(q + n, size, bps);
    MulAdd(q, n, bps);
    MulAdd(first, q, bps);
    MulAdd(first + q, n, bps);
    MulAdd(first, size, bps);
  }

  lemma TableIs(g: Geometry, image: bytes)
    requires (g.fatStart + g.sectorsPerFAT) * g.bytesPerSector <= |image|
    ensures g.fatStart * g.bytesPerSector + g.sectorsPerFAT * g.bytesPerSector <= |image|
    ensures TableOf(g, image) ==
            image[g.fatStart * g.bytesPerSector..g.fatStart * g.bytesPerSector + g.sectorsPerFAT * g.bytesPerSector]
  {
    MulAdd(g.fatStart, g.sectorsPerFAT, g.bytesPerSector);
  }

  lemma WindowIn(image: bytes, fat: nat, from: nat, n: nat, size: nat, at: nat, need: nat)
    requires fat + size <= |image| && from + n <= size && at + need <= n
    ensures image[fat + from..fat + from + n][at..at + need] == image[fat..fat + size][from + at..from + at + need]
  {
    SliceSlice(image, fat + from, fat + from + n, at, at + need);
    SliceSlice(image, fat, fat + size, from + at, from + at + need);
  }

  /** Every in-range entry of a packed table reads as the value packed. */
  lemma PackedEntryReads(g: Geometry, image: bytes, values: seq<nat>, cluster: nat)
    requires g.Valid() && (g.fatStart + g.sectorsPerFAT) * g.bytesPerSector <= |image|
    requires (g.width == Fat12 ==> |values| % 2 == 0) && Pack(g.width, values) <= TableOf(g, image)
    requires 2 <= cluster < EntryCount(g) && cluster < |values|
    ensures FatEntry(g, image, cluster) == Some(Visible(g.width, values[cluster]))
  {
    hide LE, Pack, FatEntry, TableOf, Unpack;
    EntryIsUnpacked(g, image, cluster);
    UnpackPacked(g.width, values, cluster);
    UnpackPrefix(g.width, Pack(g.width, values), TableOf(g, image), cluster);
  }

  lemma UnpackPrefix(w: Width, a: bytes, b: bytes, c: nat)
    requires a <= b && EntryOffset(w, c) + (if w == Fat32 then 4 else 2) <= |a|
    ensures Unpack(w, a, c) == Unpack(w, b, c)
  {
    hide LE;
    var off, need := EntryOffset(w, c), if w == Fat32 then 4 else 2;
    assert a[off..off + need] == b[off..off + need];
  }
}

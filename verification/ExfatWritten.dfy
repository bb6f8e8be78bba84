/**
 * exFAT volumes laid out byte by byte (internal/filesystem/exfat/exfat.go): the FAT's words, the cluster heap
 * behind them, and the entry sets of a directory.
 */
module ExfatWritten {
  import opened Bytes
  import opened ClusterChain
  import opened Exfat

  // ------------------------------------------------------------ FAT and cluster heap

  function Words(values: seq<nat>): seq<bytes> {
    seq(|values|, i requires 0 <= i < |values| => ToLE(values[i], 4))
  }

  /** Where a FAT word leads: all ones end a chain, the bad mark and zero break it. */
  function WordLink(x: nat): Link {
    if x == 0xFFFF_FFFF then Last else if x == 0xFFFF_FFF7 || x == 0 then Broken else Next(x)
  }

  /** The FAT has a word for each cluster from 0 on; the heap behind it has the clusters from 2 on. */
  ghost predicate LaidOut(g: Geometry, img: bytes, values: seq<nat>, clusters: seq<bytes>) {
    && |values| == g.count + 2 && |clusters| == g.count
    && (forall i :: 0 <= i < |values| ==> values[i] < 0x1_0000_0000)
    && (forall i :: 0 <= i < |clusters| ==> |clusters[i]| == g.ss * g.spc)
    && g.fatOffset * g.ss + 4 * (g.count + 2) <= g.heapOffset * g.ss
    && Holds(img, g.fatOffset * g.ss, Concat(Words(values))) && Holds(img, g.heapOffset * g.ss, Concat(clusters))
  }

  lemma LinkIsWord(g: Geometry, img: bytes, values: seq<nat>, clusters: seq<bytes>, c: nat)
    requires LaidOut(g, img, values, clusters) && 2 <= c < g.count + 2
    ensures LinkOf(VolumeOf(g, img), c) == WordLink(values[c])
  {
    hide FatEntry, LaidOut;
    WordRead(g, img, values, clusters, c);
  }

  lemma WordRead(g: Geometry, img: bytes, values: seq<nat>, clusters: seq<bytes>, c: nat)
    requires LaidOut(g, img, values, clusters) && 2 <= c < g.count + 2
    ensures FatEntry(g, img, c) == Some(values[c])
  {
    hide Concat, ToLE, LaidOut, Geometry.FatAt, FatEntry;
    TableIs(g, img, values, clusters, c, g.fatOffset * g.ss);
    PartHeld(img, g.fatOffset * g.ss, Words(values), 4, c);
    EntryOfWord(g, img, c, values[c]);
  }

  lemma EntryOfWord(g: Geometry, img: bytes, c: nat, v: nat)
    requires 2 <= c <= g.count + 1 && (g.fatOffset + 4 * c / g.ss + 1) * g.ss <= |img|
    requires Holds(img, g.FatAt(c), ToLE(v, 4)) && v < 0x1_0000_0000
    ensures FatEntry(g, img, c) == Some(v)
  {
    hide LE, ToLE, Geometry.FatAt;
    FieldWidths();
    FieldHeld(img, g.FatAt(c), v, 4);
  }

  lemma TableIs(g: Geometry, img: bytes, values: seq<nat>, clusters: seq<bytes>, c: nat, fat: nat)
    requires LaidOut(g, img, values, clusters) && c < g.count + 2 && fat == g.fatOffset * g.ss
    ensures Holds(img, fat, Concat(Words(values))) && |values| == g.count + 2 && values[c] < 0x1_0000_0000
    ensures g.FatAt(c) == fat + 4 * c && (g.fatOffset + 4 * c / g.ss + 1) * g.ss <= |img|
  {
    hide Concat, Words;
    WholeSector(g.ss, g.fatOffset, g.heapOffset, 4 * c);
  }

  /** The sector of a byte in front of the heap ends in front of it. */
  lemma WholeSector(ss: pos, fat: nat, heap: nat, off: nat)
    requires fat * ss + off < heap * ss
    ensures (fat + off / ss + 1) * ss <= heap * ss
  {
    var q := off / ss;
    MulAdd(fat, q, ss);
    if fat + q >= heap { MulLe(heap, fat + q, ss); }
    MulLe(fat + q + 1, heap, ss);
  }

  lemma ClusterIs(g: Geometry, img: bytes, values: seq<nat>, clusters: seq<bytes>, c: nat)
    requires LaidOut(g, img, values, clusters) && 2 <= c < g.count + 2
    ensures ClusterData(g, img, c) == Some(clusters[c - 2])
  {
    hide Concat, LaidOut, Geometry.DataAt, Geometry.ClusterSize;
    HeapIs(g, img, values, clusters, c, g.heapOffset * g.ss);
    PartHeld(img, g.heapOffset * g.ss, clusters, g.ClusterSize(), c - 2);
  }

  lemma HeapIs(g: Geometry, img: bytes, values: seq<nat>, clusters: seq<bytes>, c: nat, heap: nat)
    requires LaidOut(g, img, values, clusters) && c >= 2 && heap == g.heapOffset * g.ss
    ensures Holds(img, heap, Concat(clusters)) && |clusters| == g.count
    ensures forall i :: 0 <= i < |clusters| ==> |clusters[i]| == g.ClusterSize()
    ensures g.DataAt(c) == heap + g.ClusterSize() * (c - 2)
  {
    hide Concat, Words;
  }

  /** A chain of the FAT's words: no repeats, each leads to the next cluster, and the last one ends it. */
  ghost predicate WordChain(values: seq<nat>, cs: seq<nat>) {
    && cs != [] && Distinct(cs) && (forall i :: 0 <= i < |cs| ==> 2 <= cs[i] < |values|)
    && (forall i :: 0 <= i < |cs| - 1 ==> WordLink(values[cs[i]]) == Next(cs[i + 1]))
    && WordLink(values[cs[|cs| - 1]]) == Last
  }

  /**
   * A file of such a volume is the data of its chain's clusters, one after the other, cut to its size, or an
   * error when its size is more than they hold.
   */
  lemma WrittenFile(g: Geometry, img: bytes, values: seq<nat>, clusters: seq<bytes>, cs: seq<nat>, size: nat)
    requires LaidOut(g, img, values, clusters) && WordChain(values, cs) && |cs| <= MAX_CLUSTER_CHAIN
    ensures InArea(clusters, cs)
    ensures var data := Concat(Chosen(clusters, cs));
            Content(VolumeOf(g, img), cs[0], size) == if size <= |data| then Some(data[..size]) else None
  {
    hide Follow, WordLink, LinkOf, FatEntry, Concat, ClusterData;
    var v := VolumeOf(g, img);
    forall i | 0 <= i < |cs| ensures LinkOf(v, cs[i]) == WordLink(values[cs[i]]) {
      LinkIsWord(g, img, values, clusters, cs[i]);
    }
    FollowIsChain(v, cs[0], cs);
    forall i | 0 <= i < |cs| ensures v.cluster(cs[i]) == Some(Chosen(clusters, cs)[i]) {
      ClusterIs(g, img, values, clusters, cs[i]);
    }
    ChainGathered(v, cs, Chosen(clusters, cs), size);
  }

  // ------------------------------------------------------------ entry sets

  /** A file to be written; declared is the name length its stream entry gives. */
  datatype File = File(
    name: seq<nat>, declared: byte, attrs: nat, size: nat, cluster: nat, // what the reader looks at
    flags: byte, sum: nat, hash: nat, valid: nat                         // what it passes over
  ) {
    predicate Fits() {
      && 1 <= |name| <= 255 && (forall i :: 0 <= i < |name| ==> 0 < name[i] < 0x1_0000)
      && attrs < 0x1_0000 && cluster < 0x1_0000_0000 && size < 0x1_0000_0000_0000_0000
    }
  }

  /** What a listing should show: attribute bit 0x10 makes a directory, and declared length 0 leaves the name whole. */
  function Shown(f: File): DirEntry {
    DirEntry(if 0 < f.declared <= |f.name| then f.name[..f.declared] else f.name, f.attrs / 0x10 % 2 == 1, f.size,
             f.cluster)
  }

  function Units(name: seq<nat>): seq<bytes> { seq(|name|, i requires 0 <= i < |name| => ToLE(name[i], 2)) }

  /** A name entry: up to 15 units, padded with zeros. */
  function NamePart(units: seq<nat>): bytes {
    [0xC1, 0] + Concat(Units(units)) + Zeros(if |units| <= 15 then 30 - 2 * |units| else 0)
  }

  function NameParts(name: seq<nat>): (r: seq<bytes>) {
    if |name| <= 15 then [NamePart(name)] else [NamePart(name[..15])] + NameParts(name[15..])
  }

  function StreamPart(f: File): (e: bytes)
  {
    [0xC0, f.flags, 0, f.declared] + ToLE(f.hash, 2) + Zeros(2) + ToLE(f.valid, 8) + Zeros(4) + ToLE(f.cluster, 4)
    + ToLE(f.size, 8)
  }

  function PrimaryPart(f: File, n: byte): (e: bytes) {
    [0x85, n] + ToLE(f.sum, 2) + ToLE(f.attrs, 2) + Zeros(26)
  }

  /** The entries of a file: primary, stream, and as many name entries as its name takes. */
  function FileSet(f: File): (r: seq<bytes>)
    requires f.Fits()
  {
    NamePartCount(f.name);
    [PrimaryPart(f, 1 + |NameParts(f.name)|), StreamPart(f)] + NameParts(f.name)
  }

  lemma {:induction false} NamePartCount(name: seq<nat>)
    requires name != []
    ensures |NameParts(name)| == (|name| + 14) / 15
    decreases |name|
  {
    hide NamePart;
    if |name| > 15 { NamePartCount(name[15..]); }
  }

  lemma PartSizes(units: seq<nat>)
    requires |units| <= 15
    ensures |Concat(Units(units))| == 2 * |units| && |NamePart(units)| == ENTRY
  {
    hide Concat;
    EqualSize(Units(units), 2);
  }

  lemma {:induction false} NamePartsSized(name: seq<nat>, i: nat)
    requires i < |NameParts(name)|
    ensures |NameParts(name)[i]| == ENTRY && NameParts(name)[i][0] == 0xC1
    decreases |name|
  {
    hide NamePart;
    if |name| <= 15 {
      PartSizes(name);
      NameMark(name);
    } else {
      PartSizes(name[..15]);
      NameMark(name[..15]);
      if i > 0 { NamePartsSized(name[15..], i - 1); }
    }
  }

  lemma NameMark(units: seq<nat>)
    ensures |NamePart(units)| > 0 && NamePart(units)[0] == 0xC1
  {
  }

  /** A name entry gives its units back, from any of them on. */
  lemma {:induction false} UnitsBack(units: seq<nat>, j: nat)
    requires j <= |units| <= 15 && forall i :: 0 <= i < |units| ==> 0 < units[i] < 0x1_0000
    ensures |NamePart(units)| == ENTRY && NameUnits(NamePart(units), j) == units[j..]
    decreases |units| - j
  {
    hide NamePart, LE;
    PartSizes(units);
    var e := NamePart(units);
    if j < |units| {
      UnitAt(units, j);
      UnitsBack(units, j + 1);
      assert units[j..] == [units[j]] + units[j + 1..];
    } else if j < 15 {
      PaddingAt(units);
    }
  }

  lemma UnitAt(units: seq<nat>, j: nat)
    requires j < |units| <= 15 && units[j] < 0x1_0000 && |NamePart(units)| == ENTRY
    ensures LE(NamePart(units)[2 + 2 * j..4 + 2 * j]) == units[j]
  {
    hide LE, ToLE, Concat;
    var area := Concat(Units(units));
    FieldWidths();
    HoldsPart([0xC1, 0], area, Zeros(30 - 2 * |units|), NamePart(units));
    PartHeld(NamePart(units), 2, Units(units), 2, j);
    FieldHeld(NamePart(units), 2 + 2 * j, units[j], 2);
  }

  lemma PaddingAt(units: seq<nat>)
    requires |units| < 15 && |Concat(Units(units))| == 2 * |units| && |NamePart(units)| == ENTRY
    ensures LE(NamePart(units)[2 + 2 * |units|..4 + 2 * |units|]) == 0
  {
    hide Concat, Units;
    var b := NamePart(units)[2 + 2 * |units|..4 + 2 * |units|];
    assert b == [0, 0];
    assert b[1..] == [0] && b[1..][1..] == [];
    assert LE(b[1..]) == 0;
  }

  /** These entries of the buffer are the given ones. */
  ghost predicate Lies(data: bytes, i: nat, es: seq<bytes>) {
    i + |es| <= Entries(data) && forall k :: 0 <= k < |es| ==> EntryAt(data, i + k) == es[k]
  }

  /** The name entries of a set add its name. */
  lemma {:induction false} NameAdded(data: bytes, i: nat, name: seq<nat>, s: SetInfo)
    requires Lies(data, i, NameParts(name)) && forall k :: 0 <= k < |name| ==> 0 < name[k] < 0x1_0000
    ensures AddSecondaries(data, i, i + |NameParts(name)|, s) == Some(s.(units := s.units + name))
    decreases |name|
  {
    hide NamePart, NameUnits, LE, EntryAt;
    var units := if |name| <= 15 then name else name[..15];
    var s' := s.(units := s.units + units);
    assert EntryAt(data, i) == NameParts(name)[0] == NamePart(units);
    UnitsBack(units, 0);
    NameMark(units);
    assert units[0..] == units;
    assert AddSecondary(s, NamePart(units)) == Some(s');
    if |name| <= 15 {
      assert NameParts(name) == [NamePart(name)];
      assert AddSecondaries(data, i + 1, i + 1, s') == Some(s');
    } else {
      var rest := NameParts(name[15..]);
      assert NameParts(name) == [NamePart(units)] + rest;
      forall k | 0 <= k < |rest| ensures EntryAt(data, i + 1 + k) == rest[k] {
        assert EntryAt(data, i + (k + 1)) == NameParts(name)[k + 1];
      }
      NameAdded(data, i + 1, name[15..], s');
      assert s.units + units + name[15..] == s.units + name by { assert units + name[15..] == name; }
    }
  }

  lemma StreamFields(f: File)
    requires f.Fits()
    ensures var e := StreamPart(f);
            |e| == ENTRY && e[0] == 0xC0 && e[3] == f.declared && LE(e[20..24]) == f.cluster && LE(e[24..32]) == f.size
  {
    hide LE, ToLE;
    var e := StreamPart(f);
    FieldWidths();
    assert e[20..24] == ToLE(f.cluster, 4) && e[24..32] == ToLE(f.size, 8);
    FieldHeld(e, 20, f.cluster, 4);
    FieldHeld(e, 24, f.size, 8);
  }

  lemma PrimaryFields(f: File, n: byte)
    requires f.attrs < 0x1_0000
    ensures var e := PrimaryPart(f, n); |e| == ENTRY && e[0] == 0x85 && e[1] == n && LE(e[4..6]) == f.attrs
  {
    hide LE, ToLE;
    var e := PrimaryPart(f, n);
    FieldWidths();
    assert e[4..6] == ToLE(f.attrs, 2);
    FieldHeld(e, 4, f.attrs, 2);
  }

  /**
   * A written set is read as its file, whatever comes in front of it and behind it; a declared length that is more
   * than the name is an error.
   */
  lemma SetRead(data: bytes, i: nat, f: File)
    requires f.Fits() && Lies(data, i, FileSet(f))
    ensures StepAt(data, i) == if f.declared <= |f.name| then Listed(Shown(f), |FileSet(f)|) else Error
  {
    hide LE, EntryAt, NameParts, StreamPart, PrimaryPart, NameUnits;
    var es, parts := FileSet(f), NameParts(f.name);
    var n := 1 + |parts|;
    NamePartCount(f.name);
    PrimaryFields(f, n);
    StreamFields(f);
    assert es[0] == PrimaryPart(f, n) && es[1] == StreamPart(f);
    assert EntryAt(data, i + 0) == es[0] && EntryAt(data, i + 1) == es[1];
    forall k | 0 <= k < |parts| ensures EntryAt(data, i + 2 + k) == parts[k] && parts[k][0] == 0xC1 {
      assert EntryAt(data, i + (2 + k)) == es[2 + k];
      NamePartsSized(f.name, k);
    }
    var s := SetInfo(true, f.declared, f.cluster, f.size, []);
    assert AddSecondary(NO_INFO, es[1]) == Some(s);
    NameAdded(data, i + 2, f.name, s);
    assert [] + f.name == f.name;
    forall k | i < k <= i + n ensures EntryAt(data, k)[0] >= 0x80 {
      if k > i + 1 { assert EntryAt(data, i + 2 + (k - i - 2)) == parts[k - i - 2]; }
    }
    assert SetComplete(data, i, n);
  }

  // ------------------------------------------------------------ directories

  /** The entries of some files, one set after the other. */
  function AllEntries(files: seq<File>): (r: seq<bytes>)
    requires forall i :: 0 <= i < |files| ==> files[i].Fits()
  {
    if files == [] then [] else FileSet(files[0]) + AllEntries(files[1..])
  }

  function AllShown(files: seq<File>): seq<DirEntry> {
    seq(|files|, i requires 0 <= i < |files| => Shown(files[i]))
  }

  lemma {:induction false} SetsRead(data: bytes, i: nat, files: seq<File>)
    requires (forall k :: 0 <= k < |files| ==> files[k].Fits()) && Lies(data, i, AllEntries(files))
    requires forall k :: 0 <= k < |files| ==> files[k].declared <= |files[k].name|
    ensures ParseFrom(data, i) == Joined(AllShown(files), ParseFrom(data, i + |AllEntries(files)|))
    decreases |files|
  {
    hide StepAt, FileSet, EntryAt, Shown;
    var rest := ParseFrom(data, i + |AllEntries(files)|);
    if files == [] {
      assert rest.Some? ==> AllShown([]) + rest.value == rest.value;
    } else {
      var es, others := FileSet(files[0]), AllEntries(files[1..]);
      forall k | 0 <= k < |es| ensures EntryAt(data, i + k) == es[k] { assert AllEntries(files)[k] == es[k]; }
      forall k | 0 <= k < |others| ensures EntryAt(data, i + |es| + k) == others[k] {
        assert EntryAt(data, i + (|es| + k)) == AllEntries(files)[|es| + k];
      }
      SetRead(data, i, files[0]);
      SetsRead(data, i + |es|, files[1..]);
      assert AllShown(files) == [Shown(files[0])] + AllShown(files[1..]);
      if rest.Some? { AppendAssoc([Shown(files[0])], AllShown(files[1..]), rest.value); }
    }
  }

  lemma {:induction false} AllSized(files: seq<File>, i: nat)
    requires (forall k :: 0 <= k < |files| ==> files[k].Fits()) && i < |AllEntries(files)|
    ensures |AllEntries(files)[i]| == ENTRY
  {
    hide PrimaryPart, StreamPart, NameParts;
    var f := files[0];
    if i < |FileSet(f)| {
      NamePartCount(f.name);
      PrimaryFields(f, 1 + |NameParts(f.name)|);
      StreamFields(f);
      if i >= 2 { NamePartsSized(f.name, i - 2); }
    } else {
      AllSized(files[1..], i - |FileSet(f)|);
    }
  }

  /** A directory of written sets is listed file by file; what is behind it is listed as if it stood alone. */
  lemma DirectoryRead(data: bytes, files: seq<File>, tail: bytes)
    requires forall i :: 0 <= i < |files| ==> files[i].Fits() && files[i].declared <= |files[i].name|
    requires data == Concat(AllEntries(files)) + tail
    ensures ParseFrom(data, 0) == Joined(AllShown(files), ParseFrom(data, |AllEntries(files)|))
    ensures |tail| < ENTRY || tail[0] <= 1 ==> ParseFrom(data, 0) == Some(AllShown(files))
  {
    hide AllEntries, Concat, StepAt, AllShown;
    var es := AllEntries(files);
    forall i | 0 <= i < |es| ensures |es[i]| == ENTRY { AllSized(files, i); }
    EqualSize(es, ENTRY);
    HoldsPart([], Concat(es), tail, data);
    forall k | 0 <= k < |es| ensures ENTRY * (k + 1) <= |data| && EntryAt(data, 0 + k) == es[k] {
      PartHeld(data, 0, es, ENTRY, k);
    }
    SetsRead(data, 0, files);
    if |tail| < ENTRY || tail[0] <= 1 {
      EndRead(data, |es|, tail);
      assert AllShown(files) + [] == AllShown(files);
    }
  }

  lemma EndRead(data: bytes, k: nat, tail: bytes)
    requires |data| == ENTRY * k + |tail| && data[ENTRY * k..] == tail && (|tail| < ENTRY || tail[0] <= 1)
    ensures ParseFrom(data, k) == Some([])
  {
    if |tail| >= ENTRY { assert data[ENTRY * k] == tail[0]; }
  }
}

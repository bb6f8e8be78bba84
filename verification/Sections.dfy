/**
 * Reading the container: section descriptors, the section chain, chunk tables and stored hashes
 * (internal/sections.go), as functions of the joined image.
 */
module Sections {
  import opened Bytes
  import opened Codec
  import opened Segments

  const FILE_HEADER_LENGTH: nat := 13
  const SECTION_LENGTH: nat := 76
  const TABLE_HEADER_LENGTH: nat := 24
  const CHUNK_FOOTER_LENGTH: nat := 4
  const DISK_SMART_LENGTH: nat := 1052

  /** Section names; any other text is kept as it is. */
  datatype Name =
    | Header2 | Header | Volume | Disk | Sectors | Table | Table2 | Data | Digest | Hash | Done
    | Other(text: bytes)

  /** The ASCII text of a section name. */
  function NameText(n: Name): (t: bytes)
    ensures !n.Other? ==> 0 < |t| <= 16
  {
    match n
    case Header2 => [104, 101, 97, 100, 101, 114, 50]
    case Header => [104, 101, 97, 100, 101, 114]
    case Volume => [118, 111, 108, 117, 109, 101]
    case Disk => [100, 105, 115, 107]
    case Sectors => [115, 101, 99, 116, 111, 114, 115]
    case Table => [116, 97, 98, 108, 101]
    case Table2 => [116, 97, 98, 108, 101, 50]
    case Data => [100, 97, 116, 97]
    case Digest => [100, 105, 103, 101, 115, 116]
    case Hash => [104, 97, 115, 104]
    case Done => [100, 111, 110, 101]
    case Other(text) => text
  }

  const KNOWN_NAMES := [Header2, Header, Volume, Disk, Sectors, Table, Table2, Data, Digest, Hash, Done]

  /** The name a text stands for. */
  function ParseName(text: bytes): Name { NameIn(KNOWN_NAMES, text) }

  function NameIn(names: seq<Name>, text: bytes): Name {
    if names == [] then Other(text)
    else if NameText(names[0]) == text then names[0]
    else NameIn(names[1..], text)
  }

  /** Texts of known names differ, told by their lengths and one or two letters. */
  function Fingerprint(text: bytes): (nat, nat, nat) {
    (|text|, if |text| > 0 then text[0] else 0, if |text| > 2 then text[2] else 0)
  }

  lemma {:induction false} FindName(names: seq<Name>, n: Name)
    requires n in names
    requires forall i, j :: 0 <= i < j < |names| ==> Fingerprint(NameText(names[i])) != Fingerprint(NameText(names[j]))
    ensures NameIn(names, NameText(n)) == n
  {
    if names[0] != n { FindName(names[1..], n); }
  }

  lemma KnownNamesDiffer()
    ensures forall i, j :: 0 <= i < j < |KNOWN_NAMES| ==>
              Fingerprint(NameText(KNOWN_NAMES[i])) != Fingerprint(NameText(KNOWN_NAMES[j]))
  {
    assert Fingerprint(NameText(Header2)) == (7, 104, 97) && Fingerprint(NameText(Header)) == (6, 104, 97);
    assert Fingerprint(NameText(Volume)) == (6, 118, 108) && Fingerprint(NameText(Disk)) == (4, 100, 115);
    assert Fingerprint(NameText(Sectors)) == (7, 115, 99) && Fingerprint(NameText(Table)) == (5, 116, 98);
    assert Fingerprint(NameText(Table2)) == (6, 116, 98) && Fingerprint(NameText(Data)) == (4, 100, 116);
    assert Fingerprint(NameText(Digest)) == (6, 100, 103) && Fingerprint(NameText(Hash)) == (4, 104, 115);
    assert Fingerprint(NameText(Done)) == (4, 100, 110);
  }

  /** Every known name reads back from its text. */
  lemma NameRoundTrip(n: Name)
    requires !n.Other?
    ensures ParseName(NameText(n)) == n
    ensures 0 < |NameText(n)| <= 16 && NameText(n)[|NameText(n)| - 1] != 0
  {
    KnownNamesDiffer();
    assert n in KNOWN_NAMES by {
      assert KNOWN_NAMES[0] == Header2 && KNOWN_NAMES[1] == Header && KNOWN_NAMES[2] == Volume
          && KNOWN_NAMES[3] == Disk;
      assert KNOWN_NAMES[4] == Sectors && KNOWN_NAMES[5] == Table && KNOWN_NAMES[6] == Table2 && KNOWN_NAMES[7] == Data;
      assert KNOWN_NAMES[8] == Digest && KNOWN_NAMES[9] == Hash && KNOWN_NAMES[10] == Done;
    }
    FindName(KNOWN_NAMES, n);
  }

  /** A decoded descriptor: name without trailing NULs, next offset, declared size. */
  datatype Section = Section(name: Name, next: nat, size: nat)

  /** A section together with its logical address and the segment file it was found in. */
  datatype SectionAt = SectionAt(address: nat, segment: nat, desc: Section)

  /** What a step that may fail part-way leaves behind. */
  datatype Progress<+T> = Progress(value: T, ok: bool)

  // ------------------------------------------------------------ descriptors

  function TrimNul(b: bytes): bytes {
    if b != [] && b[|b| - 1] == 0 then TrimNul(b[..|b| - 1]) else b
  }

  function DecodeSection(b: bytes): Section
    requires |b| == SECTION_LENGTH
  {
    Section(ParseName(TrimNul(b[..16])), LE(b[16..24]), LE(b[24..32]))
  }

  /** The descriptor at address, unless fewer than 76 bytes are there. */
  function SectionAtAddress(image: bytes, address: nat): Option<Section> {
    var buf := Clamp(image, address, SECTION_LENGTH);
    if |buf| < SECTION_LENGTH then None else Some(DecodeSection(buf))
  }

  // ------------------------------------------------------------ the section chain

  /** Where the chain goes after a section, or None when it ends there. */
  function NextAddress(start: nat, address: nat, s: Section): Option<nat> {
    if s.name == Done || s.next == 0 then None
    else
      var next := Int64(start + Int64(s.next));
      if next <= address then None else Some(next)
  }

  function Prepend<T>(xs: seq<T>, w: Progress<seq<T>>): Progress<seq<T>> {
    Progress(xs + w.value, w.ok)
  }

  lemma PrependTwice<T>(xs: seq<T>, ys: seq<T>, w: Progress<seq<T>>)
    ensures Prepend(xs, Prepend(ys, w)) == Prepend(xs + ys, w)
    ensures Prepend([], w) == w
  {
    assert xs + (ys + w.value) == (xs + ys) + w.value;
    assert [] + w.value == w.value;
  }

  /** The chain of one segment from address on: forward only, so it ends. */
  function WalkFrom(image: bytes, seg: nat, start: nat, address: nat): Progress<seq<SectionAt>>
    decreases |image| - address
  {
    match SectionAtAddress(image, address)
    case None => Progress([], false)
    case Some(s) =>
      var here := [SectionAt(address, seg, s)];
      match NextAddress(start, address, s)
      case None => Progress(here, true)
      case Some(next) => Prepend(here, WalkFrom(image, seg, start, next))
  }

  /** The chains of segments k, k+1, ... in order, stopping at the first unreadable descriptor. */
  function WalkSegments(image: bytes, segs: seq<Segment>, k: nat): Progress<seq<SectionAt>>
    requires k <= |segs|
    decreases |segs| - k
  {
    if k == |segs| then Progress([], true)
    else
      var first := WalkFrom(image, k, segs[k].start, segs[k].start + FILE_HEADER_LENGTH);
      if !first.ok then first else Prepend(first.value, WalkSegments(image, segs, k + 1))
  }

  /** One more segment walked, with what was found before it. */
  lemma WalkSegmentsStep(image: bytes, segs: seq<Segment>, k: nat, done: seq<SectionAt>)
    requires k < |segs|
    ensures var first := WalkFrom(image, k, segs[k].start, segs[k].start + FILE_HEADER_LENGTH);
            Prepend(done, WalkSegments(image, segs, k)) ==
            if first.ok then Prepend(done + first.value, WalkSegments(image, segs, k + 1))
            else Progress(done + first.value, false)
  {
    var first := WalkFrom(image, k, segs[k].start, segs[k].start + FILE_HEADER_LENGTH);
    PrependTwice(done, first.value, WalkSegments(image, segs, k + 1));
  }

  // ------------------------------------------------------------ section payloads

  /** Whether a payload of n bytes at from lies inside the image (guards against crafted sizes). */
  predicate PayloadFits(image: bytes, from: nat, n: int) {
    |image| > 0 ==> from < |image| && n <= |image| - from
  }

  function CountNewlines(text: bytes): nat {
    if text == [] then 0 else (if text[0] == 10 then 1 else 0) + CountNewlines(text[1..])
  }

  /** The text of an inflated header: UTF-16 when a byte-order mark says so and it decodes, else as is. */
  function HeaderText(c: Codec, h: bytes): bytes {
    var decoded :=
      if |h| >= 2 && h[0] == 0xFE && h[1] == 0xFF then c.utf16(h, true)
      else if |h| >= 2 && h[0] == 0xFF && h[1] == 0xFE then c.utf16(h, false)
      else None;
    if decoded.Some? && decoded.value != [] then decoded.value else h
  }

  /** ParseHeader succeeds: the payload fits, inflates, and its text has at least four lines. */
  predicate HeaderAccepted(c: Codec, image: bytes, v: SectionAt) {
    var n := Int64(Int64(v.desc.size) - SECTION_LENGTH);
    && n >= 0
    && PayloadFits(image, v.address + SECTION_LENGTH, n)
    && var buf := Clamp(image, v.address + SECTION_LENGTH, n);
       c.zlibHeader(buf) && 1 + CountNewlines(HeaderText(c, c.zlibRead(buf).out)) >= 4
  }

  /** The geometry fields of a volume or disk section. */
  datatype DiskSMART = DiskSMART(chunkSectors: nat, sectorBytes: nat, sectorsCount: nat)

  /** ParseVolume: only a section of exactly 76 + 1052 bytes contributes, and only if it is all there. */
  function VolumeOf(image: bytes, v: SectionAt): Option<DiskSMART> {
    var buf := Clamp(image, v.address + SECTION_LENGTH, DISK_SMART_LENGTH);
    if v.desc.size == SECTION_LENGTH + DISK_SMART_LENGTH && |buf| == DISK_SMART_LENGTH
    then Some(DiskSMART(LE(buf[8..12]), LE(buf[12..16]), LE(buf[16..24])))
    else None
  }

  /** digestHashPayload with 16 as the minimum. */
  function HashPayload(image: bytes, v: SectionAt): Option<bytes> {
    var n := Int64(Int64(v.desc.size) - SECTION_LENGTH);
    if Int64(v.desc.size) < SECTION_LENGTH + 16 || !PayloadFits(image, v.address + SECTION_LENGTH, n) then None
    else
      var buf := Clamp(image, v.address + SECTION_LENGTH, n);
      if |buf| < 16 then None else Some(buf)
  }

  function Entries(b: bytes): (es: seq<nat>)
    ensures |es| == |b| / 4
  {
    if |b| < 4 then [] else [LE(b[..4])] + Entries(b[4..])
  }

  datatype TableData = TableData(entries: seq<nat>, base: nat)

  /** ParseTable: None stands for its errors. */
  function TableOf(image: bytes, v: SectionAt): Option<TableData> {
    var head := Clamp(image, v.address + SECTION_LENGTH, TABLE_HEADER_LENGTH);
    var from := v.address + SECTION_LENGTH + TABLE_HEADER_LENGTH;
    var n := Int64(Int64(v.desc.size) - SECTION_LENGTH - TABLE_HEADER_LENGTH);
    if v.desc.size < SECTION_LENGTH + TABLE_HEADER_LENGTH || |head| < TABLE_HEADER_LENGTH then None
    else if n < 2 * CHUNK_FOOTER_LENGTH || !PayloadFits(image, from, n) then None
    else
      var buf := Clamp(image, from, n);
      if |buf| < n then None
      else Some(TableData(Entries(buf[..(n - CHUNK_FOOTER_LENGTH) / 4 * 4]), LE(head[8..16])))
  }

  // ------------------------------------------------------------ ParseSections

  /** What the pass over the sections collects. */
  datatype Collected = Collected(
    disks: seq<DiskSMART>,
    sectorsAt: seq<SectionAt>,
    tablesAt: seq<SectionAt>,
    md5: bytes,
    sha1: bytes
  )

  const NOTHING := Collected([], [], [], [], [])

  function CollectOne(c: Codec, image: bytes, p: Collected, v: SectionAt): Progress<Collected> {
    var name := v.desc.name;
    if name == Header2 || name == Header then Progress(p, HeaderAccepted(c, image, v))
    else if name == Volume || name == Disk then
      match VolumeOf(image, v)
      case None => Progress(p, true)
      case Some(d) => Progress(p.(disks := p.disks + [d]), true)
    else if name == Sectors then Progress(p.(sectorsAt := p.sectorsAt + [v]), true)
    else if name == Table then Progress(p.(tablesAt := p.tablesAt + [v]), true)
    else if name == Digest then
      match HashPayload(image, v)
      case None => Progress(p, true)
      case Some(b) => Progress(p.(md5 := b[..16], sha1 := if |b| >= 36 then b[16..36] else p.sha1), true)
    else if name == Hash then
      match HashPayload(image, v)
      case None => Progress(p, true)
      case Some(b) => Progress(p.(md5 := b[..16]), true)
    else Progress(p, true)
  }

  function CollectAll(c: Codec, image: bytes, p: Collected, vs: seq<SectionAt>): Progress<Collected>
    decreases |vs|
  {
    if vs == [] then Progress(p, true)
    else
      var r := CollectOne(c, image, p, vs[0]);
      if !r.ok then r else CollectAll(c, image, r.value, vs[1..])
  }

  /** A sectors section paired with its chunk table. */
  datatype ChunkTable = ChunkTable(address: nat, entries: seq<nat>, base: nat, segment: nat)

  /**
   * The chunk tables of an image.  Without sectors sections (EnCase 1) each table stands for
   * itself; otherwise the k-th sectors section takes the k-th table, and the segment is the table's.
   */
  function PairTables(image: bytes, sectorsAt: seq<SectionAt>, tablesAt: seq<SectionAt>): Progress<seq<ChunkTable>> {
    if |tablesAt| > 0 && |sectorsAt| == 0 then PairFrom(image, tablesAt, tablesAt)
    else PairFrom(image, sectorsAt, tablesAt)
  }

  function PairFrom(image: bytes, homes: seq<SectionAt>, tablesAt: seq<SectionAt>): Progress<seq<ChunkTable>> {
    if homes == [] then Progress([], true)
    else if tablesAt == [] then Progress([], false)
    else
      match TableOf(image, tablesAt[0])
      case None => Progress([], false)
      case Some(t) =>
        Prepend([ChunkTable(homes[0].address, t.entries, t.base, tablesAt[0].segment)],
                PairFrom(image, homes[1..], tablesAt[1..]))
  }

  // ------------------------------------------------------------ the whole parse

  datatype Parsed = Parsed(disks: seq<DiskSMART>, tables: seq<ChunkTable>, md5: bytes, sha1: bytes)

  /** ReadSections followed by ParseSections on a freshly opened image. */
  function ParseImage(c: Codec, segs: seq<Segment>): Option<Parsed> {
    var image := Joined(segs);
    var w := WalkSegments(image, segs, 0);
    var r := CollectAll(c, image, NOTHING, w.value);
    var t := PairTables(image, r.value.sectorsAt, r.value.tablesAt);
    if w.ok && r.ok && t.ok then Some(Parsed(r.value.disks, t.value, r.value.md5, r.value.sha1)) else None
  }
}

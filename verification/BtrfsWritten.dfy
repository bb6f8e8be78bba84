/**
 * EXTENT_DATA items as they lie on disk, and the bytes of a file made of them
 * (internal/filesystem/btrfs/btrfs.go, section "file_extent_item").
 */
module BtrfsWritten {
  import opened Bytes
  import opened SparseFile
  import opened BtrfsFile

  /** What an item says: bytes of its own, or a range of a disk extent. */
  datatype Body =
    | Within(data: bytes)
    | OfExtent(prealloc: bool, diskBytenr: nat, diskNumBytes: nat, from: nat, numBytes: nat)

  /** An item to be written at a file offset, with the fields that are not used. */
  datatype Spec = Spec(
    offset: nat, generation: nat, ramBytes: nat, compression: byte, encryption: byte, other: nat, body: Body
  ) {
    predicate Fits() {
      body.OfExtent? ==>
        && body.diskBytenr < WORD && body.diskNumBytes < WORD && body.from < WORD && body.numBytes < WORD
    }

    predicate Plain() { compression == 0 && encryption == 0 }
  }

  function TypeOf(b: Body): byte { if b.Within? then 0 else if b.prealloc then 2 else 1 }

  function BodyBytes(b: Body): bytes {
    match b
    case Within(data) => data
    case OfExtent(_, diskBytenr, diskNumBytes, from, numBytes) =>
      ToLE(diskBytenr, 8) + ToLE(diskNumBytes, 8) + ToLE(from, 8) + ToLE(numBytes, 8)
  }

  function Front(s: Spec): (b: bytes)
    ensures |b| == 21
  {
    ToLE(s.generation, 8) + ToLE(s.ramBytes, 8) + [s.compression, s.encryption] + ToLE(s.other, 2) + [TypeOf(s.body)]
  }

  /** The item: what every type begins with, and the body. */
  function ItemOf(s: Spec): Item { Item(s.offset, Front(s) + BodyBytes(s.body)) }

  /** A range of a disk extent that can be read. */
  predicate Usable(b: Body)
    requires b.OfExtent?
  {
    && 0 < b.numBytes && b.from + b.numBytes <= b.diskNumBytes <= MAX_EXTENT
    && b.diskBytenr <= MAX_ADDRESS && b.from <= MAX_ADDRESS
  }

  /** What an item means: its own bytes, zeros for extent 0, or the extent's bytes from its range on. */
  function Meant(s: Spec): Option<Extent> {
    match s.body
    case Within(data) => Some(Extent(s.offset, |data|, Inline(data)))
    case OfExtent(_, diskBytenr, _, from, numBytes) =>
      if !s.Plain() then None
      else if diskBytenr == 0 then (if numBytes <= MAX_EXTENT then Some(Extent(s.offset, numBytes, Zero)) else None)
      else if Usable(s.body) then Some(Extent(s.offset, numBytes, OnDisk(diskBytenr + from)))
      else None
  }

  lemma FrontFields(s: Spec)
    ensures var d := ItemOf(s).data;
            && |d| == 21 + |BodyBytes(s.body)| && d[16] == s.compression && d[17] == s.encryption
            && d[20] == TypeOf(s.body) && d[21..] == BodyBytes(s.body) && ItemOf(s).offset == s.offset
            && (s.body.Within? ==> BodyBytes(s.body) == s.body.data)
  {
    hide ToLE;
  }

  /** Four 64-bit words in a row. */
  lemma FourWords(d: bytes, at: nat, v: nat, w: nat, x: nat, y: nat)
    requires Holds(d, at, ToLE(v, 8) + ToLE(w, 8) + ToLE(x, 8) + ToLE(y, 8))
    requires v < WORD && w < WORD && x < WORD && y < WORD
    ensures at + 32 <= |d| && U64(d, at) == v && U64(d, at + 8) == w && U64(d, at + 16) == x && U64(d, at + 24) == y
  {
    hide LE, ToLE, Holds;
    FieldWidths();
    Regrouped(ToLE(v, 8), ToLE(w, 8), ToLE(x, 8), ToLE(y, 8));
    FieldIn(d, at, [], v, 8, ToLE(w, 8) + ToLE(x, 8) + ToLE(y, 8));
    FieldIn(d, at, ToLE(v, 8), w, 8, ToLE(x, 8) + ToLE(y, 8));
    FieldIn(d, at, ToLE(v, 8) + ToLE(w, 8), x, 8, ToLE(y, 8));
    FieldIn(d, at, ToLE(v, 8) + ToLE(w, 8) + ToLE(x, 8), y, 8, []);
  }

  lemma Regrouped(a: bytes, b: bytes, c: bytes, e: bytes)
    ensures [] + a + (b + c + e) == a + b + c + e && a + b + (c + e) == a + b + c + e
    ensures a + b + c + e + [] == a + b + c + e
  {
  }

  lemma BodyFields(s: Spec)
    requires s.Fits() && s.body.OfExtent?
    ensures var d, b := ItemOf(s).data, s.body;
            && |d| == 53 && U64(d, 21) == b.diskBytenr && U64(d, 29) == b.diskNumBytes
            && U64(d, 37) == b.from && U64(d, 45) == b.numBytes
  {
    hide LE, ToLE, Front, U64;
    var d, b := ItemOf(s).data, s.body;
    HoldsPart(Front(s), BodyBytes(b), [], d);
    FourWords(d, 21, b.diskBytenr, b.diskNumBytes, b.from, b.numBytes);
  }

  /** A written item is read as what it means, and refused exactly when it means nothing that can be read. */
  lemma ItemRead(s: Spec)
    requires s.Fits()
    ensures ItemExtent(ItemOf(s)) == Meant(s)
  {
    hide U64, ItemOf, BodyBytes;
    FrontFields(s);
    if s.body.OfExtent? { BodyFields(s); }
  }

  /**
   * The list a file is opened with passes over empty items and over lengths past the limit; it refuses what is
   * compressed or encrypted or out of bounds, and keeps the rest as what it means.
   */
  lemma ItemListed(s: Spec)
    requires s.Fits()
    ensures var n := if s.body.Within? then |s.body.data| else s.body.numBytes;
            && Span(ItemOf(s).data) == (if s.body.OfExtent? && n > MAX_EXTENT then 0 else n)
            && ListItem(ItemOf(s)) ==
               if n == 0 || (s.body.OfExtent? && n > MAX_EXTENT) then Skipped
               else if Meant(s).None? then Refused
               else Kept(Meant(s).value)
  {
    hide U64, ItemOf, BodyBytes;
    FrontFields(s);
    if s.body.OfExtent? { BodyFields(s); }
  }

  function ItemsOf(ss: seq<Spec>): seq<Item> { seq(|ss|, i requires 0 <= i < |ss| => ItemOf(ss[i])) }

  /** All items can be read, and item i is the first one over byte o of the file. */
  ghost predicate FirstWritten(ss: seq<Spec>, i: nat, o: nat) {
    && (forall j :: 0 <= j < |ss| ==> ss[j].Fits() && Meant(ss[j]).Some?)
    && i < |ss| && Meant(ss[i]).value.Covers(o) && forall j :: 0 <= j < i ==> !Meant(ss[j]).value.Covers(o)
  }

  /** The byte an item gives the file, through chunk c: its own byte, zero, or the medium's. */
  function MeantByte(s: Spec, c: Chunk, m: Media, o: nat): Option<byte> {
    match s.body
    case Within(data) => if s.offset <= o < s.offset + |data| then Some(data[o - s.offset]) else None
    case OfExtent(_, diskBytenr, _, from, _) =>
      if diskBytenr == 0 then Some(0)
      else
        var a := diskBytenr + from + (o - s.offset);
        if a >= 0 && c.Covers(a) then Some(m(c.phys + (a - c.logical))) else None
  }

  /**
   * Byte o of the content is the byte its first item gives: on disk, the medium's byte at the place of
   * disk_bytenr + offset + (o - the item's file offset), moved by the chunk that holds it.
   */
  lemma WrittenByte(cs: seq<Chunk>, m: Media, ss: seq<Spec>, i: nat, o: nat, size: nat, k: nat)
    requires FirstWritten(ss, i, o) && o < size && ChunksDisjoint(cs) && k < |cs|
    requires MeantByte(ss[i], cs[k], m, o).Some?
    ensures forall it :: it in ItemsOf(ss) ==> ItemExtent(it).Some?
    ensures Content(LogicalMedia(cs, m), Extents(ItemsOf(ss)), size)[o] == MeantByte(ss[i], cs[k], m, o).value
  {
    hide Meant, ItemOf, ItemExtent, FirstAt, Translate, ChunksDisjoint;
    forall j | 0 <= j < |ss| ensures ItemExtent(ItemOf(ss[j])) == Meant(ss[j]) { ItemRead(ss[j]); }
    var es := Extents(ItemsOf(ss));
    forall j | 0 <= j < |ss| ensures es[j] == Meant(ss[j]).value { assert ItemsOf(ss)[j] == ItemOf(ss[j]); }
    FirstIs(es, i, o);
    ContentAt(LogicalMedia(cs, m), es, size, o);
    MeantPlace(cs, m, ss[i], k, o);
  }

  lemma MeantPlace(cs: seq<Chunk>, m: Media, s: Spec, k: nat, o: nat)
    requires Meant(s).Some? && Meant(s).value.Covers(o) && ChunksDisjoint(cs) && k < |cs|
    requires MeantByte(s, cs[k], m, o).Some?
    ensures ByteAt(LogicalMedia(cs, m), Meant(s), o) == MeantByte(s, cs[k], m, o).value
  {
    hide Translate, ChunksDisjoint;
    if s.body.OfExtent? && s.body.diskBytenr != 0 {
      TranslateBy(cs, k, s.body.diskBytenr + s.body.from + (o - s.offset));
    }
  }
}

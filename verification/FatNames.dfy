/**
 * FAT directory parsing (internal/filesystem/fat/fat32.go): long names gathered from the records in
 * front of their short entry, without leaking onto any other entry.
 */
module FatNames {
  import opened Bytes

  const RECORD: nat := 32
  const DELETED: nat := 0xE5
  const LONG_NAME: nat := 0x0F
  const UNITS: nat := 13
  const MAX_ORDINAL: nat := 20

  /** UTF-16 code units of a long name, or the characters of a short one. */
  datatype Name = Long(units: seq<nat>) | Short(chars: bytes)

  datatype DirEntry = DirEntry(name: Name, isDir: bool, size: nat, cluster: nat)

  // ------------------------------------------------------------ one record

  /** Where the k-th code unit of a long-name record lies. */
  function UnitOffset(k: nat): (o: nat)
    requires k < UNITS
    ensures 1 <= o <= 30 && o != 11 && o != 10
  {
    if k < 5 then 1 + 2 * k else if k < 11 then 14 + 2 * (k - 5) else 28 + 2 * (k - 11)
  }

  function UnitAt(e: bytes, k: nat): nat
    requires |e| == RECORD && k < UNITS
  {
    LE(e[UnitOffset(k)..UnitOffset(k) + 2])
  }

  /** The used units of a record from the k-th on; 0x0000 and 0xFFFF mark unused slots. */
  function UsedUnits(e: bytes, k: nat): seq<nat>
    requires |e| == RECORD && k <= UNITS
    decreases UNITS - k
  {
    if k == UNITS then []
    else (if UnitAt(e, k) != 0 && UnitAt(e, k) != 0xFFFF then [UnitAt(e, k)] else []) + UsedUnits(e, k + 1)
  }

  function Ordinal(e: bytes): nat
    requires |e| == RECORD
  {
    e[0] % 64
  }

  /** The bytes of a name field that are neither NUL nor space. */
  function Trimmed(b: bytes): bytes {
    if b == [] then [] else (if b[0] != 0 && b[0] != 32 then [b[0]] else []) + Trimmed(b[1..])
  }

  /** The short name: base, and a dot before a non-empty extension. */
  function ShortName(e: bytes): bytes
    requires |e| == RECORD
  {
    var ext := Trimmed(e[8..11]);
    Trimmed(e[..8]) + if ext != [] then [46] + ext else []
  }

  function Bit(b: byte, weight: nat): bool
    requires weight > 0
  {
    b / weight % 2 == 1
  }

  const NO_NAME: seq<nat> := []

  /** The entry a short record describes, when its name is long or short; None when it is not listed. */
  function ShortEntry(e: bytes, long: seq<nat>): Option<DirEntry>
    requires |e| == RECORD
  {
    var name := if long != [] then long else ShortName(e);
    if name == [] || name == [46] || name == [46, 46] || Bit(e[11], 8) then None
    else Some(DirEntry(if long != [] then Long(long) else Short(ShortName(e)),
                       Bit(e[11], 16), LE(e[28..32]), LE(e[26..28]) + 0x1_0000 * LE(e[20..22])))
  }

  // ------------------------------------------------------------ the parser

  /** The long name gathered so far, in name order, and the ordinal of its last record. */
  datatype Pending = Pending(units: seq<nat>, ordinal: nat)

  const NOTHING := Pending([], 0)

  /** What a long-name record adds. */
  function Gather(p: Pending, e: bytes): Pending
    requires |e| == RECORD
  {
    var seq_ := Ordinal(e);
    if seq_ == 0 || seq_ > MAX_ORDINAL then NOTHING
    else
      var kept := if p.ordinal != 0 && seq_ != p.ordinal - 1 then NO_NAME else p.units;
      Pending(UsedUnits(e, 0) + kept, seq_)
  }

  datatype Listing = Listing(entries: seq<DirEntry>, ended: bool)

  function Before(xs: seq<DirEntry>, l: Listing): Listing { Listing(xs + l.entries, l.ended) }

  /** The directory from a record on, with the long name pending there. */
  function Parse(data: bytes, p: Pending): Listing
    decreases |data|
  {
    if |data| < RECORD then Listing([], false)
    else
      var e := data[..RECORD];
      if e[0] == 0 then Listing([], true)
      else if e[0] == DELETED then Parse(data[RECORD..], NOTHING)
      else if e[11] == LONG_NAME then Parse(data[RECORD..], Gather(p, e))
      else
        match ShortEntry(e, p.units)
        case None => Parse(data[RECORD..], NOTHING)
        case Some(d) => Before([d], Parse(data[RECORD..], NOTHING))
  }

  /** parseDirectory. */
  method ParseDirectory(data: bytes) returns (entries: seq<DirEntry>, ended: bool)
    ensures Listing(entries, ended) == Parse(data, NOTHING)
  {
    hide ShortEntry, Gather;
    entries := [];
    var pending, i := NOTHING, 0;
    assert data[0..] == data;
    BeforeNothing(Parse(data, NOTHING));
    while i + RECORD <= |data|
      invariant 0 <= i <= |data|
      invariant Parse(data, NOTHING) == Before(entries, Parse(data[i..], pending))
    {
      var e := data[i..i + RECORD];
      assert data[i..][..RECORD] == e && data[i..][RECORD..] == data[i + RECORD..];
      if e[0] == 0 {
        assert entries + [] == entries;
        return entries, true;
      }
      if e[0] == DELETED {
        pending := NOTHING;
      } else if e[11] == LONG_NAME {
        pending := Gather(pending, e);
      } else {
        var d := ShortEntry(e, pending.units);
        if d.Some? {
          BeforeTwice(entries, [d.value], Parse(data[i + RECORD..], NOTHING));
          entries := entries + [d.value];
        }
        pending := NOTHING;
      }
      i := i + RECORD;
    }
    assert entries + [] == entries;
    ended := false;
  }

  lemma BeforeNothing(l: Listing)
    ensures Before([], l) == l
  {
    assert [] + l.entries == l.entries;
  }

  lemma BeforeTwice(a: seq<DirEntry>, b: seq<DirEntry>, l: Listing)
    ensures Before(a, Before(b, l)) == Before(a + b, l)
  {
    AppendAssoc(a, b, l.entries);
  }

  // ------------------------------------------------------------ a directory as written

  /** What a directory holds, in disk order. */
  datatype Item =
    | File(long: seq<nat>, short: bytes)   // its long name (empty if it has none) and its short record
    | Deleted(raw: bytes)
    | Label(raw: bytes)

  predicate NameUnits(us: seq<nat>) { forall i :: 0 <= i < |us| ==> 0 < us[i] < 0xFFFF }

  predicate Ordinary(e: bytes) { |e| == RECORD && e[0] != 0 && e[0] != DELETED && e[11] != LONG_NAME }

  predicate Wellformed(it: Item) {
    match it
    case Deleted(raw) => |raw| == RECORD && raw[0] == DELETED
    case Label(raw) => Ordinary(raw) && Bit(raw[11], 8)
    case File(long, short) =>
      && Ordinary(short) && !Bit(short[11], 8) && NameUnits(long) && |long| <= 255
      && var name := if long != [] then long else ShortName(short);
         name != [] && name != [46] && name != [46, 46]
  }

  /** The units of record k (from 1): thirteen of the name, or what is left of it. */
  function Chunk(long: seq<nat>, k: nat): (c: seq<nat>)
    requires 1 <= k && UNITS * (k - 1) <= |long|
    ensures |c| <= UNITS
  {
    long[UNITS * (k - 1)..Min(UNITS * k, |long|)]
  }

  /** Slot k of a record: a unit of the chunk, a NUL right behind it, and filler after that. */
  function Slot(chunk: seq<nat>, k: nat): nat {
    if k < |chunk| then chunk[k] else if k == |chunk| then 0 else 0xFFFF
  }

  /** Slots i, i+1, ... up to n, as they lie next to each other. */
  function SlotRun(chunk: seq<nat>, i: nat, n: nat): (b: bytes)
    requires i <= n
    ensures |b| == 2 * (n - i)
    decreases n - i
  {
    if i == n then [] else ToLE(Slot(chunk, i), 2) + SlotRun(chunk, i + 1, n)
  }

  /** A long-name record; the first one on disk, with the highest ordinal, carries a flag. */
  function LongRecord(chunk: seq<nat>, ordinal: nat, first: bool): (e: bytes)
    requires NameUnits(chunk) && |chunk| <= UNITS && 1 <= ordinal <= MAX_ORDINAL
    ensures |e| == RECORD
  {
    [ordinal + if first then 64 else 0] + SlotRun(chunk, 0, 5) + [LONG_NAME, 0, 0] + SlotRun(chunk, 5, 11) + [0, 0]
        + SlotRun(chunk, 11, 13)
  }

  function RecordCount(long: seq<nat>): nat { (|long| + UNITS - 1) / UNITS }

  /** The records of a name from ordinal k down to 1. */
  function LongRecords(long: seq<nat>, k: nat): bytes
    requires NameUnits(long) && k <= RecordCount(long) <= MAX_ORDINAL
  {
    if k == 0 then [] else LongRecord(Chunk(long, k), k, k == RecordCount(long)) + LongRecords(long, k - 1)
  }

  function Encode(it: Item): bytes
    requires Wellformed(it)
  {
    match it
    case Deleted(raw) => raw
    case Label(raw) => raw
    case File(long, short) => LongRecords(long, RecordCount(long)) + short
  }

  function EncodeAll(items: seq<Item>): bytes
    requires forall it :: it in items ==> Wellformed(it)
  {
    if items == [] then [] else Encode(items[0]) + EncodeAll(items[1..])
  }

  /** What the directory should list: every file, under its own name, in order. */
  function Listed(items: seq<Item>): (es: seq<DirEntry>)
    requires forall it :: it in items ==> Wellformed(it)
  {
    if items == [] then []
    else (if items[0].File? then [EntryOf(items[0])] else []) + Listed(items[1..])
  }

  /** The entry a file is listed as. */
  function EntryOf(it: Item): DirEntry
    requires Wellformed(it) && it.File?
  {
    ShortEntry(it.short, it.long).value
  }

  // ------------------------------------------------------------ parsing what was written

  lemma UnitRead(v: nat)
    requires v < 0x1_0000
    ensures LE(ToLE(v, 2)) == v
  {
    ToLERoundTrip(v, 2);
    assert Pow256(2) == 0x1_0000;
  }

  lemma {:induction false} RunRead(chunk: seq<nat>, i: nat, n: nat, k: nat)
    requires i <= k < n
    ensures SlotRun(chunk, i, n)[2 * (k - i)..2 * (k - i) + 2] == ToLE(Slot(chunk, k), 2)
    decreases n - i
  {
    hide ToLE, Slot;
    if k > i {
      RunRead(chunk, i + 1, n, k);
      var rest := SlotRun(chunk, i + 1, n);
      assert SlotRun(chunk, i, n)[2 * (k - i)..2 * (k - i) + 2] == rest[2 * (k - i) - 2..2 * (k - i)];
    }
  }

  lemma SlotRead(chunk: seq<nat>, ordinal: nat, first: bool, k: nat)
    requires NameUnits(chunk) && |chunk| <= UNITS && 1 <= ordinal <= MAX_ORDINAL && k < UNITS
    ensures UnitAt(LongRecord(chunk, ordinal, first), k) == Slot(chunk, k)
  {
    hide LE, ToLE, SlotRun, LongRecord;
    UnitRead(Slot(chunk, k));
    var e := LongRecord(chunk, ordinal, first);
    RecordParts(chunk, ordinal, first);
    if k < 5 {
      RunRead(chunk, 0, 5, k);
      SliceSlice(e, 1, 11, 2 * k, 2 * k + 2);
    } else if k < 11 {
      RunRead(chunk, 5, 11, k);
      SliceSlice(e, 14, 26, 2 * (k - 5), 2 * (k - 5) + 2);
    } else {
      RunRead(chunk, 11, 13, k);
      SliceSlice(e, 28, 32, 2 * (k - 11), 2 * (k - 11) + 2);
    }
  }

  lemma RecordParts(chunk: seq<nat>, ordinal: nat, first: bool)
    requires NameUnits(chunk) && |chunk| <= UNITS && 1 <= ordinal <= MAX_ORDINAL
    ensures var e := LongRecord(chunk, ordinal, first);
            e[1..11] == SlotRun(chunk, 0, 5) && e[14..26] == SlotRun(chunk, 5, 11)
                && e[28..32] == SlotRun(chunk, 11, 13)
  {
    hide SlotRun;
    var h: bytes := [ordinal + if first then 64 else 0];
    SixParts(h, SlotRun(chunk, 0, 5), [LONG_NAME, 0, 0], SlotRun(chunk, 5, 11), [0, 0], SlotRun(chunk, 11, 13));
  }

  lemma SixParts(h: bytes, a: bytes, m: bytes, b: bytes, z: bytes, c: bytes)
    requires |h| == 1 && |a| == 10 && |m| == 3 && |b| == 12 && |z| == 2 && |c| == 4
    ensures var e := h + a + m + b + z + c; e[1..11] == a && e[14..26] == b && e[28..32] == c
  {
  }

  lemma {:induction false} UsedAre(e: bytes, chunk: seq<nat>, k: nat)
    requires |e| == RECORD && NameUnits(chunk) && |chunk| <= UNITS && k <= UNITS
    requires forall j :: 0 <= j < UNITS ==> UnitAt(e, j) == Slot(chunk, j)
    ensures UsedUnits(e, k) == if k < |chunk| then chunk[k..] else []
    decreases UNITS - k
  {
    hide UnitAt, UsedUnits, NameUnits;
    UsedStep(e, k);
    if k < UNITS {
      UsedAre(e, chunk, k + 1);
      if k < |chunk| {
        UnitInName(chunk, k);
        assert [chunk[k]] + chunk[k + 1..] == chunk[k..];
        if k + 1 == |chunk| { assert chunk[k + 1..] == []; }
      } else {
        assert UsedUnits(e, k) == [] + [];
      }
    }
  }

  lemma UsedStep(e: bytes, k: nat)
    requires |e| == RECORD && k <= UNITS
    ensures k == UNITS ==> UsedUnits(e, k) == []
    ensures k < UNITS ==>
              (UsedUnits(e, k) ==
               (if UnitAt(e, k) != 0 && UnitAt(e, k) != 0xFFFF then [UnitAt(e, k)] else []) + UsedUnits(e, k + 1))
  {
  }

  lemma UnitInName(units: seq<nat>, k: nat)
    requires NameUnits(units) && k < |units|
    ensures units[k] != 0 && units[k] != 0xFFFF
  {
  }

  /** A written record yields its chunk and its ordinal. */
  lemma RecordRead(chunk: seq<nat>, ordinal: nat, first: bool)
    requires NameUnits(chunk) && |chunk| <= UNITS && 1 <= ordinal <= MAX_ORDINAL
    ensures var e := LongRecord(chunk, ordinal, first);
            && e[0] != 0 && e[0] != DELETED && e[11] == LONG_NAME
            && Ordinal(e) == ordinal && UsedUnits(e, 0) == chunk
  {
    hide LongRecord, UnitAt, UsedUnits;
    var e := LongRecord(chunk, ordinal, first);
    RecordBytes(chunk, ordinal, first);
    forall j | 0 <= j < UNITS ensures UnitAt(e, j) == Slot(chunk, j) { SlotRead(chunk, ordinal, first, j); }
    UsedAre(e, chunk, 0);
    assert chunk[0..] == chunk;
  }

  lemma RecordBytes(chunk: seq<nat>, ordinal: nat, first: bool)
    requires NameUnits(chunk) && |chunk| <= UNITS && 1 <= ordinal <= MAX_ORDINAL
    ensures var e := LongRecord(chunk, ordinal, first);
            e[0] == ordinal + (if first then 64 else 0) && e[11] == LONG_NAME
  {
    hide SlotRun;
  }

  lemma ChunkJoin(long: seq<nat>, k: nat)
    requires 1 <= k && UNITS * (k - 1) <= |long|
    ensures Chunk(long, k) + long[Min(UNITS * k, |long|)..] == long[UNITS * (k - 1)..]
  {
  }

  lemma ParseLongRecord(chunk: seq<nat>, ordinal: nat, first: bool, rest: bytes, p: Pending)
    requires NameUnits(chunk) && |chunk| <= UNITS && 1 <= ordinal <= MAX_ORDINAL
    ensures Parse(LongRecord(chunk, ordinal, first) + rest, p) ==
            Parse(rest, Pending(chunk + (if p.ordinal != 0 && ordinal != p.ordinal - 1 then [] else p.units), ordinal))
  {
    hide UsedUnits, LongRecord, ShortEntry;
    var e := LongRecord(chunk, ordinal, first);
    RecordRead(chunk, ordinal, first);
    assert (e + rest)[..RECORD] == e && (e + rest)[RECORD..] == rest;
  }

  /** The records of a name, highest ordinal first, leave the whole name pending. */
  lemma {:induction false} LongNameGathered(long: seq<nat>, k: nat, rest: bytes, p: Pending)
    requires NameUnits(long) && k <= RecordCount(long) <= MAX_ORDINAL
    requires p == if k == RecordCount(long) then NOTHING else Pending(long[UNITS * k..], k + 1)
    ensures UNITS * k <= |long| + UNITS - 1
    ensures Parse(LongRecords(long, k) + rest, p) ==
            Parse(rest, if RecordCount(long) == 0 then NOTHING else Pending(long, 1))
    decreases k
  {
    hide Parse, LongRecord;
    if k == 0 {
      assert [] + rest == rest;
      assert long[0..] == long;
    } else {
      var c := Chunk(long, k);
      AppendAssoc(LongRecord(c, k, k == RecordCount(long)), LongRecords(long, k - 1), rest);
      ParseLongRecord(c, k, k == RecordCount(long), LongRecords(long, k - 1) + rest, p);
      ChunkJoin(long, k);
      if k == RecordCount(long) { assert long[Min(UNITS * k, |long|)..] == []; }
      LongNameGathered(long, k - 1, rest, Pending(long[UNITS * (k - 1)..], k));
    }
  }

  lemma FewRecords(long: seq<nat>)
    requires |long| <= 255
    ensures RecordCount(long) <= MAX_ORDINAL && (RecordCount(long) == 0 <==> long == [])
  {
  }

  /** One item parses to what it lists, and leaves nothing pending. */
  lemma ItemParsed(it: Item, rest: bytes)
    requires Wellformed(it)
    ensures Parse(Encode(it) + rest, NOTHING) ==
            if it.File? then Before([EntryOf(it)], Parse(rest, NOTHING)) else Parse(rest, NOTHING)
  {
    hide ShortName, LongRecords, RecordCount;
    match it {
      case Deleted(raw) => assert (raw + rest)[..RECORD] == raw && (raw + rest)[RECORD..] == rest;
      case Label(raw) => assert (raw + rest)[..RECORD] == raw && (raw + rest)[RECORD..] == rest;
      case File(long, short) =>
        FewRecords(long);
        AppendAssoc(LongRecords(long, RecordCount(long)), short, rest);
        LongNameGathered(long, RecordCount(long), short + rest, NOTHING);
        assert (short + rest)[..RECORD] == short && (short + rest)[RECORD..] == rest;
    }
  }

  /**
   * A written directory is listed exactly: every file in order under its own name, whatever deleted
   * entries and labels lie between, and nothing else.  What follows the items is parsed on its own.
   */
  lemma {:induction false} DirectoryRoundTrip(items: seq<Item>, rest: bytes)
    requires forall it :: it in items ==> Wellformed(it)
    ensures Parse(EncodeAll(items) + rest, NOTHING) == Before(Listed(items), Parse(rest, NOTHING))
    decreases |items|
  {
    hide Parse, Encode, EntryOf, Wellformed;
    if items == [] {
      assert [] + rest == rest;
      BeforeNothing(Parse(rest, NOTHING));
    } else {
      AppendAssoc(Encode(items[0]), EncodeAll(items[1..]), rest);
      ItemParsed(items[0], EncodeAll(items[1..]) + rest);
      DirectoryRoundTrip(items[1..], rest);
      if items[0].File? {
        BeforeTwice([EntryOf(items[0])], Listed(items[1..]), Parse(rest, NOTHING));
      } else {
        assert [] + Listed(items[1..]) == Listed(items[1..]);
      }
    }
  }

  function Files(items: seq<Item>): (fs: seq<Item>)
    ensures forall f :: f in fs ==> f.File? && f in items
  {
    if items == [] then [] else (if items[0].File? then [items[0]] else []) + Files(items[1..])
  }

  lemma {:induction false} ListedFiles(items: seq<Item>, i: nat)
    requires (forall it :: it in items ==> Wellformed(it)) && i < |Files(items)|
    ensures |Listed(items)| == |Files(items)| && Listed(items)[i] == EntryOf(Files(items)[i])
    decreases |items|
  {
    hide Wellformed, EntryOf;
    var rest := items[1..];
    if Files(rest) == [] {
      NoFiles(rest);
    } else if !items[0].File? {
      assert Files(items) == Files(rest) && Listed(items) == Listed(rest);
      ListedFiles(rest, i);
    } else {
      assert Files(items) == [items[0]] + Files(rest) && Listed(items) == [EntryOf(items[0])] + Listed(rest);
      ListedFiles(rest, if i > 0 then i - 1 else 0);
    }
  }

  lemma {:induction false} NoFiles(items: seq<Item>)
    requires (forall it :: it in items ==> Wellformed(it)) && Files(items) == []
    ensures Listed(items) == []
  {
    hide Wellformed, EntryOf;
    if items != [] { NoFiles(items[1..]); }
  }

  /** The i-th entry of a parsed directory is the i-th file's: under its own name, with its own place and size. */
  lemma OwnEntry(items: seq<Item>, rest: bytes, i: nat)
    requires (forall it :: it in items ==> Wellformed(it)) && i < |Files(items)|
    ensures i < |Parse(EncodeAll(items) + rest, NOTHING).entries|
    ensures var d, f := Parse(EncodeAll(items) + rest, NOTHING).entries[i], Files(items)[i];
            && d.name == (if f.long != [] then Long(f.long) else Short(ShortName(f.short)))
            && d.isDir == Bit(f.short[11], 16) && d.size == LE(f.short[28..32])
            && d.cluster == LE(f.short[26..28]) + 0x1_0000 * LE(f.short[20..22])
  {
    hide Parse, EncodeAll, ShortName;
    DirectoryRoundTrip(items, rest);
    ListedFiles(items, i);
    assert Wellformed(Files(items)[i]);
  }

  /** A directory closed by an end marker is listed in full, and whatever lies behind the marker is not read. */
  lemma DirectoryEnds(items: seq<Item>, junk: bytes)
    requires (forall it :: it in items ==> Wellformed(it)) && |junk| >= RECORD - 1
    ensures Parse(EncodeAll(items) + ([0] + junk), NOTHING) == Listing(Listed(items), true)
  {
    DirectoryRoundTrip(items, [0] + junk);
    assert Listed(items) + [] == Listed(items);
  }

  // ------------------------------------------------------------ cluster by cluster

  /** readDirectory's listing of some clusters: each is parsed on its own, up to an end marker. */
  function ParseClusters(clusters: seq<bytes>): Listing {
    if clusters == [] then Listing([], false)
    else
      var here := Parse(clusters[0], NOTHING);
      if here.ended then here else Before(here.entries, ParseClusters(clusters[1..]))
  }

  /** What follows the items of a directory: nothing, or an end marker and whatever is behind it. */
  ghost predicate Ending(tail: bytes) { tail == [] || tail[0] == 0 }

  /** When every cluster holds whole items, the directory is listed exactly across clusters too. */
  lemma {:induction false} WholeItemsPerCluster(groups: seq<seq<Item>>, clusters: seq<bytes>, tail: bytes)
    requires |groups| == |clusters| && Ending(tail) && Whole(clusters) && (tail != [] ==> groups != [])
    requires forall i :: 0 <= i < |groups| ==>
               && (forall it :: it in groups[i] ==> Wellformed(it))
               && clusters[i] == EncodeAll(groups[i]) + (if i == |groups| - 1 then tail else [])
    ensures ParseClusters(clusters) == Listing(ListedAll(groups), tail != [])
    decreases |groups|
  {
    hide Parse, EncodeAll, Listed, Wellformed;
    if groups != [] {
      var last := if |groups| == 1 then tail else [];
      DirectoryRoundTrip(groups[0], last);
      WholeTail(groups[0], clusters[0], last);
      TailParsed(last);
      assert Listed(groups[0]) + [] == Listed(groups[0]);
      if |groups| > 1 { WholeItemsPerCluster(groups[1..], clusters[1..], tail); }
    }
  }

  lemma TailParsed(tail: bytes)
    requires Ending(tail) && |tail| % RECORD == 0
    ensures Parse(tail, NOTHING) == Listing([], tail != [])
  {
  }

  lemma {:induction false} WholeTail(items: seq<Item>, cluster: bytes, tail: bytes)
    requires (forall it :: it in items ==> Wellformed(it)) && cluster == EncodeAll(items) + tail
    requires |cluster| % RECORD == 0
    ensures |tail| % RECORD == 0
  {
    hide Encode;
    if items != [] {
      ItemSize(items[0]);
      AppendAssoc(Encode(items[0]), EncodeAll(items[1..]), tail);
      WholeTail(items[1..], EncodeAll(items[1..]) + tail, tail);
    }
  }

  function ListedAll(groups: seq<seq<Item>>): seq<DirEntry>
    requires forall i :: 0 <= i < |groups| ==> forall it :: it in groups[i] ==> Wellformed(it)
  {
    if groups == [] then [] else Listed(groups[0]) + ListedAll(groups[1..])
  }

  lemma NothingToParse()
    ensures Parse([], NOTHING) == Listing([], false)
  {
  }

  // ------------------------------------------------------------ items cut by a cluster boundary

  /** Parsing what is left of a cluster with a long name pending, and then the clusters behind it. */
  function ParseHere(current: bytes, p: Pending, more: seq<bytes>): Listing {
    var here := Parse(current, p);
    if here.ended then here else Before(here.entries, ParseClusters(more))
  }

  ghost predicate Whole(clusters: seq<bytes>) {
    forall i :: 0 <= i < |clusters| ==> |clusters[i]| % RECORD == 0
  }

  /**
   * With k records of a long name still to come, and those from g down to k + 1 read since the last
   * boundary: from which record on the name is read without a boundary.
   */
  function Unbroken(k: nat, g: nat, current: bytes, more: seq<bytes>): (r: nat)
    requires k <= g
    ensures r <= g
    decreases |more|, k
  {
    if current == [] && more != [] then Unbroken(k, k, more[0], more[1..])
    else if k == 0 || |current| < RECORD then g
    else Unbroken(k - 1, g, current[RECORD..], more)
  }

  /** The cluster reached behind n records, and those behind it. */
  function Skip(n: nat, current: bytes, more: seq<bytes>): (r: (bytes, seq<bytes>))
    ensures |r.1| <= |more|
    decreases |more|, n
  {
    if n == 0 then (current, more)
    else if current == [] && more != [] then Skip(n, more[0], more[1..])
    else if |current| < RECORD then (current, more)
    else Skip(n - 1, current[RECORD..], more)
  }

  function Records(it: Item): nat {
    if it.File? then RecordCount(it.long) + 1 else 1
  }

  /** The part of a long name that the last g records hold. */
  function NamePart(long: seq<nat>, g: nat): seq<nat> { long[..Min(UNITS * g, |long|)] }

  function ListedAs(short: bytes, long: seq<nat>): (es: seq<DirEntry>)
    requires |short| == RECORD
    ensures |es| <= 1
  {
    match ShortEntry(short, long) case None => [] case Some(d) => [d]
  }

  /** What an item that starts here is listed as: with the part of its name behind the last boundary inside it. */
  function Shown(it: Item, current: bytes, more: seq<bytes>): (es: seq<DirEntry>)
    requires Wellformed(it)
    ensures |es| <= 1 && (!it.File? ==> es == [])
  {
    if it.File? then
      var n := RecordCount(it.long);
      ListedAs(it.short, NamePart(it.long, Unbroken(n, n, current, more)))
    else []
  }

  function ShownAll(items: seq<Item>, current: bytes, more: seq<bytes>): seq<DirEntry>
    requires forall it :: it in items ==> Wellformed(it)
  {
    if items == [] then []
    else
      var next := Skip(Records(items[0]), current, more);
      Shown(items[0], current, more) + ShownAll(items[1..], next.0, next.1)
  }

  // one record, or one boundary, at a time

  lemma AtBoundary(p: Pending, more: seq<bytes>)
    requires more != []
    ensures ParseHere([], p, more) == ParseHere(more[0], NOTHING, more[1..])
  {
    BeforeNothing(ParseClusters(more));
  }

  lemma HereLong(chunk: seq<nat>, ordinal: nat, first: bool, rest: bytes, p: Pending, more: seq<bytes>)
    requires NameUnits(chunk) && |chunk| <= UNITS && 1 <= ordinal <= MAX_ORDINAL
    ensures ParseHere(LongRecord(chunk, ordinal, first) + rest, p, more) ==
            ParseHere(rest,
                      Pending(chunk + (if p.ordinal != 0 && ordinal != p.ordinal - 1 then [] else p.units), ordinal),
                      more)
  {
    hide Parse;
    ParseLongRecord(chunk, ordinal, first, rest, p);
  }

  lemma HereShort(short: bytes, rest: bytes, p: Pending, more: seq<bytes>)
    requires Ordinary(short)
    ensures ParseHere(short + rest, p, more) == Before(ListedAs(short, p.units), ParseHere(rest, NOTHING, more))
  {
    hide ShortEntry;
    assert (short + rest)[..RECORD] == short && (short + rest)[RECORD..] == rest;
    BeforeNothing(ParseHere(rest, NOTHING, more));
    var e, l := ListedAs(short, p.units), Parse(rest, NOTHING);
    assert Parse(short + rest, p).entries == e + l.entries && Parse(short + rest, p).ended == l.ended by {
      BeforeNothing(l);
    }
    AppendAssoc(e, l.entries, ParseClusters(more).entries);
  }

  lemma HereDeleted(raw: bytes, rest: bytes, more: seq<bytes>)
    requires |raw| == RECORD && raw[0] == DELETED
    ensures ParseHere(raw + rest, NOTHING, more) == ParseHere(rest, NOTHING, more)
  {
    assert (raw + rest)[..RECORD] == raw && (raw + rest)[RECORD..] == rest;
  }

  lemma FirstRecord(current: bytes, more: seq<bytes>, e: bytes, tail: bytes)
    requires current + Concat(more) == e + tail && |e| == RECORD && |current| % RECORD == 0 && current != []
    ensures |current| >= RECORD && current[..RECORD] == e && current == e + current[RECORD..]
    ensures current[RECORD..] + Concat(more) == tail && |current[RECORD..]| % RECORD == 0
  {
    var all := current + Concat(more);
    assert all[..RECORD] == e && all[RECORD..] == tail;
    assert all[..RECORD] == current[..RECORD] && all[RECORD..] == current[RECORD..] + Concat(more);
  }

  lemma NextCluster(more: seq<bytes>)
    requires more != []
    ensures [] + Concat(more) == more[0] + Concat(more[1..])
  {
    assert [] + Concat(more) == Concat(more);
  }

  /** Where a long name, its short record and what follows lie from here on. */
  ghost predicate LiesHere(current: bytes, more: seq<bytes>, data: bytes) {
    |current| % RECORD == 0 && Whole(more) && current + Concat(more) == data
  }

  lemma LiesInNext(current: bytes, more: seq<bytes>, data: bytes)
    requires LiesHere(current, more, data) && current == [] && more != []
    ensures LiesHere(more[0], more[1..], data)
  {
    NextCluster(more);
  }

  lemma LiesBehind(current: bytes, more: seq<bytes>, e: bytes, tail: bytes)
    requires LiesHere(current, more, e + tail) && |e| == RECORD && (current != [] || more == [])
    ensures |current| >= RECORD && current == e + current[RECORD..] && LiesHere(current[RECORD..], more, tail)
  {
    assert more == [] ==> current + Concat(more) == current;
    FirstRecord(current, more, e, tail);
  }

  /** What a name pending in front of record k is, when record g was the first one read. */
  function PendingFrom(long: seq<nat>, k: nat, g: nat): Pending
    requires k <= g
  {
    if k == g || UNITS * k > |long| then NOTHING else Pending(long[UNITS * k..Min(UNITS * g, |long|)], k + 1)
  }

  lemma PendingGrows(long: seq<nat>, k: nat, g: nat)
    requires NameUnits(long) && 1 <= k <= g <= RecordCount(long)
    ensures UNITS * (k - 1) <= |long|
    ensures var p := PendingFrom(long, k, g);
            Pending(Chunk(long, k) + (if p.ordinal != 0 && k != p.ordinal - 1 then [] else p.units), k) ==
                PendingFrom(long, k - 1, g)
  {
  }

  lemma NothingPending(long: seq<nat>, k: nat)
    ensures PendingFrom(long, k, k) == NOTHING
  {
  }

  lemma PendingAtEnd(long: seq<nat>, g: nat)
    ensures PendingFrom(long, 0, g).units == NamePart(long, g)
  {
  }

  /** A file whose long name has k records to come is listed under what is read of its name without a boundary. */
  lemma {:induction false} FileHere(long: seq<nat>, short: bytes, k: nat, g: nat, current: bytes, more: seq<bytes>,
                                    tail: bytes)
    requires NameUnits(long) && k <= g <= RecordCount(long) <= MAX_ORDINAL && Ordinary(short)
    requires LiesHere(current, more, LongRecords(long, k) + (short + tail))
    ensures var next := Skip(k + 1, current, more);
            && LiesHere(next.0, next.1, tail)
            && ParseHere(current, PendingFrom(long, k, g), more) ==
               Before(ListedAs(short, NamePart(long, Unbroken(k, g, current, more))),
                      ParseHere(next.0, NOTHING, next.1))
    decreases |more|, k
  {
    hide ParseHere, LiesHere, PendingFrom, ListedAs, LongRecord;
    if current == [] && more != [] {
      LiesInNext(current, more, LongRecords(long, k) + (short + tail));
      AtBoundary(PendingFrom(long, k, g), more);
      NothingPending(long, k);
      FileHere(long, short, k, k, more[0], more[1..], tail);
    } else if k == 0 {
      assert LongRecords(long, 0) + (short + tail) == short + tail;
      LiesBehind(current, more, short, tail);
      HereShort(short, current[RECORD..], PendingFrom(long, 0, g), more);
      PendingAtEnd(long, g);
    } else {
      PendingGrows(long, k, g);
      var e, rest := LongRecord(Chunk(long, k), k, k == RecordCount(long)), LongRecords(long, k - 1) + (short + tail);
      AppendAssoc(e, LongRecords(long, k - 1), short + tail);
      LiesBehind(current, more, e, rest);
      HereLong(Chunk(long, k), k, k == RecordCount(long), current[RECORD..], PendingFrom(long, k, g), more);
      FileHere(long, short, k - 1, g, current[RECORD..], more, tail);
    }
  }

  /** One item, from the start of its first record. */
  lemma {:induction false} ItemHere(it: Item, current: bytes, more: seq<bytes>, tail: bytes)
    requires Wellformed(it) && LiesHere(current, more, Encode(it) + tail)
    ensures var next := Skip(Records(it), current, more);
            && LiesHere(next.0, next.1, tail)
            && ParseHere(current, NOTHING, more) == Before(Shown(it, current, more), ParseHere(next.0, NOTHING, next.1))
    decreases |more|
  {
    hide ParseHere, LiesHere, ListedAs, LongRecords, RecordCount;
    match it {
      case File(long, short) =>
        var n := RecordCount(long);
        FewRecords(long);
        NothingPending(long, n);
        AppendAssoc(LongRecords(long, n), short, tail);
        FileHere(long, short, n, n, current, more, tail);
      case Deleted(raw) =>
        if current == [] && more != [] {
          LiesInNext(current, more, raw + tail);
          AtBoundary(NOTHING, more);
          ItemHere(it, more[0], more[1..], tail);
        } else {
          LiesBehind(current, more, raw, tail);
          HereDeleted(raw, current[RECORD..], more);
          BeforeNothing(ParseHere(current[RECORD..], NOTHING, more));
        }
      case Label(raw) =>
        if current == [] && more != [] {
          LiesInNext(current, more, raw + tail);
          AtBoundary(NOTHING, more);
          ItemHere(it, more[0], more[1..], tail);
        } else {
          LiesBehind(current, more, raw, tail);
          HereShort(raw, current[RECORD..], NOTHING, more);
          LabelUnlisted(raw);
        }
    }
  }

  lemma LabelUnlisted(raw: bytes)
    requires Wellformed(Label(raw))
    ensures ListedAs(raw, []) == []
  {
  }

  lemma {:induction false} EndHere(current: bytes, more: seq<bytes>, tail: bytes)
    requires LiesHere(current, more, tail) && Ending(tail)
    ensures ParseHere(current, NOTHING, more) == Listing([], tail != [])
    decreases |more|
  {
    if current == [] {
      NothingToParse();
      if more != [] {
        LiesInNext(current, more, tail);
        AtBoundary(NOTHING, more);
        EndHere(more[0], more[1..], tail);
      }
    } else {
      assert current[0] == (current + Concat(more))[0] == 0;
    }
  }

  lemma {:induction false} ItemsHere(items: seq<Item>, current: bytes, more: seq<bytes>, tail: bytes)
    requires (forall it :: it in items ==> Wellformed(it)) && Ending(tail)
    requires LiesHere(current, more, EncodeAll(items) + tail)
    ensures ParseHere(current, NOTHING, more) == Listing(ShownAll(items, current, more), tail != [])
    decreases |items|
  {
    hide ParseHere, LiesHere, Shown, Skip, Wellformed, Encode;
    if items == [] {
      assert EncodeAll(items) + tail == tail;
      EndHere(current, more, tail);
    } else {
      var next := Skip(Records(items[0]), current, more);
      AppendAssoc(Encode(items[0]), EncodeAll(items[1..]), tail);
      ItemHere(items[0], current, more, EncodeAll(items[1..]) + tail);
      ItemsHere(items[1..], next.0, next.1, tail);
    }
  }

  /**
   * A directory over clusters cut anywhere between records, closed by an end marker or filling its last
   * cluster, is listed item by item: each file under what the last boundary inside it leaves of its long
   * name, or under its short name.
   */
  lemma ClustersShow(items: seq<Item>, clusters: seq<bytes>, tail: bytes)
    requires (forall it :: it in items ==> Wellformed(it)) && Whole(clusters) && Ending(tail)
    requires Concat(clusters) == EncodeAll(items) + tail
    ensures ParseClusters(clusters) == Listing(ShownAll(items, [], clusters), tail != [])
  {
    hide LiesHere;
    LiesFromStart(clusters, EncodeAll(items) + tail);
    ItemsHere(items, [], clusters, tail);
    NothingToParse();
    BeforeNothing(ParseClusters(clusters));
  }

  // when a listing is right

  /** b bytes from here a cluster ends. */
  predicate Boundary(current: bytes, more: seq<bytes>, b: int) { EndsAt(current, more, b) }

  predicate EndsAt(current: bytes, more: seq<bytes>, b: int)
    decreases |more|
  {
    b == |current| || (more != [] && EndsAt(more[0], more[1..], b - |current|))
  }

  lemma BoundaryStep(current: bytes, more: seq<bytes>, b: int)
    ensures Boundary(current, more, b)
            <==> b == |current| || (more != [] && Boundary(more[0], more[1..], b - |current|))
  {
  }

  /** b bytes from the start of the items lies inside one of them. */
  predicate InsideItem(items: seq<Item>, b: int) {
    items != [] && (0 < b < RECORD * Records(items[0]) || InsideItem(items[1..], b - RECORD * Records(items[0])))
  }

  ghost predicate Uncut(items: seq<Item>, current: bytes, more: seq<bytes>) {
    forall b :: Boundary(current, more, b) ==> !InsideItem(items, b)
  }

  /** No boundary lies less than n records, and at least (or, if strict, more than) zero bytes, from here. */
  ghost predicate NoneWithin(n: nat, strict: bool, current: bytes, more: seq<bytes>) {
    forall b :: Boundary(current, more, b) && (if strict then 0 < b else 0 <= b) ==> b >= RECORD * n
  }

  lemma {:induction false} BoundaryBehind(current: bytes, more: seq<bytes>, b: int)
    requires Boundary(current, more, b)
    ensures b >= |current|
    decreases |more|
  {
    BoundaryStep(current, more, b);
    if b != |current| { BoundaryBehind(more[0], more[1..], b - |current|); }
  }

  lemma BoundaryShift(current: bytes, more: seq<bytes>, b: int)
    requires |current| >= RECORD
    ensures Boundary(current[RECORD..], more, b) <==> Boundary(current, more, b + RECORD)
  {
    BoundaryStep(current[RECORD..], more, b);
    BoundaryStep(current, more, b + RECORD);
  }

  /**
   * No record of a long name is lost exactly when no boundary lies in front of it or its short record, or,
   * behind its first one, at it.
   */
  lemma {:induction false} UnbrokenWhen(k: nat, g: nat, current: bytes, more: seq<bytes>, data: bytes)
    requires k <= g && LiesHere(current, more, data) && |data| >= RECORD * (k + 1)
    ensures Unbroken(k, g, current, more) == g <==> NoneWithin(k + 1, k == g, current, more)
    decreases |more|, k
  {
    hide LiesHere, Boundary;
    if current == [] && more != [] {
      LiesInNext(current, more, data);
      UnbrokenWhen(k, k, more[0], more[1..], data);
      BoundaryStep(current, more, 0);
      forall b ensures Boundary(current, more, b) <==> b == 0 || Boundary(more[0], more[1..], b) {
        BoundaryStep(current, more, b);
      }
    } else {
      FirstWhole(current, more, data);
      forall b | Boundary(current, more, b) ensures b >= RECORD { BoundaryBehind(current, more, b); }
      if k > 0 {
        UnbrokenWhen(k - 1, g, current[RECORD..], more, data[RECORD..]);
        forall b ensures Boundary(current[RECORD..], more, b) <==> Boundary(current, more, b + RECORD) {
          BoundaryShift(current, more, b);
        }
        assert forall b :: Boundary(current, more, b) ==> Boundary(current[RECORD..], more, b - RECORD);
      }
    }
  }

  lemma FirstWhole(current: bytes, more: seq<bytes>, data: bytes)
    requires LiesHere(current, more, data) && |data| >= RECORD && (current != [] || more == [])
    ensures |current| >= RECORD && LiesHere(current[RECORD..], more, data[RECORD..])
  {
    assert data == data[..RECORD] + data[RECORD..];
    LiesBehind(current, more, data[..RECORD], data[RECORD..]);
  }

  /** d bytes behind the first place lies the second, and the boundaries from there on are the same. */
  ghost predicate Further(d: nat, current: bytes, more: seq<bytes>, current': bytes, more': seq<bytes>) {
    && (forall b :: Boundary(current', more', b) ==> Boundary(current, more, b + d))
    && (forall b :: Boundary(current, more, b) && b > d ==> Boundary(current', more', b - d))
  }

  lemma {:induction false} SkipBoundaries(n: nat, current: bytes, more: seq<bytes>, data: bytes)
    requires LiesHere(current, more, data) && |data| >= RECORD * n
    ensures Further(RECORD * n, current, more, Skip(n, current, more).0, Skip(n, current, more).1)
    decreases |more|, n
  {
    hide LiesHere, Boundary;
    if n > 0 {
      var next := Skip(n, current, more);
      if current == [] && more != [] {
        LiesInNext(current, more, data);
        SkipBoundaries(n, more[0], more[1..], data);
        FurtherFromNext(RECORD * n, more, next.0, next.1);
      } else {
        FirstWhole(current, more, data);
        SkipBoundaries(n - 1, current[RECORD..], more, data[RECORD..]);
        FurtherByOne(RECORD * (n - 1), current, more, next.0, next.1);
      }
    }
  }

  lemma FurtherFromNext(d: nat, more: seq<bytes>, c: bytes, m: seq<bytes>)
    requires more != [] && d > 0 && Further(d, more[0], more[1..], c, m)
    ensures Further(d, [], more, c, m)
  {
    hide Boundary;
    forall b | Boundary(c, m, b) ensures Boundary([], more, b + d) { BoundaryStep([], more, b + d); }
    forall b | Boundary([], more, b) && b > d ensures Boundary(c, m, b - d) { BoundaryStep([], more, b); }
  }

  lemma FurtherByOne(d: nat, current: bytes, more: seq<bytes>, c: bytes, m: seq<bytes>)
    requires |current| >= RECORD && Further(d, current[RECORD..], more, c, m)
    ensures Further(d + RECORD, current, more, c, m)
  {
    hide Boundary;
    forall b | Boundary(c, m, b) ensures Boundary(current, more, b + (d + RECORD)) {
      BoundaryShift(current, more, b + d);
    }
    forall b | Boundary(current, more, b) && b > d + RECORD ensures Boundary(c, m, b - (d + RECORD)) {
      BoundaryShift(current, more, b - RECORD);
      assert b - (d + RECORD) == b - RECORD - d;
    }
  }

  lemma {:induction false} NotInFront(items: seq<Item>, b: int)
    requires b <= 0
    ensures !InsideItem(items, b)
  {
    if items != [] { NotInFront(items[1..], b - RECORD * Records(items[0])); }
  }

  /** The items are uncut when the first one and the others are. */
  lemma UncutParts(items: seq<Item>, current: bytes, more: seq<bytes>, data: bytes)
    requires items != [] && LiesHere(current, more, data) && |data| >= RECORD * Records(items[0])
    ensures var next := Skip(Records(items[0]), current, more);
            Uncut(items, current, more)
            <==> NoneWithin(Records(items[0]), true, current, more) && Uncut(items[1..], next.0, next.1)
  {
    hide LiesHere, Boundary, Records;
    var n, rest := Records(items[0]), items[1..];
    var next := Skip(n, current, more);
    SkipBoundaries(n, current, more, data);
    if NoneWithin(n, true, current, more) && Uncut(rest, next.0, next.1) {
      forall b | Boundary(current, more, b) ensures !InsideItem(items, b) {
        if b > RECORD * n {
          assert Boundary(next.0, next.1, b - RECORD * n);
        } else {
          NotInFront(rest, b - RECORD * n);
        }
      }
    }
    if Uncut(items, current, more) {
      forall b | Boundary(next.0, next.1, b) ensures !InsideItem(rest, b) {
        assert Boundary(current, more, b + RECORD * n);
        assert b + RECORD * n - RECORD * n == b;
        assert !InsideItem(items, b + RECORD * n);
      }
    }
  }

  /** An item is listed as written exactly when no boundary lies inside it. */
  lemma ShownWhen(it: Item, current: bytes, more: seq<bytes>, data: bytes)
    requires Wellformed(it) && LiesHere(current, more, data) && |data| >= RECORD * Records(it)
    ensures Shown(it, current, more) == (if it.File? then [EntryOf(it)] else [])
            <==> NoneWithin(Records(it), true, current, more)
  {
    hide LiesHere, ShortName, RecordCount, Unbroken;
    if it.File? {
      var n := RecordCount(it.long);
      UnbrokenWhen(n, n, current, more, data);
      PartOfName(it, n, Unbroken(n, n, current, more));
    } else {
      UnbrokenWhen(0, 0, current, more, data);
      assert Unbroken(0, 0, current, more) == 0;
    }
  }

  lemma PartOfName(it: Item, n: nat, u: nat)
    requires Wellformed(it) && it.File? && n == RecordCount(it.long) && u <= n
    ensures ListedAs(it.short, NamePart(it.long, u)) == [EntryOf(it)] <==> u == n
  {
    hide ShortName;
    if u == n { assert NamePart(it.long, u) == it.long; } else { assert |NamePart(it.long, u)| < |it.long|; }
  }

  lemma {:induction false} ShownFew(items: seq<Item>, current: bytes, more: seq<bytes>)
    requires forall it :: it in items ==> Wellformed(it)
    ensures |ShownAll(items, current, more)| <= |Listed(items)|
    decreases |items|
  {
    hide Shown, Skip, EntryOf, Wellformed;
    if items != [] {
      var next := Skip(Records(items[0]), current, more);
      ShownFew(items[1..], next.0, next.1);
    }
  }

  lemma {:induction false} ListedWhen(items: seq<Item>, current: bytes, more: seq<bytes>, tail: bytes)
    requires (forall it :: it in items ==> Wellformed(it)) && LiesHere(current, more, EncodeAll(items) + tail)
    ensures ShownAll(items, current, more) == Listed(items) <==> Uncut(items, current, more)
    decreases |items|
  {
    hide LiesHere, Shown, Skip, EntryOf, Wellformed, Encode, Records, NoneWithin;
    if items == [] {
    } else {
      var it, rest := items[0], items[1..];
      var next := Skip(Records(it), current, more);
      AppendAssoc(Encode(it), EncodeAll(rest), tail);
      ItemHere(it, current, more, EncodeAll(rest) + tail);
      ItemSize(it);
      ShownWhen(it, current, more, EncodeAll(items) + tail);
      UncutParts(items, current, more, EncodeAll(items) + tail);
      ShownFew(rest, next.0, next.1);
      ListedWhen(rest, next.0, next.1, tail);
      Heads(Shown(it, current, more), ShownAll(rest, next.0, next.1),
            if it.File? then [EntryOf(it)] else [], Listed(rest));
    }
  }

  lemma Heads(a: seq<DirEntry>, as_: seq<DirEntry>, b: seq<DirEntry>, bs: seq<DirEntry>)
    requires |a| <= |b| && |as_| <= |bs|
    ensures a + as_ == b + bs <==> a == b && as_ == bs
  {
    if a + as_ == b + bs {
      assert |a| == |b|;
      assert a == (a + as_)[..|a|] && b == (b + bs)[..|a|];
      assert as_ == (a + as_)[|a|..] && bs == (b + bs)[|a|..];
    }
  }

  lemma ItemSize(it: Item)
    requires Wellformed(it)
    ensures |Encode(it)| == RECORD * Records(it)
  {
    hide RecordCount;
    if it.File? {
      FewRecords(it.long);
      RecordsSize(it.long, RecordCount(it.long));
    }
  }

  lemma {:induction false} RecordsSize(long: seq<nat>, k: nat)
    requires NameUnits(long) && k <= RecordCount(long) <= MAX_ORDINAL
    ensures |LongRecords(long, k)| == RECORD * k
  {
    hide LongRecord, RecordCount;
    if k > 0 { RecordsSize(long, k - 1); }
  }

  /**
   * Parsing cluster by cluster lists a directory as it was written exactly when no cluster boundary
   * falls inside an item.
   */
  lemma ListedUnlessCut(items: seq<Item>, clusters: seq<bytes>, tail: bytes)
    requires (forall it :: it in items ==> Wellformed(it)) && Whole(clusters) && Ending(tail)
    requires Concat(clusters) == EncodeAll(items) + tail
    ensures ParseClusters(clusters) == Listing(Listed(items), tail != []) <==> Uncut(items, [], clusters)
  {
    hide ParseClusters, Wellformed, Boundary, InsideItem, LiesHere;
    LiesFromStart(clusters, EncodeAll(items) + tail);
    ClustersShow(items, clusters, tail);
    ListedWhen(items, [], clusters, tail);
  }

  lemma LiesFromStart(clusters: seq<bytes>, data: bytes)
    requires Whole(clusters) && Concat(clusters) == data
    ensures LiesHere([], clusters, data)
  {
    assert [] + Concat(clusters) == Concat(clusters);
  }

  lemma {:induction false} UnbrokenToEnd(k: nat, g: nat, current: bytes)
    requires k <= g && |current| >= RECORD * k
    ensures Unbroken(k, g, current, []) == g
    decreases k
  {
    if k > 0 { UnbrokenToEnd(k - 1, g, current[RECORD..]); }
  }

  lemma {:induction false} UnbrokenFromCut(j: nat, k: nat, g: nat, current: bytes, last: bytes)
    requires k <= j <= g && |current| == RECORD * (j - k) && |last| >= RECORD * k
    ensures Unbroken(j, g, current, [last]) == Unbroken(k, k, last, [])
    decreases j
  {
    if j > k {
      UnbrokenFromCut(j - 1, k, g, current[RECORD..], last);
    } else {
      assert current == [] && [last][1..] == [];
    }
  }

  /**
   * A file whose last k long records lie in the next cluster, with its short one, is listed under the
   * part of its name that they hold: its own name only if that is all of it.
   */
  lemma CutFile(it: Item, k: nat, head: bytes, tail: bytes)
    requires Wellformed(it) && it.File? && k <= RecordCount(it.long) <= MAX_ORDINAL
    requires head + LongRecords(it.long, k) == LongRecords(it.long, RecordCount(it.long))
    requires Ending(tail) && |tail| % RECORD == 0
    ensures ParseClusters([head, LongRecords(it.long, k) + it.short + tail]) ==
            Listing(ListedAs(it.short, NamePart(it.long, k)), tail != [])
    ensures ParseClusters([head, LongRecords(it.long, k) + it.short + tail]) == Listing([EntryOf(it)], tail != [])
            <==> k == RecordCount(it.long)
  {
    hide ParseClusters, ListedAs, LongRecords, RecordCount, EntryOf;
    var n, last := RecordCount(it.long), LongRecords(it.long, k) + it.short + tail;
    RecordsSize(it.long, n);
    RecordsSize(it.long, k);
    var clusters := [head, last];
    TwoParts(head, last);
    AppendAssoc(head, LongRecords(it.long, k), it.short);
    OneItem(it);
    AppendAssoc(head, LongRecords(it.long, k) + it.short, tail);
    ClustersShow([it], clusters, tail);
    assert clusters[1..] == [last];
    UnbrokenFromCut(n, k, n, head, last);
    UnbrokenToEnd(k, k, last);
    OneShown(it, clusters, n, k);
    PartOfName(it, n, k);
  }

  lemma TwoParts(a: bytes, b: bytes)
    ensures Concat([a, b]) == a + b
  {
    var two: seq<bytes>, one: seq<bytes> := [a, b], [b];
    assert two[1..] == one && one[1..] == [] && b + [] == b;
    assert Concat(one) == b + Concat([]);
  }

  lemma OneItem(it: Item)
    requires Wellformed(it)
    ensures EncodeAll([it]) == Encode(it)
  {
    assert [it][1..] == [] && Encode(it) + [] == Encode(it);
  }

  lemma OneShown(it: Item, clusters: seq<bytes>, n: nat, k: nat)
    requires Wellformed(it) && it.File? && n == RecordCount(it.long) && clusters != []
    requires Unbroken(n, n, clusters[0], clusters[1..]) == k
    ensures ShownAll([it], [], clusters) == ListedAs(it.short, NamePart(it.long, k))
  {
    hide ListedAs, RecordCount, NamePart, Skip;
    assert [it][1..] == [];
    assert ListedAs(it.short, NamePart(it.long, k)) + [] == ListedAs(it.short, NamePart(it.long, k));
  }
}

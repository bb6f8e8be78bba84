/**
 * Btrfs file extents (internal/filesystem/btrfs): EXTENT_DATA items read through the chunk map, all at
 * once or piece by piece.
 */
module BtrfsFile {
  import opened Bytes
  import opened Streaming
  import opened SparseFile

  const MAX_EXTENT: nat := 0x4000_0000           // 1 << 30
  const MAX_ADDRESS: nat := 0x100_0000_0000      // 1 << 40
  const MAX_FILE_BYTES: nat := 0x100_0000_0000
  const WORD: nat := 0x1_0000_0000_0000_0000

  // ------------------------------------------------------------ the chunk map

  datatype Chunk = Chunk(logical: nat, phys: nat, length: nat) {
    predicate Covers(a: nat) { logical <= a < logical + length }
  }

  /** translate: the first chunk that covers a logical address. */
  function Translate(cs: seq<Chunk>, a: nat): Option<nat> {
    if cs == [] then None
    else if cs[0].Covers(a) then Some(cs[0].phys + (a - cs[0].logical))
    else Translate(cs[1..], a)
  }

  ghost predicate ChunksDisjoint(cs: seq<Chunk>) {
    forall i, j, a: nat :: 0 <= i < j < |cs| && cs[i].Covers(a) ==> !cs[j].Covers(a)
  }

  /** Some chunk holds the whole range. */
  ghost predicate InOneChunk(cs: seq<Chunk>, a: nat, n: nat) {
    n == 0 || exists i :: 0 <= i < |cs| && cs[i].Covers(a) && cs[i].Covers(a + n - 1)
  }

  lemma {:induction false} TranslateBy(cs: seq<Chunk>, i: nat, a: nat)
    requires ChunksDisjoint(cs) && i < |cs| && cs[i].Covers(a)
    ensures Translate(cs, a) == Some(cs[i].phys + (a - cs[i].logical))
    decreases |cs|
  {
    if i > 0 {
      assert !cs[0].Covers(a);
      TailDisjoint(cs);
      TranslateBy(cs[1..], i - 1, a);
    }
  }

  lemma TailDisjoint(cs: seq<Chunk>)
    requires ChunksDisjoint(cs) && cs != []
    ensures ChunksDisjoint(cs[1..])
  {
    forall i, j, a: nat | 0 <= i < j < |cs[1..]| && cs[1..][i].Covers(a) ensures !cs[1..][j].Covers(a) {
      assert cs[i + 1].Covers(a) && cs[j + 1] == cs[1..][j];
    }
  }

  /** Inside one chunk, addresses translate side by side. */
  lemma TranslateShift(cs: seq<Chunk>, a: nat, n: nat, w: nat)
    requires ChunksDisjoint(cs) && InOneChunk(cs, a, n) && w < n
    ensures Translate(cs, a).Some? && Translate(cs, a + w) == Some(Translate(cs, a).value + w)
  {
    var i :| 0 <= i < |cs| && cs[i].Covers(a) && cs[i].Covers(a + n - 1);
    TranslateBy(cs, i, a);
    TranslateBy(cs, i, a + w);
  }

  /** Reading a logical range: translate its start, then read on from there, within the limits of readBytes. */
  function LogicalRead(cs: seq<Chunk>, read: Reader, a: nat, n: nat): Option<bytes> {
    match Translate(cs, a) case None => None case Some(p) => Limited(read, MAX_ADDRESS, MAX_EXTENT)(p, n)
  }

  /** The medium by logical address. */
  function LogicalMedia(cs: seq<Chunk>, m: Media): Media {
    (a: nat) => LogicalByte(cs, m, a)
  }

  function LogicalByte(cs: seq<Chunk>, m: Media, a: nat): byte {
    match Translate(cs, a) case None => 0 case Some(p) => m(p)
  }

  lemma LogicalStored(cs: seq<Chunk>, m: Media, a: nat, len: nat, w: nat, n: nat)
    requires ChunksDisjoint(cs) && InOneChunk(cs, a, len) && w + n <= len && 0 < n
    ensures Translate(cs, a).Some? && Translate(cs, a + w) == Some(Translate(cs, a).value + w)
    ensures Stored(LogicalMedia(cs, m), a + w, n) == Stored(m, Translate(cs, a).value + w, n)
  {
    hide Translate, InOneChunk;
    TranslateShift(cs, a, len, w);
    var p := Translate(cs, a).value;
    var x, y := Stored(LogicalMedia(cs, m), a + w, n), Stored(m, p + w, n);
    forall i | 0 <= i < n ensures x[i] == y[i] {
      TranslateShift(cs, a, len, w + i);
      assert a + w + i == a + (w + i) && p + w + i == p + (w + i);
    }
  }

  // ------------------------------------------------------------ EXTENT_DATA items

  /** An EXTENT_DATA item: its file offset and payload. */
  datatype Item = Item(offset: nat, data: bytes)

  function U64(d: bytes, off: nat): nat
    requires off + 8 <= |d|
  {
    LE(d[off..off + 8])
  }

  /** readExtent's validation; None is an error. */
  function ItemExtent(it: Item): (r: Option<Extent>)
    ensures r.Some? ==> r.value.Valid() && r.value.off == it.offset
    ensures r.Some? && r.value.src.OnDisk? ==> 0 < r.value.len <= MAX_EXTENT
  {
    var d := it.data;
    if |d| < 21 then None
    else if d[20] == 0 then Some(Extent(it.offset, |d| - 21, Inline(d[21..])))
    else if (d[20] != 1 && d[20] != 2) || |d| < 53 || d[16] != 0 || d[17] != 0 then None
    else
      var diskBytenr, diskNumBytes, extentOff, numBytes := U64(d, 21), U64(d, 29), U64(d, 37), U64(d, 45);
      if diskBytenr == 0 then
        if numBytes > MAX_EXTENT then None else Some(Extent(it.offset, numBytes, Zero))
      else if diskNumBytes == 0 || numBytes == 0 || numBytes > MAX_EXTENT || diskNumBytes > MAX_EXTENT then None
      else if extentOff > MAX_ADDRESS || diskBytenr > MAX_ADDRESS || extentOff + numBytes > diskNumBytes then None
      else Some(Extent(it.offset, numBytes, OnDisk(diskBytenr + extentOff)))
  }

  /** readExtent. */
  function ReadItem(cs: seq<Chunk>, read: Reader, it: Item): Option<bytes> {
    match ItemExtent(it)
    case None => None
    case Some(e) =>
      match e.src
      case Inline(data) => Some(data)
      case Zero => Some(Zeros(e.len))
      case OnDisk(at) => LogicalRead(cs, read, at, e.len)
  }

  /** The span an item covers when it is only measured: zero when malformed. */
  function Span(d: bytes): nat {
    if |d| < 21 then 0
    else if d[20] == 0 then |d| - 21
    else if (d[20] == 1 || d[20] == 2) && |d| >= 53 && U64(d, 45) <= MAX_EXTENT then U64(d, 45)
    else 0
  }

  /** maxExtentEnd; a range past the last uint64 is skipped. */
  function MaxEnd(items: seq<Item>): nat {
    if items == [] then 0
    else
      var rest := MaxEnd(items[1..]);
      var span := Span(items[0].data);
      var end := if span == 0 || items[0].offset + span >= WORD then 0 else items[0].offset + span;
      if end > rest then end else rest
  }

  // ------------------------------------------------------------ the eager reader

  /** The file's size: as declared, but no further than its extents reach. */
  function FileSize(items: seq<Item>, declared: nat): nat { Min(declared, MaxEnd(items)) }

  function Assembled(cs: seq<Chunk>, read: Reader, items: seq<Item>, out: bytes): (r: Option<bytes>)
    ensures r.Some? ==> |r.value| == |out|
    decreases |items|
  {
    if items == [] then Some(out)
    else
      match ReadItem(cs, read, items[0])
      case None => None
      case Some(d) =>
        var pos := items[0].offset;
        Assembled(cs, read, items[1..], if pos >= |out| then out else Patch(out, pos, d[..Min(|d|, |out| - pos)]))
  }

  /** GetFile's content; None is any error. */
  function Eager(cs: seq<Chunk>, read: Reader, items: seq<Item>, declared: nat): Option<bytes> {
    if FileSize(items, declared) > MAX_FILE_BYTES then None
    else Assembled(cs, read, items, Zeros(FileSize(items, declared)))
  }

  method GetFile(cs: seq<Chunk>, read: Reader, items: seq<Item>, declared: nat) returns (r: Option<bytes>)
    ensures r == Eager(cs, read, items, declared)
  {
    hide ReadItem;
    var size := FileSize(items, declared);
    if size > MAX_FILE_BYTES { return None; }
    var out := new byte[size](_ => 0);
    assert out[..] == Zeros(size) && items[0..] == items;
    for i := 0 to |items|
      invariant Eager(cs, read, items, declared) == Assembled(cs, read, items[i..], out[..])
    {
      assert items[i..][1..] == items[i + 1..];
      var chunk := ReadItem(cs, read, items[i]);
      if chunk.None? { return None; }
      var pos := items[i].offset;
      if pos < size {
        CopyInto(out, pos, chunk.value[..Min(|chunk.value|, size - pos)]);
      }
    }
    r := Some(out[..]);
  }

  /** The extents of items that are all valid. */
  function Extents(items: seq<Item>): (es: seq<Extent>)
    requires forall it :: it in items ==> ItemExtent(it).Some?
    ensures |es| == |items| && AllValid(es)
    ensures forall i :: 0 <= i < |items| ==> es[i] == ItemExtent(items[i]).value
  {
    if items == [] then [] else [ItemExtent(items[0]).value] + Extents(items[1..])
  }

  lemma {:induction false} AssembledValid(cs: seq<Chunk>, read: Reader, items: seq<Item>, out: bytes)
    requires Assembled(cs, read, items, out).Some?
    ensures forall it :: it in items ==> ItemExtent(it).Some? && ReadItem(cs, read, it).Some?
    decreases |items|
  {
    hide ItemExtent;
    if items != [] {
      var d, pos := ReadItem(cs, read, items[0]).value, items[0].offset;
      AssembledValid(cs, read, items[1..], if pos >= |out| then out else Patch(out, pos, d[..Min(|d|, |out| - pos)]));
    }
  }

  /** Each extent on disk lies inside one chunk of a consistent map. */
  ghost predicate Consistent(cs: seq<Chunk>, es: seq<Extent>) {
    ChunksDisjoint(cs) && forall i :: 0 <= i < |es| && es[i].src.OnDisk? ==> InOneChunk(cs, es[i].src.at, es[i].len)
  }

  lemma LogicalHonest(cs: seq<Chunk>, m: Media, read: Reader, es: seq<Extent>)
    requires Honest(m, read) && Consistent(cs, es)
    ensures HonestOn(LogicalMedia(cs, m), (a, n) => LogicalRead(cs, read, a, n), es)
  {
    hide Honest, ChunksDisjoint, InOneChunk, Stored, Translate, Limited;
    LimitedHonest(m, read, MAX_ADDRESS, MAX_EXTENT);
    forall at: nat, n: nat | LogicalRead(cs, read, at, n).Some? && Inside(es, at, n)
      ensures LogicalRead(cs, read, at, n).value == Stored(LogicalMedia(cs, m), at, n)
    {
      var i :| 0 <= i < |es| && es[i].src.OnDisk? && es[i].src.at <= at && at + n <= es[i].src.at + es[i].len;
      ReadsStored(m, Limited(read, MAX_ADDRESS, MAX_EXTENT), Translate(cs, at).value, n);
      if n > 0 { LogicalStored(cs, m, es[i].src.at, es[i].len, at - es[i].src.at, n); }
      else { NothingStored(LogicalMedia(cs, m), m, at, Translate(cs, at).value); }
    }
  }

  lemma NothingStored(a: Media, b: Media, x: nat, y: nat)
    ensures Stored(a, x, 0) == Stored(b, y, 0) == []
  {
  }

  /** What one item contributes is its extent's bytes. */
  lemma ItemGivesExtent(cs: seq<Chunk>, m: Media, read: Reader, it: Item)
    requires Honest(m, read) && ItemExtent(it).Some? && ReadItem(cs, read, it).Some?
    requires Consistent(cs, [ItemExtent(it).value])
    ensures ReadItem(cs, read, it).value == ExtentBytes(LogicalMedia(cs, m), ItemExtent(it).value)
  {
    hide Honest, ItemExtent, Stored, Translate, InOneChunk, ChunksDisjoint, Limited;
    LimitedHonest(m, read, MAX_ADDRESS, MAX_EXTENT);
    var e := ItemExtent(it).value;
    if e.src.OnDisk? {
      var es := [e];
      assert InOneChunk(cs, es[0].src.at, es[0].len);
      ReadsStored(m, Limited(read, MAX_ADDRESS, MAX_EXTENT), Translate(cs, e.src.at).value, e.len);
      LogicalStored(cs, m, e.src.at, e.len, 0, e.len);
    }
  }

  lemma {:induction false} AssembledIsOverlay(cs: seq<Chunk>, m: Media, read: Reader, items: seq<Item>, out: bytes)
    requires Honest(m, read) && (forall it :: it in items ==> ItemExtent(it).Some?) && Consistent(cs, Extents(items))
    requires Assembled(cs, read, items, out).Some?
    ensures Assembled(cs, read, items, out).value == Overlay(LogicalMedia(cs, m), Extents(items), out)
    decreases |items|
  {
    hide Honest, ItemExtent, ReadItem, ExtentBytes, LogicalMedia;
    if items != [] {
      var es := Extents(items);
      assert es[1..] == Extents(items[1..]);
      FirstConsistent(cs, es);
      ItemGivesExtent(cs, m, read, items[0]);
      AssembledIsOverlay(cs, m, read, items[1..], Overlaid(LogicalMedia(cs, m), es[0], out));
    }
  }

  lemma FirstConsistent(cs: seq<Chunk>, es: seq<Extent>)
    requires Consistent(cs, es) && es != []
    ensures Consistent(cs, [es[0]]) && Consistent(cs, es[1..])
  {
    hide ChunksDisjoint, InOneChunk;
    forall i | 0 <= i < |es[1..]| && es[1..][i].src.OnDisk? ensures InOneChunk(cs, es[1..][i].src.at, es[1..][i].len) {
      assert es[1..][i] == es[i + 1];
    }
  }

  // ------------------------------------------------------------ the streaming reader

  datatype Listed = Refused | Skipped | Kept(e: Extent)

  /** What openInode makes of an item. */
  function ListItem(it: Item): (r: Listed)
    ensures r.Kept? ==> r.e.Valid()
  {
    var d, span := it.data, Span(it.data);
    if span == 0 then Skipped
    else if d[20] == 0 then Kept(Extent(it.offset, span, Inline(d[21..])))
    else if d[16] != 0 || d[17] != 0 then Refused
    else
      var diskBytenr, diskNumBytes, extentOff := U64(d, 21), U64(d, 29), U64(d, 37);
      if diskBytenr == 0 then Kept(Extent(it.offset, span, Zero))
      else if diskNumBytes == 0 || diskNumBytes > MAX_EXTENT || extentOff > MAX_ADDRESS || diskBytenr > MAX_ADDRESS
              || extentOff + span > diskNumBytes then Refused
      else Kept(Extent(it.offset, span, OnDisk(diskBytenr + extentOff)))
  }

  /** The reader's extent list; None when the file cannot be opened. */
  function OpenList(items: seq<Item>): (r: Option<seq<Extent>>)
    ensures r.Some? ==> AllValid(r.value) && forall e :: e in r.value ==> e.len <= MAX_EXTENT || e.src.Inline?
  {
    if items == [] then Some([])
    else
      match (ListItem(items[0]), OpenList(items[1..]))
      case (Refused, _) => None
      case (_, None) => None
      case (Skipped, Some(rest)) => Some(rest)
      case (Kept(e), Some(rest)) => Some([e] + rest)
  }

  /** openInode's loop. */
  method OpenInode(items: seq<Item>) returns (r: Option<seq<Extent>>)
    ensures r == OpenList(items)
  {
    hide ListItem;
    var kept: seq<Extent> := [];
    assert items[0..] == items;
    KeepNothing(OpenList(items));
    for i := 0 to |items|
      invariant OpenList(items) == Keep(kept, OpenList(items[i..]))
    {
      assert items[i..][1..] == items[i + 1..];
      var listed := ListItem(items[i]);
      KeepMore(kept, listed, OpenList(items[i + 1..]));
      if listed == Refused { return None; }
      if listed.Kept? { kept := kept + [listed.e]; }
    }
    assert kept + [] == kept;
    r := Some(kept);
  }

  function Keep(kept: seq<Extent>, rest: Option<seq<Extent>>): Option<seq<Extent>> {
    match rest case None => None case Some(r) => Some(kept + r)
  }

  lemma KeepNothing(rest: Option<seq<Extent>>)
    ensures Keep([], rest) == rest
  {
    if rest.Some? { assert [] + rest.value == rest.value; }
  }

  lemma KeepMore(kept: seq<Extent>, l: Listed, rest: Option<seq<Extent>>)
    ensures l.Kept? && rest.Some? ==> kept + ([l.e] + rest.value) == kept + [l.e] + rest.value
  {
  }

  /** An item the eager reader accepts is kept as the same extent, or skipped if it is empty. */
  lemma AcceptedIsListed(it: Item)
    requires ItemExtent(it).Some?
    ensures ListItem(it) == if ItemExtent(it).value.len == 0 then Skipped else Kept(ItemExtent(it).value)
  {
    hide LE;
  }

  function NotEmpty(es: seq<Extent>): (r: seq<Extent>)
    requires AllValid(es)
    ensures AllValid(r) && forall e :: e in r <==> e in es && e.len > 0
  {
    if es == [] then [] else (if es[0].len > 0 then [es[0]] else []) + NotEmpty(es[1..])
  }

  lemma {:induction false} ListIsNotEmpty(items: seq<Item>)
    requires forall it :: it in items ==> ItemExtent(it).Some?
    ensures OpenList(items) == Some(NotEmpty(Extents(items)))
  {
    hide ItemExtent, ListItem;
    if items != [] {
      AcceptedIsListed(items[0]);
      assert Extents(items)[1..] == Extents(items[1..]);
      ListIsNotEmpty(items[1..]);
      assert [] + NotEmpty(Extents(items[1..])) == NotEmpty(Extents(items[1..]));
    }
  }

  /** Empty extents cover nothing, so leaving them out changes no byte. */
  lemma {:induction false} FirstAtNotEmpty(es: seq<Extent>, o: nat)
    requires AllValid(es)
    ensures FirstAt(NotEmpty(es), o) == FirstAt(es, o)
  {
    if es != [] {
      FirstAtNotEmpty(es[1..], o);
      assert ([es[0]] + NotEmpty(es[1..]))[1..] == NotEmpty(es[1..]);
      assert [] + NotEmpty(es[1..]) == NotEmpty(es[1..]);
    }
  }

  lemma SameContent(m: Media, es: seq<Extent>, size: nat)
    requires AllValid(es)
    ensures Content(m, NotEmpty(es), size) == Content(m, es, size)
  {
    hide ExtentBytes, FirstAt, NotEmpty;
    forall o | 0 <= o < size ensures Content(m, NotEmpty(es), size)[o] == Content(m, es, size)[o] {
      FirstAtNotEmpty(es, o);
      ContentAt(m, es, size, o);
      ContentAt(m, NotEmpty(es), size, o);
    }
  }

  lemma {:induction false} LastAtNotEmpty(es: seq<Extent>, o: nat)
    requires AllValid(es)
    ensures LastAt(NotEmpty(es), o) == LastAt(es, o)
  {
    if es != [] {
      LastAtNotEmpty(es[1..], o);
      assert ([es[0]] + NotEmpty(es[1..]))[1..] == NotEmpty(es[1..]);
      assert [] + NotEmpty(es[1..]) == NotEmpty(es[1..]);
    }
  }

  /** The piece copied at offset o: the rest of the extent, or zeros up to the next one. */
  function Piece(cs: seq<Chunk>, read: Reader, es: seq<Extent>, size: nat, o: nat, t: nat): Option<bytes> {
    SparsePiece((a, n) => LogicalRead(cs, read, a, n), es, size, t + 1, size + 1, o, t)
  }

  function Pieces(cs: seq<Chunk>, read: Reader, es: seq<Extent>, size: nat): (nat, nat) -> Option<bytes> {
    (o: nat, t: nat) => Piece(cs, read, es, size, o, t)
  }

  /** The rest of the extent at o, as far as it is asked for, cannot be read. */
  predicate RestFails(cs: seq<Chunk>, read: Reader, es: seq<Extent>, o: nat, t: nat) {
    match FirstAt(es, o)
    case None => false
    case Some(e) => e.src.OnDisk? && LogicalRead(cs, read, e.src.at + (o - e.off), Min(e.len - (o - e.off), t)) == None
  }

  /**
   * Real bytes or an error, for any steady list of extents each inside one chunk of a consistent map, and an
   * error exactly where the medium cannot be read.
   */
  lemma StreamingHonest(cs: seq<Chunk>, m: Media, read: Reader, es: seq<Extent>, size: nat)
    requires Honest(m, read) && AllValid(es)
    ensures Steady(es) && Consistent(cs, es) ==>
              PieceHonest(Content(LogicalMedia(cs, m), es, size), Pieces(cs, read, es, size))
    ensures forall o: nat, t: nat :: 0 < t && o + t <= size ==>
              (Piece(cs, read, es, size, o, t) == None <==> RestFails(cs, read, es, o, t))
  {
    hide Honest, Steady, Consistent, AllValid, SparsePiece, Content, LogicalMedia, HonestOn, LogicalRead, FirstAt;
    if Steady(es) && Consistent(cs, es) {
      LogicalHonest(cs, m, read, es);
      forall o: nat, t: nat | 0 < t && o + t <= size
        ensures var p := Piece(cs, read, es, size, o, t);
                p.Some? ==>
                  0 < |p.value| <= t && p.value == Content(LogicalMedia(cs, m), es, size)[o..o + |p.value|]
      {
        PieceIsContent(LogicalMedia(cs, m), (a, n) => LogicalRead(cs, read, a, n), es, size, t + 1, size + 1, o, t);
      }
    }
    forall o: nat, t: nat | 0 < t && o + t <= size
      ensures Piece(cs, read, es, size, o, t) == None <==> RestFails(cs, read, es, o, t)
    {
      PieceFails((a, n) => LogicalRead(cs, read, a, n), es, size, t + 1, size + 1, o, t);
    }
  }

  // ------------------------------------------------------------ one against the other

  /** A logical place by physical address. */
  function Through(cs: seq<Chunk>, w: Origin): Origin {
    match w
    case Fixed(v) => w
    case Place(a) => match Translate(cs, a) case None => Fixed(0) case Some(p) => Place(p)
  }

  /** The first and the last extent over a byte of the file take it from the same place on disk. */
  ghost predicate OneOriginOn(cs: seq<Chunk>, es: seq<Extent>, size: nat)
    requires AllValid(es)
  {
    forall o :: 0 <= o < size ==> Through(cs, FirstOrigin(es, o)) == Through(cs, LastOrigin(es, o))
  }

  /** Copying in order gives the content of every disk exactly when every byte has one origin. */
  lemma OverlayIsLogical(cs: seq<Chunk>, es: seq<Extent>, size: nat)
    requires AllValid(es)
    ensures (forall m: Media ::
               Overlay(LogicalMedia(cs, m), es, Zeros(size)) == Content(LogicalMedia(cs, m), es, size))
       <==> OneOriginOn(cs, es, size)
  {
    hide Overlay, Content, FirstOrigin, LastOrigin, Translate;
    forall m: Media
      ensures Overlay(LogicalMedia(cs, m), es, Zeros(size)) == Content(LogicalMedia(cs, m), es, size)
         <==> (forall o :: 0 <= o < size ==>
                 OriginByte(m, Through(cs, FirstOrigin(es, o))) == OriginByte(m, Through(cs, LastOrigin(es, o))))
    {
      OverlayOnDisk(LogicalMedia(cs, m), es, size);
      forall o | 0 <= o < size
        ensures OriginByte(LogicalMedia(cs, m), FirstOrigin(es, o)) == OriginByte(m, Through(cs, FirstOrigin(es, o)))
        ensures OriginByte(LogicalMedia(cs, m), LastOrigin(es, o)) == OriginByte(m, Through(cs, LastOrigin(es, o)))
      {
      }
    }
    if !OneOriginOn(cs, es, size) {
      var o :| 0 <= o < size && Through(cs, FirstOrigin(es, o)) != Through(cs, LastOrigin(es, o));
      var m := Distinguished(Through(cs, FirstOrigin(es, o)), Through(cs, LastOrigin(es, o)));
      assert Overlay(LogicalMedia(cs, m), es, Zeros(size)) != Content(LogicalMedia(cs, m), es, size);
    }
  }

  /** What a successful eager read is, and what the list opened for streaming is. */
  lemma EagerIsOverlay(cs: seq<Chunk>, m: Media, read: Reader, items: seq<Item>, declared: nat)
    requires Honest(m, read) && Eager(cs, read, items, declared).Some?
    ensures forall it :: it in items ==> ItemExtent(it).Some? && ReadItem(cs, read, it).Some?
    ensures OpenList(items) == Some(NotEmpty(Extents(items)))
    ensures Consistent(cs, OpenList(items).value) ==>
              && Consistent(cs, Extents(items))
              && Eager(cs, read, items, declared).value ==
                 Overlay(LogicalMedia(cs, m), Extents(items), Zeros(FileSize(items, declared)))
  {
    hide Honest, Assembled, ItemExtent, LogicalMedia, NotEmpty, Consistent, Overlay, ReadItem, OpenList, Extents;
    var size := FileSize(items, declared);
    AssembledValid(cs, read, items, Zeros(size));
    ListIsNotEmpty(items);
    if Consistent(cs, OpenList(items).value) {
      AllConsistent(cs, Extents(items));
      AssembledIsOverlay(cs, m, read, items, Zeros(size));
    }
  }

  lemma NothingInChunk(cs: seq<Chunk>, a: nat)
    ensures InOneChunk(cs, a, 0)
  {
  }

  lemma AllConsistent(cs: seq<Chunk>, es: seq<Extent>)
    requires AllValid(es) && Consistent(cs, NotEmpty(es))
    ensures Consistent(cs, es)
  {
    hide ChunksDisjoint, InOneChunk, NotEmpty;
    var list := NotEmpty(es);
    forall i | 0 <= i < |es| && es[i].src.OnDisk? ensures InOneChunk(cs, es[i].src.at, es[i].len) {
      if es[i].len > 0 {
        assert es[i] in list;
        var j :| 0 <= j < |list| && list[j] == es[i];
      } else {
        NothingInChunk(cs, es[i].src.at);
      }
    }
  }

  /** Leaving out empty extents changes neither content, nor origins, nor what is found where. */
  lemma ListIsSame(cs: seq<Chunk>, m: Media, es: seq<Extent>, size: nat)
    requires AllValid(es)
    ensures Content(LogicalMedia(cs, m), NotEmpty(es), size) == Content(LogicalMedia(cs, m), es, size)
    ensures OneOriginOn(cs, NotEmpty(es), size) <==> OneOriginOn(cs, es, size)
  {
    hide FirstAt, LastAt, NotEmpty, Translate;
    SameContent(LogicalMedia(cs, m), es, size);
    forall o | 0 <= o < size
      ensures FirstOrigin(NotEmpty(es), o) == FirstOrigin(es, o) && LastOrigin(NotEmpty(es), o) == LastOrigin(es, o)
    {
      FirstAtNotEmpty(es, o);
      LastAtNotEmpty(es, o);
    }
  }

  lemma EagerSize(cs: seq<Chunk>, read: Reader, items: seq<Item>, declared: nat)
    ensures Eager(cs, read, items, declared).Some? ==>
            |Eager(cs, read, items, declared).value| == FileSize(items, declared)
  {
    hide Assembled;
  }

  /**
   * Two overlapping extents, in key order: the eager reader copies the second over the first, the
   * streaming one takes the first.
   */
  lemma OverlapsDiffer(cs: seq<Chunk>, read: Reader)
    ensures var items := [Item(0, Zeros(21) + [1, 1]), Item(1, Zeros(21) + [2])];
            var list := [Extent(0, 2, Inline([1, 1])), Extent(1, 1, Inline([2]))];
            && Eager(cs, read, items, 2) == Some([1, 2])
            && OpenList(items) == Some(list)
            && Piece(cs, read, list, 2, 0, 2) == Some([1, 1])
  {
    var a: bytes, b: bytes := Zeros(21) + [1, 1], Zeros(21) + [2];
    var x, y := Item(0, a), Item(1, b);
    assert a[21..] == [1, 1] && b[21..] == [2];
    var items, rest, none := [x, y], [y], [];
    assert items[1..] == rest && rest[1..] == none;
    var p: bytes, q: bytes, z: bytes, r: bytes := [1, 1], [2], Zeros(2), [1, 2];
    assert p[..2] == p && q[..1] == q;
    assert Patch(z, 0, p) == p by { assert z[..0] == [] && z[2..] == []; }
    assert Patch(p, 1, q) == r by { assert p[..1] == [1] && p[2..] == []; }
    assert Assembled(cs, read, none, r) == Some(r);
    assert Assembled(cs, read, rest, p) == Some(r);
    var e, f := Extent(0, 2, Inline(p)), Extent(1, 1, Inline(q));
    assert OpenList(rest) == Some([f] + []) && [f] + [] == [f];
    assert [e] + [f] == [e, f];
  }

  /** All places the bytes of the file are streamed from lie below a limit. */
  ghost predicate InReach(cs: seq<Chunk>, es: seq<Extent>, size: nat, limit: nat) {
    forall o :: 0 <= o < size ==> ByteInReach(cs, es, o, limit)
  }

  predicate ByteInReach(cs: seq<Chunk>, es: seq<Extent>, o: nat, limit: nat) {
    match FirstAt(es, o)
    case None => true
    case Some(e) =>
      e.src.OnDisk? ==>
        var p := Translate(cs, e.src.at + (o - e.off));
        p.Some? && p.value < limit
  }

  /** Every part of an extent that is in reach can be read, because the whole extent was. */
  lemma ListReadable(cs: seq<Chunk>, read: Reader, limit: nat, items: seq<Item>, size: nat, o: nat, t: nat)
    requires Monotone(read, limit) && limit <= MAX_ADDRESS + 1
    requires forall it :: it in items ==> ItemExtent(it).Some? && ReadItem(cs, read, it).Some?
    requires Consistent(cs, Extents(items)) && InReach(cs, NotEmpty(Extents(items)), size, limit)
    requires 0 < t && o + t <= size
    ensures !RestFails(cs, read, NotEmpty(Extents(items)), o, t)
  {
    hide Monotone, ItemExtent, ReadItem, ChunksDisjoint, InOneChunk, LogicalRead, Extents, NotEmpty, Consistent,
         FirstAt;
    var list := NotEmpty(Extents(items));
    assert ByteInReach(cs, list, o, limit);
    if FirstAt(list, o).Some? && FirstAt(list, o).value.src.OnDisk? {
      var e := FirstAt(list, o).value;
      ListedItemRead(cs, read, items, e);
      PartReadable(cs, read, limit, e, o - e.off, Min(e.len - (o - e.off), t));
    }
  }

  /** An extent of items that were all read was read itself. */
  lemma ListedItemRead(cs: seq<Chunk>, read: Reader, items: seq<Item>, e: Extent)
    requires forall it :: it in items ==> ItemExtent(it).Some? && ReadItem(cs, read, it).Some?
    requires Consistent(cs, Extents(items)) && e in Extents(items) && e.src.OnDisk?
    ensures ChunksDisjoint(cs) && InOneChunk(cs, e.src.at, e.len) && LogicalRead(cs, read, e.src.at, e.len).Some?
  {
    hide ItemExtent, ChunksDisjoint, InOneChunk, LogicalRead;
    var es := Extents(items);
    var i :| 0 <= i < |es| && es[i] == e;
    assert items[i] in items && ItemExtent(items[i]).value == e;
  }

  lemma PartReadable(cs: seq<Chunk>, read: Reader, limit: nat, e: Extent, w: nat, n: nat)
    requires Monotone(read, limit) && limit <= MAX_ADDRESS + 1
    requires ChunksDisjoint(cs) && e.src.OnDisk? && InOneChunk(cs, e.src.at, e.len)
    requires LogicalRead(cs, read, e.src.at, e.len).Some? && 0 < n && w + n <= e.len
    requires Translate(cs, e.src.at + w).Some? && Translate(cs, e.src.at + w).value < limit
    ensures LogicalRead(cs, read, e.src.at + w, n).Some?
  {
    hide Translate, InOneChunk, ChunksDisjoint;
    TranslateShift(cs, e.src.at, e.len, w);
    var p := Translate(cs, e.src.at).value;
    assert read(p, e.len).Some?;
    assert read(p + w, n).Some?;
  }

  /**
   * Streaming against assembling, each extent inside one chunk of a consistent chunk map: when GetFile
   * succeeds the file opens; its result is the streamed content if each byte has one origin; and
   * every piece is given if all is in reach and a range that was read can be read in part.
   */
  lemma StreamingMatchesEager(cs: seq<Chunk>, m: Media, read: Reader, limit: nat, items: seq<Item>, declared: nat)
    requires Honest(m, read) && Eager(cs, read, items, declared).Some? && limit <= MAX_ADDRESS + 1
    ensures OpenList(items).Some?
    ensures var list, size := OpenList(items).value, FileSize(items, declared);
            && |Eager(cs, read, items, declared).value| == size
            && (Consistent(cs, list) && OneOriginOn(cs, list, size) ==>
                  Eager(cs, read, items, declared).value == Content(LogicalMedia(cs, m), list, size))
            && (Consistent(cs, list) && Monotone(read, limit) && Steady(list) && InReach(cs, list, size, limit) ==>
                  PieceServes(Content(LogicalMedia(cs, m), list, size), Pieces(cs, read, list, size)))
  {
    hide Honest, Monotone, Eager, ItemExtent, Steady, Piece, Content, LogicalMedia, Consistent, ReadItem, OpenList,
         NotEmpty, Extents, PieceHonest, FileSize, OneOriginOn, InReach, RestFails, Overlay;
    EagerIsOverlay(cs, m, read, items, declared);
    EagerSize(cs, read, items, declared);
    var list, size := OpenList(items).value, FileSize(items, declared);
    var es := Extents(items);
    ListIsSame(cs, m, es, size);
    OverlayIsLogical(cs, es, size);
    if Consistent(cs, list) && Monotone(read, limit) && Steady(list) && InReach(cs, list, size, limit) {
      StreamingHonest(cs, m, read, list, size);
      forall o: nat, t: nat | 0 < t && o + t <= size ensures Piece(cs, read, list, size, o, t).Some? {
        ListReadable(cs, read, limit, items, size, o, t);
      }
    }
  }

  /** The eager reader can take an item: it is well formed, and its extent starts within reach. */
  predicate Readable(cs: seq<Chunk>, it: Item) {
    match ItemExtent(it)
    case None => false
    case Some(e) =>
      e.src.OnDisk? ==> Translate(cs, e.src.at).Some? && Translate(cs, e.src.at).value <= MAX_ADDRESS
  }

  lemma {:induction false} PerfectlyAssembled(cs: seq<Chunk>, m: Media, items: seq<Item>, out: bytes)
    ensures Assembled(cs, Perfect(m), items, out).Some? <==> forall it :: it in items ==> Readable(cs, it)
    decreases |items|
  {
    hide ItemExtent, Translate, Stored;
    if items != [] {
      var it := items[0];
      assert ReadItem(cs, Perfect(m), it).Some? <==> Readable(cs, it);
      if Readable(cs, it) {
        var d, pos := ReadItem(cs, Perfect(m), it).value, it.offset;
        var next := if pos >= |out| then out else Patch(out, pos, d[..Min(|d|, |out| - pos)]);
        PerfectlyAssembled(cs, m, items[1..], next);
        assert forall x :: x in items ==> x == it || x in items[1..];
      }
    }
  }

  /**
   * GetFile gives the content that is streamed, on every disk, exactly when it can take every item, the file
   * is within the limit, and the first and the last extent over each byte take it from the same place.
   */
  lemma EagerIsContent(cs: seq<Chunk>, items: seq<Item>, declared: nat)
    requires OpenList(items).Some? && Consistent(cs, OpenList(items).value)
    ensures var list, size := OpenList(items).value, FileSize(items, declared);
            (forall m: Media ::
               Eager(cs, Perfect(m), items, declared) == Some(Content(LogicalMedia(cs, m), list, size)))
            <==> ((forall it :: it in items ==> Readable(cs, it)) && size <= MAX_FILE_BYTES
                  && OneOriginOn(cs, list, size))
  {
    hide Assembled, Content, LogicalMedia, Consistent, OpenList, NotEmpty, Extents, FileSize, OneOriginOn, Overlay,
         Readable, ItemExtent, ReadItem;
    var list, size := OpenList(items).value, FileSize(items, declared);
    forall m: Media
      ensures Eager(cs, Perfect(m), items, declared).Some?
         <==> (forall it :: it in items ==> Readable(cs, it)) && size <= MAX_FILE_BYTES
    {
      PerfectlyAssembled(cs, m, items, Zeros(size));
    }
    if (forall it :: it in items ==> Readable(cs, it)) && size <= MAX_FILE_BYTES {
      EagerIsOverlay(cs, m => 0, Perfect(m => 0), items, declared);
      forall m: Media
        ensures Eager(cs, Perfect(m), items, declared) ==
                Some(Overlay(LogicalMedia(cs, m), Extents(items), Zeros(size)))
        ensures Content(LogicalMedia(cs, m), list, size) == Content(LogicalMedia(cs, m), Extents(items), size)
        ensures OneOriginOn(cs, list, size) <==> OneOriginOn(cs, Extents(items), size)
      {
        EagerIsOverlay(cs, m, Perfect(m), items, declared);
        ListIsSame(cs, m, Extents(items), size);
      }
      OverlayIsLogical(cs, Extents(items), size);
    } else {
      assert Eager(cs, Perfect(m => 0), items, declared) == None;
    }
  }

  /** Items in key order open as a list of extents in file order, in which what is found first stays. */
  lemma {:induction false} KeyOrderIsSteady(items: seq<Item>)
    requires OpenList(items).Some? && forall i, j :: 0 <= i < j < |items| ==> items[i].offset <= items[j].offset
    ensures Steady(OpenList(items).value)
  {
    hide Steady, OpenList;
    ListAscends(items);
    AscendingIsSteady(OpenList(items).value);
  }

  lemma {:induction false} ListAscends(items: seq<Item>)
    requires OpenList(items).Some? && forall i, j :: 0 <= i < j < |items| ==> items[i].offset <= items[j].offset
    ensures Ascending(OpenList(items).value)
    ensures forall e :: e in OpenList(items).value ==> items != [] && items[0].offset <= e.off
  {
    if items != [] {
      var rest := items[1..];
      assert forall i, j :: 0 <= i < j < |rest| ==> rest[i] == items[i + 1] && rest[j] == items[j + 1];
      ListAscends(rest);
      var list := OpenList(rest).value;
      if ListItem(items[0]).Kept? {
        var e := ListItem(items[0]).e;
        assert e.off == items[0].offset;
        forall i, j | 0 <= i < j < |[e] + list| ensures ([e] + list)[i].off <= ([e] + list)[j].off {
          assert list[j - 1] in list;
        }
      }
    }
  }

  /** On every disk all of the content can be streamed, exactly when all of it is in reach. */
  lemma AllServedInReach(cs: seq<Chunk>, items: seq<Item>, size: nat)
    requires OpenList(items).Some? && Steady(OpenList(items).value) && Consistent(cs, OpenList(items).value)
    ensures var list := OpenList(items).value;
            (forall m: Media ::
               PieceServes(Content(LogicalMedia(cs, m), list, size), Pieces(cs, Perfect(m), list, size)))
            <==> InReach(cs, list, size, MAX_ADDRESS + 1)
  {
    hide OpenList, Steady, Consistent, Content, LogicalMedia, Piece, RestFails, ByteInReach, PieceHonest;
    var list := OpenList(items).value;
    forall m: Media, o: nat, t: nat | 0 < t && o + t <= size
      ensures Piece(cs, Perfect(m), list, size, o, t) == None <==> !ByteInReach(cs, list, o, MAX_ADDRESS + 1)
    {
      StreamingHonest(cs, m, Perfect(m), list, size);
      PerfectlyStreamed(cs, m, items, o, t);
    }
    forall m: Media
      ensures PieceHonest(Content(LogicalMedia(cs, m), list, size), Pieces(cs, Perfect(m), list, size))
    {
      StreamingHonest(cs, m, Perfect(m), list, size);
    }
    if !InReach(cs, list, size, MAX_ADDRESS + 1) {
      var o :| 0 <= o < size && !ByteInReach(cs, list, o, MAX_ADDRESS + 1);
      var m: Media := x => 0;
      var piece := Pieces(cs, Perfect(m), list, size);
      assert piece(o, 1) == None;
      assert !PieceServes(Content(LogicalMedia(cs, m), list, size), piece);
    }
  }

  lemma PerfectlyStreamed(cs: seq<Chunk>, m: Media, items: seq<Item>, o: nat, t: nat)
    requires OpenList(items).Some? && 0 < t
    ensures RestFails(cs, Perfect(m), OpenList(items).value, o, t)
       <==> !ByteInReach(cs, OpenList(items).value, o, MAX_ADDRESS + 1)
  {
    hide OpenList, Translate, Stored, FirstAt;
  }

  lemma LogicalBounded(cs: seq<Chunk>, m: Media, read: Reader)
    requires Honest(m, read)
    ensures forall at: nat, n: nat :: LogicalRead(cs, read, at, n).Some? ==> |LogicalRead(cs, read, at, n).value| == n
  {
    hide Translate;
  }

  /**
   * Opening a file for streaming; refused exactly when an item is unsupported or the file too long.  Every read
   * of the result gives real bytes or an error, an error exactly where the medium cannot be read, and all of
   * GetFile's result when that succeeds, under the conditions above.
   */
  method OpenStream(cs: seq<Chunk>, ghost m: Media, ghost limit: nat, read: Reader, items: seq<Item>, declared: nat)
    returns (r: Option<StreamReader>)
    requires Honest(m, read) && limit <= MAX_ADDRESS + 1
    ensures r.Some? <==> OpenList(items).Some? && FileSize(items, declared) <= MAX_FILE_BYTES
    ensures r.Some? ==>
              && fresh(r.value) && r.value.size == FileSize(items, declared) && r.value.pos == 0
              && PieceBounded(r.value.size, r.value.piece)
              && r.value.piece == Pieces(cs, read, OpenList(items).value, FileSize(items, declared))
    ensures r.Some? ==>
              var list := OpenList(items).value;
              && (Steady(list) && Consistent(cs, list) ==>
                    PieceHonest(Content(LogicalMedia(cs, m), list, r.value.size), r.value.piece))
              && (forall o: nat, t: nat :: 0 < t && o + t <= r.value.size ==>
                    (r.value.piece(o, t) == None <==> RestFails(cs, read, list, o, t)))
    ensures r.Some? && Eager(cs, read, items, declared).Some? && Monotone(read, limit) ==>
              var list := OpenList(items).value;
              Steady(list) && Consistent(cs, list) && OneOriginOn(cs, list, r.value.size)
              && InReach(cs, list, r.value.size, limit) ==>
                PieceServes(Eager(cs, read, items, declared).value, r.value.piece)
  {
    hide SparsePiece, OpenList, MaxEnd, Steady, Consistent, Monotone, Eager, Honest, Content, PieceServes,
         PieceHonest, OneOriginOn, InReach, RestFails;
    var size := FileSize(items, declared);
    if size > MAX_FILE_BYTES { return None; }
    var list := OpenInode(items);
    if list.None? { return None; }
    var es := list.value;
    LogicalBounded(cs, m, read);
    forall o: nat, t: nat | 0 < t && o + t <= size
      ensures Piece(cs, read, es, size, o, t).Some? ==> 0 < |Piece(cs, read, es, size, o, t).value| <= t
    {
      PieceInBounds((a, n) => LogicalRead(cs, read, a, n), es, size, t + 1, size + 1, o, t);
    }
    var reader := new StreamReader(size, Pieces(cs, read, es, size));
    r := Some(reader);
    StreamingHonest(cs, m, read, es, size);
    if Eager(cs, read, items, declared).Some? { StreamingMatchesEager(cs, m, read, limit, items, declared); }
  }
}

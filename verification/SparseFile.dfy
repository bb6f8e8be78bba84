/**
 * Files made of extents over a medium, zero where no extent lies: what the eager readers assemble
 * and the streaming readers look up (XFS, Btrfs, APFS).
 */
module SparseFile {
  import opened Bytes
  import opened Streaming

  /** The bytes on the medium, by physical byte address. */
  type Media = nat -> byte

  /** Where an extent's bytes come from. */
  datatype Source = Inline(data: bytes) | Zero | OnDisk(at: nat)

  /** len bytes of the file from off on. */
  datatype Extent = Extent(off: nat, len: nat, src: Source) {
    predicate Covers(o: nat) { off <= o < off + len }

    ghost predicate Valid() { src.Inline? ==> |src.data| == len }
  }

  ghost predicate AllValid(es: seq<Extent>) {
    forall i :: 0 <= i < |es| ==> es[i].Valid()
  }

  /** n bytes of the medium from an address on. */
  function Stored(m: Media, at: nat, n: nat): (b: bytes)
    ensures |b| == n
  {
    seq<byte>(n, i requires 0 <= i < n => m(at + i))
  }

  function ExtentBytes(m: Media, e: Extent): (b: bytes)
    requires e.Valid()
    ensures |b| == e.len
  {
    match e.src case Inline(data) => data case Zero => Zeros(e.len) case OnDisk(at) => Stored(m, at, e.len)
  }

  lemma StoredPart(m: Media, at: nat, n: nat, a: nat, b: nat)
    requires a <= b <= n
    ensures Stored(m, at, n)[a..b] == Stored(m, at + a, b - a)
  {
    forall i | 0 <= i < b - a ensures Stored(m, at, n)[a..b][i] == Stored(m, at + a, b - a)[i] {
      assert at + (a + i) == (at + a) + i;
    }
  }

  lemma StoredJoin(m: Media, at: nat, a: nat, b: nat)
    ensures Stored(m, at, a) + Stored(m, at + a, b) == Stored(m, at, a + b)
  {
    StoredPart(m, at, a + b, 0, a);
    StoredPart(m, at, a + b, a, a + b);
    SliceJoin(Stored(m, at, a + b), 0, a, a + b);
  }

  // ------------------------------------------------------------ the content

  function FirstAt(es: seq<Extent>, o: nat): (r: Option<Extent>)
    ensures r.Some? ==> r.value in es && r.value.Covers(o)
    ensures r == None <==> forall e :: e in es ==> !e.Covers(o)
  {
    if es == [] then None else if es[0].Covers(o) then Some(es[0]) else FirstAt(es[1..], o)
  }

  function LastAt(es: seq<Extent>, o: nat): (r: Option<Extent>)
    ensures r.Some? ==> r.value in es && r.value.Covers(o)
    ensures r == None <==> forall e :: e in es ==> !e.Covers(o)
  {
    if es == [] then None
    else if LastAt(es[1..], o).Some? then LastAt(es[1..], o)
    else if es[0].Covers(o) then Some(es[0])
    else None
  }

  ghost predicate Disjoint(es: seq<Extent>) {
    forall i, j :: 0 <= i < j < |es| ==> es[i].off + es[i].len <= es[j].off || es[j].off + es[j].len <= es[i].off
  }

  function ByteAt(m: Media, e: Option<Extent>, o: nat): byte
    requires e.Some? ==> e.value.Valid() && e.value.Covers(o)
  {
    if e.None? then 0 else ExtentBytes(m, e.value)[o - e.value.off]
  }

  /** The bytes of the file: those of the extent there, or zero. */
  function Content(m: Media, es: seq<Extent>, size: nat): (b: bytes)
    requires AllValid(es)
    ensures |b| == size
  {
    seq<byte>(size, o requires 0 <= o < size => ValidAt(es, o); ByteAt(m, FirstAt(es, o), o))
  }

  lemma ValidAt(es: seq<Extent>, o: nat)
    requires AllValid(es)
    ensures FirstAt(es, o).Some? ==> FirstAt(es, o).value.Valid()
    ensures LastAt(es, o).Some? ==> LastAt(es, o).value.Valid()
  {
  }

  /** Extent i is the first one over a byte of the file. */
  ghost predicate FirstOver(es: seq<Extent>, i: nat, o: nat) {
    i < |es| && es[i].Covers(o) && forall j :: 0 <= j < i ==> !es[j].Covers(o)
  }

  lemma {:induction false} FirstIs(es: seq<Extent>, i: nat, o: nat)
    requires FirstOver(es, i, o)
    ensures FirstAt(es, o) == Some(es[i])
    decreases |es|
  {
    if i > 0 { FirstIs(es[1..], i - 1, o); }
  }

  /** A byte of the content whose first extent is on disk is the medium's, as far into the extent. */
  lemma PlacedByte(m: Media, es: seq<Extent>, size: nat, i: nat, o: nat)
    requires AllValid(es) && FirstOver(es, i, o) && o < size && es[i].src.OnDisk?
    ensures Content(m, es, size)[o] == m(es[i].src.at + (o - es[i].off))
  {
    FirstIs(es, i, o);
    ContentAt(m, es, size, o);
  }

  lemma OnlyOneCovers(es: seq<Extent>, a: Extent, b: Extent, o: nat)
    requires Disjoint(es) && a in es && b in es && a.Covers(o) && b.Covers(o)
    ensures a == b
  {
    var i :| 0 <= i < |es| && es[i] == a;
    var j :| 0 <= j < |es| && es[j] == b;
    if i < j { assert false; } else if j < i { assert false; }
  }

  // ------------------------------------------------------------ where a byte comes from

  /** A byte of the file is fixed by the extent list, or is the medium's at a place. */
  datatype Origin = Fixed(value: byte) | Place(at: nat)

  function OriginOf(e: Option<Extent>, o: nat): Origin
    requires e.Some? ==> e.value.Valid() && e.value.Covers(o)
  {
    match e
    case None => Fixed(0)
    case Some(x) =>
      match x.src
      case Inline(data) => Fixed(data[o - x.off])
      case Zero => Fixed(0)
      case OnDisk(at) => Place(at + (o - x.off))
  }

  /** Where byte o comes from when the first, or the last, extent over it counts. */
  function FirstOrigin(es: seq<Extent>, o: nat): Origin
    requires AllValid(es)
  {
    ValidAt(es, o);
    OriginOf(FirstAt(es, o), o)
  }

  function LastOrigin(es: seq<Extent>, o: nat): Origin
    requires AllValid(es)
  {
    ValidAt(es, o);
    OriginOf(LastAt(es, o), o)
  }

  function OriginByte(m: Media, w: Origin): byte {
    match w case Fixed(v) => v case Place(at) => m(at)
  }

  lemma ByteFromOrigin(m: Media, e: Option<Extent>, o: nat)
    requires e.Some? ==> e.value.Valid() && e.value.Covers(o)
    ensures ByteAt(m, e, o) == OriginByte(m, OriginOf(e, o))
  {
  }

  /** Some disk tells two origins apart. */
  lemma Distinguished(a: Origin, b: Origin) returns (m: Media)
    ensures a != b ==> OriginByte(m, a) != OriginByte(m, b)
  {
    var place, other := if a.Place? then a else b, if a.Place? then b else a;
    var mark: byte := if other == Fixed(1) then 0 else 1;
    m := (x: nat) => if place == Place(x) then mark else 0;
  }

  /** However many extents lie over a byte of the file, the first and the last take it from the same place. */
  ghost predicate OneOrigin(es: seq<Extent>, size: nat)
    requires AllValid(es)
  {
    forall o :: 0 <= o < size ==> FirstOrigin(es, o) == LastOrigin(es, o)
  }

  /** The extent found at an offset is the one found up to its end. */
  ghost predicate Steady(es: seq<Extent>) {
    forall o: nat, j: nat :: FirstAt(es, o).Some? && o <= j && FirstAt(es, o).value.Covers(j) ==>
      FirstAt(es, j) == FirstAt(es, o)
  }

  /** Extents in the order of their offsets, as a tree of keys lists them. */
  ghost predicate Ascending(es: seq<Extent>) {
    forall i, j :: 0 <= i < j < |es| ==> es[i].off <= es[j].off
  }

  lemma AscendingIsSteady(es: seq<Extent>)
    requires Ascending(es)
    ensures Steady(es)
  {
    forall o: nat, j: nat | FirstAt(es, o).Some? && o <= j && FirstAt(es, o).value.Covers(j)
      ensures FirstAt(es, j) == FirstAt(es, o)
    {
      FirstStays(es, o, j);
    }
  }

  lemma {:induction false} FirstStays(es: seq<Extent>, o: nat, j: nat)
    requires Ascending(es) && FirstAt(es, o).Some? && o <= j && FirstAt(es, o).value.Covers(j)
    ensures FirstAt(es, j) == FirstAt(es, o)
  {
    if !es[0].Covers(o) {
      var i :| 0 <= i < |es| && es[i] == FirstAt(es, o).value;
      assert es[0].off <= es[i].off <= o;
      FirstStays(es[1..], o, j);
    }
  }

  lemma DisjointIsSteady(es: seq<Extent>)
    requires Disjoint(es)
    ensures Steady(es)
  {
    hide Disjoint;
    forall o: nat, j: nat | FirstAt(es, o).Some? && o <= j && FirstAt(es, o).value.Covers(j)
      ensures FirstAt(es, j) == FirstAt(es, o)
    {
      OnlyOneCovers(es, FirstAt(es, o).value, FirstAt(es, j).value, j);
    }
  }

  lemma DisjointHasOneOrigin(es: seq<Extent>, size: nat)
    requires AllValid(es) && Disjoint(es)
    ensures OneOrigin(es, size)
  {
    hide Disjoint, AllValid;
    forall o | 0 <= o < size ensures FirstOrigin(es, o) == LastOrigin(es, o) {
      if FirstAt(es, o).Some? { OnlyOneCovers(es, FirstAt(es, o).value, LastAt(es, o).value, o); }
    }
  }

  // ------------------------------------------------------------ assembling at once

  /** An extent's bytes copied into a buffer, as far as they fit. */
  function Overlaid(m: Media, e: Extent, out: bytes): (r: bytes)
    requires e.Valid()
    ensures |r| == |out|
  {
    if e.off >= |out| then out else Patch(out, e.off, ExtentBytes(m, e)[..Min(e.len, |out| - e.off)])
  }

  function Overlay(m: Media, es: seq<Extent>, out: bytes): (r: bytes)
    requires AllValid(es)
    ensures |r| == |out|
    decreases |es|
  {
    if es == [] then out else Overlay(m, es[1..], Overlaid(m, es[0], out))
  }

  lemma OverlaidByte(m: Media, e: Extent, out: bytes, o: nat)
    requires e.Valid() && o < |out|
    ensures Overlaid(m, e, out)[o] == if e.Covers(o) then ExtentBytes(m, e)[o - e.off] else out[o]
  {
    hide ExtentBytes;
    if e.off < |out| {
      var p := ExtentBytes(m, e)[..Min(e.len, |out| - e.off)];
      var r := Patch(out, e.off, p);
      if e.Covers(o) {
        assert r[o] == r[e.off..e.off + |p|][o - e.off];
      } else if o < e.off {
        assert r[o] == r[..e.off][o];
      } else {
        assert r[o] == r[e.off + |p|..][o - e.off - |p|];
      }
    }
  }

  /** Copying extent after extent leaves the last one's byte where several lie. */
  lemma {:induction false} OverlayByte(m: Media, es: seq<Extent>, out: bytes, o: nat)
    requires AllValid(es) && o < |out|
    ensures var e := LastAt(es, o);
            e.Some? ==> e.value.Valid()
    ensures Overlay(m, es, out)[o] == if LastAt(es, o).Some? then ByteAt(m, LastAt(es, o), o) else out[o]
    decreases |es|
  {
    hide ExtentBytes, Overlaid;
    ValidAt(es, o);
    if es != [] {
      OverlaidByte(m, es[0], out, o);
      OverlayByte(m, es[1..], Overlaid(m, es[0], out), o);
    }
  }

  /** On one disk the assembled file is its content exactly when the last extent gives each byte as the first does. */
  lemma OverlayOnDisk(m: Media, es: seq<Extent>, size: nat)
    requires AllValid(es)
    ensures Overlay(m, es, Zeros(size)) == Content(m, es, size)
       <==> forall o :: 0 <= o < size ==> OriginByte(m, FirstOrigin(es, o)) == OriginByte(m, LastOrigin(es, o))
  {
    hide ExtentBytes, Overlay, Content, OriginOf, OriginByte;
    var x, y := Overlay(m, es, Zeros(size)), Content(m, es, size);
    forall o | 0 <= o < size
      ensures x[o] == OriginByte(m, LastOrigin(es, o)) && y[o] == OriginByte(m, FirstOrigin(es, o))
    {
      OverlayByte(m, es, Zeros(size), o);
      ContentAt(m, es, size, o);
      ValidAt(es, o);
      ByteFromOrigin(m, LastAt(es, o), o);
      ByteFromOrigin(m, FirstAt(es, o), o);
    }
    assert x == y <==> forall o :: 0 <= o < size ==> x[o] == y[o];
  }

  /** It is that on every disk exactly when first and last extent take each byte from the same place. */
  lemma OverlayIsContent(es: seq<Extent>, size: nat)
    requires AllValid(es)
    ensures (forall m: Media :: Overlay(m, es, Zeros(size)) == Content(m, es, size)) <==> OneOrigin(es, size)
  {
    hide Overlay, Content, FirstOrigin, LastOrigin;
    if OneOrigin(es, size) {
      forall m: Media ensures Overlay(m, es, Zeros(size)) == Content(m, es, size) { OverlayOnDisk(m, es, size); }
    } else {
      var o :| 0 <= o < size && FirstOrigin(es, o) != LastOrigin(es, o);
      var m := Distinguished(FirstOrigin(es, o), LastOrigin(es, o));
      OverlayOnDisk(m, es, size);
    }
  }

  // ------------------------------------------------------------ pieces

  /** Where the next extent after o starts, or limit if none starts before it. */
  function NextStart(es: seq<Extent>, o: nat, limit: nat): (r: nat)
    ensures r <= limit && (o < limit ==> o < r)
    ensures forall e :: e in es ==> !(o < e.off < r)
  {
    if es == [] then limit
    else
      var rest := NextStart(es[1..], o, limit);
      if o < es[0].off < rest then es[0].off else rest
  }

  /** No extent at o and none starting before the end of the stretch: it is all zeros. */
  lemma HoleReadsZero(m: Media, es: seq<Extent>, size: nat, o: nat, n: nat)
    requires AllValid(es) && o + n <= size && FirstAt(es, o) == None
    requires forall e :: e in es ==> !(o < e.off < o + n)
    ensures Content(m, es, size)[o..o + n] == Zeros(n)
  {
    hide ExtentBytes, Content;
    forall j | o <= j < o + n ensures Content(m, es, size)[j] == 0 {
      ContentAt(m, es, size, j);
      NothingCovers(es, o, o + n, j);
    }
    SameStretch(Content(m, es, size), Zeros(n), o, 0, n);
  }

  lemma ContentAt(m: Media, es: seq<Extent>, size: nat, o: nat)
    requires AllValid(es) && o < size
    ensures FirstAt(es, o).Some? ==> FirstAt(es, o).value.Valid()
    ensures Content(m, es, size)[o] == ByteAt(m, FirstAt(es, o), o)
  {
    hide ExtentBytes;
    ValidAt(es, o);
  }

  lemma NothingCovers(es: seq<Extent>, o: nat, end: nat, j: nat)
    requires FirstAt(es, o) == None && o <= j < end && forall e :: e in es ==> !(o < e.off < end)
    ensures FirstAt(es, j) == None
  {
    forall e | e in es ensures !e.Covers(j) { assert !e.Covers(o); }
  }

  lemma SameStretch(a: bytes, b: bytes, o: nat, w: nat, n: nat)
    requires o + n <= |a| && w + n <= |b| && forall j :: o <= j < o + n ==> a[j] == b[j - o + w]
    ensures a[o..o + n] == b[w..w + n]
  {
  }

  /** A stretch over which the extent found at its start is found is that extent's. */
  lemma DataReadsExtent(m: Media, es: seq<Extent>, size: nat, o: nat, n: nat)
    requires AllValid(es) && o + n <= size && FirstAt(es, o).Some?
    requires o + n <= FirstAt(es, o).value.off + FirstAt(es, o).value.len
    requires forall j :: o <= j < o + n ==> FirstAt(es, j) == FirstAt(es, o)
    ensures FirstAt(es, o).value.Valid()
    ensures var e := FirstAt(es, o).value;
            Content(m, es, size)[o..o + n] == ExtentBytes(m, e)[o - e.off..o - e.off + n]
  {
    hide ExtentBytes, Content;
    var e := FirstAt(es, o).value;
    ValidAt(es, o);
    forall j | o <= j < o + n ensures Content(m, es, size)[j] == ExtentBytes(m, e)[j - o + (o - e.off)] {
      ContentAt(m, es, size, j);
    }
    SameStretch(Content(m, es, size), ExtentBytes(m, e), o, o - e.off, n);
  }

  // ------------------------------------------------------------ reading the medium

  /** Reading by byte range, which block reads come down to. */
  type Reader = (nat, nat) -> Option<bytes>

  /** A byte-range reader that gives what is on the medium, or fails. */
  ghost predicate Honest(m: Media, read: Reader) {
    forall at: nat, n: nat :: read(at, n).Some? ==> read(at, n).value == Stored(m, at, n)
  }

  /** A reader that can read all of the medium. */
  function Perfect(m: Media): Reader { (at: nat, n: nat) => Some(Stored(m, at, n)) }

  /** A range that can be read can be read in part, from any place in it that lies below a limit. */
  ghost predicate Monotone(read: Reader, limit: nat) {
    forall at: nat, n: nat, b: nat, k: nat ::
      read(at, n).Some? && 0 < k && at <= b && b + k <= at + n && b < limit ==> read(b, k).Some?
  }

  /** A range of the medium that lies inside an extent stored there. */
  ghost predicate Inside(es: seq<Extent>, at: nat, n: nat) {
    exists e :: e in es && e.src.OnDisk? && e.src.at <= at && at + n <= e.src.at + e.len
  }

  /** Honest for the ranges inside some extents only. */
  ghost predicate HonestOn(m: Media, read: Reader, es: seq<Extent>) {
    forall at: nat, n: nat :: read(at, n).Some? && Inside(es, at, n) ==> read(at, n).value == Stored(m, at, n)
  }

  /** Nothing for nothing; starts past maxAt and lengths past maxLen are refused. */
  function Limited(read: Reader, maxAt: nat, maxLen: nat): Reader {
    (at: nat, n: nat) => if n == 0 then Some([]) else if at > maxAt || n > maxLen then None else read(at, n)
  }

  lemma LimitedHonest(m: Media, read: Reader, maxAt: nat, maxLen: nat)
    requires Honest(m, read)
    ensures Honest(m, Limited(read, maxAt, maxLen))
  {
    forall at: nat | true ensures Stored(m, at, 0) == [] { }
  }

  lemma HonestEverywhere(m: Media, read: Reader, es: seq<Extent>)
    requires Honest(m, read)
    ensures HonestOn(m, read, es)
  {
    hide Stored, Inside;
  }

  /** The piece at offset o when pieces inside extents are cut to at most cap bytes and holes to hole bytes. */
  function SparsePiece(read: Reader, es: seq<Extent>, size: nat, cap: nat, hole: nat, o: nat, t: nat): Option<bytes> {
    match FirstAt(es, o)
    case None => if o >= size then None else Some(Zeros(Min(Min(NextStart(es, o, size) - o, t), hole)))
    case Some(e) =>
      var within := o - e.off;
      var n: nat := Min(Min(e.len - within, t), cap);
      match e.src
      case Inline(data) => if within + n > |data| then None else Some(data[within..within + n])
      case Zero => Some(Zeros(n))
      case OnDisk(at) => read(at + within, n)
  }

  /** Whatever the cut, such a piece is a piece of the content. */
  lemma PieceIsContent(m: Media, read: Reader, es: seq<Extent>, size: nat, cap: nat, hole: nat, o: nat, t: nat)
    requires AllValid(es) && Steady(es) && HonestOn(m, read, es) && 0 < t && o + t <= size && cap > 0 && hole > 0
    ensures var p := SparsePiece(read, es, size, cap, hole, o, t);
            p.Some? ==> 0 < |p.value| <= t && p.value == Content(m, es, size)[o..o + |p.value|]
  {
    hide Content, FirstAt, NextStart, Stored, AllValid, ExtentBytes, HonestOn;
    match FirstAt(es, o) {
      case None =>
        HoleReadsZero(m, es, size, o, Min(Min(NextStart(es, o, size) - o, t), hole));
      case Some(e) =>
        ValidAt(es, o);
        var n := Min(Min(e.len - (o - e.off), t), cap);
        DataReadsExtent(m, es, size, o, n);
        PartOfExtent(m, e, o - e.off, n);
        if e.src.OnDisk? { ReadsInside(m, read, es, e, o - e.off, n); }
    }
  }

  lemma ReadsInside(m: Media, read: Reader, es: seq<Extent>, e: Extent, w: nat, n: nat)
    requires HonestOn(m, read, es) && e in es && e.src.OnDisk? && w + n <= e.len
    ensures read(e.src.at + w, n).Some? ==> read(e.src.at + w, n).value == Stored(m, e.src.at + w, n)
  {
    hide Stored;
    assert Inside(es, e.src.at + w, n);
  }

  /** A piece fails exactly where the medium cannot be read in its place. */
  lemma PieceFails(read: Reader, es: seq<Extent>, size: nat, cap: nat, hole: nat, o: nat, t: nat)
    requires AllValid(es) && 0 < t && o + t <= size && cap > 0
    ensures SparsePiece(read, es, size, cap, hole, o, t) == None <==> RangeFails(read, es, cap, o, t)
  {
    hide FirstAt, NextStart;
    ValidAt(es, o);
  }

  /** The stretch of an extent on the medium that a read at o is cut to cannot be read. */
  predicate RangeFails(read: Reader, es: seq<Extent>, cap: nat, o: nat, t: nat) {
    match FirstAt(es, o)
    case None => false
    case Some(e) => e.src.OnDisk? && read(e.src.at + (o - e.off), Min(Min(e.len - (o - e.off), t), cap)) == None
  }

  lemma ReadsStored(m: Media, read: Reader, at: nat, n: nat)
    requires Honest(m, read)
    ensures read(at, n).Some? ==> read(at, n).value == Stored(m, at, n)
  {
  }

  lemma PartOfExtent(m: Media, e: Extent, within: nat, n: nat)
    requires e.Valid() && within + n <= e.len
    ensures ExtentBytes(m, e)[within..within + n] ==
            match e.src
            case Inline(data) => data[within..within + n]
            case Zero => Zeros(n)
            case OnDisk(at) => Stored(m, at + within, n)
  {
    if e.src.OnDisk? { StoredPart(m, e.src.at, e.len, within, within + n); }
  }

  // ------------------------------------------------------------ reading by blocks

  /** Reading inside one block: the whole block is fetched and sliced. */
  function InBlock(read: Reader, bs: nat, at: nat, n: nat): Option<bytes>
    requires bs > 0
  {
    if at % bs + n > bs then None
    else
      match read(at / bs * bs, bs)
      case None => None
      case Some(d) => if |d| < bs then None else Some(d[at % bs..at % bs + n])
  }

  lemma InBlockHonest(m: Media, read: Reader, bs: nat)
    requires bs > 0 && Honest(m, read)
    ensures Honest(m, (at, n) => InBlock(read, bs, at, n))
  {
    hide Stored, Honest;
    forall at: nat, n: nat | InBlock(read, bs, at, n).Some? ensures InBlock(read, bs, at, n).value == Stored(m, at, n) {
      ReadsStored(m, read, at / bs * bs, bs);
      StoredPart(m, at / bs * bs, bs, at % bs, at % bs + n);
      assert at == at / bs * bs + at % bs;
    }
    assert Honest(m, (at, n) => InBlock(read, bs, at, n)) by { HonestByParts(m, (at, n) => InBlock(read, bs, at, n)); }
  }

  /** Inside a block, a read fails exactly when the block's does. */
  lemma InBlockFails(m: Media, read: Reader, bs: nat, at: nat, n: nat, within: nat)
    requires bs > 0 && Honest(m, read) && within == at % bs && within + n <= bs
    ensures InBlock(read, bs, at, n) == None <==> read(at / bs * bs, bs) == None
  {
    hide Stored, Honest;
    ReadsStored(m, read, at / bs * bs, bs);
  }

  lemma HonestByParts(m: Media, read: Reader)
    requires forall at: nat, n: nat :: read(at, n).Some? ==> read(at, n).value == Stored(m, at, n)
    ensures Honest(m, read)
  {
    hide Stored;
  }

  lemma AddressInBlock(bs: nat, paddr: nat, within: nat)
    requires bs > 0
    ensures (paddr * bs + within) / bs == paddr + within / bs && (paddr * bs + within) % bs == within % bs
  {
    assert within == within / bs * bs + within % bs;
    MulAdd(paddr, within / bs, bs);
    DivModUnique(paddr * bs + within, bs, paddr + within / bs, within % bs);
  }

  /** With reads of exact length, pieces stay within bounds. */
  lemma PieceInBounds(read: Reader, es: seq<Extent>, size: nat, cap: nat, hole: nat, o: nat, t: nat)
    requires (forall at: nat, n: nat :: read(at, n).Some? ==> |read(at, n).value| == n) && cap > 0 && hole > 0 && 0 < t
             && o + t <= size
    ensures var p := SparsePiece(read, es, size, cap, hole, o, t); p.Some? ==> 0 < |p.value| <= t
  {
  }
}

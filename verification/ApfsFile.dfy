/**
 * APFS data streams (internal/filesystem/apfs): extents assembled block batch by block batch,
 * against the streaming reader that goes block by block.
 */
module ApfsFile {
  import opened Bytes
  import opened Streaming
  import opened SparseFile

  const MAX_FILE_BYTES: nat := 0x100_0000_0000   // 1 << 40
  const MAX_BATCH: nat := 0x1_0000               // blocks read at once

  /** A FILE_EXTENT record: byte offset and length in the file, and the first block on disk. */
  datatype FileExtent = FileExtent(laddr: nat, length: nat, paddr: nat)

  function AsExtent(bs: nat, x: FileExtent): (e: Extent)
    ensures e.Valid()
  {
    Extent(x.laddr, x.length, OnDisk(x.paddr * bs))
  }

  function AsExtents(bs: nat, xs: seq<FileExtent>): (es: seq<Extent>)
    ensures |es| == |xs| && AllValid(es)
  {
    if xs == [] then [] else [AsExtent(bs, xs[0])] + AsExtents(bs, xs[1..])
  }

  lemma {:induction false} AsExtentsAt(bs: nat, xs: seq<FileExtent>, i: nat)
    requires i < |xs|
    ensures AsExtents(bs, xs)[i] == AsExtent(bs, xs[i])
  {
    if i > 0 { AsExtentsAt(bs, xs[1..], i - 1); }
  }

  /** Record i is the first one over a byte of the file. */
  ghost predicate FirstRecord(xs: seq<FileExtent>, i: nat, o: nat) {
    && i < |xs| && xs[i].laddr <= o < xs[i].laddr + xs[i].length
    && forall j :: 0 <= j < i ==> !(xs[j].laddr <= o < xs[j].laddr + xs[j].length)
  }

  /** Byte o of a file is byte o - laddr from block paddr of the disk on. */
  lemma ByteOfFile(m: Media, bs: nat, xs: seq<FileExtent>, size: nat, i: nat, o: nat)
    requires FirstRecord(xs, i, o) && o < size
    ensures Content(m, AsExtents(bs, xs), size)[o] == m(xs[i].paddr * bs + (o - xs[i].laddr))
  {
    hide AsExtents, Content;
    forall j | 0 <= j <= i ensures AsExtents(bs, xs)[j] == AsExtent(bs, xs[j]) { AsExtentsAt(bs, xs, j); }
    PlacedByte(m, AsExtents(bs, xs), size, i, o);
  }

  // ------------------------------------------------------------ the eager reader

  function BatchBlocks(bs: nat, remaining: nat): (n: nat)
    requires bs > 0
    ensures remaining > 0 ==> n > 0
  {
    assert remaining == remaining / bs * bs + remaining % bs;
    Min(remaining / bs + if remaining % bs != 0 then 1 else 0, MAX_BATCH)
  }

  /** The first remaining bytes of an extent, batch after batch; None for a failed read. */
  function ReadBatches(read: Reader, bs: nat, paddr: nat, remaining: nat): Option<bytes>
    requires bs > 0
    decreases remaining
  {
    if remaining == 0 then Some([])
    else
      var n := BatchBlocks(bs, remaining);
      var take: nat := Min(n * bs, remaining);
      MulLe(1, n, bs);
      match read(paddr * bs, n * bs)
      case None => None
      case Some(d) => if |d| < take then None else Behind(d[..take], ReadBatches(read, bs, paddr + n, remaining - take))
  }

  /** apfsReadStream's loop over the extents; None for a failed read. */
  function Assembled(read: Reader, bs: nat, xs: seq<FileExtent>, out: bytes): (r: Option<bytes>)
    requires bs > 0
    ensures r.Some? ==> |r.value| == |out|
    decreases |xs|
  {
    if xs == [] then Some(out)
    else if xs[0].laddr >= |out| then Assembled(read, bs, xs[1..], out)
    else
      var n := Min(xs[0].length, |out| - xs[0].laddr);
      match ReadBatches(read, bs, xs[0].paddr, n)
      case None => None
      case Some(d) => if |d| != n then None else Assembled(read, bs, xs[1..], Patch(out, xs[0].laddr, d))
  }

  /** apfsReadStream; None is any error. */
  function Eager(read: Reader, bs: nat, xs: seq<FileExtent>, size: nat): Option<bytes>
    requires bs > 0
  {
    if size > MAX_FILE_BYTES then None else Assembled(read, bs, xs, Zeros(size))
  }

  /** A successful batch read gives the bytes on the medium, and every block it needed can be read. */
  lemma {:induction false} BatchesGiveStored(m: Media, read: Reader, bs: nat, paddr: nat, remaining: nat)
    requires bs > 0 && Honest(m, read) && ReadBatches(read, bs, paddr, remaining).Some?
    ensures ReadBatches(read, bs, paddr, remaining).value == Stored(m, paddr * bs, remaining)
    decreases remaining
  {
    hide Honest, Stored, BatchBlocks;
    if remaining > 0 {
      var n := BatchBlocks(bs, remaining);
      MulLe(1, n, bs);
      var take: nat := Min(n * bs, remaining);
      ReadsStored(m, read, paddr * bs, n * bs);
      StoredPart(m, paddr * bs, n * bs, 0, take);
      MulAdd(paddr, n, bs);
      if take < remaining {
        BatchesGiveStored(m, read, bs, paddr + n, remaining - take);
        StoredJoin(m, paddr * bs, take, remaining - take);
      } else {
        assert Stored(m, paddr * bs, n * bs)[..take] + [] == Stored(m, paddr * bs, n * bs)[..take];
      }
    } else {
      assert Stored(m, paddr * bs, 0) == [];
    }
  }

  lemma {:induction false} BatchesReadBlocks(read: Reader, limit: nat, bs: nat, paddr: nat, remaining: nat, b: nat)
    requires bs > 0 && Monotone(read, limit) && ReadBatches(read, bs, paddr, remaining).Some? && b * bs < remaining
    requires (paddr + b) * bs < limit
    ensures read((paddr + b) * bs, bs).Some?
    decreases remaining
  {
    hide Monotone;
    var n := BatchBlocks(bs, remaining);
    MulLe(1, n, bs);
    var take: nat := Min(n * bs, remaining);
    if b < n {
      MulAdd(paddr, b, bs);
      MulLe(b + 1, n, bs);
      MulAdd(b, 1, bs);
      MulLe(0, b, bs);
      PartReads(read, limit, paddr * bs, n * bs, (paddr + b) * bs, bs);
    } else {
      MulLe(n, b, bs);
      MulAdd(b - n, n, bs);
      assert paddr + n + (b - n) == paddr + b;
      BatchesReadBlocks(read, limit, bs, paddr + n, remaining - take, b - n);
    }
  }

  lemma PartReads(read: Reader, limit: nat, at: nat, n: nat, b: nat, k: nat)
    requires Monotone(read, limit) && read(at, n).Some? && 0 < k && at <= b && b + k <= at + n && b < limit
    ensures read(b, k).Some?
  {
  }

  /** What assembling gives is the overlay of the extents. */
  lemma {:induction false} AssembledIsOverlay(m: Media, read: Reader, bs: nat, xs: seq<FileExtent>, out: bytes)
    requires bs > 0 && Honest(m, read) && Assembled(read, bs, xs, out).Some?
    ensures Assembled(read, bs, xs, out).value == Overlay(m, AsExtents(bs, xs), out)
    decreases |xs|
  {
    hide Honest, ReadBatches, Stored, Overlaid;
    if xs != [] {
      var x, es := xs[0], AsExtents(bs, xs);
      assert es[0] == AsExtent(bs, x) && es[1..] == AsExtents(bs, xs[1..]);
      OverlaidOnDisk(m, bs, x, out);
      if x.laddr >= |out| {
        AssembledIsOverlay(m, read, bs, xs[1..], out);
      } else {
        var n := Min(x.length, |out| - x.laddr);
        BatchesGiveStored(m, read, bs, x.paddr, n);
        AssembledIsOverlay(m, read, bs, xs[1..], Patch(out, x.laddr, Stored(m, x.paddr * bs, n)));
      }
    }
  }

  lemma OverlaidOnDisk(m: Media, bs: nat, x: FileExtent, out: bytes)
    ensures Overlaid(m, AsExtent(bs, x), out) ==
            if x.laddr >= |out| then out
            else Patch(out, x.laddr, Stored(m, x.paddr * bs, Min(x.length, |out| - x.laddr)))
  {
    hide Stored;
    if x.laddr < |out| { StoredPart(m, x.paddr * bs, x.length, 0, Min(x.length, |out| - x.laddr)); }
  }

  /** The blocks of extent x that lie inside a file of this size. */
  ghost predicate BlocksReadable(read: Reader, bs: nat, x: FileExtent, size: nat) {
    forall b: nat :: b * bs < x.length && x.laddr + b * bs < size ==> read((x.paddr + b) * bs, bs).Some?
  }

  /** And those blocks start below a limit. */
  ghost predicate BlocksBelow(bs: nat, x: FileExtent, size: nat, limit: nat) {
    forall b: nat :: InFile(bs, x, size, b) ==> (x.paddr + b) * bs < limit
  }

  predicate InFile(bs: nat, x: FileExtent, size: nat, b: nat) { b * bs < x.length && x.laddr + b * bs < size }

  lemma {:induction false} AssembledReadsBlocks(read: Reader, limit: nat, bs: nat, xs: seq<FileExtent>, out: bytes)
    requires bs > 0 && Monotone(read, limit) && Assembled(read, bs, xs, out).Some?
    requires forall x :: x in xs ==> BlocksBelow(bs, x, |out|, limit)
    ensures forall x :: x in xs ==> BlocksReadable(read, bs, x, |out|)
    decreases |xs|
  {
    hide Monotone, ReadBatches, BlocksBelow;
    if xs != [] {
      var x := xs[0];
      if x.laddr < |out| {
        var n := Min(x.length, |out| - x.laddr);
        var d := ReadBatches(read, bs, x.paddr, n).value;
        forall b: nat | b * bs < x.length && x.laddr + b * bs < |out| ensures read((x.paddr + b) * bs, bs).Some? {
          BlockBelow(bs, x, |out|, limit, b);
          BatchesReadBlocks(read, limit, bs, x.paddr, n, b);
        }
        AssembledReadsBlocks(read, limit, bs, xs[1..], Patch(out, x.laddr, d));
      } else {
        assert BlocksReadable(read, bs, x, |out|) by { NothingInside(read, bs, x, |out|); }
        AssembledReadsBlocks(read, limit, bs, xs[1..], out);
      }
    }
  }

  lemma BlockBelow(bs: nat, x: FileExtent, size: nat, limit: nat, b: nat)
    requires BlocksBelow(bs, x, size, limit) && b * bs < x.length && x.laddr + b * bs < size
    ensures (x.paddr + b) * bs < limit
  {
    assert InFile(bs, x, size, b);
  }

  lemma NothingInside(read: Reader, bs: nat, x: FileExtent, size: nat)
    requires x.laddr >= size
    ensures BlocksReadable(read, bs, x, size)
  {
    forall b: nat | b * bs < x.length && x.laddr + b * bs < size ensures false { MulLe(0, b, bs); }
  }

  /** apfsReadStream, in place. */
  method ReadStream(read: Reader, bs: nat, xs: seq<FileExtent>, size: nat) returns (r: Option<bytes>)
    requires bs > 0
    ensures r == Eager(read, bs, xs, size)
  {
    hide ReadBatches, Assembled;
    if size > MAX_FILE_BYTES { return None; }
    var out := new byte[size](_ => 0);
    assert out[..] == Zeros(size) && xs[0..] == xs;
    for i := 0 to |xs|
      invariant Eager(read, bs, xs, size) == Assembled(read, bs, xs[i..], out[..])
    {
      OneAssembled(read, bs, xs, i, out[..]);
      if xs[i].laddr < size {
        var n := Min(xs[i].length, size - xs[i].laddr);
        var d := ReadExtent(read, bs, xs[i].paddr, n);
        if d.None? || |d.value| != n { return None; }
        CopyInto(out, xs[i].laddr, d.value);
      }
    }
    NoneAssembled(read, bs, xs, out[..]);
    r := Some(out[..]);
  }

  lemma OneAssembled(read: Reader, bs: nat, xs: seq<FileExtent>, i: nat, out: bytes)
    requires bs > 0 && i < |xs|
    ensures Assembled(read, bs, xs[i..], out) ==
            if xs[i].laddr >= |out| then Assembled(read, bs, xs[i + 1..], out)
            else
              var n := Min(xs[i].length, |out| - xs[i].laddr);
              match ReadBatches(read, bs, xs[i].paddr, n)
              case None => None
              case Some(d) =>
                if |d| != n then None else Assembled(read, bs, xs[i + 1..], Patch(out, xs[i].laddr, d))
  {
    hide ReadBatches, Patch;
    assert xs[i..][1..] == xs[i + 1..];
  }

  lemma NoneAssembled(read: Reader, bs: nat, xs: seq<FileExtent>, out: bytes)
    requires bs > 0
    ensures Assembled(read, bs, xs[|xs|..], out) == Some(out)
  {
  }

  /** One extent, batch by batch. */
  method ReadExtent(read: Reader, bs: nat, paddr: nat, n: nat) returns (r: Option<bytes>)
    requires bs > 0
    ensures r == ReadBatches(read, bs, paddr, n)
  {
    var remaining, at, out: bytes := n, paddr, [];
    BehindNothing(ReadBatches(read, bs, paddr, n));
    while remaining > 0
      invariant remaining >= 0 && at >= 0
      invariant ReadBatches(read, bs, paddr, n) == Behind(out, ReadBatches(read, bs, at, remaining))
    {
      var blocks := BatchBlocks(bs, remaining);
      MulLe(1, blocks, bs);
      var take := Min(blocks * bs, remaining);
      var data := read(at * bs, blocks * bs);
      if data.None? || |data.value| < take { return None; }
      BehindTwice(out, data.value[..take], ReadBatches(read, bs, at + blocks, remaining - take));
      out := out + data.value[..take];
      at, remaining := at + blocks, remaining - take;
    }
    assert out + [] == out;
    r := Some(out);
  }

  lemma BehindTwice(a: bytes, b: bytes, rest: Option<bytes>)
    ensures Behind(a, Behind(b, rest)) == Behind(a + b, rest)
  {
    if rest.Some? { AppendAssoc(a, b, rest.value); }
  }

  // ------------------------------------------------------------ the streaming reader

  /** The piece copied at offset o: to the end of a block inside an extent, to the next extent in a hole. */
  function Piece(read: Reader, bs: nat, xs: seq<FileExtent>, size: nat, o: nat, t: nat): Option<bytes>
    requires bs > 0
  {
    var es := AsExtents(bs, xs);
    var within := if FirstAt(es, o).Some? then o - FirstAt(es, o).value.off else 0;
    SparsePiece((at, n) => InBlock(read, bs, at, n), es, size, bs - within % bs, size + 1, o, t)
  }

  function Pieces(read: Reader, bs: nat, xs: seq<FileExtent>, size: nat): (nat, nat) -> Option<bytes>
    requires bs > 0
  {
    (o: nat, t: nat) => Piece(read, bs, xs, size, o, t)
  }

  lemma {:induction false} ExtentOf(bs: nat, xs: seq<FileExtent>, e: Extent) returns (x: FileExtent)
    requires e in AsExtents(bs, xs)
    ensures x in xs && e == AsExtent(bs, x)
  {
    if e == AsExtent(bs, xs[0]) { x := xs[0]; } else { x := ExtentOf(bs, xs[1..], e); }
  }

  /** Inside a readable extent the block at an offset is one of its own, and the piece is given. */
  lemma PieceGiven(read: Reader, m: Media, bs: nat, xs: seq<FileExtent>, size: nat, o: nat, t: nat)
    requires bs > 0 && Honest(m, read) && 0 < t && o + t <= size
             && forall x :: x in xs ==> BlocksReadable(read, bs, x, size)
    ensures Piece(read, bs, xs, size, o, t).Some?
  {
    hide Honest, BlocksReadable, Stored, FirstAt, NextStart;
    var es := AsExtents(bs, xs);
    if FirstAt(es, o).Some? {
      var e := FirstAt(es, o).value;
      var x := ExtentOf(bs, xs, e);
      var within := o - e.off;
      BlockOfExtent(read, m, bs, x, size, within);
      var n := Min(Min(e.len - within, t), bs - within % bs);
      AddressInBlock(bs, x.paddr, within);
      assert InBlock(read, bs, x.paddr * bs + within, n).Some?;
    }
  }

  lemma BlockOfExtent(read: Reader, m: Media, bs: nat, x: FileExtent, size: nat, within: nat)
    requires bs > 0 && Honest(m, read) && BlocksReadable(read, bs, x, size) && within < x.length
    requires x.laddr + within < size
    ensures read((x.paddr + within / bs) * bs, bs).Some? && |read((x.paddr + within / bs) * bs, bs).value| == bs
  {
    assert within == within / bs * bs + within % bs;
    var b := within / bs;
    assert b * bs < x.length && x.laddr + b * bs < size;
    ReadsStored(m, read, (x.paddr + b) * bs, bs);
  }

  /** The block that holds offset o of the file cannot be read. */
  predicate BlockFails(read: Reader, bs: nat, xs: seq<FileExtent>, o: nat)
    requires bs > 0
  {
    match FirstAt(AsExtents(bs, xs), o)
    case None => false
    case Some(e) =>
      e.src.OnDisk? && read((e.src.at + (o - e.off)) / bs * bs, bs).None?
  }

  /** Real bytes or an error: pieces of the content, and no piece exactly where its block cannot be read. */
  lemma StreamingHonest(m: Media, read: Reader, bs: nat, xs: seq<FileExtent>, size: nat)
    requires bs > 0 && Honest(m, read)
    ensures Steady(AsExtents(bs, xs)) ==>
              PieceHonest(Content(m, AsExtents(bs, xs), size), Pieces(read, bs, xs, size))
    ensures forall o: nat, t: nat :: 0 < t && o + t <= size ==>
              (Piece(read, bs, xs, size, o, t) == None <==> BlockFails(read, bs, xs, o))
  {
    hide Honest, Content, SparsePiece, Steady, BlockFails;
    var es := AsExtents(bs, xs);
    InBlockHonest(m, read, bs);
    HonestEverywhere(m, (at, n) => InBlock(read, bs, at, n), es);
    forall o: nat, t: nat | 0 < t && o + t <= size
      ensures Piece(read, bs, xs, size, o, t) == None <==> BlockFails(read, bs, xs, o)
      ensures Steady(es) ==>
                var p := Piece(read, bs, xs, size, o, t);
                p.Some? ==> 0 < |p.value| <= t && p.value == Content(m, es, size)[o..o + |p.value|]
    {
      var within := if FirstAt(es, o).Some? then o - FirstAt(es, o).value.off else 0;
      PieceFailsInBlock(m, read, bs, xs, size, o, t);
      if Steady(es) {
        PieceIsContent(m, (at, n) => InBlock(read, bs, at, n), es, size, bs - within % bs, size + 1, o, t);
      }
    }
  }

  lemma PieceFailsInBlock(m: Media, read: Reader, bs: nat, xs: seq<FileExtent>, size: nat, o: nat, t: nat)
    requires bs > 0 && Honest(m, read) && 0 < t && o + t <= size
    ensures Piece(read, bs, xs, size, o, t) == None <==> BlockFails(read, bs, xs, o)
  {
    hide Honest, FirstAt, SparsePiece, InBlock, AsExtents;
    var es := AsExtents(bs, xs);
    var within := if FirstAt(es, o).Some? then o - FirstAt(es, o).value.off else 0;
    var cap := bs - within % bs;
    PieceFails((at, n) => InBlock(read, bs, at, n), es, size, cap, size + 1, o, t);
    if FirstAt(es, o).Some? {
      var e := FirstAt(es, o).value;
      var x := ExtentOf(bs, xs, e);
      AddressInBlock(bs, x.paddr, within);
      InBlockFails(m, read, bs, e.src.at + within, Min(Min(e.len - within, t), cap), within % bs);
    }
  }

  /** What a successful eager read gives, and where a file it can read can be streamed. */
  lemma StreamingMatchesEager(m: Media, read: Reader, limit: nat, bs: nat, xs: seq<FileExtent>, size: nat)
    requires bs > 0 && Honest(m, read) && Eager(read, bs, xs, size).Some?
    ensures OneOrigin(AsExtents(bs, xs), size) ==>
              Eager(read, bs, xs, size).value == Content(m, AsExtents(bs, xs), size)
    ensures Monotone(read, limit) && (forall x :: x in xs ==> BlocksBelow(bs, x, size, limit))
            && Steady(AsExtents(bs, xs)) ==>
              PieceServes(Content(m, AsExtents(bs, xs), size), Pieces(read, bs, xs, size))
  {
    hide Honest, Content, Assembled, Piece, Monotone, Steady, OneOrigin, BlocksBelow;
    AssembledIsOverlay(m, read, bs, xs, Zeros(size));
    OverlayIsContent(AsExtents(bs, xs), size);
    if Monotone(read, limit) && forall x :: x in xs ==> BlocksBelow(bs, x, size, limit) {
      StreamingHonest(m, read, bs, xs, size);
      AssembledReadsBlocks(read, limit, bs, xs, Zeros(size));
      forall o: nat, t: nat | 0 < t && o + t <= size ensures Piece(read, bs, xs, size, o, t).Some? {
        PieceGiven(read, m, bs, xs, size, o, t);
      }
    }
  }

  lemma {:induction false} PerfectBatches(m: Media, bs: nat, paddr: nat, remaining: nat)
    requires bs > 0
    ensures ReadBatches(Perfect(m), bs, paddr, remaining).Some?
    ensures |ReadBatches(Perfect(m), bs, paddr, remaining).value| == remaining
    decreases remaining
  {
    hide Stored, BatchBlocks;
    if remaining > 0 {
      var n := BatchBlocks(bs, remaining);
      MulLe(1, n, bs);
      PerfectBatches(m, bs, paddr + n, remaining - Min(n * bs, remaining));
    }
  }

  lemma {:induction false} PerfectlyAssembled(m: Media, bs: nat, xs: seq<FileExtent>, out: bytes)
    requires bs > 0
    ensures Assembled(Perfect(m), bs, xs, out).Some?
    decreases |xs|
  {
    hide ReadBatches, Perfect;
    if xs != [] {
      var x := xs[0];
      if x.laddr >= |out| {
        PerfectlyAssembled(m, bs, xs[1..], out);
      } else {
        PerfectBatches(m, bs, x.paddr, Min(x.length, |out| - x.laddr));
        var d := ReadBatches(Perfect(m), bs, x.paddr, Min(x.length, |out| - x.laddr)).value;
        PerfectlyAssembled(m, bs, xs[1..], Patch(out, x.laddr, d));
      }
    }
  }

  /**
   * The eager reader gives what is streamed, on every disk, exactly when the file is within the limit and
   * no byte of it has a first and a last extent that take it from different places.
   */
  lemma EagerIsContent(bs: nat, xs: seq<FileExtent>, size: nat)
    requires bs > 0
    ensures (forall m: Media :: Eager(Perfect(m), bs, xs, size) == Some(Content(m, AsExtents(bs, xs), size)))
       <==> (size <= MAX_FILE_BYTES && OneOrigin(AsExtents(bs, xs), size))
  {
    hide Content, Assembled, OneOrigin, Overlay, AsExtents;
    var es := AsExtents(bs, xs);
    if size <= MAX_FILE_BYTES {
      forall m: Media ensures Eager(Perfect(m), bs, xs, size) == Some(Overlay(m, es, Zeros(size))) {
        PerfectlyAssembled(m, bs, xs, Zeros(size));
        AssembledIsOverlay(m, Perfect(m), bs, xs, Zeros(size));
      }
      OverlayIsContent(es, size);
      assert forall m: Media ::
               Eager(Perfect(m), bs, xs, size) == Some(Content(m, es, size))
               <==> Overlay(m, es, Zeros(size)) == Content(m, es, size);
    } else {
      assert Eager(Perfect(m => 0), bs, xs, size) == None;
    }
  }

  /**
   * Opening a stream: every read of the result gives the content or an error, an error exactly at a bad
   * block, and all of what the eager reader gives when that reader succeeds and each byte has one origin.
   */
  method OpenStream(ghost m: Media, ghost limit: nat, read: Reader, bs: nat, xs: seq<FileExtent>, size: nat)
    returns (r: StreamReader)
    requires bs > 0 && Honest(m, read)
    ensures fresh(r) && r.size == size && r.pos == 0 && PieceBounded(size, r.piece)
    ensures Steady(AsExtents(bs, xs)) ==> PieceHonest(Content(m, AsExtents(bs, xs), size), r.piece)
    ensures forall o: nat, t: nat :: 0 < t && o + t <= size ==>
              (r.piece(o, t) == None <==> BlockFails(read, bs, xs, o))
    ensures Monotone(read, limit) && (forall x :: x in xs ==> BlocksBelow(bs, x, size, limit))
            && Eager(read, bs, xs, size).Some? && Steady(AsExtents(bs, xs)) && OneOrigin(AsExtents(bs, xs), size) ==>
              PieceServes(Eager(read, bs, xs, size).value, r.piece)
  {
    hide Honest, Content, Eager, Piece, Monotone, Steady, OneOrigin, BlockFails, BlocksBelow;
    StreamingHonest(m, read, bs, xs, size);
    if Eager(read, bs, xs, size).Some? { StreamingMatchesEager(m, read, limit, bs, xs, size); }
    forall o: nat, t: nat | 0 < t && o + t <= size
      ensures Piece(read, bs, xs, size, o, t).Some? ==> 0 < |Piece(read, bs, xs, size, o, t).value| <= t
    {
      PieceShort(m, read, bs, xs, size, o, t);
    }
    r := new StreamReader(size, Pieces(read, bs, xs, size));
  }

  lemma PieceShort(m: Media, read: Reader, bs: nat, xs: seq<FileExtent>, size: nat, o: nat, t: nat)
    requires bs > 0 && Honest(m, read) && 0 < t && o + t <= size
    ensures Piece(read, bs, xs, size, o, t).Some? ==> 0 < |Piece(read, bs, xs, size, o, t).value| <= t
  {
    hide Honest, SparsePiece, InBlock, FirstAt;
    var es := AsExtents(bs, xs);
    var within := if FirstAt(es, o).Some? then o - FirstAt(es, o).value.off else 0;
    forall at: nat, n: nat | InBlock(read, bs, at, n).Some? ensures |InBlock(read, bs, at, n).value| == n {
      InBlockHonest(m, read, bs);
      ReadsStored(m, (at, n) => InBlock(read, bs, at, n), at, n);
    }
    PieceInBounds((at, n) => InBlock(read, bs, at, n), es, size, bs - within % bs, size + 1, o, t);
  }
}

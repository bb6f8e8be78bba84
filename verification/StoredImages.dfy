/**
 * Images whose chunks are stored in any of the forms the reader takes (internal/read.go): zlib streams, raw
 * DEFLATE streams and plain chunks with their checksum, mixed as they come.
 */
module StoredImages {
  import opened Bytes
  import opened Codec
  import opened Segments
  import opened Sections
  import opened Planner
  import opened SectorRead
  import RB = ReadBack

  datatype Form = ZlibStream | RawStream | Plain

  /** What a chunk holds, and how it is stored. */
  datatype Stored = Stored(form: Form, data: bytes)

  function Encoded(c: Codec, s: Stored): bytes {
    match s.form
    case ZlibStream => c.deflate(s.data)
    case RawStream => c.rawDeflate(s.data)
    case Plain => s.data + ToLE(c.adler(s.data), 4)
  }

  /** The reader takes a chunk: its stream fits in one chunk's bytes, and it holds all that is demanded. */
  predicate Taken(c: Codec, s: Stored, cb: nat, demanded: nat) {
    && demanded <= |s.data|
    && (s.form != Plain ==> |Encoded(c, s)| <= cb)
  }

  /**
   * A raw DEFLATE chunk whose first bytes are no zlib header reads back exactly when its stream fits in the
   * bytes the reader asks for; a stream that is cut off is an error.
   */
  lemma RawDeflateChunkRead(c: Codec, image: bytes, off: nat, data: bytes, cb: nat, demanded: nat)
    requires Lawful(c) && Holds(image, off, c.rawDeflate(data)) && !c.zlibHeader(c.rawDeflate(data))
    requires 0 < demanded <= cb && cb >= 2
    ensures ReadChunk(c, image, off, cb, true, demanded) ==
            if |c.rawDeflate(data)| <= cb && demanded <= |data| then Some(data) else None
  {
    var z := c.rawDeflate(data);
    if |z| <= cb {
      RB.ClampLong(image, off, z, cb);
      var junk := Clamp(image, off + |z|, cb - |z|);
      assert c.zlibHeader(z + junk) == c.zlibHeader(z) && c.rawRead(z + junk) == Inflated(data, true);
    } else {
      HoldsSlice(image, off, z, 0, cb);
      assert z[..cb] + z[cb..] == z;
      assert c.zlibHeader(z[..cb] + z[cb..]) == c.zlibHeader(z[..cb]) && !c.rawRead(z[..cb]).clean;
    }
  }

  /** A zlib chunk that holds less than is demanded is an error. */
  lemma ShortZlibRead(c: Codec, image: bytes, off: nat, data: bytes, cb: nat, demanded: nat)
    requires Lawful(c) && Holds(image, off, c.deflate(data)) && |data| < demanded <= cb && cb >= 2
    ensures ReadChunk(c, image, off, cb, true, demanded) == None
  {
    var z := c.deflate(data);
    DeflateNonEmpty(c, data);
    if |z| <= cb {
      RB.ClampLong(image, off, z, cb);
      var junk := Clamp(image, off + |z|, cb - |z|);
      assert c.zlibHeader(z + junk) && c.zlibRead(z + junk) == Inflated(data, true);
    } else {
      HoldsSlice(image, off, z, 0, cb);
      assert c.zlibHeader(z[..cb]) && !c.zlibRead(z[..cb]).clean;
    }
  }

  /** A chunk that can be told apart: a raw stream has no zlib header, a plain chunk has the length demanded. */
  ghost predicate Plausible(c: Codec, s: Stored, demanded: nat) {
    match s.form
    case ZlibStream => true
    case RawStream => !c.zlibHeader(c.rawDeflate(s.data))
    case Plain => |s.data| == demanded
  }

  lemma StoredRead(c: Codec, image: bytes, off: nat, s: Stored, cb: nat, demanded: nat)
    requires Lawful(c) && Holds(image, off, Encoded(c, s)) && Plausible(c, s, demanded)
    requires 0 < demanded <= cb && cb >= 2
    ensures ReadChunk(c, image, off, cb, s.form != Plain, demanded) ==
            if Taken(c, s, cb, demanded) then Some(s.data) else None
  {
    hide ReadChunk, Lawful, Holds;
    match s.form {
      case ZlibStream =>
        if demanded <= |s.data| {
          RB.ZlibChunkRead(c, image, off, s.data, cb, demanded);
        } else {
          ShortZlibRead(c, image, off, s.data, cb, demanded);
        }
      case RawStream => RawDeflateChunkRead(c, image, off, s.data, cb, demanded);
      case Plain => RB.RawChunkRead(c, image, off, s.data, cb);
    }
  }

  // ------------------------------------------------------------ a whole image

  /** The tables name a stored chunk by each of their entries, with the bit that says whether it is compressed. */
  ghost predicate ImageHolds(c: Codec, segs: seq<Segment>, tables: seq<ChunkTable>, chunks: seq<seq<Stored>>) {
    && |chunks| == |tables| && (forall s :: 0 <= s < |tables| ==> |chunks[s]| == |tables[s].entries|)
    && forall s, i :: 0 <= s < |tables| && 0 <= i < |tables[s].entries| ==>
         EntryHolds(c, segs, tables[s], i, chunks[s][i])
  }

  ghost predicate EntryHolds(c: Codec, segs: seq<Segment>, t: ChunkTable, i: nat, s: Stored)
    requires i < |t.entries|
  {
    && ChunkOffset(segs, t, i) >= 0 && Holds(Joined(segs), ChunkOffset(segs, t, i), Encoded(c, s))
    && (t.entries[i] >= 0x8000_0000 <==> s.form != Plain)
  }

  /** Chunk g in flat order. */
  function ChunkAt(l: Layout, chunks: seq<seq<Stored>>, g: nat): Stored {
    if g >= Sum(l.counts) then Stored(Plain, [])
    else
      var at := Locate(l.counts, g);
      if at.0 < |chunks| && at.1 < |chunks[at.0]| then chunks[at.0][at.1] else Stored(Plain, [])
  }

  /** The geometry the chunks were stored in; each can be told apart. */
  ghost predicate Fitting(c: Codec, tables: seq<ChunkTable>, l: Layout, chunks: seq<seq<Stored>>) {
    && l.Valid() && l.counts == Counts(tables) && l.ChunkBytes() >= 2
    && forall g :: 0 <= g < l.Chunks() ==> Plausible(c, ChunkAt(l, chunks, g), l.ValidBytes(g))
  }

  lemma DemandInChunk(l: Layout, g: nat)
    requires l.Valid()
    ensures 0 < l.ValidBytes(g) <= l.ChunkBytes()
  {
    var first := g * l.cs;
    if first < l.media < first + l.cs {
      MulLe(1, l.media - first, l.ss);
      MulLe(l.media - first, l.cs, l.ss);
    }
  }

  /** What the image gives for chunk g is what was stored there, or an error. */
  lemma DecodedIs(c: Codec, segs: seq<Segment>, tables: seq<ChunkTable>, l: Layout, chunks: seq<seq<Stored>>, g: nat)
    requires Lawful(c) && Fitting(c, tables, l, chunks) && ImageHolds(c, segs, tables, chunks) && g < l.Chunks()
    ensures DecodedChunks(c, segs, tables, l)[g] ==
            if Taken(c, ChunkAt(l, chunks, g), l.ChunkBytes(), l.ValidBytes(g)) then Some(ChunkAt(l, chunks, g).data)
            else None
  {
    hide Lawful, ReadTableChunk, ReadChunk, Holds, Joined, ChunkOffset, Taken, Plausible, DecodedChunks, Encoded;
    var at, cb := Locate(l.counts, g), l.ChunkBytes();
    RB.DecodedAt(c, segs, tables, l, g);
    DemandInChunk(l, g);
    var t, s := tables[at.0], chunks[at.0][at.1];
    assert EntryHolds(c, segs, t, at.1, s) && ChunkAt(l, chunks, g) == s;
    StoredRead(c, Joined(segs), ChunkOffset(segs, t, at.1), s, cb, l.ValidBytes(g));
    TableReads(c, segs, t, at.1, cb, l.ValidBytes(g));
  }

  lemma TableReads(c: Codec, segs: seq<Segment>, t: ChunkTable, i: nat, cb: nat, demanded: nat)
    requires i < |t.entries| && ChunkOffset(segs, t, i) >= 0
    ensures ReadTableChunk(c, segs, t, i, cb, demanded) ==
            ReadChunk(c, Joined(segs), ChunkOffset(segs, t, i), cb, t.entries[i] >= 0x8000_0000, demanded)
  {
    hide ReadChunk, ChunkOffset;
  }

  /** Byte p of the media: the byte stored for it, or zero past what is stored. */
  function MeantByte(l: Layout, chunks: seq<seq<Stored>>, p: nat): byte
    requires l.Valid()
  {
    var g, w := p / l.ChunkBytes(), p % l.ChunkBytes();
    if w < |ChunkAt(l, chunks, g).data| then ChunkAt(l, chunks, g).data[w] else 0
  }

  /** The chunk that covers a sector can be taken. */
  predicate SectorTaken(c: Codec, l: Layout, chunks: seq<seq<Stored>>, s: nat)
    requires l.Valid()
  {
    s / l.cs < l.Chunks() ==> Taken(c, ChunkAt(l, chunks, s / l.cs), l.ChunkBytes(), l.ValidBytes(s / l.cs))
  }

  predicate MediaByteIs(l: Layout, chunks: seq<seq<Stored>>, p: nat, b: byte)
    requires l.Valid()
  {
    b == MeantByte(l, chunks, p)
  }

  /** The bytes of a range of sectors, or the first of them whose chunk cannot be taken. */
  ghost predicate RangeIs(c: Codec, l: Layout, chunks: seq<seq<Stored>>, start: nat, n: nat, r: Result<bytes, nat>)
    requires l.Valid()
  {
    match r
    case Ok(b) =>
      && (forall s :: start <= s < start + n ==> SectorTaken(c, l, chunks, s))
      && |b| == n * l.ss && forall k :: 0 <= k < |b| ==> MediaByteIs(l, chunks, start * l.ss + k, b[k])
    case Err(s) =>
      && start <= s < start + n && !SectorTaken(c, l, chunks, s)
      && forall t :: start <= t < s ==> SectorTaken(c, l, chunks, t)
  }

  /**
   * A read of any range of sectors gives, byte for byte, what the chunks were stored from, in whatever form
   * each was stored, or names the first sector of the range whose chunk cannot be taken; stored bytes are
   * never passed on as they are.
   */
  lemma MixedImageRead(c: Codec, segs: seq<Segment>, disks: seq<DiskSMART>, tables: seq<ChunkTable>,
                       chunks: seq<seq<Stored>>, start: nat, n: nat)
    requires Lawful(c) && tables != [] && ImageHolds(c, segs, tables, chunks)
    requires var l := LayoutOf(disks, tables);
             && Fitting(c, tables, l, chunks) && l.cs <= MAX_CHUNK_BYTES / l.ss
             && start < l.TotalSectors() && n <= MAX_READ_BYTES / l.ss
    ensures var l := LayoutOf(disks, tables);
            match ReadSectors(c, segs, disks, tables, start, n)
            case Ok(b) => RangeIs(c, l, chunks, start, n, Ok(b))
            case Err(BadChunk(s)) => RangeIs(c, l, chunks, start, n, Err(s))
            case Err(_) => false
  {
    hide Lawful, LayoutOf, DecodedChunks, ReadRange, ImageHolds, Fitting, DecodedMeant, RangeIs;
    var l := LayoutOf(disks, tables);
    var decoded := DecodedChunks(c, segs, tables, l);
    AllDecoded(c, segs, tables, l, chunks);
    RangeMeant(c, l, decoded, chunks, start, n);
  }

  /** Every chunk decodes to what was stored, if it can be taken. */
  ghost predicate DecodedMeant(c: Codec, l: Layout, decoded: Chunks, chunks: seq<seq<Stored>>)
    requires l.Valid() && |decoded| == l.Chunks()
  {
    forall g :: 0 <= g < l.Chunks() ==>
      decoded[g] ==
      if Taken(c, ChunkAt(l, chunks, g), l.ChunkBytes(), l.ValidBytes(g)) then Some(ChunkAt(l, chunks, g).data)
      else None
  }

  lemma AllDecoded(c: Codec, segs: seq<Segment>, tables: seq<ChunkTable>, l: Layout, chunks: seq<seq<Stored>>)
    requires Lawful(c) && Fitting(c, tables, l, chunks) && ImageHolds(c, segs, tables, chunks)
    ensures DecodedMeant(c, l, DecodedChunks(c, segs, tables, l), chunks)
  {
    hide Lawful, DecodedChunks, ImageHolds, Taken, ChunkAt, Plausible;
    forall g | 0 <= g < l.Chunks()
      ensures DecodedChunks(c, segs, tables, l)[g] ==
              if Taken(c, ChunkAt(l, chunks, g), l.ChunkBytes(), l.ValidBytes(g)) then Some(ChunkAt(l, chunks, g).data)
              else None
    {
      DecodedIs(c, segs, tables, l, chunks, g);
    }
  }

  lemma RangeMeant(c: Codec, l: Layout, decoded: Chunks, chunks: seq<seq<Stored>>, start: nat, n: nat)
    requires l.Valid() && |decoded| == l.Chunks() && DecodedMeant(c, l, decoded, chunks)
    ensures RangeIs(c, l, chunks, start, n, ReadRange(l, decoded, start, n))
  {
    hide FirstBad, Taken, ChunkAt, ByteAt, MeantByte, DecodedMeant, SectorTaken, RB.Decodes;
    RB.FirstBadSector(l, decoded, start + n, start);
    forall s ensures s >= 0 ==> (RB.Decodes(l.cs, decoded, s) <==> SectorTaken(c, l, chunks, s)) {
      if s >= 0 { TakenDecodes(c, l, decoded, chunks, s); }
    }
    match ReadRange(l, decoded, start, n) {
      case Err(_) =>
      case Ok(b) =>
        forall k | 0 <= k < |b| ensures MediaByteIs(l, chunks, start * l.ss + k, b[k]) {
          SectorOfByte(l, start, n, k);
          assert SectorTaken(c, l, chunks, start + k / l.ss);
          RightByte(c, l, decoded, chunks, start * l.ss + k, start + k / l.ss);
        }
    }
  }

  lemma TakenDecodes(c: Codec, l: Layout, decoded: Chunks, chunks: seq<seq<Stored>>, s: nat)
    requires l.Valid() && |decoded| == l.Chunks() && DecodedMeant(c, l, decoded, chunks)
    ensures RB.Decodes(l.cs, decoded, s) <==> SectorTaken(c, l, chunks, s)
  {
    hide Taken, ChunkAt;
  }

  /** A byte of the range lies in a sector of the range, and in that sector's chunk. */
  lemma SectorOfByte(l: Layout, start: nat, n: nat, k: nat)
    requires l.Valid() && k < n * l.ss
    ensures start <= start + k / l.ss < start + n
    ensures (start * l.ss + k) / l.ChunkBytes() == (start + k / l.ss) / l.cs
  {
    hide Layout.ChunkBytes;
    var q, w := k / l.ss, k % l.ss;
    assert k == q * l.ss + w;
    if q >= n { MulLe(n, q, l.ss); }
    MulAdd(start, q, l.ss);
    ChunkBytesAre(l);
    SectorInChunk(l.cs, l.ss, start + q, w);
  }

  lemma ChunkBytesAre(l: Layout)
    requires l.Valid()
    ensures l.ChunkBytes() == l.cs * l.ss
  {
  }

  lemma SectorInChunk(cs: nat, ss: nat, s: nat, w: nat)
    requires cs > 0 && w < ss
    ensures cs * ss > 0 && (s * ss + w) / (cs * ss) == s / cs
  {
    var q, r := s / cs, s % cs;
    assert s == q * cs + r;
    MulAdd(q * cs, r, ss);
    MulAssoc(q, cs, ss);
    MulLe(r + 1, cs, ss);
    MulAdd(r, 1, ss);
    MulLe(0, r, ss);
    DivModUnique(s * ss + w, cs * ss, q, r * ss + w);
  }

  lemma RightByte(c: Codec, l: Layout, decoded: Chunks, chunks: seq<seq<Stored>>, p: nat, s: nat)
    requires l.Valid() && |decoded| == l.Chunks() && DecodedMeant(c, l, decoded, chunks)
    requires p / l.ChunkBytes() == s / l.cs && SectorTaken(c, l, chunks, s)
    ensures ByteAt(l.ChunkBytes(), decoded, p) == MeantByte(l, chunks, p)
  {
    hide Taken;
    var g := p / l.ChunkBytes();
    if g < l.Chunks() { assert decoded[g] == Some(ChunkAt(l, chunks, g).data); }
  }
}

/**
 * XFS data forks (internal/filesystem/xfs): extent records and the block-map B-tree against the
 * list they pack, and sparse content read at once or block by block.
 */
module XfsFile {
  import opened Bytes
  import opened Streaming
  import opened SparseFile

  const WORD: nat := 0x1_0000_0000_0000_0000
  const MAX_BLOCK: nat := 0x100_0000_0000        // 1 << 40
  const MAX_FILE_BYTES: nat := 0x100_0000_0000
  const MAX_OFFSET: nat := 0x1000_0000_0000      // 1 << 44
  const MAX_LENGTH: nat := 0x4000_0000           // 1 << 30
  const RECORD: nat := 16
  const MAX_WALK: nat := 32
  const LEAF_MAGIC: bytes := [66, 77, 65, 51]    // "BMA3"

  // ------------------------------------------------------------ records

  /** blockCount blocks of the file from block startoff on, stored from (packed) block startBlock on. */
  datatype Record = Record(startoff: nat, startBlock: nat, blockCount: nat)

  /** The three fields of a 128-bit record; the top bit of the first word is not looked at. */
  function Decode(l0: nat, l1: nat): Record {
    Record(l0 % 0x8000_0000_0000_0000 / 0x200, l0 % 0x200 * 0x800_0000_0000 + l1 / 0x20_0000, l1 % 0x20_0000)
  }

  function RecordAt(buf: bytes, i: nat): Record
    requires RECORD * (i + 1) <= |buf|
  {
    Decode(BE(buf[RECORD * i..RECORD * i + 8]), BE(buf[RECORD * i + 8..RECORD * i + 16]))
  }

  ghost predicate Packable(r: Record) {
    r.startoff < 0x40_0000_0000_0000 && r.startBlock < 0x10_0000_0000_0000 && 0 < r.blockCount < 0x20_0000
  }

  /** The record as written, with its flag bit. */
  function Encode(r: Record, flag: bool): (b: bytes)
    ensures |b| == RECORD
  {
    ToBE((if flag then 0x8000_0000_0000_0000 else 0) + r.startoff * 0x200 + r.startBlock / 0x800_0000_0000, 8)
    + ToBE(r.startBlock % 0x800_0000_0000 * 0x20_0000 + r.blockCount, 8)
  }

  lemma DecodeFields(r: Record, flag: bool)
    requires Packable(r)
    ensures var l0 := (if flag then 0x8000_0000_0000_0000 else 0) + r.startoff * 0x200 + r.startBlock / 0x800_0000_0000;
            var l1 := r.startBlock % 0x800_0000_0000 * 0x20_0000 + r.blockCount;
            l0 < WORD && l1 < WORD && Decode(l0, l1) == r
  {
    var hi, lo := r.startBlock / 0x800_0000_0000, r.startBlock % 0x800_0000_0000;
    var body := r.startoff * 0x200 + hi;
    DivModUnique(body, 0x200, r.startoff, hi);
    DivModUnique(lo * 0x20_0000 + r.blockCount, 0x20_0000, lo, r.blockCount);
    if flag { DivModUnique(0x8000_0000_0000_0000 + body, 0x8000_0000_0000_0000, 1, body); FlagKeepsLow(body); }
    else { DivModUnique(body, 0x8000_0000_0000_0000, 0, body); }
  }

  lemma FlagKeepsLow(body: nat)
    ensures (0x8000_0000_0000_0000 + body) % 0x200 == body % 0x200
  {
    DivModUnique(0x8000_0000_0000_0000 + body, 0x200, 0x40_0000_0000_0000 + body / 0x200, body % 0x200);
  }

  lemma Width8()
    ensures Pow256(8) == WORD
  {
    assert Pow256(4) == 0x1_0000_0000;
  }

  /** The decoder inverts the packing, whatever the flag bit. */
  lemma RecordRoundTrip(r: Record, flag: bool, before: bytes, after: bytes, i: nat)
    requires Packable(r) && |before| == RECORD * i
    ensures RecordAt(before + Encode(r, flag) + after, i) == r
  {
    hide BE, ToBE, Decode, Encode;
    var l0 := (if flag then 0x8000_0000_0000_0000 else 0) + r.startoff * 0x200 + r.startBlock / 0x800_0000_0000;
    var l1 := r.startBlock % 0x800_0000_0000 * 0x20_0000 + r.blockCount;
    DecodeFields(r, flag);
    EncodedAs(r, flag, l0, l1);
    HoldsPart(before, Encode(r, flag), after, before + Encode(r, flag) + after);
    TwoWords(before + Encode(r, flag) + after, RECORD * i, l0, l1);
  }

  lemma EncodedAs(r: Record, flag: bool, l0: nat, l1: nat)
    requires l0 == (if flag then 0x8000_0000_0000_0000 else 0) + r.startoff * 0x200 + r.startBlock / 0x800_0000_0000
    requires l1 == r.startBlock % 0x800_0000_0000 * 0x20_0000 + r.blockCount
    ensures Encode(r, flag) == ToBE(l0, 8) + ToBE(l1, 8)
  {
    hide ToBE;
  }

  /** Two big-endian words in a row. */
  lemma TwoWords(d: bytes, at: nat, v: nat, w: nat)
    requires Holds(d, at, ToBE(v, 8) + ToBE(w, 8)) && v < WORD && w < WORD
    ensures at + 16 <= |d| && BE(d[at..at + 8]) == v && BE(d[at + 8..at + 16]) == w
  {
    hide BE, ToBE, Holds;
    Width8();
    assert [] + ToBE(v, 8) + ToBE(w, 8) == ToBE(v, 8) + ToBE(w, 8) == ToBE(v, 8) + ToBE(w, 8) + [];
    BigFieldIn(d, at, [], v, 8, ToBE(w, 8));
    BigFieldIn(d, at, ToBE(v, 8), w, 8, []);
  }

  /** parseExtents and parseBmbtRecords: n records from i on; a zero length is an error. */
  function ParseFrom(buf: bytes, n: nat, i: nat): Option<seq<Record>>
    requires i <= n && RECORD * n <= |buf|
    decreases n - i
  {
    if i == n then Some([])
    else
      match ParseFrom(buf, n, i + 1)
      case None => None
      case Some(rest) => if RecordAt(buf, i).blockCount == 0 then None else Some([RecordAt(buf, i)] + rest)
  }

  function ParseRecords(buf: bytes, n: nat): Option<seq<Record>> {
    if RECORD * n > |buf| then None else ParseFrom(buf, n, 0)
  }

  method ParseExtents(buf: bytes, n: nat) returns (r: Option<seq<Record>>)
    ensures r == ParseRecords(buf, n)
  {
    hide RecordAt;
    if RECORD * n > |buf| { return None; }
    var exts: seq<Record> := [];
    assert ParseFrom(buf, n, 0).Some? ==> [] + ParseFrom(buf, n, 0).value == ParseFrom(buf, n, 0).value;
    for i := 0 to n
      invariant ParseFrom(buf, n, 0).Some? ==>
                  && ParseFrom(buf, n, i).Some?
                  && ParseFrom(buf, n, 0).value == exts + ParseFrom(buf, n, i).value
      invariant ParseFrom(buf, n, 0) == None ==> ParseFrom(buf, n, i) == None
    {
      var x := RecordAt(buf, i);
      if x.blockCount == 0 { return None; }
      if ParseFrom(buf, n, i + 1).Some? { AppendAssoc(exts, [x], ParseFrom(buf, n, i + 1).value); }
      exts := exts + [x];
    }
    assert exts + [] == exts;
    r := Some(exts);
  }

  // ------------------------------------------------------------ the block-map tree

  /** AG geometry: blocks a packed number reserves for an AG, and blocks an AG has. */
  datatype Geometry = Geometry(agSpan: nat, agBlocks: nat)

  /** The linear block of a packed block number. */
  function Linear(g: Geometry, packed: nat): nat
    requires g.agSpan > 0
  {
    packed / g.agSpan * g.agBlocks + packed % g.agSpan
  }

  /** fsbToFsb: the linear block, computed in 64 bits. */
  function Fsb(g: Geometry, packed: nat): nat
    requires g.agSpan > 0
  {
    Linear(g, packed) % WORD
  }

  /** Packing an AG number and a block in it is undone; with full AGs packed numbers are already linear. */
  lemma LinearOfPacked(g: Geometry, agno: nat, agbno: nat)
    requires 0 <= agbno < g.agSpan
    ensures Linear(g, agno * g.agSpan + agbno) == agno * g.agBlocks + agbno
    ensures g.agBlocks == g.agSpan ==> Linear(g, agno * g.agSpan + agbno) == agno * g.agSpan + agbno
    ensures Fsb(g, agno * g.agSpan + agbno) == (agno * g.agBlocks + agbno) % WORD
  {
    DivModUnique(agno * g.agSpan + agbno, g.agSpan, agno, agbno);
  }

  /** What reading the filesystem block with a (linear) number gives. */
  type Blocks = nat -> Option<bytes>

  function ReadBlock(g: Geometry, disk: Blocks, packed: nat): Option<bytes>
    requires g.agSpan > 0
  {
    if Fsb(g, packed) > MAX_BLOCK then None else disk(Fsb(g, packed))
  }

  function NodeLevel(b: bytes): nat
    requires |b| >= 24
  {
    BE(b[4..6])
  }

  function NodeRecords(b: bytes): nat
    requires |b| >= 24
  {
    BE(b[6..8])
  }

  /** Where a node's pointers start: behind room for as many keys as fit. */
  function PointersAt(b: bytes, hdr: nat): nat
    requires hdr <= |b|
  {
    hdr + (|b| - hdr) / 16 * 8
  }

  function Pointer(b: bytes, at: nat, i: nat): nat
    requires at + 8 * (i + 1) <= |b|
  {
    BE(b[at + 8 * i..at + 8 * i + 8])
  }

  /** walkBmbt: all records below a block; None is any error. */
  function Walk(g: Geometry, disk: Blocks, b: bytes, hdr: nat, depth: nat): Option<seq<Record>>
    requires g.agSpan > 0 && hdr >= 24
    decreases if depth > MAX_WALK then 0 else MAX_WALK + 1 - depth, 0
  {
    if depth > MAX_WALK || |b| < hdr || b[..4] != LEAF_MAGIC || NodeRecords(b) == 0 then None
    else if NodeLevel(b) == 0 then ParseRecords(b[hdr..], NodeRecords(b))
    else if PointersAt(b, hdr) + 8 * NodeRecords(b) > |b| then None
    else WalkFrom(g, disk, b, PointersAt(b, hdr), NodeRecords(b), hdr, depth, 0)
  }

  /** The children of a node from i on, with the limit on their pointers. */
  function WalkFrom(g: Geometry, disk: Blocks, b: bytes, at: nat, n: nat, hdr: nat, depth: nat,
                    i: nat): Option<seq<Record>>
    requires g.agSpan > 0 && hdr >= 24 && depth <= MAX_WALK && i <= n && at + 8 * n <= |b|
    decreases MAX_WALK - depth, n - i + 1
  {
    if i == n then Some([])
    else if Pointer(b, at, i) > MAX_BLOCK || ReadBlock(g, disk, Pointer(b, at, i)).None? then None
    else
      match (Walk(g, disk, ReadBlock(g, disk, Pointer(b, at, i)).value, hdr, depth + 1),
             WalkFrom(g, disk, b, at, n, hdr, depth, i + 1))
      case (Some(here), Some(rest)) => Some(here + rest)
      case _ => None
  }

  datatype Tree = Leaf(records: seq<Record>) | Inner(kids: seq<Tree>)

  /** All records of a tree, left to right. */
  function Flatten(t: Tree): seq<Record>
    decreases t
  {
    match t case Leaf(rs) => rs case Inner(kids) => FlattenFrom(t, 0)
  }

  function FlattenFrom(t: Tree, i: nat): seq<Record>
    requires t.Inner? && i <= |t.kids|
    decreases t, |t.kids| - i
  {
    if i == |t.kids| then [] else Flatten(t.kids[i]) + FlattenFrom(t, i + 1)
  }

  /** The block, and the blocks its pointers lead to, hold the tree; height counts its levels. */
  ghost predicate HeldBy(g: Geometry, disk: Blocks, b: bytes, hdr: nat, t: Tree, height: nat)
    requires g.agSpan > 0 && hdr >= 24
    decreases t
  {
    && |b| >= hdr && b[..4] == LEAF_MAGIC && height > 0
    && match t
       case Leaf(rs) =>
         && NodeLevel(b) == 0 && NodeRecords(b) == |rs| > 0 && RECORD * |rs| <= |b| - hdr
         && forall i :: 0 <= i < |rs| ==> RecordAt(b[hdr..], i) == rs[i] && rs[i].blockCount > 0
       case Inner(kids) =>
         && NodeLevel(b) > 0 && NodeRecords(b) == |kids| > 0 && PointersAt(b, hdr) + 8 * |kids| <= |b|
         && forall i :: 0 <= i < |kids| ==>
              && Pointer(b, PointersAt(b, hdr), i) <= MAX_BLOCK
              && ReadBlock(g, disk, Pointer(b, PointersAt(b, hdr), i)).Some?
              && HeldBy(g, disk, ReadBlock(g, disk, Pointer(b, PointersAt(b, hdr), i)).value, hdr, kids[i], height - 1)
  }

  lemma {:induction false} LeafParsed(buf: bytes, rs: seq<Record>, i: nat)
    requires i <= |rs| && RECORD * |rs| <= |buf|
    requires forall j :: 0 <= j < |rs| ==> RecordAt(buf, j) == rs[j] && rs[j].blockCount > 0
    ensures ParseFrom(buf, |rs|, i) == Some(rs[i..])
    decreases |rs| - i
  {
    hide RecordAt;
    if i < |rs| {
      LeafParsed(buf, rs, i + 1);
      assert [rs[i]] + rs[i + 1..] == rs[i..];
    }
  }

  lemma {:induction false} KidsWalked(g: Geometry, disk: Blocks, b: bytes, hdr: nat, t: Tree, height: nat, depth: nat,
                                      i: nat)
    requires g.agSpan > 0 && hdr >= 24 && t.Inner? && HeldBy(g, disk, b, hdr, t, height) && i <= |t.kids|
    requires depth + height <= MAX_WALK + 1
    ensures depth <= MAX_WALK
    ensures WalkFrom(g, disk, b, PointersAt(b, hdr), |t.kids|, hdr, depth, i) == Some(FlattenFrom(t, i))
    decreases t, |t.kids| - i
  {
    hide NodeLevel, NodeRecords, Pointer, PointersAt, ReadBlock, Walk;
    if i < |t.kids| {
      TreeWalked(g, disk, ReadBlock(g, disk, Pointer(b, PointersAt(b, hdr), i)).value, hdr, t.kids[i], height - 1,
                 depth + 1);
      KidsWalked(g, disk, b, hdr, t, height, depth, i + 1);
    }
  }

  /** Walking a block that holds a tree gives exactly the in-order records of its leaves. */
  lemma {:induction false} TreeWalked(g: Geometry, disk: Blocks, b: bytes, hdr: nat, t: Tree, height: nat, depth: nat)
    requires g.agSpan > 0 && hdr >= 24 && HeldBy(g, disk, b, hdr, t, height) && depth + height <= MAX_WALK + 1
    ensures Walk(g, disk, b, hdr, depth) == Some(Flatten(t))
    decreases t
  {
    hide NodeLevel, NodeRecords, Pointer, PointersAt, ReadBlock, RecordAt, WalkFrom, BE;
    match t {
      case Leaf(rs) =>
        LeafParsed(b[hdr..], rs, 0);
        assert rs[0..] == rs;
      case Inner(kids) => KidsWalked(g, disk, b, hdr, t, height, depth, 0);
    }
  }

  function Appended(out: seq<Record>, found: Option<seq<Record>>): Option<seq<Record>> {
    match found case None => None case Some(f) => Some(out + f)
  }

  /** walkBmbt, appending to what was gathered before. */
  method WalkBmbt(g: Geometry, disk: Blocks, b: bytes, hdr: nat, before: seq<Record>,
                  depth: nat) returns (r: Option<seq<Record>>)
    requires g.agSpan > 0 && hdr >= 24
    ensures r == Appended(before, Walk(g, disk, b, hdr, depth))
    decreases if depth > MAX_WALK then 0 else MAX_WALK + 1 - depth
  {
    hide NodeLevel, NodeRecords, Pointer, PointersAt, ReadBlock, ParseRecords, WalkFrom;
    if depth > MAX_WALK { return None; }
    if |b| < hdr || b[..4] != LEAF_MAGIC { return None; }
    var n := NodeRecords(b);
    if n == 0 { return None; }
    if NodeLevel(b) == 0 {
      var exts := ParseExtents(b[hdr..], n);
      if exts.None? { return None; }
      return Some(before + exts.value);
    }
    var at := PointersAt(b, hdr);
    if at + 8 * n > |b| { return None; }
    var out := before;
    for i := 0 to n
      invariant Appended(before, WalkFrom(g, disk, b, at, n, hdr, depth, 0)) ==
                Appended(out, WalkFrom(g, disk, b, at, n, hdr, depth, i))
    {
      WalkStep(g, disk, b, at, n, hdr, depth, i, out);
      var packed := Pointer(b, at, i);
      if packed > MAX_BLOCK { return None; }
      var child := ReadBlock(g, disk, packed);
      if child.None? { return None; }
      var more := WalkBmbt(g, disk, child.value, hdr, out, depth + 1);
      if more.None? { return None; }
      out := more.value;
    }
    AllWalked(g, disk, b, at, n, hdr, depth, out);
    r := Some(out);
  }

  lemma AllWalked(g: Geometry, disk: Blocks, b: bytes, at: nat, n: nat, hdr: nat, depth: nat, out: seq<Record>)
    requires g.agSpan > 0 && hdr >= 24 && depth <= MAX_WALK && at + 8 * n <= |b|
    ensures Appended(out, WalkFrom(g, disk, b, at, n, hdr, depth, n)) == Some(out)
  {
    assert out + [] == out;
  }

  /** One child of a node, with what was gathered before it. */
  lemma WalkStep(g: Geometry, disk: Blocks, b: bytes, at: nat, n: nat, hdr: nat, depth: nat, i: nat, out: seq<Record>)
    requires g.agSpan > 0 && hdr >= 24 && depth <= MAX_WALK && i < n && at + 8 * n <= |b|
    ensures var all := Appended(out, WalkFrom(g, disk, b, at, n, hdr, depth, i));
            if Pointer(b, at, i) > MAX_BLOCK || ReadBlock(g, disk, Pointer(b, at, i)).None? then all == None
            else
              match Appended(out, Walk(g, disk, ReadBlock(g, disk, Pointer(b, at, i)).value, hdr, depth + 1))
              case None => all == None
              case Some(o) => all == Appended(o, WalkFrom(g, disk, b, at, n, hdr, depth, i + 1))
  {
    hide Walk, ReadBlock, Pointer;
    if Pointer(b, at, i) <= MAX_BLOCK && ReadBlock(g, disk, Pointer(b, at, i)).Some? {
      var here := Walk(g, disk, ReadBlock(g, disk, Pointer(b, at, i)).value, hdr, depth + 1);
      var rest := WalkFrom(g, disk, b, at, n, hdr, depth, i + 1);
      if here.Some? && rest.Some? { AppendAssoc(out, here.value, rest.value); }
    }
  }

  // ------------------------------------------------------------ the root in the inode

  /** Where the pointers of the root lie: behind room for as many keys as fit. */
  function RootPointersAt(fork: bytes): nat
    requires |fork| >= 4
  {
    4 + (|fork| - 4) / 16 * 8
  }

  predicate RootOk(fork: bytes) {
    && |fork| >= 20 && BE(fork[0..2]) > 0 && BE(fork[2..4]) > 0
    && RootPointersAt(fork) + 8 * BE(fork[2..4]) <= |fork|
  }

  /** The subtrees of the root from i on. */
  function RootFrom(g: Geometry, disk: Blocks, fork: bytes, hdr: nat, i: nat): Option<seq<Record>>
    requires g.agSpan > 0 && hdr >= 24 && RootOk(fork) && i <= BE(fork[2..4])
    decreases BE(fork[2..4]) - i
  {
    if i == BE(fork[2..4]) then Some([])
    else
      match ReadBlock(g, disk, Pointer(fork, RootPointersAt(fork), i))
      case None => None
      case Some(b) =>
        match (Walk(g, disk, b, hdr, 0), RootFrom(g, disk, fork, hdr, i + 1))
        case (Some(here), Some(rest)) => Some(here + rest)
        case _ => None
  }

  /** readBtreeExtents: the record list of a B-tree data fork. */
  method ReadBtreeExtents(g: Geometry, disk: Blocks, fork: bytes, hdr: nat) returns (r: Option<seq<Record>>)
    requires g.agSpan > 0 && hdr >= 24
    ensures r == if RootOk(fork) then RootFrom(g, disk, fork, hdr, 0) else None
  {
    hide Pointer, Walk, ReadBlock, BE;
    if !RootOk(fork) { return None; }
    var n := BE(fork[2..4]);
    var out: seq<Record> := [];
    ghost var all := RootFrom(g, disk, fork, hdr, 0);
    assert all.Some? ==> [] + all.value == all.value;
    for i := 0 to n
      invariant all == Appended(out, RootFrom(g, disk, fork, hdr, i))
    {
      var block := ReadBlock(g, disk, Pointer(fork, RootPointersAt(fork), i));
      if block.None? { return None; }
      ghost var here, rest := Walk(g, disk, block.value, hdr, 0), RootFrom(g, disk, fork, hdr, i + 1);
      if here.Some? && rest.Some? { AppendAssoc(out, here.value, rest.value); }
      var more := WalkBmbt(g, disk, block.value, hdr, out, 0);
      if more.None? { return None; }
      out := more.value;
    }
    assert out + [] == out;
    r := Some(out);
  }

  /** The root's pointers lead to blocks that hold the subtrees. */
  ghost predicate RootHolds(g: Geometry, disk: Blocks, fork: bytes, hdr: nat, t: Tree, height: nat)
    requires g.agSpan > 0 && hdr >= 24
  {
    && RootOk(fork) && t.Inner? && BE(fork[2..4]) == |t.kids|
    && forall i :: 0 <= i < |t.kids| ==>
         && ReadBlock(g, disk, Pointer(fork, RootPointersAt(fork), i)).Some?
         && HeldBy(g, disk, ReadBlock(g, disk, Pointer(fork, RootPointersAt(fork), i)).value, hdr, t.kids[i], height)
  }

  /** A B-tree fork gives exactly the in-order records of its tree, up to the depth bound. */
  lemma {:induction false} RootWalked(g: Geometry, disk: Blocks, fork: bytes, hdr: nat, t: Tree, height: nat, i: nat)
    requires g.agSpan > 0 && hdr >= 24 && RootHolds(g, disk, fork, hdr, t, height) && height <= MAX_WALK + 1
    requires i <= |t.kids|
    ensures RootFrom(g, disk, fork, hdr, i) == Some(FlattenFrom(t, i))
    decreases |t.kids| - i
  {
    hide Pointer, Walk, ReadBlock, BE, HeldBy;
    if i < |t.kids| {
      TreeWalked(g, disk, ReadBlock(g, disk, Pointer(fork, RootPointersAt(fork), i)).value, hdr, t.kids[i], height, 0);
      RootWalked(g, disk, fork, hdr, t, height, i + 1);
    }
  }

  // ------------------------------------------------------------ sparse content

  function AsExtent(g: Geometry, bs: nat, r: Record): (e: Extent)
    requires g.agSpan > 0
    ensures e.Valid()
  {
    Extent(r.startoff * bs, r.blockCount * bs, OnDisk(PlaceOf(g, bs, r)))
  }

  function AsExtents(g: Geometry, bs: nat, rs: seq<Record>): (es: seq<Extent>)
    requires g.agSpan > 0
    ensures |es| == |rs| && AllValid(es)
  {
    seq(|rs|, i requires 0 <= i < |rs| => AsExtent(g, bs, rs[i]))
  }

  /** Records in file order without overlap. */
  ghost predicate Sorted(rs: seq<Record>) {
    forall i, j :: 0 <= i < j < |rs| ==> rs[i].startoff + rs[i].blockCount <= rs[j].startoff
  }

  /** Where record k starts in the file, and where the one before it ends, in bytes. */
  function StartOf(bs: nat, rs: seq<Record>, k: nat): nat
    requires k < |rs|
  {
    rs[k].startoff * bs
  }

  function EndBefore(bs: nat, rs: seq<Record>, k: nat): nat
    requires k <= |rs|
  {
    if k == 0 then 0 else (rs[k - 1].startoff + rs[k - 1].blockCount) * bs
  }

  /** The eager reader comes to record k: the file is not full before it, nor up to its offset as a uint64. */
  predicate Reached(bs: nat, rs: seq<Record>, size: nat, k: nat)
    requires k < |rs|
  {
    EndBefore(bs, rs, k) < size && StartOf(bs, rs, k) % WORD < size
  }

  /** Neither the offset of a record that is reached nor its place on disk wraps in the 64 bits it is computed in. */
  ghost predicate Addressable(g: Geometry, bs: nat, rs: seq<Record>, size: nat)
    requires g.agSpan > 0
  {
    forall k :: 0 <= k < |rs| && Reached(bs, rs, size, k) ==> StartOf(bs, rs, k) < WORD && PlaceOf(g, bs, rs[k]) < WORD
  }

  /** What is read of a record that is reached is within the reader's limits on blocks, offsets and lengths. */
  ghost predicate InRange(g: Geometry, bs: nat, rs: seq<Record>, size: nat)
    requires g.agSpan > 0
  {
    forall k :: 0 <= k < |rs| && Reached(bs, rs, size, k) ==>
      && rs[k].startBlock <= MAX_BLOCK && PlaceOf(g, bs, rs[k]) <= MAX_OFFSET
      && Min(rs[k].blockCount * bs, size - StartOf(bs, rs, k)) <= MAX_LENGTH
  }

  /** Where a record's blocks are on disk, in bytes. */
  function PlaceOf(g: Geometry, bs: nat, r: Record): nat
    requires g.agSpan > 0
  {
    Linear(g, r.startBlock) * bs
  }

  /** Where the reader looks for them. */
  function Address(g: Geometry, bs: nat, r: Record): nat
    requires g.agSpan > 0
  {
    Fsb(g, r.startBlock) * bs % WORD
  }

  /** readBytes, with its limits. */
  function ReadBytes(read: Reader, at: nat, n: nat): Option<bytes> { Limited(read, MAX_OFFSET, MAX_LENGTH)(at, n) }

  /** Zeros from the end of what is there to an extent's offset (a uint64), as far as the file goes. */
  function HoleBefore(bs: nat, r: Record, size: nat, pos: nat): nat
    requires pos <= size
  {
    var off := r.startoff * bs % WORD;
    if off > pos then Min(off - pos, size - pos) else 0
  }

  /** readExtents from record i on, with what was assembled before it. */
  function Sequential(g: Geometry, bs: nat, read: Reader, rs: seq<Record>, i: nat, size: nat, out: bytes): Option<bytes>
    requires g.agSpan > 0 && i <= |rs| && |out| <= size
    decreases |rs| - i
  {
    if i == |rs| || |out| >= size then Some(out + Zeros(size - |out|))
    else
      var filled := out + Zeros(HoleBefore(bs, rs[i], size, |out|));
      if |filled| >= size then Some(filled)
      else if rs[i].startBlock > MAX_BLOCK then None
      else
        var n: nat := Min(rs[i].blockCount * bs, size - |filled|);
        match ReadBytes(read, Address(g, bs, rs[i]), n)
        case None => None
        case Some(d) => if |d| != n then None else Sequential(g, bs, read, rs, i + 1, size, filled + d)
  }

  method ReadExtents(g: Geometry, bs: nat, read: Reader, rs: seq<Record>, size: nat) returns (r: Option<bytes>)
    requires g.agSpan > 0
    ensures r == Sequential(g, bs, read, rs, 0, size, [])
  {
    var out: bytes := [];
    for i := 0 to |rs|
      invariant |out| <= size && Sequential(g, bs, read, rs, 0, size, []) == Sequential(g, bs, read, rs, i, size, out)
    {
      if |out| >= size { break; }
      out := out + Zeros(HoleBefore(bs, rs[i], size, |out|));
      if |out| >= size {
        assert out + Zeros(0) == out;
        return Some(out);
      }
      if rs[i].startBlock > MAX_BLOCK { return None; }
      var n := Min(rs[i].blockCount * bs, size - |out|);
      var chunk := ReadBytes(read, Address(g, bs, rs[i]), n);
      if chunk.None? || |chunk.value| != n { return None; }
      out := out + chunk.value;
    }
    if |out| < size { out := out + Zeros(size - |out|); } else { assert out + Zeros(0) == out; }
    r := Some(out);
  }

  /** readFileData of an extent or B-tree fork; None is any error. */
  function Eager(g: Geometry, bs: nat, read: Reader, rs: seq<Record>, size: nat): Option<bytes>
    requires g.agSpan > 0
  {
    if size > MAX_FILE_BYTES then None else Sequential(g, bs, read, rs, 0, size, [])
  }

  method ReadFileData(g: Geometry, bs: nat, read: Reader, rs: seq<Record>, size: nat) returns (r: Option<bytes>)
    requires g.agSpan > 0
    ensures r == Eager(g, bs, read, rs, size)
  {
    if size > MAX_FILE_BYTES { return None; }
    r := ReadExtents(g, bs, read, rs, size);
  }

  /** Where record k starts and ends in the file, in bytes. */
  lemma Ends(bs: nat, r: Record)
    ensures r.startoff * bs + r.blockCount * bs == (r.startoff + r.blockCount) * bs
  {
    MulAdd(r.startoff, r.blockCount, bs);
  }

  lemma SortedDisjoint(g: Geometry, bs: nat, rs: seq<Record>)
    requires g.agSpan > 0 && Sorted(rs)
    ensures Disjoint(AsExtents(g, bs, rs))
  {
    hide Linear;
    var es := AsExtents(g, bs, rs);
    forall i, j | 0 <= i < j < |es| ensures es[i].off + es[i].len <= es[j].off || es[j].off + es[j].len <= es[i].off {
      Ends(bs, rs[i]);
      MulLe(rs[i].startoff + rs[i].blockCount, rs[j].startoff, bs);
    }
  }

  /** What the eager reader has assembled before record i: the content so far, ending where record i - 1 ends. */
  ghost predicate UpTo(bs: nat, rs: seq<Record>, i: nat, content: bytes, out: bytes)
    requires i <= |rs|
  {
    out <= content && (|out| < |content| ==> |out| == EndBefore(bs, rs, i))
  }

  /** No record lies between the end of one and the start of the next. */
  lemma GapIsHole(g: Geometry, bs: nat, rs: seq<Record>, i: nat, lo: nat, hi: nat)
    requires g.agSpan > 0 && bs > 0 && Sorted(rs) && i <= |rs| && lo < hi
    requires lo >= EndBefore(bs, rs, i)
    requires i < |rs| ==> hi <= StartOf(bs, rs, i)
    ensures FirstAt(AsExtents(g, bs, rs), lo) == None
    ensures forall e :: e in AsExtents(g, bs, rs) ==> !(lo < e.off < hi)
  {
    hide Linear;
    var es := AsExtents(g, bs, rs);
    forall e | e in es ensures !e.Covers(lo) && !(lo < e.off < hi) {
      var k :| 0 <= k < |es| && es[k] == e;
      Ends(bs, rs[k]);
      if k < i {
        MulLe(rs[k].startoff + rs[k].blockCount, rs[i - 1].startoff + rs[i - 1].blockCount, bs);
        MulLe(rs[k].startoff, rs[k].startoff + rs[k].blockCount, bs);
      } else {
        MulLe(rs[i].startoff, rs[k].startoff, bs);
      }
    }
  }

  lemma ZerosPrefix(content: bytes, out: bytes, n: nat)
    requires out <= content && |out| + n <= |content| && content[|out|..|out| + n] == Zeros(n)
    ensures out + Zeros(n) <= content
  {
    assert content[..|out| + n] == content[..|out|] + content[|out|..|out| + n];
  }

  lemma HoleFilled(g: Geometry, m: Media, bs: nat, rs: seq<Record>, i: nat, size: nat, out: bytes, n: nat)
    requires g.agSpan > 0 && bs > 0 && Sorted(rs) && i <= |rs|
    requires UpTo(bs, rs, i, Content(m, AsExtents(g, bs, rs), size), out) && |out| + n <= size
    requires i < |rs| ==> |out| + n <= rs[i].startoff * bs
    ensures out + Zeros(n) <= Content(m, AsExtents(g, bs, rs), size)
  {
    hide Content, AsExtents, Sorted;
    if n > 0 {
      GapIsHole(g, bs, rs, i, |out|, |out| + n);
      HoleReadsZero(m, AsExtents(g, bs, rs), size, |out|, n);
      ZerosPrefix(Content(m, AsExtents(g, bs, rs), size), out, n);
    } else {
      assert out + Zeros(0) == out;
    }
  }

  lemma StaysTo(es: seq<Extent>, o: nat, j: nat)
    requires Steady(es) && FirstAt(es, o).Some? && o <= j && FirstAt(es, o).value.Covers(j)
    ensures FirstAt(es, j) == FirstAt(es, o)
  {
  }

  lemma DataFilled(g: Geometry, m: Media, bs: nat, rs: seq<Record>, i: nat, size: nat, out: bytes, n: nat)
    requires g.agSpan > 0 && bs > 0 && Sorted(rs) && i < |rs| && rs[i].blockCount > 0
    requires out <= Content(m, AsExtents(g, bs, rs), size) && |out| == rs[i].startoff * bs < size
    requires n == Min(rs[i].blockCount * bs, size - |out|)
    ensures out + Stored(m, PlaceOf(g, bs, rs[i]), n) <= Content(m, AsExtents(g, bs, rs), size)
  {
    hide Content, PlaceOf, Stored, Disjoint, Steady, FirstAt, AllValid;
    var es := AsExtents(g, bs, rs);
    var content, e := Content(m, es, size), es[i];
    SortedDisjoint(g, bs, rs);
    MulLe(1, rs[i].blockCount, bs);
    assert e.Covers(|out|);
    OnlyOneCovers(es, e, FirstAt(es, |out|).value, |out|);
    DisjointIsSteady(es);
    forall j | |out| <= j < |out| + n ensures FirstAt(es, j) == FirstAt(es, |out|) { StaysTo(es, |out|, j); }
    DataReadsExtent(m, es, size, |out|, n);
    StoredPart(m, PlaceOf(g, bs, rs[i]), e.len, 0, n);
    assert content[..|out| + n] == content[..|out|] + content[|out|..|out| + n];
  }

  lemma AddressIsPlace(g: Geometry, bs: nat, r: Record)
    requires g.agSpan > 0
    ensures PlaceOf(g, bs, r) < WORD ==> Address(g, bs, r) == PlaceOf(g, bs, r)
    ensures Address(g, bs, r) < WORD
  {
    hide Linear;
    ModMul(Linear(g, r.startBlock), bs, WORD);
  }

  lemma ReadsWithin(m: Media, read: Reader, at: nat, n: nat)
    requires Honest(m, read)
    ensures ReadBytes(read, at, n).Some? ==> ReadBytes(read, at, n).value == Stored(m, at, n)
  {
    hide Honest, Limited;
    LimitedHonest(m, read, MAX_OFFSET, MAX_LENGTH);
    ReadsStored(m, Limited(read, MAX_OFFSET, MAX_LENGTH), at, n);
  }

  /** For sorted records reading one after the other gives the zero-filled content, whenever it succeeds. */
  lemma {:induction false} SequentialIsContent(g: Geometry, m: Media, bs: nat, read: Reader, rs: seq<Record>, i: nat,
                                               size: nat, out: bytes)
    requires g.agSpan > 0 && bs > 0 && Sorted(rs) && Addressable(g, bs, rs, size) && Honest(m, read)
    requires i <= |rs| && |out| <= size && forall k :: 0 <= k < |rs| ==> rs[k].blockCount > 0
    requires UpTo(bs, rs, i, Content(m, AsExtents(g, bs, rs), size), out)
    requires Sequential(g, bs, read, rs, i, size, out).Some?
    ensures Sequential(g, bs, read, rs, i, size, out).value == Content(m, AsExtents(g, bs, rs), size)
    decreases |rs| - i
  {
    hide Content, AsExtents, Honest, PlaceOf, Address, Stored, Sorted, ReadBytes;
    var content := Content(m, AsExtents(g, bs, rs), size);
    if |out| >= size {
      assert out + Zeros(0) == out;
    } else if i == |rs| {
      HoleFilled(g, m, bs, rs, i, size, out, size - |out|);
    } else {
      NextStarts(bs, rs, i);
      var n := HoleBefore(bs, rs[i], size, |out|);
      HoleFilled(g, m, bs, rs, i, size, out, n);
      var filled := out + Zeros(n);
      if |filled| < size {
        var k := Min(rs[i].blockCount * bs, size - |filled|);
        assert Reached(bs, rs, size, i);
        AddressIsPlace(g, bs, rs[i]);
        ReadsWithin(m, read, PlaceOf(g, bs, rs[i]), k);
        DataFilled(g, m, bs, rs, i, size, filled, k);
        Ends(bs, rs[i]);
        SequentialIsContent(g, m, bs, read, rs, i + 1, size, filled + Stored(m, PlaceOf(g, bs, rs[i]), k));
      }
    }
  }

  /** Wrapping only makes an offset smaller, and records start behind the one before. */
  lemma NextStarts(bs: nat, rs: seq<Record>, i: nat)
    requires Sorted(rs) && i < |rs|
    ensures StartOf(bs, rs, i) % WORD <= StartOf(bs, rs, i)
    ensures StartOf(bs, rs, i) < WORD ==> StartOf(bs, rs, i) % WORD == StartOf(bs, rs, i)
    ensures EndBefore(bs, rs, i) <= StartOf(bs, rs, i) <= EndBefore(bs, rs, i + 1)
  {
    var x := StartOf(bs, rs, i);
    assert x == x / WORD * WORD + x % WORD;
    if x < WORD { DivModUnique(x, WORD, 0, x); }
    if i > 0 { MulLe(rs[i - 1].startoff + rs[i - 1].blockCount, rs[i].startoff, bs); }
    MulLe(rs[i].startoff, rs[i].startoff + rs[i].blockCount, bs);
  }

  // ------------------------------------------------------------ exactly when

  /** The eager reader only ever appends. */
  lemma {:induction false} SequentialAppends(g: Geometry, bs: nat, read: Reader, rs: seq<Record>, i: nat, size: nat,
                                             out: bytes)
    requires g.agSpan > 0 && i <= |rs| && |out| <= size && Sequential(g, bs, read, rs, i, size, out).Some?
    ensures out <= Sequential(g, bs, read, rs, i, size, out).value
    decreases |rs| - i
  {
    hide Address, ReadBytes;
    if i < |rs| && |out| < size {
      var filled := out + Zeros(HoleBefore(bs, rs[i], size, |out|));
      if |filled| < size {
        var n: nat := Min(rs[i].blockCount * bs, size - |filled|);
        var d := ReadBytes(read, Address(g, bs, rs[i]), n).value;
        SequentialAppends(g, bs, read, rs, i + 1, size, filled + d);
      }
    }
  }

  /** When every block can be read, it succeeds if no record that is reached is out of range. */
  lemma {:induction false} SequentialSucceeds(g: Geometry, m: Media, bs: nat, rs: seq<Record>, i: nat, size: nat,
                                              out: bytes)
    requires g.agSpan > 0 && bs > 0 && Sorted(rs) && Addressable(g, bs, rs, size) && InRange(g, bs, rs, size)
    requires i <= |rs| && |out| <= size && (|out| < size ==> |out| == EndBefore(bs, rs, i))
    ensures Sequential(g, bs, Perfect(m), rs, i, size, out).Some?
    decreases |rs| - i
  {
    hide PlaceOf, Address, Stored, Sorted;
    if i < |rs| && |out| < size {
      NextStarts(bs, rs, i);
      var filled := out + Zeros(HoleBefore(bs, rs[i], size, |out|));
      if |filled| < size {
        assert Reached(bs, rs, size, i);
        AddressIsPlace(g, bs, rs[i]);
        var n: nat := Min(rs[i].blockCount * bs, size - |filled|);
        Ends(bs, rs[i]);
        var d := ReadBytes(Perfect(m), Address(g, bs, rs[i]), n).value;
        SequentialSucceeds(g, m, bs, rs, i + 1, size, filled + d);
      }
    }
  }

  lemma {:induction false} EndsAscend(bs: nat, rs: seq<Record>, i: nat, k: nat)
    requires Sorted(rs) && i <= k < |rs|
    ensures EndBefore(bs, rs, i) <= EndBefore(bs, rs, k) && (i < k ==> StartOf(bs, rs, i) <= EndBefore(bs, rs, k))
    ensures i < k ==> EndBefore(bs, rs, i + 1) <= EndBefore(bs, rs, k)
    decreases k - i
  {
    hide Sorted;
    if i < k {
      NextStarts(bs, rs, i);
      EndsAscend(bs, rs, i + 1, k);
    }
  }

  /** Record k starts and is found where the 64-bit sums say, and what is read of it is within the limits. */
  predicate Fits(g: Geometry, bs: nat, rs: seq<Record>, size: nat, k: nat)
    requires g.agSpan > 0 && k < |rs|
  {
    && StartOf(bs, rs, k) < WORD && rs[k].startBlock <= MAX_BLOCK && PlaceOf(g, bs, rs[k]) <= MAX_OFFSET
    && Min(rs[k].blockCount * bs, size - StartOf(bs, rs, k)) <= MAX_LENGTH
  }

  /** A disk that shows where record k is read wrongly: ones everywhere, or only at its own place. */
  function Telltale(g: Geometry, bs: nat, rs: seq<Record>, k: nat): Media
    requires g.agSpan > 0 && k < |rs|
  {
    if StartOf(bs, rs, k) >= WORD then (x: nat) => 1 else (x: nat) => if x == PlaceOf(g, bs, rs[k]) then 1 else 0
  }

  /** Behind the end of record k - 1 and before the true start of record k the file is zero. */
  lemma GapReadsZero(g: Geometry, m: Media, bs: nat, rs: seq<Record>, k: nat, size: nat, o: nat)
    requires g.agSpan > 0 && bs > 0 && Sorted(rs) && k < |rs| && EndBefore(bs, rs, k) <= o < size
    requires o < StartOf(bs, rs, k)
    ensures Content(m, AsExtents(g, bs, rs), size)[o] == 0
  {
    hide Content, AsExtents, Sorted;
    GapIsHole(g, bs, rs, k, o, o + 1);
    HoleReadsZero(m, AsExtents(g, bs, rs), size, o, 1);
    assert Content(m, AsExtents(g, bs, rs), size)[o..o + 1][0] == 0;
  }

  /** At the start of record k the file has the first byte of its place. */
  lemma StartReadsPlace(g: Geometry, m: Media, bs: nat, rs: seq<Record>, k: nat, size: nat)
    requires g.agSpan > 0 && bs > 0 && Sorted(rs) && k < |rs| && rs[k].blockCount > 0 && StartOf(bs, rs, k) < size
    ensures Content(m, AsExtents(g, bs, rs), size)[StartOf(bs, rs, k)] == m(PlaceOf(g, bs, rs[k]))
  {
    hide Content, PlaceOf, Disjoint, FirstAt, AllValid;
    var es, o := AsExtents(g, bs, rs), StartOf(bs, rs, k);
    SortedDisjoint(g, bs, rs);
    MulLe(1, rs[k].blockCount, bs);
    assert es[k].Covers(o);
    OnlyOneCovers(es, es[k], FirstAt(es, o).value, o);
    ContentAt(m, es, size, o);
  }

  /** A record that is reached and does not fit spoils the file on that disk: reading record k itself. */
  lemma SpoiledHere(g: Geometry, bs: nat, rs: seq<Record>, k: nat, size: nat, out: bytes)
    requires g.agSpan > 0 && bs > 0 && Sorted(rs) && k < |rs| && size < WORD && rs[k].blockCount > 0
    requires Reached(bs, rs, size, k) && !Fits(g, bs, rs, size, k) && |out| == EndBefore(bs, rs, k)
    ensures var m := Telltale(g, bs, rs, k);
            Sequential(g, bs, Perfect(m), rs, k, size, out) != Some(Content(m, AsExtents(g, bs, rs), size))
  {
    hide Content, Sorted, PlaceOf, Address, AsExtents;
    var m := Telltale(g, bs, rs, k);
    NextStarts(bs, rs, k);
    AddressIsPlace(g, bs, rs[k]);
    MulLe(1, rs[k].blockCount, bs);
    var filled := out + Zeros(HoleBefore(bs, rs[k], size, |out|));
    var len: nat := Min(rs[k].blockCount * bs, size - |filled|);
    if rs[k].startBlock <= MAX_BLOCK && ReadBytes(Perfect(m), Address(g, bs, rs[k]), len).Some? {
      var d := ReadBytes(Perfect(m), Address(g, bs, rs[k]), len).value;
      assert d[0] == m(Address(g, bs, rs[k]));
      var r := Sequential(g, bs, Perfect(m), rs, k + 1, size, filled + d);
      if r.Some? {
        SequentialAppends(g, bs, Perfect(m), rs, k + 1, size, filled + d);
        assert r.value[|filled|] == (filled + d)[|filled|] == d[0];
        if StartOf(bs, rs, k) >= WORD {
          GapReadsZero(g, m, bs, rs, k, size, |filled|);
        } else {
          StartReadsPlace(g, m, bs, rs, k, size);
        }
      }
    }
  }

  /** So it does whatever record the reading starts at. */
  lemma {:induction false} Spoiled(g: Geometry, bs: nat, rs: seq<Record>, k: nat, i: nat, size: nat, out: bytes)
    requires g.agSpan > 0 && bs > 0 && Sorted(rs) && i <= k < |rs| && size < WORD
    requires forall j :: 0 <= j < |rs| ==> rs[j].blockCount > 0
    requires Reached(bs, rs, size, k) && !Fits(g, bs, rs, size, k) && |out| == EndBefore(bs, rs, i) <= size
    ensures var m := Telltale(g, bs, rs, k);
            Sequential(g, bs, Perfect(m), rs, i, size, out) != Some(Content(m, AsExtents(g, bs, rs), size))
    decreases k - i
  {
    hide Content, Sorted, Address, AsExtents, Telltale, Fits, ReadBytes;
    if i == k {
      SpoiledHere(g, bs, rs, k, size, out);
    } else {
      NextStarts(bs, rs, i);
      EndsAscend(bs, rs, i, k);
      Ends(bs, rs[i]);
      var filled := out + Zeros(HoleBefore(bs, rs[i], size, |out|));
      var n: nat := rs[i].blockCount * bs;
      var d := ReadBytes(Perfect(Telltale(g, bs, rs, k)), Address(g, bs, rs[i]), n);
      if d.Some? && |d.value| == n { Spoiled(g, bs, rs, k, i + 1, size, filled + d.value); }
    }
  }

  /**
   * Exactly when the eager reader gives the zero-filled content of every disk: the file is within the limit,
   * and of the records that it comes to none wraps or passes a limit of the reader.
   */
  lemma EagerIsContent(g: Geometry, bs: nat, rs: seq<Record>, size: nat)
    requires g.agSpan > 0 && bs > 0 && Sorted(rs) && forall k :: 0 <= k < |rs| ==> rs[k].blockCount > 0
    ensures (forall m: Media :: Eager(g, bs, Perfect(m), rs, size) == Some(Content(m, AsExtents(g, bs, rs), size)))
       <==> (size <= MAX_FILE_BYTES && Addressable(g, bs, rs, size) && InRange(g, bs, rs, size))
  {
    hide Content, AsExtents, Sequential, Sorted, Reached, StartOf, PlaceOf;
    if size > MAX_FILE_BYTES {
      assert Eager(g, bs, Perfect(m => 0), rs, size) == None;
    } else if Addressable(g, bs, rs, size) && InRange(g, bs, rs, size) {
      forall m: Media ensures Eager(g, bs, Perfect(m), rs, size) == Some(Content(m, AsExtents(g, bs, rs), size)) {
        SequentialSucceeds(g, m, bs, rs, 0, size, []);
        SequentialIsContent(g, m, bs, Perfect(m), rs, 0, size, []);
      }
    } else {
      var k :| 0 <= k < |rs| && Reached(bs, rs, size, k) && !Fits(g, bs, rs, size, k);
      Spoiled(g, bs, rs, k, 0, size, []);
    }
  }

  // ------------------------------------------------------------ the streaming reader

  /** extentAt: the first record that covers a file block. */
  function RecordFor(rs: seq<Record>, block: nat): (r: Option<Record>)
    ensures r.Some? ==> r.value.startoff <= block < r.value.startoff + r.value.blockCount
  {
    if rs == [] then None
    else if rs[0].startoff <= block < rs[0].startoff + rs[0].blockCount then Some(rs[0])
    else RecordFor(rs[1..], block)
  }

  /** The linear block of a file block that a record covers. */
  function DataBlock(g: Geometry, r: Record, block: nat): nat
    requires g.agSpan > 0 && r.startoff <= block
  {
    Linear(g, r.startBlock) + (block - r.startoff)
  }

  /** The block at a number computed in 64 bits; None for a failed read. */
  function ReadData(bs: nat, read: Reader, fsb: nat): Option<bytes> {
    if fsb > MAX_BLOCK then None
    else
      match ReadBytes(read, fsb * bs % WORD, bs)
      case None => None
      case Some(d) => if |d| < bs then None else Some(d)
  }

  /** The piece copied at offset o: the rest of its block, from the covering record or as zeros. */
  function Piece(g: Geometry, bs: nat, read: Reader, rs: seq<Record>, o: nat, t: nat): Option<bytes>
    requires g.agSpan > 0 && bs > 0
  {
    var block, within := o / bs, o % bs;
    var n: nat := Min(bs - within, t);
    match RecordFor(rs, block)
    case None => Some(Zeros(n))
    case Some(r) =>
      match ReadData(bs, read, (Fsb(g, r.startBlock) + (block - r.startoff)) % WORD)
      case None => None
      case Some(d) => Some(d[within..within + n])
  }

  function Pieces(g: Geometry, bs: nat, read: Reader, rs: seq<Record>): (nat, nat) -> Option<bytes>
    requires g.agSpan > 0 && bs > 0
  {
    (o: nat, t: nat) => Piece(g, bs, read, rs, o, t)
  }

  /** The block that holds offset o of the file cannot be read. */
  predicate BlockFails(g: Geometry, bs: nat, read: Reader, rs: seq<Record>, o: nat)
    requires g.agSpan > 0 && bs > 0
  {
    match RecordFor(rs, o / bs)
    case None => false
    case Some(r) => ReadData(bs, read, DataBlock(g, r, o / bs) % WORD) == None
  }

  /** Its number wraps, and lands within the limits: another block would be read for it. */
  predicate Astray(g: Geometry, bs: nat, rs: seq<Record>, o: nat)
    requires g.agSpan > 0 && bs > 0
  {
    match RecordFor(rs, o / bs)
    case None => false
    case Some(r) =>
      var b := DataBlock(g, r, o / bs);
      b * bs >= WORD && b % WORD <= MAX_BLOCK && b * bs % WORD <= MAX_OFFSET && bs <= MAX_LENGTH
  }

  /** Its number is within the limits. */
  predicate BlockInRange(g: Geometry, bs: nat, rs: seq<Record>, o: nat)
    requires g.agSpan > 0 && bs > 0
  {
    match RecordFor(rs, o / bs)
    case None => true
    case Some(r) =>
      var b := DataBlock(g, r, o / bs);
      b <= MAX_BLOCK && b * bs <= MAX_OFFSET && bs <= MAX_LENGTH
  }

  /** The number of a data block wraps as a whole. */
  lemma SameBlock(g: Geometry, r: Record, block: nat)
    requires g.agSpan > 0 && r.startoff <= block
    ensures (Fsb(g, r.startBlock) + (block - r.startoff)) % WORD == DataBlock(g, r, block) % WORD
  {
    hide Linear;
    var x, d := Linear(g, r.startBlock), block - r.startoff;
    var y := x % WORD + d;
    MulAdd(x / WORD, y / WORD, WORD);
    DivModUnique(x + d, WORD, x / WORD + y / WORD, y % WORD);
  }

  lemma {:induction false} RecordIsExtent(g: Geometry, bs: nat, rs: seq<Record>, o: nat)
    requires g.agSpan > 0 && bs > 0
    ensures FirstAt(AsExtents(g, bs, rs), o) ==
            match RecordFor(rs, o / bs) case None => None case Some(r) => Some(AsExtent(g, bs, r))
  {
    hide Linear;
    if rs != [] {
      var es := AsExtents(g, bs, rs);
      assert es[0] == AsExtent(g, bs, rs[0]) && es[1..] == AsExtents(g, bs, rs[1..]);
      RecordIsExtent(g, bs, rs[1..], o);
      CoversBlocks(g, bs, rs[0], o);
    }
  }

  /** An extent of whole blocks covers an offset exactly when its record covers the offset's block. */
  lemma CoversBlocks(g: Geometry, bs: nat, r: Record, o: nat)
    requires g.agSpan > 0 && bs > 0
    ensures AsExtent(g, bs, r).Covers(o) <==> r.startoff <= o / bs < r.startoff + r.blockCount
  {
    hide Linear;
    var q := o / bs;
    assert o == q * bs + o % bs;
    Ends(bs, r);
    if r.startoff <= q { MulLe(r.startoff, q, bs); } else { MulLe(q + 1, r.startoff, bs); MulAdd(q, 1, bs); }
    if q < r.startoff + r.blockCount { MulLe(q + 1, r.startoff + r.blockCount, bs); MulAdd(q, 1, bs); }
    else { MulLe(r.startoff + r.blockCount, q, bs); }
  }

  /** The stretch of zeros in a hole ends with its block, where no record can start before. */
  lemma BlockIsHole(g: Geometry, bs: nat, rs: seq<Record>, o: nat, n: nat)
    requires g.agSpan > 0 && bs > 0 && n <= bs - o % bs && RecordFor(rs, o / bs) == None
    ensures FirstAt(AsExtents(g, bs, rs), o) == None
    ensures forall e :: e in AsExtents(g, bs, rs) ==> !(o < e.off < o + n)
  {
    hide Linear;
    RecordIsExtent(g, bs, rs, o);
    var es, q := AsExtents(g, bs, rs), o / bs;
    assert o == q * bs + o % bs;
    forall e | e in es ensures !(o < e.off < o + n) {
      var k :| 0 <= k < |es| && es[k] == e;
      if rs[k].startoff <= q {
        MulLe(rs[k].startoff, q, bs);
      } else {
        MulLe(q + 1, rs[k].startoff, bs);
        MulAdd(q, 1, bs);
      }
    }
  }

  /** Inside a record, the content up to the end of a block is that block's on disk. */
  lemma BlockIsData(g: Geometry, m: Media, bs: nat, rs: seq<Record>, size: nat, o: nat, n: nat, r: Record)
    requires g.agSpan > 0 && bs > 0 && o + n <= size && n <= bs - o % bs
    requires RecordFor(rs, o / bs) == Some(r)
    ensures Content(m, AsExtents(g, bs, rs), size)[o..o + n] ==
            Stored(m, DataBlock(g, r, o / bs) * bs, bs)[o % bs..o % bs + n]
  {
    hide Content, Stored, AsExtents, Linear, RecordFor, FirstAt;
    var e := AsExtent(g, bs, r);
    RecordIsExtent(g, bs, rs, o);
    BlockInRecord(g, bs, r, o);
    forall j | o <= j < o + n ensures FirstAt(AsExtents(g, bs, rs), j) == Some(e) {
      WithinBlock(bs, o, j);
      RecordIsExtent(g, bs, rs, j);
    }
    DataReadsExtent(m, AsExtents(g, bs, rs), size, o, n);
    SameWindow(m, e.src.at, e.len, o - e.off, DataBlock(g, r, o / bs) * bs, bs, o % bs, n);
  }

  lemma WithinBlock(bs: nat, o: nat, j: nat)
    requires bs > 0 && o <= j && j - o < bs - o % bs
    ensures j / bs == o / bs
  {
    DivModUnique(j, bs, o / bs, o % bs + (j - o));
  }

  /** Two stretches of the medium show the same bytes where they overlap. */
  lemma SameWindow(m: Media, a: nat, len: nat, v: nat, b: nat, len': nat, w: nat, n: nat)
    requires a + v == b + w && v + n <= len && w + n <= len'
    ensures Stored(m, a, len)[v..v + n] == Stored(m, b, len')[w..w + n]
  {
    hide Stored;
    StoredPart(m, a, len, v, v + n);
    StoredPart(m, b, len', w, w + n);
  }

  /** Where an offset lies in its record, and where that is on disk. */
  lemma BlockInRecord(g: Geometry, bs: nat, r: Record, o: nat)
    requires g.agSpan > 0 && bs > 0 && r.startoff <= o / bs < r.startoff + r.blockCount
    ensures r.startoff * bs <= o && o - r.startoff * bs + (bs - o % bs) <= r.blockCount * bs
    ensures Linear(g, r.startBlock) * bs + (o - r.startoff * bs) ==
            (Linear(g, r.startBlock) + (o / bs - r.startoff)) * bs + o % bs
  {
    hide Linear;
    var q := o / bs;
    assert o == q * bs + o % bs;
    MulAdd(r.startoff, q - r.startoff, bs);
    MulLe(r.startoff, q, bs);
    MulAdd(Linear(g, r.startBlock), q - r.startoff, bs);
    MulLe(q - r.startoff + 1, r.blockCount, bs);
    MulAdd(q - r.startoff, 1, bs);
  }

  /** What reading the block of a covered offset gives: that block, if its number does not go astray. */
  lemma DataIsStored(g: Geometry, m: Media, bs: nat, read: Reader, rs: seq<Record>, o: nat)
    requires g.agSpan > 0 && bs > 0 && Honest(m, read) && RecordFor(rs, o / bs).Some? && !Astray(g, bs, rs, o)
    ensures var b := DataBlock(g, RecordFor(rs, o / bs).value, o / bs);
            ReadData(bs, read, b % WORD).Some? ==> ReadData(bs, read, b % WORD).value == Stored(m, b * bs, bs)
  {
    hide Honest, Stored, RecordFor, DataBlock, Limited;
    var b := DataBlock(g, RecordFor(rs, o / bs).value, o / bs);
    ModMul(b, bs, WORD);
    ReadsWithin(m, read, b % WORD * bs % WORD, bs);
    assert ReadBytes(read, b * bs % WORD, bs).Some? ==> b * bs % WORD <= MAX_OFFSET && bs <= MAX_LENGTH by {
      LimitsKept(read, b * bs % WORD, bs);
    }
  }

  lemma LimitsKept(read: Reader, at: nat, n: nat)
    ensures n > 0 && ReadBytes(read, at, n).Some? ==> at <= MAX_OFFSET && n <= MAX_LENGTH
  {
  }

  lemma PieceIsReal(g: Geometry, m: Media, bs: nat, read: Reader, rs: seq<Record>, size: nat, o: nat, t: nat)
    requires g.agSpan > 0 && bs > 0 && Honest(m, read) && !Astray(g, bs, rs, o) && 0 < t && o + t <= size
    ensures var p := Piece(g, bs, read, rs, o, t);
            p.Some? ==> 0 < |p.value| <= t && p.value == Content(m, AsExtents(g, bs, rs), size)[o..o + |p.value|]
  {
    hide Honest, Content, Stored, AsExtents, Linear, RecordFor, ReadData, DataBlock, Astray, Fsb;
    var block, within := o / bs, o % bs;
    var n := Min(bs - within, t);
    match RecordFor(rs, block) {
      case None =>
        BlockIsHole(g, bs, rs, o, n);
        HoleReadsZero(m, AsExtents(g, bs, rs), size, o, n);
      case Some(r) =>
        SameBlock(g, r, block);
        BlockIsData(g, m, bs, rs, size, o, n, r);
        DataIsStored(g, m, bs, read, rs, o);
    }
  }

  lemma PieceFailsWithBlock(g: Geometry, bs: nat, read: Reader, rs: seq<Record>, o: nat, t: nat)
    requires g.agSpan > 0 && bs > 0
    ensures Piece(g, bs, read, rs, o, t) == None <==> BlockFails(g, bs, read, rs, o)
  {
    hide Linear, RecordFor, ReadData, DataBlock, Fsb;
    if RecordFor(rs, o / bs).Some? { SameBlock(g, RecordFor(rs, o / bs).value, o / bs); }
  }

  /**
   * Real bytes or an error, for every list of records none of which leads astray, and an error exactly where
   * the block cannot be read.
   */
  lemma StreamingHonest(g: Geometry, m: Media, bs: nat, read: Reader, rs: seq<Record>, size: nat)
    requires g.agSpan > 0 && bs > 0 && Honest(m, read)
    ensures (forall o :: 0 <= o < size ==> !Astray(g, bs, rs, o)) ==>
              PieceHonest(Content(m, AsExtents(g, bs, rs), size), Pieces(g, bs, read, rs))
    ensures forall o: nat, t: nat :: 0 < t && o + t <= size ==>
              (Piece(g, bs, read, rs, o, t) == None <==> BlockFails(g, bs, read, rs, o))
  {
    hide Honest, Content, Piece, Astray, BlockFails, AsExtents;
    forall o: nat, t: nat | 0 < t && o + t <= size
      ensures Piece(g, bs, read, rs, o, t) == None <==> BlockFails(g, bs, read, rs, o)
      ensures !Astray(g, bs, rs, o) ==>
                var p := Piece(g, bs, read, rs, o, t);
                p.Some? ==> 0 < |p.value| <= t && p.value == Content(m, AsExtents(g, bs, rs), size)[o..o + |p.value|]
    {
      PieceFailsWithBlock(g, bs, read, rs, o, t);
      if !Astray(g, bs, rs, o) { PieceIsReal(g, m, bs, read, rs, size, o, t); }
    }
  }

  /** Without wrapping, the streaming reader fails only where the disk does. */
  lemma InRangeIsRead(g: Geometry, bs: nat, read: Reader, rs: seq<Record>, o: nat)
    requires g.agSpan > 0 && bs > 0 && BlockInRange(g, bs, rs, o)
    ensures !Astray(g, bs, rs, o)
    ensures RecordFor(rs, o / bs).Some? ==>
              var b := DataBlock(g, RecordFor(rs, o / bs).value, o / bs);
              ReadData(bs, read, b % WORD) ==
              match read(b * bs, bs) case None => None case Some(d) => if |d| < bs then None else Some(d)
  {
    hide Linear, RecordFor, DataBlock;
    if RecordFor(rs, o / bs).Some? {
      var b := DataBlock(g, RecordFor(rs, o / bs).value, o / bs);
      ModMul(b, bs, WORD);
      DivModUnique(b, WORD, 0, b);
    }
  }

  /** A disk that shows where a block goes astray: ones only in that block's place. */
  function Marked(at: nat): Media { (x: nat) => if x == at then 1 else 0 }

  lemma AstrayReadsOther(g: Geometry, bs: nat, rs: seq<Record>, o: nat, size: nat)
    requires g.agSpan > 0 && bs > 0 && RecordFor(rs, o / bs).Some? && Astray(g, bs, rs, o) && o < size
    ensures var m := Marked(DataBlock(g, RecordFor(rs, o / bs).value, o / bs) * bs + o % bs);
            var p := Piece(g, bs, Perfect(m), rs, o, 1);
            p.Some? && |p.value| == 1 && p.value != Content(m, AsExtents(g, bs, rs), size)[o..o + 1]
  {
    hide Content, AsExtents, Linear, RecordFor, DataBlock, Fsb;
    var r := RecordFor(rs, o / bs).value;
    var b, w := DataBlock(g, r, o / bs), o % bs;
    var m := Marked(b * bs + w);
    SameBlock(g, r, o / bs);
    ModMul(b, bs, WORD);
    BlockIsData(g, m, bs, rs, size, o, 1, r);
    assert Stored(m, b * bs, bs)[w..w + 1][0] == m(b * bs + w) == 1;
    var p := Piece(g, bs, Perfect(m), rs, o, 1);
    assert p == Some(Stored(m, b * bs % WORD, bs)[w..w + 1]);
    assert p.value[0] == m(b * bs % WORD + w) == 0;
  }

  /**
   * On every disk the zero-filled content of any list of records can be streamed, exactly when each block of
   * the file that a record covers has a number within the limits.
   */
  lemma AllServedInRange(g: Geometry, bs: nat, rs: seq<Record>, size: nat)
    requires g.agSpan > 0 && bs > 0
    ensures (forall m: Media :: PieceServes(Content(m, AsExtents(g, bs, rs), size), Pieces(g, bs, Perfect(m), rs)))
       <==> (forall o :: 0 <= o < size ==> BlockInRange(g, bs, rs, o))
  {
    hide Content, AsExtents, Piece, Astray, BlockInRange, BlockFails;
    if forall o :: 0 <= o < size ==> BlockInRange(g, bs, rs, o) {
      forall m: Media
        ensures PieceServes(Content(m, AsExtents(g, bs, rs), size), Pieces(g, bs, Perfect(m), rs))
      {
        StreamingHonest(g, m, bs, Perfect(m), rs, size);
        forall o | 0 <= o < size ensures !Astray(g, bs, rs, o) && !BlockFails(g, bs, Perfect(m), rs, o) {
          InRangeIsRead(g, bs, Perfect(m), rs, o);
          PerfectNeverFails(g, bs, m, rs, o);
        }
      }
    } else {
      var o :| 0 <= o < size && !BlockInRange(g, bs, rs, o);
      OutOfRange(g, bs, rs, o, size);
    }
  }

  lemma PerfectNeverFails(g: Geometry, bs: nat, m: Media, rs: seq<Record>, o: nat)
    requires g.agSpan > 0 && bs > 0 && BlockInRange(g, bs, rs, o)
    ensures !BlockFails(g, bs, Perfect(m), rs, o)
  {
    hide BlockInRange, RecordFor, DataBlock, ReadData, Stored;
    InRangeIsRead(g, bs, Perfect(m), rs, o);
  }

  /** A block out of range either fails or goes astray. */
  lemma OutOfRange(g: Geometry, bs: nat, rs: seq<Record>, o: nat, size: nat)
    requires g.agSpan > 0 && bs > 0 && o < size && !BlockInRange(g, bs, rs, o)
    ensures exists m: Media :: !PieceServes(Content(m, AsExtents(g, bs, rs), size), Pieces(g, bs, Perfect(m), rs))
  {
    hide Content, AsExtents, RecordFor, DataBlock, Piece;
    var b := DataBlock(g, RecordFor(rs, o / bs).value, o / bs);
    var m := if Astray(g, bs, rs, o) then Marked(b * bs + o % bs) else Marked(0);
    var piece := Pieces(g, bs, Perfect(m), rs);
    if Astray(g, bs, rs, o) {
      AstrayReadsOther(g, bs, rs, o, size);
    } else {
      PieceFailsWithBlock(g, bs, Perfect(m), rs, o, 1);
      ModMul(b, bs, WORD);
      SmallBlock(b, bs);
    }
    assert piece(o, 1) == Piece(g, bs, Perfect(m), rs, o, 1);
    assert !PieceServes(Content(m, AsExtents(g, bs, rs), size), piece);
  }

  lemma SmallBlock(b: nat, bs: nat)
    requires bs > 0
    ensures b * bs < WORD ==> b % WORD == b
  {
    MulLe(1, bs, b);
    if b < WORD { DivModUnique(b, WORD, 0, b); }
  }

  /**
   * Both readers against the zero-filled content of sorted records: what the eager one gives, unless an
   * offset or a place wraps, is all of it; the streaming one gives all of it when every covered block is in
   * range and can be read as a whole.
   */
  lemma ReadersAgree(g: Geometry, m: Media, bs: nat, read: Reader, rs: seq<Record>, size: nat)
    requires g.agSpan > 0 && bs > 0 && Honest(m, read) && Sorted(rs)
    requires forall k :: 0 <= k < |rs| ==> rs[k].blockCount > 0
    ensures Addressable(g, bs, rs, size) && Eager(g, bs, read, rs, size).Some? ==>
              Eager(g, bs, read, rs, size).value == Content(m, AsExtents(g, bs, rs), size)
    ensures (forall o :: 0 <= o < size ==> BlockInRange(g, bs, rs, o) && BlockReadable(g, bs, read, rs, o)) ==>
              PieceServes(Content(m, AsExtents(g, bs, rs), size), Pieces(g, bs, read, rs))
  {
    hide Honest, Content, Sequential, Piece, Astray, BlockInRange, BlockReadable, BlockFails, AsExtents, Sorted,
         Reached;
    if Addressable(g, bs, rs, size) && Eager(g, bs, read, rs, size).Some? {
      SequentialIsContent(g, m, bs, read, rs, 0, size, []);
    }
    if forall o :: 0 <= o < size ==> BlockInRange(g, bs, rs, o) && BlockReadable(g, bs, read, rs, o) {
      StreamingHonest(g, m, bs, read, rs, size);
      forall o | 0 <= o < size ensures !Astray(g, bs, rs, o) && !BlockFails(g, bs, read, rs, o) {
        InRangeIsRead(g, bs, read, rs, o);
        ReadableNeverFails(g, m, bs, read, rs, o);
      }
    }
  }

  /** The whole block on disk that holds offset o can be read. */
  predicate BlockReadable(g: Geometry, bs: nat, read: Reader, rs: seq<Record>, o: nat)
    requires g.agSpan > 0 && bs > 0
  {
    match RecordFor(rs, o / bs) case None => true case Some(r) => read(DataBlock(g, r, o / bs) * bs, bs).Some?
  }

  lemma ReadableNeverFails(g: Geometry, m: Media, bs: nat, read: Reader, rs: seq<Record>, o: nat)
    requires g.agSpan > 0 && bs > 0 && Honest(m, read)
    requires BlockInRange(g, bs, rs, o) && BlockReadable(g, bs, read, rs, o)
    ensures !BlockFails(g, bs, read, rs, o)
  {
    hide BlockInRange, RecordFor, DataBlock, ReadData, Stored, Honest;
    InRangeIsRead(g, bs, read, rs, o);
    if RecordFor(rs, o / bs).Some? {
      ReadsStored(m, read, DataBlock(g, RecordFor(rs, o / bs).value, o / bs) * bs, bs);
    }
  }

  /**
   * Opening a file for streaming: every read gives real bytes or an error, an error exactly at a block that
   * cannot be read, and all of the content under the conditions above.
   */
  method OpenStream(g: Geometry, ghost m: Media, bs: nat, read: Reader, rs: seq<Record>, size: nat)
    returns (r: StreamReader)
    requires g.agSpan > 0 && bs > 0 && Honest(m, read)
    ensures fresh(r) && r.size == size && r.pos == 0 && PieceBounded(size, r.piece)
    ensures r.piece == Pieces(g, bs, read, rs)
    ensures (forall o :: 0 <= o < size ==> !Astray(g, bs, rs, o)) ==>
              PieceHonest(Content(m, AsExtents(g, bs, rs), size), r.piece)
    ensures forall o: nat, t: nat :: 0 < t && o + t <= size ==>
              (r.piece(o, t) == None <==> BlockFails(g, bs, read, rs, o))
  {
    hide Honest, Content, Piece, Astray, BlockFails, AsExtents;
    StreamingHonest(g, m, bs, read, rs, size);
    forall o: nat, t: nat | 0 < t && o + t <= size
      ensures Piece(g, bs, read, rs, o, t).Some? ==> 0 < |Piece(g, bs, read, rs, o, t).value| <= t
    {
      PieceShort(g, bs, read, rs, o, t);
    }
    r := new StreamReader(size, Pieces(g, bs, read, rs));
  }

  lemma PieceShort(g: Geometry, bs: nat, read: Reader, rs: seq<Record>, o: nat, t: nat)
    requires g.agSpan > 0 && bs > 0 && 0 < t
    ensures Piece(g, bs, read, rs, o, t).Some? ==> 0 < |Piece(g, bs, read, rs, o, t).value| <= t
  {
    hide RecordFor, ReadBytes, Fsb;
  }

  const LONG_RECORD: seq<Record> := [Record(0, 0, 0x4_0001)]
  const LONG_SIZE: nat := 0x4000_1000

  /** A record longer than one read may be: refused at once, and streamed, from every disk. */
  lemma LongRecordRefused(g: Geometry, m: Media)
    requires g == Geometry(16, 16)
    ensures LONG_SIZE <= MAX_FILE_BYTES && Sorted(LONG_RECORD) && Addressable(g, 4096, LONG_RECORD, LONG_SIZE)
    ensures Eager(g, 4096, Perfect(m), LONG_RECORD, LONG_SIZE) == None
    ensures PieceServes(Content(m, AsExtents(g, 4096, LONG_RECORD), LONG_SIZE),
                        Pieces(g, 4096, Perfect(m), LONG_RECORD))
  {
    hide Content, AsExtents, PieceServes, BlockInRange, Pieces, Perfect;
    assert HoleBefore(4096, LONG_RECORD[0], LONG_SIZE, 0) == 0 && [] + Zeros(0) == [];
    forall o | 0 <= o < LONG_SIZE ensures BlockInRange(g, 4096, LONG_RECORD, o) { LowBlockInRange(g, o); }
    AllServedInRange(g, 4096, LONG_RECORD, LONG_SIZE);
  }

  lemma LowBlockInRange(g: Geometry, o: nat)
    requires g == Geometry(16, 16) && o < LONG_SIZE
    ensures BlockInRange(g, 4096, LONG_RECORD, o)
  {
  }

  /** A record at file block 2^52: its byte offset wraps to zero, and the eager reader puts its data at the start. */
  lemma WrappedOffset()
    ensures var g, m, rs := Geometry(16, 16), (a: nat) => 1 as byte, [Record(0x10_0000_0000_0000, 1, 1)];
            var read := (at: nat, n: nat) => Some(Stored(m, at, n));
            && Honest(m, read) && Sorted(rs) && !Addressable(g, 4096, rs, 4096)
            && Sequential(g, 4096, read, rs, 0, 4096, []) == Some(Stored(m, 4096, 4096))
            && Content(m, AsExtents(g, 4096, rs), 4096)[0] == 0
            && Stored(m, 4096, 4096)[0] == 1
  {
    var g, m, rs := Geometry(16, 16), (a: nat) => 1 as byte, [Record(0x10_0000_0000_0000, 1, 1)];
    var read := (at: nat, n: nat) => Some(Stored(m, at, n));
    assert HoleBefore(4096, rs[0], 4096, 0) == 0;
    assert Reached(4096, rs, 4096, 0) && StartOf(4096, rs, 0) == WORD;
    assert Linear(g, 1) == 1;
    var d := Stored(m, 4096, 4096);
    assert [] + Zeros(0) == [] && [] + d == d && d + Zeros(0) == d;
    assert Sequential(g, 4096, read, rs, 1, 4096, d) == Some(d);
    var es := AsExtents(g, 4096, rs);
    assert es[1..] == [] && FirstAt([], 0) == None;
    assert !es[0].Covers(0);
    ContentAt(m, es, 4096, 0);
  }
}

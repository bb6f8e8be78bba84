/**
 * Block-map trees as they lie on disk: leaves, nodes and the root in the inode written field by field, and the
 * records read from them (internal/filesystem/xfs/xfs.go).
 */
module XfsWritten {
  import opened Bytes
  import opened XfsFile
  import SparseFile

  /** A filesystem block by allocation group; its number packs both, its place counts the blocks of whole groups. */
  datatype Addr = Addr(ag: nat, block: nat) {
    function Packed(g: Geometry): nat { ag * g.agSpan + block }

    function Place(g: Geometry): nat { ag * g.agBlocks + block }

    predicate InReach(g: Geometry) { block < g.agSpan && Packed(g) <= MAX_BLOCK && Place(g) <= MAX_BLOCK }
  }

  function Pointers(g: Geometry, kids: seq<Addr>): seq<bytes> {
    seq(|kids|, i requires 0 <= i < |kids| => ToBE(kids[i].Packed(g), 8))
  }

  function Records(rs: seq<Record>, flags: seq<bool>): seq<bytes>
    requires |rs| == |flags|
  {
    seq(|rs|, i requires 0 <= i < |rs| => Encode(rs[i], flags[i]))
  }

  /** "BMA3", the level and the number of entries. */
  function Head(level: nat, n: nat): (b: bytes)
    ensures |b| == 8
  {
    [0x42, 0x4D, 0x41, 0x33] + ToBE(level, 2) + ToBE(n, 2)
  }

  /** Records follow the header; every one can be packed. */
  ghost predicate LeafWritten(b: bytes, hdr: nat, rs: seq<Record>, flags: seq<bool>) {
    && 0 < |rs| == |flags| < 0x1_0000 && (forall r :: r in rs ==> Packable(r))
    && Holds(b, 0, Head(0, |rs|)) && hdr >= 8 && Holds(b, hdr, Concat(Records(rs, flags)))
  }

  /**
   * Behind a header of hdr bytes lies room for so many keys of 8 bytes, then for as many pointers, and then less
   * than another pair takes.
   */
  ghost predicate AreaWritten(g: Geometry, b: bytes, hdr: nat, room: nat, kids: seq<Addr>) {
    && 0 < |kids| <= room && |kids| < 0x1_0000 && hdr + 16 * room <= |b| < hdr + 16 * (room + 1)
    && (forall k :: k in kids ==> k.InReach(g)) && Holds(b, hdr + 8 * room, Concat(Pointers(g, kids)))
  }

  /** A node: its head, and its keys and pointers behind the header. */
  ghost predicate NodeWritten(g: Geometry, b: bytes, hdr: nat, level: nat, room: nat, kids: seq<Addr>) {
    hdr >= 8 && Holds(b, 0, Head(level, |kids|)) && AreaWritten(g, b, hdr, room, kids)
  }

  /** The tree is written: its top node is b, on this level, and the blocks its pointers name hold its subtrees. */
  ghost predicate Written(g: Geometry, disk: Blocks, b: bytes, hdr: nat, t: Tree, level: nat)
    decreases t, 1
  {
    match t
    case Leaf(rs) => level == 0 && exists flags: seq<bool> :: LeafWritten(b, hdr, rs, flags)
    case Inner(_) =>
      && 0 < level < 0x1_0000
      && exists room: nat, addrs: seq<Addr> ::
           NodeWritten(g, b, hdr, level, room, addrs) && KidsWritten(g, disk, hdr, t, addrs, level - 1)
  }

  ghost predicate KidsWritten(g: Geometry, disk: Blocks, hdr: nat, t: Tree, addrs: seq<Addr>, level: nat)
    requires t.Inner?
    decreases t, 0
  {
    && |addrs| == |t.kids|
    && forall i :: 0 <= i < |t.kids| ==>
         && disk(addrs[i].Place(g)).Some?
         && Written(g, disk, disk(addrs[i].Place(g)).value, hdr, t.kids[i], level)
  }

  /** The root in the inode: its level and the number of its entries in front of keys and pointers. */
  ghost predicate RootWritten(g: Geometry, disk: Blocks, fork: bytes, hdr: nat, t: Tree, level: nat, room: nat,
                              addrs: seq<Addr>)
  {
    && 0 < level < 0x1_0000 && t.Inner? && KidsWritten(g, disk, hdr, t, addrs, level - 1)
    && Holds(fork, 0, ToBE(level, 2) + ToBE(|addrs|, 2)) && AreaWritten(g, fork, 4, room, addrs)
  }

  lemma HeadRead(b: bytes, level: nat, n: nat)
    requires Holds(b, 0, Head(level, n)) && level < 0x1_0000 && n < 0x1_0000 && |b| >= 24
    ensures b[..4] == LEAF_MAGIC && NodeLevel(b) == level && NodeRecords(b) == n
  {
    hide BE, ToBE;
    FieldWidths();
    var h := Head(level, n);
    assert h[0..4] == LEAF_MAGIC && h[4..6] == ToBE(level, 2) && h[6..8] == ToBE(n, 2);
    HoldsSlice(b, 0, h, 0, 4);
    HoldsSlice(b, 0, h, 4, 6);
    HoldsSlice(b, 0, h, 6, 8);
    BigFieldHeld(b, 4, level, 2);
    BigFieldHeld(b, 6, n, 2);
  }

  /** Pointer i is the packed number of block i, which leads to that block's place. */
  lemma PointerRead(g: Geometry, disk: Blocks, b: bytes, hdr: nat, room: nat, kids: seq<Addr>, i: nat)
    requires g.agSpan > 0 && AreaWritten(g, b, hdr, room, kids) && i < |kids|
    ensures var at := hdr + (|b| - hdr) / 16 * 8;
            && at + 8 * |kids| <= |b| && Pointer(b, at, i) == kids[i].Packed(g) <= MAX_BLOCK
            && ReadBlock(g, disk, Pointer(b, at, i)) == disk(kids[i].Place(g))
  {
    hide BE, ToBE, Concat, Addr.Packed, Addr.Place;
    FieldWidths();
    DivModUnique(|b| - hdr, 16, room, |b| - hdr - 16 * room);
    var at := hdr + 8 * room;
    PartHeld(b, at, Pointers(g, kids), 8, i);
    assert kids[i] in kids;
    BigFieldHeld(b, at + 8 * i, kids[i].Packed(g), 8);
    PlaceRead(g, disk, kids[i]);
  }

  lemma PlaceRead(g: Geometry, disk: Blocks, a: Addr)
    requires g.agSpan > 0 && a.InReach(g)
    ensures ReadBlock(g, disk, a.Packed(g)) == disk(a.Place(g))
  {
    hide Fsb;
    LinearOfPacked(g, a.ag, a.block);
    DivModUnique(a.Place(g), WORD, 0, a.Place(g));
  }

  lemma RecordRead(b: bytes, hdr: nat, rs: seq<Record>, flags: seq<bool>, i: nat)
    requires LeafWritten(b, hdr, rs, flags) && i < |rs|
    ensures hdr + RECORD * |rs| <= |b| && RecordAt(b[hdr..], i) == rs[i] && rs[i].blockCount > 0
  {
    hide Concat, RecordAt, Encode;
    EqualParts(Records(rs, flags), RECORD, i);
    PartHeld(b, hdr, Records(rs, flags), RECORD, i);
    var buf := b[hdr..];
    assert buf == buf[..RECORD * i] + Encode(rs[i], flags[i]) + buf[RECORD * (i + 1)..];
    RecordRoundTrip(rs[i], flags[i], buf[..RECORD * i], buf[RECORD * (i + 1)..], i);
  }

  lemma LeafIsHeld(g: Geometry, disk: Blocks, b: bytes, hdr: nat, rs: seq<Record>, flags: seq<bool>)
    requires g.agSpan > 0 && hdr >= 24 && LeafWritten(b, hdr, rs, flags)
    ensures HeldBy(g, disk, b, hdr, Leaf(rs), 1)
  {
    hide Head, Holds, RecordAt, NodeLevel, NodeRecords;
    RecordRead(b, hdr, rs, flags, 0);
    HeadRead(b, 0, |rs|);
    forall i | 0 <= i < |rs| ensures RecordAt(b[hdr..], i) == rs[i] && rs[i].blockCount > 0 {
      RecordRead(b, hdr, rs, flags, i);
    }
  }

  /** A written tree is one that can be walked. */
  lemma {:induction false} WrittenIsHeld(g: Geometry, disk: Blocks, b: bytes, hdr: nat, t: Tree, level: nat)
    requires g.agSpan > 0 && hdr >= 24 && Written(g, disk, b, hdr, t, level)
    ensures HeldBy(g, disk, b, hdr, t, level + 1)
    decreases t, 1
  {
    hide LeafWritten, NodeWritten, KidsWritten, HeldBy;
    match t {
      case Leaf(rs) =>
        var flags: seq<bool> :| LeafWritten(b, hdr, rs, flags);
        LeafIsHeld(g, disk, b, hdr, rs, flags);
      case Inner(_) =>
        var room: nat, addrs: seq<Addr> :|
          NodeWritten(g, b, hdr, level, room, addrs) && KidsWritten(g, disk, hdr, t, addrs, level - 1);
        NodeIsHeld(g, disk, b, hdr, t, level, room, addrs);
    }
  }

  lemma {:induction false} NodeIsHeld(g: Geometry, disk: Blocks, b: bytes, hdr: nat, t: Tree, level: nat, room: nat,
                                      addrs: seq<Addr>)
    requires g.agSpan > 0 && hdr >= 24 && t.Inner? && 0 < level < 0x1_0000
    requires NodeWritten(g, b, hdr, level, room, addrs) && KidsWritten(g, disk, hdr, t, addrs, level - 1)
    ensures HeldBy(g, disk, b, hdr, t, level + 1)
    decreases t, 0
  {
    hide Written, Head, Holds, Pointer, ReadBlock, NodeLevel, NodeRecords;
    PointerRead(g, disk, b, hdr, room, addrs, 0);
    HeadRead(b, level, |t.kids|);
    var at := PointersAt(b, hdr);
    forall i | 0 <= i < |t.kids|
      ensures Pointer(b, at, i) <= MAX_BLOCK && ReadBlock(g, disk, Pointer(b, at, i)).Some?
      ensures HeldBy(g, disk, ReadBlock(g, disk, Pointer(b, at, i)).value, hdr, t.kids[i], level)
    {
      PointerRead(g, disk, b, hdr, room, addrs, i);
      WrittenIsHeld(g, disk, disk(addrs[i].Place(g)).value, hdr, t.kids[i], level - 1);
    }
  }

  lemma RootRead(fork: bytes, level: nat, n: nat)
    requires Holds(fork, 0, ToBE(level, 2) + ToBE(n, 2)) && level < 0x1_0000 && n < 0x1_0000
    ensures |fork| >= 4 && BE(fork[0..2]) == level && BE(fork[2..4]) == n
  {
    hide BE, ToBE;
    FieldWidths();
    var a, b := ToBE(level, 2), ToBE(n, 2);
    assert [] + a + b == a + b == a + b + [];
    BigFieldIn(fork, 0, [], level, 2, b);
    BigFieldIn(fork, 0, a, n, 2, []);
  }

  /** A written B-tree fork gives exactly the records written into its leaves, in order. */
  lemma WrittenFork(g: Geometry, disk: Blocks, fork: bytes, hdr: nat, t: Tree, level: nat, room: nat, addrs: seq<Addr>)
    requires g.agSpan > 0 && hdr >= 24 && RootWritten(g, disk, fork, hdr, t, level, room, addrs)
    requires level <= MAX_WALK + 1
    ensures RootOk(fork) && RootFrom(g, disk, fork, hdr, 0) == Some(Flatten(t))
  {
    hide BE, ToBE, Pointer, ReadBlock, Written, HeldBy, RootFrom, Concat;
    RootRead(fork, level, |addrs|);
    PointerRead(g, disk, fork, 4, room, addrs, 0);
    var at := RootPointersAt(fork);
    forall i | 0 <= i < |t.kids|
      ensures ReadBlock(g, disk, Pointer(fork, at, i)).Some?
      ensures HeldBy(g, disk, ReadBlock(g, disk, Pointer(fork, at, i)).value, hdr, t.kids[i], level)
    {
      PointerRead(g, disk, fork, 4, room, addrs, i);
      WrittenIsHeld(g, disk, disk(addrs[i].Place(g)).value, hdr, t.kids[i], level - 1);
    }
    RootWalked(g, disk, fork, hdr, t, level, 0);
  }

  // ------------------------------------------------------------ the bytes of a file

  /** Record i is the first one over block n of the file. */
  ghost predicate FirstRecord(rs: seq<Record>, i: nat, n: nat) {
    && i < |rs| && rs[i].startoff <= n < rs[i].startoff + rs[i].blockCount
    && forall j :: 0 <= j < i ==> !(rs[j].startoff <= n < rs[j].startoff + rs[j].blockCount)
  }

  /** Byte w of file block n is byte w of the disk block as far behind the record's first one, in the record's group. */
  lemma ByteOfFile(g: Geometry, bs: nat, m: SparseFile.Media, rs: seq<Record>, i: nat, a: Addr, n: nat, w: nat, o: nat,
                   size: nat)
    requires g.agSpan > 0 && FirstRecord(rs, i, n) && a.block < g.agSpan && rs[i].startBlock == a.Packed(g)
    requires w < bs && o == n * bs + w < size
    ensures SparseFile.Content(m, AsExtents(g, bs, rs), size)[o] == m((a.Place(g) + (n - rs[i].startoff)) * bs + w)
  {
    hide SparseFile.Content, Linear, Addr.Packed, Addr.Place;
    var es := AsExtents(g, bs, rs);
    forall j | 0 <= j <= i ensures es[j].Covers(o) <==> rs[j].startoff <= n < rs[j].startoff + rs[j].blockCount {
      CoversBlock(rs[j].startoff, rs[j].blockCount, n, bs, w);
    }
    SparseFile.PlacedByte(m, es, size, i, o);
    PackedPlace(g, a);
    MulAdd(a.Place(g), n - rs[i].startoff, bs);
    MulAdd(rs[i].startoff, n - rs[i].startoff, bs);
  }

  lemma PackedPlace(g: Geometry, a: Addr)
    requires g.agSpan > 0 && a.block < g.agSpan
    ensures Linear(g, a.Packed(g)) == a.Place(g)
  {
    LinearOfPacked(g, a.ag, a.block);
  }

  lemma CoversBlock(first: nat, count: nat, n: nat, bs: nat, w: nat)
    requires w < bs
    ensures first * bs <= n * bs + w < first * bs + count * bs <==> first <= n < first + count
  {
    MulAdd(first, count, bs);
    if n < first { MulLe(n + 1, first, bs); } else { MulLe(first, n, bs); }
    if n >= first + count { MulLe(first + count, n, bs); } else { MulLe(n + 1, first + count, bs); }
    MulAdd(n, 1, bs);
  }
}

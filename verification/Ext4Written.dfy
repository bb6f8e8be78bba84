/**
 * Extent trees as they lie on disk: nodes written field by field, and what lookup, coverage and the readers make
 * of them (internal/filesystem/ext4/ext4.go).
 */
module Ext4Written {
  import opened Bytes
  import opened Ext4Extents

  /** Magic, entries in use, entries there is room for, depth, generation. */
  function Header(n: nat, room: nat, depth: nat): (b: bytes)
    ensures |b| == ENTRY
  {
    [0x0A, 0xF3] + ToLE(n, 2) + ToLE(room, 2) + ToLE(depth, 2) + Zeros(4)
  }

  /** File block, length, and the start on disk: its high 16 bits in front of its low 32. */
  function ExtentBytes(e: Extent): (b: bytes)
    ensures |b| == ENTRY
  {
    ToLE(e.block, 4) + ToLE(e.len, 2) + ToLE(e.start / 0x1_0000_0000, 2) + ToLE(e.start % 0x1_0000_0000, 4)
  }

  /** File block and child: its low 32 bits in front of its high 16. */
  function IndexBytes(block: nat, child: nat): (b: bytes)
    ensures |b| == ENTRY
  {
    ToLE(block, 4) + ToLE(child % 0x1_0000_0000, 4) + ToLE(child / 0x1_0000_0000, 2) + Zeros(2)
  }

  function LeafEntries(es: seq<Extent>): seq<bytes> {
    seq(|es|, i requires 0 <= i < |es| => ExtentBytes(es[i]))
  }

  function IndexEntries(kids: seq<Kid>): seq<bytes> {
    seq(|kids|, i requires 0 <= i < |kids| => IndexBytes(kids[i].block, kids[i].child))
  }

  /** The node begins with a header and these entries; there may be anything behind them. */
  ghost predicate NodeWritten(d: bytes, entries: seq<bytes>, room: nat, depth: nat) {
    && depth <= MAX_DEPTH && |entries| < 0x1_0000
    && Holds(d, 0, Header(|entries|, room, depth)) && Holds(d, ENTRY, Concat(entries))
  }

  predicate ExtentFits(e: Extent) {
    e.block < 0x1_0000_0000 && e.len < 0x1_0000 && e.start < 0x1_0000_0000_0000
  }

  predicate KidFits(k: Kid) { k.block < 0x1_0000_0000 && k.child < 0x1_0000_0000_0000 }

  /** The tree is written: its top node is d, the nodes below are in the blocks its entries name. */
  ghost predicate Written(disk: Disk, d: bytes, t: Tree, depth: nat)
    decreases t
  {
    match t
    case Leaf(es) =>
      depth == 0 && (exists room :: NodeWritten(d, LeafEntries(es), room, 0)) && forall e :: e in es ==> ExtentFits(e)
    case Inner(kids) =>
      && depth > 0 && (exists room :: NodeWritten(d, IndexEntries(kids), room, depth))
      && forall i :: 0 <= i < |kids| ==>
           && KidFits(kids[i])
           && disk(kids[i].child).Some? && Written(disk, disk(kids[i].child).value, kids[i].tree, depth - 1)
  }

  lemma HeaderRead(d: bytes, entries: seq<bytes>, room: nat, depth: nat)
    requires NodeWritten(d, entries, room, depth) && forall i :: 0 <= i < |entries| ==> |entries[i]| == ENTRY
    ensures NodeOk(d, depth) && EntryCount(d, depth) == |entries|
  {
    hide LE, ToLE, Concat;
    FieldWidths();
    EqualSize(entries, ENTRY);
    var h := Header(|entries|, room, depth);
    assert h[0..2] == [0x0A, 0xF3] && h[2..4] == ToLE(|entries|, 2) && h[6..8] == ToLE(depth, 2);
    HoldsSlice(d, 0, h, 0, 2);
    HoldsSlice(d, 0, h, 2, 4);
    HoldsSlice(d, 0, h, 6, 8);
    MagicIs();
    FieldHeld(d, 2, |entries|, 2);
    FieldHeld(d, 6, depth, 2);
  }

  lemma MagicIs()
    ensures LE([0x0A, 0xF3]) == EXTENT_MAGIC
  {
    var b: bytes := [0x0A, 0xF3];
    assert b[1..] == [0xF3] && b[1..][1..] == [];
    assert LE(b[1..]) == 0xF3;
  }

  /** The two parts of a 48-bit place. */
  lemma PlaceParts(x: nat)
    requires x < 0x1_0000_0000_0000
    ensures x / 0x1_0000_0000 < 0x1_0000 && x % 0x1_0000_0000 < 0x1_0000_0000
    ensures x / 0x1_0000_0000 * 0x1_0000_0000 + x % 0x1_0000_0000 == x
  {
  }

  /** An extent entry decodes to the extent written, for every 48-bit start. */
  lemma ExtentRead(d: bytes, es: seq<Extent>, i: nat)
    requires i < |es| && ExtentFits(es[i]) && Holds(d, ENTRY, Concat(LeafEntries(es)))
    ensures ENTRY * (i + 2) <= |d| && ExtentAt(d, i) == es[i]
  {
    hide LE, ToLE, Concat;
    FieldWidths();
    PartHeld(d, ENTRY, LeafEntries(es), ENTRY, i);
    var e, at := es[i], ENTRY * (i + 1);
    var a, b, c, f := ToLE(e.block, 4), ToLE(e.len, 2), ToLE(e.start / 0x1_0000_0000, 2),
                      ToLE(e.start % 0x1_0000_0000, 4);
    assert Holds(d, at, a + b + c + f);
    PlaceParts(e.start);
    assert [] + a + (b + c + f) == a + b + (c + f) == a + b + c + f == a + b + c + f + [];
    FieldIn(d, at, [], e.block, 4, b + c + f);
    FieldIn(d, at, a, e.len, 2, c + f);
    FieldIn(d, at, a + b, e.start / 0x1_0000_0000, 2, f);
    FieldIn(d, at, a + b + c, e.start % 0x1_0000_0000, 4, []);
  }

  /** An index entry decodes to the block and the child written, for every 48-bit place. */
  lemma IndexRead(d: bytes, kids: seq<Kid>, i: nat)
    requires i < |kids| && KidFits(kids[i]) && Holds(d, ENTRY, Concat(IndexEntries(kids)))
    ensures ENTRY * (i + 2) <= |d| && IndexAt(d, i) == Index(kids[i].block, kids[i].child)
  {
    hide LE, ToLE, Concat;
    FieldWidths();
    PartHeld(d, ENTRY, IndexEntries(kids), ENTRY, i);
    var k, at := kids[i], ENTRY * (i + 1);
    var a, b, c := ToLE(k.block, 4), ToLE(k.child % 0x1_0000_0000, 4), ToLE(k.child / 0x1_0000_0000, 2);
    assert Holds(d, at, a + b + c + Zeros(2));
    PlaceParts(k.child);
    assert [] + a + (b + c + Zeros(2)) == a + b + (c + Zeros(2)) == a + b + c + Zeros(2);
    FieldIn(d, at, [], k.block, 4, b + c + Zeros(2));
    FieldIn(d, at, a, k.child % 0x1_0000_0000, 4, c + Zeros(2));
    FieldIn(d, at, a + b, k.child / 0x1_0000_0000, 2, Zeros(2));
  }

  /** A written tree is one the lookup can be used on. */
  lemma {:induction false} WrittenIsStored(disk: Disk, d: bytes, t: Tree, depth: nat)
    requires Written(disk, d, t, depth)
    ensures Stored(disk, d, t, depth)
    decreases t
  {
    hide NodeOk, EntryCount, ExtentAt, IndexAt, Concat, Header, ExtentBytes, IndexBytes;
    match t {
      case Leaf(es) =>
        var room :| NodeWritten(d, LeafEntries(es), room, 0);
        HeaderRead(d, LeafEntries(es), room, 0);
        forall i | 0 <= i < |es| ensures ENTRY * (i + 2) <= |d| && ExtentAt(d, i) == es[i] { ExtentRead(d, es, i); }
      case Inner(kids) =>
        var room :| NodeWritten(d, IndexEntries(kids), room, depth);
        HeaderRead(d, IndexEntries(kids), room, depth);
        forall i | 0 <= i < |kids|
          ensures ENTRY * (i + 2) <= |d| && IndexAt(d, i) == Index(kids[i].block, kids[i].child)
          ensures Stored(disk, disk(kids[i].child).value, kids[i].tree, depth - 1)
        {
          IndexRead(d, kids, i);
          WrittenIsStored(disk, disk(kids[i].child).value, kids[i].tree, depth - 1);
        }
    }
  }

  /** Over a written tree, lookup finds the block of the extent written for it, and coverage is their total length. */
  lemma WrittenResolve(disk: Disk, d: bytes, t: Tree, depth: nat, hi: nat, b: nat)
    requires Written(disk, d, t, depth) && Ordered(t, hi)
    ensures Resolve(disk, d, b, depth) == Find(Flatten(t), b)
    ensures Coverage(disk, d, depth) == Capped(Blocks(Flatten(t)))
  {
    hide Written, Stored, Resolve, Find, Flatten, Ordered, Coverage;
    WrittenIsStored(disk, d, t, depth);
    ResolveIsFind(disk, d, t, depth, hi, b);
    CoverageIsSum(disk, d, t, depth);
  }

  /** Extent i is the first one that covers the block. */
  ghost predicate FirstCovers(es: seq<Extent>, b: nat, i: nat) {
    i < |es| && Covers(es[i], b) && forall j :: 0 <= j < i ==> !Covers(es[j], b)
  }

  /** The block of a file over a written tree: that of the extent written for it, or zeros where there is none. */
  lemma WrittenBlock(f: File, t: Tree, hi: nat, n: nat, i: nat)
    requires Written(f.disk, f.root, t, f.depth) && Ordered(t, hi)
    ensures var es := Flatten(t);
            && (FirstCovers(es, n, i) ==> SparseBlock(f, n) == f.disk(es[i].start + (n - es[i].block)))
            && ((forall e :: e in es ==> !Covers(e, n)) ==> SparseBlock(f, n) == Some(Zeros(f.blockSize)))
  {
    hide Written, Stored, Resolve, Flatten, Ordered, SparseBlock;
    WrittenIsStored(f.disk, f.root, t, f.depth);
    SparseBlockIs(f, t, hi, n);
    FindIsHole(Flatten(t), n);
    if FirstCovers(Flatten(t), n, i) { FindFirst(Flatten(t), n, i); }
  }

  lemma {:induction false} FindFirst(es: seq<Extent>, b: nat, i: nat)
    requires FirstCovers(es, b, i)
    ensures Find(es, b) == Block(es[i].start + (b - es[i].block))
    decreases |es|
  {
    if i > 0 { FindFirst(es[1..], b, i - 1); }
  }
}

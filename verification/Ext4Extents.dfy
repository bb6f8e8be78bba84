/**
 * The ext4 extent tree (internal/filesystem/ext4): block lookup and coverage against the flattened
 * extent list, and the streaming reader against the eager one.
 */
module Ext4Extents {
  import opened Bytes
  import opened Streaming

  const EXTENT_MAGIC: nat := 0xF30A
  const MAX_DEPTH: nat := 5
  const ENTRY: nat := 12
  const MAX_EXTENT_BLOCKS: nat := 0x100_0000
  const MAX_FILE_BLOCKS: nat := 0x10_0000

  // ------------------------------------------------------------ one node

  function Field(d: bytes, off: nat, n: nat): nat
    requires off + n <= |d|
  {
    LE(d[off..off + n])
  }

  /** The header checks every node must pass. */
  predicate NodeOk(d: bytes, depth: nat) {
    && |d| >= ENTRY && Field(d, 0, 2) == EXTENT_MAGIC
    && depth <= MAX_DEPTH && Field(d, 6, 2) == depth && Field(d, 2, 2) <= (|d| - ENTRY) / ENTRY
  }

  function EntryCount(d: bytes, depth: nat): (n: nat)
    requires NodeOk(d, depth)
    ensures ENTRY * (n + 1) <= |d|
  {
    Field(d, 2, 2)
  }

  datatype Extent = Extent(block: nat, len: nat, start: nat)

  function ExtentAt(d: bytes, i: nat): Extent
    requires ENTRY * (i + 2) <= |d|
  {
    var at := ENTRY * (i + 1);
    Extent(Field(d, at, 4), Field(d, at + 4, 2), Field(d, at + 6, 2) * 0x1_0000_0000 + Field(d, at + 8, 4))
  }

  /** An index entry: the first file block it is responsible for, and its child's block. */
  datatype Index = Index(block: nat, child: nat)

  function IndexAt(d: bytes, i: nat): Index
    requires ENTRY * (i + 2) <= |d|
  {
    var at := ENTRY * (i + 1);
    Index(Field(d, at, 4), Field(d, at + 8, 2) * 0x1_0000_0000 + Field(d, at + 4, 4))
  }

  datatype Lookup = Failed | Hole | Block(phys: nat)

  predicate Covers(e: Extent, b: nat) { e.block <= b < e.block + e.len }

  /** The first extent of a leaf, from i on, that covers b. */
  function LeafLookup(d: bytes, depth: nat, b: nat, i: nat): Lookup
    requires NodeOk(d, depth) && i <= EntryCount(d, depth)
    decreases EntryCount(d, depth) - i
  {
    if i == EntryCount(d, depth) then Hole
    else
      var e := ExtentAt(d, i);
      if Covers(e, b) then Block(e.start + (b - e.block)) else LeafLookup(d, depth, b, i + 1)
  }

  /** The entry with the largest block that is at most b, among those from i on; best is the one so far. */
  function BestIndex(d: bytes, depth: nat, b: nat, i: nat, best: Option<nat>): (r: Option<nat>)
    requires NodeOk(d, depth) && i <= EntryCount(d, depth) && (best.Some? ==> best.value < EntryCount(d, depth))
    ensures r.Some? ==> r.value < EntryCount(d, depth)
    decreases EntryCount(d, depth) - i
  {
    if i == EntryCount(d, depth) then best
    else
      var better := IndexAt(d, i).block <= b && (best.None? || IndexAt(d, i).block > IndexAt(d, best.value).block);
      BestIndex(d, depth, b, i + 1, if better then Some(i) else best)
  }

  /** The volume's blocks: what reading each one gives. */
  type Disk = nat -> Option<bytes>

  /** resolveExtent. */
  function Resolve(disk: Disk, d: bytes, b: nat, depth: nat): Lookup
    decreases depth
  {
    if !NodeOk(d, depth) then Failed
    else if EntryCount(d, depth) == 0 then Hole
    else if depth == 0 then LeafLookup(d, depth, b, 0)
    else
      match BestIndex(d, depth, b, 0, None)
      case None => Hole
      case Some(i) =>
        match disk(IndexAt(d, i).child)
        case None => Failed
        case Some(child) => Resolve(disk, child, b, depth - 1)
  }

  function Add(a: Option<nat>, total: nat): Option<nat> {
    if a.None? || total + a.value > MAX_EXTENT_BLOCKS then None else Some(total + a.value)
  }

  /** extentCoverage: how many blocks the entries from i on allocate, added to total. */
  function CoverageFrom(disk: Disk, d: bytes, depth: nat, i: nat, total: nat): Option<nat>
    requires NodeOk(d, depth) && i <= EntryCount(d, depth)
    decreases depth, EntryCount(d, depth) - i
  {
    if i == EntryCount(d, depth) then Some(total)
    else
      var here :=
        if depth == 0 then Some(ExtentAt(d, i).len)
        else match disk(IndexAt(d, i).child) case None => None case Some(child) => Coverage(disk, child, depth - 1);
      match Add(here, total)
      case None => None
      case Some(t) => CoverageFrom(disk, d, depth, i + 1, t)
  }

  function Coverage(disk: Disk, d: bytes, depth: nat): Option<nat>
    decreases depth
  {
    if !NodeOk(d, depth) then None else CoverageFrom(disk, d, depth, 0, 0)
  }

  // ------------------------------------------------------------ the tree a disk holds

  /** A subtree, the first file block it is responsible for, and the block its top node is in. */
  datatype Kid = Kid(block: nat, child: nat, tree: Tree)

  datatype Tree = Leaf(extents: seq<Extent>) | Inner(kids: seq<Kid>)

  /** All extents of a tree, left to right. */
  function Flatten(t: Tree): seq<Extent>
    decreases t
  {
    match t
    case Leaf(es) => es
    case Inner(kids) => FlattenFrom(t, 0)
  }

  function FlattenFrom(t: Tree, i: nat): seq<Extent>
    requires t.Inner? && i <= |t.kids|
    decreases t, |t.kids| - i
  {
    if i == |t.kids| then [] else Flatten(t.kids[i].tree) + FlattenFrom(t, i + 1)
  }

  /** All extents lie in [lo, hi). */
  ghost predicate Within(es: seq<Extent>, lo: nat, hi: nat) {
    forall i :: 0 <= i < |es| ==> lo <= es[i].block && es[i].block + es[i].len <= hi
  }

  ghost predicate Disjoint(es: seq<Extent>) {
    forall i, j :: 0 <= i < j < |es| ==> es[i].block + es[i].len <= es[j].block
  }

  /** Where the range of child i ends. */
  function End(kids: seq<Kid>, hi: nat, i: nat): nat {
    if i + 1 < |kids| then kids[i + 1].block else hi
  }

  /** Extents ascend without overlap, and each child holds those between its block and its right neighbour's. */
  ghost predicate Ordered(t: Tree, hi: nat)
    decreases t
  {
    match t
    case Leaf(es) => Disjoint(es)
    case Inner(kids) =>
      forall i :: 0 <= i < |kids| ==>
        && (i + 1 < |kids| ==> kids[i].block < kids[i + 1].block)
        && Ordered(kids[i].tree, End(kids, hi, i)) && Within(Flatten(kids[i].tree), kids[i].block, End(kids, hi, i))
  }

  /** The node's bytes, and the blocks below it, hold the tree. */
  ghost predicate Stored(disk: Disk, d: bytes, t: Tree, depth: nat)
    decreases t
  {
    && NodeOk(d, depth)
    && match t
       case Leaf(es) =>
         depth == 0 && EntryCount(d, depth) == |es| && forall i :: 0 <= i < |es| ==> ExtentAt(d, i) == es[i]
       case Inner(kids) =>
         && depth > 0 && EntryCount(d, depth) == |kids|
         && forall i :: 0 <= i < |kids| ==>
              && IndexAt(d, i) == Index(kids[i].block, kids[i].child)
              && disk(kids[i].child).Some? && Stored(disk, disk(kids[i].child).value, kids[i].tree, depth - 1)
  }

  // ------------------------------------------------------------ lookup against the flat list

  /** The block an extent list maps b to: a hole exactly when no extent covers it. */
  function Find(es: seq<Extent>, b: nat): Lookup {
    if es == [] then Hole
    else if Covers(es[0], b) then Block(es[0].start + (b - es[0].block))
    else Find(es[1..], b)
  }

  lemma {:induction false} FindIsHole(es: seq<Extent>, b: nat)
    ensures Find(es, b) == Hole <==> forall e :: e in es ==> !Covers(e, b)
  {
    if es != [] { FindIsHole(es[1..], b); }
  }

  lemma {:induction false} FindSplit(xs: seq<Extent>, ys: seq<Extent>, b: nat)
    ensures Find(xs + ys, b) == if Find(xs, b) == Hole then Find(ys, b) else Find(xs, b)
  {
    if xs == [] {
      assert xs + ys == ys;
    } else {
      assert (xs + ys)[1..] == xs[1..] + ys;
      FindSplit(xs[1..], ys, b);
    }
  }

  lemma {:induction false} LeafIsFind(d: bytes, es: seq<Extent>, b: nat, i: nat)
    requires NodeOk(d, 0) && EntryCount(d, 0) == |es| && i <= |es|
             && forall j :: 0 <= j < |es| ==> ExtentAt(d, j) == es[j]
    ensures LeafLookup(d, 0, b, i) == Find(es[i..], b)
    decreases |es| - i
  {
    hide NodeOk, ExtentAt;
    if i < |es| {
      assert es[i..][1..] == es[i + 1..];
      LeafIsFind(d, es, b, i + 1);
    }
  }

  function KidBlocks(kids: seq<Kid>): (r: seq<nat>)
    ensures |r| == |kids|
  {
    seq(|kids|, i requires 0 <= i < |kids| => kids[i].block)
  }

  ghost predicate Lists(d: bytes, depth: nat, keys: seq<nat>) {
    && NodeOk(d, depth) && EntryCount(d, depth) == |keys|
    && (forall i :: 0 <= i < |keys| ==> IndexAt(d, i).block == keys[i])
    && forall i, j :: 0 <= i < j < |keys| ==> keys[i] < keys[j]
  }

  /** With ascending keys the entry chosen is the last one at most b. */
  lemma {:induction false} BestIsLast(d: bytes, depth: nat, keys: seq<nat>, b: nat, i: nat)
    requires Lists(d, depth, keys) && i <= |keys| && (i > 0 ==> keys[i - 1] <= b)
    ensures var r := BestIndex(d, depth, b, i, if i > 0 then Some(i - 1) else None);
            match r
            case None => |keys| > 0 ==> b < keys[0]
            case Some(n) => n < |keys| && keys[n] <= b && (n + 1 < |keys| ==> b < keys[n + 1])
    decreases |keys| - i
  {
    hide NodeOk, IndexAt;
    if i < |keys| {
      if keys[i] <= b {
        BestIsLast(d, depth, keys, b, i + 1);
      } else {
        BestStays(d, depth, keys, b, i, if i > 0 then Some(i - 1) else None);
      }
    }
  }

  lemma {:induction false} BestStays(d: bytes, depth: nat, keys: seq<nat>, b: nat, i: nat, best: Option<nat>)
    requires Lists(d, depth, keys) && i <= |keys| && (best.Some? ==> best.value < |keys|)
    requires forall j :: i <= j < |keys| ==> b < keys[j]
    ensures BestIndex(d, depth, b, i, best) == best
    decreases |keys| - i
  {
    hide NodeOk, IndexAt;
    if i < |keys| { BestStays(d, depth, keys, b, i + 1, best); }
  }

  lemma FindOutside(es: seq<Extent>, lo: nat, hi: nat, b: nat)
    requires Within(es, lo, hi) && (b < lo || hi <= b)
    ensures Find(es, b) == Hole
  {
    FindIsHole(es, b);
  }

  lemma {:induction false} KidsAscend(t: Tree, hi: nat, i: nat, j: nat)
    requires t.Inner? && Ordered(t, hi) && i < j < |t.kids|
    ensures t.kids[i].block < t.kids[j].block
    decreases j - i
  {
    if i + 1 < j { KidsAscend(t, hi, i + 1, j); }
  }

  /** No extent of the children before i, or from i on, can cover a block outside their range. */
  lemma {:induction false} FindInKids(t: Tree, hi: nat, b: nat, i: nat, n: nat)
    requires t.Inner? && Ordered(t, hi) && i <= n < |t.kids| && t.kids[n].block <= b
    requires n + 1 < |t.kids| ==> b < t.kids[n + 1].block
    ensures Find(FlattenFrom(t, i), b) == Find(Flatten(t.kids[n].tree), b)
    decreases |t.kids| - i
  {
    hide Find, Within;
    FindSplit(Flatten(t.kids[i].tree), FlattenFrom(t, i + 1), b);
    if i < n {
      if i + 1 < n { KidsAscend(t, hi, i + 1, n); }
      FindOutside(Flatten(t.kids[i].tree), t.kids[i].block, End(t.kids, hi, i), b);
      FindInKids(t, hi, b, i + 1, n);
    } else {
      FindBeyond(t, hi, b, n + 1);
    }
  }

  lemma {:induction false} FindBeyond(t: Tree, hi: nat, b: nat, i: nat)
    requires t.Inner? && Ordered(t, hi) && i <= |t.kids| && (i < |t.kids| ==> b < t.kids[i].block)
    ensures Find(FlattenFrom(t, i), b) == Hole
    decreases |t.kids| - i
  {
    hide Within;
    if i < |t.kids| {
      FindSplit(Flatten(t.kids[i].tree), FlattenFrom(t, i + 1), b);
      FindOutside(Flatten(t.kids[i].tree), t.kids[i].block, End(t.kids, hi, i), b);
      FindBeyond(t, hi, b, i + 1);
    }
  }

  lemma KidsListed(disk: Disk, d: bytes, t: Tree, depth: nat, hi: nat)
    requires t.Inner? && Stored(disk, d, t, depth) && Ordered(t, hi)
    ensures Lists(d, depth, KidBlocks(t.kids))
  {
    hide NodeOk, IndexAt;
    forall i, j | 0 <= i < j < |t.kids| ensures t.kids[i].block < t.kids[j].block { KidsAscend(t, hi, i, j); }
  }

  lemma LeafResolved(disk: Disk, d: bytes, t: Tree, depth: nat, b: nat)
    requires Stored(disk, d, t, depth) && t.Leaf?
    ensures Resolve(disk, d, b, depth) == Find(Flatten(t), b)
  {
    hide NodeOk, ExtentAt, Find;
    NothingFound(b);
    if t.extents != [] {
      assert t.extents[0..] == t.extents;
      LeafIsFind(d, t.extents, b, 0);
    }
  }

  /** In every well-formed tree, lookup by descent is lookup in the flattened list. */
  lemma {:induction false} ResolveIsFind(disk: Disk, d: bytes, t: Tree, depth: nat, hi: nat, b: nat)
    requires Stored(disk, d, t, depth) && Ordered(t, hi)
    ensures Resolve(disk, d, b, depth) == Find(Flatten(t), b)
    decreases t
  {
    hide NodeOk, IndexAt, ExtentAt, Find, Within, Disjoint;
    match t {
      case Leaf(es) => LeafResolved(disk, d, t, depth, b);
      case Inner(kids) =>
        KidsListed(disk, d, t, depth, hi);
        BestIsLast(d, depth, KidBlocks(kids), b, 0);
        match BestIndex(d, depth, b, 0, None) {
          case None => FindBeyond(t, hi, b, 0);
          case Some(n) =>
            FindInKids(t, hi, b, 0, n);
            ResolveIsFind(disk, disk(kids[n].child).value, kids[n].tree, depth - 1, End(kids, hi, n), b);
        }
    }
  }

  lemma NothingFound(b: nat)
    ensures Find([], b) == Hole
  {
  }

  // ------------------------------------------------------------ coverage

  function Blocks(es: seq<Extent>): nat {
    if es == [] then 0 else es[0].len + Blocks(es[1..])
  }

  lemma {:induction false} BlocksSplit(xs: seq<Extent>, ys: seq<Extent>)
    ensures Blocks(xs + ys) == Blocks(xs) + Blocks(ys)
  {
    if xs == [] {
      assert xs + ys == ys;
    } else {
      assert (xs + ys)[1..] == xs[1..] + ys;
      BlocksSplit(xs[1..], ys);
    }
  }

  function Capped(n: nat): Option<nat> { if n > MAX_EXTENT_BLOCKS then None else Some(n) }

  lemma {:induction false} LeafCoverage(disk: Disk, d: bytes, es: seq<Extent>, i: nat, total: nat)
    requires NodeOk(d, 0) && EntryCount(d, 0) == |es| && i <= |es|
             && forall j :: 0 <= j < |es| ==> ExtentAt(d, j) == es[j]
    requires total <= MAX_EXTENT_BLOCKS
    ensures CoverageFrom(disk, d, 0, i, total) == Capped(total + Blocks(es[i..]))
    decreases |es| - i
  {
    hide NodeOk, ExtentAt;
    if i < |es| {
      assert es[i..][1..] == es[i + 1..];
      if total + es[i].len <= MAX_EXTENT_BLOCKS { LeafCoverage(disk, d, es, i + 1, total + es[i].len); }
    }
  }

  lemma {:induction false} InnerCoverage(disk: Disk, d: bytes, t: Tree, depth: nat, i: nat, total: nat)
    requires t.Inner? && Stored(disk, d, t, depth) && i <= |t.kids| && total <= MAX_EXTENT_BLOCKS
    ensures CoverageFrom(disk, d, depth, i, total) == Capped(total + Blocks(FlattenFrom(t, i)))
    decreases t, |t.kids| - i
  {
    hide NodeOk, IndexAt, Blocks, Coverage, Flatten;
    NoBlocks();
    if i < |t.kids| {
      CoverageIsSum(disk, disk(t.kids[i].child).value, t.kids[i].tree, depth - 1);
      BlocksSplit(Flatten(t.kids[i].tree), FlattenFrom(t, i + 1));
      var here := Blocks(Flatten(t.kids[i].tree));
      if total + here <= MAX_EXTENT_BLOCKS { InnerCoverage(disk, d, t, depth, i + 1, total + here); }
    }
  }

  lemma NoBlocks()
    ensures Blocks([]) == 0
  {
  }

  /** Coverage is the sum of the flattened extents' lengths, refused past the limit. */
  lemma {:induction false} CoverageIsSum(disk: Disk, d: bytes, t: Tree, depth: nat)
    requires Stored(disk, d, t, depth)
    ensures Coverage(disk, d, depth) == Capped(Blocks(Flatten(t)))
    decreases t
  {
    hide NodeOk, IndexAt, ExtentAt, Blocks;
    match t {
      case Leaf(es) =>
        assert es[0..] == es;
        LeafCoverage(disk, d, es, 0, 0);
      case Inner(kids) => InnerCoverage(disk, d, t, depth, 0, 0);
    }
  }

  // ------------------------------------------------------------ file content

  /** A file: its extent root, the depth its header declares, its size, and the volume. */
  datatype File = File(disk: Disk, blockSize: nat, root: bytes, depth: nat, size: nat)

  /** Blocks that can be read are whole. */
  ghost predicate Sound(f: File) {
    f.blockSize > 0 && forall b :: f.disk(b).Some? ==> |f.disk(b).value| == f.blockSize
  }

  function FileBlocks(f: File): nat
    requires f.blockSize > 0
  {
    f.size / f.blockSize + if f.size % f.blockSize != 0 then 1 else 0
  }

  /** File block n as the streaming reader sees it: zeros where no extent covers it. */
  function SparseBlock(f: File, n: nat): Option<bytes> {
    match Resolve(f.disk, f.root, n, f.depth)
    case Failed => None
    case Hole => Some(Zeros(f.blockSize))
    case Block(p) => f.disk(p)
  }

  /** File block n as the eager reader sees it: a hole is an error. */
  function MappedBlock(f: File, n: nat): Option<bytes> {
    match Resolve(f.disk, f.root, n, f.depth)
    case Block(p) => f.disk(p)
    case _ => None
  }

  function SparseBlocks(f: File): (bs: seq<Option<bytes>>)
    requires f.blockSize > 0
    ensures |bs| == FileBlocks(f)
  {
    seq(FileBlocks(f), i requires 0 <= i < FileBlocks(f) => SparseBlock(f, i))
  }

  function MappedBlocks(f: File): (bs: seq<Option<bytes>>)
    requires f.blockSize > 0
    ensures |bs| == FileBlocks(f)
  {
    seq(FileBlocks(f), i requires 0 <= i < FileBlocks(f) => MappedBlock(f, i))
  }

  /** The zero-filled content; None when a block that is mapped, or the tree above it, cannot be read. */
  function SparseContent(f: File): Option<bytes>
    requires f.blockSize > 0
  {
    Gather(SparseBlocks(f), f.size)
  }

  /** readExtentData; None is any error. */
  function EagerContent(f: File): Option<bytes>
    requires f.blockSize > 0
  {
    if f.size == 0 then Some([])
    else if f.depth > MAX_DEPTH || FileBlocks(f) > MAX_FILE_BLOCKS then None
    else
      var coverage := Coverage(f.disk, f.root, f.depth);
      if coverage.None? || FileBlocks(f) > coverage.value then None
      else Gather(MappedBlocks(f), f.size)
  }

  lemma EnoughBlocks(f: File)
    requires f.blockSize > 0
    ensures f.size <= FileBlocks(f) * f.blockSize
    ensures forall i :: 0 <= i < FileBlocks(f) ==> i * f.blockSize < f.size
  {
    var k, q := f.blockSize, f.size / f.blockSize;
    assert f.size == q * k + f.size % k;
    MulAdd(q, 1, k);
    forall i | 0 <= i < FileBlocks(f) ensures i * k < f.size {
      if i < q { MulLe(i + 1, q, k); MulAdd(i, 1, k); }
    }
  }

  method ReadExtentData(f: File) returns (r: Option<bytes>)
    requires Sound(f)
    ensures r == EagerContent(f)
  {
    hide Gather, Resolve, Coverage;
    if f.size == 0 { return Some([]); }
    if f.depth > MAX_DEPTH { return None; }
    var fileBlocks := FileBlocks(f);
    if fileBlocks > MAX_FILE_BLOCKS { return None; }
    var coverage := Coverage(f.disk, f.root, f.depth);
    if coverage.None? || fileBlocks > coverage.value { return None; }
    r := ReadBlocks(f);
  }

  /** Reads every block and cuts the whole to size. */
  method ReadBlocks(f: File) returns (r: Option<bytes>)
    requires Sound(f)
    ensures r == Gather(MappedBlocks(f), f.size)
  {
    hide Gather, Resolve;
    var out: bytes := [];
    ghost var blocks, k := MappedBlocks(f), f.blockSize;
    EnoughBlocks(f);
    assert blocks[0..] == blocks && out[..0] == [];
    BehindNothing(Gather(blocks, f.size));
    for i := 0 to FileBlocks(f)
      invariant |out| == i * k
      invariant Gather(blocks, f.size) ==
                Behind(out[..Min(|out|, f.size)], Gather(blocks[i..], f.size - Min(|out|, f.size)))
    {
      MulAdd(i, 1, k);
      assert out[..|out|] == out;
      var found := Resolve(f.disk, f.root, i, f.depth);
      assert blocks[i] == MappedBlock(f, i);
      if !found.Block? || f.disk(found.phys).None? {
        UnreadableStops(blocks, i, f.size - |out|);
        return None;
      }
      var d := f.disk(found.phys).value;
      GatherStep(blocks, i, f.size - |out|, out);
      assert (out + d)[..Min(|out + d|, f.size)] == out + d[..Min(k, f.size - |out|)];
      out := out + d;
    }
    GatherNone(blocks[FileBlocks(f)..]);
    assert out[..f.size] + [] == out[..f.size];
    r := Some(out[..f.size]);
  }

  lemma UnreadableStops(blocks: seq<Option<bytes>>, i: nat, n: nat)
    requires i < |blocks| && blocks[i] == None && n > 0
    ensures Gather(blocks[i..], n) == None
  {
  }

  /** The piece the streaming reader copies at offset o: to the end of the block at most. */
  function Piece(f: File, o: nat, t: nat): Option<bytes>
    requires f.blockSize > 0
  {
    RestOfBlock(SparseBlock(f, o / f.blockSize), o % f.blockSize, t)
  }

  lemma SparseEven(f: File)
    requires Sound(f)
    ensures Even(SparseBlocks(f), f.blockSize)
  {
  }

  /** Streaming serves the zero-filled content, whenever there is one. */
  lemma StreamingServesSparse(f: File)
    requires Sound(f) && SparseContent(f).Some?
    ensures |SparseContent(f).value| == f.size
    ensures PieceServes(SparseContent(f).value, (o, t) => if f.blockSize > 0 then Piece(f, o, t) else None)
  {
    hide Gather, Resolve, Piece, SparseBlocks;
    SparseEven(f);
    EnoughBlocks(f);
    GatherLength(SparseBlocks(f), f.blockSize, f.size);
    forall o: nat, t: nat | 0 < t && o + t <= f.size
      ensures var p := Piece(f, o, t);
              && p.Some? && 0 < |p.value| <= t
              && p.value == SparseContent(f).value[o..o + |p.value|]
    {
      PieceOfSparse(f, o, t);
    }
  }

  /** The blocks of a file, holes as zeros, as far as they can be read. */
  function BlocksOf(f: File): nat -> Option<bytes> { n => SparseBlock(f, n) }

  lemma BlocksWhole(f: File)
    requires Sound(f)
    ensures WholeBlocks(BlocksOf(f), f.blockSize)
  {
    hide Resolve;
  }

  /** Real bytes or an error, whatever else in the file cannot be read. */
  lemma StreamingHonest(f: File)
    requires Sound(f)
    ensures RealOrFailed(f.size, BlocksOf(f), f.blockSize, (o, t) => if f.blockSize > 0 then Piece(f, o, t) else None)
  {
    hide SparseBlock, RestOfBlock, WholeBlocks, RealOrFailed;
    BlocksWhole(f);
    FromBlocksReal(f.size, BlocksOf(f), f.blockSize, (o, t) => if f.blockSize > 0 then Piece(f, o, t) else None);
  }

  /**
   * Opening a file for streaming: every read of the result gives bytes of the readable blocks or an
   * error, and all of the zero-filled content when every block can be read.
   */
  method OpenStream(f: File) returns (r: StreamReader)
    requires Sound(f)
    ensures fresh(r) && r.size == f.size && r.pos == 0 && PieceBounded(r.size, r.piece)
    ensures RealOrFailed(f.size, BlocksOf(f), f.blockSize, r.piece)
    ensures SparseContent(f).Some? ==>
              && |SparseContent(f).value| == f.size
              && PieceServes(SparseContent(f).value, r.piece)
  {
    hide Gather, SparseBlock, SparseBlocks, PieceServes, RealOrFailed;
    r := new StreamReader(f.size, (o, t) => if f.blockSize > 0 then Piece(f, o, t) else None);
    StreamingHonest(f);
    if SparseContent(f).Some? { StreamingServesSparse(f); }
  }

  lemma PieceOfSparse(f: File, o: nat, t: nat)
    requires Sound(f) && SparseContent(f).Some? && |SparseContent(f).value| == f.size && 0 < t && o + t <= f.size
    ensures var p := Piece(f, o, t);
            && p.Some? && 0 < |p.value| <= t
            && p.value == SparseContent(f).value[o..o + |p.value|]
  {
    hide Gather, SparseBlock, Even, FileBlocks, RestOfBlock;
    SparseEven(f);
    EnoughBlocks(f);
    BlockServes(SparseBlocks(f), f.blockSize, f.size, o, t, o / f.blockSize, o % f.blockSize);
  }

  /** A content the eager reader accepts has no holes, so both readers see the same bytes. */
  lemma {:induction false} MappedIsSparse(mapped: seq<Option<bytes>>, sparse: seq<Option<bytes>>, n: nat)
    requires |mapped| == |sparse| && forall i :: 0 <= i < |mapped| ==> mapped[i].Some? ==> sparse[i] == mapped[i]
    requires Gather(mapped, n).Some?
    ensures Gather(sparse, n) == Gather(mapped, n)
    decreases |mapped|
  {
    if n > 0 && mapped != [] {
      MappedIsSparse(mapped[1..], sparse[1..], n - Min(|mapped[0].value|, n));
    }
  }

  lemma EagerIsSparse(f: File)
    requires Sound(f) && EagerContent(f).Some?
    ensures SparseContent(f) == EagerContent(f)
  {
    hide Gather, Resolve;
    if f.size == 0 { GatherNone(SparseBlocks(f)); } else { MappedIsSparse(MappedBlocks(f), SparseBlocks(f), f.size); }
  }

  /**
   * What every block of a file over a well-formed tree is: the extent's block, or zeros exactly where no
   * extent covers it.
   */
  lemma SparseBlockIs(f: File, t: Tree, hi: nat, n: nat)
    requires Stored(f.disk, f.root, t, f.depth) && Ordered(t, hi)
    ensures SparseBlock(f, n) ==
            match Find(Flatten(t), n)
            case Failed => None
            case Hole => Some(Zeros(f.blockSize))
            case Block(p) => f.disk(p)
  {
    ResolveIsFind(f.disk, f.root, t, f.depth, hi, n);
  }
}

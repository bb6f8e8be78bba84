/**
 * The APFS object map (internal/filesystem/apfs/apfs.go): a root-to-leaf descent through B-tree
 * nodes with a node cache, against a scan of all entries.
 */
module Omap {
  import opened Bytes

  const MAX_TREE_DEPTH: nat := 48
  const ROOT_FOOTER: nat := 40
  const NO_VALUE: nat := 0xffff

  // ------------------------------------------------------------ one node

  /** Little-endian fields; zero when out of bounds. */
  function Field(d: bytes, off: nat, n: nat): nat { if off + n > |d| then 0 else LE(d[off..off + n]) }

  function Level(d: bytes): nat { Field(d, 0x22, 2) }
  function KeyCount(d: bytes): nat { Field(d, 0x24, 4) }
  function TableLength(d: bytes): nat { Field(d, 0x2a, 2) }
  function IsRoot(d: bytes): bool { Field(d, 0x20, 2) % 2 == 1 }

  datatype Key = Key(oid: nat, xid: nat) {
    /** Keys are ordered by object first, then by transaction. */
    predicate AtMost(k: Key) { oid < k.oid || (oid == k.oid && xid <= k.xid) }
  }

  /** Key i of a node, unless its slot or its bytes lie outside the node. */
  function KeyAt(d: bytes, i: nat): Option<Key> {
    var toc := 0x38 + 4 * i;
    var pos := 56 + TableLength(d) + Field(d, toc, 2);
    if toc + 4 > |d| || pos + 16 > |d| then None else Some(Key(Field(d, pos, 8), Field(d, pos + 8, 8)))
  }

  function ValueOffset(d: bytes, i: nat): nat { Field(d, 0x38 + 4 * i + 2, 2) }

  /** Where value i of a node begins, counted from the end of the block. */
  function ValueAt(d: bytes, blockSize: nat, i: nat): int {
    blockSize - ValueOffset(d, i) - if IsRoot(d) then ROOT_FOOTER else 0
  }

  /** How many of the node's first keys, from i on, are at most k. */
  function Leading(d: bytes, k: Key, i: nat): (n: nat)
    requires i <= KeyCount(d)
    ensures i <= n <= KeyCount(d)
    decreases KeyCount(d) - i
  {
    if i < KeyCount(d) && KeyAt(d, i).Some? && KeyAt(d, i).value.AtMost(k) then Leading(d, k, i + 1) else i
  }

  datatype Step = Failed | Found(paddr: nat) | Descend(node: nat)

  /** Where one node leads. */
  function StepFrom(d: bytes, blockSize: nat, k: Key): Step {
    if TableLength(d) > |d| || Leading(d, k, 0) == 0 then Failed
    else
      var sel := Leading(d, k, 0) - 1;
      var pos := ValueAt(d, blockSize, sel);
      if ValueOffset(d, sel) == NO_VALUE || pos < 0 || pos + 8 > |d| then Failed
      else if Level(d) > 0 then
        if Field(d, pos, 8) == 0 then Failed else Descend(Field(d, pos, 8))
      else Found(Field(d, pos + 8, 8))
  }

  /** The container's blocks: what reading each one gives. */
  type Disk = nat -> Option<bytes>

  /** The descent from a node with so many levels allowed; None is any error. */
  function Resolve(disk: Disk, blockSize: nat, node: nat, k: Key, depth: nat): Option<nat>
    decreases depth
  {
    if depth == 0 || disk(node).None? then None
    else
      match StepFrom(disk(node).value, blockSize, k)
      case Failed => None
      case Found(p) => Some(p)
      case Descend(n) => Resolve(disk, blockSize, n, k, depth - 1)
  }

  // ------------------------------------------------------------ the reader with its node cache

  class ObjectMap {
    const disk: Disk
    const blockSize: nat
    var nodeCache: map<nat, bytes>

    constructor (disk: Disk, blockSize: nat)
      ensures this.disk == disk && this.blockSize == blockSize && Valid()
    {
      this.disk, this.blockSize, nodeCache := disk, blockSize, map[];
    }

    /** Every cached node is what reading it again would give. */
    ghost predicate Valid()
      reads this
    {
      forall n :: n in nodeCache ==> disk(n) == Some(nodeCache[n])
    }

    method ReadNode(node: nat) returns (d: Option<bytes>)
      requires Valid()
      modifies this
      ensures Valid() && d == disk(node)
    {
      if node in nodeCache { return Some(nodeCache[node]); }
      d := disk(node);
      if d.Some? { nodeCache := nodeCache[node := d.value]; }
    }

    /** The last of the leading keys that are at most k, or -1. */
    method SelectKey(d: bytes, k: Key) returns (sel: int)
      ensures sel == Leading(d, k, 0) - 1
    {
      sel := -1;
      var i := 0;
      while i < KeyCount(d)
        invariant i <= KeyCount(d) && sel == i - 1
        invariant Leading(d, k, i) == Leading(d, k, 0)
      {
        var key := KeyAt(d, i);
        if key.None? || !key.value.AtMost(k) { break; }
        sel := i;
        i := i + 1;
      }
    }

    /** resolveOmapOidAt: the answer does not depend on what is cached. */
    method ResolveOid(treeRoot: nat, oid: nat, maxXid: nat) returns (r: Option<nat>)
      requires Valid()
      modifies this
      ensures Valid() && r == Resolve(disk, blockSize, treeRoot, Key(oid, maxXid), MAX_TREE_DEPTH)
    {
      hide KeyAt, ValueAt, Leading, Field, TableLength, Level;
      var node, k := treeRoot, Key(oid, maxXid);
      for depth := 0 to MAX_TREE_DEPTH
        invariant Valid()
        invariant Resolve(disk, blockSize, node, k, MAX_TREE_DEPTH - depth) ==
                  Resolve(disk, blockSize, treeRoot, k, MAX_TREE_DEPTH)
      {
        var block := ReadNode(node);
        if block.None? { return None; }
        var d := block.value;
        if TableLength(d) > |d| { return None; }
        var sel := SelectKey(d, k);
        if sel < 0 || ValueOffset(d, sel) == NO_VALUE { return None; }
        var pos := ValueAt(d, blockSize, sel);
        if pos < 0 || pos + 8 > |d| { return None; }
        if Level(d) == 0 { return Some(Field(d, pos + 8, 8)); }
        node := Field(d, pos, 8);
        if node == 0 { return None; }
      }
      return None;
    }
  }

  // ------------------------------------------------------------ the tree a disk holds

  datatype Entry = Entry(key: Key, paddr: nat)

  datatype Kid = Kid(key: Key, addr: nat, tree: Tree)

  datatype Tree = Leaf(entries: seq<Entry>) | Inner(kids: seq<Kid>)

  /** All entries of a tree, left to right. */
  function Flatten(t: Tree): seq<Entry>
    decreases t
  {
    match t
    case Leaf(entries) => entries
    case Inner(kids) => FlattenFrom(t, 0)
  }

  function FlattenFrom(t: Tree, i: nat): seq<Entry>
    requires t.Inner? && i <= |t.kids|
    decreases t, |t.kids| - i
  {
    if i == |t.kids| then [] else Flatten(t.kids[i].tree) + FlattenFrom(t, i + 1)
  }

  function Height(t: Tree): nat
    decreases t
  {
    match t
    case Leaf(_) => 1
    case Inner(kids) => 1 + HeightFrom(t, 0)
  }

  function HeightFrom(t: Tree, i: nat): (h: nat)
    requires t.Inner? && i <= |t.kids|
    ensures forall j :: i <= j < |t.kids| ==> Height(t.kids[j].tree) <= h
    decreases t, |t.kids| - i
  {
    if i == |t.kids| then 0
    else
      var a, b := Height(t.kids[i].tree), HeightFrom(t, i + 1);
      if a < b then b else a
  }

  ghost predicate Ascending(es: seq<Entry>) {
    forall i, j :: 0 <= i < j < |es| ==> es[i].key.AtMost(es[j].key) && es[i].key != es[j].key
  }

  /** Keys ascend across the whole tree, and each separator is the first key below it. */
  ghost predicate Ordered(t: Tree)
    decreases t
  {
    Ascending(Flatten(t)) &&
    (t.Inner? ==> forall i :: 0 <= i < |t.kids| ==>
       && Ordered(t.kids[i].tree) && Flatten(t.kids[i].tree) != []
       && Flatten(t.kids[i].tree)[0].key == t.kids[i].key)
  }

  /** A node's block lists these keys, each with a value that lies in the block. */
  ghost predicate Lists(d: bytes, blockSize: nat, keys: seq<Key>) {
    && TableLength(d) <= |d| && KeyCount(d) == |keys|
    && forall i :: 0 <= i < |keys| ==>
         && KeyAt(d, i) == Some(keys[i]) && ValueOffset(d, i) != NO_VALUE
         && ValueAt(d, blockSize, i) >= 0 && ValueAt(d, blockSize, i) + 8 <= |d|
  }

  function EntryKeys(es: seq<Entry>): (ks: seq<Key>)
    ensures |ks| == |es|
  {
    seq(|es|, i requires 0 <= i < |es| => es[i].key)
  }

  function KidKeys(kids: seq<Kid>): (ks: seq<Key>)
    ensures |ks| == |kids|
  {
    seq(|kids|, i requires 0 <= i < |kids| => kids[i].key)
  }

  /** The disk holds the tree with its top node at addr. */
  ghost predicate Stored(disk: Disk, blockSize: nat, addr: nat, t: Tree)
    decreases t
  {
    disk(addr).Some? &&
    var d := disk(addr).value;
    match t
    case Leaf(es) =>
      && Level(d) == 0 && Lists(d, blockSize, EntryKeys(es))
      && forall i :: 0 <= i < |es| ==> Field(d, ValueAt(d, blockSize, i) + 8, 8) == es[i].paddr
    case Inner(kids) =>
      && Level(d) > 0 && Lists(d, blockSize, KidKeys(kids))
      && forall i :: 0 <= i < |kids| ==>
           && Field(d, ValueAt(d, blockSize, i), 8) == kids[i].addr != 0
           && Stored(disk, blockSize, kids[i].addr, kids[i].tree)
  }

  // ------------------------------------------------------------ descent against scan

  /** The last entry whose key is at most k. */
  function Predecessor(es: seq<Entry>, k: Key): Option<Entry> {
    if es == [] then None
    else if es[|es| - 1].key.AtMost(k) then Some(es[|es| - 1])
    else Predecessor(es[..|es| - 1], k)
  }

  lemma {:induction false} LeadingKeys(d: bytes, blockSize: nat, keys: seq<Key>, k: Key, i: nat)
    requires Lists(d, blockSize, keys) && i <= |keys|
    ensures var n := Leading(d, k, i);
            && (forall j :: i <= j < n ==> keys[j].AtMost(k))
            && (n < |keys| ==> !keys[n].AtMost(k))
    decreases |keys| - i
  {
    hide KeyAt, ValueAt;
    if i < |keys| && keys[i].AtMost(k) { LeadingKeys(d, blockSize, keys, k, i + 1); }
  }

  lemma {:induction false} PredecessorAt(es: seq<Entry>, k: Key, n: nat)
    requires Ascending(es) && n <= |es|
    requires forall j :: 0 <= j < n ==> es[j].key.AtMost(k)
    requires n < |es| ==> !es[n].key.AtMost(k)
    ensures Predecessor(es, k) == if n == 0 then None else Some(es[n - 1])
    decreases |es|
  {
    if n < |es| {
      assert !es[|es| - 1].key.AtMost(k) by { assert n < |es| - 1 ==> es[n].key.AtMost(es[|es| - 1].key); }
      PredecessorAt(es[..|es| - 1], k, n);
    }
  }

  lemma {:induction false} PredecessorSplit(a: seq<Entry>, b: seq<Entry>, k: Key)
    requires Ascending(b)
    ensures Predecessor(a + b, k) ==
            if b != [] && b[0].key.AtMost(k) then Predecessor(b, k) else Predecessor(a, k)
    decreases |b|
  {
    if b == [] {
      assert a + b == a;
    } else {
      var ab, last := a + b, |b| - 1;
      assert ab[..|ab| - 1] == a + b[..last] && ab[|ab| - 1] == b[last];
      PredecessorSplit(a, b[..last], k);
      if !b[last].key.AtMost(k) && last == 0 { assert b[..last] == []; }
      if b[last].key.AtMost(k) && last > 0 { assert b[0].key.AtMost(b[last].key); }
    }
  }

  lemma {:induction false} FlattenSplit(t: Tree, i: nat, j: nat) returns (before: seq<Entry>)
    requires t.Inner? && i <= j <= |t.kids|
    ensures FlattenFrom(t, i) == before + FlattenFrom(t, j)
    decreases j - i
  {
    if i == j {
      before := [];
      assert FlattenFrom(t, i) == before + FlattenFrom(t, j);
    } else {
      var rest := FlattenSplit(t, i + 1, j);
      before := Flatten(t.kids[i].tree) + rest;
      AppendAssoc(Flatten(t.kids[i].tree), rest, FlattenFrom(t, j));
    }
  }

  lemma AscendingPart(a: seq<Entry>, b: seq<Entry>)
    requires Ascending(a + b)
    ensures Ascending(a) && Ascending(b)
  {
    forall i, j | 0 <= i < j < |b| ensures b[i].key.AtMost(b[j].key) && b[i].key != b[j].key {
      assert (a + b)[|a| + i] == b[i] && (a + b)[|a| + j] == b[j];
    }
    forall i, j | 0 <= i < j < |a| ensures a[i].key.AtMost(a[j].key) && a[i].key != a[j].key {
      assert (a + b)[i] == a[i] && (a + b)[j] == a[j];
    }
  }

  /** The predecessor in an inner node lies below the last separator that is at most k. */
  lemma PredecessorBelow(t: Tree, k: Key, n: nat)
    requires t.Inner? && Ordered(t) && 0 < n <= |t.kids|
    requires t.kids[n - 1].key.AtMost(k) && (n < |t.kids| ==> !t.kids[n].key.AtMost(k))
    ensures Predecessor(Flatten(t), k) == Predecessor(Flatten(t.kids[n - 1].tree), k)
  {
    hide Ascending, Predecessor, Height;
    var before := FlattenSplit(t, 0, n - 1);
    var here, after := Flatten(t.kids[n - 1].tree), FlattenFrom(t, n);
    assert FlattenFrom(t, n - 1) == here + after;
    AscendingPart(before, here + after);
    AscendingPart(here, after);
    assert n < |t.kids| ==> after == Flatten(t.kids[n].tree) + FlattenFrom(t, n + 1);
    PredecessorSplit(before, here + after, k);
    PredecessorSplit(here, after, k);
  }

  lemma NothingBelow(t: Tree, k: Key)
    requires t.Inner? && Ordered(t) && (0 < |t.kids| ==> !t.kids[0].key.AtMost(k))
    ensures Predecessor(Flatten(t), k) == None
  {
    hide Ascending, Predecessor, Height;
    PredecessorSplit([], Flatten(t), k);
    assert [] + Flatten(t) == Flatten(t);
    assert Predecessor([], k) == None by { NoPredecessor(k); }
    if t.kids != [] { assert Flatten(t)[0] == Flatten(t.kids[0].tree)[0]; }
  }

  lemma NoPredecessor(k: Key)
    ensures Predecessor([], k) == None
  {
  }

  function Address(e: Option<Entry>): Option<nat> { if e.Some? then Some(e.value.paddr) else None }

  /**
   * In every well-ordered tree within the depth bound, the descent finds the predecessor of k, or fails if
   * there is none.
   */
  lemma {:induction false} DescentIsPredecessor(disk: Disk, blockSize: nat, addr: nat, t: Tree, k: Key, depth: nat)
    requires Stored(disk, blockSize, addr, t) && Ordered(t) && Height(t) <= depth
    ensures Resolve(disk, blockSize, addr, k, depth) == Address(Predecessor(Flatten(t), k))
    decreases t
  {
    hide Predecessor, Ascending, StepFrom, Leading, Lists, Field, Level;
    match t {
      case Leaf(es) =>
        LeafStep(disk(addr).value, blockSize, es, k);
      case Inner(kids) =>
        var n := Leading(disk(addr).value, k, 0);
        InnerStep(disk(addr).value, blockSize, t, k);
        if n > 0 {
          assert Height(kids[n - 1].tree) < Height(t);
          DescentIsPredecessor(disk, blockSize, kids[n - 1].addr, kids[n - 1].tree, k, depth - 1);
        }
    }
  }

  lemma LeafStep(d: bytes, blockSize: nat, es: seq<Entry>, k: Key)
    requires Ascending(es) && Level(d) == 0 && Lists(d, blockSize, EntryKeys(es))
    requires forall i :: 0 <= i < |es| ==> Field(d, ValueAt(d, blockSize, i) + 8, 8) == es[i].paddr
    ensures StepFrom(d, blockSize, k) == match Predecessor(es, k) case None => Failed case Some(e) => Found(e.paddr)
  {
    hide Predecessor, KeyAt, ValueAt, Field, Leading;
    LeadingKeys(d, blockSize, EntryKeys(es), k, 0);
    PredecessorAt(es, k, Leading(d, k, 0));
  }

  lemma InnerStep(d: bytes, blockSize: nat, t: Tree, k: Key)
    requires t.Inner? && Ordered(t) && Level(d) > 0 && Lists(d, blockSize, KidKeys(t.kids))
    requires forall i :: 0 <= i < |t.kids| ==> Field(d, ValueAt(d, blockSize, i), 8) == t.kids[i].addr != 0
    ensures var n := Leading(d, k, 0);
            if n == 0 then StepFrom(d, blockSize, k) == Failed && Predecessor(Flatten(t), k) == None
            else n <= |t.kids| && StepFrom(d, blockSize, k) == Descend(t.kids[n - 1].addr)
                 && Predecessor(Flatten(t), k) == Predecessor(Flatten(t.kids[n - 1].tree), k)
  {
    hide Predecessor, KeyAt, ValueAt, Field, Leading, Ordered, Flatten;
    LeadingKeys(d, blockSize, KidKeys(t.kids), k, 0);
    var n := Leading(d, k, 0);
    if n == 0 { NothingBelow(t, k); } else { PredecessorBelow(t, k, n); }
  }

  /** A scan of all entries for the object: the one with the latest transaction that is not after maxXid. */
  function Latest(es: seq<Entry>, oid: nat, maxXid: nat): Option<Entry> {
    if es == [] then None
    else
      var e, best := es[0], Latest(es[1..], oid, maxXid);
      if e.key.oid == oid && e.key.xid <= maxXid
          && (best.None? || best.value.key.xid <= e.key.xid) then Some(e) else best
  }

  lemma {:induction false} LatestIs(es: seq<Entry>, oid: nat, maxXid: nat)
    ensures match Latest(es, oid, maxXid)
            case None => forall e :: e in es ==> !(e.key.oid == oid && e.key.xid <= maxXid)
            case Some(b) => b in es && b.key.oid == oid && b.key.xid <= maxXid
                            && forall e :: e in es && e.key.oid == oid && e.key.xid <= maxXid ==> e.key.xid <= b.key.xid
  {
    if es != [] { LatestIs(es[1..], oid, maxXid); }
  }

  lemma {:induction false} PredecessorIs(es: seq<Entry>, k: Key)
    requires Ascending(es)
    ensures match Predecessor(es, k)
            case None => forall e :: e in es ==> !e.key.AtMost(k)
            case Some(p) => p in es && p.key.AtMost(k) && forall e :: e in es && e.key.AtMost(k) ==> e.key.AtMost(p.key)
  {
    if es != [] {
      var last := es[|es| - 1];
      assert es == es[..|es| - 1] + [last];
      if last.key.AtMost(k) {
        forall e | e in es ensures e.key.AtMost(last.key) {
          var i :| 0 <= i < |es| && es[i] == e;
        }
      } else {
        PredecessorIs(es[..|es| - 1], k);
      }
    }
  }

  /** In ascending order an object's latest version is the predecessor, when the object has a version at all. */
  lemma LatestIsPredecessor(es: seq<Entry>, oid: nat, maxXid: nat)
    requires Ascending(es) && Latest(es, oid, maxXid).Some?
    ensures Predecessor(es, Key(oid, maxXid)) == Latest(es, oid, maxXid)
  {
    hide Predecessor, Latest;
    LatestIs(es, oid, maxXid);
    PredecessorIs(es, Key(oid, maxXid));
    var l, p := Latest(es, oid, maxXid).value, Predecessor(es, Key(oid, maxXid));
    assert l.key.AtMost(Key(oid, maxXid));
    var i :| 0 <= i < |es| && es[i] == l;
    var j :| 0 <= j < |es| && es[j] == p.value;
    assert p.value.key == l.key;
    assert i == j;
  }

  /**
   * Lookup in a well-ordered object map: the descent gives the version a full scan gives, exactly
   * when the object has one.  Without one the leaf does not compare object numbers again, and the
   * answer is the neighbour's address, unless nothing at all precedes the key.
   */
  lemma LookupIsScan(disk: Disk, blockSize: nat, addr: nat, t: Tree, oid: nat, maxXid: nat)
    requires Stored(disk, blockSize, addr, t) && Ordered(t) && Height(t) <= MAX_TREE_DEPTH
    ensures var r, p := Resolve(disk, blockSize, addr, Key(oid, maxXid), MAX_TREE_DEPTH),
            Predecessor(Flatten(t), Key(oid, maxXid));
            && r == Address(p)
            && (Latest(Flatten(t), oid, maxXid).Some? ==> p == Latest(Flatten(t), oid, maxXid))
            && ((p.Some? && p.value.key.oid == oid) <==> Latest(Flatten(t), oid, maxXid).Some?)
  {
    hide Predecessor, Latest, Stored, Resolve;
    DescentIsPredecessor(disk, blockSize, addr, t, Key(oid, maxXid), MAX_TREE_DEPTH);
    LatestIs(Flatten(t), oid, maxXid);
    PredecessorIs(Flatten(t), Key(oid, maxXid));
    if Latest(Flatten(t), oid, maxXid).Some? { LatestIsPredecessor(Flatten(t), oid, maxXid); }
  }

  // ------------------------------------------------------------ a leaf answers for its neighbour

  /** A one-entry leaf: object 5, transaction 1, stored at block 77. */
  function OneEntryLeaf(): (d: bytes)
    ensures |d| == 4096
  {
    seq<byte>(4096, i =>
      if i == 36 || i == 72 then 1 else if i == 56 then 8 else if i == 58 then 16
      else if i == 64 then 5 else if i == 4088 then 77 else 0)
  }

  lemma {:induction false} ZeroValue(b: bytes)
    requires forall i :: 0 <= i < |b| ==> b[i] == 0
    ensures LE(b) == 0
  {
    if b != [] { ZeroValue(b[1..]); }
  }

  /** A field whose high bytes are zero has the value of its first byte. */
  lemma LowField(d: bytes, off: nat, n: nat)
    requires n > 0 && off + n <= |d| && forall i :: off < i < off + n ==> d[i] == 0
    ensures Field(d, off, n) == d[off]
  {
    ZeroValue(d[off..off + n][1..]);
  }

  predicate Marked(i: nat) { i == 36 || i == 56 || i == 58 || i == 64 || i == 72 || i == 4088 }

  lemma LeafField(off: nat, n: nat)
    requires n > 0 && off + n <= 4096 && forall i :: off < i < off + n ==> !Marked(i)
    ensures Field(OneEntryLeaf(), off, n) == OneEntryLeaf()[off]
  {
    var d := OneEntryLeaf();
    forall i | off < i < off + n ensures d[i] == 0 { assert !Marked(i); }
    LowField(d, off, n);
  }

  lemma LeafFields()
    ensures var d := OneEntryLeaf();
            && KeyCount(d) == 1 && Level(d) == 0 && TableLength(d) == 0 && !IsRoot(d)
            && Field(d, 56, 2) == 8 && ValueOffset(d, 0) == 16
            && Field(d, 64, 8) == 5 && Field(d, 72, 8) == 1 && Field(d, 4088, 8) == 77
  {
    hide Field;
    LeafField(0x20, 2);
    LeafField(0x22, 2);
    LeafField(0x24, 4);
    LeafField(0x2a, 2);
    LeafField(56, 2);
    LeafField(58, 2);
    LeafField(64, 8);
    LeafField(72, 8);
    LeafField(4088, 8);
  }

  /** Asked for object 6, which the map does not hold, the reader returns the block of object 5. */
  lemma NeighbourAnswers()
    ensures var disk: Disk := n => if n == 9 then Some(OneEntryLeaf()) else None;
            && Stored(disk, 4096, 9, Leaf([Entry(Key(5, 1), 77)]))
            && Latest([Entry(Key(5, 1), 77)], 6, 100) == None
            && Resolve(disk, 4096, 9, Key(6, 100), MAX_TREE_DEPTH) == Some(77)
  {
    hide OneEntryLeaf, Field, Resolve;
    var disk: Disk := n => if n == 9 then Some(OneEntryLeaf()) else None;
    var es := [Entry(Key(5, 1), 77)];
    LeafFields();
    assert KeyAt(OneEntryLeaf(), 0) == Some(Key(5, 1));
    assert EntryKeys(es) == [Key(5, 1)];
    assert es[1..] == [];
    assert Latest([], 6, 100) == None;
    DescentIsPredecessor(disk, 4096, 9, Leaf(es), Key(6, 100), MAX_TREE_DEPTH);
  }
}

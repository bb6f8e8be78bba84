/**
 * Object-map nodes as they lie on disk: blocks written field by field, and what the descent makes of them
 * (internal/filesystem/apfs/apfs.go).
 */
module OmapWritten {
  import opened Bytes
  import opened Omap

  // ------------------------------------------------------------ one node

  /** The object header, flags (root, leaf, fixed-size entries), level, key count, table space, free lists. */
  function Head(root: bool, level: nat, n: nat): (b: bytes)
    ensures |b| == 56
  {
    Zeros(32) + ToLE((if root then 1 else 0) + (if level == 0 then 2 else 0) + 4, 2) + ToLE(level, 2) + ToLE(n, 4)
    + ToLE(0, 2) + ToLE(4 * n, 2) + Zeros(12)
  }

  /** Entry i of the table: where its key starts in the key area, and how far its value is from the end. */
  function Slot(width: nat, i: nat): (b: bytes)
    ensures |b| == 4
  {
    ToLE(16 * i, 2) + ToLE(width * (i + 1), 2)
  }

  function KeyBytes(k: Key): (b: bytes)
    ensures |b| == 16
  {
    ToLE(k.oid, 8) + ToLE(k.xid, 8)
  }

  function Slots(width: nat, n: nat): seq<bytes> { seq(n, i requires 0 <= i < n => Slot(width, i)) }

  function KeyArea(keys: seq<Key>): seq<bytes> { seq(|keys|, i requires 0 <= i < |keys| => KeyBytes(keys[i])) }

  /** Values are counted back from the end: the first one lies last. */
  function ValueArea(values: seq<bytes>): seq<bytes> {
    seq(|values|, i requires 0 <= i < |values| => values[|values| - 1 - i])
  }

  /** The tree's own record, which only the root ends with. */
  function Footer(root: bool): bytes { Zeros(if root then 40 else 0) }

  ghost predicate NodeFits(blockSize: nat, root: bool, level: nat, keys: seq<Key>, values: seq<bytes>, width: nat) {
    && |keys| == |values| && (forall i :: 0 <= i < |values| ==> |values[i]| == width) && width >= 8
    && 56 + 20 * |keys| + width * |keys| + |Footer(root)| <= blockSize
    && 16 * |keys| < 0x1_0000 && width * |keys| < 0xffff && level < 0x1_0000
    && forall i :: 0 <= i < |keys| ==> keys[i].oid < 0x1_0000_0000_0000_0000 && keys[i].xid < 0x1_0000_0000_0000_0000
  }

  /** A node's block: header, table, keys, free space, values, and the footer of a root. */
  function NodeBlock(blockSize: nat, root: bool, level: nat, keys: seq<Key>, values: seq<bytes>): bytes {
    var front := Head(root, level, |keys|) + Concat(Slots(if values == [] then 8 else |values[0]|, |keys|))
                 + Concat(KeyArea(keys));
    var back := Concat(ValueArea(values)) + Footer(root);
    front + Zeros(if blockSize >= |front| + |back| then blockSize - |front| - |back| else 0) + back
  }

  /** The parts of a node's block, by place. */
  lemma NodeParts(blockSize: nat, root: bool, level: nat, keys: seq<Key>, values: seq<bytes>, width: nat)
    requires NodeFits(blockSize, root, level, keys, values, width)
    ensures var d, n := NodeBlock(blockSize, root, level, keys, values), |keys|;
            && |d| == blockSize && Holds(d, 0, Head(root, level, n))
            && (n > 0 ==> Holds(d, 56, Concat(Slots(width, n))))
            && Holds(d, 56 + 4 * n, Concat(KeyArea(keys)))
            && Holds(d, blockSize - |Footer(root)| - width * n, Concat(ValueArea(values)))
  {
    hide Head, Slots, KeyArea, ValueArea, Footer;
    var d, n := NodeBlock(blockSize, root, level, keys, values), |keys|;
    var w := if values == [] then 8 else |values[0]|;
    AreaSizes(keys, values, width, n);
    var head, toc := Head(root, level, n), Concat(Slots(w, n));
    var ks, vs := Concat(KeyArea(keys)), Concat(ValueArea(values));
    var gap := Zeros(blockSize - |head + toc + ks| - |vs + Footer(root)|);
    assert d == head + toc + ks + gap + (vs + Footer(root));
    SixParts(head, toc, ks, gap, vs, Footer(root));
  }

  lemma SixParts(a: bytes, b: bytes, c: bytes, g: bytes, v: bytes, f: bytes)
    ensures var d := a + b + c + g + (v + f);
            && Holds(d, 0, a) && Holds(d, |a|, b) && Holds(d, |a| + |b|, c)
            && Holds(d, |d| - |f| - |v|, v)
  {
    var d := a + b + c + g + (v + f);
    HoldsPart([], a, b + c + g + (v + f), d);
    HoldsPart(a, b, c + g + (v + f), d);
    HoldsPart(a + b, c, g + (v + f), d);
    HoldsPart(a + b + c + g, v, f, d);
  }

  lemma AreaSizes(keys: seq<Key>, values: seq<bytes>, width: nat, n: nat)
    requires n == |keys| == |values| && forall i :: 0 <= i < |values| ==> |values[i]| == width
    ensures |Concat(Slots(if values == [] then 8 else |values[0]|, n))| == 4 * n
    ensures |Concat(KeyArea(keys))| == 16 * n && |Concat(ValueArea(values))| == width * n
  {
    EqualSize(Slots(if values == [] then 8 else |values[0]|, n), 4);
    EqualSize(KeyArea(keys), 16);
    EqualSize(ValueArea(values), width);
  }

  lemma HeadFields(d: bytes, root: bool, level: nat, n: nat)
    requires Holds(d, 0, Head(root, level, n)) && level < 0x1_0000 && 4 * n < 0x1_0000
    ensures Level(d) == level && KeyCount(d) == n && TableLength(d) == 4 * n && (IsRoot(d) <==> root)
  {
    hide LE, ToLE;
    var flags := (if root then 1 else 0) + (if level == 0 then 2 else 0) + 4;
    var h := Head(root, level, n);
    FieldWidths();
    assert h[0x20..0x22] == ToLE(flags, 2) && h[0x22..0x24] == ToLE(level, 2) && h[0x24..0x28] == ToLE(n, 4);
    assert h[0x2a..0x2c] == ToLE(4 * n, 2);
    HoldsSlice(d, 0, h, 0x20, 0x22);
    HoldsSlice(d, 0, h, 0x22, 0x24);
    HoldsSlice(d, 0, h, 0x24, 0x28);
    HoldsSlice(d, 0, h, 0x2a, 0x2c);
    FieldHeld(d, 0x20, flags, 2);
    FieldHeld(d, 0x22, level, 2);
    FieldHeld(d, 0x24, n, 4);
    FieldHeld(d, 0x2a, 4 * n, 2);
  }

  lemma FieldReads(d: bytes, at: nat, a: bytes, v: nat, n: nat, c: bytes)
    requires Holds(d, at, a + ToLE(v, n) + c) && v < Pow256(n)
    ensures Field(d, at + |a|, n) == v
  {
    hide LE, ToLE;
    FieldIn(d, at, a, v, n, c);
  }

  /** Reading a written node gives its keys and its values. */
  lemma NodeReads(blockSize: nat, root: bool, level: nat, keys: seq<Key>, values: seq<bytes>, width: nat)
    requires NodeFits(blockSize, root, level, keys, values, width)
    ensures var d := NodeBlock(blockSize, root, level, keys, values);
            && |d| == blockSize && Level(d) == level && Lists(d, blockSize, keys)
            && forall i :: 0 <= i < |keys| ==>
                 ValueAt(d, blockSize, i) >= 0 && Holds(d, ValueAt(d, blockSize, i), values[i])
  {
    hide NodeBlock, Head, Slots, KeyArea, ValueArea, Level, KeyCount, TableLength, IsRoot, KeyAt, ValueOffset, ValueAt,
         Holds;
    var d, n := NodeBlock(blockSize, root, level, keys, values), |keys|;
    NodeParts(blockSize, root, level, keys, values, width);
    HeadFields(d, root, level, n);
    forall i | 0 <= i < n
      ensures KeyAt(d, i) == Some(keys[i]) && ValueOffset(d, i) != NO_VALUE
      ensures ValueAt(d, blockSize, i) >= 0 && ValueAt(d, blockSize, i) + 8 <= |d|
      ensures Holds(d, ValueAt(d, blockSize, i), values[i])
    {
      SlotReads(d, width, n, i);
      KeyReads(d, keys, i);
      ValueReads(d, blockSize, root, values, width, i);
    }
  }

  lemma SlotReads(d: bytes, width: nat, n: nat, i: nat)
    requires i < n && Holds(d, 56, Concat(Slots(width, n))) && 16 * n < 0x1_0000 && width * n < 0xffff
    ensures Field(d, 0x38 + 4 * i, 2) == 16 * i && Field(d, 0x38 + 4 * i + 2, 2) == width * (i + 1) < 0xffff
    ensures 0x38 + 4 * i + 4 <= |d|
  {
    hide Field;
    FieldWidths();
    MulLe(i + 1, n, width);
    EqualParts(Slots(width, n), 4, i);
    HoldsDeep(d, 56, Concat(Slots(width, n)), 4 * i, Slot(width, i));
    var a, b := ToLE(16 * i, 2), ToLE(width * (i + 1), 2);
    assert Slot(width, i) == [] + a + b == a + b + [];
    FieldReads(d, 56 + 4 * i, [], 16 * i, 2, b);
    FieldReads(d, 56 + 4 * i, a, width * (i + 1), 2, []);
  }

  lemma KeyReads(d: bytes, keys: seq<Key>, i: nat)
    requires i < |keys| && TableLength(d) == 4 * |keys| && Holds(d, 56 + 4 * |keys|, Concat(KeyArea(keys)))
    requires Field(d, 0x38 + 4 * i, 2) == 16 * i && 0x38 + 4 * i + 4 <= |d|
    requires keys[i].oid < 0x1_0000_0000_0000_0000 && keys[i].xid < 0x1_0000_0000_0000_0000
    ensures KeyAt(d, i) == Some(keys[i])
  {
    hide Field;
    FieldWidths();
    var k, at := keys[i], 56 + 4 * |keys| + 16 * i;
    EqualParts(KeyArea(keys), 16, i);
    HoldsDeep(d, 56 + 4 * |keys|, Concat(KeyArea(keys)), 16 * i, KeyBytes(k));
    var a, b := ToLE(k.oid, 8), ToLE(k.xid, 8);
    assert KeyBytes(k) == [] + a + b == a + b + [];
    FieldReads(d, at, [], k.oid, 8, b);
    FieldReads(d, at, a, k.xid, 8, []);
  }

  lemma ValueReads(d: bytes, blockSize: nat, root: bool, values: seq<bytes>, width: nat, i: nat)
    requires i < |values| && (forall j :: 0 <= j < |values| ==> |values[j]| == width) && width >= 8
    requires |d| == blockSize >= |Footer(root)| + width * |values| && (IsRoot(d) <==> root)
    requires Field(d, 0x38 + 4 * i + 2, 2) == width * (i + 1) < 0xffff
    requires Holds(d, blockSize - |Footer(root)| - width * |values|, Concat(ValueArea(values)))
    ensures ValueOffset(d, i) != NO_VALUE
    ensures ValueAt(d, blockSize, i) >= 0 && ValueAt(d, blockSize, i) + 8 <= |d|
    ensures Holds(d, ValueAt(d, blockSize, i), values[i])
  {
    hide Field, IsRoot, Footer, ValueArea, ValueAt;
    var n := |values|;
    MulAdd(n - 1 - i, i + 1, width);
    MulLe(0, n - 1 - i, width);
    MulLe(1, i + 1, width);
    ValueFromEnd(values, i);
    EqualParts(ValueArea(values), width, n - 1 - i);
    ValuePlace(d, blockSize, root, i, width * (i + 1));
    HoldsDeep(d, blockSize - |Footer(root)| - width * n, Concat(ValueArea(values)), width * (n - 1 - i), values[i]);
  }

  lemma ValueFromEnd(values: seq<bytes>, i: nat)
    requires i < |values|
    ensures |ValueArea(values)| == |values| && ValueArea(values)[|values| - 1 - i] == values[i]
    ensures forall j :: 0 <= j < |values| ==> ValueArea(values)[j] in values
  {
  }

  lemma ValuePlace(d: bytes, blockSize: nat, root: bool, i: nat, offset: nat)
    requires Field(d, 0x38 + 4 * i + 2, 2) == offset < 0xffff && (IsRoot(d) <==> root)
    ensures ValueOffset(d, i) == offset != NO_VALUE
    ensures ValueAt(d, blockSize, i) == blockSize - |Footer(root)| - offset
  {
    hide Field, IsRoot;
  }

  // ------------------------------------------------------------ leaves and inner nodes

  /** An object's record: flags, size and the block it is stored at. */
  function LeafValue(flags: nat, size: nat, paddr: nat): (b: bytes)
    ensures |b| == 16
  {
    ToLE(flags, 4) + ToLE(size, 4) + ToLE(paddr, 8)
  }

  function LeafValues(es: seq<Entry>): seq<bytes> {
    seq(|es|, i requires 0 <= i < |es| => LeafValue(0, 4096, es[i].paddr))
  }

  function KidValues(kids: seq<Kid>): seq<bytes> { seq(|kids|, i requires 0 <= i < |kids| => ToLE(kids[i].addr, 8)) }

  function LeafBlock(blockSize: nat, root: bool, es: seq<Entry>): bytes {
    NodeBlock(blockSize, root, 0, EntryKeys(es), LeafValues(es))
  }

  function InnerBlock(blockSize: nat, root: bool, level: nat, kids: seq<Kid>): bytes {
    NodeBlock(blockSize, root, level, KidKeys(kids), KidValues(kids))
  }

  /** The tree is written on the disk, its top node at addr; only the top one is a root. */
  ghost predicate Written(disk: Disk, blockSize: nat, addr: nat, t: Tree, root: bool)
    decreases t
  {
    match t
    case Leaf(es) =>
      && disk(addr) == Some(LeafBlock(blockSize, root, es))
      && NodeFits(blockSize, root, 0, EntryKeys(es), LeafValues(es), 16)
      && forall i :: 0 <= i < |es| ==> es[i].paddr < 0x1_0000_0000_0000_0000
    case Inner(kids) =>
      && var level := Height(t) - 1;
      && disk(addr) == Some(InnerBlock(blockSize, root, level, kids)) && level > 0
      && NodeFits(blockSize, root, level, KidKeys(kids), KidValues(kids), 8)
      && forall i :: 0 <= i < |kids| ==>
           && 0 < kids[i].addr < 0x1_0000_0000_0000_0000
           && Written(disk, blockSize, kids[i].addr, kids[i].tree, false)
  }

  /** A written tree is one the descent can be used on. */
  lemma {:induction false} WrittenIsStored(disk: Disk, blockSize: nat, addr: nat, t: Tree, root: bool)
    requires Written(disk, blockSize, addr, t, root)
    ensures Stored(disk, blockSize, addr, t)
    decreases t
  {
    hide NodeBlock, NodeFits, Level, Lists, ValueAt, Field, Height, LeafValue, ToLE;
    var d := disk(addr).value;
    FieldWidths();
    match t {
      case Leaf(es) =>
        NodeReads(blockSize, root, 0, EntryKeys(es), LeafValues(es), 16);
        forall i | 0 <= i < |es| ensures Field(d, ValueAt(d, blockSize, i) + 8, 8) == es[i].paddr {
          assert Holds(d, ValueAt(d, blockSize, i), LeafValues(es)[i]);
          LeafValueParts(es[i].paddr);
          FieldReads(d, ValueAt(d, blockSize, i), ToLE(0, 4) + ToLE(4096, 4), es[i].paddr, 8, []);
        }
      case Inner(kids) =>
        NodeReads(blockSize, root, Height(t) - 1, KidKeys(kids), KidValues(kids), 8);
        forall i | 0 <= i < |kids|
          ensures Field(d, ValueAt(d, blockSize, i), 8) == kids[i].addr
          ensures Stored(disk, blockSize, kids[i].addr, kids[i].tree)
        {
          assert Holds(d, ValueAt(d, blockSize, i), KidValues(kids)[i]);
          assert ToLE(kids[i].addr, 8) == [] + ToLE(kids[i].addr, 8) + [];
          FieldReads(d, ValueAt(d, blockSize, i), [], kids[i].addr, 8, []);
          WrittenIsStored(disk, blockSize, kids[i].addr, kids[i].tree, false);
        }
    }
  }

  lemma LeafValueParts(paddr: nat)
    ensures LeafValue(0, 4096, paddr) == ToLE(0, 4) + ToLE(4096, 4) + ToLE(paddr, 8) + []
  {
  }

  /**
   * The descent from a written root gives the address a scan of the entries gives for every object that has a
   * version up to maxXid.
   */
  lemma WrittenLookup(disk: Disk, blockSize: nat, addr: nat, t: Tree, oid: nat, maxXid: nat)
    requires Written(disk, blockSize, addr, t, true) && Ordered(t) && Height(t) <= MAX_TREE_DEPTH
    ensures Latest(Flatten(t), oid, maxXid).Some? ==>
              Resolve(disk, blockSize, addr, Key(oid, maxXid), MAX_TREE_DEPTH) ==
              Some(Latest(Flatten(t), oid, maxXid).value.paddr)
  {
    hide Written, Stored, Resolve, Predecessor, Latest, Ordered, Height;
    WrittenIsStored(disk, blockSize, addr, t, true);
    LookupIsScan(disk, blockSize, addr, t, oid, maxXid);
  }
}

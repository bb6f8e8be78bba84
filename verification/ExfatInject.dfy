/**
 * The exFAT injector (cmd/exfat-inject/main.go): a small allocator that adds one file to an image and
 * must leave every other file as it was.
 */
module ExfatInject {
  import opened Bytes
  import opened Streaming
  import opened ClusterChain
  import opened Exfat

  const CONTENT: bytes := [102, 105, 120, 116, 117, 114, 101, 10]                       // "fixture\n"
  const NAME: seq<nat> := [102, 105, 120, 116, 117, 114, 101, 46, 116, 120, 116]        // "fixture.txt"
  const UPPER: seq<nat> := [70, 73, 88, 84, 85, 82, 69, 46, 84, 88, 84]                 // "FIXTURE.TXT"
  const SET_ENTRIES: nat := 3

  // ------------------------------------------------------------ the entry set

  /** A 16-bit accumulator rotated right by one. */
  function Rotated(sum: nat): nat { sum % 2 * 0x8000 + sum / 2 }

  function Fold(sum: nat, b: nat): (r: nat)
    ensures r < 0x1_0000
  {
    (Rotated(sum) + b) % 0x1_0000
  }

  function NameHash(units: seq<nat>, hash: nat): (r: nat)
    requires hash < 0x1_0000
    ensures r < 0x1_0000
  {
    if units == [] then hash else NameHash(units[1..], Fold(Fold(hash, units[0] % 256), units[0] / 256 % 256))
  }

  /** The set checksum: every byte but the checksum field itself. */
  function SetChecksum(entries: bytes, i: nat, sum: nat): (r: nat)
    requires sum < 0x1_0000
    ensures r < 0x1_0000
    decreases |entries| - i
  {
    if i >= |entries| then sum else SetChecksum(entries, i + 1, if i == 2 || i == 3 then sum else Fold(sum, entries[i]))
  }

  function NameBytes(units: seq<nat>): (b: bytes)
    ensures |b| == 2 * |units|
  {
    if units == [] then [] else ToLE(units[0], 2) + NameBytes(units[1..])
  }

  function StreamEntry(alloc: nat): (e: bytes)
    ensures |e| == ENTRY
  {
    [0xC0, 1, 0, 11] + ToLE(NameHash(UPPER, 0), 2) + Zeros(2) + ToLE(8, 8) + Zeros(4) + ToLE(alloc, 4) + ToLE(8, 8)
  }

  function NameEntry(): (e: bytes)
    ensures |e| == ENTRY
  {
    [0xC1, 0] + NameBytes(NAME) + Zeros(8)
  }

  /** The three entries, with the checksum of the whole set in the first. */
  function EntrySet(alloc: nat): (s: bytes)
    ensures |s| == SET_ENTRIES * ENTRY
  {
    var tail := [0x20] + Zeros(27) + StreamEntry(alloc) + NameEntry();
    var blank: bytes := [0x85, 2, 0, 0] + tail;
    [0x85, 2] + ToLE(SetChecksum(blank, 0, 0), 2) + tail
  }

  // ------------------------------------------------------------ what the injector decides

  /** Where the set goes, the bitmap's first cluster (0 if none was seen), and the cluster allocated. */
  datatype Plan = Plan(insertAt: nat, bitmap: nat, alloc: nat)

  /** The first end marker of the root directory from entry i on, and the last bitmap entry before it. */
  function ScanRoot(data: bytes, i: nat, bitmap: nat): (Option<nat>, nat)
    decreases Entries(data) - i
  {
    if i >= Entries(data) then (None, bitmap)
    else
      var e := EntryAt(data, i);
      if e[0] == 0 then (Some(i), bitmap)
      else ScanRoot(data, i + 1, if e[0] == 0x81 then LE(e[20..24]) else bitmap)
  }

  /** The first free cluster from c on; None when there is none or the FAT leaves the image. */
  function FirstFree(g: Geometry, img: bytes, c: nat): (r: Option<nat>)
    ensures r.Some? ==> c <= r.value <= g.count + 1 && g.FatAt(r.value) + 4 <= |img|
    ensures r.Some? ==> LE(img[g.FatAt(r.value)..g.FatAt(r.value) + 4]) == 0
    decreases g.count + 2 - c
  {
    if c > g.count + 1 || g.FatAt(c) + 4 > |img| then None
    else if LE(img[g.FatAt(c)..g.FatAt(c) + 4]) == 0 then Some(c)
    else FirstFree(g, img, c + 1)
  }

  /** Every cluster in front of the first free one is in use. */
  lemma {:induction false} FirstFreeIsFirst(g: Geometry, img: bytes, c: nat, x: nat)
    requires FirstFree(g, img, c).Some? && c <= x < FirstFree(g, img, c).value
    ensures g.FatAt(x) + 4 <= |img| && LE(img[g.FatAt(x)..g.FatAt(x) + 4]) != 0
    decreases x - c
  {
    hide LE;
    if c < x { FirstFreeIsFirst(g, img, c + 1, x); }
  }

  /** The injector's checks, in order; None is any error, before anything is written. */
  function PlanFor(g: Geometry, img: bytes): (r: Option<Plan>)
    ensures r.Some? ==> g.root >= 2 && r.value.alloc >= 2
    ensures r.Some? ==>
              && g.DataAt(g.root) + g.ClusterSize() <= |img|
              && g.DataAt(r.value.alloc) + g.ClusterSize() <= |img|
    ensures r.Some? ==>
              && ENTRY * (r.value.insertAt + SET_ENTRIES) <= g.ClusterSize()
              && g.FatAt(r.value.alloc) + 4 <= |img|
  {
    if g.root < 2 || g.DataAt(g.root) + g.ClusterSize() > |img| then None
    else
      var scan := ScanRoot(img[g.DataAt(g.root)..g.DataAt(g.root) + g.ClusterSize()], 0, 0);
      if scan.0.None? || ENTRY * (scan.0.value + SET_ENTRIES) > g.ClusterSize() then None
      else
        match FirstFree(g, img, 2)
        case None => None
        case Some(c) => if g.DataAt(c) + g.ClusterSize() > |img| then None else Some(Plan(scan.0.value, scan.1, c))
  }

  // ------------------------------------------------------------ what it writes

  /** The value of bit k. */
  function BitValue(k: nat): (p: nat)
    ensures p > 0
  {
    if k == 0 then 1 else 2 * BitValue(k - 1)
  }

  predicate Bit(b: nat, k: nat) { b / BitValue(k) % 2 == 1 }

  lemma {:induction false} HigherBit(j: nat, k: nat) returns (m: nat)
    requires j < k
    ensures BitValue(k) == BitValue(j) * m && m % 2 == 0 && m > 0
  {
    hide BitValue;
    NextBit(k - 1);
    if j + 1 == k { m := 2; } else {
      var h := HigherBit(j, k - 1);
      m := 2 * h;
      Twice(BitValue(j), h);
    }
  }

  lemma NextBit(k: nat)
    ensures BitValue(k + 1) == 2 * BitValue(k)
  {
  }

  lemma Twice(x: nat, h: nat)
    ensures x * (2 * h) == 2 * (x * h)
  {
  }

  /** A clear bit of value v can be added without a carry into w, which is m times v. */
  lemma NoCarry(b: nat, v: nat, w: nat, m: nat)
    requires v > 0 && w == v * m && m > 0 && m % 2 == 0 && b / v % 2 == 0
    ensures (b + v) / w == b / w
  {
    var q, r := b / w, b % w;
    NoCarryParts(b, v, w, m, q, r, r / v, r % v);
  }

  lemma NoCarryParts(b: nat, v: nat, w: nat, m: nat, q: nat, r: nat, h: nat, s: nat)
    requires v > 0 && w == v * m && m % 2 == 0 && b / v % 2 == 0
    requires b == q * w + r && r < w && r == h * v + s && s < v
    ensures (b + v) / w == q
  {
    var t := q * m;
    TwoDigits(b, v, m, q, h, s, t);
    EvenTimes(q, m);
    assert h % 2 == 0;
    StaysBelow(v, m, h, s);
    DivModUnique(b + v, w, q, r + v);
  }

  lemma TwoDigits(b: nat, v: nat, m: nat, q: nat, h: nat, s: nat, t: nat)
    requires v > 0 && b == q * (v * m) + (h * v + s) && s < v && t == q * m
    ensures b / v == t + h
  {
    assert q * (v * m) == t * v by { MulAssoc(q, m, v); }
    MulAdd(t, h, v);
    DivModUnique(b, v, t + h, s);
  }

  lemma EvenTimes(q: nat, m: nat)
    requires m % 2 == 0
    ensures q * m % 2 == 0
  {
    MulAssoc(q, m / 2, 2);
  }

  lemma StaysBelow(v: nat, m: nat, h: nat, s: nat)
    requires m % 2 == 0 && h % 2 == 0 && h * v + s < v * m && s < v
    ensures h * v + s + v < v * m
  {
    if h >= m { MulLe(m, h, v); }
    MulLe(h + 2, m, v);
    MulAdd(h, 2, v);
  }

  /** b with bit k set. */
  function SetBit(b: byte, k: nat): byte
    requires k < 8
  {
    ClearBitFits(b, k);
    if Bit(b, k) then b else b + BitValue(k)
  }

  lemma ClearBitFits(b: byte, k: nat)
    requires k < 8
    ensures !Bit(b, k) ==> b + BitValue(k) < 256
  {
    if !Bit(b, k) {
      var m := HigherBit(k, 8);
      assert BitValue(8) == 256;
      NoCarry(b, BitValue(k), 256, m);
    }
  }

  /** Setting a bit sets that bit and no other. */
  lemma SetBitSets(b: byte, k: nat, j: nat)
    requires k < 8
    ensures Bit(SetBit(b, k), j) <==> j == k || Bit(b, j)
  {
    hide BitValue;
    if !Bit(b, k) {
      if j == k {
        DivModUnique(b + BitValue(k), BitValue(k), b / BitValue(k) + 1, b % BitValue(k));
      } else if j < k {
        var m := HigherBit(j, k);
        AddHigher(b, BitValue(j), m);
      } else {
        var m := HigherBit(k, j);
        NoCarry(b, BitValue(k), BitValue(j), m);
      }
    }
  }

  lemma AddHigher(b: nat, w: nat, m: nat)
    requires w > 0 && m % 2 == 0
    ensures (b + w * m) / w % 2 == b / w % 2
  {
    MulAdd(b / w, m, w);
    DivModUnique(b + w * m, w, b / w + m, b % w);
  }

  /** Where the bitmap byte of the allocated cluster lies, if there is a bitmap and the byte is in the image. */
  function BitmapByte(g: Geometry, img: bytes, p: Plan): Option<nat>
    requires p.alloc >= 2
  {
    if p.bitmap < 2 || g.DataAt(p.bitmap) + (p.alloc - 2) / 8 >= |img| then None
    else Some(g.DataAt(p.bitmap) + (p.alloc - 2) / 8)
  }

  ghost predicate PlanFits(g: Geometry, img: bytes, p: Plan) {
    && g.root >= 2 && p.alloc >= 2
    && g.DataAt(g.root) + g.ClusterSize() <= |img| && g.DataAt(p.alloc) + g.ClusterSize() <= |img|
    && ENTRY * (p.insertAt + SET_ENTRIES) <= g.ClusterSize() && g.FatAt(p.alloc) + 4 <= |img|
  }

  function WithData(g: Geometry, img: bytes, p: Plan): (r: bytes)
    requires PlanFits(g, img, p)
    ensures |r| == |img|
  {
    Patch(img, g.DataAt(p.alloc), CONTENT + Zeros(g.ClusterSize() - |CONTENT|))
  }

  function WithFat(g: Geometry, img: bytes, p: Plan): (r: bytes)
    requires PlanFits(g, img, p)
    ensures |r| == |img|
  {
    Patch(WithData(g, img, p), g.FatAt(p.alloc), [255, 255, 255, 255])
  }

  function WithBitmap(g: Geometry, img: bytes, p: Plan): (r: bytes)
    requires PlanFits(g, img, p)
    ensures |r| == |img|
  {
    var i2 := WithFat(g, img, p);
    match BitmapByte(g, img, p)
    case None => i2
    case Some(at) => Patch(i2, at, [SetBit(i2[at], (p.alloc - 2) % 8)])
  }

  /** The image after a successful run. */
  function Injected(g: Geometry, img: bytes, p: Plan): (r: bytes)
    requires PlanFits(g, img, p)
    ensures |r| == |img|
  {
    Patch(WithBitmap(g, img, p), g.DataAt(g.root) + ENTRY * p.insertAt, EntrySet(p.alloc))
  }

  method FindEnd(data: bytes) returns (insertAt: int, bitmap: nat)
    ensures (if insertAt < 0 then None else Some(insertAt as nat), bitmap) == ScanRoot(data, 0, 0)
  {
    insertAt, bitmap := -1, 0;
    var i := 0;
    while i < Entries(data)
      invariant i <= Entries(data) && insertAt == -1 && ScanRoot(data, 0, 0) == ScanRoot(data, i, bitmap)
    {
      var e := EntryAt(data, i);
      if e[0] == 0 { return i, bitmap; }
      if e[0] == 0x81 { bitmap := LE(e[20..24]); }
      i := i + 1;
    }
  }

  /** run's checks: scans the root and the FAT. */
  method Decide(g: Geometry, img: array<byte>) returns (r: Option<Plan>)
    ensures r == PlanFor(g, img[..])
  {
    hide ScanRoot, FirstFree;
    if g.root < 2 { return None; }
    var rootOff := g.DataAt(g.root);
    if rootOff + g.ClusterSize() > img.Length { return None; }
    assert img[rootOff..rootOff + g.ClusterSize()] == img[..][rootOff..rootOff + g.ClusterSize()];
    var insertAt, bitmap := FindEnd(img[rootOff..rootOff + g.ClusterSize()]);
    if insertAt < 0 || ENTRY * (insertAt + SET_ENTRIES) > g.ClusterSize() { return None; }
    var alloc := Allocate(g, img);
    if alloc == 0 || g.DataAt(alloc) + g.ClusterSize() > img.Length { return None; }
    return Some(Plan(insertAt, bitmap, alloc));
  }

  lemma PlanIsFit(g: Geometry, img: bytes, p: Plan)
    requires PlanFor(g, img) == Some(p)
    ensures PlanFits(g, img, p)
  {
  }

  /** run: decides, then writes data, FAT, bitmap and directory into the image; nothing on an error. */
  method Run(g: Geometry, img: array<byte>) returns (ok: bool)
    modifies img
    ensures match PlanFor(g, old(img[..]))
            case None => !ok && img[..] == old(img[..])
            case Some(p) => ok && PlanFits(g, old(img[..]), p) && img[..] == Injected(g, old(img[..]), p)
  {
    hide PlanFor, PlanFits, Injected;
    var plan := Decide(g, img);
    if plan.None? { return false; }
    PlanIsFit(g, img[..], plan.value);
    Write(g, img, plan.value);
    ok := true;
  }

  method Write(g: Geometry, img: array<byte>, p: Plan)
    requires PlanFits(g, img[..], p)
    modifies img
    ensures img[..] == Injected(g, old(img[..]), p)
  {
    hide EntrySet, SetBit, Patch, WithFat, BitmapByte;
    ghost var was := img[..];
    WriteCluster(g, img, p);
    BitmapByteStays(g, was, img[..], p);
    MarkAllocated(g, img, p);
    CopyInto(img, g.DataAt(g.root) + ENTRY * p.insertAt, EntrySet(p.alloc));
  }

  method WriteCluster(g: Geometry, img: array<byte>, p: Plan)
    requires PlanFits(g, img[..], p)
    modifies img
    ensures img[..] == WithFat(g, old(img[..]), p)
  {
    hide Patch;
    CopyInto(img, g.DataAt(p.alloc), CONTENT + Zeros(g.ClusterSize() - |CONTENT|));
    CopyInto(img, g.FatAt(p.alloc), [255, 255, 255, 255]);
  }

  lemma BitmapByteStays(g: Geometry, a: bytes, b: bytes, p: Plan)
    requires p.alloc >= 2 && |a| == |b|
    ensures BitmapByte(g, a, p) == BitmapByte(g, b, p)
    ensures BitmapByte(g, a, p).Some? ==> BitmapByte(g, a, p).value < |a|
  {
  }

  /** The first free heap cluster, or 0. */
  method Allocate(g: Geometry, img: array<byte>) returns (alloc: nat)
    ensures (if alloc == 0 then None else Some(alloc)) == FirstFree(g, img[..], 2)
  {
    var c := 2;
    while c <= g.count + 1
      invariant 2 <= c && FirstFree(g, img[..], 2) == FirstFree(g, img[..], c)
      decreases g.count + 2 - c
    {
      var off := g.FatAt(c);
      if off + 4 > img.Length { return 0; }
      assert img[off..off + 4] == img[..][off..off + 4];
      if LE(img[off..off + 4]) == 0 { return c; }
      c := c + 1;
    }
    return 0;
  }

  method MarkAllocated(g: Geometry, img: array<byte>, p: Plan)
    requires p.alloc >= 2
    modifies img
    ensures img[..] == match BitmapByte(g, old(img[..]), p)
                       case None => old(img[..])
                       case Some(at) => Patch(old(img[..]), at, [SetBit(old(img[..])[at], (p.alloc - 2) % 8)])
  {
    hide SetBit;
    if p.bitmap >= 2 {
      var byteOff := g.DataAt(p.bitmap) + (p.alloc - 2) / 8;
      if byteOff < img.Length {
        CopyInto(img, byteOff, [SetBit(img[byteOff], (p.alloc - 2) % 8)]);
      }
    }
  }
}

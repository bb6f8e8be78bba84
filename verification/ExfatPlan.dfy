/**
 * The injector byte for byte (cmd/exfat-inject/main.go): what it decides for, what is in which byte of the set it
 * writes, and what the set's two sums notice.
 */
module ExfatPlan {
  import opened Bytes
  import opened Exfat
  import opened ExfatInject
  import opened ExfatWritten

  // ------------------------------------------------------------ the sums

  /** Each bit of the accumulator moves down by one, and the lowest one to the top. */
  lemma RotatesBits(sum: nat, k: nat)
    requires sum < 0x1_0000 && k < 16
    ensures Bit(Rotated(sum), k) <==> Bit(sum, if k == 15 then 0 else k + 1)
  {
    hide BitValue;
    FirstBits();
    if k < 15 {
      var m := HigherBit(k, 15);
      MulAssoc(BitValue(k), m, sum % 2);
      AddHigher(sum / 2, BitValue(k), m * (sum % 2)) by { EvenTimes(sum % 2, m); }
      NextBit(k);
      HalvedTwice(sum, BitValue(k));
    }
  }

  lemma FirstBits()
    ensures BitValue(0) == 1 && BitValue(15) == 0x8000
  {
    assert BitValue(15) == 32 * BitValue(10);
  }

  lemma HalvedTwice(x: nat, v: nat)
    requires v > 0
    ensures x / 2 / v == x / (2 * v)
  {
    var q, r := x / 2 / v, x / 2 % v;
    MulAssoc(q, 2, v);
    DivModUnique(x, 2 * v, q, 2 * r + x % 2);
  }

  /** Neither the sum so far nor the byte can change without changing the new sum. */
  lemma FoldsApart(s: nat, t: nat, b: nat, c: nat)
    requires s < 0x1_0000 && t < 0x1_0000 && b < 256 && c < 256
    requires s == t || b == c
    ensures Fold(s, b) == Fold(t, c) <==> s == t && b == c
  {
    if Rotated(s) == Rotated(t) { assert s / 2 == t / 2 && s % 2 == t % 2; }
  }

  lemma {:induction false} SumsApart(a: bytes, b: bytes, i: nat, s: nat, t: nat)
    requires |a| == |b| && s < 0x1_0000 && t < 0x1_0000 && s != t
    requires forall j :: i <= j < |a| ==> a[j] == b[j]
    ensures SetChecksum(a, i, s) != SetChecksum(b, i, t)
    decreases |a| - i
  {
    hide Fold;
    if i < |a| {
      FoldsApart(s, t, a[i], b[i]);
      var own := i == 2 || i == 3;
      SumsApart(a, b, i + 1, if own then s else Fold(s, a[i]), if own then t else Fold(t, b[i]));
    }
  }

  lemma {:induction false} SumsFrom(a: bytes, b: bytes, k: nat, i: nat, s: nat)
    requires |a| == |b| && k < |a| && a[k] != b[k] && forall j :: 0 <= j < |a| && j != k ==> a[j] == b[j]
    requires s < 0x1_0000 && i <= k
    ensures SetChecksum(a, i, s) == SetChecksum(b, i, s) <==> k == 2 || k == 3
    decreases |a| - i
  {
    hide Fold;
    FoldsApart(s, s, a[i], b[i]);
    if i < k {
      SumsFrom(a, b, k, i + 1, if i == 2 || i == 3 then s else Fold(s, a[i]));
    } else if k == 2 || k == 3 {
      SameSums(a, b, k + 1, s);
    } else {
      SumsApart(a, b, k + 1, Fold(s, a[k]), Fold(s, b[k]));
    }
  }

  lemma {:induction false} SameSums(a: bytes, b: bytes, i: nat, s: nat)
    requires |a| == |b| && s < 0x1_0000 && forall j :: i <= j < |a| && j != 2 && j != 3 ==> a[j] == b[j]
    ensures SetChecksum(a, i, s) == SetChecksum(b, i, s)
    decreases |a| - i
  {
    hide Fold;
    if i < |a| { SameSums(a, b, i + 1, if i == 2 || i == 3 then s else Fold(s, a[i])); }
  }

  /** A single changed byte changes the checksum, unless it is one of the checksum's own two bytes. */
  lemma ChecksumNotices(a: bytes, b: bytes, k: nat)
    requires |a| == |b| && k < |a| && a[k] != b[k] && forall j :: 0 <= j < |a| && j != k ==> a[j] == b[j]
    ensures SetChecksum(a, 0, 0) == SetChecksum(b, 0, 0) <==> k == 2 || k == 3
  {
    SumsFrom(a, b, k, 0, 0);
  }

  lemma {:induction false} HashesApart(xs: seq<nat>, s: nat, t: nat)
    requires s < 0x1_0000 && t < 0x1_0000 && s != t
    ensures NameHash(xs, s) != NameHash(xs, t)
  {
    hide Fold;
    if xs != [] {
      var lo, hi := xs[0] % 256, xs[0] / 256 % 256;
      FoldsApart(s, t, lo, lo);
      FoldsApart(Fold(s, lo), Fold(t, lo), hi, hi);
      HashesApart(xs[1..], Fold(Fold(s, lo), hi), Fold(Fold(t, lo), hi));
    }
  }

  /** Changing one byte of a unit changes the hash of the name. */
  lemma {:induction false} HashNotices(front: seq<nat>, x: nat, y: nat, back: seq<nat>, s: nat)
    requires s < 0x1_0000 && x < 0x1_0000 && y < 0x1_0000 && x != y && (x % 256 == y % 256 || x / 256 == y / 256)
    ensures NameHash(front + [x] + back, s) != NameHash(front + [y] + back, s)
    decreases |front|
  {
    hide Fold;
    if front == [] {
      var p, q := Fold(s, x % 256), Fold(s, y % 256);
      FoldsApart(s, s, x % 256, y % 256);
      FoldsApart(p, q, x / 256, y / 256);
      assert ([] + [x] + back)[1..] == back && ([] + [y] + back)[1..] == back;
      HashesApart(back, Fold(p, x / 256), Fold(q, y / 256));
    } else {
      assert (front + [x] + back)[1..] == front[1..] + [x] + back;
      assert (front + [y] + back)[1..] == front[1..] + [y] + back;
      HashNotices(front[1..], x, y, back, Fold(Fold(s, front[0] % 256), front[0] / 256 % 256));
    }
  }

  /** The accumulator after each unit of FIXTURE.TXT. */
  const STATES: seq<nat> := [0, 0x23, 0x402D, 0x5037, 0xD437, 0x7538, 0x1D77, 0x4780, 0x11F7, 0xC4A7, 0xF155, 0x7C7F]

  lemma RotatedIs(half: nat, low: nat)
    requires low < 2
    ensures Rotated(2 * half + low) == low * 0x8000 + half
  {
    DivModUnique(2 * half + low, 2, half, low);
  }

  /** A unit's low byte is added to the rotated sum, half and low bit apart; its high byte of zero rotates once more. */
  lemma UnitFolds(half: nat, low: nat, unit: nat, half': nat, low': nat)
    requires low < 2 && low' < 2 && low * 0x8000 + half + unit == 2 * half' + low' < 0x1_0000
    ensures Fold(Fold(2 * half + low, unit), 0) == low' * 0x8000 + half'
  {
    hide Rotated;
    RotatedIs(half, low);
    RotatedIs(half', low');
  }

  lemma StateStep(i: nat)
    requires i < 11
    ensures UPPER[i] < 256 && STATES[i] < 0x1_0000 && Fold(Fold(STATES[i], UPPER[i]), 0) == STATES[i + 1]
  {
    hide Fold;
    match i {
      case 0 => UnitFolds(0, 0, 70, 0x23, 0);
      case 1 => UnitFolds(0x11, 1, 73, 0x402D, 0);
      case 2 => UnitFolds(0x2016, 1, 88, 0x5037, 0);
      case 3 => UnitFolds(0x281B, 1, 84, 0x5437, 1);
      case 4 => UnitFolds(0x6A1B, 1, 85, 0x7538, 0);
      case 5 => UnitFolds(0x3A9C, 0, 82, 0x1D77, 0);
      case 6 => UnitFolds(0xEBB, 1, 69, 0x4780, 0);
      case 7 => UnitFolds(0x23C0, 0, 46, 0x11F7, 0);
      case 8 => UnitFolds(0x8FB, 1, 84, 0x44A7, 1);
      case 9 => UnitFolds(0x6253, 1, 88, 0x7155, 1);
      case 10 => UnitFolds(0x78AA, 1, 84, 0x7C7F, 0);
    }
  }

  lemma HashOfNothing(s: nat)
    requires s < 0x1_0000
    ensures NameHash(UPPER[11..], s) == s
  {
    assert UPPER[11..] == [];
  }

  lemma HashOne(units: seq<nat>, i: nat, s: nat)
    requires i < |units| && s < 0x1_0000 && units[i] < 256
    ensures NameHash(units[i..], s) == NameHash(units[i + 1..], Fold(Fold(s, units[i]), 0))
  {
    hide Fold;
    assert units[i..][1..] == units[i + 1..];
  }

  lemma {:induction false} HashFrom(i: nat)
    requires i <= 11
    ensures STATES[i] < 0x1_0000 && NameHash(UPPER[i..], STATES[i]) == 0x7C7F
    decreases 11 - i
  {
    hide Fold, NameHash;
    if i < 11 {
      StateStep(i);
      HashOne(UPPER, i, STATES[i]);
      HashFrom(i + 1);
    } else {
      HashOfNothing(0x7C7F);
    }
  }

  /** The hash of FIXTURE.TXT. */
  lemma HashIs()
    ensures NameHash(UPPER, 0) == 0x7C7F
  {
    hide NameHash;
    assert UPPER[0..] == UPPER;
    HashFrom(0);
  }

  // ------------------------------------------------------------ the set

  /** The file the injector adds, with every field of its entries. */
  function Added(alloc: nat): File {
    File(NAME, 11, 0x20, |CONTENT|, alloc, 1, SetChecksum(EntrySet(alloc), 0, 0), 0x7C7F, |CONTENT|)
  }

  lemma AddedFits(alloc: nat)
    requires alloc < 0x1_0000_0000
    ensures Added(alloc).Fits() && |Added(alloc).name| == 11
  {
    hide SetChecksum, EntrySet;
  }

  lemma NameEntryIs()
    ensures NameParts(NAME) == [NamePart(NAME)] == [NameEntry()]
  {
    hide ToLE;
    UnitsAre(NAME);
  }

  lemma {:induction false} UnitsAre(name: seq<nat>)
    ensures NameBytes(name) == Concat(Units(name))
  {
    hide ToLE;
    if name != [] {
      assert Units(name)[1..] == Units(name[1..]);
      UnitsAre(name[1..]);
    }
  }

  lemma StreamIs(alloc: nat)
    ensures StreamEntry(alloc) == StreamPart(Added(alloc))
  {
    hide ToLE, SetChecksum, NameHash, EntrySet;
    HashIs();
  }

  /** The checksum stored in the first entry is the one of the set as it lies on disk. */
  lemma ChecksumIsOwn(alloc: nat)
    ensures EntrySet(alloc)[2..4] == ToLE(SetChecksum(EntrySet(alloc), 0, 0), 2)
  {
    hide ToLE, SetChecksum, StreamEntry, NameEntry;
    var tail := [0x20] + Zeros(27) + StreamEntry(alloc) + NameEntry();
    SameSums([0x85, 2, 0, 0] + tail, EntrySet(alloc), 0, 0);
  }

  /**
   * The injector writes the entries of fixture.txt field by field: archive attribute, 11 units, the hash of the
   * upper-case name, both lengths 8, the allocated cluster, and the set's own checksum.
   */
  lemma SetIsWritten(alloc: nat)
    requires alloc < 0x1_0000_0000
    ensures Added(alloc).Fits() && EntrySet(alloc) == Concat(FileSet(Added(alloc)))
  {
    hide ToLE, SetChecksum, StreamEntry, NameEntry, StreamPart, NamePart;
    AddedFits(alloc);
    NameEntryIs();
    StreamIs(alloc);
    PrimaryIs(alloc);
    var f := Added(alloc);
    assert FileSet(f) == [PrimaryPart(f, 2), StreamEntry(alloc), NameEntry()];
    ThreeJoined(PrimaryPart(f, 2), StreamEntry(alloc), NameEntry());
  }

  lemma PrimaryIs(alloc: nat)
    ensures EntrySet(alloc) == PrimaryPart(Added(alloc), 2) + StreamEntry(alloc) + NameEntry()
  {
    hide SetChecksum, StreamEntry, NameEntry, NameHash, ToLE;
    ChecksumIsOwn(alloc);
    AttributeBytes();
    var s, sum := EntrySet(alloc), ToLE(SetChecksum(EntrySet(alloc), 0, 0), 2);
    assert s == s[..2] + s[2..4] + s[4..];
    assert s[4..] == [0x20] + Zeros(27) + StreamEntry(alloc) + NameEntry();
    AppendAssoc([0x85, 2] + sum, ToLE(0x20, 2), Zeros(26));
    AppendAssoc([0x85, 2] + sum, [0x20], Zeros(27));
  }

  lemma AttributeBytes()
    ensures ToLE(0x20, 2) + Zeros(26) == [0x20] + Zeros(27)
  {
    assert ToLE(0x20, 2) == [0x20] + ToLE(0, 1) && ToLE(0, 1) == [0] + ToLE(0, 0);
  }

  lemma ThreeJoined(a: bytes, b: bytes, c: bytes)
    ensures Concat([a, b, c]) == a + b + c
  {
    assert Concat([b, c]) == b + Concat([c]);
    assert Concat([c]) == c + Concat([]);
    assert [a, b, c][1..] == [b, c] && [b, c][1..] == [c] && [c][1..] == [];
  }

  // ------------------------------------------------------------ the bitmap

  /** A bitmap entry: its cluster at byte 20. */
  function BitmapEntry(front: bytes, cluster: nat, size: nat): (e: bytes)
    requires |front| == 19
    ensures |e| == ENTRY
  {
    [0x81] + front + ToLE(cluster, 4) + ToLE(size, 8)
  }

  lemma BitmapFields(front: bytes, cluster: nat, size: nat)
    requires |front| == 19 && cluster < 0x1_0000_0000
    ensures var e := BitmapEntry(front, cluster, size); e[0] == 0x81 && LE(e[20..24]) == cluster
  {
    hide LE, ToLE;
    FieldWidths();
    var e := BitmapEntry(front, cluster, size);
    assert e[20..24] == ToLE(cluster, 4);
    FieldHeld(e, 20, cluster, 4);
  }

  // ------------------------------------------------------------ the decision

  /** The FAT's word for a cluster is in the image. */
  predicate InImage(g: Geometry, img: bytes, c: nat) { g.FatAt(c) + 4 <= |img| }

  predicate IsFree(g: Geometry, img: bytes, c: nat)
    requires InImage(g, img, c)
  {
    LE(img[g.FatAt(c)..g.FatAt(c) + 4]) == 0
  }

  /** The lowest free cluster of the heap, no word before it being outside the image. */
  ghost predicate LowestFree(g: Geometry, img: bytes, c: nat, from: nat) {
    && from <= c <= g.count + 1 && InImage(g, img, c) && IsFree(g, img, c)
    && forall x :: from <= x < c ==> InImage(g, img, x) && !IsFree(g, img, x)
  }

  lemma {:induction false} FreeIsLowest(g: Geometry, img: bytes, c: nat, from: nat)
    ensures FirstFree(g, img, from) == Some(c) <==> LowestFree(g, img, c, from)
    decreases g.count + 2 - from
  {
    hide LE, Geometry.FatAt;
    if from <= g.count + 1 && InImage(g, img, from) && !IsFree(g, img, from) {
      FreeIsLowest(g, img, c, from + 1);
    }
  }

  /** Entry i is the last bitmap entry in front of entry k. */
  ghost predicate LastBitmap(data: bytes, i: nat, k: nat)
    requires k <= Entries(data)
  {
    i < k && EntryAt(data, i)[0] == 0x81 && forall j :: i < j < k ==> EntryAt(data, j)[0] != 0x81
  }

  /** From an entry on, the first end marker is entry k, and b is what the last bitmap entry in front of it names. */
  ghost predicate Scanned(data: bytes, k: nat, b: nat, from: nat, seen: nat) {
    && from <= k < Entries(data) && EntryAt(data, k)[0] == 0 && (forall i :: from <= i < k ==> EntryAt(data, i)[0] != 0)
    && ((forall i :: from <= i < k ==> EntryAt(data, i)[0] != 0x81) ==> b == seen)
    && forall i :: from <= i && LastBitmap(data, i, k) ==> b == LE(EntryAt(data, i)[20..24])
  }

  lemma {:induction false} ScanIs(data: bytes, k: nat, b: nat, from: nat, seen: nat)
    ensures ScanRoot(data, from, seen) == (Some(k), b) <==> Scanned(data, k, b, from, seen)
    decreases Entries(data) - from
  {
    hide EntryAt, LE;
    if from < Entries(data) && EntryAt(data, from)[0] != 0 {
      var e := EntryAt(data, from);
      var seen' := if e[0] == 0x81 then LE(e[20..24]) else seen;
      ScanIs(data, k, b, from + 1, seen');
      if from < k < Entries(data) { assert LastBitmap(data, from, k) ==> e[0] == 0x81; }
    }
  }

  /**
   * What the injector decides for: the root cluster is in the image, the set fits at the directory's first end
   * marker, the bitmap is the one named last in front of it, and the lowest free cluster's data is in the image.
   */
  ghost predicate Decided(g: Geometry, img: bytes, p: Plan) {
    && g.root >= 2 && g.DataAt(g.root) + g.ClusterSize() <= |img|
    && Scanned(img[g.DataAt(g.root)..g.DataAt(g.root) + g.ClusterSize()], p.insertAt, p.bitmap, 0, 0)
    && ENTRY * (p.insertAt + SET_ENTRIES) <= g.ClusterSize()
    && LowestFree(g, img, p.alloc, 2) && g.DataAt(p.alloc) + g.ClusterSize() <= |img|
  }

  /** The checks of the injector pass exactly for such a decision. */
  lemma PlanIsDecided(g: Geometry, img: bytes, p: Plan)
    ensures PlanFor(g, img) == Some(p) <==> Decided(g, img, p)
  {
    hide ScanRoot, FirstFree, Scanned, LowestFree, Geometry.DataAt;
    FreeIsLowest(g, img, p.alloc, 2);
    if LowestFree(g, img, p.alloc, 2) { LowestInHeap(g, img, p.alloc); }
    if g.root >= 2 && g.DataAt(g.root) + g.ClusterSize() <= |img| {
      ScanIs(img[g.DataAt(g.root)..g.DataAt(g.root) + g.ClusterSize()], p.insertAt, p.bitmap, 0, 0);
    }
  }

  lemma LowestInHeap(g: Geometry, img: bytes, c: nat)
    requires LowestFree(g, img, c, 2)
    ensures c >= 2
  {
  }

  /** The bitmap's cluster is at byte 20 of its entry; the byte that is marked has the allocated cluster's bit. */
  lemma BitmapNamed(g: Geometry, img: bytes, p: Plan, i: nat, front: bytes, cluster: nat, size: nat)
    requires PlanFor(g, img) == Some(p) && |front| == 19 && 2 <= cluster < 0x1_0000_0000
    requires var root := img[g.DataAt(g.root)..g.DataAt(g.root) + g.ClusterSize()];
             p.insertAt <= Entries(root) && LastBitmap(root, i, p.insertAt)
             && EntryAt(root, i) == BitmapEntry(front, cluster, size)
    ensures var at := g.heapOffset * g.ss + (cluster - 2) * (g.ss * g.spc) + (p.alloc - 2) / 8;
            p.bitmap == cluster && BitmapByte(g, img, p) == if at < |img| then Some(at) else None
  {
    hide PlanFor, LowestFree, LE, EntryAt, BitmapEntry, LastBitmap;
    PlanIsDecided(g, img, p);
    BitmapFields(front, cluster, size);
    LowestInHeap(g, img, p.alloc);
  }
}

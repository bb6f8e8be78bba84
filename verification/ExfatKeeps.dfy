/** What the injector leaves alone, and what a reader sees of the file it adds. */
module ExfatKeeps {
  import opened Bytes
  import opened Streaming
  import opened ClusterChain
  import opened Exfat
  import opened ExfatInject

  // ------------------------------------------------------------ what a consistent image is

  /** The cluster of the allocation bitmap that holds the bit of the allocated cluster. */
  function BitmapCluster(g: Geometry, p: Plan): nat
    requires p.alloc >= 2
  {
    p.bitmap + (p.alloc - 2) / 8 / g.ClusterSize()
  }

  /** The FAT lies in front of the heap, the root is one cluster, the bitmap byte is in an allocated cluster. */
  ghost predicate Mounted(g: Geometry, img: bytes, p: Plan)
    requires p.alloc >= 2
  {
    && g.count < 0xFFFF_FFFF && g.FatAt(g.count + 2) <= g.heapOffset * g.ss
    && FatEntry(g, img, g.root) == Some(EOC)
    && (BitmapByte(g, img, p).Some? ==>
          && BitmapCluster(g, p) != g.root
          && FatEntry(g, img, BitmapCluster(g, p)).Some? && FatEntry(g, img, BitmapCluster(g, p)) != Some(0))
  }

  /** A consistent image on which the injector decided for p. */
  ghost predicate Consistent(g: Geometry, img: bytes, p: Plan) {
    && PlanFits(g, img, p) && p.alloc <= g.count + 1 && FatEntry(g, img, p.alloc) in {None, Some(0)}
    && Mounted(g, img, p)
  }

  lemma PlanIsConsistent(g: Geometry, img: bytes, p: Plan)
    requires PlanFor(g, img) == Some(p) && Mounted(g, img, p)
    ensures Consistent(g, img, p)
  {
    hide Mounted, ScanRoot;
  }

  // ------------------------------------------------------------ places that do not meet

  lemma ClustersApart(g: Geometry, c: nat, d: nat)
    requires 2 <= c && 2 <= d && c != d
    ensures g.DataAt(c) + g.ClusterSize() <= g.DataAt(d) || g.DataAt(d) + g.ClusterSize() <= g.DataAt(c)
  {
    var size := g.ss * g.spc;
    if c < d {
      MulLe(c - 1, d - 2, size);
      MulAdd(c - 2, 1, size);
    } else {
      MulLe(d - 1, c - 2, size);
      MulAdd(d - 2, 1, size);
    }
  }

  lemma FatBeforeData(g: Geometry, c: nat, d: nat)
    requires c <= g.count + 1 && 2 <= d && g.FatAt(g.count + 2) <= g.heapOffset * g.ss
    ensures g.FatAt(c) + 4 <= g.DataAt(d)
  {
    MulLe(0, d - 2, g.ss * g.spc);
  }

  lemma BitmapByteInCluster(g: Geometry, img: bytes, p: Plan)
    requires p.alloc >= 2 && BitmapByte(g, img, p).Some?
    ensures BitmapCluster(g, p) >= 2
    ensures g.DataAt(BitmapCluster(g, p)) <= BitmapByte(g, img, p).value < g.DataAt(BitmapCluster(g, p))
            + g.ClusterSize()
  {
    hide Geometry.DataAt, Geometry.ClusterSize;
    InSomeCluster(g, p.bitmap, (p.alloc - 2) / 8, (p.alloc - 2) / 8 / g.ClusterSize());
  }

  /** The q-th byte of the heap behind cluster c lies in the k-th cluster behind it. */
  lemma InSomeCluster(g: Geometry, c: nat, q: nat, k: nat)
    requires c >= 2 && k == q / g.ClusterSize()
    ensures g.DataAt(c + k) <= g.DataAt(c) + q < g.DataAt(c + k) + g.ClusterSize()
  {
    var size := g.ClusterSize();
    MulAdd(c - 2, k, size);
    assert q == k * size + q % size;
  }

  ghost predicate Clear(at: nat, n: nat, lo: nat, hi: nat) { hi <= at || at + n <= lo }

  lemma PatchClear(img: bytes, at: nat, patch: bytes, lo: nat, hi: nat)
    requires at + |patch| <= |img| && lo <= hi <= |img| && Clear(at, |patch|, lo, hi)
    ensures Patch(img, at, patch)[lo..hi] == img[lo..hi]
  {
    var r := Patch(img, at, patch);
    if hi <= at {
      SliceSlice(r, 0, at, lo, hi);
      SliceSlice(img, 0, at, lo, hi);
    } else {
      var e := at + |patch|;
      SliceSlice(r, e, |r|, lo - e, hi - e);
      SliceSlice(img, e, |img|, lo - e, hi - e);
    }
  }

  /** Away from the bitmap byte and the new directory entries. */
  lemma ClearOfLate(g: Geometry, img: bytes, p: Plan, lo: nat, hi: nat)
    requires PlanFits(g, img, p) && lo <= hi <= |img|
    requires BitmapByte(g, img, p).Some? ==> Clear(BitmapByte(g, img, p).value, 1, lo, hi)
    requires Clear(g.DataAt(g.root) + ENTRY * p.insertAt, SET_ENTRIES * ENTRY, lo, hi)
    ensures Injected(g, img, p)[lo..hi] == WithFat(g, img, p)[lo..hi]
  {
    hide WithFat, Patch, EntrySet, SetBit, Clear;
    BitmapByteStays(g, img, WithFat(g, img, p), p);
    if BitmapByte(g, img, p).Some? {
      var i2, at := WithFat(g, img, p), BitmapByte(g, img, p).value;
      PatchClear(i2, at, [SetBit(i2[at], (p.alloc - 2) % 8)], lo, hi);
    }
    PatchClear(WithBitmap(g, img, p), g.DataAt(g.root) + ENTRY * p.insertAt, EntrySet(p.alloc), lo, hi);
  }

  /** Away from everything that is written. */
  lemma ClearOfAll(g: Geometry, img: bytes, p: Plan, lo: nat, hi: nat)
    requires PlanFits(g, img, p) && lo <= hi <= |img|
    requires BitmapByte(g, img, p).Some? ==> Clear(BitmapByte(g, img, p).value, 1, lo, hi)
    requires Clear(g.DataAt(g.root) + ENTRY * p.insertAt, SET_ENTRIES * ENTRY, lo, hi)
    requires Clear(g.DataAt(p.alloc), g.ClusterSize(), lo, hi) && Clear(g.FatAt(p.alloc), 4, lo, hi)
    ensures Injected(g, img, p)[lo..hi] == img[lo..hi]
  {
    hide Patch, Injected, BitmapByte, Clear;
    ClearOfLate(g, img, p, lo, hi);
    PatchClear(img, g.DataAt(p.alloc), CONTENT + Zeros(g.ClusterSize() - |CONTENT|), lo, hi);
    PatchClear(WithData(g, img, p), g.FatAt(p.alloc), [255, 255, 255, 255], lo, hi);
  }

  // ------------------------------------------------------------ entries and clusters afterwards

  /** The allocated cluster is neither the root nor the bitmap's. */
  lemma AllocIsOwn(g: Geometry, img: bytes, p: Plan)
    requires Consistent(g, img, p)
    ensures p.alloc != g.root && 2 <= g.root <= g.count + 1
    ensures BitmapByte(g, img, p).Some? ==> p.alloc != BitmapCluster(g, p) && BitmapCluster(g, p) != g.root
  {
  }

  /** A piece of the heap inside a cluster that is not written to late. */
  lemma HeapClear(g: Geometry, img: bytes, p: Plan, c: nat)
    requires Consistent(g, img, p) && c >= 2 && c != g.root
             && (BitmapByte(g, img, p).Some? ==> c != BitmapCluster(g, p))
    ensures BitmapByte(g, img, p).Some? ==>
            Clear(BitmapByte(g, img, p).value, 1, g.DataAt(c), g.DataAt(c) + g.ClusterSize())
    ensures Clear(g.DataAt(g.root) + ENTRY * p.insertAt, SET_ENTRIES * ENTRY, g.DataAt(c),
                  g.DataAt(c) + g.ClusterSize())
    ensures Clear(g.FatAt(p.alloc), 4, g.DataAt(c), g.DataAt(c) + g.ClusterSize())
  {
    hide FatEntry, BitmapByte, BitmapCluster;
    if BitmapByte(g, img, p).Some? {
      BitmapByteInCluster(g, img, p);
      ClustersApart(g, c, BitmapCluster(g, p));
    }
    ClustersApart(g, c, g.root);
    FatBeforeData(g, p.alloc, c);
  }

  lemma FatClear(g: Geometry, img: bytes, p: Plan, c: nat)
    requires Consistent(g, img, p) && c <= g.count + 1
    ensures BitmapByte(g, img, p).Some? ==> Clear(BitmapByte(g, img, p).value, 1, g.FatAt(c), g.FatAt(c) + 4)
    ensures Clear(g.DataAt(g.root) + ENTRY * p.insertAt, SET_ENTRIES * ENTRY, g.FatAt(c), g.FatAt(c) + 4)
    ensures Clear(g.DataAt(p.alloc), g.ClusterSize(), g.FatAt(c), g.FatAt(c) + 4)
  {
    hide FatEntry, BitmapByte, BitmapCluster;
    if BitmapByte(g, img, p).Some? {
      BitmapByteInCluster(g, img, p);
      FatBeforeData(g, c, BitmapCluster(g, p));
    }
    FatBeforeData(g, c, g.root);
    FatBeforeData(g, c, p.alloc);
  }

  /** Every other FAT entry is kept. */
  lemma EntriesKept(g: Geometry, img: bytes, p: Plan, c: nat)
    requires Consistent(g, img, p) && c != p.alloc
    ensures FatEntry(g, Injected(g, img, p), c) == FatEntry(g, img, c)
  {
    hide Injected, Consistent, BitmapByte, PlanFits;
    Fits(g, img, p);
    if FatEntry(g, img, c).Some? || FatEntry(g, Injected(g, img, p), c).Some? {
      FatClear(g, img, p, c);
      ClearOfAll(g, img, p, g.FatAt(c), g.FatAt(c) + 4);
    }
  }

  lemma Fits(g: Geometry, img: bytes, p: Plan)
    requires Consistent(g, img, p)
    ensures PlanFits(g, img, p)
  {
  }

  /** The allocated cluster's entry becomes an end marker. */
  lemma AllocEntry(g: Geometry, img: bytes, p: Plan)
    requires Consistent(g, img, p)
    ensures FatEntry(g, Injected(g, img, p), p.alloc) == Some(EOC)
  {
    hide Injected, Consistent, BitmapByte, PlanFits, Patch;
    Fits(g, img, p);
    FatSectorFits(g, img, p);
    var at, n := g.FatAt(p.alloc), Injected(g, img, p);
    FatClear(g, img, p, p.alloc);
    ClearOfLate(g, img, p, at, at + 4);
    FourOnes(n[at..at + 4]);
  }

  lemma FourOnes(b: bytes)
    requires b == [255, 255, 255, 255]
    ensures LE(b) == EOC
  {
    var b1, b2, b3 := b[1..], b[2..], b[3..];
    assert LE(b3) == 255 by { assert b3 == [255] && b3[1..] == []; }
    assert LE(b2) == 255 + 256 * 255 by { assert b2[1..] == b3; }
    assert LE(b1) == 255 + 256 * (255 + 256 * 255) by { assert b1[1..] == b2; }
  }

  /** The sector of the allocated cluster's FAT entry is in the image, as the heap behind it is. */
  lemma FatSectorFits(g: Geometry, img: bytes, p: Plan)
    requires Consistent(g, img, p)
    ensures (g.fatOffset + 4 * p.alloc / g.ss + 1) * g.ss <= |img| && g.FatAt(p.alloc) + 4 <= |img|
            && 2 <= p.alloc <= g.count + 1
  {
    hide FatEntry, BitmapByte, BitmapCluster, Consistent, PlanFits;
    Fits(g, img, p);
    AllocFits(g, img, p);
    AllocInRange(g, img, p);
    FatBeforeData(g, p.alloc, p.alloc);
    MulLe(0, p.alloc - 2, g.ss * g.spc);
    SectorBefore(g.ss, g.fatOffset, g.heapOffset, 4 * p.alloc);
  }

  /** The sector of a byte in front of a sector boundary ends no later than that. */
  lemma SectorBefore(ss: pos, first: nat, end: nat, at: nat)
    requires first * ss + at < end * ss
    ensures (first + at / ss + 1) * ss <= end * ss
  {
    var q := at / ss;
    MulAdd(first, q, ss);
    if first + q >= end { MulLe(end, first + q, ss); }
    MulLe(first + q + 1, end, ss);
  }

  /** Every other cluster but the root and the bitmap's keeps its data. */
  lemma DataKept(g: Geometry, img: bytes, p: Plan, c: nat)
    requires Consistent(g, img, p) && c != p.alloc && c != g.root
    requires BitmapByte(g, img, p).Some? ==> c != BitmapCluster(g, p)
    ensures ClusterData(g, Injected(g, img, p), c) == ClusterData(g, img, c)
  {
    hide Injected, Consistent, BitmapByte, PlanFits, BitmapCluster;
    Fits(g, img, p);
    if ClusterData(g, img, c).Some? {
      HeapClear(g, img, p, c);
      AllocIsOwn(g, img, p);
      AllocFits(g, img, p);
      ClustersApart(g, c, p.alloc);
      ClearOfAll(g, img, p, g.DataAt(c), g.DataAt(c) + g.ClusterSize());
    }
  }

  lemma AllocFits(g: Geometry, img: bytes, p: Plan)
    requires PlanFits(g, img, p)
    ensures p.alloc >= 2 && g.root >= 2 && g.DataAt(p.alloc) + g.ClusterSize() <= |img|
            && g.DataAt(g.root) + g.ClusterSize() <= |img|
    ensures |CONTENT| <= ENTRY * (p.insertAt + SET_ENTRIES) <= g.ClusterSize()
  {
  }

  /** The allocated cluster holds the content, then zeros. */
  lemma AllocData(g: Geometry, img: bytes, p: Plan)
    requires Consistent(g, img, p) && g.ClusterSize() >= |CONTENT|
    ensures ClusterData(g, Injected(g, img, p), p.alloc) == Some(CONTENT + Zeros(g.ClusterSize() - |CONTENT|))
  {
    hide Injected, Consistent, BitmapByte, PlanFits, Patch, BitmapCluster;
    Fits(g, img, p);
    AllocFits(g, img, p);
    AllocIsOwn(g, img, p);
    var lo, hi := g.DataAt(p.alloc), g.DataAt(p.alloc) + g.ClusterSize();
    HeapClear(g, img, p, p.alloc);
    ClearOfLate(g, img, p, lo, hi);
    PatchClear(WithData(g, img, p), g.FatAt(p.alloc), [255, 255, 255, 255], lo, hi);
  }

  // ------------------------------------------------------------ files

  /** A chain whose links are the same on both volumes is followed alike. */
  lemma {:induction false} FollowKept(v: Volume, w: Volume, c: nat, chain: seq<nat>, cs: seq<nat>)
    requires Follow(v, c, chain) == Some(cs)
    requires forall x :: x in cs ==> LinkOf(v, x) == LinkOf(w, x)
    ensures Follow(w, c, chain) == Some(cs) && c in cs && forall x :: x in chain ==> x in cs
    decreases MAX_CLUSTER_CHAIN - |chain|
  {
    hide LinkOf;
    if LinkOf(v, c).Next? {
      FollowIncludes(v, LinkOf(v, c).cluster, chain + [c], cs);
      assert c in chain + [c];
      FollowKept(v, w, LinkOf(v, c).cluster, chain + [c], cs);
      forall x | x in chain ensures x in cs { assert x in chain + [c]; }
    }
  }

  lemma {:induction false} FollowIncludes(v: Volume, c: nat, chain: seq<nat>, cs: seq<nat>)
    requires Follow(v, c, chain) == Some(cs)
    ensures forall x :: x in chain + [c] ==> x in cs
    decreases MAX_CLUSTER_CHAIN - |chain|
  {
    hide LinkOf;
    if LinkOf(v, c).Next? {
      FollowIncludes(v, LinkOf(v, c).cluster, chain + [c], cs);
      forall x | x in chain + [c] ensures x in cs { assert x in chain + [c] + [LinkOf(v, c).cluster]; }
    }
  }

  lemma ChainLinks(v: Volume, start: nat, cs: seq<nat>, i: nat)
    requires IsChain(v, start, cs) && i < |cs|
    ensures LinkOf(v, cs[i]) != Broken
  {
    if i < |cs| - 1 { assert LinkOf(v, cs[i]) == Next(cs[i + 1]); }
  }

  lemma NoLink(g: Geometry, img: bytes, p: Plan)
    requires Consistent(g, img, p)
    ensures LinkOf(VolumeOf(g, img), p.alloc) == Broken
  {
    hide FatEntry, ClusterData;
    var v := VolumeOf(g, img);
    assert v.entry(p.alloc) == FatEntry(g, img, p.alloc) && !v.isBad(0);
  }

  /** A free cluster is on no chain. */
  lemma AllocOnNoChain(g: Geometry, img: bytes, p: Plan, start: nat, cs: seq<nat>)
    requires Consistent(g, img, p) && Follow(VolumeOf(g, img), start, []) == Some(cs)
    ensures p.alloc !in cs
  {
    hide Follow, VolumeOf, LinkOf, Consistent;
    FollowIsChain(VolumeOf(g, img), start, cs);
    if p.alloc in cs {
      var i :| 0 <= i < |cs| && cs[i] == p.alloc;
      NoLink(g, img, p);
      ChainLinks(VolumeOf(g, img), start, cs, i);
    }
  }

  /** Clusters the injector may not share with a file: the root directory and the bitmap. */
  ghost predicate Foreign(g: Geometry, img: bytes, p: Plan, cs: seq<nat>)
    requires p.alloc >= 2
  {
    g.root !in cs && (BitmapByte(g, img, p).Some? ==> BitmapCluster(g, p) !in cs)
  }

  /** Every file that could be read reads the same afterwards. */
  lemma FilesKept(g: Geometry, img: bytes, p: Plan, start: nat, size: nat)
    requires Consistent(g, img, p) && Content(VolumeOf(g, img), start, size).Some?
    requires size > 0 ==> Foreign(g, img, p, Follow(VolumeOf(g, img), start, []).value)
    ensures Content(VolumeOf(g, Injected(g, img, p)), start, size) == Content(VolumeOf(g, img), start, size)
  {
    hide Follow, Injected, Consistent, FatEntry, ClusterData, BitmapByte, BitmapCluster, Gather;
    Fits(g, img, p);
    var v, w := VolumeOf(g, img), VolumeOf(g, Injected(g, img, p));
    if size > 0 {
      var cs := Follow(v, start, []).value;
      AllocOnNoChain(g, img, p, start, cs);
      forall c | c in cs ensures LinkOf(v, c) == LinkOf(w, c) && v.cluster(c) == w.cluster(c) {
        EntriesKept(g, img, p, c);
        DataKept(g, img, p, c);
      }
      FollowKept(v, w, start, [], cs);
      assert Blocks(v, cs) == Blocks(w, cs);
    }
  }

  /** The new file's cluster reads back its content. */
  lemma FixtureReadsBack(g: Geometry, img: bytes, p: Plan)
    requires Consistent(g, img, p)
    ensures Content(VolumeOf(g, Injected(g, img, p)), p.alloc, |CONTENT|) == Some(CONTENT)
  {
    hide Injected, Consistent, FatEntry, ClusterData, PlanFits;
    Fits(g, img, p);
    AllocFits(g, img, p);
    AllocEntry(g, img, p);
    AllocData(g, img, p);
    var w := VolumeOf(g, Injected(g, img, p));
    assert LinkOf(w, p.alloc) == Last;
    assert Follow(w, p.alloc, []) == Some([p.alloc]) by { assert [] + [p.alloc] == [p.alloc]; }
    var block := CONTENT + Zeros(g.ClusterSize() - |CONTENT|);
    assert Blocks(w, [p.alloc]) == [Some(block)];
    assert block[..|CONTENT|] == CONTENT && CONTENT + [] == CONTENT;
    assert Gather([Some(block)][1..], 0) == Some([]);
  }

  // ------------------------------------------------------------ the directory

  function Fixture(p: Plan): DirEntry { DirEntry(NAME, false, |CONTENT|, p.alloc) }

  lemma {:induction false} NameBytesAt(units: seq<nat>, j: nat)
    requires j < |units|
    ensures NameBytes(units)[2 * j..2 * j + 2] == ToLE(units[j], 2)
  {
    if j > 0 {
      NameBytesAt(units[1..], j - 1);
      var b, rest := NameBytes(units), NameBytes(units[1..]);
      assert b[2 * j..2 * j + 2] == rest[2 * (j - 1)..2 * (j - 1) + 2];
    }
  }

  /** Unit j of a file-name entry. */
  function UnitAt(e: bytes, j: nat): nat
    requires |e| == ENTRY && j < 15
  {
    LE(e[2 + 2 * j..4 + 2 * j])
  }

  lemma {:induction false} UnitsAre(e: bytes, units: seq<nat>, j: nat)
    requires |e| == ENTRY && j <= |units| < 15 && UnitAt(e, |units|) == 0
    requires forall i :: 0 <= i < |units| ==> UnitAt(e, i) == units[i] != 0
    ensures NameUnits(e, j) == units[j..]
    decreases |units| - j
  {
    hide UnitAt;
    if j < |units| {
      UnitsAre(e, units, j + 1);
      assert NameUnits(e, j) == [UnitAt(e, j)] + NameUnits(e, j + 1) by { UnitStep(e, j); }
    } else {
      UnitStep(e, j);
    }
  }

  lemma UnitStep(e: bytes, j: nat)
    requires |e| == ENTRY && j < 15
    ensures NameUnits(e, j) == if UnitAt(e, j) == 0 then [] else [UnitAt(e, j)] + NameUnits(e, j + 1)
  {
  }

  lemma NameEntryUnits()
    ensures NameUnits(NameEntry(), 0) == NAME && NameEntry()[0] == 0xC1
  {
    hide UnitAt, NameBytes, ToLE;
    var e := NameEntry();
    NamePart();
    forall i | 0 <= i < |NAME| ensures UnitAt(e, i) == NAME[i] != 0 {
      NameBytesAt(NAME, i);
      SliceSlice(e, 2, 24, 2 * i, 2 * i + 2);
      UnitIs(e, i, NAME[i]);
    }
    assert e[24..26] == ToLE(0, 2) by { TwoZeros(); assert e[24..26] == [0, 0]; }
    UnitIs(e, 11, 0);
    UnitsAre(e, NAME, 0);
  }

  lemma NamePart()
    ensures NameEntry()[2..24] == NameBytes(NAME)
  {
    hide NameBytes;
  }

  lemma TwoZeros()
    ensures ToLE(0, 2) == [0, 0]
  {
  }

  lemma UnitIs(e: bytes, j: nat, u: nat)
    requires |e| == ENTRY && j < 15 && u < 0x1_0000 && e[2 + 2 * j..4 + 2 * j] == ToLE(u, 2)
    ensures UnitAt(e, j) == u
  {
    ToLERoundTrip(u, 2);
    assert Pow256(2) == 0x1_0000;
  }

  lemma StreamFields(alloc: nat)
    requires alloc < 0x1_0000_0000
    ensures var e := StreamEntry(alloc);
            e[0] == 0xC0 && e[3] == 11 && LE(e[20..24]) == alloc && LE(e[24..32]) == |CONTENT|
  {
    hide LE, ToLE, NameHash;
    var e := StreamEntry(alloc);
    assert e[20..24] == ToLE(alloc, 4) && e[24..32] == ToLE(8, 8);
    ToLERoundTrip(alloc, 4);
    ToLERoundTrip(8, 8);
    assert Pow256(4) == 0x1_0000_0000;
    assert Pow256(8) == 0x1_0000_0000 * 0x1_0000_0000;
  }

  lemma SetParts(alloc: nat)
    ensures var s := EntrySet(alloc);
            && s[0] == 0x85 && s[1] == 2 && s[4] == 0x20 && s[5] == 0
            && s[ENTRY..2 * ENTRY] == StreamEntry(alloc) && s[2 * ENTRY..] == NameEntry()
  {
    hide SetChecksum, StreamEntry, NameEntry, ToLE;
  }

  lemma EntryIs(data: bytes, k: nat, n: nat, entrySet: bytes, i: nat)
    requires |entrySet| == n * ENTRY && ENTRY * (k + n) <= |data| && data[ENTRY * k..ENTRY * (k + n)] == entrySet
    requires i < n
    ensures EntryAt(data, k + i) == entrySet[ENTRY * i..ENTRY * (i + 1)]
  {
    SliceSlice(data, ENTRY * k, ENTRY * (k + n), ENTRY * i, ENTRY * (i + 1));
  }

  /** A reader that comes to the new set lists the fixture. */
  lemma SetIsListed(data: bytes, k: nat, p: Plan)
    requires p.alloc < 0x1_0000_0000 && ENTRY * (k + SET_ENTRIES) <= |data|
    requires data[ENTRY * k..ENTRY * (k + SET_ENTRIES)] == EntrySet(p.alloc)
    ensures StepAt(data, k) == Listed(Fixture(p), SET_ENTRIES)
  {
    hide EntrySet, StreamEntry, NameEntry, EntryAt, NameUnits, LE;
    var s := EntrySet(p.alloc);
    SetParts(p.alloc);
    EntryIs(data, k, SET_ENTRIES, s, 0);
    EntryIs(data, k, SET_ENTRIES, s, 1);
    EntryIs(data, k, SET_ENTRIES, s, 2);
    StreamFields(p.alloc);
    NameEntryUnits();
    var e0, e1, e2 := EntryAt(data, k), EntryAt(data, k + 1), EntryAt(data, k + 2);
    assert e0[0] == 0x85 && e0[1] == 2 && e1 == StreamEntry(p.alloc) && e2 == NameEntry();
    assert e0[4..6] == [0x20, 0];
    Attributes(e0[4..6]);
    var s1 := SetInfo(true, 11, p.alloc, |CONTENT|, []);
    var s2 := SetInfo(true, 11, p.alloc, |CONTENT|, NAME);
    assert AddSecondary(NO_INFO, e1) == Some(s1);
    assert AddSecondary(s1, e2) == Some(s2) by { assert [] + NAME == NAME; }
    assert AddSecondaries(data, k + 3, k + 3, s2) == Some(s2);
    assert AddSecondaries(data, k + 2, k + 3, s1) == Some(s2);
    assert AddSecondaries(data, k + 1, k + 3, NO_INFO) == Some(s2);
    assert NAME[..11] == NAME;
    assert SetComplete(data, k, 2);
  }

  lemma Attributes(b: bytes)
    requires b == [0x20, 0]
    ensures LE(b) / 16 % 2 == 0
  {
    assert LE(b[1..]) == 0 by { assert b[1..] == [0] && b[1..][1..] == []; }
  }

  function RootData(g: Geometry, img: bytes): bytes
    requires g.root >= 2 && g.DataAt(g.root) + g.ClusterSize() <= |img|
  {
    img[g.DataAt(g.root)..g.DataAt(g.root) + g.ClusterSize()]
  }

  ghost predicate SameRoot(g: Geometry, x: bytes, y: bytes, a: nat, b: nat) {
    && g.root >= 2 && g.DataAt(g.root) + g.ClusterSize() <= |x| == |y| && a <= b <= g.ClusterSize()
    && RootData(g, x)[a..b] == RootData(g, y)[a..b]
  }

  /** The root directory in front of the new set and behind it is kept. */
  lemma RootKept(g: Geometry, img: bytes, p: Plan, a: nat, b: nat)
    requires Consistent(g, img, p) && a <= b <= g.ClusterSize()
    requires b <= ENTRY * p.insertAt || ENTRY * (p.insertAt + SET_ENTRIES) <= a
    ensures SameRoot(g, img, Injected(g, img, p), a, b)
  {
    hide Injected, Consistent, BitmapByte, PlanFits, BitmapCluster;
    Fits(g, img, p);
    AllocFits(g, img, p);
    AllocIsOwn(g, img, p);
    AllocInRange(g, img, p);
    var at := g.DataAt(g.root);
    if BitmapByte(g, img, p).Some? {
      BitmapByteInCluster(g, img, p);
      ClustersApart(g, g.root, BitmapCluster(g, p));
    }
    ClustersApart(g, g.root, p.alloc);
    FatBeforeData(g, p.alloc, g.root);
    ClearOfAll(g, img, p, at + a, at + b);
    SliceSlice(img, at, at + g.ClusterSize(), a, b);
    SliceSlice(Injected(g, img, p), at, at + g.ClusterSize(), a, b);
  }

  lemma AllocInRange(g: Geometry, img: bytes, p: Plan)
    requires Consistent(g, img, p)
    ensures 2 <= p.alloc <= g.count + 1 && p.alloc < 0x1_0000_0000 && g.FatAt(g.count + 2) <= g.heapOffset * g.ss
  {
  }

  lemma RootSet(g: Geometry, img: bytes, p: Plan)
    requires Consistent(g, img, p)
    ensures RootData(g, Injected(g, img, p))[ENTRY * p.insertAt..ENTRY * (p.insertAt + SET_ENTRIES)] ==
            EntrySet(p.alloc)
  {
    hide Consistent, WithBitmap, EntrySet, PlanFits, Patch;
    Fits(g, img, p);
    AllocFits(g, img, p);
    var at := g.DataAt(g.root);
    SliceSlice(Injected(g, img, p), at, at + g.ClusterSize(), ENTRY * p.insertAt, ENTRY * (p.insertAt + SET_ENTRIES));
  }

  /** Entries up to the first end marker, and every entry behind the new set. */
  lemma RootEntriesKept(g: Geometry, img: bytes, p: Plan)
    requires Consistent(g, img, p)
    ensures SameUpTo(RootData(g, img), RootData(g, Injected(g, img, p)), p.insertAt)
    ensures forall i :: p.insertAt + SET_ENTRIES <= i < Entries(RootData(g, img)) ==>
              EntryAt(RootData(g, Injected(g, img, p)), i) == EntryAt(RootData(g, img), i)
  {
    hide Injected, Consistent, PlanFits, RootData;
    Fits(g, img, p);
    AllocFits(g, img, p);
    RootSize(g, img);
    RootSize(g, Injected(g, img, p));
    forall i | 0 <= i < Entries(RootData(g, img)) && (i < p.insertAt || p.insertAt + SET_ENTRIES <= i)
      ensures EntryAt(RootData(g, Injected(g, img, p)), i) == EntryAt(RootData(g, img), i)
    {
      RootKept(g, img, p, ENTRY * i, ENTRY * (i + 1));
    }
  }

  lemma RootSize(g: Geometry, img: bytes)
    requires g.root >= 2 && g.DataAt(g.root) + g.ClusterSize() <= |img|
    ensures |RootData(g, img)| == g.ClusterSize()
  {
  }

  /** An entry of the second kind of end marker (0x01), which the injector scans past. */
  ghost predicate OldMarker(data: bytes, k: nat) {
    k <= Entries(data) && exists i :: 0 <= i < k && EntryAt(data, i)[0] == 1
  }

  /** Nothing but the fixture behind the end of the directory. */
  ghost predicate Padded(data: bytes, p: Plan) {
    p.insertAt + SET_ENTRIES < Entries(data) ==> EntryAt(data, p.insertAt + SET_ENTRIES)[0] == 0
  }

  lemma {:induction false} ScanFinds(data: bytes, i: nat, bitmap: nat)
    requires ScanRoot(data, i, bitmap).0.Some?
    ensures var k := ScanRoot(data, i, bitmap).0.value;
            i <= k < Entries(data) && EntryAt(data, k)[0] == 0 && forall j :: i <= j < k ==> EntryAt(data, j)[0] != 0
    decreases Entries(data) - i
  {
    hide EntryAt, LE;
    if EntryAt(data, i)[0] != 0 {
      ScanFinds(data, i + 1, if EntryAt(data, i)[0] == 0x81 then LE(EntryAt(data, i)[20..24]) else bitmap);
    }
  }

  lemma {:induction false} FirstMarker(data: bytes, k: nat, i: nat) returns (m: nat)
    requires i <= k < Entries(data) && EntryAt(data, k)[0] <= 1 && forall j :: 0 <= j < i ==> EntryAt(data, j)[0] >= 2
    ensures i <= m <= k && EndsAt(data, m)
    decreases k - i
  {
    hide EntryAt;
    if EntryAt(data, i)[0] <= 1 { m := i; } else { m := FirstMarker(data, k, i + 1); }
  }

  lemma RootListingIs(g: Geometry, img: bytes)
    requires FatEntry(g, img, g.root) == Some(EOC) && g.root >= 2 && g.DataAt(g.root) + g.ClusterSize() <= |img|
    ensures RootListing(g, img) == ParseFrom(RootData(g, img), 0)
  {
    hide ParseFrom, FatEntry;
  }

  /** What the reader makes of the new set and of what is behind it. */
  lemma ParsedAtEnd(data: bytes, p: Plan)
    requires p.alloc < 0x1_0000_0000 && ENTRY * (p.insertAt + SET_ENTRIES) <= |data| && Padded(data, p)
    requires data[ENTRY * p.insertAt..ENTRY * (p.insertAt + SET_ENTRIES)] == EntrySet(p.alloc)
    ensures ParseFrom(data, p.insertAt) == Some([Fixture(p)])
  {
    hide EntrySet, EntryAt, StepAt;
    SetIsListed(data, p.insertAt, p);
    if p.insertAt + SET_ENTRIES < Entries(data) { StopsAt(data, p.insertAt + SET_ENTRIES); }
    assert [Fixture(p)] + [] == [Fixture(p)];
  }

  /** The entry that the new set is put at ends the directory, unless an 0x01 marker ends it sooner. */
  lemma EndIsAtPlan(g: Geometry, img: bytes, p: Plan)
    requires PlanFor(g, img) == Some(p)
    ensures PlanFits(g, img, p) && p.insertAt < Entries(RootData(g, img))
            && EntryAt(RootData(g, img), p.insertAt)[0] == 0
    ensures forall j :: 0 <= j < p.insertAt ==> EntryAt(RootData(g, img), j)[0] != 0
  {
    hide ScanRoot, EntryAt;
    ScanFinds(RootData(g, img), 0, 0);
  }

  /** a is the directory before, b the one after. */
  ghost predicate SetAdded(a: bytes, b: bytes, p: Plan) {
    && SameUpTo(a, b, p.insertAt) && ENTRY * (p.insertAt + SET_ENTRIES) <= |b| && p.alloc < 0x1_0000_0000
    && b[ENTRY * p.insertAt..ENTRY * (p.insertAt + SET_ENTRIES)] == EntrySet(p.alloc)
    && EntryAt(a, p.insertAt)[0] == 0 && (forall j :: 0 <= j < p.insertAt ==> EntryAt(a, j)[0] != 0)
    && Padded(b, p)
  }

  /** Without an 0x01 marker in front, the listing grows by the fixture; with one it stays as it was. */
  lemma SetAddedLists(a: bytes, b: bytes, p: Plan)
    requires SetAdded(a, b, p) && ParseFrom(a, 0).Some?
    ensures ParseFrom(b, 0) == Some(ParseFrom(a, 0).value + if OldMarker(a, p.insertAt) then [] else [Fixture(p)])
  {
    hide ParseFrom, EntrySet, EntryAt, StepAt;
    var k := p.insertAt;
    assert EntryAt(a, k)[0] <= 1;
    var m := FirstMarker(a, k, 0);
    if OldMarker(a, k) {
      var i :| 0 <= i < k && EntryAt(a, i)[0] == 1;
      assert m <= i;
      assert EntryAt(b, m) == EntryAt(a, m);
      StopsAt(b, m);
    } else {
      assert m == k;
      ParsedAtEnd(b, p);
    }
    assert SameUpTo(a, b, m);
    ParseExtends(a, b, m, 0);
  }

  lemma StopsAt(data: bytes, m: nat)
    requires m < Entries(data) && EntryAt(data, m)[0] <= 1
    ensures ParseFrom(data, m) == Some([])
  {
  }

  /**
   * The old listing is a prefix of the new one, and the fixture follows it exactly when no 0x01 marker
   * ends the directory in front of the place the injector chose.
   */
  lemma ListingGrows(g: Geometry, img: bytes, p: Plan)
    requires PlanFor(g, img) == Some(p) && Mounted(g, img, p)
    requires RootListing(g, img).Some? && Padded(RootData(g, img), p)
    ensures PlanFits(g, img, p)
    ensures RootListing(g, Injected(g, img, p))
         == Some(RootListing(g, img).value + if OldMarker(RootData(g, img), p.insertAt) then [] else [Fixture(p)])
  {
    hide PlanFor, Mounted, FatEntry, Injected, RootData, RootListing, OldMarker, PlanFits, Consistent, SetAdded,
         Padded, EntryAt;
    EndIsAtPlan(g, img, p);
    PlanIsConsistent(g, img, p);
    AllocFits(g, img, p);
    RootGrows(g, img, p);
    var n := Injected(g, img, p);
    AllocIsOwn(g, img, p);
    RootIsEnd(g, img, p);
    EntriesKept(g, img, p, g.root);
    RootListingIs(g, img);
    RootListingIs(g, n);
    SetAddedLists(RootData(g, img), RootData(g, n), p);
  }

  lemma RootGrows(g: Geometry, img: bytes, p: Plan)
    requires PlanFor(g, img) == Some(p) && Consistent(g, img, p) && Padded(RootData(g, img), p)
    ensures SetAdded(RootData(g, img), RootData(g, Injected(g, img, p)), p)
  {
    hide PlanFor, PlanFits, Injected, RootData, EntrySet, EntryAt, Consistent;
    EndIsAtPlan(g, img, p);
    AllocFits(g, img, p);
    AllocInRange(g, img, p);
    RootSize(g, img);
    RootSize(g, Injected(g, img, p));
    RootEntriesKept(g, img, p);
    RootSet(g, img, p);
  }

  lemma RootIsEnd(g: Geometry, img: bytes, p: Plan)
    requires Consistent(g, img, p)
    ensures FatEntry(g, img, g.root) == Some(EOC)
  {
  }

  /**
   * After a successful run every file outside the root directory and the bitmap reads the same bytes,
   * and the new file reads its content.
   */
  lemma InjectionKeepsFiles(g: Geometry, img: bytes, p: Plan, start: nat, size: nat)
    requires PlanFor(g, img) == Some(p) && Mounted(g, img, p)
    requires Content(VolumeOf(g, img), start, size).Some?
    requires size > 0 ==> Foreign(g, img, p, Follow(VolumeOf(g, img), start, []).value)
    ensures PlanFits(g, img, p)
    ensures Content(VolumeOf(g, Injected(g, img, p)), start, size) == Content(VolumeOf(g, img), start, size)
    ensures Content(VolumeOf(g, Injected(g, img, p)), p.alloc, |CONTENT|) == Some(CONTENT)
  {
    hide PlanFor, Mounted, Content, VolumeOf, Injected, Foreign;
    PlanIsConsistent(g, img, p);
    FilesKept(g, img, p, start, size);
    FixtureReadsBack(g, img, p);
  }

  // ------------------------------------------------------------ the bitmap

  lemma BitmapByteClear(g: Geometry, img: bytes, p: Plan)
    requires Consistent(g, img, p) && BitmapByte(g, img, p).Some?
    ensures var at := BitmapByte(g, img, p).value;
            && Clear(g.DataAt(p.alloc), g.ClusterSize(), at, at + 1) && Clear(g.FatAt(p.alloc), 4, at, at + 1)
            && Clear(g.DataAt(g.root) + ENTRY * p.insertAt, SET_ENTRIES * ENTRY, at, at + 1)
  {
    hide BitmapCluster, FatEntry, Consistent, PlanFits, BitmapByte;
    Fits(g, img, p);
    AllocFits(g, img, p);
    AllocIsOwn(g, img, p);
    AllocInRange(g, img, p);
    BitmapByteInCluster(g, img, p);
    var b := BitmapCluster(g, p);
    ClustersApart(g, b, p.alloc);
    ClustersApart(g, b, g.root);
    FatBeforeData(g, p.alloc, b);
  }

  /** The bitmap byte after a run. */
  lemma BitmapByteIs(g: Geometry, img: bytes, p: Plan)
    requires Consistent(g, img, p) && BitmapByte(g, img, p).Some?
    ensures var at := BitmapByte(g, img, p).value;
            at < |img| && Injected(g, img, p)[at] == SetBit(img[at], (p.alloc - 2) % 8)
  {
    hide SetBit, EntrySet, Patch, Consistent, PlanFits, BitmapByte, Clear;
    Fits(g, img, p);
    AllocFits(g, img, p);
    BitmapByteClear(g, img, p);
    BitmapByteStays(g, img, img, p);
    var at := BitmapByte(g, img, p).value;
    BitmapByteStays(g, img, WithFat(g, img, p), p);
    var i0, i1, i2, i3 := img, WithData(g, img, p), WithFat(g, img, p), WithBitmap(g, img, p);
    PatchClear(i0, g.DataAt(p.alloc), CONTENT + Zeros(g.ClusterSize() - |CONTENT|), at, at + 1);
    PatchClear(i1, g.FatAt(p.alloc), [255, 255, 255, 255], at, at + 1);
    PatchClear(i3, g.DataAt(g.root) + ENTRY * p.insertAt, EntrySet(p.alloc), at, at + 1);
    assert i2[at] == i2[at..at + 1][0] == img[at];
    assert i3[at] == i3[at..at + 1][0] == SetBit(i2[at], (p.alloc - 2) % 8);
    assert Injected(g, img, p)[at] == Injected(g, img, p)[at..at + 1][0];
  }

  /** The bitmap byte gets the allocated cluster's bit, and keeps its other bits. */
  lemma BitmapMarked(g: Geometry, img: bytes, p: Plan, j: nat)
    requires PlanFor(g, img) == Some(p) && Mounted(g, img, p) && BitmapByte(g, img, p).Some?
    ensures PlanFits(g, img, p) && BitmapByte(g, img, p).value < |img|
    ensures var at := BitmapByte(g, img, p).value;
            Bit(Injected(g, img, p)[at], j) <==> j == (p.alloc - 2) % 8 || Bit(img[at], j)
  {
    hide PlanFor, Mounted, Bit, SetBit, Injected, BitmapByte, PlanFits, Consistent;
    PlanIsConsistent(g, img, p);
    Fits(g, img, p);
    BitmapByteIs(g, img, p);
    SetBitSets(img[BitmapByte(g, img, p).value], (p.alloc - 2) % 8, j);
  }
}

/** exFAT volumes as the reader sees them (internal/filesystem/exfat/exfat.go): FAT, clusters and directories. */
module Exfat {
  import opened Bytes
  import opened ClusterChain

  const EOC: nat := 0xFFFF_FFFF
  const BAD: nat := 0xFFFF_FFF7
  const ENTRY: nat := 32
  const MAX_SECONDARIES: nat := 18

  type pos = x: int | x > 0 witness 1

  /** The boot-sector fields that place FAT and clusters; the partition starts at sector 0 of the image. */
  datatype Geometry = Geometry(ss: pos, spc: pos, fatOffset: nat, heapOffset: nat, count: nat, root: nat) {
    function ClusterSize(): pos { ss * spc }

    /** Where the FAT entry of a cluster lies in the image. */
    function FatAt(c: nat): nat { fatOffset * ss + 4 * c }

    /** Where a cluster's data lies in the image. */
    function DataAt(c: nat): nat
      requires c >= 2
    {
      heapOffset * ss + (c - 2) * (ss * spc)
    }
  }

  /** fatEntry: the 32-bit entry of a cluster; its whole sector must be in the image. */
  function FatEntry(g: Geometry, img: bytes, c: nat): Option<nat> {
    if c < 2 || c > g.count + 1 || (g.fatOffset + 4 * c / g.ss + 1) * g.ss > |img| || g.FatAt(c) + 4 > |img| then None
    else Some(LE(img[g.FatAt(c)..g.FatAt(c) + 4]))
  }

  /** The data of a cluster, if all of it is in the image. */
  function ClusterData(g: Geometry, img: bytes, c: nat): (r: Option<bytes>)
    ensures r.Some? ==> |r.value| == g.ClusterSize()
  {
    if c < 2 || g.DataAt(c) + g.ClusterSize() > |img| then None
    else Some(img[g.DataAt(c)..g.DataAt(c) + g.ClusterSize()])
  }

  /** The image as a volume of cluster chains. */
  function VolumeOf(g: Geometry, img: bytes): (v: Volume)
    ensures Sound(v)
  {
    Volume(c => FatEntry(g, img, c), x => x == BAD, x => x == EOC, c => ClusterData(g, img, c), g.ClusterSize())
  }

  // ------------------------------------------------------------ directories

  datatype DirEntry = DirEntry(name: seq<nat>, isDir: bool, size: nat, cluster: nat)

  function EntryAt(data: bytes, i: nat): (e: bytes)
    requires ENTRY * (i + 1) <= |data|
    ensures |e| == ENTRY
  {
    data[ENTRY * i..ENTRY * (i + 1)]
  }

  function Entries(data: bytes): nat { |data| / ENTRY }

  /** collectSet: the secondaries of the entry at i are all in use and inside the buffer. */
  predicate SetComplete(data: bytes, i: nat, n: nat) {
    && 1 <= n <= MAX_SECONDARIES && i + n < Entries(data)
    && forall k :: i < k <= i + n ==> EntryAt(data, k)[0] >= 0x80
  }

  /** What the secondaries of a set say so far. */
  datatype SetInfo = SetInfo(stream: bool, nameLen: nat, cluster: nat, size: nat, units: seq<nat>)

  /** Name units of a file-name entry, up to a NUL. */
  function NameUnits(e: bytes, j: nat): seq<nat>
    requires |e| == ENTRY && j <= 15
    decreases 15 - j
  {
    if j == 15 || LE(e[2 + 2 * j..4 + 2 * j]) == 0 then [] else [LE(e[2 + 2 * j..4 + 2 * j])] + NameUnits(e, j + 1)
  }

  /** One secondary; None is an error. */
  function AddSecondary(s: SetInfo, e: bytes): Option<SetInfo>
    requires |e| == ENTRY
  {
    if e[0] == 0xC0 then
      if s.stream then None else Some(SetInfo(true, e[3], LE(e[20..24]), LE(e[24..32]), s.units))
    else if e[0] == 0xC1 then Some(s.(units := s.units + NameUnits(e, 0)))
    else None
  }

  function AddSecondaries(data: bytes, i: nat, end: nat, s: SetInfo): Option<SetInfo>
    requires end <= Entries(data)
    decreases end - i
  {
    if i >= end then Some(s)
    else match AddSecondary(s, EntryAt(data, i)) case None => None case Some(s') => AddSecondaries(data, i + 1, end, s')
  }

  const NO_INFO := SetInfo(false, 0, 0, 0, [])

  /** assembleSet: the file a complete set describes; None is an error. */
  function AssembleSet(data: bytes, i: nat, n: nat): Option<DirEntry>
    requires i + n < Entries(data)
  {
    match AddSecondaries(data, i + 1, i + 1 + n, NO_INFO)
    case None => None
    case Some(s) =>
      if !s.stream || s.units == [] || s.nameLen > |s.units| then None
      else Some(DirEntry(if s.nameLen > 0 then s.units[..s.nameLen] else s.units,
                         LE(EntryAt(data, i)[4..6]) / 16 % 2 == 1, s.size, s.cluster))
  }

  /** What the entry at i amounts to. */
  datatype Step = Stop | Skip | Error | Listed(d: DirEntry, size: nat)

  function StepAt(data: bytes, i: nat): (r: Step)
    requires i < Entries(data)
    ensures r.Listed? ==> 2 <= r.size && i + r.size <= Entries(data)
  {
    var t, n := EntryAt(data, i)[0], EntryAt(data, i)[1];
    if t == 0 || t == 1 then Stop
    else if t != 0x85 || n == 0 then Skip
    else if !SetComplete(data, i, n) then Error
    else match AssembleSet(data, i, n) case None => Error case Some(d) => Listed(d, n + 1)
  }

  /** parseDirectory from entry i on; None is an error. */
  function ParseFrom(data: bytes, i: nat): Option<seq<DirEntry>>
    decreases Entries(data) - i
  {
    if i >= Entries(data) then Some([])
    else
      match StepAt(data, i)
      case Stop => Some([])
      case Error => None
      case Skip => ParseFrom(data, i + 1)
      case Listed(d, size) => match ParseFrom(data, i + size) case None => None case Some(rest) => Some([d] + rest)
  }

  function Joined(found: seq<DirEntry>, rest: Option<seq<DirEntry>>): Option<seq<DirEntry>> {
    match rest case None => None case Some(r) => Some(found + r)
  }

  method ParseDirectory(data: bytes) returns (r: Option<seq<DirEntry>>)
    ensures r == ParseFrom(data, 0)
  {
    hide StepAt;
    var entries: seq<DirEntry>, i := [], 0;
    assert ParseFrom(data, 0).Some? ==> [] + ParseFrom(data, 0).value == ParseFrom(data, 0).value;
    while i < Entries(data)
      invariant i >= 0 && ParseFrom(data, 0) == Joined(entries, ParseFrom(data, i))
      decreases Entries(data) - i
    {
      match StepAt(data, i) {
        case Stop =>
          assert entries + [] == entries;
          return Some(entries);
        case Error => return None;
        case Skip => i := i + 1;
        case Listed(d, size) =>
          var rest := ParseFrom(data, i + size);
          if rest.Some? { AppendAssoc(entries, [d], rest.value); }
          entries := entries + [d];
          i := i + size;
      }
    }
    assert entries + [] == entries;
    r := Some(entries);
  }

  /** readDirectory of a directory that is one cluster long. */
  function RootListing(g: Geometry, img: bytes): Option<seq<DirEntry>> {
    match ClusterData(g, img, g.root)
    case None => None
    case Some(data) => if FatEntry(g, img, g.root) != Some(EOC) then None else ParseFrom(data, 0)
  }

  // ------------------------------------------------------------ adding behind the end

  /** The first end marker of a directory, of either kind. */
  ghost predicate EndsAt(data: bytes, k: nat) {
    k < Entries(data) && EntryAt(data, k)[0] <= 1 && forall i :: 0 <= i < k ==> EntryAt(data, i)[0] >= 2
  }

  ghost predicate SameUpTo(a: bytes, b: bytes, k: nat) {
    |a| == |b| && forall i :: 0 <= i < k && i < Entries(a) ==> EntryAt(a, i) == EntryAt(b, i)
  }

  lemma {:induction false} SameSecondaries(a: bytes, b: bytes, k: nat, i: nat, end: nat, s: SetInfo)
    requires SameUpTo(a, b, k) && end <= k && end <= Entries(a)
    ensures AddSecondaries(a, i, end, s) == AddSecondaries(b, i, end, s)
    decreases end - i
  {
    hide AddSecondary, EntryAt;
    if i < end && AddSecondary(s, EntryAt(a, i)).Some? {
      SameSecondaries(a, b, k, i + 1, end, AddSecondary(s, EntryAt(a, i)).value);
    }
  }

  /** In front of the end marker, a set that parses stays in front of it; both buffers agree there. */
  lemma SameStep(a: bytes, b: bytes, k: nat, i: nat)
    requires SameUpTo(a, b, k) && EndsAt(a, k) && i < k && !StepAt(a, i).Error?
    ensures StepAt(a, i) == StepAt(b, i) && StepAt(a, i) != Stop
    ensures StepAt(a, i).Listed? ==> i + StepAt(a, i).size <= k
  {
    hide AddSecondaries;
    var e := EntryAt(a, i);
    assert EntryAt(b, i) == e;
    var n := e[1];
    if e[0] == 0x85 && n > 0 {
      assert SetComplete(a, i, n) && EntryAt(a, k)[0] <= 1;
      assert i + n < k;
      SameSecondaries(a, b, k, i + 1, i + 1 + n, NO_INFO);
      forall j | i < j <= i + n ensures EntryAt(b, j)[0] >= 0x80 { assert EntryAt(a, j) == EntryAt(b, j); }
    }
  }

  /** Entries written over the end marker are parsed after everything that was listed before. */
  lemma {:induction false} ParseExtends(a: bytes, b: bytes, k: nat, i: nat)
    requires SameUpTo(a, b, k) && EndsAt(a, k) && i <= k && ParseFrom(a, i).Some?
    ensures ParseFrom(b, i) == Joined(ParseFrom(a, i).value, ParseFrom(b, k))
    decreases k - i
  {
    hide StepAt, EndsAt;
    var rest := ParseFrom(b, k);
    if i == k {
      AtEnd(a, k);
      assert rest.Some? ==> [] + rest.value == rest.value;
    } else {
      InFront(a, k);
      SameStep(a, b, k, i);
      match StepAt(a, i) {
        case Skip => ParseExtends(a, b, k, i + 1);
        case Listed(d, size) =>
          ParseExtends(a, b, k, i + size);
          if rest.Some? { AppendAssoc([d], ParseFrom(a, i + size).value, rest.value); }
      }
    }
  }

  lemma AtEnd(a: bytes, k: nat)
    requires EndsAt(a, k)
    ensures ParseFrom(a, k) == Some([])
  {
  }

  lemma InFront(a: bytes, k: nat)
    requires EndsAt(a, k)
    ensures k < Entries(a)
  {
  }
}

/**
 * NTFS data runs (internal/filesystem/ntfs): the run-list parser against an encoder, and the
 * streaming reader against the eager one.
 */
module NtfsRuns {
  import opened Bytes
  import opened Streaming

  const MAX_CLUSTERS: nat := 0x400_0000          // 1 << 26
  const MAX_FILE_BYTES: nat := 0x1_0000_0000     // 4 GiB
  const MAX_CLUSTER_SIZE: nat := 0x40_0000       // 1 << 22
  const WORD: nat := 0x1_0000_0000_0000_0000     // uint64 arithmetic wraps here

  datatype Run = Run(vcnStart: nat, lcnStart: int, length: nat)

  // ------------------------------------------------------------ the run-list parser

  /** The two's complement little-endian value of b. */
  function SignedLE(b: bytes): int {
    var v, m := LE(b), Pow256(|b|);
    if b != [] && v >= m / 2 then v - m else v
  }

  /** The guard before a run is accepted.  The difference is a uint64, so it wraps for huge lengths. */
  predicate TooMany(vcn: nat, length: nat) { vcn > (MAX_CLUSTERS - length) % WORD }

  /** The fields of the run at the head of the list: their widths, then the run's length and delta. */
  datatype Head = Head(size: nat, length: nat, sparse: bool, delta: int)

  function HeadOf(s: bytes): (r: Option<Head>)
    requires s != []
    ensures r.Some? ==> 0 < r.value.size <= |s|
  {
    var lenBytes, offBytes := s[0] % 16, s[0] / 16;
    var size: nat := 1 + lenBytes + offBytes;
    if lenBytes > 8 || offBytes > 8 || size > |s| then None
    else Some(Head(size, LE(s[1..1 + lenBytes]), offBytes == 0, SignedLE(s[1 + lenBytes..size])))
  }

  /** Runs from the head of s on; None is any error. */
  function ParseFrom(s: bytes, vcn: nat, lcn: int): Option<seq<Run>>
    decreases |s|
  {
    if s == [] then None
    else if s[0] == 0 then Some([])
    else
      match HeadOf(s)
      case None => None
      case Some(h) =>
        if h.length == 0 || TooMany(vcn, h.length) then None
        else
          var lcn' := if h.sparse then lcn else Int64(lcn + h.delta);
          var run := Run(vcn, if h.sparse then -1 else lcn', h.length);
          match ParseFrom(s[h.size..], (vcn + h.length) % WORD, lcn')
          case None => None
          case Some(rest) => Some([run] + rest)
  }

  function ParsedRuns(data: bytes): Option<seq<Run>> {
    match ParseFrom(data, 0, 0)
    case None => None
    case Some(runs) => if runs == [] then None else Some(runs)
  }

  function Prefixed(runs: seq<Run>, rest: Option<seq<Run>>): Option<seq<Run>> {
    match rest case None => None case Some(r) => Some(runs + r)
  }

  /** parseRuns. */
  method ParseRuns(data: bytes) returns (r: Option<seq<Run>>)
    ensures r == ParsedRuns(data)
  {
    hide ParseFrom, HeadOf, TooMany, Prefixed;
    var runs: seq<Run>, vcn: nat, prevLCN: int, off: nat := [], 0, 0, 0;
    assert data[0..] == data;
    PrefixedNothing(ParseFrom(data, 0, 0));
    while true
      invariant off <= |data|
      invariant ParseFrom(data, 0, 0) == Prefixed(runs, ParseFrom(data[off..], vcn, prevLCN))
      decreases |data| - off
    {
      ParseStep(data, off, vcn, prevLCN, runs);
      if off >= |data| { return None; }
      if data[off] == 0 { break; }
      var h := HeadOf(data[off..]);
      if h.None? || h.value.length == 0 || TooMany(vcn, h.value.length) { return None; }
      var lcn := -1;
      if !h.value.sparse {
        prevLCN := Int64(prevLCN + h.value.delta);
        lcn := prevLCN;
      }
      runs := runs + [Run(vcn, lcn, h.value.length)];
      vcn := (vcn + h.value.length) % WORD;
      off := off + h.value.size;
    }
    if |runs| == 0 { return None; }
    r := Some(runs);
  }

  lemma PrefixedNothing(rest: Option<seq<Run>>)
    ensures Prefixed([], rest) == rest
  {
    if rest.Some? { assert [] + rest.value == rest.value; }
  }

  /** One turn of the parser, with the runs found before it. */
  lemma ParseStep(data: bytes, off: nat, vcn: nat, lcn: int, runs: seq<Run>)
    requires off <= |data|
    ensures var all := Prefixed(runs, ParseFrom(data[off..], vcn, lcn));
            if off == |data| then all == None
            else if data[off] == 0 then all == Some(runs)
            else
              match HeadOf(data[off..])
              case None => all == None
              case Some(h) =>
                if h.length == 0 || TooMany(vcn, h.length) then all == None
                else
                  var lcn' := if h.sparse then lcn else Int64(lcn + h.delta);
                  && off + h.size <= |data|
                  && all == Prefixed(runs + [Run(vcn, if h.sparse then -1 else lcn', h.length)],
                                     ParseFrom(data[off + h.size..], (vcn + h.length) % WORD, lcn'))
  {
    hide HeadOf, TooMany;
    if off < |data| && data[off] == 0 {
      assert runs + [] == runs;
    } else if off < |data| && HeadOf(data[off..]).Some? {
      var h := HeadOf(data[off..]).value;
      assert data[off..][h.size..] == data[off + h.size..];
      var lcn' := if h.sparse then lcn else Int64(lcn + h.delta);
      var rest := ParseFrom(data[off + h.size..], (vcn + h.length) % WORD, lcn');
      if rest.Some? { AppendAssoc(runs, [Run(vcn, if h.sparse then -1 else lcn', h.length)], rest.value); }
    }
  }

  // ------------------------------------------------------------ an encoder

  /** A run as written: how wide its fields are, its length, and its distance from the previous one. */
  datatype RunSpec = RunSpec(lenWidth: nat, offWidth: nat, length: nat, delta: int)

  ghost predicate Encodable(s: RunSpec) {
    && 1 <= s.lenWidth <= 8 && s.offWidth <= 8 && 0 < s.length < Pow256(s.lenWidth)
    && (s.offWidth > 0 ==> -(Pow256(s.offWidth) / 2) <= s.delta < Pow256(s.offWidth) / 2)
  }

  function EncodeRun(s: RunSpec): bytes
    requires 1 <= s.lenWidth <= 8 && s.offWidth <= 8
  {
    [s.lenWidth + 16 * s.offWidth] + ToLE(s.length, s.lenWidth) + ToLE(s.delta % Pow256(s.offWidth), s.offWidth)
  }

  function EncodeRuns(ss: seq<RunSpec>): bytes
    requires forall s :: s in ss ==> 1 <= s.lenWidth <= 8 && s.offWidth <= 8
  {
    if ss == [] then [0] else EncodeRun(ss[0]) + EncodeRuns(ss[1..])
  }

  /** The runs a list means: each starts where the previous one ended, at the running sum of deltas. */
  function Meaning(ss: seq<RunSpec>, vcn: nat, lcn: int): seq<Run>
    decreases |ss|
  {
    if ss == [] then []
    else
      var lcn' := if ss[0].offWidth == 0 then lcn else lcn + ss[0].delta;
      [Run(vcn, if ss[0].offWidth == 0 then -1 else lcn', ss[0].length)] + Meaning(ss[1..], vcn + ss[0].length, lcn')
  }

  /** Few enough clusters in all, and running sums that an int64 holds. */
  ghost predicate Representable(ss: seq<RunSpec>, vcn: nat, lcn: int)
    decreases |ss|
  {
    ss == [] ||
    (var lcn' := if ss[0].offWidth == 0 then lcn else lcn + ss[0].delta;
     && Encodable(ss[0]) && vcn + ss[0].length <= MAX_CLUSTERS
     && -0x8000_0000_0000_0000 <= lcn' < 0x8000_0000_0000_0000
     && Representable(ss[1..], vcn + ss[0].length, lcn'))
  }

  lemma SignedRoundTrip(delta: int, w: nat)
    requires w > 0 && -(Pow256(w) / 2) <= delta < Pow256(w) / 2
    ensures SignedLE(ToLE(delta % Pow256(w), w)) == delta
  {
    var m := Pow256(w);
    ToLERoundTrip(delta % m, w);
    assert m == 256 * Pow256(w - 1);
    if delta >= 0 {
      DivModUnique(delta, m, 0, delta);
    } else {
      DivModUnique(delta, m, -1, delta + m);
    }
    DivModUnique(delta % m, m, 0, delta % m);
  }

  lemma HeadRoundTrip(s: RunSpec, rest: bytes)
    requires Encodable(s)
    ensures var b := EncodeRun(s) + rest;
            && b[0] != 0 && b[|EncodeRun(s)|..] == rest
            && HeadOf(b) ==
               Some(Head(|EncodeRun(s)|, s.length, s.offWidth == 0, if s.offWidth == 0 then 0 else s.delta))
  {
    hide LE, ToLE, Pow256, SignedLE;
    var b := EncodeRun(s) + rest;
    DivModUnique(b[0], 16, s.offWidth, s.lenWidth);
    ToLERoundTrip(s.length, s.lenWidth);
    DivModUnique(s.length, Pow256(s.lenWidth), 0, s.length);
    assert b[1..1 + s.lenWidth] == ToLE(s.length, s.lenWidth);
    assert b[1 + s.lenWidth..1 + s.lenWidth + s.offWidth] == ToLE(s.delta % Pow256(s.offWidth), s.offWidth);
    if s.offWidth > 0 { SignedRoundTrip(s.delta, s.offWidth); } else { NoDelta(); }
  }

  lemma NoDelta()
    ensures SignedLE([]) == 0
  {
  }

  lemma {:induction false} RunsRoundTrip(ss: seq<RunSpec>, rest: bytes, vcn: nat, lcn: int)
    requires (forall s :: s in ss ==> 1 <= s.lenWidth <= 8 && s.offWidth <= 8) && Representable(ss, vcn, lcn)
    ensures ParseFrom(EncodeRuns(ss) + rest, vcn, lcn) == Some(Meaning(ss, vcn, lcn))
    decreases |ss|
  {
    hide EncodeRun, HeadOf, Encodable, ParseFrom;
    if ss == [] {
      assert EncodeRuns(ss) + rest == [0] + rest;
      EndParsed(rest, vcn, lcn);
    } else {
      var s, tail := ss[0], EncodeRuns(ss[1..]) + rest;
      var lcn' := if s.offWidth == 0 then lcn else lcn + s.delta;
      AppendAssoc(EncodeRun(s), EncodeRuns(ss[1..]), rest);
      RunParsed(s, tail, vcn, lcn);
      RunsRoundTrip(ss[1..], rest, vcn + s.length, lcn');
    }
  }

  lemma EndParsed(rest: bytes, vcn: nat, lcn: int)
    ensures ParseFrom([0] + rest, vcn, lcn) == Some([])
  {
  }

  /** One encoded run in front of a list. */
  lemma RunParsed(s: RunSpec, tail: bytes, vcn: nat, lcn: int)
    requires Encodable(s) && vcn + s.length <= MAX_CLUSTERS
    requires s.offWidth > 0 ==> -0x8000_0000_0000_0000 <= lcn + s.delta < 0x8000_0000_0000_0000
    ensures var lcn' := if s.offWidth == 0 then lcn else lcn + s.delta;
            ParseFrom(EncodeRun(s) + tail, vcn, lcn) ==
            Prefixed([Run(vcn, if s.offWidth == 0 then -1 else lcn', s.length)],
                     ParseFrom(tail, vcn + s.length, lcn'))
  {
    hide EncodeRun, HeadOf, Encodable;
    LengthPositive(s);
    HeadRoundTrip(s, tail);
    SmallAccepted(vcn, s.length);
    var b := EncodeRun(s) + tail;
    assert b[HeadOf(b).value.size..] == tail;
  }

  lemma SmallAccepted(vcn: nat, length: nat)
    requires vcn + length <= MAX_CLUSTERS
    ensures !TooMany(vcn, length) && (vcn + length) % WORD == vcn + length
  {
  }

  lemma LengthPositive(s: RunSpec)
    requires Encodable(s)
    ensures s.length > 0 && 1 <= s.lenWidth <= 8 && s.offWidth <= 8
  {
  }

  /** Parsing an encoded run list gives its meaning, for every field width, signed delta and hole. */
  lemma RunListRoundTrip(ss: seq<RunSpec>, rest: bytes)
    requires ss != [] && (forall s :: s in ss ==> 1 <= s.lenWidth <= 8 && s.offWidth <= 8) && Representable(ss, 0, 0)
    ensures ParsedRuns(EncodeRuns(ss) + rest) == Some(Meaning(ss, 0, 0))
  {
    RunsRoundTrip(ss, rest, 0, 0);
  }

  // ------------------------------------------------------------ what parsed runs look like

  function Total(runs: seq<Run>): nat {
    if runs == [] then 0 else runs[0].length + Total(runs[1..])
  }

  /** Runs follow one another in the file without gap or overlap, starting at vcn. */
  ghost predicate Contiguous(runs: seq<Run>, vcn: nat)
    decreases |runs|
  {
    runs == [] || (runs[0].vcnStart == vcn && runs[0].length > 0 && Contiguous(runs[1..], vcn + runs[0].length))
  }

  ghost predicate NoHugeRun(runs: seq<Run>) {
    forall i :: 0 <= i < |runs| ==> runs[i].length <= MAX_CLUSTERS
  }

  lemma {:induction false} ParsedContiguous(s: bytes, vcn: nat, lcn: int)
    requires vcn <= MAX_CLUSTERS && ParseFrom(s, vcn, lcn).Some? && NoHugeRun(ParseFrom(s, vcn, lcn).value)
    ensures Contiguous(ParseFrom(s, vcn, lcn).value, vcn) && vcn + Total(ParseFrom(s, vcn, lcn).value) <= MAX_CLUSTERS
    decreases |s|
  {
    hide HeadOf;
    if s[0] != 0 {
      var runs := ParseFrom(s, vcn, lcn).value;
      var h := HeadOf(s).value;
      assert runs[0].length == h.length <= MAX_CLUSTERS;
      var lcn' := if h.sparse then lcn else Int64(lcn + h.delta);
      assert runs[1..] == ParseFrom(s[h.size..], vcn + h.length, lcn').value;
      assert NoHugeRun(runs[1..]) by {
        forall i | 0 <= i < |runs[1..]| ensures runs[1..][i].length <= MAX_CLUSTERS {
          assert runs[1..][i] == runs[i + 1];
        }
      }
      ParsedContiguous(s[h.size..], vcn + h.length, lcn');
    }
  }

  lemma {:induction false} TotalBounds(runs: seq<Run>, i: nat)
    requires i < |runs|
    ensures runs[i].length <= Total(runs)
  {
    if i > 0 { TotalBounds(runs[1..], i - 1); }
  }

  /** The run heads of a list, up to its end marker or the first one that is cut off. */
  function Heads(s: bytes): seq<Head>
    decreases |s|
  {
    if s == [] || s[0] == 0 then []
    else match HeadOf(s) case None => [] case Some(h) => [h] + Heads(s[h.size..])
  }

  /** The running sums of the deltas, in an int64. */
  function Places(hs: seq<Head>, lcn: int): (ps: seq<int>)
    ensures |ps| == |hs|
  {
    if hs == [] then []
    else var lcn' := if hs[0].sparse then lcn else Int64(lcn + hs[0].delta); [lcn'] + Places(hs[1..], lcn')
  }

  /** Parsed runs are the heads of the list, with the lengths written there, at the running sums. */
  lemma {:induction false} RunsAreHeads(s: bytes, vcn: nat, lcn: int)
    requires ParseFrom(s, vcn, lcn).Some?
    ensures var runs, hs := ParseFrom(s, vcn, lcn).value, Heads(s);
            && |runs| == |hs|
            && (forall i :: 0 <= i < |runs| ==> runs[i].length == hs[i].length)
            && (forall i :: 0 <= i < |runs| ==> runs[i].lcnStart == if hs[i].sparse then -1 else Places(hs, lcn)[i])
    decreases |s|
  {
    hide HeadOf, TooMany;
    if s[0] != 0 {
      var h := HeadOf(s).value;
      var lcn' := if h.sparse then lcn else Int64(lcn + h.delta);
      RunsAreHeads(s[h.size..], (vcn + h.length) % WORD, lcn');
      assert Heads(s)[1..] == Heads(s[h.size..]);
    }
  }

  /**
   * Parsed runs cover the file's clusters from 0 on without gap, within the limit, exactly when no length
   * written in the list is over the limit: the guard's subtraction wraps for such a length and lets it
   * through.
   */
  lemma RunsAreContiguous(data: bytes)
    requires ParsedRuns(data).Some?
    ensures (Contiguous(ParsedRuns(data).value, 0) && Total(ParsedRuns(data).value) <= MAX_CLUSTERS)
       <==> forall h :: h in Heads(data) ==> h.length <= MAX_CLUSTERS
  {
    hide ParseFrom, Heads;
    var runs, hs := ParsedRuns(data).value, Heads(data);
    RunsAreHeads(data, 0, 0);
    if forall h :: h in hs ==> h.length <= MAX_CLUSTERS { ParsedContiguous(data, 0, 0); }
    if Total(runs) <= MAX_CLUSTERS {
      forall i | 0 <= i < |hs| ensures hs[i].length <= MAX_CLUSTERS { TotalBounds(runs, i); }
    }
  }

  /** The runs without a place on disk are those written as holes. */
  ghost predicate AsWritten(runs: seq<Run>, hs: seq<Head>)
    requires |runs| == |hs|
  {
    forall i :: 0 <= i < |runs| ==> (runs[i].lcnStart < 0 <==> hs[i].sparse)
  }

  /**
   * A run is served as zeros without reading the disk if it was written as a hole; only then exactly
   * when no running sum is negative, because the sign of the place is all that marks a hole.
   */
  lemma HolesAreWritten(data: bytes)
    requires ParsedRuns(data).Some?
    ensures |ParsedRuns(data).value| == |Heads(data)|
    ensures AsWritten(ParsedRuns(data).value, Heads(data))
       <==> forall i :: 0 <= i < |Heads(data)| && !Heads(data)[i].sparse ==> Places(Heads(data), 0)[i] >= 0
  {
    hide ParseFrom, Heads, Places;
    RunsAreHeads(data, 0, 0);
    var runs, hs := ParsedRuns(data).value, Heads(data);
    if AsWritten(runs, hs) {
      forall i | 0 <= i < |hs| && !hs[i].sparse ensures Places(hs, 0)[i] >= 0 {
        assert runs[i].lcnStart == Places(hs, 0)[i];
      }
    }
  }

  /** One cluster at place -1: served as zeros although nothing on the disk can be read. */
  lemma NegativePlaceReadsZero()
    ensures var data: bytes, v := [0x11, 1, 255, 0], Volume(lcn => None, 512);
            && Heads(data) == [Head(3, 1, false, -1)]
            && ParsedRuns(data) == Some([Run(0, -1, 1)])
            && Content(v, [Run(0, -1, 1)], 512) == Some(Zeros(512))
  {
    var data: bytes, tail: bytes, v := [0x11, 1, 255, 0], [0], Volume(lcn => None, 512);
    assert data[1..2] == [1] && data[2..3] == [255] && data[3..] == tail;
    OneByte(1);
    OneByte(255);
    assert HeadOf(data) == Some(Head(3, 1, false, -1));
    assert Heads(tail) == [] && ParseFrom(tail, 1, -1) == Some([]);
    assert !TooMany(0, 1) && Int64(-1) == -1;
    var run := Run(0, -1, 1);
    assert [run] + [] == [run] && [run][1..] == [];
    var zeros: bytes := Zeros(512);
    assert AllTaken(512, [run]) == [run];
    assert Blocks(v, [run]) == [Some(zeros)] + Blocks(v, []);
    assert zeros[..512] + [] == zeros;
    assert Gather([Some(zeros)][1..], 0) == Some([]);
  }

  lemma OneByte(b: byte)
    ensures LE([b]) == b && SignedLE([b]) == if b >= 128 then b - 256 else b
  {
    var one: bytes := [b];
    assert one[1..] == [] && Pow256(1) == 256 * Pow256(0);
  }

  /** A run list the guard should refuse: one run of 2^32 clusters. */
  lemma HugeRunAccepted()
    ensures var data: bytes := [0x15, 0, 0, 0, 0, 1, 0, 0];
            ParsedRuns(data) == Some([Run(0, 0, 0x1_0000_0000)])
  {
    var data: bytes := [0x15, 0, 0, 0, 0, 1, 0, 0];
    assert data[1..6] == [0, 0, 0, 0, 1] && data[6..7] == [0];
    FiveBytes();
    assert HeadOf(data) == Some(Head(7, 0x1_0000_0000, false, 0));
    assert data[7..] == [0];
    assert ParseFrom([0], 0x1_0000_0000, 0) == Some([]);
    assert !TooMany(0, 0x1_0000_0000);
    var run := [Run(0, 0, 0x1_0000_0000)];
    assert run + [] == run;
  }

  lemma FiveBytes()
    ensures LE([0, 0, 0, 0, 1]) == 0x1_0000_0000 && SignedLE([0]) == 0
  {
    var a: bytes, b: bytes, c: bytes, d: bytes := [0, 0, 0, 0, 1], [0, 0, 0, 1], [0, 0, 1], [0, 1];
    assert a[1..] == b && b[1..] == c && c[1..] == d && d[1..] == [1];
    var e: bytes := [1];
    assert e[1..] == [] && LE(e) == 1 && LE(d) == 256 && LE(c) == 0x1_0000 && LE(b) == 0x100_0000;
  }

  // ------------------------------------------------------------ file content

  /** The volume: what reading one cluster at an LCN gives, and the cluster size. */
  datatype Volume = Volume(read: int -> Option<bytes>, clusterSize: nat)

  /** Cluster sizes the mount accepts: powers of two up to 4 MiB, so they divide 2^64. */
  predicate ClusterSizeOk(k: nat) { 0 < k <= MAX_CLUSTER_SIZE && WORD % k == 0 }

  ghost predicate Sound(v: Volume) {
    ClusterSizeOk(v.clusterSize) && forall lcn :: v.read(lcn).Some? ==> |v.read(lcn).value| == v.clusterSize
  }

  /** Where a cluster of a file comes from. */
  datatype Source = Hole | At(lcn: int)

  /** Cluster i of a run; a run without a place on disk is all zeros. */
  function SourceOf(r: Run, i: nat): Source {
    if r.lcnStart < 0 then Hole else At(Int64(r.lcnStart + i))
  }

  /** What a source gives; a negative LCN is an error. */
  function ReadSource(v: Volume, s: Source): Option<bytes> {
    match s case Hole => Some(Zeros(v.clusterSize)) case At(lcn) => if lcn < 0 then None else v.read(lcn)
  }

  function RunCluster(v: Volume, r: Run, i: nat): Option<bytes> { ReadSource(v, SourceOf(r, i)) }

  function RunBlocks(v: Volume, r: Run): (bs: seq<Option<bytes>>)
    ensures |bs| == r.length
  {
    seq(r.length, i requires 0 <= i < r.length => RunCluster(v, r, i))
  }

  /** All clusters of some runs, in order. */
  function Blocks(v: Volume, runs: seq<Run>): (bs: seq<Option<bytes>>)
    ensures |bs| == Total(runs)
  {
    if runs == [] then [] else RunBlocks(v, runs[0]) + Blocks(v, runs[1..])
  }

  /** The cluster count the eager reader accepts; its guard wraps like the parser's. */
  predicate CountAccepted(runs: seq<Run>, before: nat) {
    runs == [] || (!TooMany(before, runs[0].length) && CountAccepted(runs[1..], (before + runs[0].length) % WORD))
  }

  /** As much of a run as the eager reader takes: the byte count of a hole is a uint64. */
  function Taken(k: nat, r: Run): Run
    requires k > 0
  {
    if r.lcnStart < 0 then r.(length := r.length * k % WORD / k) else r
  }

  function AllTaken(k: nat, runs: seq<Run>): (ts: seq<Run>)
    requires k > 0
    ensures |ts| == |runs|
  {
    seq(|runs|, i requires 0 <= i < |runs| => Taken(k, runs[i]))
  }

  /** What the guards of readNonResident let through; its sums and products are uint64s. */
  predicate SizeAccepted(k: nat, runs: seq<Run>, size: nat) {
    k > 0 && size <= MAX_FILE_BYTES && CountAccepted(runs, 0) && Total(runs) * k % WORD >= size
  }

  /** readNonResident's content; None is any error. */
  function Content(v: Volume, runs: seq<Run>, size: nat): Option<bytes> {
    if size == 0 then Some([])
    else if !SizeAccepted(v.clusterSize, runs, size) then None
    else
      match Gather(Blocks(v, AllTaken(v.clusterSize, runs)), size)
      case None => None
      case Some(out) => if |out| != size then None else Some(out)
  }

  /** runAt: the first run that maps a cluster of the file; a run's end is a uint64. */
  function RunAt(runs: seq<Run>, vcn: nat): (r: Option<Run>)
    ensures r.Some? ==> r.value.vcnStart <= vcn
  {
    if runs == [] then None
    else if runs[0].vcnStart <= vcn < (runs[0].vcnStart + runs[0].length) % WORD then Some(runs[0])
    else RunAt(runs[1..], vcn)
  }

  /** Where the streaming reader finds cluster i of the file. */
  function LazySource(runs: seq<Run>, i: nat): Option<Source> {
    match RunAt(runs, i) case None => None case Some(r) => Some(SourceOf(r, i - r.vcnStart))
  }

  /** Where cluster i of some runs comes from when they are taken one after the other. */
  function SourceAt(runs: seq<Run>, i: nat): Option<Source> {
    if runs == [] then None
    else if i < runs[0].length then Some(SourceOf(runs[0], i))
    else SourceAt(runs[1..], i - runs[0].length)
  }

  /** Where the eager reader takes cluster i of the file from. */
  function EagerSource(k: nat, runs: seq<Run>, i: nat): Option<Source>
    requires k > 0
  {
    SourceAt(AllTaken(k, runs), i)
  }

  /** Both readers take every cluster of the file from the same place. */
  ghost predicate SameSources(k: nat, runs: seq<Run>, size: nat)
    requires k > 0
  {
    forall i :: 0 <= i && InFile(k, i, size) ==> EagerSource(k, runs, i) == LazySource(runs, i)
  }

  predicate InFile(k: nat, i: nat, size: nat) { i * k < size }

  /** Cluster i of the file as the streaming reader finds it. */
  function ClusterAt(v: Volume, runs: seq<Run>, i: nat): Option<bytes> {
    match LazySource(runs, i) case None => None case Some(s) => ReadSource(v, s)
  }

  /** The piece the streaming reader copies at offset o. */
  function Piece(v: Volume, runs: seq<Run>, o: nat, t: nat): Option<bytes> {
    if v.clusterSize == 0 then None
    else RestOfBlock(ClusterAt(v, runs, o / v.clusterSize), o % v.clusterSize, t)
  }

  function Pieces(v: Volume, runs: seq<Run>): (nat, nat) -> Option<bytes> { (o: nat, t: nat) => Piece(v, runs, o, t) }

  lemma {:induction false} BlockIsSource(v: Volume, runs: seq<Run>, i: nat)
    requires i < Total(runs)
    ensures SourceAt(runs, i).Some? && Blocks(v, runs)[i] == ReadSource(v, SourceAt(runs, i).value)
    decreases |runs|
  {
    hide ReadSource, SourceOf;
    if i >= runs[0].length { BlockIsSource(v, runs[1..], i - runs[0].length); }
  }

  lemma {:induction false} NoSource(runs: seq<Run>, i: nat)
    ensures SourceAt(runs, i).Some? <==> i < Total(runs)
    decreases |runs|
  {
    hide SourceOf;
    if runs != [] && i >= runs[0].length { NoSource(runs[1..], i - runs[0].length); }
  }

  /** The run lookup finds the place that cluster has when the runs are taken one after the other. */
  lemma {:induction false} LookupFindsBlock(runs: seq<Run>, start: nat, vcn: nat)
    requires Contiguous(runs, start) && start <= vcn && start + Total(runs) < WORD
    ensures LazySource(runs, vcn) == SourceAt(runs, vcn - start)
    decreases |runs|
  {
    hide SourceOf;
    if runs != [] {
      SmallEnd(start + runs[0].length);
      if vcn >= start + runs[0].length { LookupFindsBlock(runs[1..], start + runs[0].length, vcn); }
    }
  }

  lemma SmallEnd(x: nat)
    requires x < WORD
    ensures x % WORD == x
  {
  }

  lemma {:induction false} BlocksEven(v: Volume, runs: seq<Run>)
    requires Sound(v)
    ensures Even(Blocks(v, runs), v.clusterSize)
  {
    if runs != [] { BlocksEven(v, runs[1..]); }
  }

  /**
   * Streaming agrees with reading at once: whenever the eager reader gives a content, and takes the clusters
   * from where the lookup finds them, every piece is given and is that content's, holes reading as zero.
   */
  lemma StreamingServesContent(v: Volume, runs: seq<Run>, size: nat)
    requires Sound(v) && SameSources(v.clusterSize, runs, size) && Content(v, runs, size).Some?
    ensures |Content(v, runs, size).value| == size
    ensures PieceServes(Content(v, runs, size).value, Pieces(v, runs))
  {
    hide Blocks, Gather, SameSources, Total, Piece, Even, SizeAccepted;
    forall o: nat, t: nat | 0 < t && o + t <= size
      ensures var p := Piece(v, runs, o, t);
              && p.Some? && 0 < |p.value| <= t
              && p.value == Content(v, runs, size).value[o..o + |p.value|]
    {
      PieceOfContent(v, runs, size, o, t);
    }
  }

  lemma ContentGathered(v: Volume, runs: seq<Run>, size: nat)
    requires size > 0 && Content(v, runs, size).Some?
    ensures v.clusterSize > 0
    ensures Gather(Blocks(v, AllTaken(v.clusterSize, runs)), size) == Content(v, runs, size)
    ensures |Content(v, runs, size).value| == size
  {
    hide Gather, Blocks, AllTaken;
  }

  /** A piece of the content is what is left of the eager reader's cluster there. */
  lemma BlockOfContent(v: Volume, runs: seq<Run>, size: nat, o: nat, t: nat, i: nat, w: nat)
    requires Sound(v) && Content(v, runs, size).Some? && |Content(v, runs, size).value| == size
    requires 0 < t && o + t <= size && i == o / v.clusterSize && w == o % v.clusterSize
    ensures EagerSource(v.clusterSize, runs, i).Some?
    ensures var s := EagerSource(v.clusterSize, runs, i).value;
            var p := RestOfBlock(ReadSource(v, s), w, t);
            p.Some? && 0 < |p.value| <= t && p.value == Content(v, runs, size).value[o..o + |p.value|]
  {
    hide Content, Blocks, Gather, Total, ReadSource, SourceAt, Even, RestOfBlock, AllTaken;
    var taken := AllTaken(v.clusterSize, runs);
    ContentGathered(v, runs, size);
    BlocksEven(v, taken);
    GatherBound(Blocks(v, taken), v.clusterSize, size);
    BlockServes(Blocks(v, taken), v.clusterSize, size, o, t, i, w);
    BlockIsSource(v, taken, i);
  }

  lemma {:induction false} GatherBound(blocks: seq<Option<bytes>>, k: nat, n: nat)
    requires Even(blocks, k) && Gather(blocks, n).Some?
    ensures |Gather(blocks, n).value| <= |blocks| * k
    decreases |blocks|
  {
    if n > 0 && blocks != [] {
      GatherBound(blocks[1..], k, n - Min(k, n));
      MulAdd(|blocks| - 1, 1, k);
    }
  }

  lemma PieceOfContent(v: Volume, runs: seq<Run>, size: nat, o: nat, t: nat)
    requires Sound(v) && SameSources(v.clusterSize, runs, size) && Content(v, runs, size).Some?
    requires |Content(v, runs, size).value| == size && 0 < t && o + t <= size
    ensures var p := Piece(v, runs, o, t);
            p.Some? && 0 < |p.value| <= t && p.value == Content(v, runs, size).value[o..o + |p.value|]
  {
    hide Content, EagerSource, LazySource, ReadSource, RestOfBlock, InFile;
    var k := v.clusterSize;
    BlockOfContent(v, runs, size, o, t, o / k, o % k);
    StartsInFile(k, o, size);
    assert EagerSource(k, runs, o / k) == LazySource(runs, o / k);
  }

  lemma StartsInFile(k: nat, o: nat, size: nat)
    requires k > 0 && o < size
    ensures InFile(k, o / k, size)
  {
    assert o == o / k * k + o % k;
  }

  function ClustersOf(v: Volume, runs: seq<Run>): nat -> Option<bytes> { i => ClusterAt(v, runs, i) }

  /** Real bytes or an error, for any runs and whatever else cannot be read. */
  lemma StreamingHonest(v: Volume, runs: seq<Run>, size: nat)
    requires Sound(v)
    ensures RealOrFailed(size, ClustersOf(v, runs), v.clusterSize, Pieces(v, runs))
  {
    hide RestOfBlock, RealOrFailed, LazySource;
    FromBlocksReal(size, ClustersOf(v, runs), v.clusterSize, Pieces(v, runs));
  }

  /**
   * Opening a file for streaming: every read of the result gives bytes of the clusters that can be read
   * or an error, and all of the content the eager reader gives when it gives one from the same places.
   */
  method OpenStream(v: Volume, runs: seq<Run>, size: nat) returns (r: StreamReader)
    requires Sound(v)
    ensures fresh(r) && r.size == size && r.pos == 0 && PieceBounded(r.size, r.piece)
    ensures RealOrFailed(size, ClustersOf(v, runs), v.clusterSize, r.piece)
    ensures SameSources(v.clusterSize, runs, size) && Content(v, runs, size).Some? ==>
              |Content(v, runs, size).value| == size && PieceServes(Content(v, runs, size).value, r.piece)
  {
    hide Content, SameSources, ClusterAt, RealOrFailed, PieceServes;
    r := new StreamReader(size, Pieces(v, runs));
    StreamingHonest(v, runs, size);
    if SameSources(v.clusterSize, runs, size) && Content(v, runs, size).Some? {
      StreamingServesContent(v, runs, size);
    }
  }

  // ------------------------------------------------------------ exactly when

  /** The eager reader can succeed: its guards let the runs through, and no cluster has a negative LCN. */
  ghost predicate Takeable(k: nat, runs: seq<Run>, size: nat)
    requires k > 0
  {
    && SizeAccepted(k, runs, size)
    && forall i :: 0 <= i && InFile(k, i, size) ==> Fetchable(EagerSource(k, runs, i))
  }

  predicate Fetchable(s: Option<Source>) { s.Some? && (s.value.At? ==> s.value.lcn >= 0) }

  /** A volume on which one cluster is full of ones, and all others of zeros. */
  function Marked(k: nat, lcn: int): Volume {
    Volume((x: int) => Some(seq(k, _ => if x == lcn then 1 else 0)), k)
  }

  lemma {:induction false} MarkedGathers(k: nat, lcn: int, runs: seq<Run>, size: nat)
    requires k > 0 && forall i :: 0 <= i && InFile(k, i, size) ==> Fetchable(SourceAt(runs, i))
    ensures Gather(Blocks(Marked(k, lcn), runs), size).Some?
    ensures |Gather(Blocks(Marked(k, lcn), runs), size).value| == size
  {
    hide Blocks, Marked, ReadSource, SourceAt, InFile;
    var v := Marked(k, lcn);
    forall i | 0 <= i < |Blocks(v, runs)| && InFile(k, i, size)
      ensures Blocks(v, runs)[i].Some? && |Blocks(v, runs)[i].value| == k
    {
      BlockIsSource(v, runs, i);
      MarkedRead(k, lcn, SourceAt(runs, i));
    }
    if size > 0 {
      var last := (size - 1) / k;
      StartsInFile(k, size - 1, size);
      NoSource(runs, last);
      NextMultiple(k, size);
      MulLe(last + 1, Total(runs), k);
    }
    AllGathered(Blocks(v, runs), k, size);
  }

  lemma NextMultiple(k: nat, size: nat)
    requires k > 0 && size > 0
    ensures size <= ((size - 1) / k + 1) * k
  {
    assert size - 1 == (size - 1) / k * k + (size - 1) % k;
    MulAdd((size - 1) / k, 1, k);
  }

  lemma MarkedRead(k: nat, lcn: int, s: Option<Source>)
    requires Fetchable(s)
    ensures var d := ReadSource(Marked(k, lcn), s.value);
            && d.Some? && |d.value| == k
            && forall j :: 0 <= j < k ==> d.value[j] == if s.value == At(lcn) then 1 else 0
  {
  }

  /** Blocks that are there as far as they are needed can be gathered. */
  lemma {:induction false} AllGathered(blocks: seq<Option<bytes>>, k: nat, n: nat)
    requires k > 0 && n <= |blocks| * k
    requires forall i :: 0 <= i < |blocks| && InFile(k, i, n) ==> blocks[i].Some? && |blocks[i].value| == k
    ensures Gather(blocks, n).Some? && |Gather(blocks, n).value| == n
    decreases |blocks|
  {
    hide InFile;
    if n > 0 {
      FirstInFile(k, n);
      var rest, m := blocks[1..], n - Min(k, n);
      MulAdd(|blocks| - 1, 1, k);
      forall i | 0 <= i < |rest| && InFile(k, i, m) ensures rest[i].Some? && |rest[i].value| == k {
        LaterInFile(k, i, n);
        assert rest[i] == blocks[i + 1];
      }
      AllGathered(rest, k, m);
    }
  }

  lemma FirstInFile(k: nat, n: nat)
    requires n > 0
    ensures InFile(k, 0, n)
  {
  }

  lemma LaterInFile(k: nat, i: nat, n: nat)
    requires InFile(k, i, n - Min(k, n))
    ensures InFile(k, i + 1, n)
  {
    MulAdd(i, 1, k);
    MulLe(0, i, k);
  }

  lemma MarkedContent(k: nat, lcn: int, runs: seq<Run>, size: nat)
    requires ClusterSizeOk(k) && Takeable(k, runs, size)
    ensures Sound(Marked(k, lcn)) && Content(Marked(k, lcn), runs, size).Some?
    ensures |Content(Marked(k, lcn), runs, size).value| == size
  {
    hide Gather, Blocks, AllTaken, SizeAccepted, InFile, Fetchable, SourceAt;
    MarkedGathers(k, lcn, AllTaken(k, runs), size);
  }

  /** A cluster that the readers take from different places shows on a volume that marks one of them. */
  lemma SourcesShow(k: nat, runs: seq<Run>, size: nat, i: nat)
    requires ClusterSizeOk(k) && Takeable(k, runs, size) && InFile(k, i, size)
    requires EagerSource(k, runs, i) != LazySource(runs, i)
    ensures var e := EagerSource(k, runs, i).value;
            var lcn := if e.At? then e.lcn else if LazySource(runs, i).Some? && LazySource(runs, i).value.At?
                                                then LazySource(runs, i).value.lcn else 0;
            var v := Marked(k, lcn);
            Sound(v) && Content(v, runs, size).Some? && !PieceServes(Content(v, runs, size).value, Pieces(v, runs))
  {
    hide Content, EagerSource, LazySource, ReadSource, RestOfBlock, SizeAccepted;
    var e, z := EagerSource(k, runs, i), LazySource(runs, i);
    var lcn := if e.value.At? then e.value.lcn else if z.Some? && z.value.At? then z.value.lcn else 0;
    var v, o := Marked(k, lcn), i * k;
    MarkedContent(k, lcn, runs, size);
    DivModUnique(o, k, i, 0);
    BlockOfContent(v, runs, size, o, 1, i, 0);
    MarkedRead(k, lcn, e);
    FirstByte(v, e.value, k);
    var piece, content := Pieces(v, runs), Content(v, runs, size).value;
    if Fetchable(z) {
      MarkedRead(k, lcn, z);
      FirstByte(v, z.value, k);
      assert piece(o, 1).value[0] != content[o..o + 1][0];
    } else {
      NotFetched(v, z);
      assert piece(o, 1) == None;
    }
  }

  lemma FirstByte(v: Volume, s: Source, k: nat)
    requires ReadSource(v, s).Some? && |ReadSource(v, s).value| == k > 0
    ensures RestOfBlock(ReadSource(v, s), 0, 1) == Some(ReadSource(v, s).value[0..1])
  {
  }

  lemma NotFetched(v: Volume, s: Option<Source>)
    requires !Fetchable(s)
    ensures s.Some? ==> ReadSource(v, s.value) == None
    ensures RestOfBlock(None, 0, 1) == None
  {
  }

  /**
   * On every volume the streaming reader serves whatever the eager one gives, exactly when the eager one
   * cannot succeed or takes each cluster of the file from where the lookup finds it.
   */
  lemma ReadersAgree(k: nat, runs: seq<Run>, size: nat)
    requires ClusterSizeOk(k)
    ensures (forall v: Volume :: Sound(v) && v.clusterSize == k && Content(v, runs, size).Some? ==>
               PieceServes(Content(v, runs, size).value, Pieces(v, runs)))
       <==> (Takeable(k, runs, size) ==> SameSources(k, runs, size))
  {
    hide Content, PieceServes, Pieces, Sound, SizeAccepted, EagerSource, LazySource, InFile, Fetchable;
    if Takeable(k, runs, size) && !SameSources(k, runs, size) {
      var i :| 0 <= i && InFile(k, i, size) && EagerSource(k, runs, i) != LazySource(runs, i);
      SourcesShow(k, runs, size, i);
    } else {
      forall v: Volume | Sound(v) && v.clusterSize == k && Content(v, runs, size).Some?
        ensures PieceServes(Content(v, runs, size).value, Pieces(v, runs))
      {
        if size > 0 { ContentTaken(v, runs, size); } else { NothingInFile(k, runs); }
        StreamingServesContent(v, runs, size);
      }
    }
  }

  lemma NothingInFile(k: nat, runs: seq<Run>)
    requires k > 0
    ensures SameSources(k, runs, 0)
  {
    forall i | 0 <= i ensures !InFile(k, i, 0) { MulLe(0, i, k); }
  }

  /** A reader that succeeded could. */
  lemma ContentTaken(v: Volume, runs: seq<Run>, size: nat)
    requires Sound(v) && Content(v, runs, size).Some? && size > 0
    ensures Takeable(v.clusterSize, runs, size)
  {
    hide EagerSource, ReadSource, RestOfBlock, Gather, Blocks, AllTaken, Total, CountAccepted;
    var k := v.clusterSize;
    forall i | 0 <= i && InFile(k, i, size) ensures Fetchable(EagerSource(k, runs, i)) {
      DivModUnique(i * k, k, i, 0);
      BlockOfContent(v, runs, size, i * k, 1, i, 0);
      Fetched(v, EagerSource(k, runs, i));
    }
  }

  lemma Fetched(v: Volume, s: Option<Source>)
    requires s.Some? && RestOfBlock(ReadSource(v, s.value), 0, 1).Some?
    ensures Fetchable(s)
  {
  }

  /** Without a run over the limit nothing wraps, and the readers agree. */
  lemma SmallRunsAgree(data: bytes, k: nat, size: nat)
    requires ParsedRuns(data).Some? && ClusterSizeOk(k) && forall h :: h in Heads(data) ==> h.length <= MAX_CLUSTERS
    ensures SameSources(k, ParsedRuns(data).value, size)
  {
    hide ParsedRuns, Heads, Contiguous, Total, AllTaken, LazySource, InFile;
    var runs := ParsedRuns(data).value;
    RunsAreContiguous(data);
    AllTakenWhole(k, runs);
    forall i | 0 <= i && InFile(k, i, size) ensures EagerSource(k, runs, i) == LazySource(runs, i) {
      LookupFindsBlock(runs, 0, i);
    }
  }

  lemma AllTakenWhole(k: nat, runs: seq<Run>)
    requires ClusterSizeOk(k) && Total(runs) <= MAX_CLUSTERS
    ensures AllTaken(k, runs) == runs
  {
    forall i | 0 <= i < |runs| ensures Taken(k, runs[i]) == runs[i] {
      TotalBounds(runs, i);
      TakenWhole(k, runs[i]);
    }
  }

  lemma TakenWhole(k: nat, r: Run)
    requires ClusterSizeOk(k) && r.length <= MAX_CLUSTERS
    ensures Taken(k, r) == r
  {
    var n := r.length;
    MulLe(n, MAX_CLUSTERS, k);
    MulLe(k, MAX_CLUSTER_SIZE, MAX_CLUSTERS);
    SmallEnd(n * k);
    DivModUnique(n * k, k, n, 0);
  }

  /** A hole of 2^52 + 1 clusters of 4096 bytes, and a data run behind it. */
  const LONG_HOLE: seq<Run> := [Run(0, -1, 0x10_0000_0000_0001), Run(0x10_0000_0000_0001, 0, 0x100_0000_0000)]

  /** It is a run list the parser gives. */
  lemma LongHoleParsed()
    ensures exists data :: ParsedRuns(data) == Some(LONG_HOLE)
  {
    hide EncodeRun, Pow256;
    var a, b := RunSpec(7, 0, 0x10_0000_0000_0001, 0), RunSpec(6, 1, 0x100_0000_0000, 0);
    Widths();
    var tail := EncodeRun(b) + [0];
    HeadRoundTrip(a, tail);
    HeadRoundTrip(b, [0]);
    LongHoleSteps(EncodeRun(a) + tail, tail, |EncodeRun(a)|, |EncodeRun(b)|);
    assert ParsedRuns(EncodeRun(a) + tail) == Some(LONG_HOLE);
  }

  lemma Widths()
    ensures Pow256(1) == 256 && Pow256(6) == 0x1_0000_0000_0000 && Pow256(7) == 0x100_0000_0000_0000
  {
    assert Pow256(3) == 0x100_0000;
  }

  lemma LongHoleSteps(data: bytes, tail: bytes, a: nat, b: nat)
    requires |data| > a > 0 && data[a..] == tail && |tail| > b > 0 && tail[b..] == [0]
    requires data[0] != 0 && HeadOf(data) == Some(Head(a, 0x10_0000_0000_0001, true, 0))
    requires tail[0] != 0 && HeadOf(tail) == Some(Head(b, 0x100_0000_0000, false, 0))
    ensures ParsedRuns(data) == Some(LONG_HOLE)
  {
    hide HeadOf;
    var first, second := LONG_HOLE[0], LONG_HOLE[1];
    assert ParseFrom([0], (second.vcnStart + second.length) % WORD, 0) == Some([]);
    assert ParseFrom(tail, second.vcnStart, 0) == Some([second] + []) && [second] + [] == [second];
    assert ParseFrom(data, 0, 0) == Some([first] + [second]) && [first] + [second] == LONG_HOLE;
  }

  /** Its byte count wraps to one cluster, so the eager reader has data where the streaming one has zeros. */
  lemma LongHoleDiffers()
    ensures EagerSource(4096, LONG_HOLE, 1) == Some(At(0)) && LazySource(LONG_HOLE, 1) == Some(Hole)
    ensures Takeable(4096, LONG_HOLE, 8192) && !SameSources(4096, LONG_HOLE, 8192)
  {
    var first, second := LONG_HOLE[0], LONG_HOLE[1];
    var taken := AllTaken(4096, LONG_HOLE);
    assert taken[0] == Run(0, -1, 1) && taken[1] == second && taken[1..][0] == second;
    assert LONG_HOLE[1..] == [second] && [second][1..] == [];
    assert EagerSource(4096, LONG_HOLE, 0) == Some(Hole);
    assert InFile(4096, 1, 8192);
    assert CountAccepted(LONG_HOLE[1..], first.length);
    assert Total(LONG_HOLE) == first.length + second.length;
  }

  /** A whole run of zero clusters is appended in one go. */
  lemma {:induction false} HoleGathered(k: nat, len: nat, rest: seq<Option<bytes>>, n: nat)
    requires k > 0
    ensures var hole := seq(len, _ => Some(Zeros(k)));
            Gather(hole + rest, n) == Behind(Zeros(Min(len * k, n)), Gather(rest, n - Min(len * k, n)))
    decreases len
  {
    var hole: seq<Option<bytes>> := seq(len, _ => Some(Zeros(k)));
    if len == 0 {
      assert hole + rest == rest;
      BehindNothing(Gather(rest, n));
    } else if n == 0 {
      GatherNone(rest);
      assert Zeros(0) + [] == [];
    } else {
      var shorter: seq<Option<bytes>> := seq(len - 1, _ => Some(Zeros(k)));
      assert (hole + rest)[1..] == shorter + rest;
      var take := Min(k, n);
      MulAdd(len - 1, 1, k);
      HoleGathered(k, len - 1, rest, n - take);
      ZerosJoin(take, Min((len - 1) * k, n - take));
      HoleStep(k, Zeros(Min((len - 1) * k, n - take)), take, Gather(rest, n - Min(len * k, n)));
    }
  }

  lemma HoleStep(k: nat, zeros: bytes, take: nat, rest: Option<bytes>)
    requires take <= k
    ensures Zeros(k)[..take] == Zeros(take)
    ensures rest.Some? ==> Zeros(k)[..take] + (zeros + rest.value) == Zeros(take) + zeros + rest.value
  {
    if rest.Some? { AppendAssoc(Zeros(take), zeros, rest.value); }
    assert Zeros(k)[..take] == Zeros(take);
  }

  lemma ZerosJoin(a: nat, b: nat)
    ensures Zeros(a) + Zeros(b) == Zeros(a + b)
  {
  }

  /** The whole count of clusters as a uint64, with the guard as the loop evaluates it. */
  method CountClusters(runs: seq<Run>) returns (ok: bool, total: nat)
    ensures ok == CountAccepted(runs, 0) && (ok ==> total == Total(runs) % WORD)
  {
    total := 0;
    assert runs[0..] == runs;
    for i := 0 to |runs|
      invariant CountAccepted(runs, 0) == CountAccepted(runs[i..], total)
      invariant (total + Total(runs[i..])) % WORD == Total(runs) % WORD
    {
      assert runs[i..][1..] == runs[i + 1..];
      if TooMany(total, runs[i].length) { return false, 0; }
      ModAdd(total + runs[i].length, Total(runs[i + 1..]));
      total := (total + runs[i].length) % WORD;
    }
    ok := true;
    total := total % WORD;
  }

  lemma ModAdd(x: nat, y: nat)
    ensures (x % WORD + y) % WORD == (x + y) % WORD
  {
    var z := x % WORD + y;
    MulAdd(x / WORD, z / WORD, WORD);
    DivModUnique(x + y, WORD, x / WORD + z / WORD, z % WORD);
  }

  /** readNonResident: run after run, holes in one go and data cluster by cluster. */
  method ReadNonResident(v: Volume, runs: seq<Run>, size: nat) returns (r: Option<bytes>)
    requires Sound(v)
    ensures r == Content(v, runs, size)
  {
    hide Gather, Blocks, RunBlocks, CountAccepted, Total, AllTaken;
    if size == 0 { return Some([]); }
    if size > MAX_FILE_BYTES { return None; }
    var ok, total := CountClusters(runs);
    if !ok { return None; }
    ModMul(Total(runs), v.clusterSize, WORD);
    if total * v.clusterSize % WORD < size { return None; }
    var out: bytes := [];
    ghost var taken := AllTaken(v.clusterSize, runs);
    ghost var all := Blocks(v, taken);
    assert taken[0..] == taken;
    BehindNothing(Gather(all, size));
    for i := 0 to |runs|
      invariant |out| <= size && Gather(all, size) == Behind(out, Gather(Blocks(v, taken[i..]), size - |out|))
    {
      if |out| >= size {
        GatherNone(Blocks(v, taken[i..]));
        assert out + [] == out;
        return Some(out);
      }
      TakenAt(v.clusterSize, runs, i);
      var more := AppendRun(v, runs[i], taken, i, out, size);
      if more.None? { return None; }
      out := more.value;
    }
    EndOfRuns(v, taken);
    assert out + [] == out;
    if |out| != size { return None; }
    r := Some(out);
  }

  lemma TakenAt(k: nat, runs: seq<Run>, i: nat)
    requires k > 0 && i < |runs|
    ensures AllTaken(k, runs)[i] == Taken(k, runs[i])
  {
  }

  lemma EndOfRuns(v: Volume, runs: seq<Run>)
    ensures Blocks(v, runs[|runs|..]) == [] && forall n :: Gather([], n) == Some([])
  {
  }

  lemma SplitRun(v: Volume, runs: seq<Run>, i: nat)
    requires i < |runs|
    ensures Blocks(v, runs[i..]) == RunBlocks(v, runs[i]) + Blocks(v, runs[i + 1..])
  {
    assert runs[i..][1..] == runs[i + 1..];
  }

  /** One run's share of the content, behind what is there; None is any error. */
  method AppendRun(v: Volume, r: Run, ghost taken: seq<Run>, ghost i: nat, before: bytes,
                   size: nat) returns (out: Option<bytes>)
    requires Sound(v) && i < |taken| && taken[i] == Taken(v.clusterSize, r) && |before| < size
    ensures var rest := Gather(Blocks(v, taken[i..]), size - |before|);
            match out
            case None => rest == None
            case Some(o) => |before| <= |o| <= size
                            && Behind(before, rest) == Behind(o, Gather(Blocks(v, taken[i + 1..]), size - |o|))
  {
    hide Gather, Blocks, RunBlocks;
    ghost var tail := Blocks(v, taken[i + 1..]);
    SplitRun(v, taken, i);
    if r.lcnStart < 0 {
      var zeros := Min(r.length * v.clusterSize % WORD, size - |before|);
      WholeClusters(r.length, v.clusterSize);
      HoleBlocks(v, taken[i]);
      HoleGathered(v.clusterSize, taken[i].length, tail, size - |before|);
      BehindTwice(before, Zeros(zeros), Gather(tail, size - |before| - zeros));
      return Some(before + Zeros(zeros));
    }
    out := AppendClusters(v, r, tail, before, size);
  }

  /** A wrapped count of bytes is still a count of whole clusters. */
  lemma WholeClusters(n: nat, k: nat)
    requires ClusterSizeOk(k)
    ensures n * k % WORD / k * k == n * k % WORD
  {
    var q, w := n * k / WORD, WORD / k;
    assert WORD == w * k;
    assert n * k % WORD == (n - q * w) * k by {
      MulAssoc(q, w, k);
      MulAdd(n - q * w, q * w, k);
    }
    DivModUnique(n * k % WORD, k, n - q * w, 0);
  }

  lemma HoleBlocks(v: Volume, r: Run)
    requires r.lcnStart < 0
    ensures RunBlocks(v, r) == seq(r.length, _ => Some(Zeros(v.clusterSize)))
  {
  }

  lemma BehindTwice(a: bytes, b: bytes, rest: Option<bytes>)
    ensures Behind(a, Behind(b, rest)) == Behind(a + b, rest)
  {
    if rest.Some? { AppendAssoc(a, b, rest.value); }
  }

  method AppendClusters(v: Volume, r: Run, ghost tail: seq<Option<bytes>>, before: bytes,
                        size: nat) returns (out: Option<bytes>)
    requires Sound(v) && r.lcnStart >= 0 && |before| < size
    ensures var rest := Gather(RunBlocks(v, r) + tail, size - |before|);
            match out
            case None => rest == None
            case Some(o) => |before| <= |o| <= size && Behind(before, rest) == Behind(o, Gather(tail, size - |o|))
  {
    hide Gather;
    var o := before;
    ghost var all := RunBlocks(v, r) + tail;
    assert all[0..] == all;
    for j := 0 to r.length
      invariant |before| <= |o| <= size
      invariant Behind(before, Gather(all, size - |before|)) == Behind(o, Gather(all[j..], size - |o|))
    {
      if |o| >= size {
        GatherNone(all[j..]);
        GatherNone(tail);
        return Some(o);
      }
      var lcn := Int64(r.lcnStart + j);
      var cl := if lcn < 0 then None else v.read(lcn);
      assert all[j] == cl;
      if cl.None? {
        StopsHere(all, j, size - |o|);
        return None;
      }
      var take := Min(|cl.value|, size - |o|);
      GatherStep(all, j, size - |o|, o);
      o := o + cl.value[..take];
    }
    assert all[r.length..] == tail;
    out := Some(o);
  }

  lemma StopsHere(blocks: seq<Option<bytes>>, j: nat, n: nat)
    requires j < |blocks| && blocks[j] == None && n > 0
    ensures Gather(blocks[j..], n) == None
  {
  }
}

/**
 * Files over written NTFS run lists (internal/filesystem/ntfs): which cluster of the disk each cluster of the
 * file is, and what both readers make of that.
 */
module NtfsWritten {
  import opened Bytes
  import opened Streaming
  import opened NtfsRuns

  /** The clusters of the file in front of run r. */
  function Before(ss: seq<RunSpec>, r: nat): nat
    requires r <= |ss|
  {
    if r == 0 then 0 else Before(ss, r - 1) + ss[r - 1].length
  }

  /** The sum of the deltas up to run r; holes have none. */
  function DeltaSum(ss: seq<RunSpec>, r: nat): int
    requires r < |ss|
  {
    (if r == 0 then 0 else DeltaSum(ss, r - 1)) + if ss[r].offWidth == 0 then 0 else ss[r].delta
  }

  /**
   * Cluster j of run r: zeros for a hole (and for a place in front of the volume, which is taken for one),
   * else the disk's cluster that many behind the run's first one.
   */
  function WrittenCluster(v: Volume, ss: seq<RunSpec>, r: nat, j: nat): Option<bytes>
    requires r < |ss|
  {
    if ss[r].offWidth == 0 || DeltaSum(ss, r) < 0 then Some(Zeros(v.clusterSize))
    else if DeltaSum(ss, r) + j >= 0x8000_0000_0000_0000 then None
    else v.read(DeltaSum(ss, r) + j)
  }

  lemma {:induction false} BeforeTail(ss: seq<RunSpec>, r: nat)
    requires 0 < r <= |ss|
    ensures Before(ss, r) == ss[0].length + Before(ss[1..], r - 1)
  {
    if r > 1 { BeforeTail(ss, r - 1); }
  }

  lemma {:induction false} DeltaTail(ss: seq<RunSpec>, r: nat)
    requires 0 < r < |ss|
    ensures DeltaSum(ss, r) == DeltaSum(ss, 0) + DeltaSum(ss[1..], r - 1)
  {
    if r > 1 { DeltaTail(ss, r - 1); }
  }

  /** Where a cluster of written runs is: at the running sum, as far behind it as behind the start of its run. */
  lemma {:induction false} SourceOfWritten(ss: seq<RunSpec>, vcn: nat, lcn: int, r: nat, j: nat)
    requires Representable(ss, vcn, lcn) && r < |ss| && j < ss[r].length
    ensures var place := lcn + DeltaSum(ss, r);
            && -0x8000_0000_0000_0000 <= place < 0x8000_0000_0000_0000
            && SourceAt(Meaning(ss, vcn, lcn), Before(ss, r) + j) ==
               Some(if ss[r].offWidth == 0 || place < 0 then Hole else At(Int64(place + j)))
    decreases |ss|
  {
    hide Int64, Encodable;
    var lcn' := if ss[0].offWidth == 0 then lcn else lcn + ss[0].delta;
    var runs := Meaning(ss, vcn, lcn);
    assert runs[1..] == Meaning(ss[1..], vcn + ss[0].length, lcn');
    if r > 0 {
      BeforeTail(ss, r);
      DeltaTail(ss, r);
      SourceOfWritten(ss[1..], vcn + ss[0].length, lcn', r - 1, j);
    }
  }

  /** That source is the cluster written there. */
  lemma SourceReads(v: Volume, ss: seq<RunSpec>, r: nat, j: nat, s: Source)
    requires r < |ss| && j <= MAX_CLUSTERS && DeltaSum(ss, r) < 0x8000_0000_0000_0000
    requires s == if ss[r].offWidth == 0 || DeltaSum(ss, r) < 0 then Hole else At(Int64(DeltaSum(ss, r) + j))
    ensures ReadSource(v, s) == WrittenCluster(v, ss, r, j)
  {
    if s.At? && DeltaSum(ss, r) + j >= 0x8000_0000_0000_0000 { WrapsNegative(DeltaSum(ss, r) + j); }
  }

  lemma WrapsNegative(x: int)
    requires 0x8000_0000_0000_0000 <= x < 0x8000_0000_0000_0000 + WORD / 2
    ensures Int64(x) < 0
  {
    DivModUnique(x + 0x8000_0000_0000_0000, WORD, 1, x + 0x8000_0000_0000_0000 - WORD);
  }

  lemma {:induction false} MeaningContiguous(ss: seq<RunSpec>, vcn: nat, lcn: int)
    requires Representable(ss, vcn, lcn) && vcn <= MAX_CLUSTERS
    ensures Contiguous(Meaning(ss, vcn, lcn), vcn) && vcn + Total(Meaning(ss, vcn, lcn)) <= MAX_CLUSTERS
    ensures Total(Meaning(ss, vcn, lcn)) == Before(ss, |ss|)
    decreases |ss|
  {
    if ss != [] {
      var lcn' := if ss[0].offWidth == 0 then lcn else lcn + ss[0].delta;
      assert Meaning(ss, vcn, lcn)[1..] == Meaning(ss[1..], vcn + ss[0].length, lcn');
      assert ss[0].length > 0 by { LengthPositive(ss[0]); }
      BeforeTail(ss, |ss|);
      MeaningContiguous(ss[1..], vcn + ss[0].length, lcn');
    }
  }

  lemma {:induction false} RunFits(ss: seq<RunSpec>, r: nat)
    requires r < |ss|
    ensures Before(ss, r) + ss[r].length <= Before(ss, |ss|)
    decreases |ss| - r
  {
    if r + 1 < |ss| { RunFits(ss, r + 1); }
  }

  /** Both readers find cluster j of run r where it was written. */
  lemma ClusterFound(v: Volume, ss: seq<RunSpec>, r: nat, j: nat)
    requires Sound(v) && Representable(ss, 0, 0) && r < |ss| && j < ss[r].length
    ensures var runs, i := Meaning(ss, 0, 0), Before(ss, r) + j;
            && EagerSource(v.clusterSize, runs, i).Some? && EagerSource(v.clusterSize, runs, i) == LazySource(runs, i)
            && ClusterAt(v, runs, i) == ReadSource(v, EagerSource(v.clusterSize, runs, i).value)
            && ClusterAt(v, runs, i) == WrittenCluster(v, ss, r, j)
  {
    hide Representable, SourceAt, LazySource, ReadSource, Contiguous, Total, WrittenCluster, AllTaken, Meaning;
    var runs, i := Meaning(ss, 0, 0), Before(ss, r) + j;
    MeaningContiguous(ss, 0, 0);
    RunFits(ss, r);
    AllTakenWhole(v.clusterSize, runs);
    LookupFindsBlock(runs, 0, i);
    SourceOfWritten(ss, 0, 0, r, j);
    SourceReads(v, ss, r, j, SourceAt(runs, i).value);
  }

  /**
   * Every lazy piece of a file over a written run list, at byte w of cluster j of run r, is what is left of that
   * cluster of the disk, or zeros in a hole; and it fails exactly where that cluster cannot be read.
   */
  lemma WrittenPiece(v: Volume, ss: seq<RunSpec>, rest: bytes, r: nat, j: nat, w: nat, o: nat, t: nat)
    requires Sound(v) && ss != [] && Representable(ss, 0, 0) && r < |ss| && j < ss[r].length && w < v.clusterSize
    requires o == (Before(ss, r) + j) * v.clusterSize + w
    requires forall s :: s in ss ==> 1 <= s.lenWidth <= 8 && s.offWidth <= 8
    ensures ParsedRuns(EncodeRuns(ss) + rest).Some?
    ensures Piece(v, ParsedRuns(EncodeRuns(ss) + rest).value, o, t) ==
            match WrittenCluster(v, ss, r, j)
            case None => None
            case Some(d) => if |d| != v.clusterSize then None else Some(d[w..w + Min(v.clusterSize - w, t)])
  {
    hide Representable, Meaning, ParsedRuns, EncodeRuns, Piece, WrittenCluster;
    RunListRoundTrip(ss, rest);
    PlaceInFile(v.clusterSize, Before(ss, r) + j, w);
    PieceOfRuns(v, ss, r, j, w, t, o);
  }

  lemma PlaceInFile(k: nat, i: nat, w: nat)
    requires w < k
    ensures (i * k + w) / k == i && (i * k + w) % k == w
  {
    DivModUnique(i * k + w, k, i, w);
  }

  lemma PieceOfRuns(v: Volume, ss: seq<RunSpec>, r: nat, j: nat, w: nat, t: nat, o: nat)
    requires Sound(v) && Representable(ss, 0, 0) && r < |ss| && j < ss[r].length && w < v.clusterSize
    requires o / v.clusterSize == Before(ss, r) + j && o % v.clusterSize == w
    ensures Piece(v, Meaning(ss, 0, 0), o, t) ==
            match WrittenCluster(v, ss, r, j)
            case None => None
            case Some(d) => if |d| != v.clusterSize then None else Some(d[w..w + Min(v.clusterSize - w, t)])
  {
    hide Representable, Meaning, ClusterAt, WrittenCluster, EagerSource, LazySource;
    ClusterFound(v, ss, r, j);
    WrittenWhole(v, ss, r, j);
  }

  lemma WrittenWhole(v: Volume, ss: seq<RunSpec>, r: nat, j: nat)
    requires Sound(v) && r < |ss|
    ensures WrittenCluster(v, ss, r, j).Some? ==> |WrittenCluster(v, ss, r, j).value| == v.clusterSize
  {
  }

  /** The file can be read at once: it is not too long, its runs cover it, and all its clusters can be read. */
  ghost predicate AllWrittenReadable(v: Volume, ss: seq<RunSpec>, size: nat) {
    && size <= MAX_FILE_BYTES && size <= Before(ss, |ss|) * v.clusterSize
    && forall r, j :: 0 <= r < |ss| && 0 <= j < ss[r].length && InFile(v.clusterSize, Before(ss, r) + j, size) ==>
         WrittenCluster(v, ss, r, j).Some?
  }

  /** Each cluster of the file is one of some run. */
  lemma {:induction false} RunOf(ss: seq<RunSpec>, n: nat, i: nat) returns (r: nat, j: nat)
    requires n <= |ss| && i < Before(ss, n)
    ensures r < n && j < ss[r].length && i == Before(ss, r) + j
  {
    if i >= Before(ss, n - 1) { r, j := n - 1, i - Before(ss, n - 1); } else { r, j := RunOf(ss, n - 1, i); }
  }

  lemma {:induction false} MeaningAccepted(ss: seq<RunSpec>, vcn: nat, lcn: int)
    requires Representable(ss, vcn, lcn) && vcn <= MAX_CLUSTERS
    ensures CountAccepted(Meaning(ss, vcn, lcn), vcn)
    decreases |ss|
  {
    if ss != [] {
      var lcn' := if ss[0].offWidth == 0 then lcn else lcn + ss[0].delta;
      assert Meaning(ss, vcn, lcn)[1..] == Meaning(ss[1..], vcn + ss[0].length, lcn');
      SmallAccepted(vcn, ss[0].length);
      MeaningAccepted(ss[1..], vcn + ss[0].length, lcn');
    }
  }

  lemma WrittenAccepted(v: Volume, ss: seq<RunSpec>, size: nat)
    requires Sound(v) && Representable(ss, 0, 0)
    ensures SizeAccepted(v.clusterSize, Meaning(ss, 0, 0), size)
       <==> size <= MAX_FILE_BYTES && size <= Before(ss, |ss|) * v.clusterSize
  {
    hide Meaning, CountAccepted, Total, Before;
    MeaningContiguous(ss, 0, 0);
    MeaningAccepted(ss, 0, 0);
    var n, k := Before(ss, |ss|), v.clusterSize;
    MulLe(n, MAX_CLUSTERS, k);
    MulLe(k, MAX_CLUSTER_SIZE, MAX_CLUSTERS);
    SmallEnd(n * k);
  }

  /**
   * The eager reader of a file over a written run list succeeds exactly when all its clusters can be read, and
   * byte w of cluster j of run r is then that byte of that cluster of the disk, or zero in a hole.
   */
  lemma WrittenContent(v: Volume, ss: seq<RunSpec>, rest: bytes, size: nat)
    requires Sound(v) && ss != [] && Representable(ss, 0, 0) && size > 0
    requires forall s :: s in ss ==> 1 <= s.lenWidth <= 8 && s.offWidth <= 8
    ensures ParsedRuns(EncodeRuns(ss) + rest).Some?
    ensures var r := Content(v, ParsedRuns(EncodeRuns(ss) + rest).value, size);
            && (r.Some? <==> AllWrittenReadable(v, ss, size))
            && (r.Some? ==> |r.value| == size && BytesWritten(v, ss, r.value))
  {
    hide Representable, Meaning, ParsedRuns, EncodeRuns, Content, AllWrittenReadable, BytesWritten;
    RunListRoundTrip(ss, rest);
    var content := Content(v, Meaning(ss, 0, 0), size);
    if content.Some? {
      ContentGathered(v, Meaning(ss, 0, 0), size);
      ReadableWhenRead(v, ss, size);
      BytesWhenRead(v, ss, size);
    }
    if AllWrittenReadable(v, ss, size) { ReadWhenReadable(v, ss, size); }
  }

  ghost predicate BytesWritten(v: Volume, ss: seq<RunSpec>, content: bytes) {
    forall r, j, w :: 0 <= r < |ss| && 0 <= j < ss[r].length && 0 <= w < v.clusterSize ==>
      ByteWritten(v, ss, r, j, w, content)
  }

  /** The byte of the content that is byte w of cluster j of run r. */
  predicate ByteWritten(v: Volume, ss: seq<RunSpec>, r: nat, j: nat, w: nat, content: bytes)
    requires r < |ss|
  {
    var o := (Before(ss, r) + j) * v.clusterSize + w;
    o < |content| ==>
      && WrittenCluster(v, ss, r, j).Some? && w < |WrittenCluster(v, ss, r, j).value|
      && content[o] == WrittenCluster(v, ss, r, j).value[w]
  }

  lemma BytesWhenRead(v: Volume, ss: seq<RunSpec>, size: nat)
    requires Sound(v) && Representable(ss, 0, 0) && Content(v, Meaning(ss, 0, 0), size).Some?
    requires |Content(v, Meaning(ss, 0, 0), size).value| == size
    ensures BytesWritten(v, ss, Content(v, Meaning(ss, 0, 0), size).value)
  {
    hide Representable, Meaning, Content, WrittenCluster, ClusterAt, EagerSource, LazySource, ReadSource;
    var content, k := Content(v, Meaning(ss, 0, 0), size).value, v.clusterSize;
    forall r, j, w | 0 <= r < |ss| && 0 <= j < ss[r].length && 0 <= w < k
      ensures ByteWritten(v, ss, r, j, w, content)
    {
      var i := Before(ss, r) + j;
      var o := i * k + w;
      if o < size {
        DivModUnique(o, k, i, w);
        ClusterFound(v, ss, r, j);
        BlockOfContent(v, Meaning(ss, 0, 0), size, o, 1, i, w);
        assert content[o] == content[o..o + 1][0];
      }
    }
  }

  lemma ReadableWhenRead(v: Volume, ss: seq<RunSpec>, size: nat)
    requires Sound(v) && Representable(ss, 0, 0) && size > 0 && Content(v, Meaning(ss, 0, 0), size).Some?
    requires |Content(v, Meaning(ss, 0, 0), size).value| == size
    ensures AllWrittenReadable(v, ss, size)
  {
    hide Representable, Meaning, WrittenCluster, ClusterAt, EagerSource, LazySource, ReadSource, SizeAccepted, Gather;
    WrittenAccepted(v, ss, size);
    var runs, k := Meaning(ss, 0, 0), v.clusterSize;
    forall r, j | 0 <= r < |ss| && 0 <= j < ss[r].length && InFile(k, Before(ss, r) + j, size)
      ensures WrittenCluster(v, ss, r, j).Some?
    {
      var i := Before(ss, r) + j;
      DivModUnique(i * k, k, i, 0);
      ClusterFound(v, ss, r, j);
      BlockOfContent(v, runs, size, i * k, 1, i, 0);
    }
  }

  lemma ReadWhenReadable(v: Volume, ss: seq<RunSpec>, size: nat)
    requires Sound(v) && Representable(ss, 0, 0) && size > 0 && AllWrittenReadable(v, ss, size)
    ensures Content(v, Meaning(ss, 0, 0), size).Some?
  {
    hide Representable, Meaning, WrittenCluster, ClusterAt, LazySource, ReadSource, SizeAccepted, Gather, Blocks,
         AllTaken, SourceAt, Contiguous, Total, InFile;
    WrittenAccepted(v, ss, size);
    MeaningContiguous(ss, 0, 0);
    var runs, k := Meaning(ss, 0, 0), v.clusterSize;
    AllTakenWhole(k, runs);
    var blocks := Blocks(v, AllTaken(k, runs));
    forall i | 0 <= i < |blocks| && InFile(k, i, size) ensures blocks[i].Some? && |blocks[i].value| == k {
      var r, j := RunOf(ss, |ss|, i);
      ClusterFound(v, ss, r, j);
      BlockIsSource(v, runs, i);
      WrittenWhole(v, ss, r, j);
    }
    AllGathered(blocks, k, size);
  }
}

/**
 * FAT and exFAT files (internal/filesystem/fat, internal/filesystem/exfat): the eager reader that
 * follows the whole cluster chain, and the lazy one that extends the chain on demand under a lock
 * shared by concurrent reads.
 */
module ClusterChain {
  import opened Bytes
  import opened Streaming

  const MAX_CLUSTER_CHAIN: nat := 0x40_0000

  /** A mounted volume: its FAT, its entry markers, and what reading a data cluster gives. */
  datatype Volume = Volume(
    entry: nat -> Option<nat>,     // fatEntry; None for an error
    isBad: nat -> bool,
    isEnd: nat -> bool,
    cluster: nat -> Option<bytes>, // the data of a cluster; None for a failed or short read
    clusterSize: nat
  )

  /** Cluster reads that succeed give a whole cluster. */
  ghost predicate Sound(v: Volume) {
    v.clusterSize > 0 && forall c :: v.cluster(c).Some? ==> |v.cluster(c).value| == v.clusterSize
  }

  /** Where a cluster's FAT entry leads. */
  datatype Link = Broken | Last | Next(cluster: nat)

  function LinkOf(v: Volume, c: nat): Link {
    match v.entry(c)
    case None => Broken
    case Some(x) => if v.isBad(x) || x == 0 then Broken else if v.isEnd(x) then Last else Next(x)
  }

  // ------------------------------------------------------------ the whole chain

  /** Following links from c, with what was visited before it; None is any error. */
  function Follow(v: Volume, c: nat, chain: seq<nat>): Option<seq<nat>>
    decreases MAX_CLUSTER_CHAIN - |chain|
  {
    if |chain| >= MAX_CLUSTER_CHAIN || c in chain then None
    else
      match LinkOf(v, c)
      case Broken => None
      case Last => Some(chain + [c])
      case Next(n) => Follow(v, n, chain + [c])
  }

  ghost predicate Distinct(cs: seq<nat>) {
    forall i, j :: 0 <= i < j < |cs| ==> cs[i] != cs[j]
  }

  /** cs is a stretch of the FAT walk from start, without repeats. */
  ghost predicate Path(v: Volume, start: nat, cs: seq<nat>) {
    && Distinct(cs) && (cs != [] ==> cs[0] == start)
    && forall i :: 0 <= i < |cs| - 1 ==> LinkOf(v, cs[i]) == Next(cs[i + 1])
  }

  /** cs is the whole chain from start: a path whose last entry is an end marker. */
  ghost predicate IsChain(v: Volume, start: nat, cs: seq<nat>) {
    cs != [] && Path(v, start, cs) && LinkOf(v, cs[|cs| - 1]) == Last
  }

  lemma {:induction false} FollowGivesChain(v: Volume, start: nat, c: nat, chain: seq<nat>)
    requires Path(v, start, chain)
    requires if chain == [] then c == start else LinkOf(v, chain[|chain| - 1]) == Next(c)
    requires Follow(v, c, chain).Some?
    ensures IsChain(v, start, Follow(v, c, chain).value) && |Follow(v, c, chain).value| <= MAX_CLUSTER_CHAIN
    decreases MAX_CLUSTER_CHAIN - |chain|
  {
    hide LinkOf;
    var longer := chain + [c];
    assert Path(v, start, longer);
    if LinkOf(v, c).Next? { FollowGivesChain(v, start, LinkOf(v, c).cluster, longer); }
  }

  lemma {:induction false} ChainIsFollowed(v: Volume, start: nat, cs: seq<nat>, k: nat)
    requires IsChain(v, start, cs) && k < |cs| <= MAX_CLUSTER_CHAIN
    ensures Follow(v, cs[k], cs[..k]) == Some(cs)
    decreases |cs| - k
  {
    hide LinkOf;
    assert cs[..k] + [cs[k]] == cs[..k + 1];
    if k < |cs| - 1 { ChainIsFollowed(v, start, cs, k + 1); } else { assert cs[..k + 1] == cs; }
  }

  /** Following the FAT succeeds exactly when there is a whole chain within the bound, and gives that chain. */
  lemma FollowIsChain(v: Volume, start: nat, cs: seq<nat>)
    ensures Follow(v, start, []) == Some(cs) <==> IsChain(v, start, cs) && |cs| <= MAX_CLUSTER_CHAIN
  {
    hide Follow, LinkOf;
    if Follow(v, start, []) == Some(cs) { FollowGivesChain(v, start, start, []); }
    if IsChain(v, start, cs) && |cs| <= MAX_CLUSTER_CHAIN {
      assert cs[..0] == [];
      ChainIsFollowed(v, start, cs, 0);
    }
  }

  /** clusterChain. */
  method FollowChain(v: Volume, start: nat) returns (r: Option<seq<nat>>)
    ensures r == if start < 2 then None else Follow(v, start, [])
  {
    if start < 2 { return None; }
    var chain: seq<nat>, visited: set<nat>, cluster := [], {}, start;
    while true
      invariant |chain| <= MAX_CLUSTER_CHAIN && forall c :: c in visited <==> c in chain
      invariant Follow(v, cluster, chain) == Follow(v, start, [])
      decreases MAX_CLUSTER_CHAIN - |chain|
    {
      if |chain| >= MAX_CLUSTER_CHAIN || cluster in visited { return None; }
      visited := visited + {cluster};
      chain := chain + [cluster];
      match LinkOf(v, cluster) {
        case Broken => return None;
        case Last => return Some(chain);
        case Next(n) => cluster := n;
      }
    }
  }

  // ------------------------------------------------------------ the walk on any FAT

  /** The cluster that comes next after a stretch of the walk; None where it ends, breaks or repeats. */
  function Following(v: Volume, start: nat, cs: seq<nat>): Option<nat> {
    if cs == [] then Some(start)
    else match LinkOf(v, cs[|cs| - 1]) case Next(n) => (if n in cs then None else Some(n)) case _ => None
  }

  /** The first n clusters of the walk from start, or as many as there are. */
  function Walk(v: Volume, start: nat, n: nat): (cs: seq<nat>)
    ensures |cs| <= n
  {
    if n == 0 then []
    else
      var cs := Walk(v, start, n - 1);
      if |cs| < n - 1 then cs else match Following(v, start, cs) case None => cs case Some(c) => cs + [c]
  }

  lemma {:induction false} WalkIsPath(v: Volume, start: nat, n: nat)
    ensures Path(v, start, Walk(v, start, n))
  {
    hide LinkOf;
    if n > 0 { WalkIsPath(v, start, n - 1); }
  }

  /** A longer walk only adds to a shorter one, and adds nothing once it has stopped. */
  lemma {:induction false} WalkPrefix(v: Volume, start: nat, m: nat, n: nat)
    requires m <= n
    ensures Walk(v, start, m) == Walk(v, start, n)[..Min(m, |Walk(v, start, n)|)]
    ensures |Walk(v, start, m)| < m ==> Walk(v, start, n) == Walk(v, start, m)
    decreases n
  {
    hide Following;
    if m < n { WalkPrefix(v, start, m, n - 1); }
  }

  /** Where there is a whole chain, it is what is walked. */
  lemma {:induction false} WalkOfChain(v: Volume, start: nat, cs: seq<nat>, n: nat)
    requires IsChain(v, start, cs)
    ensures Walk(v, start, n) == cs[..Min(n, |cs|)]
  {
    hide LinkOf;
    if n > 0 {
      WalkOfChain(v, start, cs, n - 1);
      if 0 < n - 1 <= |cs| { ChainLinks(v, start, cs, n - 2); }
      if n - 1 < |cs| { NotBefore(cs, n - 1); }
    }
  }

  /** Cluster i of the walk. */
  function WalkCluster(v: Volume, start: nat, i: nat): Option<nat> {
    var cs := Walk(v, start, i + 1);
    if i < |cs| then Some(cs[i]) else None
  }

  /** What reading the i-th cluster of the walk gives. */
  function WalkBlocks(v: Volume, start: nat): nat -> Option<bytes> {
    i => match WalkCluster(v, start, i) case None => None case Some(c) => v.cluster(c)
  }

  lemma WalkBlocksWhole(v: Volume, start: nat)
    requires Sound(v)
    ensures WholeBlocks(WalkBlocks(v, start), v.clusterSize)
  {
    hide WalkCluster;
    var block := WalkBlocks(v, start);
    forall i: nat | block(i).Some? ensures |block(i).value| == v.clusterSize {
      assert block(i) == v.cluster(WalkCluster(v, start, i).value);
    }
  }

  lemma WalkGoesOn(v: Volume, start: nat, cs: seq<nat>, c: nat)
    requires cs == Walk(v, start, |cs|) && Following(v, start, cs) == Some(c)
    ensures cs + [c] == Walk(v, start, |cs| + 1)
  {
    hide Following;
  }

  lemma WalkEnds(v: Volume, start: nat, cs: seq<nat>)
    requires cs == Walk(v, start, |cs|) && Following(v, start, cs) == None
    ensures cs == Walk(v, start, |cs| + 1)
  {
    hide Following;
  }

  // ------------------------------------------------------------ what a locked section does

  /** The chain after asking for index k: extended along the walk if it was too short. */
  function Extended(v: Volume, start: nat, chain: seq<nat>, k: nat): seq<nat> {
    if k < |chain| then chain else Walk(v, start, Min(k + 1, MAX_CLUSTER_CHAIN))
  }

  /** What it answers: nothing for a cluster that was only just reached and whose own entry is broken. */
  function Found(v: Volume, start: nat, chain: seq<nat>, k: nat): Option<nat> {
    var longer := Extended(v, start, chain, k);
    if k < |longer| && (k < |chain| || LinkOf(v, longer[k]) != Broken) then Some(longer[k]) else None
  }

  /** What is found is the cluster of the walk. */
  lemma FoundIsWalk(v: Volume, start: nat, chain: seq<nat>, k: nat)
    requires chain == Walk(v, start, |chain|) && |chain| <= MAX_CLUSTER_CHAIN
    ensures Found(v, start, chain, k).Some? ==> Found(v, start, chain, k) == WalkCluster(v, start, k)
  {
    hide LinkOf, Walk;
    WalkPrefix(v, start, Min(k + 1, MAX_CLUSTER_CHAIN), k + 1);
    if k < |chain| { WalkPrefix(v, start, k + 1, |chain|); }
  }

  /** A lookup fails exactly off the walk, past the bound, or at a cluster first reached by it whose entry is broken. */
  lemma FoundWhen(v: Volume, start: nat, chain: seq<nat>, k: nat)
    requires chain == Walk(v, start, |chain|) && |chain| <= MAX_CLUSTER_CHAIN
    ensures Found(v, start, chain, k).Some?
       <==> k < MAX_CLUSTER_CHAIN && WalkCluster(v, start, k).Some?
            && (k < |chain| || LinkOf(v, WalkCluster(v, start, k).value) != Broken)
  {
    hide LinkOf, Walk;
    WalkPrefix(v, start, Min(k + 1, MAX_CLUSTER_CHAIN), k + 1);
    if k < |chain| { WalkPrefix(v, start, k + 1, |chain|); }
  }

  /** Cluster k is on the walk, its entry is sound and its data can be read: no read at it fails. */
  predicate Sure(v: Volume, start: nat, k: nat) {
    && k < MAX_CLUSTER_CHAIN && WalkCluster(v, start, k).Some?
    && LinkOf(v, WalkCluster(v, start, k).value) != Broken && v.cluster(WalkCluster(v, start, k).value).Some?
  }

  /** Every cluster of a whole chain is found. */
  lemma ChainIsFound(v: Volume, start: nat, chain: seq<nat>, cs: seq<nat>, k: nat)
    requires chain == Walk(v, start, |chain|) && IsChain(v, start, cs) && |cs| <= MAX_CLUSTER_CHAIN && k < |cs|
    ensures Found(v, start, chain, k) == WalkCluster(v, start, k) == Some(cs[k])
  {
    hide LinkOf, Walk, IsChain;
    WalkOfChain(v, start, cs, |chain|);
    WalkOfChain(v, start, cs, k + 1);
    ChainLinks(v, start, cs, k);
  }

  /**
   * Asking again after a failure serves the cluster exactly when it is on the walk, within the bound,
   * and its own FAT entry is what failed: it was appended before that entry was looked at.
   */
  lemma RetryServes(v: Volume, start: nat, chain: seq<nat>, k: nat)
    requires chain == Walk(v, start, |chain|) && |chain| <= MAX_CLUSTER_CHAIN
    ensures Found(v, start, chain, k) == None && Found(v, start, Extended(v, start, chain, k), k).Some?
       <==> |chain| <= k < MAX_CLUSTER_CHAIN && WalkCluster(v, start, k).Some?
            && LinkOf(v, WalkCluster(v, start, k).value) == Broken
    ensures Found(v, start, Extended(v, start, chain, k), k).Some? ==>
              Found(v, start, Extended(v, start, chain, k), k) == WalkCluster(v, start, k)
  {
    hide LinkOf;
    WalkPrefix(v, start, Min(k + 1, MAX_CLUSTER_CHAIN), k + 1);
    if k < |chain| { WalkPrefix(v, start, k + 1, |chain|); }
  }

  /** A file of one cluster whose entry is free: the first read of it fails, and the second one succeeds. */
  lemma RetryWitness(data: bytes)
    ensures var v := Volume(c => Some(0), x => false, x => false, c => Some(data), |data|);
            && Found(v, 2, [], 0) == None && Extended(v, 2, [], 0) == [2] && Found(v, 2, [2], 0) == Some(2)
  {
    var v := Volume(c => Some(0), x => false, x => false, c => Some(data), |data|);
    assert Walk(v, 2, 0) == [] && Walk(v, 2, 1) == [] + [2];
    assert LinkOf(v, 2) == Broken;
  }

  // ------------------------------------------------------------ eager content

  /** What reading each cluster of a chain gives. */
  function Blocks(v: Volume, cs: seq<nat>): (r: seq<Option<bytes>>)
    ensures |r| == |cs|
  {
    seq(|cs|, i requires 0 <= i < |cs| => v.cluster(cs[i]))
  }

  lemma BlocksEven(v: Volume, cs: seq<nat>)
    requires Sound(v)
    ensures Even(Blocks(v, cs), v.clusterSize)
  {
  }

  /** A file's content: readFileClusters, None being any error. */
  function Content(v: Volume, start: nat, size: nat): Option<bytes> {
    if size == 0 then Some([])
    else if start < 2 then None
    else
      match Follow(v, start, [])
      case None => None
      case Some(cs) => if |cs| * v.clusterSize < size then None else Gather(Blocks(v, cs), size)
  }

  /** Clusters of a data area whose first one is numbered 2. */
  predicate InArea(clusters: seq<bytes>, cs: seq<nat>) {
    forall i :: 0 <= i < |cs| ==> 2 <= cs[i] < |clusters| + 2
  }

  function Chosen(clusters: seq<bytes>, cs: seq<nat>): (r: seq<bytes>)
    requires InArea(clusters, cs)
    ensures |r| == |cs|
  {
    seq(|cs|, i requires 0 <= i < |cs| => clusters[cs[i] - 2])
  }

  /** The content of a file whose chain and clusters can be read. */
  lemma ChainGathered(v: Volume, cs: seq<nat>, datas: seq<bytes>, size: nat)
    requires Sound(v) && cs != [] && cs[0] >= 2 && Follow(v, cs[0], []) == Some(cs)
    requires |datas| == |cs| && forall i :: 0 <= i < |cs| ==> v.cluster(cs[i]) == Some(datas[i])
    ensures Content(v, cs[0], size) == if size <= |Concat(datas)| then Some(Concat(datas)[..size]) else None
  {
    hide Follow, Concat;
    forall i | 0 <= i < |datas| ensures |datas[i]| == v.clusterSize { assert v.cluster(cs[i]) == Some(datas[i]); }
    EqualSize(datas, v.clusterSize);
    if size <= |Concat(datas)| { GatherAll(Blocks(v, cs), datas, size); }
    assert size == 0 ==> Concat(datas)[..size] == [];
  }

  method ReadFileClusters(v: Volume, start: nat, size: nat) returns (r: Option<bytes>)
    ensures r == Content(v, start, size)
  {
    if size == 0 { return Some([]); }
    if start < 2 { return None; }
    var chain := FollowChain(v, start);
    if chain.None? { return None; }
    var cs := chain.value;
    if |cs| * v.clusterSize < size { return None; }
    var out, remaining: nat := [], size;
    ghost var blocks := Blocks(v, cs);
    assert blocks[0..] == blocks;
    BehindNothing(Gather(blocks, size));
    for i := 0 to |cs|
      invariant Gather(blocks, size) == Behind(out, Gather(blocks[i..], remaining))
    {
      if remaining == 0 { break; }
      var data := v.cluster(cs[i]);
      if data.None? { return None; }
      var take := Min(|data.value|, remaining);
      GatherStep(blocks, i, remaining, out);
      out := out + data.value[..take];
      remaining := remaining - take;
    }
    assert out + [] == out;
    r := Some(out);
  }

  // ------------------------------------------------------------ the lazy reader

  lemma ClusterSizes(v: Volume)
    requires Sound(v)
    ensures v.clusterSize > 0
  {
  }

  lemma ClusterWhole(v: Volume, c: nat)
    requires Sound(v) && v.cluster(c).Some?
    ensures |v.cluster(c).value| == v.clusterSize
  {
  }

  lemma ContentLength(v: Volume, start: nat, size: nat)
    requires Sound(v)
    ensures Content(v, start, size).Some? ==> |Content(v, start, size).value| == size
  {
    if size > 0 && Content(v, start, size).Some? {
      GatherLength(Blocks(v, Follow(v, start, []).value), v.clusterSize, size);
    }
  }

  /** Which cluster of a chain holds offset o, and where in it. */
  function IndexOf(v: Volume, o: nat): nat
    requires v.clusterSize > 0
  {
    o / v.clusterSize
  }

  function WithinOf(v: Volume, o: nat): (w: nat)
    requires v.clusterSize > 0
    ensures w < v.clusterSize
  {
    o % v.clusterSize
  }

  /** A piece of the content that stays inside one cluster is that cluster's, at the same place. */
  lemma ContentServes(v: Volume, start: nat, size: nat, o: nat, t: nat)
    requires Sound(v) && o < size && 0 < t && o + t <= size && WithinOf(v, o) + t <= v.clusterSize
    requires Content(v, start, size).Some?
    ensures Follow(v, start, []).Some? && |Content(v, start, size).value| == size
    ensures var cs, i, w := Follow(v, start, []).value, IndexOf(v, o), WithinOf(v, o);
            && i < |cs| && v.cluster(cs[i]).Some?
            && Content(v, start, size).value[o..o + t] == v.cluster(cs[i]).value[w..w + t]
  {
    hide Gather, Follow, Even, Sound, LinkOf;
    var cs := Follow(v, start, []).value;
    BlocksEven(v, cs);
    GatherPiece(Blocks(v, cs), v.clusterSize, size, o, t);
  }

  /** The eager reader's content agrees with the clusters of the walk. */
  lemma EagerAgrees(v: Volume, start: nat, size: nat)
    requires Sound(v)
    ensures WholeBlocks(WalkBlocks(v, start), v.clusterSize)
    ensures Content(v, start, size).Some? ==>
              |Content(v, start, size).value| == size
                  && Agrees(Content(v, start, size).value, WalkBlocks(v, start), v.clusterSize)
  {
    hide Content, IndexOf, WithinOf, Follow;
    WalkBlocksWhole(v, start);
    ContentLength(v, start, size);
    if Content(v, start, size).Some? {
      forall b | 0 <= b < size
        ensures WalkBlocks(v, start)(b / v.clusterSize).Some?
        ensures Content(v, start, size).value[b] == WalkBlocks(v, start)(b / v.clusterSize).value[b % v.clusterSize]
      {
        EagerByte(v, start, size, b);
      }
    }
  }

  lemma EagerByte(v: Volume, start: nat, size: nat, b: nat)
    requires Sound(v) && Content(v, start, size).Some? && b < size
    ensures |Content(v, start, size).value| == size
    ensures var block := WalkBlocks(v, start)(b / v.clusterSize);
            block.Some? && b % v.clusterSize < |block.value|
                && Content(v, start, size).value[b] == block.value[b % v.clusterSize]
  {
    hide Content, Follow, LinkOf, Walk, WalkCluster;
    ContentServes(v, start, size, b, 1);
    var cs, i, w := Follow(v, start, []).value, IndexOf(v, b), WithinOf(v, b);
    FollowIsChain(v, start, cs);
    assert |Walk(v, start, 0)| == 0;
    ChainIsFound(v, start, Walk(v, start, 0), cs, i);
    var content := Content(v, start, size).value;
    assert content[b] == content[b..b + 1][0] == v.cluster(cs[i]).value[w..w + 1][0];
  }

  /** Where the eager reader succeeds, the cluster an offset falls in is found and can be read. */
  lemma ContentFound(v: Volume, start: nat, size: nat, o: nat, chain: seq<nat>)
    requires Sound(v) && Content(v, start, size).Some? && o < size && chain == Walk(v, start, |chain|)
    ensures Found(v, start, chain, IndexOf(v, o)).Some?
    ensures v.cluster(Found(v, start, chain, IndexOf(v, o)).value).Some?
  {
    hide Content, Follow, LinkOf, Walk, WalkCluster, IndexOf, WithinOf, Found;
    ContentServes(v, start, size, o, 1);
    var cs := Follow(v, start, []).value;
    FollowIsChain(v, start, cs);
    ChainIsFound(v, start, chain, cs, IndexOf(v, o));
  }

  class FileReader {
    const v: Volume
    const start: nat
    const size: nat
    var pos: nat
    var chain: seq<nat>   // the resolved prefix of the cluster chain
    var seen: set<nat>
    var next: nat         // the cluster to resolve when the chain grows
    var done: bool        // the end marker was seen

    /**
     * After every locked section, on any FAT: the chain is a path from the start without repeats, and
     * seen holds its elements.  When its last cluster's entry was broken, next still names that cluster.
     */
    ghost predicate Valid()
      reads this
    {
      && chain == Walk(v, start, |chain|) && |chain| <= MAX_CLUSTER_CHAIN
      && (forall c :: c in seen <==> c in chain) && (size == 0 ==> chain == [])
      && (chain == [] ==> next == start && (done <==> size == 0))
      && (chain != [] ==>
           match LinkOf(v, chain[|chain| - 1])
           case Last => done
           case Next(n) => !done && next == n
           case Broken => !done && next == chain[|chain| - 1])
    }

    /** It never holds a cluster twice. */
    lemma WithoutRepeats()
      requires Valid()
      ensures Path(v, start, chain)
    {
      WalkIsPath(v, start, |chain|);
    }

    /** newFATFileReader: refused for a non-empty file without a start cluster. */
    constructor (v: Volume, start: nat, size: nat)
      requires size > 0 ==> start >= 2
      ensures this.v == v && this.start == start && this.size == size && pos == 0 && Valid()
    {
      this.v, this.start, this.size := v, start, size;
      pos, chain, seen, next := 0, [], {}, start;
      done := size == 0;
    }

    /** extendTo: grows the chain until it reaches index k or ends; false is any error. */
    method ExtendTo(k: nat) returns (ok: bool)
      requires Valid()
      modifies this`chain, this`seen, this`next, this`done
      ensures Valid() && old(chain) <= chain
      ensures size > 0 ==> chain == Extended(v, start, old(chain), k)
      ensures size > 0 && k < |chain| ==> (ok <==> k < |old(chain)| || LinkOf(v, chain[k]) != Broken)
    {
      hide LinkOf, Walk;
      while |chain| <= k && !done
        invariant Valid() && old(chain) <= chain && (|chain| > |old(chain)| ==> |chain| <= k + 1)
        invariant |chain| > |old(chain)| ==> LinkOf(v, chain[|chain| - 1]) != Broken
        decreases MAX_CLUSTER_CHAIN - |chain|
      {
        var cl := next;
        if cl in seen || |chain| >= MAX_CLUSTER_CHAIN {
          StoppedWalk(k);
          return false;
        }
        GoesOn();
        WalkGoesOn(v, start, chain, cl);
        seen := seen + {cl};
        chain := chain + [cl];
        match LinkOf(v, cl) {
          case Broken =>
            StoppedWalk(k);
            return false;
          case Last => done := true;
          case Next(n) => next := n;
        }
      }
      if size > 0 && k >= |old(chain)| { StoppedWalk(k); }
      ok := true;
    }

    lemma GoesOn()
      requires Valid() && !done && next !in seen
      ensures size > 0 && Following(v, start, chain) == Some(next)
    {
    }

    /** A chain that is as long as was asked for, or cannot grow, is all of the walk that was asked for. */
    lemma StoppedWalk(k: nat)
      requires Valid() && size > 0
      requires |chain| == k + 1 || |chain| == MAX_CLUSTER_CHAIN || done || next in seen
      requires |chain| <= k + 1
      ensures chain == Walk(v, start, Min(k + 1, MAX_CLUSTER_CHAIN))
    {
      hide LinkOf, Walk;
      var n := Min(k + 1, MAX_CLUSTER_CHAIN);
      if |chain| < n {
        EndsHere();
        WalkEnds(v, start, chain);
        WalkPrefix(v, start, |chain| + 1, n);
      }
    }

    lemma EndsHere()
      requires Valid() && size > 0 && (done || next in seen)
      ensures Following(v, start, chain) == None
    {
    }

    /** The locked section of a read: extend, then look the cluster up; None is any error. */
    method Lookup(k: nat) returns (c: Option<nat>)
      requires Valid()
      modifies this`chain, this`seen, this`next, this`done
      ensures Valid() && old(chain) <= chain
      ensures size > 0 ==> chain == Extended(v, start, old(chain), k) && c == Found(v, start, old(chain), k)
      ensures size == 0 ==> c == None
    {
      hide LinkOf, Walk;
      var ok := ExtendTo(k);
      if !ok || k >= |chain| { return None; }
      return Some(chain[k]);
    }

    /** Locked sections of other reads on the same handle, which may run between two of ours. */
    method Others(ks: seq<nat>)
      requires Valid()
      modifies this`chain, this`seen, this`next, this`done
      ensures Valid() && old(chain) <= chain
    {
      for i := 0 to |ks|
        invariant Valid() && old(chain) <= chain
      {
        var _ := ExtendTo(ks[i]);
      }
    }

    /** The bytes from o on that one cluster of the walk holds, at most t of them; None is any error. */
    method Piece(o: nat, t: nat) returns (piece: Option<bytes>)
      requires Valid() && Sound(v) && o < size && 0 < t && o + t <= size
      modifies this`chain, this`seen, this`next, this`done
      ensures Valid() && old(chain) <= chain
      ensures piece.Some? ==>
                0 < |piece.value| <= t && piece == RestOfBlock(WalkBlocks(v, start)(IndexOf(v, o)), WithinOf(v, o), t)
      ensures Content(v, start, size).Some? || Sure(v, start, IndexOf(v, o)) ==> piece.Some?
    {
      hide Content, Valid, Sound, LinkOf, IndexOf, WithinOf, Walk, WalkCluster;
      ClusterSizes(v);
      var within := WithinOf(v, o);
      OnWalk(IndexOf(v, o));
      if Content(v, start, size).Some? { ContentFound(v, start, size, o, chain); }
      var c := Lookup(IndexOf(v, o));
      if c.None? { return None; }
      var data := v.cluster(c.value);
      if data.None? { return None; }
      ClusterWhole(v, c.value);
      return Some(data.value[within..within + Min(v.clusterSize - within, t)]);
    }

    lemma OnWalk(k: nat)
      requires Valid()
      ensures chain == Walk(v, start, |chain|) && |chain| <= MAX_CLUSTER_CHAIN
      ensures Found(v, start, chain, k).Some? ==> Found(v, start, chain, k) == WalkCluster(v, start, k)
      ensures Sure(v, start, k) ==> Found(v, start, chain, k).Some?
    {
      hide Walk, LinkOf;
      FoundIsWalk(v, start, chain, k);
      FoundWhen(v, start, chain, k);
    }

    /** After n bytes: the start of the wanted range, of every content that agrees with the clusters of the walk. */
    ghost predicate SoFar(was: bytes, now: bytes, off: nat, n: nat)
      requires WholeBlocks(WalkBlocks(v, start), v.clusterSize)
    {
      forall content ::
        |content| == size && Agrees(content, WalkBlocks(v, start), v.clusterSize) ==>
          Partly(content, was, now, off, n)
    }

    /**
     * readAt, while other reads extend the chain in between: on every FAT, and whatever the interleaving,
     * the bytes written are those of the clusters of the walk, up to the first one that fails, which is off
     * the walk, unreadable or has a broken entry; and all that is wanted whenever the eager reader can
     * produce the file's content.
     */
    method ReadAt(p: array<byte>, off: nat, others: nat -> seq<nat>) returns (n: nat, err: Option<ReadError>)
      requires Valid() && Sound(v)
      modifies p, this`chain, this`seen, this`next, this`done
      ensures Valid() && old(chain) <= chain && n <= p.Length && (off < size ==> off + n <= size)
      ensures WholeBlocks(WalkBlocks(v, start), v.clusterSize)
      ensures forall content :: |content| == size && Agrees(content, WalkBlocks(v, start), v.clusterSize) ==>
                && Partly(content, old(p[..]), p[..], Min(off, size), n)
                && (err == Some(ReadFailed) || Serves(content, old(p[..]), p[..], off, n, err))
      ensures Content(v, start, size).Some? ==> Serves(Content(v, start, size).value, old(p[..]), p[..], off, n, err)
      ensures err == Some(ReadFailed) ==>
                off + n < size && n < p.Length && v.clusterSize > 0 && !Sure(v, start, IndexOf(v, off + n))
    {
      hide Content, Valid, Serves, Partly, Agrees, SoFar, Sound, WholeBlocks, IndexOf, WithinOf, RestOfBlock, Sure;
      ClusterSizes(v);
      WalkBlocksWhole(v, start);
      n := 0;
      ghost var was := p[..];
      NothingYet(was, off);
      EagerAgrees(v, start, size);
      if off >= size { return 0, Some(EndOfFile); }
      if p.Length == 0 { return 0, None; }
      var want := Min(p.Length, size - off);
      var turn := 0;
      while n < want
        invariant Valid() && old(chain) <= chain && n <= want
        invariant |was| == p.Length && SoFar(was, p[..], off, n)
      {
        Others(others(turn));
        turn := turn + 1;
        var piece := Piece(off + n, want - n);
        if piece.None? {
          SoFarPartly(was, p[..], off, n);
          return n, Some(ReadFailed);
        }
        Extends(was, p[..], off, n, want, piece.value);
        CopyInto(p, n, piece.value);
        n := n + |piece.value|;
      }
      err := if want < p.Length then Some(EndOfFile) else None;
      SoFarPartly(was, p[..], off, n);
      AllWanted(was, p[..], off, n);
    }

    lemma NothingYet(was: bytes, off: nat)
      requires WholeBlocks(WalkBlocks(v, start), v.clusterSize)
      ensures off <= size ==> SoFar(was, was, off, 0)
      ensures forall content :: |content| == size ==>
                && Partly(content, was, was, Min(off, size), 0)
                && (off >= size ==> Serves(content, was, was, off, 0, Some(EndOfFile)))
                && (off < size && was == [] ==> Serves(content, was, was, off, 0, None))
    {
      hide Agrees, Partly, Serves;
      forall content: bytes | |content| == size
        ensures Partly(content, was, was, Min(off, size), 0)
        ensures off >= size ==> Serves(content, was, was, off, 0, Some(EndOfFile))
        ensures off < size && was == [] ==> Serves(content, was, was, off, 0, None)
      {
        PartlyStart(content, was, Min(off, size));
        ServesNothing(content, was, off);
      }
    }

    lemma SoFarPartly(was: bytes, now: bytes, off: nat, n: nat)
      requires WholeBlocks(WalkBlocks(v, start), v.clusterSize) && off < size && SoFar(was, now, off, n)
      ensures forall content :: |content| == size && Agrees(content, WalkBlocks(v, start), v.clusterSize) ==>
                Partly(content, was, now, Min(off, size), n)
    {
      hide Agrees, Partly;
    }

    lemma Extends(was: bytes, now: bytes, off: nat, n: nat, want: nat, piece: bytes)
      requires WholeBlocks(WalkBlocks(v, start), v.clusterSize) && SoFar(was, now, off, n)
      requires n < want <= |was| && |now| == |was| && off + want <= size && 0 < |piece| <= want - n
      requires Some(piece) == RestOfBlock(WalkBlocks(v, start)(IndexOf(v, off + n)), WithinOf(v, off + n), want - n)
      ensures SoFar(was, Patch(now, n, piece), off, n + |piece|)
    {
      hide Agrees, Partly, RestOfBlock, WalkBlocks, Patch, WholeBlocks;
      forall content | |content| == size && Agrees(content, WalkBlocks(v, start), v.clusterSize)
        ensures Partly(content, was, Patch(now, n, piece), off, n + |piece|)
      {
        HonestPiece(content, WalkBlocks(v, start), v.clusterSize, off + n, want - n);
        PartlyStep(content, was, now, off, n, piece);
      }
    }

    lemma AllWanted(was: bytes, now: bytes, off: nat, n: nat)
      requires WholeBlocks(WalkBlocks(v, start), v.clusterSize)
      requires off < size && was != [] && n == Min(|was|, size - off) && SoFar(was, now, off, n)
      ensures forall content :: |content| == size && Agrees(content, WalkBlocks(v, start), v.clusterSize) ==>
                Serves(content, was, now, off, n, if n < |was| then Some(EndOfFile) else None)
    {
      hide Agrees, Partly, WalkBlocks;
      forall content | |content| == size && Agrees(content, WalkBlocks(v, start), v.clusterSize)
        ensures Serves(content, was, now, off, n, if n < |was| then Some(EndOfFile) else None)
      {
        ServesWanted(content, was, now, off, n);
      }
    }

    /** Read: like ReadAt at the cursor, but the last bytes are reported cleanly. */
    method Read(p: array<byte>, others: nat -> seq<nat>) returns (n: nat, err: Option<ReadError>)
      requires Valid() && Sound(v)
      modifies p, this
      ensures Valid() && pos == old(pos) + n
      ensures WholeBlocks(WalkBlocks(v, start), v.clusterSize)
      ensures forall content :: |content| == size && Agrees(content, WalkBlocks(v, start), v.clusterSize) ==>
                Partly(content, old(p[..]), p[..], Min(old(pos), size), n)
      ensures Content(v, start, size).Some? ==>
                && Partly(Content(v, start, size).value, old(p[..]), p[..], Min(old(pos), size), n)
                && n == Served(size, p.Length, old(pos)).0
                && err == if old(pos) >= size then Some(EndOfFile) else None
    {
      hide Content, Partly, Agrees, WholeBlocks, LinkOf, Walk;
      WalkBlocksWhole(v, start);
      EagerAgrees(v, start, size);
      NothingYet(p[..], pos);
      if pos >= size { return 0, Some(EndOfFile); }
      n, err := ReadAt(p, pos, others);
      pos := pos + n;
      if err == Some(EndOfFile) && n > 0 { err := None; }
    }

    /** Seek to an absolute, relative or end-relative position; negative positions are refused. */
    method Seek(offset: int, whence: Whence) returns (r: Option<nat>)
      requires Valid()
      modifies this`pos
      ensures Valid()
      ensures var target := offset + match whence case FromStart => 0 case FromCurrent => old(pos) case FromEnd => size;
              r == (if target < 0 then None else Some(target)) && pos == if target < 0 then old(pos) else target
    {
      var target := match whence
        case FromStart => offset
        case FromCurrent => pos + offset
        case FromEnd => size + offset;
      if target < 0 { return None; }
      pos := target;
      r := Some(pos);
    }
  }

  lemma NotBefore(cs: seq<nat>, k: nat)
    requires Distinct(cs) && k < |cs|
    ensures cs[k] !in cs[..k]
  {
  }

  /** Inside a whole chain every entry leads on, and the last one ends it. */
  lemma ChainLinks(v: Volume, start: nat, cs: seq<nat>, i: nat)
    requires IsChain(v, start, cs) && i < |cs|
    ensures LinkOf(v, cs[i]) == if i < |cs| - 1 then Next(cs[i + 1]) else Last
  {
    hide LinkOf;
  }
}

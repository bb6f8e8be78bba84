/**
 * What every streaming file reader promises of a read at an offset: the slice of the file's
 * content, cut off at its end with an end-of-file report, and nothing else touched.
 */
module Streaming {
  import opened Bytes

  datatype ReadError = EndOfFile | ReadFailed

  datatype Whence = FromStart | FromCurrent | FromEnd

  /** How many bytes a read of len bytes at off serves of a file of this size, and what it reports. */
  function Served(size: nat, len: nat, off: nat): (r: (nat, Option<ReadError>))
    ensures r.0 <= len && (off < size ==> off + r.0 <= size) && (off >= size ==> r.0 == 0)
  {
    if off >= size then (0, Some(EndOfFile))
    else if len == 0 then (0, None)
    else (Min(len, size - off), if size - off < len then Some(EndOfFile) else None)
  }

  /** The buffer holds the first n bytes of the content from off, and is untouched behind them. */
  ghost predicate Partly(content: bytes, before: bytes, after: bytes, off: nat, n: nat) {
    n <= |before| && off + n <= |content| && after == content[off..off + n] + before[n..]
  }

  /** The outcome of a whole read. */
  ghost predicate Serves(content: bytes, before: bytes, after: bytes, off: nat, n: nat, err: Option<ReadError>) {
    (n, err) == Served(|content|, |before|, off) && Partly(content, before, after, Min(off, |content|), n)
  }

  lemma PartlyStart(content: bytes, before: bytes, off: nat)
    requires off <= |content|
    ensures Partly(content, before, before, off, 0)
  {
    assert content[off..off] + before[0..] == before;
  }

  lemma PartlyStep(content: bytes, before: bytes, after: bytes, off: nat, n: nat, piece: bytes)
    requires Partly(content, before, after, off, n)
    requires n + |piece| <= |before| && off + n + |piece| <= |content| && piece == content[off + n..off + n + |piece|]
    ensures |after| == |before| && Partly(content, before, Patch(after, n, piece), off, n + |piece|)
  {
    SliceJoin(content, off, off + n, off + n + |piece|);
    assert after[..n] == content[off..off + n] && after[n + |piece|..] == before[n + |piece|..];
  }

  /** Nothing is served past the end, or into an empty buffer. */
  lemma ServesNothing(content: bytes, before: bytes, off: nat)
    ensures off >= |content| ==> Serves(content, before, before, off, 0, Some(EndOfFile))
    ensures off < |content| && before == [] ==> Serves(content, before, before, off, 0, None)
  {
    PartlyStart(content, before, Min(off, |content|));
  }

  /** A buffer filled as far as the content goes is a whole read. */
  lemma ServesWanted(content: bytes, before: bytes, after: bytes, off: nat, n: nat)
    requires off < |content| && before != [] && n == Min(|before|, |content| - off)
    requires Partly(content, before, after, off, n)
    ensures Serves(content, before, after, off, n, if n < |before| then Some(EndOfFile) else None)
  {
  }

  // ------------------------------------------------------------ content made of equal blocks

  /** The first n bytes of some blocks, in order; None if a block that is needed cannot be read. */
  function Gather(blocks: seq<Option<bytes>>, n: nat): Option<bytes> {
    if n == 0 || blocks == [] then Some([])
    else
      match blocks[0]
      case None => None
      case Some(d) =>
        var take := Min(|d|, n);
        match Gather(blocks[1..], n - take)
        case None => None
        case Some(rest) => Some(d[..take] + rest)
  }

  /** When every block can be read, what is gathered is their data, cut. */
  lemma {:induction false} GatherAll(blocks: seq<Option<bytes>>, datas: seq<bytes>, n: nat)
    requires |datas| == |blocks| && forall i :: 0 <= i < |blocks| ==> blocks[i] == Some(datas[i])
    requires n <= |Concat(datas)|
    ensures Gather(blocks, n) == Some(Concat(datas)[..n])
    decreases |blocks|
  {
    if n > 0 && blocks != [] {
      var d, rest := datas[0], Concat(datas[1..]);
      var take := Min(|d|, n);
      GatherAll(blocks[1..], datas[1..], n - take);
      assert (d + rest)[..n] == d[..take] + rest[..n - take];
    }
  }

  /** Blocks that can be read are k bytes long. */
  ghost predicate Even(blocks: seq<Option<bytes>>, k: nat) {
    k > 0 && forall i :: 0 <= i < |blocks| && blocks[i].Some? ==> |blocks[i].value| == k
  }

  lemma GatherWhole(blocks: seq<Option<bytes>>, k: nat, n: nat)
    requires Even(blocks, k) && 0 < n <= |blocks| * k && Gather(blocks, n).Some?
    ensures blocks != [] && blocks[0].Some? && Gather(blocks[1..], n - Min(k, n)).Some?
    ensures Gather(blocks, n).value == blocks[0].value[..Min(k, n)] + Gather(blocks[1..], n - Min(k, n)).value
  {
  }

  lemma {:induction false} GatherLength(blocks: seq<Option<bytes>>, k: nat, n: nat)
    requires Even(blocks, k) && n <= |blocks| * k && Gather(blocks, n).Some?
    ensures |Gather(blocks, n).value| == n
  {
    hide Gather;
    if n == 0 { GatherNone(blocks); }
    if n > 0 {
      GatherWhole(blocks, k, n);
      MulAdd(|blocks| - 1, 1, k);
      GatherLength(blocks[1..], k, n - Min(k, n));
    }
  }

  lemma GatherNone(blocks: seq<Option<bytes>>)
    ensures Gather(blocks, 0) == Some([])
  {
  }

  /** A piece of the content that stays inside one block is that block's, at the same place. */
  lemma {:induction false} GatherPiece(blocks: seq<Option<bytes>>, k: nat, n: nat, o: nat, t: nat)
    requires Even(blocks, k) && n <= |blocks| * k && Gather(blocks, n).Some?
    requires o < n && 0 < t && o + t <= n && o % k + t <= k
    ensures |Gather(blocks, n).value| == n
    ensures o / k < |blocks| && blocks[o / k].Some?
    ensures Gather(blocks, n).value[o..o + t] == blocks[o / k].value[o % k..o % k + t]
  {
    hide Gather;
    var out := Gather(blocks, n).value;
    GatherLength(blocks, k, n);
    GatherWhole(blocks, k, n);
    var d, rest := blocks[0].value, Gather(blocks[1..], n - Min(k, n)).value;
    if o < k {
      DivModUnique(o, k, 0, o);
      assert out[o..o + t] == d[o..o + t];
    } else {
      assert n - k <= |blocks[1..]| * k by { MulAdd(|blocks| - 1, 1, k); }
      NextBlock(o, k);
      GatherPiece(blocks[1..], k, n - k, o - k, t);
      BehindPrefix(d[..k], rest, o, t);
    }
  }

  lemma BehindPrefix(d: bytes, rest: bytes, o: nat, t: nat)
    requires |d| <= o && o + t <= |d| + |rest|
    ensures (d + rest)[o..o + t] == rest[o - |d|..o - |d| + t]
  {
  }

  lemma NextBlock(o: nat, k: nat)
    requires 0 < k <= o
    ensures o / k == (o - k) / k + 1 && o % k == (o - k) % k
  {
    DivModUnique(o, k, (o - k) / k + 1, (o - k) % k);
  }

  /** What is left of a block from a place inside it, at most t bytes. */
  function RestOfBlock(block: Option<bytes>, within: nat, t: nat): Option<bytes> {
    match block
    case None => None
    case Some(d) => if within >= |d| then None else Some(d[within..within + Min(|d| - within, t)])
  }

  /** Copying from the block an offset falls in gives the content at that offset. */
  lemma BlockServes(blocks: seq<Option<bytes>>, k: nat, n: nat, o: nat, t: nat, i: nat, w: nat)
    requires Even(blocks, k) && n <= |blocks| * k && Gather(blocks, n).Some? && 0 < t && o + t <= n
    requires i == o / k && w == o % k
    ensures i < |blocks| && |Gather(blocks, n).value| == n
    ensures var p := RestOfBlock(blocks[i], w, t);
            p.Some? && 0 < |p.value| <= t && p.value == Gather(blocks, n).value[o..o + |p.value|]
  {
    hide Gather;
    GatherPiece(blocks, k, n, o, Min(k - w, t));
  }

  /** One step of a loop that appends block after block. */
  lemma GatherStep(blocks: seq<Option<bytes>>, i: nat, n: nat, out: bytes)
    requires i < |blocks| && n > 0 && blocks[i].Some?
    ensures var d := blocks[i].value;
            var take := Min(|d|, n);
            Behind(out, Gather(blocks[i..], n)) == Behind(out + d[..take], Gather(blocks[i + 1..], n - take))
  {
    assert blocks[i..][1..] == blocks[i + 1..];
    var d := blocks[i].value;
    var take := Min(|d|, n);
    var rest := Gather(blocks[i + 1..], n - take);
    if rest.Some? { AppendAssoc(out, d[..take], rest.value); }
  }

  /** What is still to come, behind what is there. */
  function Behind(out: bytes, rest: Option<bytes>): Option<bytes> {
    match rest case None => None case Some(r) => Some(out + r)
  }

  lemma BehindNothing(rest: Option<bytes>)
    ensures Behind([], rest) == rest
  {
    if rest.Some? { assert [] + rest.value == rest.value; }
  }

  // ------------------------------------------------------------ a reader over immutable state

  /** A piece that is given is a piece of the content: from o on, at least one byte and at most t. */
  ghost predicate PieceHonest(content: bytes, piece: (nat, nat) -> Option<bytes>) {
    forall o: nat, t: nat :: 0 < t && o + t <= |content| && piece(o, t).Some? ==>
      0 < |piece(o, t).value| <= t && piece(o, t).value == content[o..o + |piece(o, t).value|]
  }

  /** And it is always given. */
  ghost predicate PieceServes(content: bytes, piece: (nat, nat) -> Option<bytes>) {
    PieceHonest(content, piece) && forall o: nat, t: nat :: 0 < t && o + t <= |content| ==> piece(o, t).Some?
  }

  /** Whatever a piece is, it is never longer than asked for, and never empty. */
  ghost predicate PieceBounded(size: nat, piece: (nat, nat) -> Option<bytes>) {
    forall o: nat, t: nat :: 0 < t && o + t <= size && piece(o, t).Some? ==> 0 < |piece(o, t).value| <= t
  }

  // ------------------------------------------------------------ blocks that may fail

  /** What reading each block of a file gives; blocks that can be read are k bytes long. */
  ghost predicate WholeBlocks(block: nat -> Option<bytes>, k: nat) {
    k > 0 && forall i :: block(i).Some? ==> |block(i).value| == k
  }

  /** Wherever a byte's block can be read, that is the byte. */
  ghost predicate Agrees(content: bytes, block: nat -> Option<bytes>, k: nat)
    requires WholeBlocks(block, k)
  {
    forall b :: 0 <= b < |content| && block(b / k).Some? ==> content[b] == block(b / k).value[b % k]
  }

  /** The file with zeros for what cannot be read: one content that agrees, among many if any block fails. */
  function Patchwork(block: nat -> Option<bytes>, k: nat, size: nat): (content: bytes)
    requires k > 0
    ensures |content| == size
  {
    seq<byte>(size, b requires 0 <= b < size =>
      if block(b / k).Some? && b % k < |block(b / k).value| then block(b / k).value[b % k] else 0)
  }

  lemma PatchworkAgrees(block: nat -> Option<bytes>, k: nat, size: nat)
    requires WholeBlocks(block, k)
    ensures Agrees(Patchwork(block, k, size), block, k)
  {
  }

  /** What is copied from a block that can be read is a piece of every content that agrees with the blocks. */
  lemma HonestPiece(content: bytes, block: nat -> Option<bytes>, k: nat, o: nat, t: nat)
    requires WholeBlocks(block, k) && Agrees(content, block, k) && 0 < t && o + t <= |content|
    ensures var p := RestOfBlock(block(o / k), o % k, t);
            && (p.Some? <==> block(o / k).Some?)
            && (p.Some? ==> 0 < |p.value| <= t && p.value == content[o..o + |p.value|])
  {
    var i, w := o / k, o % k;
    if block(i).Some? {
      var p := RestOfBlock(block(i), w, t).value;
      forall j | 0 <= j < |p| ensures p[j] == content[o..o + |p|][j] { DivModUnique(o + j, k, i, w + j); }
    }
  }

  /** A piece is whatever is left of the block at its offset. */
  ghost predicate FromBlocks(size: nat, block: nat -> Option<bytes>, k: nat, piece: (nat, nat) -> Option<bytes>) {
    k > 0 && forall o: nat, t: nat :: 0 < t && o + t <= size ==> piece(o, t) == RestOfBlock(block(o / k), o % k, t)
  }

  /**
   * Real bytes or an error, whatever else cannot be read: pieces are honest about every content that
   * agrees with the readable blocks, and a piece fails exactly where its own block does.
   */
  ghost predicate RealOrFailed(size: nat, block: nat -> Option<bytes>, k: nat, piece: (nat, nat) -> Option<bytes>) {
    && WholeBlocks(block, k)
    && (forall content :: |content| == size && Agrees(content, block, k) ==> PieceHonest(content, piece))
    && (forall o: nat, t: nat :: 0 < t && o + t <= size ==> (piece(o, t).Some? <==> block(o / k).Some?))
  }

  lemma FromBlocksReal(size: nat, block: nat -> Option<bytes>, k: nat, piece: (nat, nat) -> Option<bytes>)
    requires WholeBlocks(block, k) && FromBlocks(size, block, k, piece)
    ensures RealOrFailed(size, block, k, piece)
  {
    hide RestOfBlock, Agrees, WholeBlocks;
    forall content: bytes, o: nat, t: nat | |content| == size && Agrees(content, block, k) && 0 < t && o + t <= size
      ensures piece(o, t).Some? ==>
                && 0 < |piece(o, t).value| <= t
                && piece(o, t).value == content[o..o + |piece(o, t).value|]
    {
      HonestPiece(content, block, k, o, t);
    }
    var patched := Patchwork(block, k, size);
    PatchworkAgrees(block, k, size);
    forall o: nat, t: nat | 0 < t && o + t <= size ensures piece(o, t).Some? <==> block(o / k).Some? {
      HonestPiece(patched, block, k, o, t);
    }
  }

  /**
   * The streaming reader every handler has over state that is fixed at open: NTFS runs, ext4 and XFS
   * trees, Btrfs and APFS extent lists.  They differ in how they find the piece at an offset.
   */
  class StreamReader {
    const size: nat
    const piece: (nat, nat) -> Option<bytes>
    var pos: nat

    constructor (size: nat, piece: (nat, nat) -> Option<bytes>)
      ensures this.size == size && this.piece == piece && pos == 0
    {
      this.size, this.piece, pos := size, piece, 0;
    }

    /**
     * readAt: piece by piece until the buffer or the file ends; every turn makes progress.  Real bytes
     * or an error: what is written is content even when a later piece fails.
     */
    method ReadAt(p: array<byte>, off: nat) returns (n: nat, err: Option<ReadError>)
      requires PieceBounded(size, piece)
      modifies p
      ensures n <= p.Length && (off < size ==> off + n <= size) && (off >= size ==> n == 0)
      ensures forall content :: |content| == size && PieceHonest(content, piece) ==>
                && Partly(content, old(p[..]), p[..], Min(off, size), n)
                && (err == Some(ReadFailed) || Serves(content, old(p[..]), p[..], off, n, err))
                && (PieceServes(content, piece) ==> err != Some(ReadFailed))
      ensures err == Some(ReadFailed) ==>
                off + n < size && n < p.Length && piece(off + n, Min(p.Length, size - off) - n) == None
    {
      hide Partly, PieceServes, PieceHonest, PieceBounded, SoFar, Serves;
      n := 0;
      ghost var was := p[..];
      NothingYet(was, off);
      if off >= size { return 0, Some(EndOfFile); }
      if p.Length == 0 { return 0, None; }
      var want := Min(p.Length, size - off);
      while n < want
        invariant n <= want && |was| == p.Length
        invariant SoFar(was, p[..], off, n)
      {
        var d := piece(off + n, want - n);
        Extends(was, p[..], off, n, want);
        if d.None? {
          SoFarPartly(was, p[..], off, n);
          return n, Some(ReadFailed);
        }
        CopyInto(p, n, d.value);
        n := n + |d.value|;
      }
      err := if want < p.Length then Some(EndOfFile) else None;
      SoFarPartly(was, p[..], off, n);
      AllWanted(was, p[..], off, n);
    }

    /** Read: like ReadAt at the cursor, but the last bytes are reported cleanly. */
    method Read(p: array<byte>) returns (n: nat, err: Option<ReadError>)
      requires PieceBounded(size, piece)
      modifies p, this`pos
      ensures pos == old(pos) + n
      ensures forall content :: |content| == size && PieceHonest(content, piece) ==>
                && Partly(content, old(p[..]), p[..], Min(old(pos), size), n)
                && (PieceServes(content, piece) ==>
                     n == Served(size, p.Length, old(pos)).0
                         && err == if old(pos) >= size then Some(EndOfFile) else None)
    {
      hide PieceServes, PieceHonest, Partly;
      if pos >= size {
        AtEnd(p[..]);
        return 0, Some(EndOfFile);
      }
      n, err := ReadAt(p, pos);
      pos := pos + n;
      if err == Some(EndOfFile) && n > 0 { err := None; }
    }

    method Seek(offset: int, whence: Whence) returns (r: Option<nat>)
      modifies this`pos
      ensures var target := offset + match whence case FromStart => 0 case FromCurrent => old(pos) case FromEnd => size;
              r == (if target < 0 then None else Some(target)) && pos == if target < 0 then old(pos) else target
    {
      var target := match whence
        case FromStart => offset
        case FromCurrent => pos + offset
        case FromEnd => size + offset;
      if target < 0 { return None; }
      pos := target;
      r := Some(pos);
    }

    ghost predicate SoFar(was: bytes, now: bytes, off: nat, n: nat) {
      forall content :: |content| == size && PieceHonest(content, piece) ==> Partly(content, was, now, off, n)
    }

    lemma SoFarPartly(was: bytes, now: bytes, off: nat, n: nat)
      requires SoFar(was, now, off, n) && off < size
      ensures forall content ::
                |content| == size && PieceHonest(content, piece) ==> Partly(content, was, now, Min(off, size), n)
    {
      hide Partly, PieceHonest;
    }

    lemma NothingYet(was: bytes, off: nat)
      ensures off <= size ==> SoFar(was, was, off, 0)
      ensures forall content :: |content| == size ==>
                && Partly(content, was, was, Min(off, size), 0)
                && (off >= size ==> Serves(content, was, was, off, 0, Some(EndOfFile)))
                && (off < size && was == [] ==> Serves(content, was, was, off, 0, None))
    {
      forall content: bytes | |content| == size
        ensures Partly(content, was, was, Min(off, size), 0)
        ensures off >= size ==> Serves(content, was, was, off, 0, Some(EndOfFile))
        ensures off < size && was == [] ==> Serves(content, was, was, off, 0, None)
      {
        PartlyStart(content, was, Min(off, size));
        ServesNothing(content, was, off);
      }
    }

    lemma AtEnd(was: bytes)
      ensures forall content :: |content| == size ==> Partly(content, was, was, size, 0)
    {
      forall content: bytes | |content| == size ensures Partly(content, was, was, size, 0) {
        PartlyStart(content, was, size);
      }
    }

    lemma Extends(was: bytes, now: bytes, off: nat, n: nat, want: nat)
      requires PieceBounded(size, piece) && n < want <= |was| && |now| == |was| && off + want <= size
      requires SoFar(was, now, off, n)
      ensures var d := piece(off + n, want - n);
              if d.None? then forall content :: |content| == size ==> !PieceServes(content, piece)
              else 0 < |d.value| <= want - n && SoFar(was, Patch(now, n, d.value), off, n + |d.value|)
    {
      hide Partly;
      var d := piece(off + n, want - n);
      if d.Some? {
        forall content | |content| == size && PieceHonest(content, piece)
          ensures Partly(content, was, Patch(now, n, d.value), off, n + |d.value|)
        {
          PartlyStep(content, was, now, off, n, d.value);
        }
      }
    }

    lemma AllWanted(was: bytes, now: bytes, off: nat, n: nat)
      requires off < size && was != [] && n == Min(|was|, size - off) && SoFar(was, now, off, n)
      ensures forall content :: |content| == size && PieceHonest(content, piece) ==>
                Serves(content, was, now, off, n, if n < |was| then Some(EndOfFile) else None)
    {
      hide Partly, PieceHonest;
      forall content | |content| == size && PieceHonest(content, piece)
        ensures Serves(content, was, now, off, n, if n < |was| then Some(EndOfFile) else None)
      {
        ServesWanted(content, was, now, off, n);
      }
    }
  }
}

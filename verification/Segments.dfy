/** The logical image: segment files laid end to end (internal/read.go, internal/open.go). */
module Segments {
  import opened Bytes

  /** One segment file and the logical offset at which it begins. */
  datatype Segment = Segment(file: bytes, start: nat)

  function Files(segs: seq<Segment>): (fs: seq<bytes>)
    ensures |fs| == |segs|
    ensures forall i :: 0 <= i < |segs| ==> fs[i] == segs[i].file
  {
    seq(|segs|, i requires 0 <= i < |segs| => segs[i].file)
  }

  /** All segment files in order, as one byte string. */
  function Joined(segs: seq<Segment>): bytes { Concat(Files(segs)) }

  /** Every segment starts where the previous ones end; Open establishes this. */
  ghost predicate PrefixSums(segs: seq<Segment>) {
    forall i :: 0 <= i < |segs| ==> segs[i].start == |Concat(Files(segs)[..i])|
  }

  lemma PrefixStep(files: seq<bytes>, i: nat)
    requires i < |files|
    ensures |Concat(files[..i + 1])| == |Concat(files[..i])| + |files[i]|
  {
    assert files[..i + 1] == files[..i] + [files[i]];
    ConcatSplit(files[..i], [files[i]]);
    assert Concat([files[i]]) == files[i];
  }

  /** Segment i occupies its own stretch of the joined image. */
  lemma SegmentInJoined(segs: seq<Segment>, i: nat)
    requires PrefixSums(segs) && i < |segs|
    ensures Holds(Joined(segs), segs[i].start, segs[i].file)
  {
    ConcatAt(Files(segs), i);
  }

  lemma PieceOfJoined(segs: seq<Segment>, i: nat, cur: nat, len: nat)
    requires PrefixSums(segs) && i < |segs| && segs[i].start <= cur
    requires cur + len <= segs[i].start + |segs[i].file|
    ensures cur + len <= |Joined(segs)|
    ensures segs[i].file[cur - segs[i].start..cur - segs[i].start + len] == Joined(segs)[cur..cur + len]
  {
    SegmentInJoined(segs, i);
    HoldsSlice(Joined(segs), segs[i].start, segs[i].file, cur - segs[i].start, cur - segs[i].start + len);
  }

  /** Every logical offset inside the image lies in some segment. */
  lemma {:induction false} SomeSegmentCovers(files: seq<bytes>, addr: nat) returns (i: nat)
    requires addr < |Concat(files)|
    ensures i < |files|
    ensures |Concat(files[..i])| <= addr < |Concat(files[..i])| + |files[i]|
  {
    if addr < |files[0]| {
      i := 0;
    } else {
      var j := SomeSegmentCovers(files[1..], addr - |files[0]|);
      i := j + 1;
      assert files[..i] == [files[0]] + files[1..][..j];
      ConcatSplit([files[0]], files[1..][..j]);
      assert Concat([files[0]]) == files[0];
    }
  }

  /** Open assigns the cumulative start offsets. */
  method AssignStarts(files: seq<bytes>) returns (segs: seq<Segment>)
    ensures Files(segs) == files
    ensures PrefixSums(segs)
  {
    segs := [];
    var start := 0;
    for k := 0 to |files|
      invariant |segs| == k
      invariant forall i :: 0 <= i < k ==> segs[i].file == files[i] && segs[i].start == |Concat(files[..i])|
      invariant start == |Concat(files[..k])|
    {
      segs := segs + [Segment(files[k], start)];
      PrefixStep(files, k);
      start := start + |files[k]|;
    }
    assert Files(segs) == files;
  }

  /** The index of the first segment covering addr, or -1 past the end of the image. */
  method SegmentAt(segs: seq<Segment>, addr: nat) returns (i: int)
    requires PrefixSums(segs)
    ensures -1 <= i < |segs|
    ensures i >= 0 ==> segs[i].start <= addr < segs[i].start + |segs[i].file|
    ensures i < 0 <==> addr >= |Joined(segs)|
  {
    for k := 0 to |segs|
      invariant forall j :: 0 <= j < k ==> !(segs[j].start <= addr < segs[j].start + |segs[j].file|)
    {
      if addr >= segs[k].start && addr < segs[k].start + |segs[k].file| {
        SegmentInJoined(segs, k);
        return k;
      }
    }
    if addr < |Joined(segs)| {
      var j := SomeSegmentCovers(Files(segs), addr);
      assert false;
    }
    return -1;
  }

  /** What a read of the logical image returns: nothing for a negative range, else what exists. */
  function ReadSpec(image: bytes, addr: int, length: int): Option<bytes> {
    if length < 0 || addr < 0 then None else Some(Clamp(image, addr, length))
  }

  lemma FilledNone(buf: bytes, image: bytes, addr: nat)
    ensures Filled(buf, 0, image, addr)
  {
  }

  lemma FilledAll(buf: bytes, n: nat, image: bytes, addr: nat, length: nat)
    requires Filled(buf, n, image, addr) && n <= length && (n < length ==> addr + n >= |image|)
    ensures buf[..n] == Clamp(image, addr, length)
  {
  }

  /**
   * Reads across segment boundaries piece by piece: the head from one segment, the tail from the
   * next.  The result is exactly the slice of the joined image, cut off at its end.
   */
  method ReadAt(segs: seq<Segment>, addr: int, length: int) returns (r: Option<bytes>)
    requires PrefixSums(segs)
    ensures r == ReadSpec(Joined(segs), addr, length)
  {
    hide PrefixSums, Joined, Filled, Patch;
    if length < 0 || addr < 0 { return None; }
    var buffer := new byte[length](_ => 0);
    ghost var image := Joined(segs);
    var n, remaining, cur := 0, length, addr;
    FilledNone(buffer[..], image, addr);
    while remaining > 0
      invariant 0 <= n && 0 <= remaining && n + remaining == length == buffer.Length && cur == addr + n
      invariant Filled(buffer[..], n, image, addr)
    {
      var s := SegmentAt(segs, cur);
      if s < 0 { break; }
      var local := cur - segs[s].start;
      var readLen := Min(remaining, |segs[s].file| - local);
      PieceOfJoined(segs, s, cur, readLen);
      FilledStep(buffer[..], n, segs[s].file[local..local + readLen], image, addr);
      CopyInto(buffer, n, segs[s].file[local..local + readLen]);
      n, remaining, cur := n + readLen, remaining - readLen, cur + readLen;
    }
    r := Some(buffer[..n]);
    FilledAll(buffer[..], n, image, addr, length);
    assert buffer[..n] == buffer[..][..n];
  }
}

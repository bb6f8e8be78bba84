/**
 * The layout pass of ReadSectorData (internal/read.go): which chunk serves which stretch of the
 * result.  The specification is a flat list of chunks; the code walks sections.
 */
module Planner {
  import opened Bytes

  function Sum(ns: seq<nat>): nat {
    if ns == [] then 0 else ns[0] + Sum(ns[1..])
  }

  lemma {:induction false} SumSplit(a: seq<nat>, b: seq<nat>)
    ensures Sum(a + b) == Sum(a) + Sum(b)
  {
    if a == [] {
      assert a + b == b;
    } else {
      assert (a + b)[1..] == a[1..] + b;
      SumSplit(a[1..], b);
    }
  }

  lemma SumStep(ns: seq<nat>, i: nat)
    requires i < |ns|
    ensures Sum(ns[..i + 1]) == Sum(ns[..i]) + ns[i] <= Sum(ns)
  {
    assert ns[..i + 1] == ns[..i] + [ns[i]];
    SumSplit(ns[..i], [ns[i]]);
    assert ns == ns[..i + 1] + ns[i + 1..];
    SumSplit(ns[..i + 1], ns[i + 1..]);
  }

  /** Sector size, sectors per chunk, media end in sectors, and chunks per section. */
  datatype Layout = Layout(ss: nat, cs: nat, media: nat, counts: seq<nat>) {
    ghost predicate Valid() { ss > 0 && cs > 0 }

    function ChunkBytes(): (r: nat)
      requires Valid()
      ensures r > 0
    {
      cs * ss
    }

    function Chunks(): nat { Sum(counts) }

    function TotalSectors(): nat { Chunks() * cs }

    /** The bytes chunk g must hold: all of them, unless the media ends inside the chunk. */
    function ValidBytes(g: nat): nat {
      if g * cs < media < g * cs + cs then (media - g * cs) * ss else cs * ss
    }
  }

  /** One chunk to decode and where its span lands in the result. */
  datatype Job = Job(si: nat, ci: nat, dst: nat, srcFirst: nat, span: nat, valid: nat, sector: nat)

  // ------------------------------------------------------------ flat chunk numbers

  /** The section and the index within it of chunk g; empty sections hold no chunk. */
  function Locate(counts: seq<nat>, g: nat): (r: (nat, nat))
    requires g < Sum(counts)
    ensures r.0 < |counts| && r.1 < counts[r.0]
  {
    if g < counts[0] then (0, g)
    else var r := Locate(counts[1..], g - counts[0]); (r.0 + 1, r.1)
  }

  /** Locate undoes the numbering: chunk i of section s has number (chunks before s) + i, and no other. */
  lemma {:induction false} LocateInverse(counts: seq<nat>, s: nat, i: nat)
    requires s < |counts| && i < counts[s]
    ensures Sum(counts[..s]) + i < Sum(counts)
    ensures Locate(counts, Sum(counts[..s]) + i) == (s, i)
  {
    SumStep(counts, s);
    if s > 0 {
      assert counts[..s] == [counts[0]] + counts[1..][..s - 1];
      assert counts[..s][1..] == counts[1..][..s - 1];
      LocateInverse(counts[1..], s - 1, i);
    }
  }

  lemma {:induction false} NumberOfLocated(counts: seq<nat>, g: nat)
    requires g < Sum(counts)
    ensures var r := Locate(counts, g); Sum(counts[..r.0]) + r.1 == g
  {
    if g >= counts[0] {
      NumberOfLocated(counts[1..], g - counts[0]);
      var r := Locate(counts[1..], g - counts[0]);
      assert counts[..r.0 + 1][1..] == counts[1..][..r.0];
    }
  }

  // ------------------------------------------------------------ the job list

  function JobFor(l: Layout, start: nat, end: nat, cur: nat): (j: Job)
    requires l.Valid() && start <= cur < end && cur < l.TotalSectors()
  {
    InRange(l, cur);
    var g := cur / l.cs;
    var at := Locate(l.counts, g);
    var chunkEnd := Min(g * l.cs + l.cs, end);
    assert g * l.cs <= cur < chunkEnd by { assert cur == g * l.cs + cur % l.cs; }
    MulNonNegative(cur - start, l.ss); MulNonNegative(cur - g * l.cs, l.ss); MulNonNegative(chunkEnd - cur, l.ss);
    Job(at.0, at.1, (cur - start) * l.ss, (cur - g * l.cs) * l.ss, (chunkEnd - cur) * l.ss, l.ValidBytes(g), cur)
  }

  lemma MulNonNegative(a: int, b: int)
    requires a >= 0 && b >= 0
    ensures a * b >= 0
  {
  }

  /** A sector before the coverage end lies in some chunk. */
  lemma InRange(l: Layout, cur: nat)
    requires l.Valid() && cur < l.TotalSectors()
    ensures cur / l.cs < l.Chunks()
  {
    if cur / l.cs >= l.Chunks() {
      MulLe(l.Chunks(), cur / l.cs, l.cs);
      assert false;
    }
  }

  lemma ChunkAdvances(l: Layout, cur: nat)
    requires l.Valid()
    ensures cur / l.cs * l.cs <= cur < cur / l.cs * l.cs + l.cs
  {
    assert cur == cur / l.cs * l.cs + cur % l.cs;
  }

  /** The jobs for sectors [cur, end), one per covering chunk, in order, up to the coverage end. */
  function JobsFrom(l: Layout, start: nat, end: nat, cur: nat): seq<Job>
    requires l.Valid() && start <= cur
    decreases end - cur
  {
    if cur >= end || cur >= l.TotalSectors() then []
    else
      ChunkAdvances(l, cur);
      [JobFor(l, start, end, cur)] + JobsFrom(l, start, end, Min(cur / l.cs * l.cs + l.cs, end))
  }

  /** The jobs' spans lie end to end in the result, from the first requested sector to the last one covered. */
  ghost predicate Tiles(l: Layout, start: nat, from: nat, to: nat, jobs: seq<Job>) {
    && (jobs == [] <==> from >= to)
    && (jobs != [] ==> jobs[0].sector == from && jobs[0].dst == (from - start) * l.ss
                       && jobs[|jobs| - 1].dst + jobs[|jobs| - 1].span == (to - start) * l.ss)
    && (forall i :: 0 <= i < |jobs| ==> jobs[i].span > 0)
    && (forall i :: 0 <= i < |jobs| - 1 ==> jobs[i].dst + jobs[i].span == jobs[i + 1].dst)
  }

  /** The jobs tile the request up to the coverage end: in order, without gap or overlap, across sections. */
  lemma {:induction false} JobsTile(l: Layout, start: nat, end: nat, cur: nat)
    requires l.Valid() && start <= cur
    ensures Tiles(l, start, cur, Min(end, l.TotalSectors()), JobsFrom(l, start, end, cur))
    decreases end - cur
  {
    if cur < end && cur < l.TotalSectors() {
      var g := cur / l.cs;
      var next := Min(g * l.cs + l.cs, end);
      ChunkAdvances(l, cur);
      JobPlaced(l, start, end, cur, next);
      JobsTile(l, start, end, next);
      var jobs, rest := JobsFrom(l, start, end, cur), JobsFrom(l, start, end, next);
      assert jobs == [JobFor(l, start, end, cur)] + rest;
    }
  }

  lemma JobPlaced(l: Layout, start: nat, end: nat, cur: nat, next: nat)
    requires l.Valid() && start <= cur < end && cur < l.TotalSectors() && next == Min(cur / l.cs * l.cs + l.cs, end)
    ensures var j := JobFor(l, start, end, cur);
            && cur < next <= Min(end, l.TotalSectors()) && j.sector == cur && j.span > 0
            && j.dst == (cur - start) * l.ss && j.dst + j.span == (next - start) * l.ss
  {
    ChunkAdvances(l, cur);
    InRange(l, cur);
    MulLe(cur / l.cs + 1, l.Chunks(), l.cs);
    MulAdd(cur / l.cs, 1, l.cs);
    MulAdd(cur - start, next - cur, l.ss);
    MulLe(1, next - cur, l.ss);
  }

  /**
   * The planning loop: the section index only moves forward, and the result is the job list of the
   * flat specification, so it tiles the request without gap or overlap across sections.
   */
  method Plan(l: Layout, start: nat, n: nat) returns (jobs: seq<Job>)
    requires l.Valid() && |l.counts| > 0
    ensures jobs == JobsFrom(l, start, start + n, start)
  {
    var offsets, _ := SectionOffsets(l);
    jobs := [];
    var si, cur, end := 0, start, start + n;
    while cur < end
      invariant start <= cur <= end && si < |l.counts| && offsets[si] <= cur
      invariant jobs + JobsFrom(l, start, end, cur) == JobsFrom(l, start, end, start)
    {
      si := Advance(l, offsets, si, cur);
      var sectionEnd := offsets[si] + l.counts[si] * l.cs;
      if cur >= sectionEnd {
        LastSectionEnd(l, si);
        break;
      }
      var job, chunkEnd := PlanChunk(l, offsets, si, start, end, cur);
      assert jobs + [job] + JobsFrom(l, start, end, chunkEnd) == jobs + JobsFrom(l, start, end, cur);
      jobs := jobs + [job];
      cur := chunkEnd;
    }
    assert JobsFrom(l, start, end, cur) == [];
  }

  /** The job for the chunk of section si that covers cur, and the sector after its span. */
  method PlanChunk(l: Layout, offsets: seq<nat>, si: nat, start: nat, end: nat, cur: nat)
    returns (job: Job, chunkEnd: nat)
    requires l.Valid() && OffsetsOf(l, offsets) && si < |l.counts| && start <= cur < end
    requires offsets[si] <= cur < offsets[si] + l.counts[si] * l.cs
    ensures cur < l.TotalSectors()
    ensures job == JobFor(l, start, end, cur)
    ensures chunkEnd == Min(cur / l.cs * l.cs + l.cs, end) && cur < chunkEnd
  {
    var chunkIndex := (cur - offsets[si]) / l.cs;
    InSection(l, si, cur);
    var chunkStart := offsets[si] + chunkIndex * l.cs;
    JobInSection(l, start, end, cur, chunkStart, si, chunkIndex);
    chunkEnd := Min(chunkStart + l.cs, end);
    var valid := l.cs * l.ss;
    if chunkStart < l.media && chunkStart + l.cs > l.media {
      valid := (l.media - chunkStart) * l.ss;
    }
    job := Job(si, chunkIndex, (cur - start) * l.ss, (cur - chunkStart) * l.ss, (chunkEnd - cur) * l.ss, valid, cur);
  }

  lemma JobInSection(l: Layout, start: nat, end: nat, cur: nat, chunkStart: nat, si: nat, ci: nat)
    requires l.Valid() && start <= cur < end && cur < l.TotalSectors()
    requires cur / l.cs < l.Chunks() && Locate(l.counts, cur / l.cs) == (si, ci) && chunkStart == cur / l.cs * l.cs
    ensures var chunkEnd := Min(chunkStart + l.cs, end);
            && chunkStart <= cur < chunkEnd
            && 0 <= (cur - start) * l.ss && 0 <= (cur - chunkStart) * l.ss && 0 <= (chunkEnd - cur) * l.ss
            && JobFor(l, start, end, cur) ==
               Job(si, ci, (cur - start) * l.ss, (cur - chunkStart) * l.ss, (chunkEnd - cur) * l.ss,
                   l.ValidBytes(cur / l.cs), cur)
  {
    ChunkAdvances(l, cur);
    MulNonNegative(cur - start, l.ss);
    MulNonNegative(cur - chunkStart, l.ss);
    MulNonNegative(Min(chunkStart + l.cs, end) - cur, l.ss);
  }

  ghost predicate OffsetsOf(l: Layout, offsets: seq<nat>) {
    |offsets| == |l.counts| && forall i :: 0 <= i < |offsets| ==> offsets[i] == Sum(l.counts[..i]) * l.cs
  }

  /** Each section's starting sector, and the coverage ceiling. */
  method SectionOffsets(l: Layout) returns (offsets: seq<nat>, total: nat)
    requires l.Valid()
    ensures OffsetsOf(l, offsets)
    ensures total == l.TotalSectors()
  {
    offsets, total := [], 0;
    for i := 0 to |l.counts|
      invariant |offsets| == i
      invariant forall j :: 0 <= j < i ==> offsets[j] == Sum(l.counts[..j]) * l.cs
      invariant total == Sum(l.counts[..i]) * l.cs
    {
      offsets := offsets + [total];
      SumStep(l.counts, i);
      MulAdd(Sum(l.counts[..i]), l.counts[i], l.cs);
      total := total + l.counts[i] * l.cs;
    }
    assert l.counts[..|l.counts|] == l.counts;
  }

  /** Moves on to the section covering cur, or to the last section. */
  method Advance(l: Layout, offsets: seq<nat>, from: nat, cur: nat) returns (si: nat)
    requires l.Valid() && OffsetsOf(l, offsets) && from < |l.counts| && offsets[from] <= cur
    ensures from <= si < |l.counts| && offsets[si] <= cur
    ensures cur < offsets[si] + l.counts[si] * l.cs || si == |l.counts| - 1
  {
    si := from;
    while si < |l.counts| - 1 && cur >= offsets[si] + l.counts[si] * l.cs
      invariant from <= si < |l.counts| && offsets[si] <= cur
    {
      SumStep(l.counts, si);
      MulAdd(Sum(l.counts[..si]), l.counts[si], l.cs);
      si := si + 1;
    }
  }

  lemma LastSectionEnd(l: Layout, si: nat)
    requires si + 1 == |l.counts|
    ensures Sum(l.counts[..si]) * l.cs + l.counts[si] * l.cs == l.TotalSectors()
  {
    SumStep(l.counts, si);
    MulAdd(Sum(l.counts[..si]), l.counts[si], l.cs);
    assert l.counts[..si + 1] == l.counts;
  }

  /** The arithmetic of a sector inside a section that starts at chunk number before. */
  lemma SectionArithmetic(before: nat, count: nat, cs: nat, cur: nat)
    requires cs > 0 && before * cs <= cur < before * cs + count * cs
    ensures var i := (cur - before * cs) / cs;
            i < count && cur / cs == before + i && cur / cs * cs == before * cs + i * cs
  {
    var i, r := (cur - before * cs) / cs, (cur - before * cs) % cs;
    assert cur - before * cs == i * cs + r;
    assert (before + i) * cs == before * cs + i * cs;
    if i >= count {
      MulLe(count, i, cs);
    }
    DivModUnique(cur, cs, before + i, r);
  }

  lemma InSection(l: Layout, si: nat, cur: nat)
    requires l.Valid() && si < |l.counts|
    requires Sum(l.counts[..si]) * l.cs <= cur < Sum(l.counts[..si]) * l.cs + l.counts[si] * l.cs
    ensures var i := (cur - Sum(l.counts[..si]) * l.cs) / l.cs;
            && i < l.counts[si] && cur < l.TotalSectors() && cur / l.cs < l.Chunks()
            && Locate(l.counts, cur / l.cs) == (si, i)
            && cur / l.cs * l.cs == Sum(l.counts[..si]) * l.cs + i * l.cs
  {
    hide Sum, Locate;
    var before := Sum(l.counts[..si]);
    SectionArithmetic(before, l.counts[si], l.cs, cur);
    LocateInverse(l.counts, si, (cur - before * l.cs) / l.cs);
    InCoverage(l, cur);
  }

  lemma InCoverage(l: Layout, cur: nat)
    requires l.Valid() && cur / l.cs < l.Chunks()
    ensures cur < l.TotalSectors()
  {
    ChunkAdvances(l, cur);
    MulAdd(cur / l.cs, 1, l.cs);
    MulLe(cur / l.cs + 1, l.Chunks(), l.cs);
  }
}

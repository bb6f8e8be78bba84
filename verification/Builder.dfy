/**
 * The writer as the source has it (internal/ewffixture/fixture.go): a buffer that sections are
 * appended to and whose descriptors are patched in place.  Every method is proved against the byte
 * functions of Fixture.
 */
module FixtureBuilder {
  import opened Bytes
  import opened Codec
  import opened Sections
  import opened Planner
  import opened Fixture
  import RT = RoundTrip
  import RB = ReadBack
  import TwoSegments

  // ------------------------------------------------------------ descriptors under patching

  ghost predicate HeadIs(d: bytes, name: Name, next: nat, size: nat) {
    !name.Other? && |d| == SECTION_LENGTH && d[..72] == DescriptorHead(name, next, size)
  }

  /** Storing the checksum of the first 72 bytes. */
  function Seal(c: Codec, d: bytes): (r: bytes)
    requires |d| == SECTION_LENGTH
    ensures |r| == SECTION_LENGTH
  {
    Patch(d, 72, ToLE(c.adler(d[..72]), 4))
  }

  lemma PatchMiddle(a: bytes, x: bytes, b: bytes, y: bytes)
    requires |x| == |y|
    ensures Patch(a + x + b, |a|, y) == a + y + b
  {
    assert (a + x + b)[|a| + |y|..] == b;
  }

  lemma PatchInside(pre: bytes, d: bytes, post: bytes, field: nat, y: bytes)
    requires field + |y| <= |d|
    ensures Patch(pre + d + post, |pre| + field, y) == pre + Patch(d, field, y) + post
  {
    var a, x, b := d[..field], d[field..field + |y|], d[field + |y|..];
    assert pre + d + post == (pre + a) + x + (b + post);
    PatchMiddle(pre + a, x, b + post, y);
    assert pre + Patch(d, field, y) + post == (pre + a) + y + (b + post);
  }

  lemma HeadPatched(d: bytes, name: Name, next: nat, size: nat, v: nat)
    requires HeadIs(d, name, next, size)
    ensures HeadIs(Patch(d, 16, ToLE(v, 8)), name, v, size)
    ensures HeadIs(Patch(d, 24, ToLE(v, 8)), name, next, v)
  {
    hide ToLE, NameText;
    var text := NameText(name) + Zeros(16 - |NameText(name)|);
    assert d == d[..72] + d[72..];
    FieldsPatched(text, ToLE(next, 8), ToLE(size, 8), Zeros(40), d[72..], ToLE(v, 8));
  }

  lemma FieldsPatched(t: bytes, x: bytes, y: bytes, z: bytes, rest: bytes, v: bytes)
    requires |t| == 16 && |x| == |y| == |v| == 8 && |z| == 40
    ensures Patch(t + x + y + z + rest, 16, v)[..72] == t + v + y + z
    ensures Patch(t + x + y + z + rest, 24, v)[..72] == t + x + v + z
  {
    var d := t + x + y + z + rest;
    assert d == t + x + (y + z + rest);
    PatchMiddle(t, x, y + z + rest, v);
    assert d == t + x + y + (z + rest);
    PatchMiddle(t + x, y, z + rest, v);
  }

  lemma Sealed(c: Codec, d: bytes, name: Name, next: nat, size: nat)
    requires HeadIs(d, name, next, size)
    ensures Seal(c, d) == Descriptor(c, name, next, size)
  {
    assert d[76..] == [];
  }

  /** A descriptor's patches inside a buffer. */
  lemma SealedInside(c: Codec, pre: bytes, d: bytes, post: bytes)
    requires |d| == SECTION_LENGTH
    ensures (pre + d + post)[|pre|..|pre| + 72] == d[..72]
    ensures Patch(pre + d + post, |pre| + 72, ToLE(c.adler(d[..72]), 4)) == pre + Seal(c, d) + post
  {
    PatchInside(pre, d, post, 72, ToLE(c.adler(d[..72]), 4));
  }

  lemma {:induction false} ZeroBytes(n: nat)
    ensures ToLE(0, n) == Zeros(n)
  {
    if n > 0 {
      ZeroBytes(n - 1);
      assert Zeros(n) == [0] + Zeros(n - 1);
    }
  }

  lemma FreshHead(name: Name)
    requires !name.Other?
    ensures HeadIs(NameText(name) + Zeros(SECTION_LENGTH - |NameText(name)|), name, 0, 0)
  {
    ZeroBytes(8);
    var t := NameText(name);
    ZerosBehind(t);
  }

  lemma ZerosBehind(t: bytes)
    requires |t| <= 16
    ensures (t + Zeros(SECTION_LENGTH - |t|))[..72] == t + Zeros(16 - |t|) + Zeros(8) + Zeros(8) + Zeros(40)
  {
    var z := Zeros(16 - |t|) + Zeros(8) + Zeros(8) + Zeros(40);
    assert Zeros(SECTION_LENGTH - |t|)[..72 - |t|] == z;
    assert (t + Zeros(SECTION_LENGTH - |t|))[..72] == t + z;
  }

  lemma DescriptorHeadIs(c: Codec, name: Name, next: nat, size: nat)
    requires !name.Other?
    ensures HeadIs(Descriptor(c, name, next, size), name, next, size)
  {
    var d := Descriptor(c, name, next, size);
    assert d[..72] == DescriptorHead(name, next, size);
  }

  // ------------------------------------------------------------ the builder

  class Builder {
    const c: Codec
    var buf: bytes

    constructor (c: Codec)
      ensures this.c == c && buf == []
    {
      this.c := c;
      buf := [];
    }

    method Append(data: bytes)
      modifies this
      ensures buf == old(buf) + data
    {
      buf := buf + data;
    }

    /** Sets next offset, size and checksum of the descriptor between pre and post. */
    method PatchDescriptor(at: nat, next: nat, size: nat, ghost d: bytes, ghost post: bytes, ghost name: Name)
      requires HeadIs(d, name, 0, 0) && at <= |buf| && buf == buf[..at] + d + post
      modifies this
      ensures buf == old(buf)[..at] + Descriptor(c, name, next, size) + post
    {
      ghost var pre := buf[..at];
      HeadPatched(d, name, 0, 0, next);
      PatchInside(pre, d, post, 16, ToLE(next, 8));
      buf := Patch(buf, at + 16, ToLE(next, 8));
      ghost var d1 := Patch(d, 16, ToLE(next, 8));
      HeadPatched(d1, name, next, 0, size);
      PatchInside(pre, d1, post, 24, ToLE(size, 8));
      buf := Patch(buf, at + 24, ToLE(size, 8));
      ghost var d2 := Patch(d1, 24, ToLE(size, 8));
      SealedInside(c, pre, d2, post);
      buf := Patch(buf, at + 72, ToLE(c.adler(buf[at..at + 72]), 4));
      Sealed(c, d2, name, next, size);
    }

    /** writeSection: the descriptor is appended blank, then patched once the payload is there. */
    method WriteSection(name: Name, payload: bytes) returns (at: nat, size: nat)
      requires !name.Other?
      modifies this
      ensures at == |old(buf)| && size == SECTION_LENGTH + |payload|
      ensures buf == old(buf) + SecBytes(c, at, Sec(name, payload, []))
    {
      at := |buf|;
      var d := NameText(name) + Zeros(SECTION_LENGTH - |NameText(name)|);
      FreshHead(name);
      buf := buf + d;
      buf := buf + payload;
      size := |buf| - at;
      assert buf[..at] == old(buf);
      PatchDescriptor(at, at + size, size, d, payload, name);
      SecShape(c, old(buf), at, name, payload);
    }

    /** patchNextOffset. */
    method PatchNextOffset(at: nat, next: nat, ghost name: Name, ghost was: nat, ghost size: nat)
      requires !name.Other? && at <= |buf| && buf == buf[..at] + Descriptor(c, name, was, size)
      modifies this
      ensures buf == old(buf)[..at] + Descriptor(c, name, next, size)
    {
      hide Patch, HeadIs, Descriptor;
      ghost var pre, d := buf[..at], Descriptor(c, name, was, size);
      DescriptorHeadIs(c, name, was, size);
      HeadPatched(d, name, was, size, next);
      assert buf == pre + d + [];
      PatchInside(pre, d, [], 16, ToLE(next, 8));
      buf := Patch(buf, at + 16, ToLE(next, 8));
      ghost var d1 := Patch(d, 16, ToLE(next, 8));
      SealedInside(c, pre, d1, []);
      buf := Patch(buf, at + 72, ToLE(c.adler(buf[at..at + 72]), 4));
      Sealed(c, d1, name, next, size);
      assert pre + Seal(c, d1) + [] == pre + Seal(c, d1);
    }
  }

  lemma SecShape(c: Codec, pre: bytes, at: nat, name: Name, payload: bytes)
    requires !name.Other?
    ensures pre + Descriptor(c, name, at + SECTION_LENGTH + |payload|, SECTION_LENGTH + |payload|) + payload ==
            pre + SecBytes(c, at, Sec(name, payload, []))
  {
    var s := Sec(name, payload, []);
    assert SecSize(s) == SECTION_LENGTH + |payload|;
    var d := Descriptor(c, name, at + SECTION_LENGTH + |payload|, SECTION_LENGTH + |payload|);
    assert SecBytes(c, at, s) == d + payload + [] == d + payload;
    AppendAssoc(pre, d, payload);
  }

  // ------------------------------------------------------------ WrapDisk

  /** The buffer holds a file header and the sections written so far. */
  ghost predicate Wrote(c: Codec, number: nat, buf: bytes, ss: seq<Sec>) {
    Named(ss) && buf == FileHeader(number) + SecsBytes(c, FILE_HEADER_LENGTH, ss)
  }

  lemma WroteMore(c: Codec, number: nat, buf: bytes, ss: seq<Sec>, more: seq<Sec>)
    requires Wrote(c, number, buf, ss) && Named(more)
    ensures |buf| == FILE_HEADER_LENGTH + SecsSize(ss)
    ensures Wrote(c, number, buf + SecsBytes(c, |buf|, more), ss + more)
  {
    hide FileHeader, SecsSize;
    RT.SecsBytesSplit(c, FILE_HEADER_LENGTH, ss, more);
    RT.SecsBytesLength(c, FILE_HEADER_LENGTH, ss);
    AppendAssoc(FileHeader(number), SecsBytes(c, FILE_HEADER_LENGTH, ss), SecsBytes(c, |buf|, more));
  }

  lemma OneSection(c: Codec, addr: nat, s: Sec)
    requires !s.name.Other?
    ensures SecsBytes(c, addr, [s]) == SecBytes(c, addr, s)
  {
    hide SecBytes;
    assert [s][1..] == [];
    assert SecBytes(c, addr, s) + [] == SecBytes(c, addr, s);
  }

  /** Stores every chunk: zero-padded to full size, but for a final partial chunk kept short. */
  method StoreChunks(c: Codec, disk: bytes, cb: nat, mode: CompressMode, short: bool) returns (stored: seq<bytes>)
    requires cb > 0
    ensures stored == StoredChunks(c, disk, cb, mode, short)
  {
    stored := [];
    var n := ChunkCount(disk, cb);
    ghost var all := StoredChunks(c, disk, cb, mode, short);
    for i := 0 to n
      invariant stored == all[..i]
    {
      ChunkInDisk(disk, cb, i);
      var d := disk[i * cb..Min(i * cb + cb, |disk|)];
      var cd := d + Zeros(cb - |d|);
      if short && i == n - 1 && |disk| % cb != 0 {
        cd := disk[i * cb..];
      }
      stored := stored + [ChunkPayload(c, cd, mode)];
      assert all[i] == ChunkPayload(c, cd, mode);
    }
  }

  /** How many chunks each sectors section takes. */
  method SectionCounts(n: nat, sections: int) returns (counts: seq<nat>)
    ensures counts == GroupCounts(n, sections)
  {
    var k := sections;
    if k < 1 { k := 1; }
    if k > n { k := n; }
    if k < 1 { k := 1; }
    var base, rem := n / k, n % k;
    counts := [];
    for s := 0 to k
      invariant counts == EvenCounts(k, base, rem)[..s]
    {
      var m := base;
      if s < rem { m := m + 1; }
      assert EvenCounts(k, base, rem)[..s + 1] == EvenCounts(k, base, rem)[..s] + [m];
      counts := counts + [m];
    }
  }

  lemma {:induction false} EntriesAppend(es: seq<nat>, e: nat)
    ensures EntryBytes(es + [e]) == EntryBytes(es) + ToLE(e, 4)
  {
    if es == [] {
      assert [e][1..] == [] && ToLE(e, 4) + [] == ToLE(e, 4);
      assert [] + [e] == [e];
      assert EntryBytes([e]) == ToLE(e, 4) + EntryBytes([]);
    } else {
      assert (es + [e])[1..] == es[1..] + [e];
      EntriesAppend(es[1..], e);
      AppendAssoc(ToLE(es[0], 4), EntryBytes(es[1..]), ToLE(e, 4));
    }
  }

  /** tablePayload and tablePayloadV1: header, entries one by one, footer. */
  method WriteTablePayload(c: Codec, entries: seq<nat>, base: nat) returns (out: bytes)
    ensures out == TablePayload(c, entries, base)
  {
    var head := TableHead(|entries|, base);
    head := head + ToLE(c.adler(head), 4);
    out := head;
    for i := 0 to |entries|
      invariant out == head + EntryBytes(entries[..i])
    {
      assert entries[..i + 1] == entries[..i] + [entries[i]];
      EntriesAppend(entries[..i], entries[i]);
      AppendAssoc(head, EntryBytes(entries[..i]), ToLE(entries[i], 4));
      out := out + ToLE(entries[i], 4);
    }
    assert entries[..|entries|] == entries;
    assert out[TABLE_HEADER_LENGTH..] == EntryBytes(entries);
    out := out + ToLE(c.adler(out[TABLE_HEADER_LENGTH..]), 4);
  }

  lemma ConcatMore(xs: seq<bytes>, i: nat)
    requires i < |xs|
    ensures Concat(xs[..i + 1]) == Concat(xs[..i]) + xs[i]
  {
    assert xs[..i + 1] == xs[..i] + [xs[i]];
    ConcatSplit(xs[..i], [xs[i]]);
    var one: seq<bytes> := [xs[i]];
    assert one[1..] == [] && xs[i] + [] == xs[i];
    assert Concat(one) == xs[i] + Concat([]);
  }

  /** The sectors payload of a run of chunks, and where each chunk starts. */
  method LayOut(stored: seq<bytes>, slack: nat, from: nat) returns (payload: bytes, offsets: seq<nat>)
    ensures payload == Zeros(slack) + Concat(stored)
    ensures |offsets| == |stored| && forall i :: 0 <= i < |stored| ==> offsets[i] == from + |Concat(stored[..i])|
  {
    payload, offsets := Zeros(slack), [];
    var off := from;
    assert payload + [] == payload;
    for i := 0 to |stored|
      invariant payload == Zeros(slack) + Concat(stored[..i])
      invariant |offsets| == i && forall j :: 0 <= j < i ==> offsets[j] == from + |Concat(stored[..j])|
      invariant off == from + |Concat(stored[..i])|
    {
      ConcatMore(stored, i);
      AppendAssoc(Zeros(slack), Concat(stored[..i]), stored[i]);
      offsets := offsets + [off];
      payload := payload + stored[i];
      off := off + |stored[i]|;
    }
    assert stored[..|stored|] == stored;
  }

  /** Table entries of chunks at the given offsets, relative to base. */
  method EntriesFor(stored: seq<bytes>, offsets: seq<nat>, base: nat, from: nat,
                    mode: CompressMode) returns (entries: seq<nat>)
    requires |offsets| == |stored| && base <= from
    requires forall i :: 0 <= i < |stored| ==> offsets[i] == from + |Concat(stored[..i])|
    ensures entries == TableEntries(mode, stored, from - base)
  {
    entries := [];
    ghost var all := TableEntries(mode, stored, from - base);
    for i := 0 to |stored|
      invariant entries == all[..i]
    {
      var rel := offsets[i] - base;
      RT.EntryOf(mode, stored, from - base, i);
      entries := entries + [TableEntry(mode, rel)];
    }
  }

  /** Two sections written one after the other behind what was there. */
  lemma TwoSections(c: Codec, was: bytes, s: Sec, t: Sec)
    requires !s.name.Other? && !t.name.Other?
    ensures was + SecBytes(c, |was|, s) + SecBytes(c, |was| + SecSize(s), t) == was + SecsBytes(c, |was|, [s, t])
  {
    hide SecBytes;
    assert [s, t] == [s] + [t];
    OneSection(c, |was|, s);
    OneSection(c, |was| + SecSize(s), t);
    RT.SecsBytesSplit(c, |was|, [s], [t]);
    assert [s][1..] == [] && SecsSize([s]) == SecSize(s);
    AppendAssoc(was, SecBytes(c, |was|, s), SecBytes(c, |was| + SecSize(s), t));
  }

  /** The table of a pair and its mirror, unless they are left out. */
  method WriteTables(b: Builder, opts: Options, entries: seq<nat>, base: nat)
    modifies b
    ensures b.buf == old(b.buf) + SecsBytes(b.c, |old(b.buf)|, TableSections(opts, TablePayload(b.c, entries, base)))
  {
    hide SecBytes, TablePayload, SecsBytes;
    ghost var was, payload := b.buf, TablePayload(b.c, entries, base);
    ghost var t, m := Sec(Table, payload, []), Sec(Table2, payload, []);
    if !opts.skipTable {
      var table := WriteTablePayload(b.c, entries, base);
      var _, _ := b.WriteSection(Table, table);
      OneSection(b.c, |was|, t);
      if !opts.noTable2 {
        var mirror := WriteTablePayload(b.c, entries, base);
        var _, _ := b.WriteSection(Table2, mirror);
        TwoSections(b.c, was, t, m);
      }
    } else {
      NoSections(b.c, was);
    }
  }

  lemma NoSections(c: Codec, was: bytes)
    ensures was + SecsBytes(c, |was|, []) == was
  {
  }

  /** A section and then a list of sections. */
  lemma ThenSections(c: Codec, was: bytes, s: Sec, rest: seq<Sec>)
    requires !s.name.Other? && Named(rest)
    ensures Named([s] + rest)
    ensures was + SecBytes(c, |was|, s) + SecsBytes(c, |was| + SecSize(s), rest) ==
            was + SecsBytes(c, |was|, [s] + rest)
  {
    hide SecBytes;
    OneSection(c, |was|, s);
    RT.SecsBytesSplit(c, |was|, [s], rest);
    assert [s][1..] == [] && SecsSize([s]) == SecSize(s);
    AppendAssoc(was, SecBytes(c, |was|, s), SecsBytes(c, |was| + SecSize(s), rest));
  }

  /** One sectors section with its table and mirror. */
  method WritePair(b: Builder, opts: Options, stored: seq<bytes>)
    modifies b
    ensures b.buf == old(b.buf) + SecsBytes(b.c, |old(b.buf)|, PairSections(b.c, opts, |old(b.buf)|, stored))
  {
    hide SecBytes, TablePayload, TableEntries, SecsBytes, TableSections;
    var addr := |b.buf|;
    ghost var was := b.buf;
    var payload, offsets := LayOut(stored, opts.slackBytes, addr + SECTION_LENGTH + opts.slackBytes);
    var _, _ := b.WriteSection(Sectors, payload);
    var base := 0;
    if opts.layout == EnCase6 && |stored| > 0 {
      base := offsets[0];
      assert stored[..0] == [];
    }
    var entries := EntriesFor(stored, offsets, base, addr + SECTION_LENGTH + opts.slackBytes, opts.compress);
    WriteTables(b, opts, entries, base);
    ThenSections(b.c, was, Sec(Sectors, payload, []), TableSections(opts, TablePayload(b.c, entries, base)));
  }

  /** All pairs: each section takes the next run of chunks. */
  method WritePairs(b: Builder, opts: Options, stored: seq<bytes>, counts: seq<nat>)
    requires Sum(counts) == |stored|
    modifies b
    ensures b.buf == old(b.buf) + SecsBytes(b.c, |old(b.buf)|, AllPairs(b.c, opts, |old(b.buf)|, Split(stored, counts)))
  {
    hide SecsBytes, PairSections, SecsSize;
    ghost var was, c := b.buf, b.c;
    ghost var all: seq<Sec>, done: seq<Sec> := AllPairs(c, opts, |was|, Split(stored, counts)), [];
    var globalChunk := 0;
    NoSections(c, was);
    assert stored[0..] == stored && counts[0..] == counts && done + all == all;
    assert SecsSize([]) == 0;
    for s := 0 to |counts|
      invariant globalChunk <= |stored| && Sum(counts[s..]) == |stored| - globalChunk
      invariant Named(done) && b.buf == was + SecsBytes(c, |was|, done) && |b.buf| == |was| + SecsSize(done)
      invariant done + AllPairs(c, opts, |b.buf|, Split(stored[globalChunk..], counts[s..])) == all
    {
      var n := counts[s];
      ghost var at := |b.buf|;
      NextGroup(stored, counts, globalChunk, s);
      ghost var here := PairSections(c, opts, at, stored[globalChunk..globalChunk + n]);
      WritePair(b, opts, stored[globalChunk..globalChunk + n]);
      MoreSections(c, was, done, here);
      globalChunk := globalChunk + n;
      AppendAssoc(done, here, AllPairs(c, opts, at + SecsSize(here), Split(stored[globalChunk..], counts[s + 1..])));
      done := done + here;
    }
    assert counts[|counts|..] == [];
    assert done + [] == done;
  }

  lemma NextGroup(stored: seq<bytes>, counts: seq<nat>, g: nat, s: nat)
    requires s < |counts| && g <= |stored| && Sum(counts[s..]) == |stored| - g
    ensures g + counts[s] <= |stored| && Sum(counts[s + 1..]) == |stored| - (g + counts[s])
    ensures var groups := Split(stored[g..], counts[s..]);
            groups[0] == stored[g..g + counts[s]] && groups[1..] == Split(stored[g + counts[s]..], counts[s + 1..])
  {
    assert counts[s..][1..] == counts[s + 1..];
    assert stored[g..][..counts[s]] == stored[g..g + counts[s]] && stored[g..][counts[s]..] == stored[g + counts[s]..];
  }

  lemma MoreSections(c: Codec, was: bytes, done: seq<Sec>, more: seq<Sec>)
    requires Named(done) && Named(more)
    ensures Named(done + more)
    ensures |was + SecsBytes(c, |was|, done)| == |was| + SecsSize(done)
    ensures SecsSize(done + more) == SecsSize(done) + SecsSize(more)
    ensures |SecsBytes(c, |was| + SecsSize(done), more)| == SecsSize(more)
    ensures was + SecsBytes(c, |was|, done) + SecsBytes(c, |was| + SecsSize(done), more) ==
            was + SecsBytes(c, |was|, done + more)
  {
    hide SecsBytes, SecsSize, SecBytes;
    RT.SecsBytesLength(c, |was|, done);
    RT.SecsBytesLength(c, |was| + SecsSize(done), more);
    RT.SecsBytesSplit(c, |was|, done, more);
    AppendAssoc(was, SecsBytes(c, |was|, done), SecsBytes(c, |was| + SecsSize(done), more));
  }

  /** EnCase 1: one table whose chunks follow its footer; the declared size leaves them out. */
  method WriteTableWithChunks(b: Builder, mode: CompressMode, stored: seq<bytes>)
    modifies b
    ensures b.buf == old(b.buf) + SecBytes(b.c, |old(b.buf)|, TableWithChunks(b.c, mode, |old(b.buf)|, stored))
  {
    hide SecBytes, TablePayload, TableEntries, Descriptor, Concat;
    ghost var was := b.buf;
    var at := |b.buf|;
    var d := NameText(Table) + Zeros(SECTION_LENGTH - |NameText(Table)|);
    FreshHead(Table);
    b.Append(d);
    var base := at + SECTION_LENGTH + TABLE_HEADER_LENGTH + 4 * |stored| + CHUNK_FOOTER_LENGTH;
    var entries := RunningEntries(mode, stored);
    var payload := WriteTablePayload(b.c, entries, base);
    b.Append(payload);
    ghost var before := b.buf;
    AppendChunks(b, stored);
    AppendAssoc(was + d, payload, Concat(stored));
    assert b.buf[..at] == was;
    b.PatchDescriptor(at, |b.buf|, SECTION_LENGTH + TABLE_HEADER_LENGTH + 4 * |stored| + CHUNK_FOOTER_LENGTH,
                      d, payload + Concat(stored), Table);
    TailShape(b.c, was, at, TableWithChunks(b.c, mode, at, stored));
  }

  lemma TailShape(c: Codec, was: bytes, at: nat, s: Sec)
    requires !s.name.Other?
    ensures was + Descriptor(c, s.name, at + SecSize(s), SECTION_LENGTH + |s.payload|) + (s.payload + s.tail) ==
            was + SecBytes(c, at, s)
  {
    hide Descriptor;
    var d := Descriptor(c, s.name, at + SecSize(s), SECTION_LENGTH + |s.payload|);
    AppendAssoc(d, s.payload, s.tail);
    AppendAssoc(was, d, s.payload + s.tail);
  }

  /** Entries of consecutive chunks, offsets kept as a running total. */
  method RunningEntries(mode: CompressMode, stored: seq<bytes>) returns (entries: seq<nat>)
    ensures entries == TableEntries(mode, stored, 0)
  {
    entries := [];
    var rel := 0;
    ghost var all := TableEntries(mode, stored, 0);
    for i := 0 to |stored|
      invariant entries == all[..i] && rel == |Concat(stored[..i])|
    {
      RT.EntryOf(mode, stored, 0, i);
      ConcatMore(stored, i);
      entries := entries + [TableEntry(mode, rel)];
      rel := rel + |stored[i]|;
    }
  }

  method AppendChunks(b: Builder, stored: seq<bytes>)
    modifies b
    ensures b.buf == old(b.buf) + Concat(stored)
  {
    ghost var was := b.buf;
    assert was + [] == was;
    for i := 0 to |stored|
      invariant b.buf == was + Concat(stored[..i])
    {
      ConcatMore(stored, i);
      AppendAssoc(was, Concat(stored[..i]), stored[i]);
      b.Append(stored[i]);
    }
    assert stored[..|stored|] == stored;
  }

  /** The hash sections, in the shapes real writers emit. */
  method WriteHashes(b: Builder, opts: Options)
    modifies b
    ensures b.buf == old(b.buf) + SecsBytes(b.c, |old(b.buf)|, HashSections(opts))
  {
    hide SecBytes, SecsBytes;
    ghost var was := b.buf;
    match (opts.md5Hash, opts.sha1Hash) {
      case (Some(m), Some(s)) =>
        var digest := Put(Put(Zeros(80), 0, m), 16, s);
        var hash := Put(Zeros(36), 0, m);
        var _, _ := b.WriteSection(Digest, digest);
        var _, _ := b.WriteSection(Hash, hash);
        TwoSections(b.c, was, Sec(Digest, digest, []), Sec(Hash, hash, []));
      case (Some(m), None) =>
        var hash := Put(Zeros(36), 0, m);
        var _, _ := b.WriteSection(Hash, hash);
        OneSection(b.c, |was|, Sec(Hash, hash, []));
      case (None, Some(s)) =>
        var digest := Put(Zeros(20), 0, s);
        var _, _ := b.WriteSection(Digest, digest);
        OneSection(b.c, |was|, Sec(Digest, digest, []));
      case (None, None) =>
        NoSections(b.c, was);
    }
  }

  /** Headers and the volume written twice. */
  method WriteFront(b: Builder, disk: bytes, opts: Options)
    modifies b
    ensures b.buf == old(b.buf) + SecsBytes(b.c, |old(b.buf)|, FrontSections(b.c, disk, opts))
  {
    hide SecBytes, SecsBytes, VolumeData;
    ghost var was := b.buf;
    var hz := b.c.deflate(HEADER_TEXT);
    var vol := VolumeData(b.c, disk, opts);
    var _, _ := b.WriteSection(Header2, hz);
    var _, _ := b.WriteSection(Header, hz);
    TwoSections(b.c, was, Sec(Header2, hz, []), Sec(Header, hz, []));
    ghost var mid := b.buf;
    var _, _ := b.WriteSection(Volume, vol);
    var _, _ := b.WriteSection(Disk, vol);
    TwoSections(b.c, mid, Sec(Volume, vol, []), Sec(Disk, vol, []));
    ghost var x, y := [Sec(Header2, hz, []), Sec(Header, hz, [])], [Sec(Volume, vol, []), Sec(Disk, vol, [])];
    MoreSections(b.c, was, x, y);
    assert FrontSections(b.c, disk, opts) == x + y;
  }

  /** The closing section, patched to point at itself. */
  method WriteDone(b: Builder)
    modifies b
    ensures b.buf == old(b.buf) + Descriptor(b.c, Done, |old(b.buf)|, SECTION_LENGTH)
  {
    hide Descriptor;
    ghost var was := b.buf;
    var at, size := b.WriteSection(Done, []);
    ghost var d := Descriptor(b.c, Done, at + size, size);
    assert SecBytes(b.c, at, Sec(Done, [], [])) == d + [] + [] == d;
    assert b.buf[..at] == was;
    b.PatchNextOffset(at, at, Done, at + size, size);
  }

  /** The body of a file: the table with its chunks, or all sectors/table pairs. */
  method WriteBody(b: Builder, disk: bytes, opts: Options)
    requires |b.buf| == RT.BodyAddress(b.c, disk, opts)
    modifies b
    ensures b.buf == old(b.buf) + SecsBytes(b.c, |old(b.buf)|, RT.BodySections(b.c, disk, opts))
  {
    hide SecsBytes, SecBytes, TableWithChunks, AllPairs, RT.BodyAddress, StoredChunks, GroupCounts;
    var stored := StoreChunks(b.c, disk, ChunkBytesOf(opts), opts.compress, opts.shortFinalChunk);
    if opts.layout == EnCase1 {
      RT.EnCase1Name(b.c, opts.compress, |b.buf|, stored);
      OneSection(b.c, |b.buf|, TableWithChunks(b.c, opts.compress, |b.buf|, stored));
      WriteTableWithChunks(b, opts.compress, stored);
    } else {
      var counts := SectionCounts(|stored|, opts.sections);
      WritePairs(b, opts, stored, counts);
    }
  }

  /** A file header followed by sections and the closing section is a segment file. */
  lemma FileWritten(c: Codec, number: nat, buf: bytes, ss: seq<Sec>)
    requires Wrote(c, number, buf, ss)
    ensures buf + Descriptor(c, Done, |buf|, SECTION_LENGTH) == FileBytes(c, number, ss)
  {
  }

  /** WrapDisk: the whole single-volume file. */
  method WrapDisk(c: Codec, disk: bytes, opts: Options) returns (file: bytes)
    requires |disk| % SECTOR_SIZE == 0
    ensures file == WrapBytes(c, disk, opts)
  {
    hide SecsBytes, FrontSections, RT.BodySections, HashSections, VolumeData, FileHeader, Descriptor, SecsSize, Wrote,
         SecBytes, FileBytes, WrapSections;
    var b := new Builder(c);
    b.Append(FileHeader(1));
    StartWritten(c, 1);
    WriteFront(b, disk, opts);
    ghost var front, body, data := FrontSections(c, disk, opts), RT.BodySections(c, disk, opts),
        [Sec(Data, VolumeData(c, disk, opts), [])];
    WroteMore(c, 1, FileHeader(1), [], front);
    assert [] + front == front;
    ghost var mid := b.buf;
    WroteMore(c, 1, mid, front, body);
    WriteBody(b, disk, opts);
    ghost var late := b.buf;
    WroteMore(c, 1, late, front + body, data);
    OneSection(c, |late|, data[0]);
    var _, _ := b.WriteSection(Data, VolumeData(c, disk, opts));
    WroteMore(c, 1, b.buf, front + body + data, HashSections(opts));
    WriteHashes(b, opts);
    WrappedSections(c, disk, opts);
    FileWritten(c, 1, b.buf, WrapSections(c, disk, opts));
    WriteDone(b);
    file := b.buf;
  }

  lemma StartWritten(c: Codec, number: nat)
    ensures [] + FileHeader(number) == FileHeader(number) && |FileHeader(number)| == FILE_HEADER_LENGTH
    ensures Wrote(c, number, FileHeader(number), [])
  {
    assert FileHeader(number) + [] == FileHeader(number);
  }

  lemma WrappedSections(c: Codec, disk: bytes, opts: Options)
    ensures WrapSections(c, disk, opts) ==
            FrontSections(c, disk, opts) + RT.BodySections(c, disk, opts) + [Sec(Data, VolumeData(c, disk, opts), [])]
                + HashSections(opts)
  {
    hide FrontSections, HashSections, VolumeData, AllPairs, TableWithChunks;
  }

  // ------------------------------------------------------------ WrapDiskSegments

  /** Chunks behind their own tables, one after the other. */
  method WriteOwnTables(b: Builder, stored: seq<bytes>)
    modifies b
    ensures b.buf == old(b.buf) + SecsBytes(b.c, |old(b.buf)|, TwoSegments.OwnTables(b.c, |old(b.buf)|, stored))
  {
    hide SecsBytes, SecBytes, TableWithChunks, SecsSize, SecSize;
    ghost var was, c := b.buf, b.c;
    ghost var all: seq<Sec>, done: seq<Sec> := TwoSegments.OwnTables(c, |was|, stored), [];
    NoSections(c, was);
    assert stored[0..] == stored && done + all == all;
    assert SecsSize([]) == 0 by { NoSize(); }
    for i := 0 to |stored|
      invariant Named(done) && b.buf == was + SecsBytes(c, |was|, done) && |b.buf| == |was| + SecsSize(done)
      invariant done + TwoSegments.OwnTables(c, |b.buf|, stored[i..]) == all
    {
      ghost var s := TableWithChunks(c, Raw, |b.buf|, stored[i..][..1]);
      NextOwnTable(c, was, done, |b.buf|, stored, i);
      WriteTableWithChunks(b, Raw, stored[i..][..1]);
      done := done + [s];
    }
    assert stored[|stored|..] == [];
    assert done + [] == done;
  }

  lemma NextOwnTable(c: Codec, was: bytes, done: seq<Sec>, at: nat, stored: seq<bytes>, i: nat)
    requires Named(done) && at == |was| + SecsSize(done) && i < |stored|
    ensures var s := TableWithChunks(c, Raw, at, stored[i..][..1]);
            && s.name == Table && Named(done + [s]) && SecsSize(done + [s]) == SecsSize(done) + SecSize(s)
            && |SecBytes(c, at, s)| == SecSize(s)
            && was + SecsBytes(c, |was|, done) + SecBytes(c, at, s) == was + SecsBytes(c, |was|, done + [s])
            && done + TwoSegments.OwnTables(c, at, stored[i..]) ==
               done + [s] + TwoSegments.OwnTables(c, at + SecSize(s), stored[i + 1..])
  {
    hide SecsBytes, SecBytes, TableWithChunks, SecsSize, SecSize;
    var s := TableWithChunks(c, Raw, at, stored[i..][..1]);
    RT.EnCase1Name(c, Raw, at, stored[i..][..1]);
    OneSection(c, at, s);
    OneSize(s);
    MoreSections(c, was, done, [s]);
    assert stored[i..][1..] == stored[i + 1..];
    AppendAssoc(done, [s], TwoSegments.OwnTables(c, at + SecSize(s), stored[i + 1..]));
  }

  lemma NoSize()
    ensures SecsSize([]) == 0
  {
  }

  lemma OneSize(s: Sec)
    ensures SecsSize([s]) == SecSize(s)
  {
    assert [s][1..] == [];
  }

  method WriteRun(b: Builder, opts: Options, cross: bool, mirror: bool, stored: seq<bytes>)
    modifies b
    ensures b.buf ==
            old(b.buf)
                + SecsBytes(b.c, |old(b.buf)|, TwoSegments.RunSections(b.c, opts, cross, mirror, |old(b.buf)|, stored))
  {
    hide SecsBytes, AllPairs, TwoSegments.OwnTables;
    if cross {
      WriteOwnTables(b, stored);
    } else {
      RB.OneGroup(stored);
      WritePairs(b, TwoSegments.PairOptions(opts, mirror), stored, [|stored|]);
    }
  }

  /** WrapDiskSegments: chunk 0 in the first file, the others in the second. */
  method WrapDiskSegments(c: Codec, disk: bytes, opts: Options, cross: bool) returns (files: seq<bytes>)
    requires |disk| % SECTOR_SIZE == 0 && ChunkCount(disk, ChunkBytesOf(opts)) >= 2
    ensures files == TwoSegments.SegmentFiles(c, disk, opts, cross)
  {
    hide SecsBytes, FrontSections, FileHeader, Descriptor, SecsSize, Wrote, SecBytes, FileBytes,
         TwoSegments.RunSections, StoredChunks,
         ChunkCount;
    var mode := if cross then Raw else opts.compress;
    var stored := StoreChunks(c, disk, ChunkBytesOf(opts), mode, false);
    var b1 := new Builder(c);
    b1.Append(FileHeader(1));
    StartWritten(c, 1);
    WriteFront(b1, disk, opts);
    ghost var front := FrontSections(c, disk, opts);
    WroteMore(c, 1, FileHeader(1), [], front);
    assert [] + front == front;
    WroteMore(c, 1, b1.buf, front, TwoSegments.RunSections(c, opts, cross, true, |b1.buf|, stored[..1]));
    WriteRun(b1, opts, cross, true, stored[..1]);
    FileWritten(c, 1, b1.buf, TwoSegments.FirstSections(c, disk, opts, cross));
    WriteDone(b1);

    var b2 := new Builder(c);
    b2.Append(FileHeader(2));
    StartWritten(c, 2);
    ghost var run := TwoSegments.RunSections(c, opts, cross, false, |b2.buf|, stored[1..]);
    WroteMore(c, 2, FileHeader(2), [], run);
    assert [] + run == run;
    WriteRun(b2, opts, cross, false, stored[1..]);
    FileWritten(c, 2, b2.buf, TwoSegments.SecondSections(c, disk, opts, cross));
    WriteDone(b2);
    files := [b1.buf, b2.buf];
  }
}

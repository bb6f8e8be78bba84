/**
 * Reading back what the writer emitted, section by section: the chain walk finds every section
 * where it was put, and each section's payload is decoded from the bytes that encode it.
 */
module Reparse {
  import opened Bytes
  import opened Codec
  import opened Segments
  import opened Sections
  import opened Fixture

  const INT63: nat := 0x8000_0000_0000_0000

  // ------------------------------------------------------------ the chain walk

  lemma {:induction false} TrimPadded(name: bytes, k: nat)
    requires name == [] || name[|name| - 1] != 0
    ensures TrimNul(name + Zeros(k)) == name
  {
    var b := name + Zeros(k);
    if k == 0 {
      assert b == name;
    } else {
      assert b[..|b| - 1] == name + Zeros(k - 1);
      TrimPadded(name, k - 1);
    }
  }

  lemma LE8(v: nat)
    requires v < 0x1_0000_0000_0000_0000
    ensures LE(ToLE(v, 8)) == v
  {
    assert Pow256(8) == 0x1_0000_0000_0000_0000 by {
      assert Pow256(4) == 0x1_0000_0000;
    }
    hide Pow256, LE, ToLE;
    ToLERoundTrip(v, 8);
  }

  lemma LE4(v: nat)
    requires v < UINT32
    ensures LE(ToLE(v, 4)) == v
  {
    ToLERoundTrip(v, 4);
    assert Pow256(4) == 0x1_0000_0000;
  }

  /** A descriptor decodes to what was put into it. */
  lemma DecodeDescriptor(c: Codec, name: Name, next: nat, size: nat)
    requires !name.Other? && next < INT63 && size < INT63
    ensures DecodeSection(Descriptor(c, name, next, size)) == Section(name, next, size)
  {
    hide LE, ToLE, ParseName;
    NameRoundTrip(name);
    var d := Descriptor(c, name, next, size);
    var text := NameText(name);
    assert d[..16] == text + Zeros(16 - |text|);
    assert d[16..24] == ToLE(next, 8);
    assert d[24..32] == ToLE(size, 8);
    TrimPadded(text, 16 - |text|);
    LE8(next);
    LE8(size);
  }

  /** Names the writer uses for ordinary sections. */
  ghost predicate Ordinary(s: Sec) {
    !s.name.Other? && s.name != Done
  }

  ghost predicate AllOrdinary(ss: seq<Sec>) {
    forall i :: 0 <= i < |ss| ==> Ordinary(ss[i])
  }

  /** A section written at file offset addr of segment k, which begins at logical offset start. */
  function PlacedAt(k: nat, start: nat, addr: nat, s: Sec): SectionAt {
    SectionAt(start + addr, k, Section(s.name, addr + SecSize(s), SECTION_LENGTH + |s.payload|))
  }

  function Placed(k: nat, start: nat, addr: nat, ss: seq<Sec>): (r: seq<SectionAt>)
    ensures |r| == |ss|
    decreases |ss|
  {
    if ss == [] then [] else [PlacedAt(k, start, addr, ss[0])] + Placed(k, start, addr + SecSize(ss[0]), ss[1..])
  }

  function DoneAt(k: nat, start: nat, addr: nat): SectionAt {
    SectionAt(start + addr, k, Section(Done, addr, SECTION_LENGTH))
  }

  lemma HoldsPrefix(img: bytes, off: nat, a: bytes, b: bytes)
    requires Holds(img, off, a + b)
    ensures Holds(img, off, a) && Holds(img, off + |a|, b)
  {
    HoldsSlice(img, off, a + b, 0, |a|);
    HoldsSlice(img, off, a + b, |a|, |a| + |b|);
    assert (a + b)[0..|a|] == a && (a + b)[|a|..|a| + |b|] == b;
  }

  lemma DescriptorRead(c: Codec, image: bytes, at: nat, name: Name, next: nat, size: nat)
    requires !name.Other? && next < INT63 && size < INT63
    requires Holds(image, at, Descriptor(c, name, next, size))
    ensures SectionAtAddress(image, at) == Some(Section(name, next, size))
  {
    DecodeDescriptor(c, name, next, size);
  }

  /** The bytes of a section list, up to and including its closing "done" descriptor. */
  function Chain(c: Codec, addr: nat, ss: seq<Sec>): bytes
    requires Named(ss)
  {
    SecsBytes(c, addr, ss) + Descriptor(c, Done, addr + SecsSize(ss), SECTION_LENGTH)
  }

  lemma ChainSplit(c: Codec, addr: nat, ss: seq<Sec>)
    requires Named(ss) && ss != []
    ensures Chain(c, addr, ss) == SecBytes(c, addr, ss[0]) + Chain(c, addr + SecSize(ss[0]), ss[1..])
  {
    hide SecBytes, Descriptor;
    AppendAssoc(SecBytes(c, addr, ss[0]), SecsBytes(c, addr + SecSize(ss[0]), ss[1..]),
                Descriptor(c, Done, addr + SecsSize(ss), SECTION_LENGTH));
  }

  /** The walk reads one written section and moves on to the next. */
  lemma SectionWritten(c: Codec, image: bytes, start: nat, addr: nat, s: Sec)
    requires Ordinary(s) && addr > 0 && start + addr + SecSize(s) < INT63
    requires Holds(image, start + addr, SecBytes(c, addr, s))
    ensures Holds(image, start + addr + SECTION_LENGTH, s.payload + s.tail)
    ensures SectionAtAddress(image, start + addr) == Some(PlacedAt(0, start, addr, s).desc)
    ensures NextAddress(start, start + addr, PlacedAt(0, start, addr, s).desc) == Some(start + (addr + SecSize(s)))
  {
    hide Descriptor, Holds, SectionAtAddress;
    var d := Descriptor(c, s.name, addr + SecSize(s), SECTION_LENGTH + |s.payload|);
    AppendAssoc(d, s.payload, s.tail);
    HoldsPrefix(image, start + addr, d, s.payload + s.tail);
    DescriptorRead(c, image, start + addr, s.name, addr + SecSize(s), SECTION_LENGTH + |s.payload|);
  }

  lemma WalkOne(c: Codec, image: bytes, k: nat, start: nat, addr: nat, ss: seq<Sec>)
    requires Named(ss) && ss != [] && Ordinary(ss[0]) && addr > 0 && start + addr + SecSize(ss[0]) < INT63
    requires Holds(image, start + addr, Chain(c, addr, ss))
    ensures var next := addr + SecSize(ss[0]);
            && WalkFrom(image, k, start, start + addr) ==
               Prepend([PlacedAt(k, start, addr, ss[0])], WalkFrom(image, k, start, start + next))
            && Holds(image, start + next, Chain(c, next, ss[1..]))
  {
    hide SecBytes, Chain, Descriptor, SectionAtAddress, NextAddress, Holds;
    var next := addr + SecSize(ss[0]);
    ChainSplit(c, addr, ss);
    HoldsPrefix(image, start + addr, SecBytes(c, addr, ss[0]), Chain(c, next, ss[1..]));
    SectionWritten(c, image, start, addr, ss[0]);
  }

  lemma DoneWritten(c: Codec, image: bytes, k: nat, start: nat, addr: nat)
    requires addr < INT63 && Holds(image, start + addr, Descriptor(c, Done, addr, SECTION_LENGTH))
    ensures WalkFrom(image, k, start, start + addr) == Progress([DoneAt(k, start, addr)], true)
  {
    DescriptorRead(c, image, start + addr, Done, addr, SECTION_LENGTH);
  }

  lemma {:induction false} WalkPlaced(c: Codec, image: bytes, k: nat, start: nat, addr: nat, ss: seq<Sec>)
    requires Named(ss) && AllOrdinary(ss) && start + addr + SecsSize(ss) < INT63 && addr > 0
    requires Holds(image, start + addr, Chain(c, addr, ss))
    ensures WalkFrom(image, k, start, start + addr) == Visits(k, start, addr, ss)
    decreases |ss|
  {
    hide WalkFrom, PlacedAt, Descriptor, Holds;
    if ss == [] {
      assert Chain(c, addr, ss) == Descriptor(c, Done, addr, SECTION_LENGTH);
      DoneWritten(c, image, k, start, addr);
    } else {
      WalkOne(c, image, k, start, addr, ss);
      WalkPlaced(c, image, k, start, addr + SecSize(ss[0]), ss[1..]);
    }
  }

  function Visits(k: nat, start: nat, addr: nat, ss: seq<Sec>): Progress<seq<SectionAt>>
    decreases |ss|
  {
    if ss == [] then Progress([DoneAt(k, start, addr)], true)
    else Prepend([PlacedAt(k, start, addr, ss[0])], Visits(k, start, addr + SecSize(ss[0]), ss[1..]))
  }

  lemma {:induction false} VisitsPlaced(k: nat, start: nat, addr: nat, ss: seq<Sec>)
    ensures Visits(k, start, addr, ss) ==
            Progress(Placed(k, start, addr, ss) + [DoneAt(k, start, addr + SecsSize(ss))], true)
    decreases |ss|
  {
    if ss == [] {
      assert Placed(k, start, addr, ss) + [DoneAt(k, start, addr)] == [DoneAt(k, start, addr)];
    } else {
      var next := addr + SecSize(ss[0]);
      VisitsPlaced(k, start, next, ss[1..]);
      AppendAssoc([PlacedAt(k, start, addr, ss[0])], Placed(k, start, next, ss[1..]),
                  [DoneAt(k, start, addr + SecsSize(ss))]);
    }
  }

  /** The walk visits exactly the sections written, in order, and stops at "done". */
  lemma WalkWritten(c: Codec, image: bytes, k: nat, start: nat, addr: nat, ss: seq<Sec>)
    requires Named(ss) && AllOrdinary(ss) && start + addr + SecsSize(ss) < INT63 && addr > 0
    requires Holds(image, start + addr, Chain(c, addr, ss))
    ensures WalkFrom(image, k, start, start + addr) ==
            Progress(Placed(k, start, addr, ss) + [DoneAt(k, start, addr + SecsSize(ss))], true)
  {
    WalkPlaced(c, image, k, start, addr, ss);
    VisitsPlaced(k, start, addr, ss);
  }

  // ------------------------------------------------------------ section payloads

  function VolumeIn(payload: bytes): DiskSMART
    requires |payload| == DISK_SMART_LENGTH
  {
    DiskSMART(LE(payload[8..12]), LE(payload[12..16]), LE(payload[16..24]))
  }

  predicate HeaderIn(c: Codec, payload: bytes) {
    c.zlibHeader(payload) && 1 + CountNewlines(HeaderText(c, c.zlibRead(payload).out)) >= 4
  }

  /** What a section contributes, told from its payload alone. */
  function CollectPayload(c: Codec, p: Collected, v: SectionAt, payload: bytes): Progress<Collected> {
    var name := v.desc.name;
    if name == Header2 || name == Header then Progress(p, HeaderIn(c, payload))
    else if name == Volume || name == Disk then
      if |payload| == DISK_SMART_LENGTH then Progress(p.(disks := p.disks + [VolumeIn(payload)]), true)
      else Progress(p, true)
    else if name == Sectors then Progress(p.(sectorsAt := p.sectorsAt + [v]), true)
    else if name == Table then Progress(p.(tablesAt := p.tablesAt + [v]), true)
    else if name == Digest then
      if |payload| < 16 then Progress(p, true)
      else Progress(p.(md5 := payload[..16], sha1 := if |payload| >= 36 then payload[16..36] else p.sha1), true)
    else if name == Hash then
      if |payload| < 16 then Progress(p, true) else Progress(p.(md5 := payload[..16]), true)
    else Progress(p, true)
  }

  lemma ClampHolds(image: bytes, off: nat, data: bytes)
    requires Holds(image, off, data) && data != []
    ensures Clamp(image, off, |data|) == data
    ensures off < |image| && |data| <= |image| - off
  {
  }

  lemma PayloadRead(image: bytes, v: SectionAt, payload: bytes)
    requires Holds(image, v.address + SECTION_LENGTH, payload) && payload != []
    requires v.desc.size == SECTION_LENGTH + |payload| < INT63
    ensures Int64(Int64(v.desc.size) - SECTION_LENGTH) == |payload|
    ensures PayloadFits(image, v.address + SECTION_LENGTH, |payload|)
    ensures Clamp(image, v.address + SECTION_LENGTH, |payload|) == payload
  {
    ClampHolds(image, v.address + SECTION_LENGTH, payload);
  }

  /** Collecting a section whose payload is where the descriptor says gives what the payload says. */
  lemma CollectWritten(c: Codec, image: bytes, p: Collected, v: SectionAt, payload: bytes)
    requires v.desc.name == Sectors || (payload != [] && Holds(image, v.address + SECTION_LENGTH, payload))
    requires v.desc.size == SECTION_LENGTH + |payload| < INT63
    ensures CollectOne(c, image, p, v) == CollectPayload(c, p, v, payload)
  {
    if v.desc.name != Sectors {
      PayloadRead(image, v, payload);
    }
  }

  lemma {:induction false} CollectSplit(c: Codec, image: bytes, p: Collected, a: seq<SectionAt>, b: seq<SectionAt>)
    ensures CollectAll(c, image, p, a + b) ==
            var r := CollectAll(c, image, p, a); if r.ok then CollectAll(c, image, r.value, b) else r
    decreases |a|
  {
    if a == [] {
      assert a + b == b;
    } else {
      assert (a + b)[0] == a[0] && (a + b)[1..] == a[1..] + b;
      var r := CollectOne(c, image, p, a[0]);
      if r.ok { CollectSplit(c, image, r.value, a[1..], b); }
    }
  }

  // ------------------------------------------------------------ the writer's own payloads

  lemma {:induction false} NewlinesSplit(a: bytes, b: bytes)
    ensures CountNewlines(a + b) == CountNewlines(a) + CountNewlines(b)
  {
    if a == [] {
      assert a + b == b;
    } else {
      assert (a + b)[1..] == a[1..] + b;
      NewlinesSplit(a[1..], b);
    }
  }

  /** The writer's header text is accepted by the header parser. */
  lemma HeaderWritten(c: Codec)
    requires Lawful(c)
    ensures HeaderIn(c, c.deflate(HEADER_TEXT)) && c.deflate(HEADER_TEXT) != []
  {
    assert c.deflate(HEADER_TEXT) + [] == c.deflate(HEADER_TEXT);
    assert c.zlibRead(c.deflate(HEADER_TEXT) + []) == Inflated(HEADER_TEXT, true);
    DeflateNonEmpty(c, HEADER_TEXT);
    var l4 := Ascii("fixture-desc\tfixture-case\tfixture-evidence\tfixture-examiner") + NEWLINE + NEWLINE;
    var l3 := Ascii("a\tc\tn\te") + NEWLINE + l4;
    var l2 := Ascii("main") + NEWLINE + l3;
    assert HEADER_TEXT == Ascii("1") + NEWLINE + l2;
    NewlineCounted(Ascii("1"), l2);
    NewlineCounted(Ascii("main"), l3);
    NewlineCounted(Ascii("a\tc\tn\te"), l4);
    assert HEADER_TEXT[0] == ('1' as int) % 256;
  }

  lemma NewlineCounted(a: bytes, b: bytes)
    ensures CountNewlines(a + NEWLINE + b) >= 1 + CountNewlines(b)
  {
    NewlinesSplit(a + NEWLINE, b);
    NewlinesSplit(a, NEWLINE);
    assert CountNewlines(NEWLINE) == 1;
  }

  /** The volume section reads back as the geometry written. */
  lemma VolumeWritten(c: Codec, n: nat, cs: nat, ss: nat, count: nat)
    requires cs < UINT32 && ss < UINT32 && count < INT63
    ensures VolumeIn(DiskSmart(c, n, cs, ss, count)) == DiskSMART(cs, ss, count)
  {
    hide LE, ToLE;
    var d, g := DiskSmart(c, n, cs, ss, count), Geometry(n, cs, ss, count);
    assert d[..24] == g;
    assert d[8..12] == g[8..12] == ToLE(cs, 4);
    assert d[12..16] == g[12..16] == ToLE(ss, 4);
    assert d[16..24] == g[16..24] == ToLE(count, 8);
    LE4(cs);
    LE4(ss);
    LE8(count);
  }

  lemma {:induction false} EntriesWritten(es: seq<nat>)
    requires forall i :: 0 <= i < |es| ==> es[i] < UINT32
    ensures Entries(EntryBytes(es)) == es
  {
    if es != [] {
      var b := EntryBytes(es);
      assert b[..4] == ToLE(es[0], 4) && b[4..] == EntryBytes(es[1..]);
      LE4(es[0]);
      EntriesWritten(es[1..]);
    }
  }

  function FullHead(c: Codec, es: seq<nat>, base: nat): (r: bytes)
    ensures |r| == TABLE_HEADER_LENGTH
  {
    TableHead(|es|, base) + ToLE(c.adler(TableHead(|es|, base)), 4)
  }

  function EntriesAndFooter(c: Codec, es: seq<nat>): (r: bytes)
    ensures |r| == 4 * |es| + CHUNK_FOOTER_LENGTH
  {
    EntryBytes(es) + ToLE(c.adler(EntryBytes(es)), 4)
  }

  lemma TableParts(c: Codec, es: seq<nat>, base: nat)
    requires base < INT63 && forall i :: 0 <= i < |es| ==> es[i] < UINT32
    ensures TablePayload(c, es, base) == FullHead(c, es, base) + EntriesAndFooter(c, es)
    ensures LE(FullHead(c, es, base)[8..16]) == base
    ensures Entries(EntriesAndFooter(c, es)[..4 * |es|]) == es
  {
    AppendAssoc(FullHead(c, es, base), EntryBytes(es), ToLE(c.adler(EntryBytes(es)), 4));
    assert FullHead(c, es, base)[8..16] == ToLE(base, 8);
    LE8(base);
    assert EntriesAndFooter(c, es)[..4 * |es|] == EntryBytes(es);
    EntriesWritten(es);
  }

  /** A table section reads back as the entries and base written; an empty one is rejected. */
  lemma TableWritten(c: Codec, image: bytes, v: SectionAt, es: seq<nat>, base: nat)
    requires Holds(image, v.address + SECTION_LENGTH, TablePayload(c, es, base))
    requires v.desc.size == SECTION_LENGTH + |TablePayload(c, es, base)| < INT63
    requires base < INT63 && forall i :: 0 <= i < |es| ==> es[i] < UINT32
    ensures TableOf(image, v) == if es == [] then None else Some(TableData(es, base))
  {
    hide LE, ToLE, TablePayload, FullHead, EntriesAndFooter, Entries, Holds;
    var head, rest := FullHead(c, es, base), EntriesAndFooter(c, es);
    TableParts(c, es, base);
    HoldsPrefix(image, v.address + SECTION_LENGTH, head, rest);
    ClampHolds(image, v.address + SECTION_LENGTH, head);
    ClampHolds(image, v.address + SECTION_LENGTH + TABLE_HEADER_LENGTH, rest);
  }
}

/** Short directory records written field by field, and how they are listed (internal/filesystem/fat/fat32.go). */
module FatWritten {
  import opened Bytes
  import opened FatNames

  /** A short record: a base and an extension, attributes, first cluster and size, with the dates between them. */
  datatype Fields = Fields(
    base: bytes, ext: bytes, attrs: byte, cluster: nat, size: nat, created: bytes, written: bytes
  ) {
    predicate Fit() {
      && |base| <= 8 && |ext| <= 3 && NoPadding(base) && NoPadding(ext) && |created| == 8 && |written| == 4
      && cluster < 0x1_0000_0000 && size < 0x1_0000_0000
    }
  }

  /** No byte is a NUL or a space. */
  predicate NoPadding(b: bytes) { forall i :: 0 <= i < |b| ==> b[i] != 0 && b[i] != 32 }

  function Spaces(n: int): (b: bytes)
    ensures |b| == if n < 0 then 0 else n
  {
    seq(if n < 0 then 0 else n, i => 32)
  }

  /** The 11 bytes of a name: eight for the base, three for the extension, each padded with spaces. */
  function NameField(base: bytes, ext: bytes): bytes {
    base + Spaces(8 - |base|) + ext + Spaces(3 - |ext|)
  }

  /** The high half of the first cluster is in front of the time of writing, the low half behind it. */
  function Record(f: Fields): (e: bytes)
    requires f.Fit()
    ensures |e| == RECORD
  {
    NameField(f.base, f.ext) + [f.attrs] + f.created + ToLE(f.cluster / 0x1_0000, 2) + f.written
    + ToLE(f.cluster % 0x1_0000, 2) + ToLE(f.size, 4)
  }

  /** The name a user sees: base.ext, or the base alone. */
  function Dotted(f: Fields): bytes { if f.ext == [] then f.base else f.base + [46] + f.ext }

  lemma {:induction false} TrimmedIs(b: bytes, n: nat)
    requires NoPadding(b)
    ensures Trimmed(b + Spaces(n)) == b
  {
    if b != [] {
      assert (b + Spaces(n))[1..] == b[1..] + Spaces(n);
      TrimmedIs(b[1..], n);
    } else if n > 0 {
      assert ([] + Spaces(n))[1..] == [] + Spaces(n - 1);
      TrimmedIs([], n - 1);
    }
  }

  lemma NameParts(f: Fields)
    requires f.Fit()
    ensures Record(f)[..8] == f.base + Spaces(8 - |f.base|) && Record(f)[8..11] == f.ext + Spaces(3 - |f.ext|)
  {
    hide ToLE;
  }

  /** A padded name comes back as base, dot and extension, or as the base alone. */
  lemma NameRead(f: Fields)
    requires f.Fit()
    ensures ShortName(Record(f)) == Dotted(f)
  {
    hide Trimmed, Record;
    NameParts(f);
    TrimmedIs(f.base, 8 - |f.base|);
    TrimmedIs(f.ext, 3 - |f.ext|);
  }

  lemma FieldsRead(f: Fields)
    requires f.Fit()
    ensures var e := Record(f);
            && e[11] == f.attrs && LE(e[28..32]) == f.size
            && LE(e[26..28]) + 0x1_0000 * LE(e[20..22]) == f.cluster
  {
    hide LE, ToLE;
    FieldWidths();
    var e := Record(f);
    assert e[20..22] == ToLE(f.cluster / 0x1_0000, 2) && e[26..28] == ToLE(f.cluster % 0x1_0000, 2);
    assert e[28..32] == ToLE(f.size, 4);
    FieldHeld(e, 20, f.cluster / 0x1_0000, 2);
    FieldHeld(e, 26, f.cluster % 0x1_0000, 2);
    FieldHeld(e, 28, f.size, 4);
  }

  /**
   * File i of a written directory is listed with the fields its short record was written with, and under its long
   * name or else its dotted one.
   */
  lemma RecordListed(items: seq<Item>, rest: bytes, i: nat, f: Fields)
    requires (forall it :: it in items ==> Wellformed(it)) && i < |Files(items)|
    requires f.Fit() && Files(items)[i].short == Record(f)
    ensures i < |Parse(EncodeAll(items) + rest, NOTHING).entries|
    ensures var long := Files(items)[i].long;
            Parse(EncodeAll(items) + rest, NOTHING).entries[i] ==
            DirEntry(if long != [] then Long(long) else Short(Dotted(f)), f.attrs / 0x10 % 2 == 1, f.size, f.cluster)
  {
    hide Parse, EncodeAll, ShortName, Record, LE, Dotted, Wellformed;
    OwnEntry(items, rest, i);
    NameRead(f);
    FieldsRead(f);
  }
}

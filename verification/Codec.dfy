/**
 * The library code the container relies on, as one abstract value: zlib (RFC 1950), raw
 * DEFLATE (RFC 1951), Adler-32 (section 8.2 of RFC 1950) and UTF-16 decoding.
 */
module Codec {
  import opened Bytes

  /** What draining a decompressor yields: the bytes it produced and whether it ended cleanly. */
  datatype Inflated = Inflated(out: bytes, clean: bool)

  datatype Codec = Codec(
    deflate: bytes -> bytes,              // zlib.NewWriter, Write, Close
    zlibHeader: bytes -> bool,            // zlib.NewReader accepts the two header bytes
    zlibRead: bytes -> Inflated,          // io.ReadAll of that reader
    rawDeflate: bytes -> bytes,           // flate.NewWriter, Write, Close
    rawRead: bytes -> Inflated,           // io.ReadAll(flate.NewReader(...))
    adler: bytes -> nat,                  // adler32.Checksum
    utf16: (bytes, bool) -> Option<bytes> // UTF-16 with BOM (big-endian when the flag is set) to UTF-8
  )

  /**
   * What RFC 1950 and RFC 1951 promise of an implementation: reading a written stream gives the data
   * back whatever follows it, a stream cut short never ends cleanly, the header check looks at the first
   * two bytes only, and a raw stream is no shorter than that.  The checksum is a 32-bit value.
   */
  ghost predicate Lawful(c: Codec) {
    && (forall x: bytes, junk: bytes ::
          c.zlibHeader(c.deflate(x) + junk) && c.zlibRead(c.deflate(x) + junk) == Inflated(x, true))
    && (forall x: bytes, k: nat :: 2 <= k < |c.deflate(x)| ==>
          c.zlibHeader(c.deflate(x)[..k]) && !c.zlibRead(c.deflate(x)[..k]).clean)
    && (forall d: bytes :: c.zlibHeader(d) ==> |d| >= 2)
    && (forall d: bytes, junk: bytes :: |d| >= 2 ==> c.zlibHeader(d + junk) == c.zlibHeader(d))
    && (forall x: bytes, junk: bytes :: c.rawRead(c.rawDeflate(x) + junk) == Inflated(x, true))
    && (forall x: bytes, k: nat :: k < |c.rawDeflate(x)| ==> !c.rawRead(c.rawDeflate(x)[..k]).clean)
    && (forall x: bytes :: |c.rawDeflate(x)| >= 2)
    && (forall d: bytes :: c.adler(d) < 0x1_0000_0000)
  }

  lemma DeflateNonEmpty(c: Codec, x: bytes)
    requires Lawful(c)
    ensures |c.deflate(x)| >= 2
  {
    assert c.deflate(x) + [] == c.deflate(x);
    assert c.zlibHeader(c.deflate(x) + []);
  }

  // ------------------------------------------------ the laws are satisfiable

  /** A toy stream format: a two-byte header, each byte escaped by a 1, and a closing 0. */
  function Escape(x: bytes): (r: bytes)
    ensures |r| == 2 * |x| + 1
  {
    if x == [] then [0] else [1, x[0]] + Escape(x[1..])
  }

  function Unescape(d: bytes): Inflated {
    if |d| == 0 then Inflated([], false)
    else if d[0] == 0 then Inflated([], true)
    else if |d| == 1 then Inflated([], false)
    else var r := Unescape(d[2..]); Inflated([d[1]] + r.out, r.clean)
  }

  lemma {:induction false} UnescapeEscape(x: bytes, junk: bytes)
    ensures Unescape(Escape(x) + junk) == Inflated(x, true)
  {
    hide Unescape;
    if x != [] {
      var d, rest := Escape(x) + junk, Escape(x[1..]) + junk;
      UnescapeEscape(x[1..], junk);
      AppendAssoc([1, x[0]], Escape(x[1..]), junk);
      UnescapeOne(x[0], rest);
      assert x == [x[0]] + x[1..];
    } else {
      UnescapeNone([0] + junk);
    }
  }

  lemma UnescapeOne(b: byte, rest: bytes)
    ensures Unescape([1, b] + rest) == Inflated([b] + Unescape(rest).out, Unescape(rest).clean)
  {
    assert ([1, b] + rest)[2..] == rest;
  }

  lemma UnescapeNone(d: bytes)
    requires d != [] && d[0] == 0
    ensures Unescape(d) == Inflated([], true)
  {
  }

  lemma {:induction false} UnescapeShort(x: bytes, k: nat)
    requires k < |Escape(x)|
    ensures !Unescape(Escape(x)[..k]).clean
  {
    if k >= 2 {
      assert Escape(x)[..k][2..] == Escape(x[1..])[..k - 2];
      UnescapeShort(x[1..], k - 2);
    }
  }

  function ToyDeflate(x: bytes): bytes { [0x78, 0x9C] + Escape(x) }

  function ToyHeader(d: bytes): bool { |d| >= 2 && d[0] == 0x78 && d[1] == 0x9C }

  function ToyRead(d: bytes): Inflated { if |d| >= 2 then Unescape(d[2..]) else Inflated([], false) }

  function ToyRawDeflate(x: bytes): bytes { [3] + Escape(x) }

  function ToyRawRead(d: bytes): Inflated { if |d| >= 1 then Unescape(d[1..]) else Inflated([], false) }

  function ToyCodec(): Codec {
    Codec(ToyDeflate, ToyHeader, ToyRead, ToyRawDeflate, ToyRawRead, d => 1, (d, big) => None)
  }

  lemma ToyReads(x: bytes, junk: bytes)
    ensures ToyHeader(ToyDeflate(x) + junk) && ToyRead(ToyDeflate(x) + junk) == Inflated(x, true)
    ensures ToyRawRead(ToyRawDeflate(x) + junk) == Inflated(x, true)
  {
    hide Escape, Unescape;
    assert (ToyDeflate(x) + junk)[2..] == Escape(x) + junk;
    assert (ToyRawDeflate(x) + junk)[1..] == Escape(x) + junk;
    UnescapeEscape(x, junk);
  }

  lemma ToyCut(x: bytes, k: nat)
    ensures 2 <= k < |ToyDeflate(x)| ==> ToyHeader(ToyDeflate(x)[..k]) && !ToyRead(ToyDeflate(x)[..k]).clean
    ensures k < |ToyRawDeflate(x)| ==> !ToyRawRead(ToyRawDeflate(x)[..k]).clean
    ensures |ToyRawDeflate(x)| >= 2
  {
    hide Escape, Unescape;
    if 2 <= k < |ToyDeflate(x)| {
      assert ToyDeflate(x)[..k][2..] == Escape(x)[..k - 2];
      UnescapeShort(x, k - 2);
    }
    if 1 <= k < |ToyRawDeflate(x)| {
      assert ToyRawDeflate(x)[..k][1..] == Escape(x)[..k - 1];
      UnescapeShort(x, k - 1);
    }
  }

  /** The laws assumed of zlib have a model, so the theorems that assume them are not vacuous. */
  lemma LawsSatisfiable()
    ensures Lawful(ToyCodec())
  {
    hide ToyDeflate, ToyRead, ToyRawDeflate, ToyRawRead;
    var c := ToyCodec();
    forall x: bytes, junk: bytes
      ensures c.zlibHeader(c.deflate(x) + junk) && c.zlibRead(c.deflate(x) + junk) == Inflated(x, true)
      ensures c.rawRead(c.rawDeflate(x) + junk) == Inflated(x, true)
    {
      ToyReads(x, junk);
    }
    forall x: bytes, k: nat | 2 <= k < |c.deflate(x)|
      ensures c.zlibHeader(c.deflate(x)[..k]) && !c.zlibRead(c.deflate(x)[..k]).clean
    {
      ToyCut(x, k);
    }
    forall x: bytes, k: nat | k < |c.rawDeflate(x)| ensures !c.rawRead(c.rawDeflate(x)[..k]).clean { ToyCut(x, k); }
    forall x: bytes ensures |c.rawDeflate(x)| >= 2 { ToyCut(x, 0); }
  }
}

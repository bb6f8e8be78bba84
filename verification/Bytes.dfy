/** Byte strings, fixed-width integers and the result types shared by every module. */
module Bytes {

  type byte = x: int | 0 <= x < 256 witness 0
  type bytes = seq<byte>

  datatype Option<+T> = None | Some(value: T)

  datatype Result<+T, +E> = Ok(value: T) | Err(error: E)

  function Min(a: int, b: int): int { if a < b then a else b }

  function Zeros(n: nat): (z: bytes)
    ensures |z| == n
  {
    seq(n, i => 0)
  }

  // ---------------------------------------------------------------- integers

  function Pow256(n: nat): nat
    ensures Pow256(n) > 0
  {
    if n == 0 then 1 else 256 * Pow256(n - 1)
  }

  /** The unsigned little-endian value of b. */
  function LE(b: bytes): nat {
    if b == [] then 0 else b[0] + 256 * LE(b[1..])
  }

  /** The low n bytes of v, little-endian: what PutUint32 / PutUint64 store. */
  function ToLE(v: nat, n: nat): (b: bytes)
    ensures |b| == n
  {
    if n == 0 then [] else [v % 256] + ToLE(v / 256, n - 1)
  }

  lemma {:induction false} ToLERoundTrip(v: nat, n: nat)
    ensures LE(ToLE(v, n)) == v % Pow256(n)
    decreases n
  {
    if n == 0 {
    } else {
      ToLERoundTrip(v / 256, n - 1);
      var p := Pow256(n - 1);
      assert ToLE(v, n)[1..] == ToLE(v / 256, n - 1);
      ModSplit(v, p);
    }
  }

  lemma ModSplit(v: nat, p: nat)
    requires p > 0
    ensures v % (256 * p) == v % 256 + 256 * ((v / 256) % p)
  {
    var q, r := v / 256, v % 256;
    var a, b := q / p, q % p;
    assert v == 256 * (a * p + b) + r;
    assert v == a * (256 * p) + (256 * b + r) by {
      assert 256 * (a * p) == a * (256 * p);
    }
    assert 0 <= 256 * b + r < 256 * p;
    DivModUnique(v, 256 * p, a, 256 * b + r);
  }

  lemma DivModUnique(v: int, m: int, q: int, r: int)
    requires m > 0 && v == q * m + r && 0 <= r < m
    ensures v / m == q && v % m == r
  {
    var q', r' := v / m, v % m;
    assert (q - q') * m == r' - r;
    if q > q' {
      MulLe(1, q - q', m);
    } else if q < q' {
      MulLe(q - q', -1, m);
    }
  }

  /** Reducing before multiplying changes nothing. */
  lemma ModMul(x: nat, k: nat, m: nat)
    requires m > 0
    ensures x % m * k % m == x * k % m
    ensures x * k < m ==> x * k % m == x * k
  {
    var q, r := x / m, x % m;
    var a, b := r * k / m, r * k % m;
    assert x * k == (q * k + a) * m + b by {
      MulAdd(q * m, r, k);
      MulAdd(q * k, a, m);
      MulAssoc(q, m, k);
      MulAssoc(q, k, m);
    }
    DivModUnique(x * k, m, q * k + a, b);
    if x * k < m { DivModUnique(x * k, m, 0, x * k); }
  }

  lemma MulLe(a: int, b: int, m: int)
    requires a <= b && m >= 0
    ensures a * m <= b * m
  {
    assert b * m - a * m == (b - a) * m;
    assert (b - a) * m >= 0;
  }

  lemma MulAssoc(a: int, b: int, c: int)
    ensures a * b * c == a * (b * c)
  {
  }

  lemma MulAdd(a: int, b: int, m: int)
    ensures (a + b) * m == a * m + b * m
  {
  }

  lemma {:induction false} LEBound(b: bytes)
    ensures LE(b) < Pow256(|b|)
  {
    if b != [] { LEBound(b[1..]); }
  }

  /** The unsigned big-endian value of b. */
  function BE(b: bytes): nat {
    if b == [] then 0 else 256 * BE(b[..|b| - 1]) + b[|b| - 1]
  }

  /** The low n bytes of v, big-endian. */
  function ToBE(v: nat, n: nat): (b: bytes)
    ensures |b| == n
  {
    if n == 0 then [] else ToBE(v / 256, n - 1) + [v % 256]
  }

  lemma {:induction false} ToBERoundTrip(v: nat, n: nat)
    requires v < Pow256(n)
    ensures BE(ToBE(v, n)) == v
  {
    if n > 0 {
      ToBERoundTrip(v / 256, n - 1);
      var b := ToBE(v, n);
      assert b[..|b| - 1] == ToBE(v / 256, n - 1);
    }
  }

  lemma {:induction false} BEBound(b: bytes)
    ensures BE(b) < Pow256(|b|)
  {
    if b != [] { BEBound(b[..|b| - 1]); }
  }

  /** The value of a Go int64 holding the mathematical value x (two's complement wrap). */
  function Int64(x: int): (r: int)
    ensures -0x8000_0000_0000_0000 <= r < 0x8000_0000_0000_0000
    ensures -0x8000_0000_0000_0000 <= x < 0x8000_0000_0000_0000 ==> r == x
  {
    (x + 0x8000_0000_0000_0000) % 0x1_0000_0000_0000_0000 - 0x8000_0000_0000_0000
  }

  // ---------------------------------------------------------------- slices

  /** The bytes of b in [off, off+n) that exist: what a clamped read returns. */
  function Clamp(b: bytes, off: nat, n: nat): (r: bytes)
    ensures |r| <= n
  {
    if off >= |b| then [] else b[off..Min(off + n, |b|)]
  }

  /** img stores data at offset off. */
  ghost predicate Holds(img: bytes, off: nat, data: bytes) {
    off + |data| <= |img| && img[off..off + |data|] == data
  }

  /** img with the bytes at [off, off+|p|) replaced by p. */
  function Patch(img: bytes, off: nat, p: bytes): (r: bytes)
    requires off + |p| <= |img|
    ensures |r| == |img|
    ensures r[off..off + |p|] == p
    ensures r[..off] == img[..off] && r[off + |p|..] == img[off + |p|..]
  {
    img[..off] + p + img[off + |p|..]
  }

  /** Go's copy(a[at:], src) for a source that fits. */
  method CopyInto(a: array<byte>, at: nat, src: bytes)
    requires at + |src| <= a.Length
    modifies a
    ensures a[..] == Patch(old(a[..]), at, src)
  {
    ghost var was := a[..];
    forall k | 0 <= k < |src| { a[at + k] := src[k]; }
    assert a[..at] == was[..at];
    assert a[at..at + |src|] == src;
    assert a[at + |src|..] == was[at + |src|..];
    assert a[..] == a[..at] + a[at..at + |src|] + a[at + |src|..];
  }

  /** Concatenation of a list of byte strings. */
  function Concat(parts: seq<bytes>): bytes {
    if parts == [] then [] else parts[0] + Concat(parts[1..])
  }

  lemma {:induction false} ConcatSplit(a: seq<bytes>, b: seq<bytes>)
    ensures Concat(a + b) == Concat(a) + Concat(b)
  {
    if a == [] {
      assert a + b == b;
    } else {
      assert (a + b)[1..] == a[1..] + b;
      ConcatSplit(a[1..], b);
    }
  }

  /** Where part i starts inside Concat(parts). */
  lemma {:induction false} ConcatAt(parts: seq<bytes>, i: nat)
    requires i < |parts|
    ensures Holds(Concat(parts), |Concat(parts[..i])|, parts[i])
  {
    assert parts == parts[..i] + ([parts[i]] + parts[i + 1..]);
    ConcatSplit(parts[..i], [parts[i]] + parts[i + 1..]);
    ConcatSplit([parts[i]], parts[i + 1..]);
    assert Concat([parts[i]]) == parts[i];
  }

  /** Where part i starts when all parts are k bytes long. */
  lemma {:induction false} EqualParts(parts: seq<bytes>, k: nat, i: nat)
    requires i < |parts| && forall j :: 0 <= j < |parts| ==> |parts[j]| == k
    ensures |Concat(parts)| == k * |parts| && Holds(Concat(parts), k * i, parts[i])
  {
    EqualSize(parts, k);
    EqualSize(parts[..i], k);
    ConcatAt(parts, i);
  }

  lemma {:induction false} EqualSize(parts: seq<bytes>, k: nat)
    requires forall j :: 0 <= j < |parts| ==> |parts[j]| == k
    ensures |Concat(parts)| == k * |parts|
  {
    if parts != [] {
      EqualSize(parts[1..], k);
      MulAdd(1, |parts| - 1, k);
    }
  }

  lemma SliceSlice<T>(s: seq<T>, lo: nat, hi: nat, a: nat, b: nat)
    requires lo <= hi <= |s| && a <= b <= hi - lo
    ensures s[lo..hi][a..b] == s[lo + a..lo + b]
  {
    forall k | 0 <= k < b - a ensures s[lo..hi][a..b][k] == s[lo + a..lo + b][k] {
      assert s[lo..hi][a..b][k] == s[lo..hi][a + k] == s[lo + (a + k)];
      assert s[lo + a..lo + b][k] == s[(lo + a) + k];
    }
  }

  lemma AppendAssoc<T>(a: seq<T>, b: seq<T>, c: seq<T>)
    ensures a + (b + c) == a + b + c
  {
  }

  lemma SliceJoin<T>(s: seq<T>, a: nat, b: nat, c: nat)
    requires a <= b <= c <= |s|
    ensures s[a..b] + s[b..c] == s[a..c]
  {
  }

  /** The first n bytes of the buffer are image[from..from+n). */
  ghost predicate Filled(buf: bytes, n: nat, image: bytes, from: nat) {
    n <= |buf| && (n == 0 || (from + n <= |image| && buf[..n] == image[from..from + n]))
  }

  /** Copying the next piece of the image behind what is there extends the filled part. */
  lemma FilledStep(buf: bytes, n: nat, piece: bytes, image: bytes, from: nat)
    requires Filled(buf, n, image, from)
    requires n + |piece| <= |buf| && from + n + |piece| <= |image|
    requires piece == image[from + n..from + n + |piece|]
    ensures Filled(Patch(buf, n, piece), n + |piece|, image, from)
  {
    if n == 0 { assert buf[..0] == image[from..from]; }
    SliceJoin(image, from, from + n, from + n + |piece|);
    assert Patch(buf, n, piece)[..n + |piece|] == buf[..n] + piece;
  }

  /** Each part of a whole is held at its place. */
  lemma HoldsPart(a: bytes, b: bytes, c: bytes, whole: bytes)
    requires whole == a + b + c
    ensures Holds(whole, |a|, b)
  {
  }

  /** A part of a part. */
  lemma HoldsDeep(d: bytes, at: nat, area: bytes, off: nat, x: bytes)
    requires Holds(d, at, area) && Holds(area, off, x)
    ensures Holds(d, at + off, x)
  {
    HoldsSlice(d, at, area, off, off + |x|);
  }

  /** Of equal parts laid out one after the other, part i is held at k * i behind the first one. */
  lemma PartHeld(d: bytes, at: nat, parts: seq<bytes>, k: nat, i: nat)
    requires Holds(d, at, Concat(parts)) && i < |parts| && forall j :: 0 <= j < |parts| ==> |parts[j]| == k
    ensures Holds(d, at + k * i, parts[i])
  {
    EqualParts(parts, k, i);
    HoldsDeep(d, at, Concat(parts), k * i, parts[i]);
  }

  /** A little-endian field of a record. */
  lemma FieldIn(d: bytes, at: nat, a: bytes, v: nat, n: nat, c: bytes)
    requires Holds(d, at, a + ToLE(v, n) + c) && v < Pow256(n)
    ensures at + |a| + n <= |d| && LE(d[at + |a|..at + |a| + n]) == v
  {
    hide LE, ToLE;
    HoldsPart(a, ToLE(v, n), c, a + ToLE(v, n) + c);
    HoldsDeep(d, at, a + ToLE(v, n) + c, |a|, ToLE(v, n));
    FieldHeld(d, at + |a|, v, n);
  }

  /** A big-endian field of a record. */
  lemma BigFieldIn(d: bytes, at: nat, a: bytes, v: nat, n: nat, c: bytes)
    requires Holds(d, at, a + ToBE(v, n) + c) && v < Pow256(n)
    ensures at + |a| + n <= |d| && BE(d[at + |a|..at + |a| + n]) == v
  {
    hide BE, ToBE;
    HoldsPart(a, ToBE(v, n), c, a + ToBE(v, n) + c);
    HoldsDeep(d, at, a + ToBE(v, n) + c, |a|, ToBE(v, n));
    BigFieldHeld(d, at + |a|, v, n);
  }

  /** A little-endian field that holds a value of its width has that value. */
  lemma FieldHeld(d: bytes, off: nat, v: nat, n: nat)
    requires Holds(d, off, ToLE(v, n)) && v < Pow256(n)
    ensures off + n <= |d| && LE(d[off..off + n]) == v
  {
    ToLERoundTrip(v, n);
    DivModUnique(v, Pow256(n), 0, v);
  }

  /** The same, big-endian. */
  lemma BigFieldHeld(d: bytes, off: nat, v: nat, n: nat)
    requires Holds(d, off, ToBE(v, n)) && v < Pow256(n)
    ensures off + n <= |d| && BE(d[off..off + n]) == v
  {
    ToBERoundTrip(v, n);
  }

  lemma FieldWidths()
    ensures Pow256(1) == 0x100 && Pow256(2) == 0x1_0000 && Pow256(4) == 0x1_0000_0000
    ensures Pow256(8) == 0x1_0000_0000_0000_0000
  {
    assert Pow256(4) == 0x1_0000_0000;
  }

  lemma HoldsSlice(img: bytes, off: nat, data: bytes, a: nat, b: nat)
    requires Holds(img, off, data) && a <= b <= |data|
    ensures off + b <= |img| && img[off + a..off + b] == data[a..b]
  {
    SliceSlice(img, off, off + |data|, a, b);
  }
}

/**
 * The LZVN decoder (internal/filesystem/apfs/lzvn.go): a ten-class opcode machine with overlapping
 * back-matches, against the literal/match expansion of the tokens it parses.
 */
module Lzvn {
  import opened Bytes

  // ------------------------------------------------------------ tokens

  /** One opcode's meaning: literal bytes, then perhaps a match at a new or the previous distance. */
  datatype Token =
    | Nop
    | Literal(data: bytes)
    | Match(data: bytes, dist: Option<nat>, len: nat)

  datatype Parsed = Malformed | EndOfStream | Op(token: Token, size: nat)

  /** The opcode values whose top bits are a literal count and a match length. */
  predicate InGrid(opc: int) { 0 <= opc < 112 || 128 <= opc < 160 || 192 <= opc < 208 }

  /** A literal of n bytes behind a head of h bytes; at least one byte must follow for the next opcode. */
  function WithLiteral(s: bytes, h: nat, n: nat): Option<bytes> {
    if h + n >= |s| then None else Some(s[h..h + n])
  }

  function MatchAfter(s: bytes, h: nat, n: nat, dist: Option<nat>, len: nat): Parsed {
    match WithLiteral(s, h, n)
    case None => Malformed
    case Some(data) => Op(Match(data, dist, len), h + n)
  }

  function LiteralAfter(s: bytes, h: nat, n: nat): Parsed {
    match WithLiteral(s, h, n)
    case None => Malformed
    case Some(data) => Op(Literal(data), h + n)
  }

  /** The token at the head of the stream. */
  function ParseToken(s: bytes): (r: Parsed)
    requires s != []
    ensures r.Op? ==> 0 < r.size < |s|
  {
    var opc: int := s[0];
    var b1: int, b2: int := if |s| > 1 then s[1] else 0, if |s| > 2 then s[2] else 0;
    var litLen, matchLen := opc / 64, opc / 8 % 8 + 3;
    if InGrid(opc) && opc % 8 <= 5 then
      if 2 + litLen >= |s| then Malformed else MatchAfter(s, 2, litLen, Some(opc % 8 * 256 + b1), matchLen)
    else if 160 <= opc < 192 then
      if 3 + opc / 8 % 4 >= |s| then Malformed
      else
        var word := b1 + 256 * b2;
        MatchAfter(s, 3, opc / 8 % 4, Some(word / 4), opc % 8 * 4 + word % 4 + 3)
    else if InGrid(opc) && opc % 8 == 7 then
      if 3 + litLen >= |s| then Malformed else MatchAfter(s, 3, litLen, Some(b1 + 256 * b2), matchLen)
    else if InGrid(opc) && opc % 8 == 6 && opc >= 64 then MatchAfter(s, 1, litLen, None, matchLen)
    else if opc >= 241 then MatchAfter(s, 1, 0, None, opc % 16)
    else if opc == 240 then
      if 2 >= |s| then Malformed else MatchAfter(s, 2, 0, None, b1 + 16)
    else if 225 <= opc < 240 then LiteralAfter(s, 1, opc % 16)
    else if opc == 224 then
      if 2 >= |s| then Malformed else LiteralAfter(s, 2, b1 + 16)
    else if opc == 14 || opc == 22 then
      if 1 >= |s| then Malformed else Op(Nop, 1)
    else if opc == 6 then
      if 8 > |s| then Malformed else EndOfStream
    else Malformed
  }

  // ------------------------------------------------------------ what tokens mean

  /** len bytes at distance d behind out, wrapping round the last d bytes: what an overlapping copy yields. */
  function Repeat(out: bytes, d: nat, len: nat): (r: bytes)
    requires 0 < d <= |out|
    ensures |r| == len
  {
    seq<byte>(len, i requires 0 <= i < len => out[|out| - d + i % d])
  }

  /** The output so far and the distance of the last match, if there was one. */
  datatype Expanded = Expanded(out: bytes, dist: nat)

  /** A match needs a distance that stays inside what has been produced. */
  function Append(e: Expanded, t: Token): Option<Expanded> {
    match t
    case Nop => Some(e)
    case Literal(data) => Some(Expanded(e.out + data, e.dist))
    case Match(data, dist, len) =>
      var out, d := e.out + data, if dist.Some? then dist.value else e.dist;
      if d == 0 || d > |out| then None else Some(Expanded(out + Repeat(out, d, len), d))
  }

  function Expand(e: Expanded, ts: seq<Token>): Option<Expanded>
    decreases |ts|
  {
    if ts == [] then Some(e)
    else match Append(e, ts[0]) case None => None case Some(e') => Expand(e', ts[1..])
  }

  const START := Expanded([], 0)

  /** The stream begins with these tokens, one after the other. */
  ghost predicate Begins(s: bytes, ts: seq<Token>)
    decreases |ts|
  {
    ts == [] ||
    (s != [] && ParseToken(s).Op? && ParseToken(s).token == ts[0] && Begins(s[ParseToken(s).size..], ts[1..]))
  }

  // ------------------------------------------------------------ the decoder

  /** Decoding from a suffix of the stream until the output has n bytes. */
  function DecodeFrom(s: bytes, e: Expanded, n: nat): (r: Option<bytes>)
    decreases |s|
  {
    if |e.out| == n then Some(e.out)
    else if s == [] || !ParseToken(s).Op? then None
    else
      match Append(e, ParseToken(s).token)
      case None => None
      case Some(e') => if |e'.out| > n then None else DecodeFrom(s[ParseToken(s).size..], e', n)
  }

  /** What decompressing into exactly n bytes gives, None being any error. */
  function Decompressed(src: bytes, n: nat): Option<bytes> { DecodeFrom(src, START, n) }

  lemma AppendGrows(e: Expanded, t: Token)
    ensures Append(e, t).Some? ==> e.out <= Append(e, t).value.out
  {
  }

  lemma {:induction false} ExpandGrows(e: Expanded, ts: seq<Token>)
    ensures Expand(e, ts).Some? ==> e.out <= Expand(e, ts).value.out
    decreases |ts|
  {
    hide Append;
    if ts != [] && Append(e, ts[0]).Some? {
      AppendGrows(e, ts[0]);
      ExpandGrows(Append(e, ts[0]).value, ts[1..]);
    }
  }

  /** If the stream begins with tokens that expand to n bytes, those bytes are what decoding gives. */
  lemma {:induction false} ExpansionDecodes(s: bytes, e: Expanded, ts: seq<Token>, n: nat)
    requires Begins(s, ts) && Expand(e, ts).Some? && |Expand(e, ts).value.out| == n
    ensures DecodeFrom(s, e, n) == Some(Expand(e, ts).value.out)
    decreases |ts|
  {
    hide ParseToken, Append;
    ExpandGrows(e, ts);
    assert |e.out| == n ==> e.out == Expand(e, ts).value.out;
    if ts != [] && |e.out| < n {
      var e' := Append(e, ts[0]).value;
      ExpandGrows(e', ts[1..]);
      ExpansionDecodes(s[ParseToken(s).size..], e', ts[1..], n);
    }
  }

  /** Whatever decoding gives is the expansion of the tokens it parsed, and has the length asked for. */
  lemma {:induction false} DecodedExpansion(s: bytes, e: Expanded, n: nat) returns (ts: seq<Token>)
    requires |e.out| <= n && DecodeFrom(s, e, n).Some?
    ensures Begins(s, ts) && Expand(e, ts).Some? && DecodeFrom(s, e, n) == Some(Expand(e, ts).value.out)
    ensures |Expand(e, ts).value.out| == n
    decreases |s|
  {
    hide ParseToken, Append;
    ts := [];
    if |e.out| < n {
      var p := ParseToken(s);
      var rest := DecodedExpansion(s[p.size..], Append(e, p.token).value, n);
      ts := [p.token] + rest;
      assert ts[1..] == rest;
    }
  }

  /**
   * Decompression is expansion: it gives o exactly when the stream begins with tokens that expand to
   * o and o has the length asked for; otherwise it is an error, never partial data.
   */
  lemma DecompressionIsExpansion(src: bytes, n: nat, o: bytes)
    ensures Decompressed(src, n) == Some(o) <==>
            |o| == n && exists ts :: Begins(src, ts) && Expand(START, ts).Some? && Expand(START, ts).value.out == o
  {
    hide ParseToken, Append, Begins, Expand;
    if Decompressed(src, n).Some? {
      var ts := DecodedExpansion(src, START, n);
    }
    if ts :| |o| == n && Begins(src, ts) && Expand(START, ts).Some? && Expand(START, ts).value.out == o {
      ExpansionDecodes(src, START, ts, n);
    }
  }

  // ------------------------------------------------------------ the decoder in place

  lemma RepeatWraps(out: bytes, d: nat, i: nat)
    requires 0 < d <= |out|
    ensures i >= d ==> out[|out| - d + i % d] == out[|out| - d + (i - d) % d]
    ensures i < d ==> i % d == i
  {
    if i >= d { assert (i - d) % d == i % d by { WrapOnce(i, d); } }
  }

  lemma WrapOnce(i: nat, d: nat)
    requires 0 < d <= i
    ensures (i - d) % d == i % d
  {
    DivModUnique(i, d, (i - d) / d + 1, (i - d) % d);
  }

  lemma RepeatMore(out: bytes, d: nat, i: nat)
    requires 0 < d <= |out|
    ensures Repeat(out, d, i + 1) == Repeat(out, d, i) + [out[|out| - d + i % d]]
  {
  }

  lemma PatchRead(b: bytes, dp: nat, r: bytes, j: nat)
    requires dp + |r| <= |b| && j < dp + |r|
    ensures Patch(b, dp, r)[j] == if j < dp then b[j] else r[j - dp]
  {
  }

  /** Half way through a copy, the byte read is the next one of the repetition, even if it was just written. */
  lemma ReadBehind(was: bytes, dp: nat, d: nat, i: nat)
    requires 0 < d <= dp && dp + i < |was|
    ensures Repeat(was[..dp], d, i + 1) ==
            Repeat(was[..dp], d, i) + [Patch(was, dp, Repeat(was[..dp], d, i))[dp - d + i]]
  {
    hide Patch;
    var done := was[..dp];
    RepeatMore(done, d, i);
    RepeatWraps(done, d, i);
    PatchRead(was, dp, Repeat(done, d, i), dp - d + i);
    assert i < d ==> done[dp - d + i] == was[dp - d + i];
  }

  lemma PatchStep(was: bytes, dp: nat, r: bytes, v: byte)
    requires dp + |r| < |was|
    ensures Patch(was, dp, r)[dp + |r| := v] == Patch(was, dp, r + [v])
  {
  }

  /** copyLzvnMatch: forward, byte by byte, so the copy may read bytes it has just written. */
  method CopyMatch(out: array<byte>, dp: nat, d: nat, m: nat)
    requires 0 < d <= dp && dp + m <= out.Length
    modifies out
    ensures out[..] == Patch(old(out[..]), dp, Repeat(old(out[..dp]), d, m))
  {
    hide Repeat, Patch;
    ghost var was := out[..];
    assert was[..dp] == out[..dp];
    var from := dp - d;
    CopyStart(was, dp, d);
    for i := 0 to m
      invariant out[..] == Patch(was, dp, Repeat(was[..dp], d, i))
    {
      ReadBehind(was, dp, d, i);
      PatchStep(was, dp, Repeat(was[..dp], d, i), out[from + i]);
      out[dp + i] := out[from + i];
    }
  }

  lemma CopyStart(was: bytes, dp: nat, d: nat)
    requires 0 < d <= dp <= |was|
    ensures Patch(was, dp, Repeat(was[..dp], d, 0)) == was
  {
  }

  lemma PatchPrefix(b: bytes, dp: nat, p: bytes)
    requires dp + |p| <= |b|
    ensures Patch(b, dp, p)[..dp + |p|] == b[..dp] + p
  {
  }

  /** Emits the literal bytes of a token at dp, unless they overrun the output. */
  method EmitLiteral(out: array<byte>, dp: nat, data: bytes) returns (ok: bool)
    requires dp <= out.Length
    modifies out
    ensures ok == (dp + |data| <= out.Length)
    ensures ok ==> out[..dp + |data|] == old(out[..dp]) + data
    ensures !ok ==> out[..] == old(out[..])
  {
    ok := dp + |data| <= out.Length;
    if ok {
      PatchPrefix(out[..], dp, data);
      CopyInto(out, dp, data);
      assert out[..dp + |data|] == out[..][..dp + |data|];
    }
  }

  /** Emits a match, unless its distance is invalid or it overruns the output. */
  method EmitMatch(out: array<byte>, dp: nat, d: nat, len: nat) returns (ok: bool)
    requires dp <= out.Length
    modifies out
    ensures ok == (0 < d <= dp && dp + len <= out.Length)
    ensures ok ==> out[..dp + len] == old(out[..dp]) + Repeat(old(out[..dp]), d, len)
  {
    if d == 0 || dp < d { return false; }
    if dp + len > out.Length { return false; }
    ghost var was := out[..];
    assert was[..dp] == out[..dp];
    PatchPrefix(was, dp, Repeat(was[..dp], d, len));
    CopyMatch(out, dp, d, len);
    assert out[..dp + len] == out[..][..dp + len];
    ok := true;
  }

  /** Applies one token to the output in place; false is an error. */
  method Emit(out: array<byte>, dp: nat, d: nat, t: Token) returns (ok: bool, dp': nat, d': nat)
    requires dp <= out.Length
    modifies out
    ensures ok ==> dp <= dp' <= out.Length
    ensures var e := Append(Expanded(old(out[..dp]), d), t);
            if e.Some? && |e.value.out| <= out.Length then ok && Expanded(out[..dp'], d') == e.value else !ok
  {
    dp', d' := dp, d;
    match t {
      case Nop =>
        ok := true;
      case Literal(data) =>
        ok := EmitLiteral(out, dp, data);
        if ok { dp' := dp + |data|; }
      case Match(data, dist, len) =>
        if dist.Some? { d' := dist.value; }
        ok := EmitLiteral(out, dp, data);
        if ok {
          dp' := dp + |data|;
          ok := EmitMatch(out, dp', d', len);
          if ok { dp' := dp' + len; }
        }
    }
  }

  /** lzvnDecompress. */
  method Decompress(src: bytes, outLen: nat) returns (r: Option<bytes>)
    ensures r == Decompressed(src, outLen)
  {
    hide ParseToken, Append;
    var out := new byte[outLen](_ => 0);
    if outLen == 0 { return Some([]); }
    if |src| == 0 { return None; }
    var sp: nat, dp: nat, d: nat := 0, 0, 0;
    assert src[0..] == src && out[..0] == [];
    while dp < outLen
      invariant sp <= |src| && dp <= outLen
      invariant Decompressed(src, outLen) == DecodeFrom(src[sp..], Expanded(out[..dp], d), outLen)
      decreases |src| - sp
    {
      if sp >= |src| { return None; }
      var p := ParseToken(src[sp..]);
      if !p.Op? { return None; }
      var ok;
      ok, dp, d := Emit(out, dp, d, p.token);
      if !ok { return None; }
      assert src[sp..][p.size..] == src[sp + p.size..];
      sp := sp + p.size;
    }
    return Some(out[..dp]);
  }

  // ------------------------------------------------------------ an encoder

  /** Literal counts and match lengths the grid opcodes can hold. */
  predicate Fits(n: nat, len: nat) {
    n <= 3 && 3 <= len && len <= (if n == 0 then 10 else if n == 1 then 8 else if n == 2 then 6 else 4)
  }

  /** The tokens some opcode expresses. */
  predicate Encodable(t: Token) {
    match t
    case Nop => true
    case Literal(data) => 1 <= |data| <= 271
    case Match(data, None, len) => if data == [] then 1 <= len <= 271 else Fits(|data|, len)
    case Match(data, Some(d), len) =>
      |data| <= 3 && ((d < 0x1_0000 && Fits(|data|, len)) || (d < 0x4000 && 3 <= len <= 34))
  }

  /** Every token at its shortest opcode. */
  function EncodeToken(t: Token): (r: bytes)
    requires Encodable(t)
    ensures r != []
  {
    match t
    case Nop => [14]
    case Literal(data) => if |data| <= 15 then [224 + |data|] + data else [224, |data| - 16] + data
    case Match(data, None, len) =>
      if data != [] then [|data| * 64 + (len - 3) * 8 + 6] + data
      else if len <= 15 then [240 + len]
      else [240, len - 16]
    case Match(data, Some(d), len) =>
      if Fits(|data|, len) && d < 1536 then [|data| * 64 + (len - 3) * 8 + d / 256, d % 256] + data
      else if d < 0x4000 && len <= 34 then
        var word := d * 4 + (len - 3) % 4;
        [160 + |data| * 8 + (len - 3) / 4, word % 256, word / 256] + data
      else [|data| * 64 + (len - 3) * 8 + 7, d % 256, d / 256] + data
  }

  /** Every encodable token parses back from its opcode, whatever follows. */
  lemma TokenRoundTrip(t: Token, rest: bytes)
    requires Encodable(t) && rest != []
    ensures ParseToken(EncodeToken(t) + rest) == Op(t, |EncodeToken(t)|)
    ensures (EncodeToken(t) + rest)[|EncodeToken(t)|..] == rest
  {
    hide ParseToken;
    match t {
      case Nop => NopRead(rest);
      case Literal(data) => LiteralRead(data, rest);
      case Match(data, None, len) => PreviousRead(data, len, rest);
      case Match(data, Some(d), len) =>
        if Fits(|data|, len) && d < 1536 { SmallRead(data, d, len, rest); }
        else if d < 0x4000 && len <= 34 { MediumRead(data, d, len, rest); }
        else { LargeRead(data, d, len, rest); }
    }
  }

  lemma NopRead(rest: bytes)
    requires rest != []
    ensures ParseToken([14] + rest) == Op(Nop, 1)
  {
  }

  lemma LiteralRead(data: bytes, rest: bytes)
    requires 1 <= |data| <= 271 && rest != []
    ensures ParseToken(EncodeToken(Literal(data)) + rest) == Op(Literal(data), |EncodeToken(Literal(data))|)
  {
    var s := EncodeToken(Literal(data)) + rest;
    if |data| <= 15 { assert s[1..1 + |data|] == data; } else { assert s[2..2 + |data|] == data; }
  }

  lemma PreviousRead(data: bytes, len: nat, rest: bytes)
    requires Encodable(Match(data, None, len)) && rest != []
    ensures ParseToken(EncodeToken(Match(data, None, len)) + rest) ==
            Op(Match(data, None, len), |EncodeToken(Match(data, None, len))|)
  {
    hide ParseToken;
    if data != [] { GridPreviousRead(data, len, rest); } else { RepeatRead(len, rest); }
  }

  lemma GridPreviousRead(data: bytes, len: nat, rest: bytes)
    requires data != [] && Fits(|data|, len) && rest != []
    ensures ParseToken([|data| * 64 + (len - 3) * 8 + 6] + data + rest) == Op(Match(data, None, len), 1 + |data|)
  {
    var s: bytes := [|data| * 64 + (len - 3) * 8 + 6] + data + rest;
    GridFields(|data|, len, 6);
    assert s[1..1 + |data|] == data;
  }

  lemma RepeatRead(len: nat, rest: bytes)
    requires 1 <= len <= 271 && rest != []
    ensures len <= 15 ==> ParseToken([240 + len] + rest) == Op(Match([], None, len), 1)
    ensures len > 15 ==> ParseToken([240, len - 16] + rest) == Op(Match([], None, len), 2)
  {
    if len <= 15 {
      var s: bytes := [240 + len] + rest;
      assert s[1..1] == [];
    } else {
      var s: bytes := [240, len - 16] + rest;
      assert s[2..2] == [];
    }
  }

  lemma SmallRead(data: bytes, d: nat, len: nat, rest: bytes)
    requires Fits(|data|, len) && d < 1536 && rest != []
    ensures ParseToken([|data| * 64 + (len - 3) * 8 + d / 256, d % 256] + data + rest) ==
            Op(Match(data, Some(d), len), 2 + |data|)
  {
    var s: bytes := [|data| * 64 + (len - 3) * 8 + d / 256, d % 256] + data + rest;
    GridFields(|data|, len, d / 256);
    assert s[2..2 + |data|] == data;
  }

  lemma MediumRead(data: bytes, d: nat, len: nat, rest: bytes)
    requires |data| <= 3 && d < 0x4000 && 3 <= len <= 34 && rest != []
    ensures var word := d * 4 + (len - 3) % 4;
            word < 0x1_0000 &&
            ParseToken([160 + |data| * 8 + (len - 3) / 4, word % 256, word / 256] + data + rest) ==
                Op(Match(data, Some(d), len), 3 + |data|)
  {
    var word := d * 4 + (len - 3) % 4;
    var opc := 160 + |data| * 8 + (len - 3) / 4;
    var s: bytes := [opc, word % 256, word / 256] + data + rest;
    DivModUnique(opc, 8, 20 + |data|, (len - 3) / 4);
    DivModUnique(word, 4, d, (len - 3) % 4);
    assert s[0] == opc && s[1] == word % 256 && s[2] == word / 256;
    assert s[3..3 + |data|] == data;
    assert (20 + |data|) % 4 == |data|;
  }

  lemma LargeRead(data: bytes, d: nat, len: nat, rest: bytes)
    requires Fits(|data|, len) && d < 0x1_0000 && rest != []
    ensures ParseToken([|data| * 64 + (len - 3) * 8 + 7, d % 256, d / 256] + data + rest) ==
            Op(Match(data, Some(d), len), 3 + |data|)
  {
    var s: bytes := [|data| * 64 + (len - 3) * 8 + 7, d % 256, d / 256] + data + rest;
    GridFields(|data|, len, 7);
    assert s[3..3 + |data|] == data;
  }

  lemma GridFields(n: nat, len: nat, low: nat)
    requires Fits(n, len) && low < 8
    ensures var opc := n * 64 + (len - 3) * 8 + low;
            InGrid(opc) && opc / 64 == n && opc / 8 % 8 + 3 == len && opc % 8 == low && (n > 0 ==> opc >= 64)
  {
    var opc := n * 64 + (len - 3) * 8 + low;
    DivModUnique(opc, 64, n, (len - 3) * 8 + low);
    DivModUnique(opc, 8, n * 8 + (len - 3), low);
    DivModUnique(n * 8 + (len - 3), 8, n, len - 3);
  }

  function EncodeTokens(ts: seq<Token>): bytes
    requires forall t :: t in ts ==> Encodable(t)
  {
    if ts == [] then [] else EncodeToken(ts[0]) + EncodeTokens(ts[1..])
  }

  const END_MARKER: bytes := [6, 0, 0, 0, 0, 0, 0, 0]

  lemma {:induction false} TokensRoundTrip(ts: seq<Token>, rest: bytes)
    requires (forall t :: t in ts ==> Encodable(t)) && rest != []
    ensures Begins(EncodeTokens(ts) + rest, ts)
  {
    hide ParseToken, EncodeToken, Encodable;
    if ts != [] {
      var tail := EncodeTokens(ts[1..]) + rest;
      AppendAssoc(EncodeToken(ts[0]), EncodeTokens(ts[1..]), rest);
      TokenRoundTrip(ts[0], tail);
      TokensRoundTrip(ts[1..], rest);
    }
  }

  // ------------------------------------------------------------ any data can be encoded

  /** What a compressor decides: bytes to spell out, or a stretch of the output to repeat. */
  datatype Step = Spell(data: bytes) | Copy(dist: nat, len: nat)

  /** The output after some steps; a copy reaches back at most 65535 bytes and is at least 3 long. */
  ghost predicate Meaningful(out: bytes, steps: seq<Step>)
    decreases |steps|
  {
    steps == [] ||
    (match steps[0]
     case Spell(data) => Meaningful(out + data, steps[1..])
     case Copy(d, len) =>
       && 0 < d <= |out| && d < 0x1_0000 && len >= 3
       && Meaningful(out + Repeat(out, d, len), steps[1..]))
  }

  function Meaning(out: bytes, steps: seq<Step>): bytes
    requires Meaningful(out, steps)
    decreases |steps|
  {
    if steps == [] then out
    else
      match steps[0]
      case Spell(data) => Meaning(out + data, steps[1..])
      case Copy(d, len) => Meaning(out + Repeat(out, d, len), steps[1..])
  }

  function SpellTokens(data: bytes): (ts: seq<Token>)
    ensures forall t :: t in ts ==> Encodable(t)
  {
    if data == [] then []
    else if |data| <= 271 then [Literal(data)]
    else [Literal(data[..271])] + SpellTokens(data[271..])
  }

  /** More of the previous match. */
  function MoreTokens(len: nat): (ts: seq<Token>)
    ensures forall t :: t in ts ==> Encodable(t)
  {
    if len == 0 then []
    else if len <= 271 then [Match([], None, len)]
    else [Match([], None, 271)] + MoreTokens(len - 271)
  }

  function StepTokens(s: Step): (ts: seq<Token>)
    requires s.Copy? ==> s.dist < 0x1_0000 && s.len >= 3
    ensures forall t :: t in ts ==> Encodable(t)
  {
    match s
    case Spell(data) => SpellTokens(data)
    case Copy(d, len) => [Match([], Some(d), Min(len, 10))] + MoreTokens(len - Min(len, 10))
  }

  function TokensOf(out: bytes, steps: seq<Step>): (ts: seq<Token>)
    requires Meaningful(out, steps)
    ensures forall t :: t in ts ==> Encodable(t)
    decreases |steps|
  {
    if steps == [] then []
    else
      var rest := match steps[0]
        case Spell(data) => TokensOf(out + data, steps[1..])
        case Copy(d, len) => TokensOf(out + Repeat(out, d, len), steps[1..]);
      StepTokens(steps[0]) + rest
  }

  lemma {:induction false} ExpandSplit(e: Expanded, a: seq<Token>, b: seq<Token>)
    ensures Expand(e, a + b) == match Expand(e, a) case None => None case Some(m) => Expand(m, b)
    decreases |a|
  {
    hide Append;
    if a == [] {
      assert a + b == b;
    } else {
      assert (a + b)[0] == a[0] && (a + b)[1..] == a[1..] + b;
      if Append(e, a[0]).Some? { ExpandSplit(Append(e, a[0]).value, a[1..], b); }
    }
  }

  lemma {:induction false} SpellExpands(e: Expanded, data: bytes)
    ensures Expand(e, SpellTokens(data)) == Some(Expanded(e.out + data, e.dist))
    decreases |data|
  {
    if data == [] {
      assert e.out + data == e.out;
    } else if |data| <= 271 {
      ExpandOne(e, Literal(data));
    } else {
      SpellExpands(Expanded(e.out + data[..271], e.dist), data[271..]);
      AppendAssoc(e.out, data[..271], data[271..]);
      assert data[..271] + data[271..] == data;
      ExpandCons(e, Literal(data[..271]), SpellTokens(data[271..]));
    }
  }

  lemma ExpandOne(e: Expanded, t: Token)
    ensures Expand(e, [t]) == Append(e, t)
  {
    hide Append;
    assert [t][1..] == [];
  }

  lemma ExpandCons(e: Expanded, t: Token, ts: seq<Token>)
    ensures Expand(e, [t] + ts) == match Append(e, t) case None => None case Some(e') => Expand(e', ts)
  {
    hide Append;
    assert ([t] + ts)[0] == t && ([t] + ts)[1..] == ts;
  }

  /** Repeating in two pieces is repeating at once: the second piece finds the period where the first left it. */
  lemma RepeatSplit(out: bytes, d: nat, a: nat, b: nat)
    requires 0 < d <= |out|
    ensures out + Repeat(out, d, a) + Repeat(out + Repeat(out, d, a), d, b) == out + Repeat(out, d, a + b)
  {
    var first := Repeat(out, d, a);
    var mid := out + first;
    forall i | 0 <= i < b ensures Repeat(mid, d, b)[i] == Repeat(out, d, a + b)[a + i] {
      PeriodKept(out, d, a, i);
    }
    assert Repeat(out, d, a + b)[..a] == first;
    InTwoPieces(out, first, Repeat(mid, d, b), Repeat(out, d, a + b));
  }

  lemma InTwoPieces(out: bytes, x: bytes, y: bytes, r: bytes)
    requires |r| == |x| + |y| && r[..|x|] == x && forall i :: 0 <= i < |y| ==> y[i] == r[|x| + i]
    ensures out + x + y == out + r
  {
    assert r == r[..|x|] + r[|x|..];
    assert r[|x|..] == y;
    AppendAssoc(out, x, y);
  }

  lemma PeriodKept(out: bytes, d: nat, a: nat, i: nat)
    requires 0 < d <= |out|
    ensures var mid := out + Repeat(out, d, a); mid[|mid| - d + i % d] == out[|out| - d + (a + i) % d]
  {
    var r, j := i % d, a + i % d;
    ModShift(a, i, d);
    assert 0 <= r < d;
    RepeatWindow(out, d, a, r);
  }

  /** The last d bytes behind a repetition are the period, rotated. */
  lemma RepeatWindow(out: bytes, d: nat, a: nat, r: nat)
    requires 0 < d <= |out| && r < d
    ensures var mid := out + Repeat(out, d, a); mid[|mid| - d + r] == out[|out| - d + (a + r) % d]
  {
    hide Repeat;
    var rep := Repeat(out, d, a);
    if a + r < d {
      DivModUnique(a + r, d, 0, a + r);
      FromFirst(out, rep, d - a - r);
    } else {
      WrapOnce(a + r, d);
      FromSecond(out, rep, a + r - d);
      RepeatAt(out, d, a, a + r - d);
    }
  }

  lemma FromFirst(a: bytes, b: bytes, k: nat)
    requires 0 < k <= |a|
    ensures (a + b)[|a| - k] == a[|a| - k]
  {
  }

  lemma FromSecond(a: bytes, b: bytes, k: nat)
    requires k < |b|
    ensures (a + b)[|a| + k] == b[k]
  {
  }

  lemma RepeatAt(out: bytes, d: nat, len: nat, i: nat)
    requires 0 < d <= |out| && i < len
    ensures 0 <= i % d < d && Repeat(out, d, len)[i] == out[|out| - d + i % d]
  {
  }

  lemma ModShift(a: nat, i: nat, d: nat)
    requires d > 0
    ensures (a + i % d) % d == (a + i) % d
  {
    var j := a + i % d;
    MulAdd(j / d, i / d, d);
    DivModUnique(a + i, d, j / d + i / d, j % d);
  }

  lemma {:induction false} MoreExpands(out: bytes, d: nat, len: nat)
    requires 0 < d <= |out|
    ensures Expand(Expanded(out, d), MoreTokens(len)) == Some(Expanded(out + Repeat(out, d, len), d))
    decreases len
  {
    hide Repeat;
    var e := Expanded(out, d);
    assert out + [] == out;
    if len == 0 {
      RepeatNone(out, d);
    } else if len <= 271 {
      ExpandOne(e, Match([], None, len));
    } else {
      var mid := out + Repeat(out, d, 271);
      MoreExpands(mid, d, len - 271);
      RepeatSplit(out, d, 271, len - 271);
      ExpandCons(e, Match([], None, 271), MoreTokens(len - 271));
    }
  }

  lemma RepeatNone(out: bytes, d: nat)
    requires 0 < d <= |out|
    ensures out + Repeat(out, d, 0) == out
  {
  }

  lemma CopyExpands(e: Expanded, d: nat, len: nat)
    requires 0 < d <= |e.out| && d < 0x1_0000 && len >= 3
    ensures Expand(e, StepTokens(Copy(d, len))) == Some(Expanded(e.out + Repeat(e.out, d, len), d))
  {
    hide Repeat;
    var n := Min(len, 10);
    assert e.out + [] == e.out;
    ExpandCons(e, Match([], Some(d), n), MoreTokens(len - n));
    MoreExpands(e.out + Repeat(e.out, d, n), d, len - n);
    RepeatSplit(e.out, d, n, len - n);
  }

  lemma {:induction false} StepsExpand(e: Expanded, steps: seq<Step>)
    requires Meaningful(e.out, steps)
    ensures Expand(e, TokensOf(e.out, steps)).Some?
            && Expand(e, TokensOf(e.out, steps)).value.out == Meaning(e.out, steps)
    decreases |steps|
  {
    hide Repeat, StepTokens, Append;
    if steps != [] {
      match steps[0] {
        case Spell(data) =>
          assert StepTokens(steps[0]) == SpellTokens(data) by { SpelledStep(data); }
          SpellExpands(e, data);
          StepsExpand(Expanded(e.out + data, e.dist), steps[1..]);
          ExpandSplit(e, StepTokens(steps[0]), TokensOf(e.out + data, steps[1..]));
        case Copy(d, len) =>
          CopyExpands(e, d, len);
          StepsExpand(Expanded(e.out + Repeat(e.out, d, len), d), steps[1..]);
          ExpandSplit(e, StepTokens(steps[0]), TokensOf(e.out + Repeat(e.out, d, len), steps[1..]));
      }
    }
  }

  lemma SpelledStep(data: bytes)
    ensures StepTokens(Spell(data)) == SpellTokens(data)
  {
  }

  /** The stream for some steps, closed by the end marker. */
  function Compressed(steps: seq<Step>): bytes
    requires Meaningful([], steps)
  {
    EncodeTokens(TokensOf([], steps)) + END_MARKER
  }

  /** Decompressing a compressed stream gives its meaning back, overlapping copies of any length included. */
  lemma LzvnRoundTrip(steps: seq<Step>)
    requires Meaningful([], steps)
    ensures Decompressed(Compressed(steps), |Meaning([], steps)|) == Some(Meaning([], steps))
  {
    hide Expand, Begins, TokensOf, EncodeTokens, Meaning;
    var ts := TokensOf([], steps);
    TokensRoundTrip(ts, END_MARKER);
    StepsExpand(START, steps);
    ExpansionDecodes(Compressed(steps), START, ts, |Meaning([], steps)|);
  }
}

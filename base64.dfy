/**
 * The `btoa` primitive the worker uses to build an `Authorization: Basic`
 * header: the text is read as Latin-1 bytes (a code point above 255 makes
 * `btoa` throw) and encoded with the base 64 alphabet and '=' padding of
 * section 4 of RFC 4648. `Decode` is the inverse, used only to state what the
 * encoding preserves.
 */
module Base64 {
  import opened Wrappers

  type Byte = x: int | 0 <= x < 256
  type Sextet = x: int | 0 <= x < 64

  /** Table 1 of RFC 4648: A-Z, a-z, 0-9, '+', '/'. */
  function Symbol(i: Sextet): (c: char)
    ensures IsSymbol(c) && SymbolValue(c) == i
  {
    if i < 26 then ('A' as int + i) as char
    else if i < 52 then ('a' as int + (i - 26)) as char
    else if i < 62 then ('0' as int + (i - 52)) as char
    else if i == 62 then '+'
    else '/'
  }

  predicate IsSymbol(c: char) {
    ('A' <= c <= 'Z') || ('a' <= c <= 'z') || ('0' <= c <= '9') || c == '+' || c == '/'
  }

  function SymbolValue(c: char): Sextet
    requires IsSymbol(c)
  {
    if 'A' <= c <= 'Z' then c as int - 'A' as int
    else if 'a' <= c <= 'z' then c as int - 'a' as int + 26
    else if '0' <= c <= '9' then c as int - '0' as int + 52
    else if c == '+' then 62
    else 63
  }

  /** Base 64 encoding: each 3 bytes become 4 symbols; a final 1 or 2 bytes are padded with '='. */
  function Encode(b: seq<Byte>): (s: string)
    ensures |s| == 4 * ((|b| + 2) / 3)
    ensures forall i :: 0 <= i < |s| ==> IsSymbol(s[i]) || s[i] == '='
    decreases |b|
  {
    if |b| == 0 then ""
    else if |b| == 1 then
      [Symbol(b[0] / 4), Symbol((b[0] % 4) * 16), '=', '=']
    else if |b| == 2 then
      [Symbol(b[0] / 4), Symbol((b[0] % 4) * 16 + b[1] / 16), Symbol((b[1] % 16) * 4), '=']
    else
      [Symbol(b[0] / 4), Symbol((b[0] % 4) * 16 + b[1] / 16),
       Symbol((b[1] % 16) * 4 + b[2] / 64), Symbol(b[2] % 64)] + Encode(b[3..])
  }

  /** Decodes one group of four characters; padding is accepted only in the last group. */
  function DecodeGroup(g: string, last: bool): Option<seq<Byte>>
    requires |g| == 4
  {
    if IsSymbol(g[0]) && IsSymbol(g[1]) && IsSymbol(g[2]) && IsSymbol(g[3]) then
      var v0, v1, v2, v3 := SymbolValue(g[0]), SymbolValue(g[1]), SymbolValue(g[2]), SymbolValue(g[3]);
      Some([v0 * 4 + v1 / 16, (v1 % 16) * 16 + v2 / 4, (v2 % 4) * 64 + v3])
    else if last && IsSymbol(g[0]) && IsSymbol(g[1]) && g[2] == '=' && g[3] == '='
            && SymbolValue(g[1]) % 16 == 0 then
      Some([SymbolValue(g[0]) * 4 + SymbolValue(g[1]) / 16])
    else if last && IsSymbol(g[0]) && IsSymbol(g[1]) && IsSymbol(g[2]) && g[3] == '='
            && SymbolValue(g[2]) % 4 == 0 then
      var v0, v1, v2 := SymbolValue(g[0]), SymbolValue(g[1]), SymbolValue(g[2]);
      Some([v0 * 4 + v1 / 16, (v1 % 16) * 16 + v2 / 4])
    else None
  }

  function Decode(s: string): Option<seq<Byte>>
    decreases |s|
  {
    if |s| == 0 then Some([])
    else if |s| < 4 then None
    else match DecodeGroup(s[..4], |s| == 4)
      case None => None
      case Some(g) =>
        match Decode(s[4..])
        case None => None
        case Some(r) => Some(g + r)
  }

  lemma Split16(x: int, y: int)
    requires 0 <= y < 16
    ensures (x * 16 + y) / 16 == x && (x * 16 + y) % 16 == y
  {
  }

  lemma Split4(x: int, y: int)
    requires 0 <= y < 4
    ensures (x * 4 + y) / 4 == x && (x * 4 + y) % 4 == y
  {
  }

  /** One full group of three bytes survives encoding and decoding. */
  lemma GroupRoundTrip(b0: Byte, b1: Byte, b2: Byte)
    ensures var v1: Sextet, v2: Sextet := (b0 % 4) * 16 + b1 / 16, (b1 % 16) * 4 + b2 / 64;
      && (b0 / 4) * 4 + v1 / 16 == b0
      && (v1 % 16) * 16 + v2 / 4 == b1
      && (v2 % 4) * 64 + b2 % 64 == b2
  {
    Split16(b0 % 4, b1 / 16);
    Split4(b1 % 16, b2 / 64);
  }

  lemma OneByteRoundTrip(b: seq<Byte>)
    requires |b| == 1
    ensures Decode(Encode(b)) == Some(b)
  {
    var b0 := b[0];
    var g := [Symbol(b0 / 4), Symbol((b0 % 4) * 16), '=', '='];
    assert Encode(b) == g;
    PaddedSingleDecodes(b0);
    assert g[..4] == g && g[4..] == [];
    assert Decode(g) == Some([b0] + []);
    assert b == [b0] + [];
  }

  lemma PaddedSingleDecodes(b0: Byte)
    ensures DecodeGroup([Symbol(b0 / 4), Symbol((b0 % 4) * 16), '=', '='], true) == Some([b0])
  {
    Split16(b0 % 4, 0);
    assert !IsSymbol('=');
    assert SymbolValue(Symbol((b0 % 4) * 16)) % 16 == 0;
    assert b0 / 4 * 4 + (b0 % 4) * 16 / 16 == b0;
  }

  lemma TwoBytesRoundTrip(b: seq<Byte>)
    requires |b| == 2
    ensures Decode(Encode(b)) == Some(b)
  {
    var b0, b1 := b[0], b[1];
    var v1: Sextet, v2: Sextet := (b0 % 4) * 16 + b1 / 16, (b1 % 16) * 4;
    var g := [Symbol(b0 / 4), Symbol(v1), Symbol(v2), '='];
    assert Encode(b) == g;
    PaddedPairDecodes(b0, b1);
    assert g[..4] == g && g[4..] == [];
    assert Decode(g) == Some([b0, b1] + []);
    assert b == [b0, b1] + [];
  }

  lemma PaddedPairDecodes(b0: Byte, b1: Byte)
    ensures var v1: Sextet, v2: Sextet := (b0 % 4) * 16 + b1 / 16, (b1 % 16) * 4;
      DecodeGroup([Symbol(b0 / 4), Symbol(v1), Symbol(v2), '='], true) == Some([b0, b1])
  {
    Split16(b0 % 4, b1 / 16);
    Split4(b1 % 16, 0);
    var v1: Sextet, v2: Sextet := (b0 % 4) * 16 + b1 / 16, (b1 % 16) * 4;
    assert !IsSymbol('=');
    assert SymbolValue(Symbol(v2)) % 4 == 0;
    assert b0 / 4 * 4 + v1 / 16 == b0;
    assert (v1 % 16) * 16 + v2 / 4 == b1;
  }

  /** The first group of a longer input decodes to its first three bytes. */
  lemma FirstGroupRoundTrip(b: seq<Byte>)
    requires |b| >= 3
    ensures var s := Encode(b);
      && |s| >= 4
      && DecodeGroup(s[..4], |s| == 4) == Some(b[..3])
      && s[4..] == Encode(b[3..])
  {
    var s := Encode(b);
    GroupRoundTrip(b[0], b[1], b[2]);
    var g := [Symbol(b[0] / 4), Symbol((b[0] % 4) * 16 + b[1] / 16),
              Symbol((b[1] % 16) * 4 + b[2] / 64), Symbol(b[2] % 64)];
    assert s == g + Encode(b[3..]);
    assert s[..4] == g;
    var v1: Sextet, v2: Sextet := (b[0] % 4) * 16 + b[1] / 16, (b[1] % 16) * 4 + b[2] / 64;
    assert SymbolValue(g[0]) == b[0] / 4 && SymbolValue(g[1]) == v1;
    assert SymbolValue(g[2]) == v2 && SymbolValue(g[3]) == b[2] % 64;
    assert b[..3] == [b[0], b[1], b[2]];
  }

  /** Decoding undoes encoding, for every byte sequence. */
  lemma {:induction false} DecodeEncode(b: seq<Byte>)
    ensures Decode(Encode(b)) == Some(b)
    decreases |b|
  {
    if |b| == 1 {
      OneByteRoundTrip(b);
    } else if |b| == 2 {
      TwoBytesRoundTrip(b);
    } else if |b| >= 3 {
      FirstGroupRoundTrip(b);
      DecodeEncode(b[3..]);
      assert b == b[..3] + b[3..];
    }
  }

  // ---------------------------------------------------------------------
  // btoa

  /** The text whose characters are the given Latin-1 bytes. */
  function Latin1Text(b: seq<Byte>): (s: string)
    ensures |s| == |b|
    ensures forall i :: 0 <= i < |s| ==> s[i] as int < 256
  {
    seq(|b|, i requires 0 <= i < |b| => b[i] as char)
  }

  /** The Latin-1 bytes of a text, or None when a character lies above 255. */
  function Latin1(s: string): (r: Option<seq<Byte>>)
    ensures r.Some? <==> forall i :: 0 <= i < |s| ==> s[i] as int < 256
    ensures r.Some? ==> |r.value| == |s| && Latin1Text(r.value) == s
  {
    if forall i :: 0 <= i < |s| ==> s[i] as int < 256 then
      Some(seq(|s|, i requires 0 <= i < |s| => s[i] as int))
    else None
  }

  /** Every byte string is the Latin-1 encoding of exactly one text. */
  lemma Latin1OfText(b: seq<Byte>)
    ensures Latin1(Latin1Text(b)) == Some(b)
  {
    var s := Latin1Text(b);
    assert Latin1(s).value == b;
  }

  /** `btoa(s)`: None stands for the InvalidCharacterError it throws. */
  function Btoa(s: string): (r: Option<string>)
    ensures r.Some? <==> Latin1(s).Some?
    ensures r.Some? ==> Decode(r.value) == Latin1(s) && |r.value| == 4 * ((|s| + 2) / 3)
  {
    match Latin1(s)
    case None => None
    case Some(bytes) => DecodeEncode(bytes); Some(Encode(bytes))
  }

  /** Whatever btoa returns decodes back to the characters it was given. */
  lemma BtoaRoundTrip(s: string)
    ensures Btoa(s).Some? <==> forall i :: 0 <= i < |s| ==> s[i] as int < 256
    ensures Btoa(s).Some? ==>
      && Decode(Btoa(s).value) == Latin1(s)
      && |Btoa(s).value| == 4 * ((|s| + 2) / 3)
  {
    if Latin1(s).Some? {
      DecodeEncode(Latin1(s).value);
    }
  }
}

/**
 * Byte-level encodings the application hands to its runtime: UTF-8 (RFC 3629), the
 * percent-encoding of `URLSearchParams` (the application/x-www-form-urlencoded
 * serializer of section 5.2 of the WHATWG URL Standard) and of `encodeURIComponent`
 * and Node's `querystring.escape`, and base64 (section 4 of RFC 4648) as produced by
 * `Buffer.toString("base64")`. Each encoder is paired with a strict decoder and a
 * round-trip lemma.
 */
module Encoding {
  import opened Wrappers
  import opened Strings

  newtype byte = x: int | 0 <= x < 256

  // ---------------------------------------------------------------------------
  // UTF-8
  // ---------------------------------------------------------------------------

  predicate IsContinuation(b: byte)
  {
    0x80 <= b < 0xC0
  }

  /** The UTF-8 bytes of one scalar value (section 3 of RFC 3629). */
  function Utf8Char(c: char): (bs: seq<byte>)
    ensures 1 <= |bs| <= 4
    ensures |bs| == 1 <==> c as int < 0x80
    ensures |bs| == 1 ==> bs[0] as int == c as int
    ensures forall i :: 1 <= i < |bs| ==> IsContinuation(bs[i])
  {
    var cp := c as int;
    if cp < 0x80 then [cp as byte]
    else if cp < 0x800 then [(0xC0 + cp / 64) as byte, (0x80 + cp % 64) as byte]
    else if cp < 0x10000 then
      [(0xE0 + cp / 4096) as byte, (0x80 + (cp / 64) % 64) as byte, (0x80 + cp % 64) as byte]
    else
      [(0xF0 + cp / 262144) as byte, (0x80 + (cp / 4096) % 64) as byte,
       (0x80 + (cp / 64) % 64) as byte, (0x80 + cp % 64) as byte]
  }

  /** `Buffer.from(s)`: the UTF-8 bytes of a string. */
  function Utf8(s: string): seq<byte>
  {
    if |s| == 0 then [] else Utf8Char(s[0]) + Utf8(s[1..])
  }

  predicate IsScalar(cp: int)
  {
    (0 <= cp < 0xD800) || (0xE000 <= cp < 0x110000)
  }

  /** Decodes the first scalar value of `bs`, giving it and the number of bytes it took. */
  function DecodeOne(bs: seq<byte>): (r: Option<(char, nat)>)
    requires |bs| >= 1
    ensures r.Some? ==> 1 <= r.value.1 <= |bs|
  {
    var b0 := bs[0] as int;
    if b0 < 0x80 then Some((b0 as char, 1))
    else if 0xC0 <= b0 < 0xE0 && |bs| >= 2 && IsContinuation(bs[1]) then
      var cp := (b0 - 0xC0) * 64 + (bs[1] as int - 0x80);
      if 0x80 <= cp then Some((cp as char, 2)) else None
    else if 0xE0 <= b0 < 0xF0 && |bs| >= 3 && IsContinuation(bs[1]) && IsContinuation(bs[2]) then
      var cp := (b0 - 0xE0) * 4096 + (bs[1] as int - 0x80) * 64 + (bs[2] as int - 0x80);
      if 0x800 <= cp && IsScalar(cp) then Some((cp as char, 3)) else None
    else if 0xF0 <= b0 < 0xF8 && |bs| >= 4 && IsContinuation(bs[1]) && IsContinuation(bs[2])
         && IsContinuation(bs[3]) then
      var cp := (b0 - 0xF0) * 262144 + (bs[1] as int - 0x80) * 4096
                + (bs[2] as int - 0x80) * 64 + (bs[3] as int - 0x80);
      if 0x10000 <= cp && IsScalar(cp) then Some((cp as char, 4)) else None
    else None
  }

  /** Strict UTF-8 decoding: `None` for any ill-formed sequence. */
  function Utf8Decode(bs: seq<byte>): Option<string>
    decreases |bs|
  {
    if |bs| == 0 then Some("")
    else match DecodeOne(bs)
      case None => None
      case Some((c, n)) =>
        match Utf8Decode(bs[n..])
        case None => None
        case Some(rest) => Some([c] + rest)
  }

  lemma Utf8CharDecodes(c: char, rest: seq<byte>)
    ensures DecodeOne(Utf8Char(c) + rest) == Some((c, |Utf8Char(c)|))
  {
    var cp := c as int;
    if cp < 0x80 {
    } else if cp < 0x800 {
      Utf8TwoBytes(c, rest);
    } else if cp < 0x10000 {
      Utf8ThreeBytes(c, rest);
    } else {
      Utf8FourBytes(c, rest);
    }
  }

  lemma Utf8TwoBytes(c: char, rest: seq<byte>)
    requires 0x80 <= c as int < 0x800
    ensures DecodeOne(Utf8Char(c) + rest) == Some((c, 2))
  {
    var cp := c as int;
    var bs := Utf8Char(c) + rest;
    var hi, lo := cp / 64, cp % 64;
    assert bs[0] as int == 0xC0 + hi && bs[1] as int == 0x80 + lo;
    assert hi * 64 + lo == cp;
  }

  lemma Utf8ThreeBytes(c: char, rest: seq<byte>)
    requires 0x800 <= c as int < 0x10000
    ensures DecodeOne(Utf8Char(c) + rest) == Some((c, 3))
  {
    var cp := c as int;
    var bs := Utf8Char(c) + rest;
    var a, b, d := cp / 4096, (cp / 64) % 64, cp % 64;
    assert bs[0] as int == 0xE0 + a && bs[1] as int == 0x80 + b && bs[2] as int == 0x80 + d;
    Digits64(cp, 3);
    assert a * 4096 + b * 64 + d == cp;
  }

  lemma Utf8FourBytes(c: char, rest: seq<byte>)
    requires 0x10000 <= c as int
    ensures DecodeOne(Utf8Char(c) + rest) == Some((c, 4))
  {
    var cp := c as int;
    var bs := Utf8Char(c) + rest;
    var a, b, d, e := cp / 262144, (cp / 4096) % 64, (cp / 64) % 64, cp % 64;
    assert bs[0] as int == 0xF0 + a && bs[1] as int == 0x80 + b;
    assert bs[2] as int == 0x80 + d && bs[3] as int == 0x80 + e;
    Digits64(cp, 4);
    assert a * 262144 + b * 4096 + d * 64 + e == cp;
  }

  /** A number splits into base-64 digits. */
  lemma Digits64(cp: nat, k: nat)
    requires k == 3 || k == 4
    ensures k == 3 ==> (cp / 4096) * 4096 + ((cp / 64) % 64) * 64 + cp % 64 == cp
    ensures k == 4 ==>
      (cp / 262144) * 262144 + ((cp / 4096) % 64) * 4096 + ((cp / 64) % 64) * 64 + cp % 64 == cp
  {
    var q := cp / 64;
    assert q * 64 + cp % 64 == cp;
    assert (q / 64) * 64 + q % 64 == q;
    assert q / 64 == cp / 4096;
    var r := cp / 4096;
    assert (r / 64) * 64 + r % 64 == r;
    assert r / 64 == cp / 262144;
  }

  /** Decoding the UTF-8 encoding of a string gives the string back. */
  lemma {:induction false} Utf8RoundTrip(s: string)
    ensures Utf8Decode(Utf8(s)) == Some(s)
  {
    if |s| > 0 {
      var bs := Utf8(s);
      Utf8CharDecodes(s[0], Utf8(s[1..]));
      assert bs[|Utf8Char(s[0])|..] == Utf8(s[1..]);
      Utf8RoundTrip(s[1..]);
      assert [s[0]] + s[1..] == s;
    }
  }

  // ---------------------------------------------------------------------------
  // Percent-encoding
  // ---------------------------------------------------------------------------

  /**
   * `FormUrlencoded`: the serializer behind `URLSearchParams.toString()`.
   * `UriComponent`: `encodeURIComponent`, which Node's `querystring.escape` (used by
   * `querystring.stringify`) matches.
   */
  datatype Mode = FormUrlencoded | UriComponent

  predicate IsAsciiAlphanumeric(c: char)
  {
    ('a' <= c <= 'z') || ('A' <= c <= 'Z') || ('0' <= c <= '9')
  }

  /** The code points a mode leaves as they are. */
  predicate Unreserved(mode: Mode, c: char)
  {
    || IsAsciiAlphanumeric(c) || c == '*' || c == '-' || c == '.' || c == '_'
    || (mode == UriComponent && (c == '!' || c == '~' || c == '\'' || c == '(' || c == ')'))
  }

  function HexDigit(d: nat): (c: char)
    requires d < 16
    ensures IsAsciiAlphanumeric(c)
  {
    if d < 10 then ('0' as int + d) as char else ('A' as int + d - 10) as char
  }

  /** The value of an upper-case hexadecimal digit. */
  function HexValue(c: char): Option<nat>
  {
    if '0' <= c <= '9' then Some(c as int - '0' as int)
    else if 'A' <= c <= 'F' then Some(c as int - 'A' as int + 10)
    else None
  }

  lemma HexDigitValue(d: nat)
    requires d < 16
    ensures HexValue(HexDigit(d)) == Some(d)
  {
  }

  function PercentByte(b: byte): string
  {
    ['%', HexDigit(b as int / 16), HexDigit(b as int % 16)]
  }

  function PercentBytes(bs: seq<byte>): string
  {
    if |bs| == 0 then "" else PercentByte(bs[0]) + PercentBytes(bs[1..])
  }

  function EncodeChar(mode: Mode, c: char): string
  {
    if Unreserved(mode, c) then [c]
    else if mode == FormUrlencoded && c == ' ' then "+"
    else PercentBytes(Utf8Char(c))
  }

  /** Percent-encodes every code point of `s` outside the mode's unreserved set. */
  function Encode(mode: Mode, s: string): string
  {
    if |s| == 0 then "" else EncodeChar(mode, s[0]) + Encode(mode, s[1..])
  }

  /** The characters an encoder can produce. */
  predicate EncodedChar(c: char)
  {
    Unreserved(UriComponent, c) || c == '%' || c == '+'
  }

  predicate AllEncodedChars(t: string)
  {
    forall i :: 0 <= i < |t| ==> EncodedChar(t[i])
  }

  lemma {:induction false} PercentBytesChars(bs: seq<byte>)
    ensures AllEncodedChars(PercentBytes(bs))
  {
    if |bs| > 0 {
      PercentBytesChars(bs[1..]);
      var t := PercentBytes(bs);
      assert t == PercentByte(bs[0]) + PercentBytes(bs[1..]);
    }
  }

  lemma EncodeCharChars(mode: Mode, c: char)
    ensures AllEncodedChars(EncodeChar(mode, c))
  {
    PercentBytesChars(Utf8Char(c));
  }

  lemma {:induction false} EncodeAllEncoded(mode: Mode, s: string)
    ensures AllEncodedChars(Encode(mode, s))
  {
    if |s| > 0 {
      EncodeAllEncoded(mode, s[1..]);
      EncodeCharChars(mode, s[0]);
      var t := Encode(mode, s);
      var head := EncodeChar(mode, s[0]);
      var tail := Encode(mode, s[1..]);
      assert t == head + tail;
      forall i | 0 <= i < |t| ensures EncodedChar(t[i]) {
        if i < |head| {
          assert t[i] == head[i];
        } else {
          assert t[i] == tail[i - |head|];
        }
      }
    }
  }

  /** An encoded string holds only unreserved characters, `%` and `+`: no `&`, `=` or space. */
  lemma EncodeChars(mode: Mode, s: string)
    ensures AllEncodedChars(Encode(mode, s))
    ensures '&' !in Encode(mode, s) && '=' !in Encode(mode, s) && ' ' !in Encode(mode, s)
  {
    EncodeAllEncoded(mode, s);
    var t := Encode(mode, s);
    forall i | 0 <= i < |t| ensures t[i] != '&' && t[i] != '=' && t[i] != ' ' {
      assert EncodedChar(t[i]);
    }
  }

  /** A string of unreserved characters is its own encoding. */
  lemma {:induction false} EncodeUnreserved(mode: Mode, s: string)
    requires forall i :: 0 <= i < |s| ==> Unreserved(mode, s[i])
    ensures Encode(mode, s) == s
  {
    if |s| > 0 {
      EncodeUnreserved(mode, s[1..]);
      assert [s[0]] + s[1..] == s;
    }
  }

  /**
   * Strict percent-decoding into bytes: `%HH` with upper-case hex gives the byte, `+`
   * gives a space in `FormUrlencoded` mode, any other character its UTF-8 bytes;
   * a `%` not followed by two hex digits gives `None`.
   */
  function PercentDecode(mode: Mode, t: string): Option<seq<byte>>
    decreases |t|
  {
    if |t| == 0 then Some([])
    else
      var head: Option<(seq<byte>, nat)> :=
        if t[0] == '%' then
          if |t| >= 3 && HexValue(t[1]).Some? && HexValue(t[2]).Some? then
            Some(([(HexValue(t[1]).value * 16 + HexValue(t[2]).value) as byte], 3))
          else None
        else if t[0] == '+' && mode == FormUrlencoded then Some(([0x20], 1))
        else Some((Utf8Char(t[0]), 1));
      match head
      case None => None
      case Some((bs, n)) =>
        match PercentDecode(mode, t[n..])
        case None => None
        case Some(rest) => Some(bs + rest)
  }

  /** Percent-decoding followed by UTF-8 decoding. */
  function Decode(mode: Mode, t: string): Option<string>
  {
    match PercentDecode(mode, t)
    case None => None
    case Some(bs) => Utf8Decode(bs)
  }

  /** A text that opens with the `%HH` triple of `b` decodes to `b` followed by the rest. */
  lemma PercentByteDecode(mode: Mode, b: byte, t: string)
    requires |t| >= 3 && t[..3] == PercentByte(b) && PercentDecode(mode, t[3..]).Some?
    ensures PercentDecode(mode, t) == Some([b] + PercentDecode(mode, t[3..]).value)
  {
    var v := b as int;
    HexDigitValue(v / 16);
    HexDigitValue(v % 16);
    assert t[0] == '%' && t[1] == HexDigit(v / 16) && t[2] == HexDigit(v % 16);
    assert (v / 16) * 16 + v % 16 == v;
  }

  lemma PercentBytesCons(bs: seq<byte>, rest: string)
    requires |bs| > 0
    ensures var t := PercentBytes(bs) + rest;
      |t| >= 3 && t[..3] == PercentByte(bs[0]) && t[3..] == PercentBytes(bs[1..]) + rest
  {
    var head := PercentByte(bs[0]);
    var u := PercentBytes(bs[1..]) + rest;
    assert PercentBytes(bs) == head + PercentBytes(bs[1..]);
    assert PercentBytes(bs) + rest == head + u;
  }

  lemma PercentBytesDecodeStep(mode: Mode, bs: seq<byte>, rest: string, r: seq<byte>)
    requires |bs| > 0
    requires PercentDecode(mode, PercentBytes(bs[1..]) + rest) == Some(bs[1..] + r)
    ensures PercentDecode(mode, PercentBytes(bs) + rest) == Some(bs + r)
  {
    PercentBytesCons(bs, rest);
    PercentByteDecode(mode, bs[0], PercentBytes(bs) + rest);
    assert [bs[0]] + (bs[1..] + r) == bs + r;
  }

  lemma {:induction false} PercentBytesDecode(mode: Mode, bs: seq<byte>, rest: string)
    requires PercentDecode(mode, rest).Some?
    ensures PercentDecode(mode, PercentBytes(bs) + rest) == Some(bs + PercentDecode(mode, rest).value)
  {
    var r := PercentDecode(mode, rest).value;
    if |bs| > 0 {
      PercentBytesDecode(mode, bs[1..], rest);
      PercentBytesDecodeStep(mode, bs, rest, r);
    } else {
      assert PercentBytes(bs) + rest == rest;
      assert bs + r == r;
    }
  }

  /**
   * Text encoded in mode `enc` can be read back in mode `dec`: the same mode, or any
   * mode for `UriComponent`, which never writes `+`.
   */
  predicate ReadableAs(enc: Mode, dec: Mode)
  {
    enc == dec || enc == UriComponent
  }

  /** One encoded character decodes to its UTF-8 bytes in front of the rest. */
  lemma EncodeCharDecodes(enc: Mode, dec: Mode, c: char, rest: string)
    requires ReadableAs(enc, dec) && PercentDecode(dec, rest).Some?
    ensures PercentDecode(dec, EncodeChar(enc, c) + rest) == Some(Utf8Char(c) + PercentDecode(dec, rest).value)
  {
    var t := EncodeChar(enc, c) + rest;
    if Unreserved(enc, c) {
      assert t[0] == c && t[1..] == rest;
    } else if enc == FormUrlencoded && c == ' ' {
      assert t[0] == '+' && t[1..] == rest;
    } else {
      PercentBytesDecode(dec, Utf8Char(c), rest);
    }
  }

  lemma EncodeCons(enc: Mode, s: string)
    requires |s| > 0
    ensures Encode(enc, s) == EncodeChar(enc, s[0]) + Encode(enc, s[1..])
    ensures Utf8(s) == Utf8Char(s[0]) + Utf8(s[1..])
  {
  }

  /** Percent-decoding an encoding gives the UTF-8 bytes of the encoded string. */
  lemma {:induction false} PercentDecodeEncode(enc: Mode, dec: Mode, s: string)
    requires ReadableAs(enc, dec)
    ensures PercentDecode(dec, Encode(enc, s)) == Some(Utf8(s))
  {
    if |s| > 0 {
      PercentDecodeEncode(enc, dec, s[1..]);
      EncodeCons(enc, s);
      EncodeCharDecodes(enc, dec, s[0], Encode(enc, s[1..]));
    }
  }

  /** Decoding an encoding gives the original string back. */
  lemma EncodeRoundTrip(enc: Mode, dec: Mode, s: string)
    requires ReadableAs(enc, dec)
    ensures Decode(dec, Encode(enc, s)) == Some(s)
  {
    PercentDecodeEncode(enc, dec, s);
    Utf8RoundTrip(s);
  }

  // ---------------------------------------------------------------------------
  // application/x-www-form-urlencoded serialisation and parsing
  // ---------------------------------------------------------------------------

  /** One `name=value` pair of a serialised query. */
  function Pair(mode: Mode, param: (string, string)): string
  {
    Encode(mode, param.0) + "=" + Encode(mode, param.1)
  }

  function Pairs(mode: Mode, params: seq<(string, string)>): (r: seq<string>)
    ensures |r| == |params| && forall i :: 0 <= i < |r| ==> r[i] == Pair(mode, params[i])
  {
    if |params| == 0 then [] else [Pair(mode, params[0])] + Pairs(mode, params[1..])
  }

  /**
   * `new URLSearchParams(params).toString()` (mode `FormUrlencoded`) or
   * `querystring.stringify(params)` (mode `UriComponent`): the encoded pairs in order,
   * joined by `&`.
   */
  function Serialize(mode: Mode, params: seq<(string, string)>): string
  {
    Join(Pairs(mode, params), '&')
  }

  /** Parses one `&`-separated piece: the name runs up to the first `=`. */
  function ParsePair(mode: Mode, piece: string): Option<(string, string)>
  {
    var halves := Split(piece, '=');
    var name := Decode(mode, halves[0]);
    var value := Decode(mode, Join(halves[1..], '='));
    if name.Some? && value.Some? then Some((name.value, value.value)) else None
  }

  /**
   * The application/x-www-form-urlencoded parser of section 5.1 of the WHATWG URL
   * Standard, except that it is strict: a malformed escape or ill-formed UTF-8 gives
   * `None` instead of being passed through or replaced. Empty pieces are skipped.
   */
  function ParsePieces(mode: Mode, pieces: seq<string>): Option<seq<(string, string)>>
  {
    if |pieces| == 0 then Some([])
    else
      var rest := ParsePieces(mode, pieces[1..]);
      if pieces[0] == "" then rest
      else
        match ParsePair(mode, pieces[0])
        case None => None
        case Some(p) => if rest.Some? then Some([p] + rest.value) else None
  }

  function ParseQuery(mode: Mode, query: string): Option<seq<(string, string)>>
  {
    ParsePieces(mode, Split(query, '&'))
  }

  lemma PairParses(enc: Mode, dec: Mode, param: (string, string))
    requires ReadableAs(enc, dec)
    ensures Pair(enc, param) != "" && '&' !in Pair(enc, param)
    ensures ParsePair(dec, Pair(enc, param)) == Some(param)
  {
    var n := Encode(enc, param.0);
    var v := Encode(enc, param.1);
    EncodeChars(enc, param.0);
    EncodeChars(enc, param.1);
    var piece := n + "=" + v;
    assert piece == n + ['='] + v;
    SplitPrefix(n, '=', v);
    SplitWithoutSep(v, '=');
    var halves := Split(piece, '=');
    assert halves == [n, v];
    assert halves[0] == n && Join(halves[1..], '=') == v;
    EncodeRoundTrip(enc, dec, param.0);
    EncodeRoundTrip(enc, dec, param.1);
    assert |piece| > 0;
    assert piece[|n|] == '=';
  }

  lemma {:induction false} ParsePairs(enc: Mode, dec: Mode, params: seq<(string, string)>)
    requires ReadableAs(enc, dec)
    ensures FreeOf(Pairs(enc, params), '&')
    ensures ParsePieces(dec, Pairs(enc, params)) == Some(params)
  {
    if |params| > 0 {
      PairParses(enc, dec, params[0]);
      ParsePairs(enc, dec, params[1..]);
      var ps := Pairs(enc, params);
      assert ps[1..] == Pairs(enc, params[1..]);
      assert [params[0]] + params[1..] == params;
    }
  }

  /** The serialisation lists exactly one `&`-separated piece per parameter, in order. */
  lemma SerializePieces(mode: Mode, params: seq<(string, string)>)
    requires |params| >= 1
    ensures Split(Serialize(mode, params), '&') == Pairs(mode, params)
  {
    ParsePairs(mode, mode, params);
    SplitJoin(Pairs(mode, params), '&');
  }

  /**
   * Parsing a serialisation gives back the parameters, in order; a form parser also
   * reads a `querystring.stringify` serialisation correctly.
   */
  lemma SerializeRoundTrip(enc: Mode, dec: Mode, params: seq<(string, string)>)
    requires ReadableAs(enc, dec)
    ensures ParseQuery(dec, Serialize(enc, params)) == Some(params)
  {
    ParsePairs(enc, dec, params);
    if |params| >= 1 {
      SerializePieces(enc, params);
    } else {
      assert Split("", '&') == [""];
    }
  }

  // ---------------------------------------------------------------------------
  // Base64
  // ---------------------------------------------------------------------------

  /** The base64 alphabet of Table 1 of RFC 4648. */
  function Base64Char(i: nat): char
    requires i < 64
  {
    if i < 26 then ('A' as int + i) as char
    else if i < 52 then ('a' as int + i - 26) as char
    else if i < 62 then ('0' as int + i - 52) as char
    else if i == 62 then '+'
    else '/'
  }

  function Base64Index(c: char): Option<nat>
  {
    if 'A' <= c <= 'Z' then Some(c as int - 'A' as int)
    else if 'a' <= c <= 'z' then Some(c as int - 'a' as int + 26)
    else if '0' <= c <= '9' then Some(c as int - '0' as int + 52)
    else if c == '+' then Some(62)
    else if c == '/' then Some(63)
    else None
  }

  lemma Base64IndexChar(i: nat)
    requires i < 64
    ensures Base64Index(Base64Char(i)) == Some(i)
  {
  }

  /** The four characters of a full group of three bytes. */
  function Base64Group(b0: byte, b1: byte, b2: byte): string
  {
    [Base64Char(b0 as int / 4), Base64Char((b0 as int % 4) * 16 + b1 as int / 16),
     Base64Char((b1 as int % 16) * 4 + b2 as int / 64), Base64Char(b2 as int % 64)]
  }

  /** The padded final group of one or two bytes. */
  function Base64Tail(bs: seq<byte>): string
    requires 1 <= |bs| <= 2
  {
    var b0 := bs[0] as int;
    if |bs| == 1 then [Base64Char(b0 / 4), Base64Char((b0 % 4) * 16), '=', '=']
    else
      var b1 := bs[1] as int;
      [Base64Char(b0 / 4), Base64Char((b0 % 4) * 16 + b1 / 16), Base64Char((b1 % 16) * 4), '=']
  }

  /** Base64 with `=` padding, three bytes to four characters. */
  function Base64(bs: seq<byte>): (t: string)
    ensures |t| == 4 * ((|bs| + 2) / 3)
  {
    if |bs| == 0 then ""
    else if |bs| <= 2 then Base64Tail(bs)
    else Base64Group(bs[0], bs[1], bs[2]) + Base64(bs[3..])
  }

  /** Strict base64 decoding: whole groups of four, padding only in the last group. */
  function Base64Decode(t: string): Option<seq<byte>>
    decreases |t|
  {
    if |t| == 0 then Some([])
    else if |t| < 4 then None
    else
      var i0, i1 := Base64Index(t[0]), Base64Index(t[1]);
      if i0.None? || i1.None? then None
      else
        var v0, v1 := i0.value, i1.value;
        if |t| == 4 && t[2] == '=' && t[3] == '=' then
          if v1 % 16 == 0 then Some([(v0 * 4 + v1 / 16) as byte]) else None
        else
          var i2 := Base64Index(t[2]);
          if i2.None? then None
          else
            var v2 := i2.value;
            if |t| == 4 && t[3] == '=' then
              if v2 % 4 == 0 then Some([(v0 * 4 + v1 / 16) as byte, ((v1 % 16) * 16 + v2 / 4) as byte])
              else None
            else
              var i3 := Base64Index(t[3]);
              if i3.None? then None
              else
                match Base64Decode(t[4..])
                case None => None
                case Some(rest) =>
                  Some([(v0 * 4 + v1 / 16) as byte, ((v1 % 16) * 16 + v2 / 4) as byte,
                        ((v2 % 4) * 64 + i3.value) as byte] + rest)
  }

  lemma Base64TailDecodes(bs: seq<byte>)
    requires 1 <= |bs| <= 2
    ensures Base64Decode(Base64Tail(bs)) == Some(bs)
  {
    var b0 := bs[0] as int;
    Base64IndexChar(b0 / 4);
    assert (b0 / 4) * 4 + b0 % 4 == b0;
    if |bs| == 1 {
      Base64IndexChar((b0 % 4) * 16);
      assert ((b0 % 4) * 16) / 16 == b0 % 4 && ((b0 % 4) * 16) % 16 == 0;
      assert [bs[0]] == bs;
    } else {
      var b1 := bs[1] as int;
      Base64IndexChar((b0 % 4) * 16 + b1 / 16);
      Base64IndexChar((b1 % 16) * 4);
      assert ((b0 % 4) * 16 + b1 / 16) / 16 == b0 % 4;
      assert ((b0 % 4) * 16 + b1 / 16) % 16 == b1 / 16;
      assert ((b1 % 16) * 4) / 4 == b1 % 16 && ((b1 % 16) * 4) % 4 == 0;
      assert (b1 / 16) * 16 + b1 % 16 == b1;
      assert [bs[0], bs[1]] == bs;
    }
  }

  lemma Base64GroupDecodes(b0: byte, b1: byte, b2: byte, tail: string)
    requires Base64Decode(tail).Some?
    ensures Base64Decode(Base64Group(b0, b1, b2) + tail) == Some([b0, b1, b2] + Base64Decode(tail).value)
  {
    var x0, x1, x2 := b0 as int, b1 as int, b2 as int;
    var i0, i1, i2, i3 := x0 / 4, (x0 % 4) * 16 + x1 / 16, (x1 % 16) * 4 + x2 / 64, x2 % 64;
    Base64IndexChar(i0);
    Base64IndexChar(i1);
    Base64IndexChar(i2);
    Base64IndexChar(i3);
    assert i0 * 4 + i1 / 16 == x0;
    assert (i1 % 16) * 16 + i2 / 4 == x1;
    assert (i2 % 4) * 64 + i3 == x2;
    var t := Base64Group(b0, b1, b2) + tail;
    assert t[2] != '=' && t[3] != '=';
    assert t[4..] == tail;
  }

  /** Decoding the base64 encoding of a byte string gives the bytes back. */
  lemma {:induction false} Base64RoundTrip(bs: seq<byte>)
    ensures Base64Decode(Base64(bs)) == Some(bs)
  {
    if 1 <= |bs| <= 2 {
      Base64TailDecodes(bs);
    } else if |bs| > 2 {
      Base64RoundTrip(bs[3..]);
      Base64GroupDecodes(bs[0], bs[1], bs[2], Base64(bs[3..]));
      assert [bs[0], bs[1], bs[2]] + bs[3..] == bs;
    }
  }
}

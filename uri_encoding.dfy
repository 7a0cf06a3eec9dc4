/**
  The image-URL resolution used by both gallery renderers (`_resolveSrc` in
  `GalleryModalSwiper` and `GalleryModalImageStack`): the resolved path is passed
  through `encodeURI` (ECMA-262, the URI handling function "encodeURI ( uri )") and every
  apostrophe left in the result is then replaced by `%27`.

  Dafny characters are Unicode scalar values, so the UTF-16 surrogate handling of
  `encodeURI` (and the URIError it throws on a lone surrogate) has no counterpart here.
*/
module UriEncoding {

  type Byte = b: int | 0 <= b < 256

  predicate IsAlphaNumeric(c: char) {
    'a' <= c <= 'z' || 'A' <= c <= 'Z' || '0' <= c <= '9'
  }

  /** uriMark of ECMA-262: together with the alphanumerics it forms uriUnescaped. */
  predicate IsUriMark(c: char) {
    c == '-' || c == '_' || c == '.' || c == '!' || c == '~' || c == '*' || c == '\'' || c == '(' || c == ')'
  }

  /** uriReserved of ECMA-262. */
  predicate IsUriReserved(c: char) {
    c == ';' || c == '/' || c == '?' || c == ':' || c == '@' || c == '&' || c == '=' || c == '+' || c == '$' || c == ','
  }

  /** The characters `encodeURI` copies unchanged: uriUnescaped, uriReserved and '#'. */
  predicate KeptByEncodeUri(c: char) {
    IsAlphaNumeric(c) || IsUriMark(c) || IsUriReserved(c) || c == '#'
  }

  predicate IsHexChar(c: char) {
    '0' <= c <= '9' || 'A' <= c <= 'F'
  }

  /** What a resolved image URL may contain: what `encodeURI` keeps, except the
      apostrophe, and the '%' that introduces an escape. */
  predicate IsSafeUrlChar(c: char) {
    (KeptByEncodeUri(c) && c != '\'') || c == '%'
  }

  /** The value of a hexadecimal digit (0 for any other character); the partner of
      `HexDigit`. */
  function HexValue(c: char): (v: nat)
    ensures v < 16
  {
    if '0' <= c <= '9' then c as int - '0' as int
    else if 'A' <= c <= 'F' then c as int - 'A' as int + 10
    else if 'a' <= c <= 'f' then c as int - 'a' as int + 10
    else 0
  }

  /** Upper-case hexadecimal digit, as `encodeURI` writes its escapes; reading it
      back gives the value written. */
  function HexDigit(d: int): (c: char)
    requires 0 <= d < 16
    ensures IsHexChar(c) && KeptByEncodeUri(c) && c != '%'
    ensures HexValue(c) == d
  {
    if d < 10 then ('0' as int + d) as char else ('A' as int + d - 10) as char
  }

  /** The code point a UTF-8 sequence of one to four octets stands for (-1 for any
      other length); the partner of `Utf8`. */
  function DecodeUtf8(bytes: seq<Byte>): int {
    var b := seq(|bytes|, i requires 0 <= i < |bytes| => bytes[i] as int);
    if |b| == 1 then b[0]
    else if |b| == 2 then (b[0] - 0xC0) * 64 + (b[1] - 0x80)
    else if |b| == 3 then (b[0] - 0xE0) * 4096 + (b[1] - 0x80) * 64 + (b[2] - 0x80)
    else if |b| == 4 then (b[0] - 0xF0) * 0x40000 + (b[1] - 0x80) * 4096 + (b[2] - 0x80) * 64 + (b[3] - 0x80)
    else -1
  }

  /** The UTF-8 octets of one scalar value. */
  function Utf8(c: char): (bytes: seq<Byte>)
    ensures 1 <= |bytes| <= 4
    ensures |bytes| == 1 <==> c as int < 0x80
    ensures |bytes| == 1 ==> bytes[0] == c as int
    ensures |bytes| > 1 ==> forall i :: 0 <= i < |bytes| ==> bytes[i] >= 0x80
    ensures |bytes| == 2 ==> 0xC2 <= bytes[0] < 0xE0
    ensures |bytes| == 3 ==> 0xE0 <= bytes[0] < 0xF0
    ensures |bytes| == 4 ==> 0xF0 <= bytes[0] < 0xF5
    ensures forall i :: 1 <= i < |bytes| ==> bytes[i] < 0xC0
  {
    var n := c as int;
    if n < 0x80 then [n]
    else if n < 0x800 then [0xC0 + n / 64, 0x80 + n % 64]
    else if n < 0x10000 then [0xE0 + n / 4096, 0x80 + (n / 64) % 64, 0x80 + n % 64]
    else [0xF0 + n / 0x40000, 0x80 + (n / 4096) % 64, 0x80 + (n / 64) % 64, 0x80 + n % 64]
  }

  /** Decoding the octets `Utf8` writes gives back the code point. */
  lemma Utf8RoundTrip(c: char)
    ensures DecodeUtf8(Utf8(c)) == c as int
  {
    var n := c as int;
    assert n == 64 * (n / 64) + n % 64;
    assert n / 64 == 64 * (n / 4096) + (n / 64) % 64;
    assert n / 4096 == 64 * (n / 0x40000) + (n / 4096) % 64;
  }

  /** "%XY" for each octet. */
  function PercentEncoded(bytes: seq<Byte>): (r: string)
    ensures |r| == 3 * |bytes|
    ensures forall i :: 0 <= i < |r| ==> r[i] == '%' || IsHexChar(r[i])
  {
    if bytes == [] then []
    else ['%', HexDigit(bytes[0] / 16), HexDigit(bytes[0] % 16)] + PercentEncoded(bytes[1..])
  }

  /** Reads "%XY" triples back into octets; the partner of `PercentEncoded`. */
  function PercentDecode(s: string): (bytes: seq<Byte>)
    ensures |bytes| == |s| / 3
  {
    if |s| < 3 then []
    else [HexValue(s[1]) * 16 + HexValue(s[2])] + PercentDecode(s[3..])
  }

  /** Every octet survives its escape: the digits of "%XY" are the octet's. */
  lemma {:induction false} PercentDecodeRoundTrip(bytes: seq<Byte>)
    ensures PercentDecode(PercentEncoded(bytes)) == bytes
  {
    if bytes != [] {
      var b := bytes[0];
      var e := PercentEncoded(bytes);
      assert e[3..] == PercentEncoded(bytes[1..]);
      assert HexValue(e[1]) * 16 + HexValue(e[2]) == b;
      PercentDecodeRoundTrip(bytes[1..]);
    }
  }

  /** One character through `encodeURI`: kept as is, or its UTF-8 octets escaped. */
  function EncodeChar(c: char): (r: string)
    ensures KeptByEncodeUri(c) ==> r == [c]
    ensures !KeptByEncodeUri(c) ==> |r| >= 3 && r[0] == '%' && '\'' !in r
  {
    if KeptByEncodeUri(c) then [c] else PercentEncoded(Utf8(c))
  }

  /** `encodeURI` of a whole string. */
  function EncodeUri(s: string): (r: string)
    ensures |r| >= |s|
    ensures forall i :: 0 <= i < |r| ==> KeptByEncodeUri(r[i]) || r[i] == '%'
  {
    if s == [] then [] else EncodeChar(s[0]) + EncodeUri(s[1..])
  }

  /** The escape `encodeURI` writes for a character it does not keep decodes, octet by
      octet and then as UTF-8, to exactly that character. */
  lemma EscapeCarriesChar(c: char)
    requires !KeptByEncodeUri(c)
    ensures DecodeUtf8(PercentDecode(EncodeChar(c))) == c as int
  {
    PercentDecodeRoundTrip(Utf8(c));
    Utf8RoundTrip(c);
  }

  /** `encodeURI` works character by character. */
  lemma {:induction false} EncodeUriAppend(a: string, b: string)
    ensures EncodeUri(a + b) == EncodeUri(a) + EncodeUri(b)
  {
    if a == [] {
      assert a + b == b;
    } else {
      assert (a + b)[0] == a[0];
      assert (a + b)[1..] == a[1..] + b;
      EncodeUriAppend(a[1..], b);
    }
  }

  /** The code points of a string. */
  function CodePoints(s: string): seq<int> {
    if s == [] then [] else [s[0] as int] + CodePoints(s[1..])
  }

  /** How many octets a UTF-8 sequence with this leading octet has. */
  function SequenceLength(lead: int): nat {
    if lead < 0x80 then 1 else if lead < 0xE0 then 2 else if lead < 0xF0 then 3 else 4
  }

  /** A reference decoder for what `encodeURI` writes: a character other than '%'
      stands for itself; "%XY" starts a UTF-8 sequence whose length its leading octet
      gives, decoded to one code point. A '%' without room for its escape is kept as
      a character. */
  function DecodeUri(s: string): seq<int>
    decreases |s|
  {
    if s == [] then []
    else if s[0] != '%' || |s| < 3 then [s[0] as int] + DecodeUri(s[1..])
    else
      var n := SequenceLength(HexValue(s[1]) * 16 + HexValue(s[2]));
      if |s| < 3 * n then [s[0] as int] + DecodeUri(s[1..])
      else [DecodeUtf8(PercentDecode(s[..3 * n]))] + DecodeUri(s[3 * n..])
  }

  /** Decoding reads exactly one character's encoding off the front. */
  lemma DecodeEncodedChar(c: char, rest: string)
    ensures DecodeUri(EncodeChar(c) + rest) == [c as int] + DecodeUri(rest)
  {
    var s := EncodeChar(c) + rest;
    if KeptByEncodeUri(c) {
      assert s[0] == c && s[1..] == rest;
    } else {
      var bytes := Utf8(c);
      var e := PercentEncoded(bytes);
      assert e == ['%', HexDigit(bytes[0] / 16), HexDigit(bytes[0] % 16)] + PercentEncoded(bytes[1..]);
      assert HexValue(s[1]) * 16 + HexValue(s[2]) == bytes[0];
      assert SequenceLength(bytes[0]) == |bytes|;
      assert s[..3 * |bytes|] == e && s[3 * |bytes|..] == rest;
      EscapeCarriesChar(c);
    }
  }

  /** Round trip: decoding the output of `encodeURI` gives back every character of the
      input, in order. */
  lemma {:induction false} DecodeAfterEncode(s: string)
    ensures DecodeUri(EncodeUri(s)) == CodePoints(s)
  {
    if s != [] {
      DecodeEncodedChar(s[0], EncodeUri(s[1..]));
      DecodeAfterEncode(s[1..]);
    }
  }

  /** `s.replaceAll("'", "%27")`. */
  function ReplaceApostrophes(s: string): (r: string)
    ensures forall i :: 0 <= i < |r| ==> r[i] != '\''
    ensures '\'' !in s ==> r == s
    ensures forall i :: 0 <= i < |r| ==> r[i] == '%' || r[i] == '2' || r[i] == '7' || r[i] in s
  {
    if s == [] then []
    else (if s[0] == '\'' then "%27" else [s[0]]) + ReplaceApostrophes(s[1..])
  }

  /** `_resolveSrc` applied to the path returned by `utils.file.resolvePath`:
      the result never contains an apostrophe, and every character in it is one
      `encodeURI` keeps or the '%' of an escape. */
  function ResolveSrc(resolved: string): (r: string)
    ensures '\'' !in r
    ensures forall i :: 0 <= i < |r| ==> IsSafeUrlChar(r[i])
  {
    ReplaceApostrophes(EncodeUri(resolved))
  }

  /** Turns every "%27" back into an apostrophe; the partner of `ReplaceApostrophes`
      on what `encodeURI` produces. */
  function RestoreApostrophes(s: string): (r: string)
    ensures |r| <= |s|
  {
    if |s| >= 3 && s[0] == '%' && s[1] == '2' && s[2] == '7' then "'" + RestoreApostrophes(s[3..])
    else if s == [] then []
    else [s[0]] + RestoreApostrophes(s[1..])
  }

  lemma {:induction false} ReplaceApostrophesAppend(a: string, b: string)
    ensures ReplaceApostrophes(a + b) == ReplaceApostrophes(a) + ReplaceApostrophes(b)
  {
    if a == [] {
      assert a + b == b;
    } else {
      var head := if a[0] == '\'' then "%27" else [a[0]];
      assert (a + b)[0] == a[0];
      assert (a + b)[1..] == a[1..] + b;
      ReplaceApostrophesAppend(a[1..], b);
      calc {
        ReplaceApostrophes(a + b);
        head + ReplaceApostrophes(a[1..] + b);
        head + (ReplaceApostrophes(a[1..]) + ReplaceApostrophes(b));
        (head + ReplaceApostrophes(a[1..])) + ReplaceApostrophes(b);
        ReplaceApostrophes(a) + ReplaceApostrophes(b);
      }
    }
  }

  /** Restoring passes over a character that does not start an escape. */
  lemma RestoreCopiesPlainChar(c: char, rest: string)
    requires c != '%'
    ensures RestoreApostrophes([c] + rest) == [c] + RestoreApostrophes(rest)
  {
    assert ([c] + rest)[1..] == rest;
  }

  /** The escape of an octet reads "%27" only for the apostrophe's octet 0x27. */
  lemma EscapeIsNotApostrophe(b: Byte)
    requires b != 0x27
    ensures !(HexDigit(b / 16) == '2' && HexDigit(b % 16) == '7')
  {
  }

  /** Restoring passes over one escape "%XY" that is not "%27". */
  lemma RestoreCopiesEscape(b: Byte, tail: string)
    requires b != 0x27
    ensures RestoreApostrophes(['%', HexDigit(b / 16), HexDigit(b % 16)] + tail)
         == ['%', HexDigit(b / 16), HexDigit(b % 16)] + RestoreApostrophes(tail)
  {
    var x, y := HexDigit(b / 16), HexDigit(b % 16);
    var s := ['%', x, y] + tail;
    EscapeIsNotApostrophe(b);
    assert s[1..] == [x] + ([y] + tail);
    RestoreCopiesPlainChar(x, [y] + tail);
    RestoreCopiesPlainChar(y, tail);
  }

  /** Restoring passes over escapes of octets other than the apostrophe's (0x27). */
  lemma {:induction false} RestoreCopiesEscapes(bytes: seq<Byte>, rest: string)
    requires forall i :: 0 <= i < |bytes| ==> bytes[i] != 0x27
    ensures RestoreApostrophes(PercentEncoded(bytes) + rest) == PercentEncoded(bytes) + RestoreApostrophes(rest)
  {
    if bytes == [] {
      assert PercentEncoded(bytes) + rest == rest;
    } else {
      var b := bytes[0];
      var head := ['%', HexDigit(b / 16), HexDigit(b % 16)];
      var tail := PercentEncoded(bytes[1..]) + rest;
      assert PercentEncoded(bytes) + rest == head + tail;
      RestoreCopiesEscape(b, tail);
      RestoreCopiesEscapes(bytes[1..], rest);
    }
  }

  /** The octets `encodeURI` escapes never include the apostrophe's. */
  lemma EscapedOctetsAreNotApostrophe(c: char, bytes: seq<Byte>)
    requires !KeptByEncodeUri(c) && bytes == Utf8(c)
    ensures forall i :: 0 <= i < |bytes| ==> bytes[i] != 0x27
  {
  }

  /** A kept character other than the apostrophe resolves to itself, and is not '%'. */
  lemma KeptCharResolvesToItself(c: char)
    requires KeptByEncodeUri(c) && c != '\''
    ensures c != '%' && ReplaceApostrophes(EncodeChar(c)) == [c]
  {
    assert '\'' !in [c];
  }

  /** Round trip: the apostrophe replacement loses nothing, because `encodeURI`
      itself never writes "%27" (it keeps the apostrophe and escapes '%'). */
  lemma {:induction false} RestoreAfterResolve(s: string)
    ensures RestoreApostrophes(ResolveSrc(s)) == EncodeUri(s)
  {
    if s != [] {
      var c, rest := s[0], ReplaceApostrophes(EncodeUri(s[1..]));
      ReplaceApostrophesAppend(EncodeChar(c), EncodeUri(s[1..]));
      assert ResolveSrc(s) == ReplaceApostrophes(EncodeChar(c)) + rest;
      RestoreAfterResolve(s[1..]);
      if c == '\'' {
        assert ReplaceApostrophes(EncodeChar(c)) == "%27";
        assert ("%27" + rest)[3..] == rest;
      } else if KeptByEncodeUri(c) {
        KeptCharResolvesToItself(c);
        RestoreCopiesPlainChar(c, rest);
      } else {
        var bytes := Utf8(c);
        EscapedOctetsAreNotApostrophe(c, bytes);
        RestoreCopiesEscapes(bytes, rest);
        assert ReplaceApostrophes(EncodeChar(c)) == PercentEncoded(bytes);
      }
    }
  }

  /** A path made only of characters `encodeURI` keeps, with no apostrophe, is used as is. */
  lemma {:induction false} ResolveSrcKeepsPlainPaths(s: string)
    requires forall i :: 0 <= i < |s| ==> IsSafeUrlChar(s[i]) && s[i] != '%'
    ensures ResolveSrc(s) == s
  {
    if s != [] {
      ResolveSrcKeepsPlainPaths(s[1..]);
      ReplaceApostrophesAppend([s[0]], EncodeUri(s[1..]));
    }
  }

  /** An apostrophe comes out as "%27". */
  lemma ResolveSrcEscapesApostrophe()
    ensures ResolveSrc("a'b") == "a%27b"
  {
  }

  /** A space comes out as "%20". */
  lemma ResolveSrcEscapesSpace()
    ensures ResolveSrc(" ") == "%20"
  {
  }
}

/** `encodeURIComponent` as the Encode operation of ECMA-262 (section
    19.2.6.5, "Encode"): every character outside the unescaped set is
    written as its UTF-8 octets, each as `%` and two upper-case hex digits
    (the percent-encoding of section 2.1 of RFC 3986). A Dafny `char` is a
    Unicode scalar value, so the lone-surrogate `URIError` cannot arise.
    `DecodeURIComponent` (ECMA-262 section 19.2.6.6, "Decode", with an
    empty reserved set) is its inverse and serves as its specification. */
module UriEncoding {
  import opened Wrappers
  import opened JsString

  type Byte = b: int | 0 <= b < 256

  /** The characters `encodeURIComponent` leaves as they are: ASCII
      letters, digits and `- _ . ! ~ * ' ( )`. */
  predicate IsUnescaped(c: char) {
    'a' <= c <= 'z' || 'A' <= c <= 'Z' || '0' <= c <= '9' ||
    c == '-' || c == '_' || c == '.' || c == '!' || c == '~' || c == '*' ||
    c == '\'' || c == '(' || c == ')'
  }

  predicate IsUpperHex(c: char) {
    '0' <= c <= '9' || 'A' <= c <= 'F'
  }

  function HexDigit(d: nat): (c: char)
    requires d < 16
    ensures IsUpperHex(c)
  {
    if d < 10 then ('0' as int + d) as char else ('A' as int + d - 10) as char
  }

  /** The value of a hex digit of either case, as Decode reads it. */
  function HexValue(c: char): Option<nat> {
    if '0' <= c <= '9' then Some(c as int - '0' as int)
    else if 'A' <= c <= 'F' then Some(c as int - 'A' as int + 10)
    else if 'a' <= c <= 'f' then Some(c as int - 'a' as int + 10)
    else None
  }

  lemma HexRoundTrip(d: nat)
    requires d < 16
    ensures HexValue(HexDigit(d)) == Some(d)
  {
  }

  /** The UTF-8 encoding of a scalar value (RFC 3629, section 3). */
  function Utf8(c: char): (bs: seq<Byte>)
    ensures 1 <= |bs| <= 4
  {
    var n := c as int;
    if n < 0x80 then [n]
    else if n < 0x800 then [0xC0 + n / 64, 0x80 + n % 64]
    else if n < 0x10000 then [0xE0 + n / 4096, 0x80 + (n / 64) % 64, 0x80 + n % 64]
    else [0xF0 + n / 0x40000, 0x80 + (n / 4096) % 64, 0x80 + (n / 64) % 64, 0x80 + n % 64]
  }

  function PercentByte(b: Byte): string {
    ['%', HexDigit(b / 16), HexDigit(b % 16)]
  }

  function PercentBytes(bs: seq<Byte>): (t: string)
    ensures |t| == 3 * |bs|
  {
    if bs == [] then [] else PercentByte(bs[0]) + PercentBytes(bs[1..])
  }

  function EncodeChar(c: char): string {
    if IsUnescaped(c) then [c] else PercentBytes(Utf8(c))
  }

  /** `encodeURIComponent(s)`. */
  function EncodeURIComponent(s: string): string {
    ConcatMap(EncodeChar, s)
  }

  // ---- Decoding, the inverse used as the specification of Encode ----

  /** The octet written as `%XY` at index `i` of `t`. */
  function EscapedByteAt(t: string, i: nat): (r: Option<Byte>) {
    if i + 3 <= |t| && t[i] == '%' then
      var hi :- HexValue(t[i + 1]);
      var lo :- HexValue(t[i + 2]);
      if hi < 16 && lo < 16 then Some(16 * hi + lo) else None
    else None
  }

  /** The low six bits of a continuation octet `%XY` at index `i`. */
  function ContinuationAt(t: string, i: nat): Option<nat> {
    var b :- EscapedByteAt(t, i);
    if 0x80 <= b < 0xC0 then Some(b - 0x80) else None
  }

  function ScalarOf(v: int): Option<char> {
    if 0 <= v < 0xD800 || 0xE000 <= v < 0x110000 then Some(v as char) else None
  }

  /** The character written by the escapes at the start of `t`, and how
      many characters of `t` they take; `None` where Decode throws
      `URIError` (bad hex, bad UTF-8, an overlong form or a surrogate). */
  function DecodeEscape(t: string): Option<(char, nat)> {
    var b0 :- EscapedByteAt(t, 0);
    if b0 < 0x80 then
      Some((b0 as char, 3))
    else if 0xC0 <= b0 < 0xE0 then
      var c1 :- ContinuationAt(t, 3);
      var v := (b0 - 0xC0) * 64 + c1;
      if v < 0x80 then None else var ch :- ScalarOf(v); Some((ch, 6))
    else if 0xE0 <= b0 < 0xF0 then
      var c1 :- ContinuationAt(t, 3);
      var c2 :- ContinuationAt(t, 6);
      var v := (b0 - 0xE0) * 4096 + c1 * 64 + c2;
      if v < 0x800 then None else var ch :- ScalarOf(v); Some((ch, 9))
    else if 0xF0 <= b0 < 0xF8 then
      var c1 :- ContinuationAt(t, 3);
      var c2 :- ContinuationAt(t, 6);
      var c3 :- ContinuationAt(t, 9);
      var v := (b0 - 0xF0) * 0x40000 + c1 * 4096 + c2 * 64 + c3;
      if v < 0x10000 then None else var ch :- ScalarOf(v); Some((ch, 12))
    else None
  }

  /** `decodeURIComponent(t)`, with `None` where it throws `URIError`. */
  function DecodeURIComponent(t: string): Option<string>
    decreases |t|
  {
    if t == [] then Some([])
    else if t[0] != '%' then
      var rest :- DecodeURIComponent(t[1..]);
      Some([t[0]] + rest)
    else
      var (c, n) :- DecodeEscape(t);
      if 0 < n <= |t| then
        var rest :- DecodeURIComponent(t[n..]);
        Some([c] + rest)
      else None
  }

  /** `%XY` written for `b` reads back as `b`. */
  lemma PercentByteRead(b: Byte, rest: string)
    ensures EscapedByteAt(PercentByte(b) + rest, 0) == Some(b)
  {
    var t := PercentByte(b) + rest;
    HexRoundTrip(b / 16);
    HexRoundTrip(b % 16);
    assert t[0] == '%' && t[1] == HexDigit(b / 16) && t[2] == HexDigit(b % 16);
  }

  /** Reading an escape three characters further on. */
  lemma EscapedShift(t: string, i: nat)
    requires 3 <= |t|
    ensures EscapedByteAt(t, i + 3) == EscapedByteAt(t[3..], i)
  {
    if i + 6 <= |t| {
      assert t[i + 3] == t[3..][i] && t[i + 4] == t[3..][i + 1] && t[i + 5] == t[3..][i + 2];
    }
  }

  lemma {:induction false} PercentBytesAt(bs: seq<Byte>, rest: string, k: nat)
    requires k < |bs|
    ensures EscapedByteAt(PercentBytes(bs) + rest, 3 * k) == Some(bs[k])
  {
    var t := PercentBytes(bs) + rest;
    assert t == PercentByte(bs[0]) + (PercentBytes(bs[1..]) + rest);
    if k == 0 {
      PercentByteRead(bs[0], PercentBytes(bs[1..]) + rest);
    } else {
      PercentBytesAt(bs[1..], rest, k - 1);
      assert t[3..] == PercentBytes(bs[1..]) + rest;
      EscapedShift(t, 3 * (k - 1));
    }
  }

  lemma DecodeEscape1(c: char, rest: string)
    requires c as int < 0x80
    ensures DecodeEscape(PercentBytes(Utf8(c)) + rest) == Some((c, 3))
  {
    PercentBytesAt(Utf8(c), rest, 0);
  }

  lemma DecodeEscape2(c: char, rest: string)
    requires 0x80 <= c as int < 0x800
    ensures DecodeEscape(PercentBytes(Utf8(c)) + rest) == Some((c, 6))
  {
    var t := PercentBytes(Utf8(c)) + rest;
    var n := c as int;
    PercentBytesAt(Utf8(c), rest, 0);
    PercentBytesAt(Utf8(c), rest, 1);
    assert EscapedByteAt(t, 0) == Some(0xC0 + n / 64);
    assert ContinuationAt(t, 3) == Some(n % 64);
    assert (n / 64) * 64 + n % 64 == n;
  }

  /** Decode reading a three-octet sequence that holds `v`. */
  lemma DecodeThree(t: string, b0: Byte, c1: nat, c2: nat, v: int)
    requires EscapedByteAt(t, 0) == Some(b0) && 0xE0 <= b0 < 0xF0
    requires ContinuationAt(t, 3) == Some(c1) && ContinuationAt(t, 6) == Some(c2)
    requires v == (b0 - 0xE0) * 4096 + c1 * 64 + c2
    requires 0x800 <= v < 0x10000 && (v < 0xD800 || 0xE000 <= v)
    ensures DecodeEscape(t) == Some((v as char, 9))
  {
  }

  /** Decode reading a four-octet sequence that holds `v`. */
  lemma DecodeFour(t: string, b0: Byte, c1: nat, c2: nat, c3: nat, v: int)
    requires EscapedByteAt(t, 0) == Some(b0) && 0xF0 <= b0 < 0xF8
    requires ContinuationAt(t, 3) == Some(c1) && ContinuationAt(t, 6) == Some(c2)
    requires ContinuationAt(t, 9) == Some(c3)
    requires v == (b0 - 0xF0) * 0x40000 + c1 * 4096 + c2 * 64 + c3
    requires 0x10000 <= v < 0x110000
    ensures DecodeEscape(t) == Some((v as char, 12))
  {
  }

  lemma DecodeEscape3(c: char, rest: string)
    requires 0x800 <= c as int < 0x10000
    ensures DecodeEscape(PercentBytes(Utf8(c)) + rest) == Some((c, 9))
  {
    var t := PercentBytes(Utf8(c)) + rest;
    var n := c as int;
    var bs := Utf8(c);
    PercentBytesAt(bs, rest, 0);
    PercentBytesAt(bs, rest, 1);
    PercentBytesAt(bs, rest, 2);
    var c1, c2 := (n / 64) % 64, n % 64;
    assert EscapedByteAt(t, 0) == Some(bs[0]);
    assert ContinuationAt(t, 3) == Some(c1);
    assert ContinuationAt(t, 6) == Some(c2);
    Recombine3(n);
    DecodeThree(t, bs[0], c1, c2, n);
  }

  lemma Recombine3(n: int)
    requires 0x800 <= n < 0x10000
    ensures (n / 4096) * 4096 + ((n / 64) % 64) * 64 + n % 64 == n
  {
    assert n / 64 == (n / 4096) * 64 + (n / 64) % 64;
    assert n == (n / 64) * 64 + n % 64;
  }

  lemma Recombine4(n: int)
    requires 0x10000 <= n < 0x110000
    ensures (n / 0x40000) * 0x40000 + ((n / 4096) % 64) * 4096 + ((n / 64) % 64) * 64 + n % 64 == n
  {
    var a, b, d, e := n / 0x40000, (n / 4096) % 64, (n / 64) % 64, n % 64;
    assert n / 4096 == a * 64 + b;
    assert n / 64 == (n / 4096) * 64 + d;
    assert n == (n / 64) * 64 + e;
  }

  lemma DecodeEscape4(c: char, rest: string)
    requires 0x10000 <= c as int
    ensures DecodeEscape(PercentBytes(Utf8(c)) + rest) == Some((c, 12))
  {
    var t := PercentBytes(Utf8(c)) + rest;
    var n := c as int;
    var bs := Utf8(c);
    PercentBytesAt(bs, rest, 0);
    PercentBytesAt(bs, rest, 1);
    PercentBytesAt(bs, rest, 2);
    PercentBytesAt(bs, rest, 3);
    var c1, c2, c3 := (n / 4096) % 64, (n / 64) % 64, n % 64;
    assert EscapedByteAt(t, 0) == Some(bs[0]);
    assert ContinuationAt(t, 3) == Some(c1);
    assert ContinuationAt(t, 6) == Some(c2);
    assert ContinuationAt(t, 9) == Some(c3);
    Recombine4(n);
    DecodeFour(t, bs[0], c1, c2, c3, n);
  }

  lemma DecodeEscapeUtf8(c: char, rest: string)
    ensures DecodeEscape(PercentBytes(Utf8(c)) + rest) == Some((c, 3 * |Utf8(c)|))
  {
    var n := c as int;
    if n < 0x80 {
      DecodeEscape1(c, rest);
    } else if n < 0x800 {
      DecodeEscape2(c, rest);
    } else if n < 0x10000 {
      DecodeEscape3(c, rest);
    } else {
      DecodeEscape4(c, rest);
    }
  }

  /** Decoding what `encodeURIComponent` wrote gives the original string
      back: the encoding loses nothing and the escapes are well formed. */
  lemma {:induction false} DecodeEncode(s: string)
    ensures DecodeURIComponent(EncodeURIComponent(s)) == Some(s)
  {
    if s != [] {
      var c := s[0];
      var rest := EncodeURIComponent(s[1..]);
      var t := EncodeChar(c) + rest;
      assert EncodeURIComponent(s) == t;
      DecodeEncode(s[1..]);
      assert [c] + s[1..] == s;
      if IsUnescaped(c) {
        assert t[0] == c && t[1..] == rest;
        assert DecodeURIComponent(t) == Some([c] + s[1..]);
      } else {
        DecodeEscapeUtf8(c, rest);
        PercentBytesAt(Utf8(c), rest, 0);
        assert t[0] == '%';
        assert t[3 * |Utf8(c)|..] == rest;
        assert DecodeURIComponent(t) == Some([c] + s[1..]);
      }
    }
  }

  /** Distinct strings have distinct encodings. */
  lemma EncodeInjective(s: string, s': string)
    requires EncodeURIComponent(s) == EncodeURIComponent(s')
    ensures s == s'
  {
    DecodeEncode(s);
    DecodeEncode(s');
  }

  /** Every character of an encoding is an unescaped character standing
      for itself, a `%` or an upper-case hex digit. */
  lemma {:induction false} PercentBytesAlphabet(bs: seq<Byte>, x: char)
    requires x in PercentBytes(bs)
    ensures x == '%' || IsUpperHex(x)
  {
    if bs != [] {
      if x !in PercentByte(bs[0]) {
        PercentBytesAlphabet(bs[1..], x);
      }
    }
  }

  lemma EncodeCharAlphabet(c: char, x: char)
    requires x in EncodeChar(c)
    ensures (x == c && IsUnescaped(c)) || x == '%' || IsUpperHex(x)
  {
    if !IsUnescaped(c) {
      PercentBytesAlphabet(Utf8(c), x);
    }
  }

  /** The unescaped characters, and only they, are written as themselves. */
  lemma EncodeCharIdentity(c: char)
    ensures EncodeChar(c) == [c] <==> IsUnescaped(c)
  {
    if !IsUnescaped(c) {
      assert |EncodeChar(c)| >= 3;
    }
  }
}

/** encodeURI and decodeURI of ECMA-262 (section 19.2.6, URI Handling Functions), on Unicode
    scalar values: characters outside the unescaped set become "%XX" escapes of their UTF-8 bytes
    (RFC 3629), and decoding reverses that, refusing malformed escapes with a URIError. */
module Uri {
  import opened Wrappers

  /** uriAlpha, DecimalDigit and uriMark: the unreserved characters of section 2.3 of RFC 3986
      that no URI function of ECMA-262 escapes. */
  predicate IsUnreserved(c: char) {
    || ('a' <= c <= 'z') || ('A' <= c <= 'Z') || ('0' <= c <= '9')
    || c == '-' || c == '_' || c == '.' || c == '!' || c == '~' || c == '*' || c == '\'' || c == '(' || c == ')'
  }

  /** uriReserved plus '#': encodeURI leaves them as they are, and decodeURI leaves their escapes
      undecoded. */
  predicate IsReservedOrHash(c: char) {
    || c == ';' || c == '/' || c == '?' || c == ':' || c == '@' || c == '&'
    || c == '=' || c == '+' || c == '$' || c == ',' || c == '#'
  }

  /** The characters encodeURI copies unchanged. */
  predicate IsUnescaped(c: char) {
    IsUnreserved(c) || IsReservedOrHash(c)
  }

  type Byte = b: int | 0 <= b < 256

  function HexDigit(d: int): char
    requires 0 <= d < 16
  {
    if d < 10 then ('0' as int + d) as char else ('A' as int + d - 10) as char
  }

  /** The value of a hexadecimal digit of either case. */
  function HexValue(c: char): Option<int> {
    if '0' <= c <= '9' then Some(c as int - '0' as int)
    else if 'A' <= c <= 'F' then Some(c as int - 'A' as int + 10)
    else if 'a' <= c <= 'f' then Some(c as int - 'a' as int + 10)
    else None
  }

  /** The UTF-8 encoding of a code point (section 3 of RFC 3629). */
  function Utf8(c: char): (bytes: seq<Byte>)
    ensures 1 <= |bytes| <= 4
  {
    var v := c as int;
    if v < 0x80 then [v]
    else if v < 0x800 then [0xC0 + v / 64, 0x80 + v % 64]
    else if v < 0x10000 then [0xE0 + v / 4096, 0x80 + (v / 64) % 64, 0x80 + v % 64]
    else [0xF0 + v / 262144, 0x80 + (v / 4096) % 64, 0x80 + (v / 64) % 64, 0x80 + v % 64]
  }

  /** "%XX" for every byte, with upper-case hexadecimal digits. */
  function Escape(bytes: seq<Byte>): (r: string)
    ensures |r| == 3 * |bytes|
  {
    if bytes == [] then ""
    else ['%', HexDigit(bytes[0] / 16), HexDigit(bytes[0] % 16)] + Escape(bytes[1..])
  }

  /** What encodeURI writes for one character. */
  function EncodeChar(c: char): string {
    if IsUnescaped(c) then [c] else Escape(Utf8(c))
  }

  /** The characters an encodeURI result is made of. */
  predicate IsUriChar(c: char) {
    IsUnescaped(c) || c == '%'
  }

  /** encodeURI: every character outside the unescaped set replaced by the escapes of its UTF-8
      bytes. The result holds only unescaped characters and '%', so no white space, quote, angle
      bracket, square bracket or non-ASCII character survives. */
  function EncodeURI(s: string): (r: string)
    ensures forall k :: 0 <= k < |r| ==> IsUriChar(r[k])
  {
    if s == [] then ""
    else
      var head := EncodeChar(s[0]);
      assert forall k :: 0 <= k < |head| ==> IsUriChar(head[k]) by {
        if !IsUnescaped(s[0]) { EscapeIsUri(Utf8(s[0])); }
      }
      head + EncodeURI(s[1..])
  }

  lemma {:induction false} EscapeIsUri(bytes: seq<Byte>)
    ensures forall k :: 0 <= k < |Escape(bytes)| ==> IsUriChar(Escape(bytes)[k])
  {
    if bytes != [] {
      EscapeIsUri(bytes[1..]);
    }
  }

  /** The byte written as "%XX" at index `k` of `s`, if an escape stands there. */
  function EscapedByte(s: string, k: nat): Option<Byte> {
    if k + 2 < |s| && s[k] == '%' then
      match (HexValue(s[k + 1]), HexValue(s[k + 2]))
      case (Some(h), Some(l)) => Some(h * 16 + l)
      case _ => None
    else None
  }

  /** The six payload bits of a UTF-8 continuation byte escaped at index `k`. */
  function Continuation(s: string, k: nat): Option<int> {
    match EscapedByte(s, k)
    case Some(b) => if 0x80 <= b < 0xC0 then Some(b - 0x80) else None
    case None => None
  }

  /** The text that the escape sequence at the start of `s` decodes to and the number of characters
      it spans, or None where decodeURI throws a URIError: a '%' not followed by two hexadecimal
      digits, a byte that cannot start a UTF-8 sequence, a missing or malformed continuation byte,
      an overlong encoding, a surrogate or a value above U+10FFFF. An escaped reserved character or
      '#' is kept as the escape itself. */
  function DecodeEscape(s: string): (r: Option<(string, nat)>)
    ensures r.Some? ==> 3 <= r.value.1 <= |s|
  {
    match EscapedByte(s, 0)
    case None => None
    case Some(b) =>
      if b < 0x80 then
        if IsReservedOrHash(b as char) then Some((s[..3], 3)) else Some(([b as char], 3))
      else if b < 0xC0 || b >= 0xF8 then None
      else if b < 0xE0 then
        match Continuation(s, 3)
        case None => None
        case Some(c1) =>
          var v := (b - 0xC0) * 64 + c1;
          if v < 0x80 then None else Some(([v as char], 6))
      else if b < 0xF0 then
        match (Continuation(s, 3), Continuation(s, 6))
        case (Some(c1), Some(c2)) =>
          var v := (b - 0xE0) * 4096 + c1 * 64 + c2;
          if v < 0x800 || (0xD800 <= v < 0xE000) then None else Some(([v as char], 9))
        case _ => None
      else
        match (Continuation(s, 3), Continuation(s, 6), Continuation(s, 9))
        case (Some(c1), Some(c2), Some(c3)) =>
          var v := (b - 0xF0) * 262144 + c1 * 4096 + c2 * 64 + c3;
          if v < 0x10000 || v > 0x10FFFF then None else Some(([v as char], 12))
        case _ => None
  }

  function Prepend(p: string, r: Result<string>): Result<string> {
    match r
    case Ok(t) => Ok(p + t)
    case Err(e) => Err(e)
  }

  /** decodeURI: escapes replaced by the characters they encode, scanning left to right. */
  function DecodeURI(s: string): Result<string>
    decreases |s|
  {
    if s == [] then Ok("")
    else if s[0] != '%' then Prepend([s[0]], DecodeURI(s[1..]))
    else
      match DecodeEscape(s)
      case None => Err(URIError)
      case Some((piece, n)) => Prepend(piece, DecodeURI(s[n..]))
  }

  // ---------------------------------------------------------------------------
  // Properties

  /** Text without '%' is its own decoding. */
  lemma {:induction false} DecodeWithoutPercent(s: string)
    requires '%' !in s
    ensures DecodeURI(s) == Ok(s)
  {
    if s != [] {
      assert '%' !in s[1..];
      DecodeWithoutPercent(s[1..]);
      assert [s[0]] + s[1..] == s;
    }
  }

  /** Text made of unescaped characters only is its own encoding. */
  lemma {:induction false} EncodeUnescaped(s: string)
    requires forall k :: 0 <= k < |s| ==> IsUnescaped(s[k])
    ensures EncodeURI(s) == s
  {
    if s != [] {
      EncodeUnescaped(s[1..]);
      assert [s[0]] + s[1..] == s;
    }
  }

  /** encodeURI works character by character, so it distributes over concatenation. */
  lemma {:induction false} EncodeConcat(a: string, b: string)
    ensures EncodeURI(a + b) == EncodeURI(a) + EncodeURI(b)
  {
    if a != [] {
      assert (a + b)[1..] == a[1..] + b;
      EncodeConcat(a[1..], b);
    } else {
      assert a + b == b;
    }
  }

  lemma HexRoundTrip(d: int)
    requires 0 <= d < 16
    ensures HexValue(HexDigit(d)) == Some(d)
  {
  }

  lemma EscapedByteShift(x: string, u: string, k: nat)
    ensures EscapedByte(x + u, |x| + k) == EscapedByte(u, k)
  {
    if k + 2 < |u| {
      assert (x + u)[|x| + k] == u[k];
      assert (x + u)[|x| + k + 1] == u[k + 1];
      assert (x + u)[|x| + k + 2] == u[k + 2];
    }
  }

  /** The j-th escape of an escaped byte sequence reads back as the j-th byte. */
  lemma {:induction false} EscapedByteAt(bytes: seq<Byte>, t: string, j: nat)
    requires j < |bytes|
    ensures EscapedByte(Escape(bytes) + t, 3 * j) == Some(bytes[j])
  {
    var head := ['%', HexDigit(bytes[0] / 16), HexDigit(bytes[0] % 16)];
    assert Escape(bytes) + t == head + (Escape(bytes[1..]) + t);
    if j == 0 {
      HexRoundTrip(bytes[0] / 16);
      HexRoundTrip(bytes[0] % 16);
    } else {
      EscapedByteShift(head, Escape(bytes[1..]) + t, 3 * (j - 1));
      EscapedByteAt(bytes[1..], t, j - 1);
    }
  }

  lemma ContinuationAt(bytes: seq<Byte>, t: string, j: nat)
    requires j < |bytes| && 0x80 <= bytes[j] < 0xC0
    ensures Continuation(Escape(bytes) + t, 3 * j) == Some(bytes[j] - 0x80)
  {
    EscapedByteAt(bytes, t, j);
  }

  lemma Split2(v: int)
    requires 0x80 <= v < 0x800
    ensures 2 <= v / 64 < 32 && (v / 64) * 64 + v % 64 == v
  {
  }

  lemma Split3(v: int)
    requires 0x800 <= v < 0x10000
    ensures 0 <= v / 4096 < 16
    ensures (v / 4096) * 4096 + ((v / 64) % 64) * 64 + v % 64 == v
  {
    var q := v / 64;
    assert v == q * 64 + v % 64;
    assert q == (q / 64) * 64 + q % 64;
    assert v / 4096 == q / 64;
  }

  lemma Split4(v: int)
    requires 0x10000 <= v < 0x110000
    ensures 0 <= v / 262144 < 5
    ensures (v / 262144) * 262144 + ((v / 4096) % 64) * 4096 + ((v / 64) % 64) * 64 + v % 64 == v
  {
    var q := v / 64;
    var q2 := q / 64;
    assert v == q * 64 + v % 64;
    assert q == q2 * 64 + q % 64;
    assert q2 == (q2 / 64) * 64 + q2 % 64;
    assert v / 4096 == q2;
    assert v / 262144 == q2 / 64;
  }

  lemma DecodeEscapedAscii(c: char, t: string)
    requires !IsUnescaped(c) && c as int < 0x80
    ensures DecodeEscape(Escape(Utf8(c)) + t) == Some(([c], 3))
  {
    EscapedByteAt(Utf8(c), t, 0);
    assert (c as int) as char == c;
  }

  lemma DecodeEscapedTwo(c: char, t: string)
    requires 0x80 <= c as int < 0x800
    ensures DecodeEscape(Escape(Utf8(c)) + t) == Some(([c], 6))
  {
    var v := c as int;
    Split2(v);
    EscapedByteAt(Utf8(c), t, 0);
    ContinuationAt(Utf8(c), t, 1);
  }

  lemma DecodeEscapedThree(c: char, t: string)
    requires 0x800 <= c as int < 0x10000
    ensures DecodeEscape(Escape(Utf8(c)) + t) == Some(([c], 9))
  {
    var v := c as int;
    Split3(v);
    EscapedByteAt(Utf8(c), t, 0);
    ContinuationAt(Utf8(c), t, 1);
    ContinuationAt(Utf8(c), t, 2);
  }

  lemma DecodeEscapedFour(c: char, t: string)
    requires 0x10000 <= c as int
    ensures DecodeEscape(Escape(Utf8(c)) + t) == Some(([c], 12))
  {
    var v := c as int;
    Split4(v);
    EscapedByteAt(Utf8(c), t, 0);
    ContinuationAt(Utf8(c), t, 1);
    ContinuationAt(Utf8(c), t, 2);
    ContinuationAt(Utf8(c), t, 3);
  }

  /** The escapes of a character's UTF-8 bytes decode to that character and nothing more. */
  lemma DecodeEscapedChar(c: char, t: string)
    requires !IsUnescaped(c)
    ensures DecodeEscape(Escape(Utf8(c)) + t) == Some(([c], 3 * |Utf8(c)|))
  {
    var v := c as int;
    if v < 0x80 {
      DecodeEscapedAscii(c, t);
    } else if v < 0x800 {
      DecodeEscapedTwo(c, t);
    } else if v < 0x10000 {
      DecodeEscapedThree(c, t);
    } else {
      DecodeEscapedFour(c, t);
    }
  }

  /** Decoding the encoding of one character consumes exactly that encoding. */
  lemma DecodeEncodedChar(c: char, t: string)
    ensures DecodeURI(EncodeChar(c) + t) == Prepend([c], DecodeURI(t))
  {
    var s := EncodeChar(c) + t;
    if IsUnescaped(c) {
      assert s[1..] == t;
    } else {
      DecodeEscapedChar(c, t);
      assert s[3 * |Utf8(c)|..] == t;
    }
  }

  /** decodeURI undoes encodeURI: encoding never produces an escape of a reserved character, so
      nothing is left undecoded. */
  lemma {:induction false} DecodeEncode(s: string)
    ensures DecodeURI(EncodeURI(s)) == Ok(s)
  {
    if s != [] {
      DecodeEncodedChar(s[0], EncodeURI(s[1..]));
      DecodeEncode(s[1..]);
      assert [s[0]] + s[1..] == s;
    }
  }

  /** encodeURI is not idempotent: a '%' is escaped again on every pass. */
  lemma EncodeNotIdempotent()
    ensures EncodeURI("%") == "%25"
    ensures EncodeURI(EncodeURI("%")) == "%2525"
  {
    assert !IsUnescaped('%') && Utf8('%') == [37];
    assert Escape([37]) == ['%', HexDigit(2), HexDigit(5)] + Escape([]);
    assert HexDigit(2) == '2' && HexDigit(5) == '5';
    assert EncodeChar('%') == "%25";
    assert EncodeURI("%") == EncodeChar('%') + EncodeURI("");
    EncodeUnescaped("25");
    EncodeConcat("%", "25");
  }
}

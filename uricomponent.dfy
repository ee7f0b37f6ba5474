/**
 * `encodeURIComponent` and `decodeURIComponent` of ECMAScript: every
 * character outside the unreserved set `A-Z a-z 0-9 - _ . ! ~ * ' ( )` is
 * written as the percent-escapes (section 2.1 of RFC 3986, upper-case hex)
 * of its UTF-8 bytes; decoding reverses this and fails (a `URIError`) on a
 * malformed escape or an invalid UTF-8 sequence.
 */
module UriComponent {
  import opened Wrappers
  import opened Http

  predicate Unreserved(c: char) {
    || 'A' <= c <= 'Z' || 'a' <= c <= 'z' || '0' <= c <= '9'
    || c == '-' || c == '_' || c == '.' || c == '!' || c == '~'
    || c == '*' || c == '\'' || c == '(' || c == ')'
  }

  /** An upper-case hex digit, as `encodeURIComponent` writes them. */
  predicate UpperHex(c: char) {
    '0' <= c <= '9' || 'A' <= c <= 'F'
  }

  function HexDigit(n: int): (c: char)
    requires 0 <= n < 16
    ensures UpperHex(c)
  {
    if n < 10 then ('0' as int + n) as char else ('A' as int + n - 10) as char
  }

  predicate IsHex(c: char) {
    '0' <= c <= '9' || 'A' <= c <= 'F' || 'a' <= c <= 'f'
  }

  function HexValue(c: char): (n: int)
    requires IsHex(c)
    ensures 0 <= n < 16
  {
    if '0' <= c <= '9' then c as int - '0' as int
    else if 'A' <= c <= 'F' then c as int - 'A' as int + 10
    else c as int - 'a' as int + 10
  }

  /** Every character of the encoding is unreserved or `%`: safe as a store key. */
  predicate KeySafe(s: string) {
    forall k | 0 <= k < |s| :: Unreserved(s[k]) || s[k] == '%'
  }

  /** Every `%` starts an escape: two upper-case hex digits follow it. */
  predicate WellEscaped(s: string) {
    forall k | 0 <= k < |s| && s[k] == '%' :: k + 2 < |s| && UpperHex(s[k + 1]) && UpperHex(s[k + 2])
  }

  lemma WellEscapedAppend(a: string, b: string)
    requires WellEscaped(a) && WellEscaped(b)
    ensures WellEscaped(a + b)
  {
    forall k | 0 <= k < |a + b| && (a + b)[k] == '%'
      ensures k + 2 < |a + b| && UpperHex((a + b)[k + 1]) && UpperHex((a + b)[k + 2])
    {
      if k < |a| {
        assert a[k] == '%';
      } else {
        assert b[k - |a|] == '%';
      }
    }
  }

  /** `%XY`, the escape of one byte. */
  function Escape(b: Byte): string {
    ['%', HexDigit(b / 16), HexDigit(b % 16)]
  }

  function Escapes(bs: seq<Byte>): (r: string)
    ensures |r| == 3 * |bs| && KeySafe(r)
  {
    if bs == [] then [] else Escape(bs[0]) + Escapes(bs[1..])
  }

  lemma {:induction false} EscapesWellEscaped(bs: seq<Byte>)
    ensures WellEscaped(Escapes(bs))
  {
    if bs != [] {
      EscapesWellEscaped(bs[1..]);
      WellEscapedAppend(Escape(bs[0]), Escapes(bs[1..]));
    }
  }

  /** The UTF-8 encoding of one Unicode scalar value. */
  function Utf8(c: char): (bs: seq<Byte>)
    ensures 1 <= |bs| <= 4
  {
    var cp := c as int;
    if cp < 0x80 then [cp]
    else if cp < 0x800 then [0xC0 + cp / 64, 0x80 + cp % 64]
    else if cp < 0x10000 then [0xE0 + cp / 4096, 0x80 + (cp / 64) % 64, 0x80 + cp % 64]
    else [0xF0 + cp / 0x40000, 0x80 + (cp / 4096) % 64, 0x80 + (cp / 64) % 64, 0x80 + cp % 64]
  }

  function EncodeChar(c: char): (r: string)
    ensures r != [] && KeySafe(r)
  {
    if Unreserved(c) then [c] else Escapes(Utf8(c))
  }

  /** `encodeURIComponent(s)`. */
  function Encode(s: string): (r: string)
    ensures KeySafe(r)
  {
    if s == [] then [] else EncodeChar(s[0]) + Encode(s[1..])
  }

  /** The encoding writes every `%` as the start of an escape of two upper-case hex digits. */
  lemma {:induction false} EncodeWellEscaped(s: string)
    ensures WellEscaped(Encode(s))
  {
    if s != [] {
      var c := s[0];
      if Unreserved(c) {
        assert WellEscaped([c]);
      } else {
        EscapesWellEscaped(Utf8(c));
      }
      EncodeWellEscaped(s[1..]);
      WellEscapedAppend(EncodeChar(c), Encode(s[1..]));
    }
  }

  /** The byte written as `%XY` at position `i`, if there is one. */
  function ByteAt(s: string, i: nat): Option<Byte> {
    if i + 3 <= |s| && s[i] == '%' && IsHex(s[i + 1]) && IsHex(s[i + 2])
    then Some(16 * HexValue(s[i + 1]) + HexValue(s[i + 2]))
    else None
  }

  /** The low six bits of the continuation byte escaped at position `3 * j`. */
  function Continuation(s: string, j: nat): Option<int> {
    match ByteAt(s, 3 * j)
    case Some(b) => if 0x80 <= b < 0xC0 then Some(b - 0x80) else None
    case None => None
  }

  /**
   * One escaped character at the start of `s`: the decoded character and the
   * number of input characters it used, or absent when the escapes are
   * malformed or do not spell a valid UTF-8 sequence.
   */
  function DecodeEscape(s: string): (r: Option<(char, nat)>)
    ensures r.Some? ==> 3 <= r.value.1 <= |s|
  {
    match ByteAt(s, 0)
    case None => None
    case Some(b0) =>
      if b0 < 0x80 then Some((b0 as char, 3))
      else if b0 < 0xC0 then None
      else if b0 < 0xE0 then
        match Continuation(s, 1)
        case Some(x1) =>
          var cp := (b0 - 0xC0) * 64 + x1;
          if cp < 0x80 then None else Some((cp as char, 6))
        case None => None
      else if b0 < 0xF0 then
        match (Continuation(s, 1), Continuation(s, 2))
        case (Some(x1), Some(x2)) =>
          var cp := (b0 - 0xE0) * 4096 + x1 * 64 + x2;
          if cp < 0x800 || (0xD800 <= cp < 0xE000) then None else Some((cp as char, 9))
        case _ => None
      else if b0 < 0xF8 then
        match (Continuation(s, 1), Continuation(s, 2), Continuation(s, 3))
        case (Some(x1), Some(x2), Some(x3)) =>
          var cp := (b0 - 0xF0) * 0x40000 + x1 * 4096 + x2 * 64 + x3;
          if cp < 0x10000 || cp >= 0x110000 then None else Some((cp as char, 12))
        case _ => None
      else None
  }

  function Prepend(c: char, r: Option<string>): Option<string> {
    match r
    case Some(t) => Some([c] + t)
    case None => None
  }

  /**
   * `decodeURIComponent(s)`; absent stands for the `URIError` it throws. A
   * string without `%` decodes to itself, and decoding never lengthens.
   */
  function Decode(s: string): (r: Option<string>)
    ensures '%' !in s ==> r == Some(s)
    ensures r.Some? ==> |r.value| <= |s|
    decreases |s|
  {
    if s == [] then Some([])
    else if s[0] != '%' then
      assert s == [s[0]] + s[1..];
      Prepend(s[0], Decode(s[1..]))
    else
      match DecodeEscape(s)
      case None => None
      case Some((c, n)) => Prepend(c, Decode(s[n..]))
  }

  // ---- round trip ----

  lemma HexRoundTrip(b: Byte)
    ensures IsHex(HexDigit(b / 16)) && IsHex(HexDigit(b % 16))
    ensures 16 * HexValue(HexDigit(b / 16)) + HexValue(HexDigit(b % 16)) == b
  {
  }

  /** The escape of byte `j` stands at positions `3 * j` to `3 * j + 3` of the escapes. */
  lemma {:induction false} EscapesSlice(bs: seq<Byte>, j: nat)
    requires j < |bs|
    ensures 3 * j + 3 <= |Escapes(bs)| && Escapes(bs)[3 * j..3 * j + 3] == Escape(bs[j])
  {
    var e, tail := Escapes(bs), Escapes(bs[1..]);
    assert e == Escape(bs[0]) + tail;
    if j > 0 {
      EscapesSlice(bs[1..], j - 1);
      assert e[3 * j..3 * j + 3] == tail[3 * (j - 1)..3 * (j - 1) + 3];
    }
  }

  /** `%XY` at position `i` is read back as the byte it escapes. */
  lemma ByteAtEscape(s: string, i: nat, b: Byte)
    requires i + 3 <= |s| && s[i..i + 3] == Escape(b)
    ensures ByteAt(s, i) == Some(b)
  {
    assert s[i] == '%' && s[i + 1] == HexDigit(b / 16) && s[i + 2] == HexDigit(b % 16) by {
      assert s[i..i + 3][0] == s[i] && s[i..i + 3][1] == s[i + 1] && s[i..i + 3][2] == s[i + 2];
    }
    HexRoundTrip(b);
  }

  /** The escape of byte `j` is read back at position `3 * j` of the escapes, whatever follows them. */
  lemma ByteAtEscapes(bs: seq<Byte>, rest: string, j: nat)
    requires j < |bs|
    ensures ByteAt(Escapes(bs) + rest, 3 * j) == Some(bs[j])
  {
    var e, i := Escapes(bs), 3 * j;
    EscapesSlice(bs, j);
    assert (e + rest)[i..i + 3] == e[i..i + 3];
    ByteAtEscape(e + rest, i, bs[j]);
  }

  lemma DivMod64(x: nat)
    ensures x == 64 * (x / 64) + x % 64
    ensures x / 64 / 64 == x / 4096 && x / 4096 / 64 == x / 0x40000
  {
  }

  /** Decoding the escapes of a character that must be escaped gives it back. */
  lemma DecodeEscapeOfChar(c: char, rest: string)
    requires !Unreserved(c)
    ensures DecodeEscape(EncodeChar(c) + rest) == Some((c, |EncodeChar(c)|))
  {
    var cp := c as int;
    if cp < 0x80 {
      DecodeOneByte(c, rest);
    } else if cp < 0x800 {
      DecodeTwoBytes(c, rest);
    } else if cp < 0x10000 {
      DecodeThreeBytes(c, rest);
    } else {
      DecodeFourBytes(c, rest);
    }
  }

  lemma DecodeOneByte(c: char, rest: string)
    requires !Unreserved(c) && c as int < 0x80
    ensures DecodeEscape(EncodeChar(c) + rest) == Some((c, 3))
  {
    ByteAtEscapes(Utf8(c), rest, 0);
  }

  /** A continuation byte escaped at position `3 * j` gives its low six bits. */
  lemma ContinuationOfEscapes(bs: seq<Byte>, rest: string, j: nat)
    requires j < |bs| && 0x80 <= bs[j] < 0xC0
    ensures Continuation(Escapes(bs) + rest, j) == Some(bs[j] - 0x80)
  {
    ByteAtEscapes(bs, rest, j);
  }

  /** The two UTF-8 bytes of a code point in 0x80..0x7FF: a lead byte, a continuation, and their bits give it back. */
  lemma Utf8Two(c: char)
    requires 0x80 <= c as int < 0x800
    ensures var bs := Utf8(c);
      && |bs| == 2 && 0xC0 <= bs[0] < 0xE0 && 0x80 <= bs[1] < 0xC0
      && (bs[0] as int - 0xC0) * 64 + (bs[1] as int - 0x80) == c as int
  {
    DivMod64(c as int);
  }

  /** The three UTF-8 bytes of a code point in 0x800..0xFFFF. */
  lemma Utf8Three(c: char)
    requires 0x800 <= c as int < 0x10000
    ensures var bs := Utf8(c);
      && |bs| == 3 && 0xE0 <= bs[0] < 0xF0 && 0x80 <= bs[1] < 0xC0 && 0x80 <= bs[2] < 0xC0
      && (bs[0] as int - 0xE0) * 4096 + (bs[1] as int - 0x80) * 64 + (bs[2] as int - 0x80) == c as int
  {
    var cp := c as int;
    DivMod64(cp);
    DivMod64(cp / 64);
  }

  /** The four UTF-8 bytes of a code point from 0x10000 on. */
  lemma Utf8Four(c: char)
    requires 0x10000 <= c as int
    ensures var bs := Utf8(c);
      && |bs| == 4 && 0xF0 <= bs[0] < 0xF8
      && 0x80 <= bs[1] < 0xC0 && 0x80 <= bs[2] < 0xC0 && 0x80 <= bs[3] < 0xC0
      && (bs[0] as int - 0xF0) * 0x40000 + (bs[1] as int - 0x80) * 4096 + (bs[2] as int - 0x80) * 64 + (bs[3] as int - 0x80) == c as int
  {
    var cp := c as int;
    DivMod64(cp);
    DivMod64(cp / 64);
    DivMod64(cp / 4096);
  }

  lemma DecodeTwoBytes(c: char, rest: string)
    requires 0x80 <= c as int < 0x800
    ensures DecodeEscape(EncodeChar(c) + rest) == Some((c, 6))
  {
    var bs := Utf8(c);
    Utf8Two(c);
    ByteAtEscapes(bs, rest, 0);
    ContinuationOfEscapes(bs, rest, 1);
  }

  lemma DecodeThreeBytes(c: char, rest: string)
    requires 0x800 <= c as int < 0x10000
    ensures DecodeEscape(EncodeChar(c) + rest) == Some((c, 9))
  {
    var bs := Utf8(c);
    Utf8Three(c);
    ByteAtEscapes(bs, rest, 0);
    ContinuationOfEscapes(bs, rest, 1);
    ContinuationOfEscapes(bs, rest, 2);
  }

  lemma DecodeFourBytes(c: char, rest: string)
    requires 0x10000 <= c as int
    ensures DecodeEscape(EncodeChar(c) + rest) == Some((c, 12))
  {
    var bs := Utf8(c);
    Utf8Four(c);
    ByteAtEscapes(bs, rest, 0);
    ContinuationOfEscapes(bs, rest, 1);
    ContinuationOfEscapes(bs, rest, 2);
    ContinuationOfEscapes(bs, rest, 3);
  }

  lemma DecodeEncodeChar(c: char, rest: string)
    ensures Decode(EncodeChar(c) + rest) == Prepend(c, Decode(rest))
  {
    var s := EncodeChar(c) + rest;
    if Unreserved(c) {
      assert s[1..] == rest;
    } else {
      DecodeEscapeOfChar(c, rest);
      assert s[|EncodeChar(c)|..] == rest;
    }
  }

  /** `decodeURIComponent(encodeURIComponent(s)) == s`. */
  lemma {:induction false} DecodeEncode(s: string)
    ensures Decode(Encode(s)) == Some(s)
  {
    if s != [] {
      DecodeEncode(s[1..]);
      DecodeEncodeChar(s[0], Encode(s[1..]));
      assert [s[0]] + s[1..] == s;
    }
  }

  /** Distinct strings have distinct encodings. */
  lemma EncodeInjective(a: string, b: string)
    requires Encode(a) == Encode(b)
    ensures a == b
  {
    DecodeEncode(a);
    DecodeEncode(b);
  }
}

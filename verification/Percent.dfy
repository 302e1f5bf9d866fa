/** The percent-encoding of src/http_url.rs (section 2.1 of RFC 3986). */
module Percent {
  import opened Wrappers
  import opened Text
  import opened Utf8

  /** The characters the URL machine leaves as they are. */
  predicate IsSafe(c: char) {
    ('0' <= c <= '9') || ('A' <= c <= 'Z') || ('a' <= c <= 'z') ||
    c == '-' || c == '.' || c == '_' || c == '~' || c == '&' || c == '#' || c == '=' || c == '/' || c == '?'
  }

  ghost predicate AllSafe(s: string) {
    forall c | c in s :: IsSafe(c)
  }

  /** to_hex_digit; its callers pass less than 16. */
  function ToHexDigit(digit: nat): char
    requires digit < 16
  {
    if digit < 10 then '0' + digit as char else 'A' + (digit - 10) as char
  }

  function Escape(b: Byte): string {
    ['%', ToHexDigit(b / 16), ToHexDigit(b % 16)]
  }

  function EscapeAll(bytes: seq<Byte>): string {
    if bytes == [] then "" else Escape(bytes[0]) + EscapeAll(bytes[1..])
  }

  /** What one character of a path, query or fragment becomes. */
  function EncodeOne(c: char): string {
    if IsSafe(c) then [c] else EscapeAll(EncodeChar(c))
  }

  function PercentEncode(s: string): string {
    if s == "" then "" else EncodeOne(s[0]) + PercentEncode(s[1..])
  }

  /** Percent-decoding: an escape is its byte, everything else its own encoding. */
  function PercentDecode(s: string): seq<Byte> {
    if s == "" then []
    else if s[0] == '%' && |s| >= 3 && Digit(s[1], 16).Some? && Digit(s[2], 16).Some? then
      [Digit(s[1], 16).value * 16 + Digit(s[2], 16).value] + PercentDecode(s[3..])
    else EncodeChar(s[0]) + PercentDecode(s[1..])
  }

  lemma HexDigitDenotes(digit: nat)
    requires digit < 16
    ensures Digit(ToHexDigit(digit), 16) == Some(digit)
  {
  }

  lemma DecodeEscape(b: Byte, tail: string)
    ensures PercentDecode(Escape(b) + tail) == [b] + PercentDecode(tail)
  {
    hide Digit, ToHexDigit;
    HexDigitDenotes(b / 16);
    HexDigitDenotes(b % 16);
    assert (Escape(b) + tail)[3..] == tail;
  }

  lemma {:induction false} DecodeEscapes(bytes: seq<Byte>, tail: string)
    ensures PercentDecode(EscapeAll(bytes) + tail) == bytes + PercentDecode(tail)
  {
    hide PercentDecode, Escape;
    if bytes == [] {
      assert EscapeAll(bytes) + tail == tail;
    } else {
      DecodeEscape(bytes[0], EscapeAll(bytes[1..]) + tail);
      DecodeEscapes(bytes[1..], tail);
      assert EscapeAll(bytes) + tail == Escape(bytes[0]) + (EscapeAll(bytes[1..]) + tail);
    }
  }

  lemma {:induction false} PercentEncodeAppend(a: string, b: string)
    ensures PercentEncode(a + b) == PercentEncode(a) + PercentEncode(b)
  {
    if a == "" {
      assert a + b == b;
    } else {
      assert (a + b)[1..] == a[1..] + b;
      PercentEncodeAppend(a[1..], b);
    }
  }

  lemma PercentEncodePush(s: string, c: char)
    ensures PercentEncode(s + [c]) == PercentEncode(s) + EncodeOne(c)
  {
    PercentEncodeAppend(s, [c]);
    assert PercentEncode([c]) == EncodeOne(c) + PercentEncode("");
  }

  /** Decoding gives back the UTF-8 bytes of the original. */
  lemma {:induction false} DecodeInvertsEncode(s: string)
    ensures PercentDecode(PercentEncode(s)) == Encode(s)
  {
    if s != "" {
      var c, tail := s[0], PercentEncode(s[1..]);
      DecodeInvertsEncode(s[1..]);
      if IsSafe(c) {
        assert (EncodeOne(c) + tail)[1..] == tail;
        assert EncodeChar(c) == [c as int];
      } else {
        DecodeEscapes(EncodeChar(c), tail);
      }
    }
  }

  /** So no two strings share an encoding. */
  lemma EncodingIsInjective(s: string, t: string)
    requires PercentEncode(s) == PercentEncode(t)
    ensures s == t
  {
    DecodeInvertsEncode(s);
    DecodeInvertsEncode(t);
    DecodeEncode(s);
    DecodeEncode(t);
  }

  predicate IsUrlChar(c: char) {
    IsSafe(c) || c == '%'
  }

  lemma {:induction false} EscapesAreUrlChars(bytes: seq<Byte>)
    ensures forall c | c in EscapeAll(bytes) :: IsUrlChar(c) && c != '#'
  {
    if bytes != [] {
      EscapesAreUrlChars(bytes[1..]);
    }
  }

  /** The output alphabet: safe characters and the percent sign, and a hash only for a hash. */
  lemma {:induction false} EncodedAlphabet(s: string)
    ensures forall c | c in PercentEncode(s) :: IsUrlChar(c)
    ensures '#' in PercentEncode(s) <==> '#' in s
  {
    if s != "" {
      EncodedAlphabet(s[1..]);
      EscapesAreUrlChars(EncodeChar(s[0]));
      assert s == [s[0]] + s[1..];
    }
  }

  lemma {:induction false} EncodedLength(s: string)
    ensures |PercentEncode(s)| >= |s|
    ensures |PercentEncode(s)| == |s| ==> AllSafe(s)
  {
    if s != "" {
      EncodedLength(s[1..]);
      assert s == [s[0]] + s[1..];
      assert |EscapeAll(EncodeChar(s[0]))| >= 3 by {
        assert EncodeChar(s[0]) != [];
      }
    }
  }

  /** Encoding leaves exactly the safe strings alone; a second encoding escapes the percent signs again. */
  lemma {:induction false} EncodeIsIdentityIff(s: string)
    ensures PercentEncode(s) == s <==> AllSafe(s)
  {
    EncodedLength(s);
    if AllSafe(s) && s != "" {
      assert s[0] in s && forall c | c in s[1..] :: c in s;
      EncodeIsIdentityIff(s[1..]);
      assert s == [s[0]] + s[1..];
    }
  }

  /** Which characters are left alone. */
  lemma SafeCharacters(c: char)
    ensures PercentEncode([c]) == [c] <==>
            ('0' <= c <= '9') || ('A' <= c <= 'Z') || ('a' <= c <= 'z') ||
            c in {'-', '.', '_', '~', '&', '#', '=', '/', '?'}
  {
    EncodeIsIdentityIff([c]);
    assert c in [c];
    hide PercentEncode;
  }

  /** All others are escaped byte by byte, with capital digits only. */
  lemma {:induction false} EscapesAreCapital(bytes: seq<Byte>)
    ensures |EscapeAll(bytes)| == 3 * |bytes|
    ensures forall c | c in EscapeAll(bytes) :: c == '%' || '0' <= c <= '9' || 'A' <= c <= 'F'
  {
    if bytes != [] {
      EscapesAreCapital(bytes[1..]);
    }
  }

  lemma CapitalHexDigit(digit: nat)
    requires digit < 16
    ensures ToHexDigit(digit) == "0123456789ABCDEF"[digit]
  {
  }

  /** One ASCII character that is escaped, digit by digit. */
  lemma EscapedAscii(c: char)
    requires c as int < 128 && PercentEncode([c]) != [c]
    ensures PercentEncode([c]) == ['%', "0123456789ABCDEF"[c as int / 16], "0123456789ABCDEF"[c as int % 16]]
  {
    hide ToHexDigit;
    CapitalHexDigit(c as int / 16);
    CapitalHexDigit(c as int % 16);
    EscapedOne(c, [c as int]);
    assert EscapeAll([c as int]) == Escape(c as int) + EscapeAll([]);
  }

  /** So for an accented letter and for a blank. */
  lemma EscapedExamples()
    ensures PercentEncode("\U{E9}") == "%C3%A9" && PercentEncode(" ") == "%20"
  {
    hide PercentEncode;
    EscapedOne('\U{E9}', [0xC3, 0xA9]);
    EscapedOne(' ', [0x20]);
    assert EscapeAll([0xC3, 0xA9]) == Escape(0xC3) + (Escape(0xA9) + EscapeAll([]));
    assert EscapeAll([0x20]) == Escape(0x20) + EscapeAll([]);
  }

  lemma EscapedOne(c: char, bytes: seq<Byte>)
    requires EncodeChar(c) == bytes
    ensures PercentEncode([c]) == if IsSafe(c) then [c] else EscapeAll(bytes)
  {
    assert [c][1..] == "" && PercentEncode("") == "";
  }
}

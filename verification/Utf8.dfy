/** UTF-8 (RFC 3629): how a Rust String is laid out in bytes, and String::from_utf8. */
module Utf8 {
  import opened Wrappers

  type Byte = b: int | 0 <= b < 256

  /** The encoding of one Unicode scalar value. */
  function EncodeChar(c: char): (r: seq<Byte>)
    ensures 1 <= |r| <= 4
  {
    var n := c as int;
    if n < 0x80 then [n]
    else if n < 0x800 then [0xC0 + n / 64, 0x80 + n % 64]
    else if n < 0x10000 then [0xE0 + n / 64 / 64, 0x80 + n / 64 % 64, 0x80 + n % 64]
    else [0xF0 + n / 64 / 64 / 64, 0x80 + n / 64 / 64 % 64, 0x80 + n / 64 % 64, 0x80 + n % 64]
  }

  function Encode(s: string): seq<Byte> {
    if s == "" then [] else EncodeChar(s[0]) + Encode(s[1..])
  }

  predicate Continues(b: Byte) {
    0x80 <= b < 0xC0
  }

  /** Six more bits below a value, where b is a continuation byte. */
  function Shift(high: nat, b: Byte): (n: nat)
    requires Continues(b)
    ensures n / 64 == high && 0x80 + n % 64 == b
  {
    high * 64 + (b - 0x80)
  }

  /** The first scalar value of b; None where from_utf8 rejects (overlong forms and surrogates too). */
  function DecodeChar(b: seq<Byte>): (r: Option<char>)
    requires b != []
    ensures r.Some? ==> EncodeChar(r.value) <= b
  {
    var lead: int := b[0];
    if lead < 0x80 then Some(lead as char)
    else if 0xC2 <= lead < 0xE0 && |b| >= 2 && Continues(b[1]) then
      Some(Shift(lead - 0xC0, b[1]) as char)
    else if 0xE0 <= lead < 0xF0 && |b| >= 3 && Continues(b[1]) && Continues(b[2]) then
      var n := Shift(Shift(lead - 0xE0, b[1]), b[2]);
      if 0x800 <= n < 0xD800 || 0xE000 <= n then Some(n as char) else None
    else if 0xF0 <= lead < 0xF5 && |b| >= 4 && Continues(b[1]) && Continues(b[2]) && Continues(b[3]) then
      var n := Shift(Shift(Shift(lead - 0xF0, b[1]), b[2]), b[3]);
      if 0x10000 <= n < 0x110000 then Some(n as char) else None
    else None
  }

  /** String::from_utf8: a decoded string re-encodes to exactly the bytes it came from. */
  function Decode(b: seq<Byte>): (r: Option<string>)
    ensures r.Some? ==> Encode(r.value) == b
    decreases |b|
  {
    if b == [] then Some("")
    else
      var c := DecodeChar(b);
      if c.None? then None
      else
        var n := |EncodeChar(c.value)|;
        var rest := Decode(b[n..]);
        if rest.None? then None
        else
          assert b == EncodeChar(c.value) + b[n..];
          Some([c.value] + rest.value)
  }

  lemma DecodeCharOfEncode(c: char, tail: seq<Byte>)
    ensures DecodeChar(EncodeChar(c) + tail) == Some(c)
  {
    var n, e := c as int, EncodeChar(c);
    var b := e + tail;
    assert b[0] == e[0];
    if n < 0x80 {
    } else if n < 0x800 {
      assert b[1] == e[1];
    } else if n < 0x10000 {
      assert b[1] == e[1] && b[2] == e[2];
    } else {
      assert b[1] == e[1] && b[2] == e[2] && b[3] == e[3];
    }
  }

  lemma {:induction false} DecodeEncode(s: string)
    ensures Decode(Encode(s)) == Some(s)
  {
    if s != "" {
      DecodeCharOfEncode(s[0], Encode(s[1..]));
      assert (EncodeChar(s[0]) + Encode(s[1..]))[|EncodeChar(s[0])|..] == Encode(s[1..]);
      DecodeEncode(s[1..]);
      assert s == [s[0]] + s[1..];
    }
  }

  lemma {:induction false} EncodeAppend(a: string, b: string)
    ensures Encode(a + b) == Encode(a) + Encode(b)
  {
    if a == "" {
      assert a + b == b;
    } else {
      assert (a + b)[1..] == a[1..] + b;
      EncodeAppend(a[1..], b);
    }
  }

  /** An ASCII byte occurs in the encoding only as the encoding of its own character. */
  lemma {:induction false} AsciiByte(s: string, b: Byte)
    requires b < 0x80
    ensures b in Encode(s) <==> (b as char) in s
  {
    if s != "" {
      assert b in EncodeChar(s[0]) <==> s[0] == b as char;
      assert s == [s[0]] + s[1..];
      AsciiByte(s[1..], b);
    }
  }

  /** The six bits that a byte behind the first carries. */
  function Low(b: Byte): int {
    b as int - 0x80
  }

  /** The four forms (section 3 of RFC 3629): the lead byte tells the length, every other byte carries six bits. */
  lemma EncodeCharBits(c: char)
    ensures var n, b := c as int, EncodeChar(c);
            && (n <= 0x7F ==> b == [n])
            && (0x80 <= n <= 0x7FF ==> |b| == 2 && n == (b[0] as int - 0xC0) * 64 + Low(b[1]))
            && (0x800 <= n <= 0xFFFF ==> |b| == 3 && n == ((b[0] as int - 0xE0) * 64 + Low(b[1])) * 64 + Low(b[2]))
            && (0x10000 <= n ==>
                  |b| == 4 && n == (((b[0] as int - 0xF0) * 64 + Low(b[1])) * 64 + Low(b[2])) * 64 + Low(b[3]))
            && (forall i | 0 < i < |b| :: 0x80 <= b[i] <= 0xBF)
  {
  }

  /** An accented letter, a currency sign and a pictogram. */
  lemma EncodedExamples()
    ensures Encode("\U{E9}") == [0xC3, 0xA9] && Encode("\U{20AC}") == [0xE2, 0x82, 0xAC]
    ensures Encode("\U{1F600}") == [0xF0, 0x9F, 0x98, 0x80]
  {
    assert EncodeChar('\U{E9}') == [0xC3, 0xA9] && EncodeChar('\U{20AC}') == [0xE2, 0x82, 0xAC];
    assert EncodeChar('\U{1F600}') == [0xF0, 0x9F, 0x98, 0x80];
    assert "\U{E9}"[1..] == "" && "\U{20AC}"[1..] == "" && "\U{1F600}"[1..] == "";
    hide EncodeChar;
  }
}

/** The str methods of Rust that the client relies on: numbers, trimming and letter case. */
module Text {
  import opened Wrappers

  const U16_MAX: nat := 0xFFFF
  const U32_MAX: nat := 0xFFFF_FFFF
  const I32_MAX: nat := 0x7FFF_FFFF

  // ---------- Numbers ----------

  /** char::to_digit for the radixes 10 and 16. */
  function Digit(c: char, radix: nat): (r: Option<nat>)
    ensures r.Some? ==> r.value < radix
  {
    var d := if '0' <= c <= '9' then c as int - '0' as int
             else if 'a' <= c <= 'f' then c as int - 'a' as int + 10
             else if 'A' <= c <= 'F' then c as int - 'A' as int + 10
             else radix;
    if d < radix then Some(d) else None
  }

  predicate AllDigits(s: string, radix: nat) {
    forall c | c in s :: Digit(c, radix).Some?
  }

  /** The number a string of digits denotes, most significant digit first. */
  function Value(s: string, radix: nat): nat
    requires AllDigits(s, radix)
  {
    if s == "" then 0
    else Value(s[..|s| - 1], radix) * radix + Digit(s[|s| - 1], radix).value
  }

  function WithoutPlus(s: string): string {
    if s != "" && s[0] == '+' then s[1..] else s
  }

  /** from_str_radix and parse for the unsigned types: one optional plus sign, then digits, at most max. */
  function ParseUnsigned(s: string, radix: nat, max: nat): Option<nat> {
    var digits := WithoutPlus(s);
    if digits == "" || !AllDigits(digits, radix) || Value(digits, radix) > max then None
    else Some(Value(digits, radix))
  }

  /** str::parse::<i32>. */
  function ParseI32(s: string): Option<int> {
    if s != "" && s[0] == '-' then
      var digits := s[1..];
      if digits == "" || !AllDigits(digits, 10) || Value(digits, 10) > I32_MAX + 1 then None
      else Some(-(Value(digits, 10) as int))
    else
      var n := ParseUnsigned(s, 10, I32_MAX);
      if n.Some? then Some(n.value) else None
  }

  /** The decimal form that format! gives an unsigned number. */
  function Decimal(n: nat): (s: string)
    ensures s != ""
  {
    var last := ['0' + (n % 10) as char];
    if n < 10 then last else Decimal(n / 10) + last
  }

  /** Decimal digits only: no sign, colon, slash, blank or line break. */
  lemma {:induction false} DecimalValue(n: nat)
    ensures AllDigits(Decimal(n), 10) && Value(Decimal(n), 10) == n
    ensures forall c | c in Decimal(n) :: '0' <= c <= '9'
  {
    var last := ['0' + (n % 10) as char];
    assert Digit(last[0], 10) == Some(n % 10);
    if n < 10 {
      assert Decimal(n) == last && last[..0] == "";
    } else {
      DecimalValue(n / 10);
      var s := Decimal(n);
      assert s[..|s| - 1] == Decimal(n / 10);
    }
  }

  /** Without leading zeros, so every number has one decimal form only. */
  lemma {:induction false} DecimalIsShort(n: nat)
    ensures Decimal(n)[0] == '0' <==> n == 0
    ensures |Decimal(n)| == 1 <==> n < 10
  {
    if n >= 10 {
      DecimalIsShort(n / 10);
    }
  }

  /** Parsing inverts printing, for every number within the range of the type. */
  lemma ParseDecimal(n: nat, max: nat)
    requires n <= max
    ensures ParseUnsigned(Decimal(n), 10, max) == Some(n)
  {
    DecimalValue(n);
    assert Decimal(n)[0] in Decimal(n);
  }

  lemma DigitsExtend(s: string, c: char)
    requires AllDigits(s + [c], 10)
    ensures AllDigits(s, 10) && Digit(c, 10).Some?
    ensures Value(s + [c], 10) == Value(s, 10) * 10 + Digit(c, 10).value
  {
    assert forall d | d in s :: d in s + [c];
    assert c in s + [c];
    assert (s + [c])[..|s|] == s;
  }

  /** Digits written behind a number keep its value only if it is zero and they are all zeros. */
  lemma {:induction false} DigitsKeepValue(s: string, more: string)
    requires AllDigits(s + more, 10) && more != ""
    ensures AllDigits(s, 10)
    ensures Value(s + more, 10) >= Value(s, 10)
    ensures Value(s + more, 10) == Value(s, 10) <==> Value(s, 10) == 0 && forall c | c in more :: c == '0'
  {
    var init, c := more[..|more| - 1], more[|more| - 1];
    assert s + more == (s + init) + [c] && more == init + [c];
    DigitsExtend(s + init, c);
    assert (Digit(c, 10).value == 0 <==> c == '0') && c in more;
    if init == "" {
      assert s + init == s;
      assert forall d | d in more :: d == c;
    } else {
      DigitsKeepValue(s, init);
      assert forall d | d in more :: d == c || d in init;
      assert forall d | d in init :: d in more;
    }
  }

  // ---------- Trimming and letter case ----------

  /** Unicode White_Space, the characters str::trim removes. */
  predicate IsWhitespace(c: char) {
    var n := c as int;
    0x09 <= n <= 0x0D || n == 0x20 || n == 0x85 || n == 0xA0 || n == 0x1680 || 0x2000 <= n <= 0x200A ||
    n == 0x2028 || n == 0x2029 || n == 0x202F || n == 0x205F || n == 0x3000
  }

  function Trim(s: string): string {
    if s == "" then s
    else if IsWhitespace(s[0]) then Trim(s[1..])
    else if IsWhitespace(s[|s| - 1]) then Trim(s[..|s| - 1])
    else s
  }

  lemma TrimIsIdentity(s: string)
    requires forall c | c in s :: !IsWhitespace(c)
    ensures Trim(s) == s
  {
    if s != "" {
      assert s[0] in s && s[|s| - 1] in s;
    }
  }

  function AsciiLowerChar(c: char): char {
    if 'A' <= c <= 'Z' then c - 'A' + 'a' else c
  }

  /** str::make_ascii_lowercase. */
  function AsciiLower(s: string): (r: string)
    ensures |r| == |s| && forall i | 0 <= i < |s| :: r[i] == AsciiLowerChar(s[i])
  {
    seq(|s|, i requires 0 <= i < |s| => AsciiLowerChar(s[i]))
  }

  lemma AsciiLowerAppend(a: string, b: string)
    ensures AsciiLower(a + b) == AsciiLower(a) + AsciiLower(b)
  {
  }

  lemma AsciiLowerIsIdentity(s: string)
    requires forall c | c in s :: !('A' <= c <= 'Z')
    ensures AsciiLower(s) == s
  {
    assert forall i | 0 <= i < |s| :: s[i] in s;
  }

  /** A word with a capital. */
  lemma AsciiLowerWord(capital: char, rest: string)
    requires forall c | c in rest :: !('A' <= c <= 'Z')
    ensures AsciiLower([capital] + rest) == [AsciiLowerChar(capital)] + rest
  {
    AsciiLowerAppend([capital], rest);
    AsciiLowerIsIdentity(rest);
  }

  /**
   char::to_lowercase as far as an ASCII name can tell: besides the ASCII letters only the Kelvin sign
   and the dotted capital I lower to something containing an ASCII letter. Every other character lowers
   to non-ASCII characters (and white space to itself), here to itself.
   */
  function LowerChar(c: char): string {
    if c as int == 0x212A then "k"
    else if c as int == 0x130 then ['i', 0x307 as char]
    else [AsciiLowerChar(c)]
  }

  /** str::to_lowercase. */
  function ToLower(s: string): string {
    if s == "" then "" else LowerChar(s[0]) + ToLower(s[1..])
  }

  /** For a lower-case ASCII name without the letter k both lowerings decide equality alike. */
  lemma {:induction false} LoweringsAgree(s: string, name: string)
    requires forall c | c in name :: c as int < 128 && c != 'k' && !('A' <= c <= 'Z')
    ensures ToLower(s) == name <==> AsciiLower(s) == name
  {
    if s != "" && name != "" {
      assert name[0] in name && forall c | c in name[1..] :: c in name;
      LoweringsAgree(s[1..], name[1..]);
      assert AsciiLower(s) == [AsciiLowerChar(s[0])] + AsciiLower(s[1..]);
      assert name == [name[0]] + name[1..];
      if s[0] as int == 0x130 {
        assert ToLower(s)[1] in ToLower(s) && 0x307 as char !in name;
      } else {
        var c := LowerChar(s[0])[0];
        assert ToLower(s) == [c] + ToLower(s[1..]);
        assert c != name[0] ==> ToLower(s)[0] != name[0];
        assert ToLower(s)[1..] == ToLower(s[1..]) && AsciiLower(s)[1..] == AsciiLower(s[1..]);
      }
    } else if s != "" {
      assert |AsciiLower(s)| > 0 && |ToLower(s)| > 0;
    }
  }

  // ---------- What the functions above stand for ----------

  /** Which characters are digits, and what they are worth. */
  lemma DigitIs(c: char, d: nat)
    ensures Digit(c, 10) == Some(d) <==> d < 10 && c == "0123456789"[d]
    ensures Digit(c, 16) == Some(d) <==> d < 16 && (c == "0123456789abcdef"[d] || c == "0123456789ABCDEF"[d])
  {
  }

  /** Positional notation: a digit behind a number multiplies it by the radix. */
  lemma ValueOfMore(s: string, c: char, radix: nat)
    requires AllDigits(s, radix) && Digit(c, radix).Some?
    ensures AllDigits(s + [c], radix) && Value(s + [c], radix) == Value(s, radix) * radix + Digit(c, radix).value
    ensures Value("", radix) == 0
  {
    assert (s + [c])[..|s|] == s;
  }

  /** A string is an unsigned number exactly if it is digits within the range, or those behind a plus sign. */
  lemma ParseUnsignedIff(s: string, radix: nat, max: nat, n: nat)
    ensures ParseUnsigned(s, radix, max) == Some(n) <==> n <= max && IsNumber(s, radix, n)
  {
    hide Value;
    var digits := WithoutPlus(s);
    if ParseUnsigned(s, radix, max) == Some(n) {
      assert s == digits || s == "+" + digits;
      assert Denotes(digits, radix, n);
    }
    forall other: string | (s == other || s == "+" + other) && Denotes(other, radix, n) ensures other == digits {
      assert other[0] in other;
    }
  }

  /** One or more digits that stand for n. */
  ghost predicate Denotes(digits: string, radix: nat, n: nat) {
    digits != "" && AllDigits(digits, radix) && Value(digits, radix) == n
  }

  ghost predicate IsNumber(s: string, radix: nat, n: nat) {
    exists digits: string :: (s == digits || s == "+" + digits) && Denotes(digits, radix, n)
  }

  /** The same with a sign, within 32 bits. */
  lemma ParseI32Iff(s: string, n: int)
    ensures ParseI32(s) == Some(n) <==> IsPositiveI32(s, n) || IsNegativeI32(s, n)
  {
    if s != "" && s[0] == '-' {
      assert s == "-" + s[1..];
      MinusIsNoDigit(s, n);
    } else if 0 <= n {
      ParseUnsignedIff(s, 10, 2147483647, n);
    }
  }

  ghost predicate IsPositiveI32(s: string, n: int) {
    0 <= n <= 2147483647 && IsNumber(s, 10, n)
  }

  ghost predicate IsNegativeI32(s: string, n: int) {
    -2147483648 <= n <= 0 && exists digits: string :: s == "-" + digits && Denotes(digits, 10, -n)
  }

  lemma MinusIsNoDigit(s: string, n: int)
    requires s != "" && s[0] == '-'
    ensures !IsPositiveI32(s, n)
    ensures forall digits: string | s == "-" + digits :: digits == s[1..]
  {
    assert Digit('-', 10).None?;
    forall digits: string | s == digits || s == "+" + digits ensures !AllDigits(digits, 10) {
      assert s == digits ==> s[0] in digits;
    }
  }

  /** The ranges of the Rust types. */
  lemma Ranges()
    ensures U16_MAX == 65535 && U32_MAX == 4294967295 && I32_MAX == 2147483647 && USIZE_MAX == 18446744073709551615
  {
  }

  predicate AllWhitespace(s: string) {
    forall c | c in s :: IsWhitespace(c)
  }

  /** Trimming takes away exactly the white space at both ends. */
  lemma {:induction false} TrimTakesEnds(s: string) returns (front: string, back: string)
    ensures s == front + Trim(s) + back && AllWhitespace(front) && AllWhitespace(back)
    ensures Trim(s) != "" ==> !IsWhitespace(Trim(s)[0]) && !IsWhitespace(Trim(s)[|Trim(s)| - 1])
    decreases |s|
  {
    hide IsWhitespace;
    front, back := "", "";
    if s != "" && IsWhitespace(s[0]) {
      front, back := TrimTakesEnds(s[1..]);
      front := [s[0]] + front;
    } else if s != "" && IsWhitespace(s[|s| - 1]) {
      front, back := TrimTakesEnds(s[..|s| - 1]);
      back := back + [s[|s| - 1]];
      assert s == s[..|s| - 1] + [s[|s| - 1]];
    }
  }

  /** Conversely, what is left between two stretches of white space. */
  lemma {:induction false} TrimPadded(front: string, s: string, back: string)
    requires AllWhitespace(front) && AllWhitespace(back)
    requires s != "" && !IsWhitespace(s[0]) && !IsWhitespace(s[|s| - 1])
    ensures Trim(front + s + back) == s
    decreases |front| + |back|
  {
    hide IsWhitespace;
    var whole := front + s + back;
    if front != "" {
      assert whole[0] == front[0] && front[0] in front && whole[1..] == front[1..] + s + back;
      TrimPadded(front[1..], s, back);
    } else {
      assert whole == s + back && whole[0] == s[0];
      if back != "" {
        var init := back[..|back| - 1];
        assert back[|back| - 1] in back && whole[|whole| - 1] == back[|back| - 1];
        assert whole[..|whole| - 1] == front + s + init;
        TrimPadded(front, s, init);
      } else {
        assert whole == s;
      }
    }
  }

  /** The white space, one by one: tab to carriage return and the blank in ASCII, and nineteen more. */
  lemma WhitespaceListed(c: char)
    ensures IsWhitespace(c) <==>
            c as int in {9, 10, 11, 12, 13, 32, 133, 160, 5760, 8192, 8193, 8194, 8195, 8196, 8197, 8198, 8199, 8200,
                         8201, 8202, 8232, 8233, 8239, 8287, 12288}
  {
  }

  /** The two letters outside ASCII whose lower case has an ASCII letter in it. */
  lemma SpecialLetters()
    ensures ToLower("\U{212A}") == "k" && ToLower("\U{130}") == "i\U{307}"
  {
    assert "\U{212A}"[1..] == "" && "\U{130}"[1..] == "";
  }

  /** The two lowerings, letter by letter. */
  lemma LettersLower(i: nat)
    requires i < 26
    ensures AsciiLower(["ABCDEFGHIJKLMNOPQRSTUVWXYZ"[i]]) == ["abcdefghijklmnopqrstuvwxyz"[i]]
    ensures ToLower(["ABCDEFGHIJKLMNOPQRSTUVWXYZ"[i]]) == ["abcdefghijklmnopqrstuvwxyz"[i]]
  {
    LetterAt(i);
    var s := ["ABCDEFGHIJKLMNOPQRSTUVWXYZ"[i]];
    assert s[1..] == "";
  }

  lemma LetterAt(i: nat)
    requires i < 26
    ensures "ABCDEFGHIJKLMNOPQRSTUVWXYZ"[i] == 'A' + i as char && "abcdefghijklmnopqrstuvwxyz"[i] == 'a' + i as char
  {
  }

  /** A number with or without a plus sign, between white space. */
  ghost predicate IsPaddedNumber(s: string, radix: nat, n: nat) {
    exists front: string, digits: string, sign: string, back: string ::
      && s == front + (sign + digits) + back && AllWhitespace(front) && AllWhitespace(back)
      && (sign == "" || sign == "+") && Denotes(digits, radix, n)
  }

  /** What is read of a trimmed text: exactly the numbers within the range, in white space. */
  lemma TrimmedNumberIff(s: string, radix: nat, max: nat, n: nat)
    ensures ParseUnsigned(Trim(s), radix, max) == Some(n) <==> n <= max && IsPaddedNumber(s, radix, n)
  {
    hide Trim, ParseUnsigned, Denotes;
    if ParseUnsigned(Trim(s), radix, max) == Some(n) {
      var front, back := TrimTakesEnds(s);
      ParseUnsignedIff(Trim(s), radix, max, n);
      var digits: string :| (Trim(s) == digits || Trim(s) == "+" + digits) && Denotes(digits, radix, n);
      var sign := if Trim(s) == digits then "" else "+";
      assert "" + digits == digits;
      assert s == front + (sign + digits) + back;
    }
    if n <= max && IsPaddedNumber(s, radix, n) {
      var front, digits, sign, back :|
        s == front + (sign + digits) + back && AllWhitespace(front) && AllWhitespace(back) &&
        (sign == "" || sign == "+") && Denotes(digits, radix, n);
      NumberHasNoBlank(sign, digits, radix, n);
      TrimPadded(front, sign + digits, back);
      assert "" + digits == digits;
      ParseUnsignedIff(Trim(s), radix, max, n);
    }
  }

  lemma NumberHasNoBlank(sign: string, digits: string, radix: nat, n: nat)
    requires (sign == "" || sign == "+") && Denotes(digits, radix, n)
    ensures var s := sign + digits; s != "" && !IsWhitespace(s[0]) && !IsWhitespace(s[|s| - 1])
  {
    hide Value;
    assert digits[0] in digits && digits[|digits| - 1] in digits;
    var s := sign + digits;
    assert s[|s| - 1] == digits[|digits| - 1];
    assert sign == "" ==> s[0] == digits[0];
  }

  lemma {:induction false} ToLowerAppend(a: string, b: string)
    ensures ToLower(a + b) == ToLower(a) + ToLower(b)
  {
    if a == "" {
      assert a + b == b;
    } else {
      assert (a + b)[1..] == a[1..] + b;
      ToLowerAppend(a[1..], b);
    }
  }

  lemma {:induction false} WhitespaceStays(s: string)
    requires AllWhitespace(s)
    ensures ToLower(s) == s
  {
    hide IsWhitespace, LowerChar;
    if s != "" {
      assert s[0] in s && forall c | c in s[1..] :: c in s;
      BlankStays(s[0]);
      WhitespaceStays(s[1..]);
      assert s == [s[0]] + s[1..];
    }
  }

  lemma BlankStays(c: char)
    requires IsWhitespace(c)
    ensures LowerChar(c) == [c]
  {
  }

  lemma LowerCharEnds(c: char)
    ensures LowerChar(c) != ""
    ensures IsWhitespace(c) ==> LowerChar(c) == [c]
    ensures !IsWhitespace(c) ==>
              !IsWhitespace(LowerChar(c)[0]) && !IsWhitespace(LowerChar(c)[|LowerChar(c)| - 1])
  {
  }

  /** It is the same to lower a text and then trim it as to trim it and then lower it. */
  lemma {:induction false} TrimLower(s: string)
    ensures Trim(ToLower(s)) == ToLower(Trim(s))
    decreases |s|
  {
    hide IsWhitespace, LowerChar;
    if s != "" {
      var first, last, init := s[0], s[|s| - 1], s[..|s| - 1];
      LowerCharEnds(first);
      LowerCharEnds(last);
      assert s == init + [last] && [last][1..] == "";
      ToLowerAppend(init, [last]);
      assert ToLower([last]) == LowerChar(last);
      if IsWhitespace(first) {
        assert ToLower(s)[1..] == ToLower(s[1..]);
        TrimLower(s[1..]);
      } else if IsWhitespace(last) {
        assert ToLower(s)[..|ToLower(s)| - 1] == ToLower(init);
        TrimLower(init);
      }
    }
  }
}

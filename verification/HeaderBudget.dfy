/**
 The header cap of read_metadata (src/response.rs) for lines of every ending: the loop charges each line its
 text and two bytes, whatever ended it, and does not charge the blank line.
 */
module HeaderBudget {
  import opened Wrappers
  import opened Scan
  import opened Utf8
  import opened Lines
  import opened Headers
  import opened Metadata

  /** A line with the ending it carries: CR LF, a bare LF, or none where the payload ends. */
  datatype Ended = Ended(text: string, ending: seq<Byte>)

  ghost predicate IsEnded(line: Ended) {
    '\n' !in line.text &&
    (line.ending == [] || line.ending == [CR, LF] ||
     (line.ending == [LF] && (line.text == "" || line.text[|line.text| - 1] != '\r')))
  }

  function Bytes(line: Ended): seq<Byte> {
    Encode(line.text) + line.ending
  }

  function Written(lines: seq<Ended>): seq<Byte> {
    if lines == [] then [] else Bytes(lines[0]) + Written(lines[1..])
  }

  /** The size of the blank line at the start of what follows the header lines; none at the end of the payload. */
  function BlankSize(tail: seq<Byte>): nat {
    if tail == [] then 0 else if tail[0] == LF then 1 else 2
  }

  /** What starts here is no line: it does not decode, or the transport fails before its end. */
  ghost predicate Breaks(tail: seq<Byte>, fault: Option<int>) {
    FreeLineOf(tail, fault).Err?
  }

  ghost predicate IsTail(tail: seq<Byte>, fault: Option<int>) {
    Breaks(tail, fault) || tail == [] || tail[0] == LF || [CR, LF] <= tail
  }

  /** A line with its ending; only the last line of a payload that does not fail may lack one. */
  ghost predicate StandsBefore(line: Ended, rest: seq<Byte>, fault: Option<int>) {
    IsEnded(line) && (line.ending == [] ==> rest == [] && fault.None?)
  }

  /** Header lines and what follows them: the blank line, the end of the payload, or bytes that break off. */
  ghost predicate IsSection(lines: seq<Ended>, tail: seq<Byte>, fault: Option<int>) {
    && IsTail(tail, fault)
    && (lines != [] ==>
          && lines[0].text != "" && StandsBefore(lines[0], Written(lines[1..]) + tail, fault)
          && IsSection(lines[1..], tail, fault))
  }

  function Size(line: Ended): nat {
    |Encode(line.text)|
  }

  /** What the loop has charged for these lines. */
  function Charged(lines: seq<Ended>): nat {
    if lines == [] then 0 else Size(lines[0]) + 2 + Charged(lines[1..])
  }

  function Texts(lines: seq<Ended>): seq<string> {
    if lines == [] then [] else [lines[0].text] + Texts(lines[1..])
  }

  // ---------- One line ----------

  lemma UnendedLine(text: string, max: nat, overflow: Error)
    requires '\n' !in text
    ensures LineOf(Encode(text), None, max, overflow) ==
            if |Encode(text)| > max then Err(overflow) else Ok(Line(text, []))
  {
    AsciiByte(text, LF);
    CutIs(Encode(text), [], {LF});
    assert Encode(text) + [] == Encode(text);
    DecodeEncode(text);
  }

  /** A line of any ending, read under a cap. */
  lemma EndedLine(line: Ended, rest: seq<Byte>, fault: Option<int>, max: nat, overflow: Error)
    requires StandsBefore(line, rest, fault)
    ensures LineOf(Bytes(line) + rest, fault, max, overflow) ==
            if Size(line) + |line.ending| > max then Err(overflow) else Ok(Line(line.text, rest))
  {
    hide LineOf, Encode;
    if line.ending == [] {
      assert Bytes(line) + rest == Encode(line.text);
      UnendedLine(line.text, max, overflow);
    } else {
      LineOfPrinted(line.text, line.ending, rest, fault, max, overflow);
    }
  }

  /** The blank line, or the end of the payload, and the body behind it. */
  lemma BlankLine(tail: seq<Byte>, fault: Option<int>, max: nat, overflow: Error)
    requires IsTail(tail, fault) && !Breaks(tail, fault)
    ensures BlankSize(tail) <= |tail|
    ensures LineOf(tail, fault, max, overflow) ==
            if BlankSize(tail) > max then Err(overflow) else Ok(Line("", tail[BlankSize(tail)..]))
  {
    var size := BlankSize(tail);
    var blank := Ended("", tail[..size]);
    if tail == [] {
      NoBlankNoFault(fault);
    }
    hide LineOf, Breaks;
    assert Encode("") == [] && Bytes(blank) + tail[size..] == tail;
    hide Encode;
    EndedLine(blank, tail[size..], fault, max, overflow);
  }

  lemma NoBlankNoFault(fault: Option<int>)
    requires !Breaks([], fault)
    ensures fault.None?
  {
  }

  // ---------- The loop ----------

  /** How the loop ends at the tail. */
  ghost function TailOutcome(tail: seq<Byte>, fault: Option<int>, cap: nat, headers: HeaderMap): Result<Head, Error> {
    if Breaks(tail, fault) then Err(if Overflows(tail, cap) then HeadersOverflow else FreeLineOf(tail, fault).error)
    else if BlankSize(tail) > cap || BlankSize(tail) > |tail| then Err(HeadersOverflow)
    else Ok(Head(headers, Some(cap), tail[BlankSize(tail)..]))
  }

  /** How the loop ends, by the sizes alone. */
  ghost function Outcome(lines: seq<Ended>, tail: seq<Byte>, fault: Option<int>, cap: nat, headers: HeaderMap)
    : Result<Head, Error>
    decreases |lines|
  {
    if lines == [] then TailOutcome(tail, fault, cap, headers)
    else if Size(lines[0]) + |lines[0].ending| > cap then Err(HeadersOverflow)
    else if Size(lines[0]) + 2 > cap then Err(ArithmeticOverflow)
    else Outcome(lines[1..], tail, fault, cap - (Size(lines[0]) + 2), InsertHeader(headers, lines[0].text))
  }

  lemma SectionRest(lines: seq<Ended>, tail: seq<Byte>, fault: Option<int>)
    requires IsSection(lines, tail, fault) && lines != []
    ensures IsSection(lines[1..], tail, fault) && lines[0].text != ""
    ensures StandsBefore(lines[0], Written(lines[1..]) + tail, fault)
    ensures Written(lines) + tail == Bytes(lines[0]) + (Written(lines[1..]) + tail)
  {
    hide StandsBefore, IsTail, Bytes;
    assert Written(lines) + tail == Bytes(lines[0]) + (Written(lines[1..]) + tail);
  }

  lemma FirstRound(line: Ended, rest: seq<Byte>, fault: Option<int>, cap: nat, headers: HeaderMap)
    requires StandsBefore(line, rest, fault) && line.text != ""
    ensures HeadersOf(Bytes(line) + rest, fault, Some(cap), headers) ==
            if Size(line) + |line.ending| > cap then Err(HeadersOverflow)
            else if Size(line) + 2 > cap then Err(ArithmeticOverflow)
            else HeadersOf(rest, fault, Some(cap - (Size(line) + 2)), InsertHeader(headers, line.text))
  {
    hide LineOf, Encode, InsertHeader;
    EndedLine(line, rest, fault, cap, HeadersOverflow);
  }

  lemma AtTail(tail: seq<Byte>, fault: Option<int>, cap: nat, headers: HeaderMap)
    requires IsTail(tail, fault)
    ensures HeadersOf(tail, fault, Some(cap), headers) == TailOutcome(tail, fault, cap, headers)
  {
    hide IsTail, BlankSize, Encode, FreeLineOf, Overflows;
    if !Breaks(tail, fault) {
      BlankLine(tail, fault, cap, HeadersOverflow);
      hide LineOf;
    }
  }

  lemma {:induction false} HeadersBySizes(lines: seq<Ended>, tail: seq<Byte>, fault: Option<int>, cap: nat,
      headers: HeaderMap)
    requires IsSection(lines, tail, fault)
    ensures HeadersOf(Written(lines) + tail, fault, Some(cap), headers) == Outcome(lines, tail, fault, cap, headers)
    decreases |lines|
  {
    hide LineOf, Encode, InsertHeader, IsTail, Bytes, HeadersOf, BlankSize, TailOutcome, StandsBefore;
    if lines == [] {
      AtTail(tail, fault, cap, headers);
      assert Written(lines) + tail == tail;
    } else {
      SectionRest(lines, tail, fault);
      FirstRound(lines[0], Written(lines[1..]) + tail, fault, cap, headers);
      if Size(lines[0]) + 2 <= cap {
        HeadersBySizes(lines[1..], tail, fault, cap - (Size(lines[0]) + 2), InsertHeader(headers, lines[0].text));
      }
    }
  }

  /** Line k fits what is left of the cap with its own ending, but not with the two bytes it is charged. */
  ghost predicate Underflows(lines: seq<Ended>, k: nat, cap: nat)
    requires k < |lines|
  {
    Charged(lines[..k]) + Size(lines[k]) + |lines[k].ending| <= cap < Charged(lines[..k]) + Size(lines[k]) + 2
  }

  ghost predicate AnyUnderflow(lines: seq<Ended>, cap: nat) {
    exists k: nat | k < |lines| :: Underflows(lines, k, cap)
  }

  lemma UnderflowsLater(lines: seq<Ended>, k: nat, cap: nat)
    requires 0 < k < |lines| && Size(lines[0]) + 2 <= cap
    ensures Underflows(lines, k, cap) == Underflows(lines[1..], k - 1, cap - (Size(lines[0]) + 2))
  {
    assert lines[..k][1..] == lines[1..][..k - 1];
    hide Size;
  }

  lemma OnlyFirstUnderflows(lines: seq<Ended>, k: nat, cap: nat)
    requires 0 < k < |lines| && Size(lines[0]) + 2 > cap
    ensures !Underflows(lines, k, cap)
  {
    assert lines[..k][0] == lines[0];
    assert Charged(lines[..k]) >= Size(lines[0]) + 2;
  }

  lemma UnderflowCons(lines: seq<Ended>, cap: nat)
    requires lines != []
    ensures Size(lines[0]) + 2 > cap ==> AnyUnderflow(lines, cap) == (Size(lines[0]) + |lines[0].ending| <= cap)
    ensures Size(lines[0]) + 2 <= cap ==>
              AnyUnderflow(lines, cap) == AnyUnderflow(lines[1..], cap - (Size(lines[0]) + 2))
  {
    assert Charged(lines[..0]) == 0;
    var rest, cost := lines[1..], Size(lines[0]) + 2;
    if cost > cap {
      forall k: nat | 0 < k < |lines| ensures !Underflows(lines, k, cap) {
        OnlyFirstUnderflows(lines, k, cap);
      }
      assert Underflows(lines, 0, cap) == (Size(lines[0]) + |lines[0].ending| <= cap);
    } else {
      assert !Underflows(lines, 0, cap);
      forall k: nat | 0 < k < |lines| ensures Underflows(lines, k, cap) == Underflows(rest, k - 1, cap - cost) {
        UnderflowsLater(lines, k, cap);
      }
      hide Underflows;
      if AnyUnderflow(rest, cap - cost) {
        var k: nat :| k < |rest| && Underflows(rest, k, cap - cost);
        assert Underflows(lines, k + 1, cap) == Underflows(rest, k, cap - cost);
      }
    }
  }

  lemma InsertTexts(lines: seq<Ended>, headers: HeaderMap)
    requires lines != []
    ensures InsertAll(headers, Texts(lines)) == InsertAll(InsertHeader(headers, lines[0].text), Texts(lines[1..]))
  {
    hide InsertAll, InsertHeader;
    assert Texts(lines)[0] == lines[0].text && Texts(lines)[1..] == Texts(lines[1..]);
    InsertAllStep(Texts(lines), headers);
  }

  lemma {:induction false} OutcomeBySizes(lines: seq<Ended>, tail: seq<Byte>, fault: Option<int>, cap: nat,
      headers: HeaderMap)
    requires IsSection(lines, tail, fault)
    ensures Outcome(lines, tail, fault, cap, headers) == Err(ArithmeticOverflow) <==> AnyUnderflow(lines, cap)
    ensures Charged(lines) <= cap ==>
              Outcome(lines, tail, fault, cap, headers) ==
              TailOutcome(tail, fault, cap - Charged(lines), InsertAll(headers, Texts(lines)))
    ensures Charged(lines) > cap ==>
              Outcome(lines, tail, fault, cap, headers) in {Err(HeadersOverflow), Err(ArithmeticOverflow)}
    decreases |lines|
  {
    hide Size, InsertHeader, Underflows, IsTail, FreeLineOf, Overflows, BlankSize;
    if lines == [] {
      TailNeverUnderflows(tail, fault, cap, headers);
      hide TailOutcome;
    } else {
      hide AnyUnderflow, InsertAll, TailOutcome;
      UnderflowCons(lines, cap);
      var cost := Size(lines[0]) + 2;
      if cost <= cap {
        OutcomeBySizes(lines[1..], tail, fault, cap - cost, InsertHeader(headers, lines[0].text));
        InsertTexts(lines, headers);
      }
    }
  }

  lemma TailNeverUnderflows(tail: seq<Byte>, fault: Option<int>, cap: nat, headers: HeaderMap)
    ensures TailOutcome(tail, fault, cap, headers) != Err(ArithmeticOverflow)
  {
    hide Cut, Overflows, BlankSize;
  }

  /**
   The header loop under a cap, for lines of every ending. If the charges of the lines fit, they are merged and what
   follows them decides: it ends the section if the blank line fits too, and otherwise gives its own error or the
   overflow. If the charges do not fit, the loop underflows or overflows. It underflows if and only if some line fits
   with its own ending but not with its charge: a line without CR that fills what is left, or an unterminated one
   within a byte of it.
   */
  lemma CapOutcome(lines: seq<Ended>, tail: seq<Byte>, fault: Option<int>, cap: nat, headers: HeaderMap)
    requires IsSection(lines, tail, fault)
    ensures var r := HeadersOf(Written(lines) + tail, fault, Some(cap), headers);
            && (Charged(lines) <= cap ==>
                  r == TailOutcome(tail, fault, cap - Charged(lines), InsertAll(headers, Texts(lines))))
            && (Charged(lines) > cap ==> r in {Err(HeadersOverflow), Err(ArithmeticOverflow)})
            && (r == Err(ArithmeticOverflow) <==> AnyUnderflow(lines, cap))
  {
    hide HeadersOf, IsSection, Outcome, AnyUnderflow, InsertAll, TailOutcome;
    HeadersBySizes(lines, tail, fault, cap, headers);
    OutcomeBySizes(lines, tail, fault, cap, headers);
  }

  // ---------- Every payload is of this form ----------

  lemma EndingOf(input: seq<Byte>, fault: Option<int>) returns (line: Ended, rest: seq<Byte>)
    requires !Breaks(input, fault)
    ensures FreeLineOf(input, fault) == Ok(Line(line.text, rest))
    ensures StandsBefore(line, rest, fault) && input == Bytes(line) + rest
  {
    hide Encode, Cut, FreeLineOf;
    assert LineOf(input, fault, |input|, HeadersOverflow) == FreeLineOf(input, fault);
    var ending := LineIsExactSplit(input, fault, |input|, HeadersOverflow);
    line := Ended(FreeLineOf(input, fault).value.text, ending);
    rest := FreeLineOf(input, fault).value.rest;
    if ending == [] {
      NoEndingNoFault(input, fault, line, rest);
    }
  }

  lemma NoEndingNoFault(input: seq<Byte>, fault: Option<int>, line: Ended, rest: seq<Byte>)
    requires FreeLineOf(input, fault) == Ok(Line(line.text, rest)) && input == Bytes(line) + rest
    requires IsEnded(line) && line.ending == [] && rest == []
    ensures fault.None?
  {
    hide Encode;
    AsciiByte(line.text, LF);
    CutIs(input, [], {LF});
    assert input + [] == input;
  }

  lemma SectionCons(line: Ended, lines: seq<Ended>, tail: seq<Byte>, fault: Option<int>)
    requires line.text != "" && IsSection(lines, tail, fault) && StandsBefore(line, Written(lines) + tail, fault)
    ensures IsSection([line] + lines, tail, fault)
    ensures Written([line] + lines) + tail == Bytes(line) + (Written(lines) + tail)
  {
    hide Encode, IsTail, StandsBefore;
    var all := [line] + lines;
    assert all[0] == line && all[1..] == lines;
  }

  lemma EncodedNonEmpty(text: string)
    requires text != ""
    ensures Encode(text) != []
  {
  }

  /** Every payload splits into ended lines and what follows them. */
  lemma {:induction false} SectionOf(input: seq<Byte>, fault: Option<int>)
    returns (lines: seq<Ended>, tail: seq<Byte>)
    ensures IsSection(lines, tail, fault) && input == Written(lines) + tail
    decreases |input|
  {
    hide Encode, IsSection, FreeLineOf, StandsBefore;
    if Breaks(input, fault) {
      lines, tail := [], input;
      BrokenSection(input, fault);
    } else {
      var line, rest := EndingOf(input, fault);
      if line.text == "" {
        lines, tail := [], input;
        EmptySection(line, rest, fault);
      } else {
        var others;
        EncodedNonEmpty(line.text);
        others, tail := SectionOf(rest, fault);
        lines := [line] + others;
        SectionCons(line, others, tail, fault);
      }
    }
  }

  lemma BrokenSection(input: seq<Byte>, fault: Option<int>)
    requires Breaks(input, fault)
    ensures IsSection([], input, fault) && Written([]) + input == input
  {
    hide Breaks;
  }

  lemma EmptySection(line: Ended, rest: seq<Byte>, fault: Option<int>)
    requires StandsBefore(line, rest, fault) && line.text == ""
    ensures var input := Bytes(line) + rest; IsSection([], input, fault) && Written([]) + input == input
  {
    hide Breaks;
    assert Bytes(line) == line.ending;
  }

  /** So for every payload, failure and cap the underflow has exactly that condition. */
  lemma CapUnderflowIff(input: seq<Byte>, fault: Option<int>, cap: nat, headers: HeaderMap)
    returns (lines: seq<Ended>, tail: seq<Byte>)
    ensures IsSection(lines, tail, fault) && input == Written(lines) + tail
    ensures HeadersOf(input, fault, Some(cap), headers) == Err(ArithmeticOverflow) <==> AnyUnderflow(lines, cap)
  {
    hide HeadersOf, IsSection, Written, AnyUnderflow, TailOutcome;
    lines, tail := SectionOf(input, fault);
    CapOutcome(lines, tail, fault, cap, headers);
  }

  /** The input that fails: a line ended by a bare line feed that fills the cap. */
  lemma BareLfUnderflows(text: string, tail: seq<Byte>, headers: HeaderMap)
    requires text != "" && '\n' !in text && text[|text| - 1] != '\r'
    ensures HeadersOf(Encode(text) + [LF] + tail, None, Some(|Encode(text)| + 1), headers) == Err(ArithmeticOverflow)
  {
    hide HeadersOf, Encode;
    FirstRound(Ended(text, [LF]), tail, None, |Encode(text)| + 1, headers);
  }

  /** For one, the section "A: b" under a cap of five bytes. */
  lemma FiveByteSectionUnderflows()
    ensures HeadersOf([65, 58, 32, 98, LF], None, Some(5), map[]) == Err(ArithmeticOverflow)
  {
    hide HeadersOf;
    AsciiBytes("A: b");
    assert Encode("A: b") == [65, 58, 32, 98];
    BareLfUnderflows("A: b", [], map[]);
    assert [65, 58, 32, 98] + [LF] + [] == [65, 58, 32, 98, LF];
  }

  lemma {:induction false} AsciiBytes(text: string)
    requires forall c | c in text :: c as int < 128
    ensures |Encode(text)| == |text| && forall i | 0 <= i < |text| :: Encode(text)[i] == text[i] as int
  {
    if text != "" {
      assert text[0] in text && forall c | c in text[1..] :: c in text;
      AsciiBytes(text[1..]);
      assert EncodeChar(text[0]) == [text[0] as int];
    }
  }
}

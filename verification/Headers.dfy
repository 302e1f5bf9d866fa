/** Status line and header lines of src/response.rs. */
module Headers {
  import opened Wrappers
  import opened Scan
  import opened Text

  type HeaderMap = map<string, string>

  /** The iteration order of a hash map, chosen by the run. */
  type HashOrder = HeaderMap -> seq<string>

  ghost predicate IsHashOrder(order: HashOrder) {
    forall m: HeaderMap :: Enumerates(order(m), m)
  }

  /** parse_header: the name up to the first colon, lower-cased, and the value without one leading space. */
  function ParseHeader(line: string): Option<(string, string)> {
    var i := Cut(line, {':'});
    if i == |line| then None
    else
      var value := if i + 1 < |line| && line[i + 1] == ' ' then line[i + 2..] else line[i + 1..];
      Some((AsciiLower(line[..i]), value))
  }

  /** One header line merged into the map; a later duplicate replaces the value. */
  function InsertHeader(headers: HeaderMap, line: string): HeaderMap {
    match ParseHeader(line)
    case Some((name, value)) => headers[name := value]
    case None => headers
  }

  function InsertAll(headers: HeaderMap, lines: seq<string>): HeaderMap
    decreases |lines|
  {
    if lines == [] then headers else InsertAll(InsertHeader(headers, lines[0]), lines[1..])
  }

  lemma {:induction false} InsertAllPush(headers: HeaderMap, lines: seq<string>, line: string)
    ensures InsertAll(headers, lines + [line]) == InsertHeader(InsertAll(headers, lines), line)
    decreases |lines|
  {
    hide InsertHeader;
    if lines == [] {
      assert lines + [line] == [line] && [line][1..] == [];
    } else {
      assert (lines + [line])[1..] == lines[1..] + [line];
      InsertAllPush(InsertHeader(headers, lines[0]), lines[1..], line);
    }
  }

  function HeaderLine(name: string, value: string): string {
    name + ": " + value
  }

  /** A printed header line parses back to the lower-cased name and the exact value, even a padded one. */
  lemma HeaderLineParses(name: string, value: string)
    requires ':' !in name
    ensures ParseHeader(HeaderLine(name, value)) == Some((AsciiLower(name), value))
  {
    var line := HeaderLine(name, value);
    assert line == name + (": " + value);
    CutIs(name, ": " + value, {':'});
    assert line[..|name|] == name && line[|name| + 2..] == value;
  }

  /** Whatever is behind the colon: one blank goes, if there is one, and every other character stays. */
  lemma HeaderValueIsExact(name: string, value: string)
    requires ':' !in name
    ensures ParseHeader(name + ":" + " " + value) == Some((AsciiLower(name), value))
    ensures value == "" || value[0] != ' ' ==> ParseHeader(name + ":" + value) == Some((AsciiLower(name), value))
  {
    HeaderLineParses(name, value);
    assert name + ":" + " " + value == HeaderLine(name, value);
    var line := name + ":" + value;
    assert line == name + (":" + value);
    CutIs(name, ":" + value, {':'});
    assert line[..|name|] == name && line[|name| + 1..] == value;
  }

  lemma HeaderNeedsColon(line: string)
    ensures ParseHeader(line).None? <==> ':' !in line
  {
    CutIsFirst(line, {':'});
    if Cut(line, {':'}) == |line| {
      assert line[..|line|] == line;
    }
  }

  lemma {:induction false} InsertAllAppend(headers: HeaderMap, a: seq<string>, b: seq<string>)
    ensures InsertAll(headers, a + b) == InsertAll(InsertAll(headers, a), b)
    decreases |a|
  {
    hide InsertHeader;
    if a == [] {
      assert a + b == b;
    } else {
      assert (a + b)[1..] == a[1..] + b;
      InsertAllAppend(InsertHeader(headers, a[0]), a[1..], b);
    }
  }

  /** This line says nothing about that name: it has no colon, or another name in front of it. */
  predicate IsSilentOn(line: string, name: string) {
    ParseHeader(line).None? || ParseHeader(line).value.0 != name
  }

  lemma {:induction false} SilentLinesKeep(headers: HeaderMap, lines: seq<string>, name: string)
    requires forall line | line in lines :: IsSilentOn(line, name)
    ensures name in InsertAll(headers, lines) <==> name in headers
    ensures name in headers ==> InsertAll(headers, lines)[name] == headers[name]
    decreases |lines|
  {
    hide ParseHeader;
    if lines != [] {
      assert IsSilentOn(lines[0], name) && forall line | line in lines[1..] :: line in lines;
      SilentLinesKeep(InsertHeader(headers, lines[0]), lines[1..], name);
    }
  }

  /** What the map holds of a header: the value of the last line with its name, without the letter case of that. */
  lemma LastLineWins(headers: HeaderMap, before: seq<string>, name: string, value: string, after: seq<string>)
    requires ':' !in name && forall line | line in after :: IsSilentOn(line, AsciiLower(name))
    ensures var r := InsertAll(headers, before + [name + ":" + " " + value] + after);
            AsciiLower(name) in r && r[AsciiLower(name)] == value
  {
    hide AsciiLower, ParseHeader;
    var line := name + ":" + " " + value;
    HeaderValueIsExact(name, value);
    InsertAllAppend(headers, before + [line], after);
    InsertAllPush(headers, before, line);
    SilentLinesKeep(InsertAll(headers, before + [line]), after, AsciiLower(name));
  }

  /** A line without a colon leaves the map as it is. */
  lemma NoColonNoHeader(headers: HeaderMap, line: string)
    requires ':' !in line
    ensures InsertAll(headers, [line]) == headers
  {
    HeaderNeedsColon(line);
    InsertAllPush(headers, [], line);
    assert [] + [line] == [line];
  }

  // ---------- Status line ----------

  const NO_STATUS := "Server did not provide a status line"

  /** The second and the third blank-separated field of a line; the third keeps its blanks. */
  datatype Fields = Fields(spaces: nat, code: string, reason: string)

  function FieldsOf(line: string): Fields {
    var i := Cut(line, {' '});
    if i == |line| then Fields(0, "", "") else CodeAndReason(line[i + 1..])
  }

  function CodeAndReason(rest: string): Fields {
    var j := Cut(rest, {' '});
    if j == |rest| then Fields(1, rest, "") else Fields(2, rest[..j], rest[j + 1..])
  }

  /** The status code and reason phrase of a line, or 503 where the code is no i32. */
  function StatusOf(line: string): (int, string) {
    var f := FieldsOf(line);
    var code := ParseI32(f.code);
    if code.Some? then (code.value, f.reason) else (503, NO_STATUS)
  }

  /** The step of the character loop. */
  function Step(f: Fields, c: char): Fields {
    if f.spaces == 2 then f.(reason := f.reason + [c])
    else if c == ' ' then f.(spaces := f.spaces + 1)
    else if f.spaces == 1 then f.(code := f.code + [c])
    else f
  }

  lemma CodeAndReasonAppend(rest: string, c: char)
    ensures CodeAndReason(rest + [c]) == Step(CodeAndReason(rest), c)
  {
    hide Cut;
    CutAppend(rest, [c], {' '});
    CutOne(c, {' '});
    var j := Cut(rest, {' '});
    assert (rest + [c])[..j] == rest[..j];
    if j < |rest| {
      assert (rest + [c])[j + 1..] == rest[j + 1..] + [c];
    } else {
      assert rest[..j] == rest;
      if c == ' ' {
        assert (rest + [c])[j + 1..] == "";
      }
    }
  }

  lemma NoFields()
    ensures CodeAndReason("") == Fields(1, "", "") && FieldsOf("") == Fields(0, "", "")
  {
  }

  lemma FieldsOfAppend(line: string, c: char)
    ensures FieldsOf(line + [c]) == Step(FieldsOf(line), c)
  {
    hide Cut, CodeAndReason;
    var i := Cut(line, {' '});
    CutAppend(line, [c], {' '});
    CutOne(c, {' '});
    if i < |line| {
      assert (line + [c])[i + 1..] == line[i + 1..] + [c];
      CodeAndReasonAppend(line[i + 1..], c);
    } else if c == ' ' {
      assert (line + [c])[i + 1..] == "";
      NoFields();
    }
  }

  /** parse_status_line. */
  method ParseStatusLine(line: string) returns (status: int, reason: string)
    ensures (status, reason) == StatusOf(line)
  {
    var statusCode, reasonPhrase, spaces := "", "", 0;
    hide FieldsOf, ParseI32;
    NoFields();
    assert line[..0] == "";
    for k := 0 to |line|
      invariant FieldsOf(line[..k]) == Fields(if spaces > 2 then 2 else spaces, statusCode, reasonPhrase)
      invariant spaces >= 0
    {
      var c := line[k];
      FieldsOfAppend(line[..k], c);
      assert line[..k + 1] == line[..k] + [c];
      if spaces >= 2 {
        reasonPhrase := reasonPhrase + [c];
      }
      if c == ' ' {
        spaces := spaces + 1;
      } else if spaces == 1 {
        statusCode := statusCode + [c];
      }
    }
    assert line[..|line|] == line;
    var code := ParseI32(statusCode);
    if code.Some? {
      return code.value, reasonPhrase;
    }
    return 503, NO_STATUS;
  }

  lemma FieldsOfLine(version: string, digits: string, reason: string)
    requires ' ' !in version && ' ' !in digits
    ensures FieldsOf(version + " " + digits + " " + reason) == Fields(2, digits, reason)
  {
    hide Cut;
    var rest := digits + (" " + reason);
    var line := version + (" " + rest);
    assert version + " " + digits + " " + reason == line;
    CutIs(version, " " + rest, {' '});
    assert line[|version| + 1..] == rest;
    CutIs(digits, " " + reason, {' '});
    assert rest[..|digits|] == digits && rest[|digits| + 1..] == reason;
  }

  lemma ParseCode(code: nat)
    requires code <= I32_MAX
    ensures ' ' !in Decimal(code) && ParseI32(Decimal(code)) == Some(code)
  {
    DecimalValue(code);
    ParseDecimal(code, I32_MAX);
    hide Decimal, ParseUnsigned;
    assert Decimal(code)[0] in Decimal(code);
  }

  /** A well-formed status line gives its code and its whole reason phrase, blanks included. */
  lemma StatusLineParses(version: string, code: nat, reason: string)
    requires ' ' !in version && code <= I32_MAX
    ensures StatusOf(version + " " + Decimal(code) + " " + reason) == (code, reason)
  {
    hide Decimal, ParseI32, FieldsOf;
    ParseCode(code);
    FieldsOfLine(version, Decimal(code), reason);
  }

  /** Without a third field the reason is empty; without a number as second one the status is 503. */
  lemma OtherStatusLines(version: string, code: nat, text: string, reason: string)
    requires ' ' !in version && ' ' !in text && code <= 2147483647
    ensures StatusOf(version + " " + Decimal(code)) == (code, "")
    ensures ParseI32(text).None? ==>
              StatusOf(version + " " + text + " " + reason) == (503, "Server did not provide a status line")
    ensures StatusOf(version) == (503, "Server did not provide a status line")
  {
    hide Decimal, ParseI32, FieldsOf;
    ParseCode(code);
    TwoFields(version, Decimal(code));
    FieldsOfLine(version, text, reason);
    OneField(version);
    NoCode();
  }

  lemma TwoFields(version: string, digits: string)
    requires ' ' !in version && ' ' !in digits
    ensures FieldsOf(version + " " + digits) == Fields(1, digits, "")
  {
    hide Cut;
    var line := version + (" " + digits);
    assert version + " " + digits == line;
    CutIs(version, " " + digits, {' '});
    assert line[|version| + 1..] == digits;
    CutIs(digits, "", {' '});
    assert digits + "" == digits;
  }

  lemma OneField(version: string)
    requires ' ' !in version
    ensures FieldsOf(version) == Fields(0, "", "")
  {
    CutIs(version, "", {' '});
    assert version + "" == version;
  }

  lemma NoCode()
    ensures ParseI32("").None?
  {
  }
}

/** read_metadata of src/response.rs: status line, header loop under a shrinking budget, and framing. */
module Metadata {
  import opened Wrappers
  import opened Utf8
  import opened Transport
  import opened Lines
  import opened Headers
  import opened Framing

  /** The header section read: the map, the budget left for trailers, and the bytes behind the blank line. */
  datatype Head = Head(headers: HeaderMap, budget: Option<nat>, rest: seq<Byte>)

  datatype Metadata = Metadata(status: int, reason: string, framing: HttpStreamState, head: Head)

  /** max_headers_size and max_status_line_len of a request. */
  datatype Limits = Limits(headers: Option<nat>, status: Option<nat>)

  /** *max_headers_size -= n, which panics below zero. */
  function Spend(budget: Option<nat>, n: nat): Result<Option<nat>, Error> {
    match budget
    case None => Ok(None)
    case Some(left) => if left >= n then Ok(Some(left - n)) else Err(ArithmeticOverflow)
  }

  // ---------- The meaning in the bytes ----------

  ghost function HeadersOf(input: seq<Byte>, fault: Option<int>, budget: Option<nat>,
      headers: HeaderMap): (r: Result<Head, Error>)
    ensures r.Ok? ==> |r.value.rest| <= |input|
    decreases |input|, 1
  {
    AfterLine(LineOf(input, fault, Limit(budget), HeadersOverflow), |input|, fault, budget, headers)
  }

  /** One round of the header loop, for a line that starts within the last length bytes. */
  ghost function AfterLine(line: Result<Line, Error>, length: nat, fault: Option<int>, budget: Option<nat>,
      headers: HeaderMap)
    : (r: Result<Head, Error>)
    requires line.Ok? && line.value.text != "" ==> |line.value.rest| < length
    ensures r.Ok? ==> line.Ok? && |r.value.rest| <= |line.value.rest|
    decreases length, 0
  {
    if line.Err? then Err(line.error)
    else if line.value.text == "" then Ok(Head(headers, budget, line.value.rest))
    else
      var left := Spend(budget, |Encode(line.value.text)| + 2);
      if left.Err? then Err(left.error)
      else HeadersOf(line.value.rest, fault, left.value, InsertHeader(headers, line.value.text))
  }

  ghost function MetadataOf(input: seq<Byte>, fault: Option<int>, limits: Limits, order: HashOrder)
    : Result<Metadata, Error>
    requires IsHashOrder(order)
  {
    var line :- LineOf(input, fault, Limit(limits.status), StatusLineOverflow);
    var head :- HeadersOf(line.rest, fault, limits.headers, map[]);
    var framing :- FramingOf(head.headers, order(head.headers));
    Ok(Metadata(StatusOf(line.text).0, StatusOf(line.text).1, framing, head))
  }

  // ---------- The reading, event by event ----------

  datatype HeadReading = HeadReading(head: Result<Head, Error>, events: seq<Event>)

  /** The header loop; prefix is the trailing buffer. */
  ghost function HeaderLoop(prefix: seq<Byte>, events: seq<Event>, budget: Option<nat>,
      headers: HeaderMap): (r: HeadReading)
    ensures |r.events| <= |events|
    decreases |prefix| + |Payload(events)|
  {
    var max := Limit(budget);
    var reading := AsyncLine(prefix, events, max, HeadersOverflow);
    AsyncLineRefinesBytes(prefix, events, max, HeadersOverflow);
    match reading.line
    case Err(e) => HeadReading(Err(e), reading.events)
    case Ok(line) =>
      if line.text == "" then HeadReading(Ok(Head(headers, budget, line.rest)), reading.events)
      else match Spend(budget, |Encode(line.text)| + 2)
        case Err(e) => HeadReading(Err(e), reading.events)
        case Ok(left) => HeaderLoop(line.rest, reading.events, left, InsertHeader(headers, line.text))
  }

  /** One round of the loop where the budget suffices, in the bytes and event by event. */
  lemma HeadersOfRound(input: seq<Byte>, line: Line, fault: Option<int>, budget: Option<nat>, headers: HeaderMap)
    requires LineOf(input, fault, Limit(budget), HeadersOverflow) == Ok(line) && line.text != ""
    requires Spend(budget, |Encode(line.text)| + 2).Ok?
    ensures HeadersOf(input, fault, budget, headers) ==
            HeadersOf(line.rest, fault, Spend(budget, |Encode(line.text)| + 2).value, InsertHeader(headers, line.text))
  {
    hide LineOf, Encode, InsertHeader;
  }

  lemma HeaderLoopRound(prefix: seq<Byte>, line: Line, events: seq<Event>, budget: Option<nat>, headers: HeaderMap)
    requires AsyncLine(prefix, events, Limit(budget), HeadersOverflow) == Reading(Ok(line), events) && line.text != ""
    requires Spend(budget, |Encode(line.text)| + 2).Ok?
    ensures HeaderLoop(prefix, events, budget, headers) ==
            var left := Spend(budget, |Encode(line.text)| + 2).value;
            HeaderLoop(line.rest, events, left, InsertHeader(headers, line.text))
  {
    hide AsyncLine, LineOf, Encode, InsertHeader;
  }

  datatype MetadataReading = MetadataReading(metadata: Result<Metadata, Error>, events: seq<Event>)

  ghost function ReadingOf(events: seq<Event>, limits: Limits, order: HashOrder): MetadataReading
    requires IsHashOrder(order)
  {
    var status := AsyncLine([], events, Limit(limits.status), StatusLineOverflow);
    match status.line
    case Err(e) => MetadataReading(Err(e), status.events)
    case Ok(line) =>
      var reading := HeaderLoop(line.rest, status.events, limits.headers, map[]);
      match reading.head
      case Err(e) => MetadataReading(Err(e), reading.events)
      case Ok(head) =>
        match FramingOf(head.headers, order(head.headers))
        case Err(e) => MetadataReading(Err(e), reading.events)
        case Ok(framing) =>
          MetadataReading(Ok(Metadata(StatusOf(line.text).0, StatusOf(line.text).1, framing, head)), reading.events)
  }

  /** read_metadata. */
  method ReadMetadata(stream: ByteStream, limits: Limits, order: HashOrder)
    returns (r: Result<Metadata, Error>)
    requires IsHashOrder(order)
    modifies stream
    ensures MetadataReading(r, stream.events) == ReadingOf(old(stream.events), limits, order)
  {
    var first := ReadLineAsync(stream, limits.status, StatusLineOverflow, []);
    if first.Err? {
      return Err(first.error);
    }
    var trailing := first.value.rest;
    var status, reason := ParseStatusLine(first.value.text);

    var headers: HeaderMap := map[];
    var budget := limits.headers;
    ghost var whole := HeaderLoop(trailing, stream.events, budget, headers);
    while true
      invariant HeaderLoop(trailing, stream.events, budget, headers) == whole
      decreases |trailing| + |Payload(stream.events)|
    {
      AsyncLineRefinesBytes(trailing, stream.events, Limit(budget), HeadersOverflow);
      var line := ReadLineAsync(stream, budget, HeadersOverflow, trailing);
      if line.Err? {
        return Err(line.error);
      }
      trailing := line.value.rest;
      if line.value.text == "" {
        break;
      }
      var left := Spend(budget, |Encode(line.value.text)| + 2);
      if left.Err? {
        return Err(left.error);
      }
      budget := left.value;
      headers := InsertHeader(headers, line.value.text);
    }
    assert whole == HeadReading(Ok(Head(headers, budget, trailing)), stream.events);
    var framing := ChooseFraming(headers, order(headers));
    if framing.Err? {
      return Err(framing.error);
    }
    r := Ok(Metadata(status, reason, framing.value, Head(headers, budget, trailing)));
  }

  // ---------- Only the bytes matter ----------

  ghost predicate HeadRefines(reading: HeadReading, before: seq<Event>, meaning: Result<Head, Error>) {
    match reading.head
    case Err(e) => meaning == Err(e)
    case Ok(head) =>
      && meaning == Ok(Head(head.headers, head.budget, head.rest + Payload(reading.events)))
      && FaultOf(reading.events) == FaultOf(before)
  }

  lemma {:induction false} HeaderLoopRefinesBytes(prefix: seq<Byte>, events: seq<Event>, budget: Option<nat>,
      headers: HeaderMap)
    ensures HeadRefines(HeaderLoop(prefix, events, budget, headers), events,
                        HeadersOf(prefix + Payload(events), FaultOf(events), budget, headers))
    decreases |prefix| + |Payload(events)|
  {
    var input := prefix + Payload(events);
    var reading := AsyncLine(prefix, events, Limit(budget), HeadersOverflow);
    AsyncLineRefinesBytes(prefix, events, Limit(budget), HeadersOverflow);
    if reading.line.Ok? && reading.line.value.text != "" {
      var line := reading.line.value;
      var left := Spend(budget, |Encode(line.text)| + 2);
      if left.Ok? {
        HeaderLoopRefinesBytes(line.rest, reading.events, left.value, InsertHeader(headers, line.text));
      }
    }
  }

  /** The metadata, the bytes behind the head and the failure to come depend only on the payload. */
  lemma ReadingRefinesBytes(events: seq<Event>, limits: Limits, order: HashOrder)
    requires IsHashOrder(order)
    ensures var r := ReadingOf(events, limits, order);
            var meaning := MetadataOf(Payload(events), FaultOf(events), limits, order);
            match r.metadata
            case Err(e) => meaning == Err(e)
            case Ok(m) =>
              && meaning == Ok(m.(head := Head(m.head.headers, m.head.budget, m.head.rest + Payload(r.events))))
              && FaultOf(r.events) == FaultOf(events)
  {
    hide AsyncLine, LineOf, HeaderLoop, HeadersOf, StatusOf, FramingOf;
    var max := Limit(limits.status);
    var status := AsyncLine([], events, max, StatusLineOverflow);
    AsyncLineRefinesBytes([], events, max, StatusLineOverflow);
    assert [] + Payload(events) == Payload(events);
    if status.line.Ok? {
      HeaderLoopRefinesBytes(status.line.value.rest, status.events, limits.headers, map[]);
    }
  }

  // ---------- The header budget ----------

  /** A header section without its blank line, every line ended by CR LF. */
  function Block(lines: seq<string>): seq<Byte> {
    if lines == [] then [] else Encode(lines[0]) + [CR, LF] + Block(lines[1..])
  }

  ghost predicate AreHeaderLines(lines: seq<string>) {
    forall line | line in lines :: line != "" && '\n' !in line
  }

  lemma PrintedHeader(text: string, rest: seq<Byte>, fault: Option<int>, budget: Option<nat>, headers: HeaderMap)
    requires text != "" && '\n' !in text
    requires |Encode(text)| + 2 <= Limit(budget)
    ensures HeadersOf(Encode(text) + [CR, LF] + rest, fault, budget, headers) ==
            HeadersOf(rest, fault, Spend(budget, |Encode(text)| + 2).value, InsertHeader(headers, text))
  {
    hide HeadersOf, Encode, InsertHeader;
    LineOfPrinted(text, [CR, LF], rest, fault, Limit(budget), HeadersOverflow);
    HeadersOfRound(Encode(text) + [CR, LF] + rest, Line(text, rest), fault, budget, headers);
  }

  lemma PrintedTooLong(text: string, rest: seq<Byte>, fault: Option<int>, budget: Option<nat>, headers: HeaderMap)
    requires '\n' !in text
    requires |Encode(text)| + 2 > Limit(budget)
    ensures HeadersOf(Encode(text) + [CR, LF] + rest, fault, budget, headers) == Err(HeadersOverflow)
  {
    LineOfPrinted(text, [CR, LF], rest, fault, Limit(budget), HeadersOverflow);
  }

  lemma PrintedBlank(body: seq<Byte>, fault: Option<int>, budget: Option<nat>, headers: HeaderMap)
    requires 2 <= Limit(budget)
    ensures HeadersOf([CR, LF] + body, fault, budget, headers) == Ok(Head(headers, budget, body))
  {
    hide LineOf;
    LineOfPrinted("", [CR, LF], body, fault, Limit(budget), HeadersOverflow);
    assert Encode("") + [CR, LF] + body == [CR, LF] + body;
  }

  /** The section with its blank line, as the reader meets it. */
  function Section(lines: seq<string>, body: seq<Byte>): seq<Byte> {
    Block(lines) + [CR, LF] + body
  }

  lemma SectionSplit(lines: seq<string>, body: seq<Byte>)
    ensures lines == [] ==> Section(lines, body) == [CR, LF] + body
    ensures lines != [] ==> Section(lines, body) == Encode(lines[0]) + [CR, LF] + Section(lines[1..], body)
  {
  }

  /** What the reader has to make of a section, by its size alone. */
  ghost function WithinBudget(lines: seq<string>, body: seq<Byte>, budget: Option<nat>,
      headers: HeaderMap): Result<Head, Error> {
    if |Block(lines)| + 2 > Limit(budget) then Err(HeadersOverflow)
    else Ok(Head(InsertAll(headers, lines), Spend(budget, |Block(lines)|).value, body))
  }

  lemma BlockLength(lines: seq<string>)
    requires lines != []
    ensures |Block(lines)| == |Encode(lines[0])| + 2 + |Block(lines[1..])|
  {
  }

  lemma InsertAllStep(lines: seq<string>, headers: HeaderMap)
    requires lines != []
    ensures InsertAll(headers, lines) == InsertAll(InsertHeader(headers, lines[0]), lines[1..])
  {
  }

  lemma WithinBudgetStep(lines: seq<string>, body: seq<Byte>, budget: Option<nat>, headers: HeaderMap)
    requires lines != [] && |Encode(lines[0])| + 2 <= Limit(budget)
    requires budget.None? ==> |Block(lines)| + 2 <= USIZE_MAX
    ensures WithinBudget(lines, body, budget, headers) ==
            WithinBudget(lines[1..], body, Spend(budget, |Encode(lines[0])| + 2).value, InsertHeader(headers, lines[0]))
  {
    BlockLength(lines);
    InsertAllStep(lines, headers);
  }

  /**
   For CR LF ended lines the cap is exact: HeadersOverflow if and only if the section with its blank line is
   longer than the cap, no underflow ever, every line merged, and the cap minus the lines left for trailers.
   */
  lemma {:induction false} BudgetIsExact(lines: seq<string>, body: seq<Byte>, fault: Option<int>, budget: Option<nat>,
      headers: HeaderMap)
    requires AreHeaderLines(lines)
    requires budget.None? ==> |Block(lines)| + 2 <= USIZE_MAX
    ensures HeadersOf(Section(lines, body), fault, budget, headers) == WithinBudget(lines, body, budget, headers)
    decreases |lines|, 1
  {
    SectionSplit(lines, body);
    if lines == [] {
      if 2 <= Limit(budget) {
        PrintedBlank(body, fault, budget, headers);
      } else {
        assert [CR, LF] + body == Encode("") + [CR, LF] + body;
        PrintedTooLong("", body, fault, budget, headers);
      }
    } else {
      BlockLength(lines);
      BudgetRound(lines, body, fault, budget, headers);
      if |Encode(lines[0])| + 2 <= Limit(budget) {
        WithinBudgetStep(lines, body, budget, headers);
      }
    }
  }

  lemma {:induction false} BudgetRound(lines: seq<string>, body: seq<Byte>, fault: Option<int>, budget: Option<nat>,
      headers: HeaderMap)
    requires AreHeaderLines(lines) && lines != []
    requires budget.None? ==> |Encode(lines[0])| + 2 + |Block(lines[1..])| + 2 <= USIZE_MAX
    ensures HeadersOf(Encode(lines[0]) + [CR, LF] + Section(lines[1..], body), fault, budget, headers) ==
            if |Encode(lines[0])| + 2 > Limit(budget) then Err(HeadersOverflow)
            else
              var left := Spend(budget, |Encode(lines[0])| + 2).value;
              WithinBudget(lines[1..], body, left, InsertHeader(headers, lines[0]))
    decreases |lines|, 0
  {
    var text, rest := lines[0], lines[1..];
    assert text in lines && forall line | line in rest :: line in lines;
    if |Encode(text)| + 2 <= Limit(budget) {
      PrintedHeader(text, Section(rest, body), fault, budget, headers);
      BudgetIsExact(rest, body, fault, Spend(budget, |Encode(text)| + 2).value, InsertHeader(headers, text));
    } else {
      PrintedTooLong(text, Section(rest, body), fault, budget, headers);
    }
  }
}

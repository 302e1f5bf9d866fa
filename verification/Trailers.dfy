/** The trailer loop read_trailers of src/response.rs, against its meaning in the bytes. */
module Trailers {
  import opened Wrappers
  import opened Scan
  import opened Utf8
  import opened Transport
  import opened Lines
  import opened PolledLines
  import opened PolledLimits
  import opened Headers
  import opened Metadata
  import opened HeaderBudget
  import opened LazyState

  /** The trailers merged, what they cost the budget, and the bytes behind the line that ended them. */
  datatype TrailerEnd = TrailerEnd(headers: HeaderMap, cost: nat, rest: seq<Byte>)

  /** The trailers in the bytes: lines up to the first one without a colon, which is charged as well. */
  ghost function TrailersOf(input: seq<Byte>, fault: Option<int>, headers: HeaderMap): Result<TrailerEnd, Error>
    decreases |input|, 1
  {
    AfterTrailer(FreeLineOf(input, fault), |input|, fault, headers)
  }

  ghost function AfterTrailer(line: Result<Line, Error>, length: nat, fault: Option<int>, headers: HeaderMap)
    : Result<TrailerEnd, Error>
    requires line.Ok? && line.value.text != "" ==> |line.value.rest| < length
    decreases length, 0
  {
    if line.Err? then Err(line.error)
    else
      HeaderNeedsColon(line.value.text);
      var cost := |Encode(line.value.text)| + 2;
      if ParseHeader(line.value.text).None? then Ok(TrailerEnd(headers, cost, line.value.rest))
      else
        var end := TrailersOf(line.value.rest, fault, InsertHeader(headers, line.value.text));
        if end.Err? then end else Ok(end.value.(cost := cost + end.value.cost))
  }

  ghost predicate Suffices(budget: Option<nat>, cost: nat) {
    budget.Some? ==> cost <= budget.value
  }

  // ---------- The loop ----------

  /** The stream holds the bytes behind the trailers, but for those already taken with the last piece. */
  ghost predicate Leaves(rest: seq<Byte>, events: seq<Event>) {
    |Payload(events)| <= |rest| && rest[|rest| - |Payload(events)|..] == Payload(events)
  }

  /** How the loop stands to the trailers in the bytes. */
  ghost predicate LoopMatches(r: Trailers, budget: Option<nat>, meaning: Result<TrailerEnd, Error>) {
    && (r.outcome == Ready(Ok(())) <==> meaning.Ok? && Suffices(budget, meaning.value.cost))
    && (r.outcome == Ready(Ok(())) ==> r.headers == meaning.value.headers && Leaves(meaning.value.rest, r.events))
    && (meaning.Ok? && !Suffices(budget, meaning.value.cost) ==>
          r.outcome in {Ready(Err(HeadersOverflow)), Ready(Err(ArithmeticOverflow))})
    && (meaning.Err? && budget.None? ==> r.outcome == Ready(Err(meaning.error)))
  }

  /** The reader's first line under the budget: as the bytes mean it if the budget covers it, else an overflow. */
  lemma FirstTrailerLine(prefix: seq<Byte>, events: seq<Event>, budget: Option<nat>)
    requires NeverStalls(events)
    ensures var polled, meaning := PollLine(prefix, events, budget, HeadersOverflow),
                                   FreeLineOf(prefix + Payload(events), FaultOf(events));
            && polled.line.Ready? && NeverStalls(polled.events)
            && (meaning.Err? ==> polled.line.value.Err?)
            && (meaning.Err? && budget.None? ==> polled.line.value == Err(meaning.error))
            && (polled.line.value.Ok? ==> Refines(polled.line.value, polled.events, events, meaning))
            && (polled.line.value.Err? && meaning.Ok? ==>
                  polled.line.value == Err(HeadersOverflow) && !Suffices(budget, |Encode(meaning.value.text)| + 2))
  {
    hide PollLine, FreeLineOf, Encode, Cut;
    UnlimitedRefinesBytes(prefix, events, HeadersOverflow);
    NeverPending(prefix, events, budget, HeadersOverflow);
    EventsLeft(prefix, events, budget, HeadersOverflow);
    if budget.Some? {
      LimitedOrOverflow(prefix, events, budget.value, HeadersOverflow);
      var meaning := FreeLineOf(prefix + Payload(events), FaultOf(events));
      if meaning.Ok? && Suffices(budget, |Encode(meaning.value.text)| + 2) {
        LimitSuffices(prefix, events, budget.value, HeadersOverflow);
      }
    }
  }

  /** One round of the loop whose line is read, charged and merged. */
  lemma TrailerRound(prefix: seq<Byte>, events: seq<Event>, budget: Option<nat>, headers: HeaderMap, line: Line,
      after: seq<Event>)
    requires PollLine(prefix, events, budget, HeadersOverflow) == Polled(Ready(Ok(line)), after)
    ensures var left := Spend(budget, |Encode(line.text)| + 2);
            && (left.Err? ==> TrailerLoop(prefix, events, budget, headers).outcome == Ready(Err(ArithmeticOverflow)))
            && (left.Ok? && ParseHeader(line.text).None? ==>
                  TrailerLoop(prefix, events, budget, headers) == Trailers(Ready(Ok(())), headers, after))
            && (left.Ok? && ParseHeader(line.text).Some? ==>
                  TrailerLoop(prefix, events, budget, headers) ==
                  TrailerLoop(line.rest, after, left.value, InsertHeader(headers, line.text)))
  {
    hide PollLine, Encode, ParseHeader, InsertHeader;
  }

  lemma TrailerError(prefix: seq<Byte>, events: seq<Event>, budget: Option<nat>, headers: HeaderMap, e: Error)
    requires PollLine(prefix, events, budget, HeadersOverflow).line == Ready(Err(e))
    ensures TrailerLoop(prefix, events, budget, headers).outcome == Ready(Err(e))
  {
    hide PollLine;
  }

  /** The same round in the bytes. */
  lemma TrailersOfRound(input: seq<Byte>, fault: Option<int>, headers: HeaderMap, line: Line)
    requires FreeLineOf(input, fault) == Ok(line)
    ensures var cost := |Encode(line.text)| + 2;
            && (ParseHeader(line.text).None? ==>
                  TrailersOf(input, fault, headers) == Ok(TrailerEnd(headers, cost, line.rest)))
            && (ParseHeader(line.text).Some? ==>
                  |line.rest| < |input| &&
                  var end := TrailersOf(line.rest, fault, InsertHeader(headers, line.text));
                  TrailersOf(input, fault, headers) ==
                  if end.Err? then end else Ok(end.value.(cost := cost + end.value.cost)))
  {
    hide FreeLineOf, Encode, ParseHeader, InsertHeader, Cut, TrailersOf;
    if ParseHeader(line.text).None? {
      LastLine(input, fault, headers, line);
    } else {
      HeaderNeedsColon(line.text);
      FreeLineShrinks(input, fault);
      ColonLine(input, fault, headers, line);
    }
  }

  lemma LastLine(input: seq<Byte>, fault: Option<int>, headers: HeaderMap, line: Line)
    requires FreeLineOf(input, fault) == Ok(line) && ParseHeader(line.text).None?
    ensures TrailersOf(input, fault, headers) == Ok(TrailerEnd(headers, |Encode(line.text)| + 2, line.rest))
  {
    hide FreeLineOf, Encode, ParseHeader, InsertHeader;
  }

  lemma ColonLine(input: seq<Byte>, fault: Option<int>, headers: HeaderMap, line: Line)
    requires FreeLineOf(input, fault) == Ok(line) && ParseHeader(line.text).Some? && |line.rest| < |input|
    ensures var end := TrailersOf(line.rest, fault, InsertHeader(headers, line.text));
            TrailersOf(input, fault, headers) ==
            if end.Err? then end else Ok(end.value.(cost := |Encode(line.text)| + 2 + end.value.cost))
  {
    hide FreeLineOf, Encode, ParseHeader, InsertHeader;
  }

  lemma FreeLineShrinks(input: seq<Byte>, fault: Option<int>)
    ensures var line := FreeLineOf(input, fault);
            line.Ok? && line.value.text != "" ==> |line.value.rest| < |input|
  {
  }

  lemma RoundMatches(r: Trailers, budget: Option<nat>, cost: nat, next: Result<TrailerEnd, Error>,
      meaning: Result<TrailerEnd, Error>)
    requires Spend(budget, cost).Ok? && LoopMatches(r, Spend(budget, cost).value, next)
    requires meaning == if next.Err? then next else Ok(next.value.(cost := cost + next.value.cost))
    ensures LoopMatches(r, budget, meaning)
  {
    hide Leaves;
  }

  /** The line does not fit what is left of the budget. */
  lemma TooCostly(r: Trailers, budget: Option<nat>, cost: nat, meaning: Result<TrailerEnd, Error>)
    requires !Suffices(budget, cost) && (meaning.Ok? ==> meaning.value.cost >= cost)
    requires r.outcome in {Ready(Err(HeadersOverflow)), Ready(Err(ArithmeticOverflow))}
    ensures LoopMatches(r, budget, meaning)
  {
  }

  /**
   On every run without stalls the loop succeeds if and only if the bytes hold trailers whose cost the budget
   covers; it then has merged exactly those and left the stream behind them. A budget that falls short gives one of
   the two overflows, and without a budget the loop fails as the bytes do.
   */
  lemma {:induction false} TrailerLoopIff(prefix: seq<Byte>, events: seq<Event>, budget: Option<nat>,
      headers: HeaderMap)
    requires NeverStalls(events)
    ensures LoopMatches(TrailerLoop(prefix, events, budget, headers), budget,
                        TrailersOf(prefix + Payload(events), FaultOf(events), headers))
    decreases |prefix + Payload(events)|
  {
    hide PollLine, FreeLineOf, Encode, ParseHeader, InsertHeader, TrailerLoop, TrailersOf, Leaves;
    FirstTrailerLine(prefix, events, budget);
    var input, fault := prefix + Payload(events), FaultOf(events);
    var polled, meaning := PollLine(prefix, events, budget, HeadersOverflow), FreeLineOf(input, fault);
    var r := TrailerLoop(prefix, events, budget, headers);
    if meaning.Err? {
      TrailerError(prefix, events, budget, headers, polled.line.value.error);
      MeaningError(input, fault, headers);
    } else {
      var text, rest := meaning.value.text, meaning.value.rest;
      var cost := |Encode(text)| + 2;
      TrailersOfRound(input, fault, headers, meaning.value);
      if polled.line.value.Err? {
        TrailerError(prefix, events, budget, headers, HeadersOverflow);
        TooCostly(r, budget, cost, TrailersOf(input, fault, headers));
      } else {
        var line := polled.line.value.value;
        TrailerRound(prefix, events, budget, headers, line, polled.events);
        if !Suffices(budget, cost) {
          TooCostly(r, budget, cost, TrailersOf(input, fault, headers));
        } else if ParseHeader(text).None? {
          LeftBehind(line.rest, polled.events);
        } else {
          hide LoopMatches;
          var left := Spend(budget, cost).value;
          TrailerLoopIff(line.rest, polled.events, left, InsertHeader(headers, text));
          RoundMatches(r, budget, cost, TrailersOf(rest, fault, InsertHeader(headers, text)),
                       TrailersOf(input, fault, headers));
        }
      }
    }
  }

  lemma MeaningError(input: seq<Byte>, fault: Option<int>, headers: HeaderMap)
    requires FreeLineOf(input, fault).Err?
    ensures TrailersOf(input, fault, headers) == Err(FreeLineOf(input, fault).error)
  {
    hide FreeLineOf;
  }

  lemma LeftBehind(inHand: seq<Byte>, events: seq<Event>)
    ensures Leaves(inHand + Payload(events), events)
  {
  }

  // ---------- Trailers as they are written ----------

  /** Header lines of any ending, and the line that ends them. */
  ghost predicate IsTrailerSection(lines: seq<Ended>, last: Ended, rest: seq<Byte>, fault: Option<int>) {
    && StandsBefore(last, rest, fault) && ':' !in last.text
    && (lines != [] ==>
          && StandsBefore(lines[0], Written(lines[1..]) + (Bytes(last) + rest), fault) && ':' in lines[0].text
          && IsTrailerSection(lines[1..], last, rest, fault))
  }

  lemma FreeEndedLine(line: Ended, rest: seq<Byte>, fault: Option<int>)
    requires StandsBefore(line, rest, fault)
    ensures FreeLineOf(Bytes(line) + rest, fault) == Ok(Line(line.text, rest))
  {
    hide Encode, Cut, StandsBefore;
    EndedLine(line, rest, fault, |Bytes(line) + rest|, HeadersOverflow);
  }

  lemma TrailerSectionRest(lines: seq<Ended>, last: Ended, rest: seq<Byte>, fault: Option<int>)
    requires IsTrailerSection(lines, last, rest, fault) && lines != []
    ensures IsTrailerSection(lines[1..], last, rest, fault) && ':' in lines[0].text
    ensures var tail := Written(lines[1..]) + (Bytes(last) + rest);
            && Written(lines) + (Bytes(last) + rest) == Bytes(lines[0]) + tail
            && StandsBefore(lines[0], tail, fault)
  {
    hide Bytes, StandsBefore;
  }

  /** The trailers in the bytes are the leading lines with a colon, a later duplicate replacing an earlier one. */
  lemma {:induction false} TrailersWritten(lines: seq<Ended>, last: Ended, rest: seq<Byte>, fault: Option<int>,
      headers: HeaderMap)
    requires IsTrailerSection(lines, last, rest, fault)
    ensures TrailersOf(Written(lines) + (Bytes(last) + rest), fault, headers) ==
            Ok(TrailerEnd(InsertAll(headers, Texts(lines)), Charged(lines) + Size(last) + 2, rest))
    decreases |lines|
  {
    hide FreeLineOf, Encode, ParseHeader, InsertHeader, TrailersOf, Bytes, StandsBefore, Size;
    var behind := Bytes(last) + rest;
    if lines == [] {
      assert Written(lines) + behind == behind;
      LastTrailer(last, rest, fault, headers);
    } else {
      TrailerSectionRest(lines, last, rest, fault);
      FirstTrailer(lines[0], Written(lines[1..]) + behind, fault, headers);
      TrailersWritten(lines[1..], last, rest, fault, InsertHeader(headers, lines[0].text));
      hide IsTrailerSection, Written;
      InsertTexts(lines, headers);
    }
  }

  lemma LastTrailer(last: Ended, rest: seq<Byte>, fault: Option<int>, headers: HeaderMap)
    requires StandsBefore(last, rest, fault) && ':' !in last.text
    ensures TrailersOf(Bytes(last) + rest, fault, headers) == Ok(TrailerEnd(headers, Size(last) + 2, rest))
  {
    hide FreeLineOf, ParseHeader, InsertHeader, TrailersOf, Bytes, StandsBefore;
    FreeEndedLine(last, rest, fault);
    HeaderNeedsColon(last.text);
    TrailersOfRound(Bytes(last) + rest, fault, headers, Line(last.text, rest));
  }

  /** The trailers of bytes that start with a header line, by those of the rest. */
  lemma FirstTrailer(line: Ended, tail: seq<Byte>, fault: Option<int>, headers: HeaderMap)
    requires StandsBefore(line, tail, fault) && ':' in line.text
    ensures var whole := TrailersOf(Bytes(line) + tail, fault, headers);
            var others := TrailersOf(tail, fault, InsertHeader(headers, line.text));
            && (others.Err? ==> whole == others)
            && (others.Ok? ==> whole == Ok(others.value.(cost := Size(line) + 2 + others.value.cost)))
  {
    hide FreeLineOf, ParseHeader, InsertHeader, TrailersOf, Bytes, StandsBefore;
    FreeEndedLine(line, tail, fault);
    HeaderNeedsColon(line.text);
    TrailersOfRound(Bytes(line) + tail, fault, headers, Line(line.text, tail));
  }

  /**
   So on every run without stalls over such bytes the loop succeeds if and only if the budget covers all its lines,
   the ending one included, at their text and two bytes each; it has then merged exactly the lines with a colon.
   */
  lemma TrailersMergedIff(lines: seq<Ended>, last: Ended, rest: seq<Byte>, prefix: seq<Byte>, events: seq<Event>,
      budget: Option<nat>, headers: HeaderMap)
    requires IsTrailerSection(lines, last, rest, FaultOf(events)) && NeverStalls(events)
    requires prefix + Payload(events) == Written(lines) + (Bytes(last) + rest)
    ensures var r := TrailerLoop(prefix, events, budget, headers);
            && (r.outcome == Ready(Ok(())) <==> Suffices(budget, Charged(lines) + Size(last) + 2))
            && (r.outcome == Ready(Ok(())) ==> r.headers == InsertAll(headers, Texts(lines)) && Leaves(rest, r.events))
  {
    hide TrailerLoop, TrailersOf, IsTrailerSection, Written, Bytes, Leaves, Charged, Size;
    TrailersWritten(lines, last, rest, FaultOf(events), headers);
    TrailerLoopIff(prefix, events, budget, headers);
  }

  // ---------- Which error a loop under a cap ends with ----------

  /**
   Where a loop with `left` bytes of budget stops, in the bytes: at which line, with how much of the budget, and with
   what verdict unless the limit is felt there.
   */
  datatype Stop = Stop(at: nat, left: nat, verdict: Result<(), Error>)

  ghost function StopOf(input: seq<Byte>, fault: Option<int>, left: nat): Stop
    decreases |input|
  {
    var line := FreeLineOf(input, fault);
    if line.Err? then Stop(0, left, Err(line.error))
    else
      var cost := |Encode(line.value.text)| + 2;
      if cost > left then Stop(0, left, Err(ArithmeticOverflow))
      else if ':' !in line.value.text then Stop(0, left, Ok(()))
      else
        var next := StopOf(line.value.rest, fault, left - cost);
        next.(at := |input| - |line.value.rest| + next.at)
  }

  lemma StopOfRound(input: seq<Byte>, fault: Option<int>, left: nat, line: Line)
    requires FreeLineOf(input, fault) == Ok(line) && |Encode(line.text)| + 2 <= left && ':' in line.text
    ensures |line.rest| < |input|
    ensures var next := StopOf(line.rest, fault, left - (|Encode(line.text)| + 2));
            StopOf(input, fault, left) == next.(at := |input| - |line.rest| + next.at)
  {
    hide FreeLineOf, Encode;
    FreeLineShrinks(input, fault);
  }

  lemma StopOfLast(input: seq<Byte>, fault: Option<int>, left: nat)
    requires var line := FreeLineOf(input, fault);
             line.Ok? ==> |Encode(line.value.text)| + 2 > left || ':' !in line.value.text
    ensures var line := FreeLineOf(input, fault);
            StopOf(input, fault, left) ==
            Stop(0, left, if line.Err? then Err(line.error)
                          else if |Encode(line.value.text)| + 2 > left then Err(ArithmeticOverflow)
                          else Ok(()))
  {
    hide FreeLineOf, Encode;
  }

  ghost predicate StopsAt(outcome: Poll<Result<(), Error>>, stop: Stop, felt: bool) {
    outcome == Ready(if felt then Err(HeadersOverflow) else stop.verdict)
  }

  /**
   How the loop under a cap ends, on every run without stalls: the bytes alone decide at which line, and with what
   verdict, unless a piece arrives while that line has what is left of the cap in hand and no line feed; then, and
   only then, it is the documented overflow of the headers.
   */
  lemma {:induction false} TrailerOutcome(prefix: seq<Byte>, events: seq<Event>, cap: nat, headers: HeaderMap)
    requires NeverStalls(events)
    ensures var stop := StopOf(prefix + Payload(events), FaultOf(events), cap);
            StopsAt(TrailerLoop(prefix, events, Some(cap), headers).outcome, stop,
                    Felt(prefix, events, stop.at, stop.left))
    decreases |prefix + Payload(events)|
  {
    hide PollLine, FreeLineOf, Encode, ParseHeader, InsertHeader, TrailerLoop, StopOf, Felt;
    var input, fault := prefix + Payload(events), FaultOf(events);
    LimitedLine(prefix, events, cap, HeadersOverflow);
    UnlimitedRefinesBytes(prefix, events, HeadersOverflow);
    var meaning, polled := FreeLineOf(input, fault), PollLine(prefix, events, None, HeadersOverflow);
    if Felt(prefix, events, 0, cap) {
      FeltStopsHere(prefix, events, cap);
      StopOfLast(input, fault, cap);
      TrailerError(prefix, events, Some(cap), headers, HeadersOverflow);
    } else if meaning.Err? {
      StopOfLast(input, fault, cap);
      TrailerError(prefix, events, Some(cap), headers, meaning.error);
    } else {
      var line := polled.line.value.value;
      var cost := |Encode(line.text)| + 2;
      TrailerRound(prefix, events, Some(cap), headers, line, polled.events);
      HeaderNeedsColon(line.text);
      if cost > cap || ':' !in line.text {
        StopOfLast(input, fault, cap);
      } else {
        EventsLeft(prefix, events, None, HeadersOverflow);
        StopOfRound(input, fault, cap, meaning.value);
        TrailerOutcome(line.rest, polled.events, cap - cost, InsertHeader(headers, line.text));
        var next := StopOf(line.rest + Payload(polled.events), fault, cap - cost);
        FeltAfterLine(prefix, events, line, polled.events, next.at, next.left);
      }
    }
  }

  lemma FeltStopsHere(prefix: seq<Byte>, events: seq<Event>, cap: nat)
    requires NeverStalls(events) && Felt(prefix, events, 0, cap)
    ensures var line := FreeLineOf(prefix + Payload(events), FaultOf(events));
            line.Ok? ==> |Encode(line.value.text)| + 2 > cap
  {
    hide FreeLineOf, Encode, Felt;
    var line := FreeLineOf(prefix + Payload(events), FaultOf(events));
    if line.Ok? && |Encode(line.value.text)| + 2 <= cap {
      ShortLineNotFelt(prefix, events, cap);
    }
  }

  /** Trailers that cost more than the cap stop with the subtraction, unless the limit is felt before it. */
  lemma {:induction false} BeyondCapStops(input: seq<Byte>, fault: Option<int>, cap: nat, headers: HeaderMap)
    requires TrailersOf(input, fault, headers).Ok?
    ensures StopOf(input, fault, cap).verdict ==
            if TrailersOf(input, fault, headers).value.cost > cap then Err(ArithmeticOverflow) else Ok(())
    decreases |input|
  {
    hide FreeLineOf, Encode, ParseHeader, InsertHeader, TrailersOf, StopOf;
    if FreeLineOf(input, fault).Err? {
      MeaningError(input, fault, headers);
    } else {
      var line := FreeLineOf(input, fault).value;
      var cost := |Encode(line.text)| + 2;
      TrailersOfRound(input, fault, headers, line);
      HeaderNeedsColon(line.text);
      if cost > cap || ':' !in line.text {
        StopOfLast(input, fault, cap);
      } else {
        StopOfRound(input, fault, cap, line);
        BeyondCapStops(line.rest, fault, cap - cost, InsertHeader(headers, line.text));
      }
    }
  }

  /**
   So trailers beyond the cap are reported as the documentation says if and only if the limit is felt in the line
   where they stop; otherwise the subtraction underflows.
   */
  lemma HeadersOverflowIff(prefix: seq<Byte>, events: seq<Event>, cap: nat, headers: HeaderMap)
    requires NeverStalls(events)
    requires var meaning := TrailersOf(prefix + Payload(events), FaultOf(events), headers);
             meaning.Ok? && meaning.value.cost > cap
    ensures var stop := StopOf(prefix + Payload(events), FaultOf(events), cap);
            var outcome := TrailerLoop(prefix, events, Some(cap), headers).outcome;
            && (outcome == Ready(Err(HeadersOverflow)) <==> Felt(prefix, events, stop.at, stop.left))
            && (outcome == Ready(Err(ArithmeticOverflow)) <==> !Felt(prefix, events, stop.at, stop.left))
  {
    hide TrailersOf, StopOf, Felt, TrailerLoop;
    TrailerOutcome(prefix, events, cap, headers);
    BeyondCapStops(prefix + Payload(events), FaultOf(events), cap, headers);
  }

  /** Without stalls the loop is never left waiting. */
  lemma TrailersNeverPend(prefix: seq<Byte>, events: seq<Event>, budget: Option<nat>, headers: HeaderMap)
    requires NeverStalls(events)
    ensures TrailerLoop(prefix, events, budget, headers).outcome.Ready?
  {
    hide TrailersOf, StopOf, Felt, TrailerLoop;
    if budget.Some? {
      TrailerOutcome(prefix, events, budget.value, headers);
    } else {
      TrailerLoopIff(prefix, events, budget, headers);
    }
  }

  // ---------- The two errors at one trailer ----------

  /** A CR LF trailer in hand beyond the budget is not reported as an overflow of the headers. */
  lemma TrailerInHandUnderflows(text: string, rest: seq<Byte>, events: seq<Event>, cap: nat, headers: HeaderMap)
    requires '\n' !in text && |Encode(text)| + 2 > cap
    ensures TrailerLoop(Encode(text) + [CR, LF] + rest, events, Some(cap), headers).outcome ==
            Ready(Err(ArithmeticOverflow))
  {
    hide Encode, LineOf;
    var input := Encode(text) + [CR, LF] + rest;
    LineOfPrinted(text, [CR, LF], rest, None, |input|, HeadersOverflow);
    LineInHandPolled(input, events, Some(cap), Line(text, rest));
    TrailerRound(input, events, Some(cap), headers, Line(text, rest), events);
  }

  lemma LineInHandPolled(input: seq<Byte>, events: seq<Event>, max: Option<nat>, line: Line)
    requires HasLf(input) && LineOf(input, None, |input|, HeadersOverflow) == Ok(line)
    ensures PollLine(input, events, max, HeadersOverflow) == Polled(Ready(Ok(line)), events)
  {
    hide Cut, FirstLine;
  }

  /**
   Which of the two errors a trailer beyond the cap gives depends on the cut: in one piece the subtraction
   underflows, while cut behind its text it is the overflow of the headers.
   */
  lemma TrailerErrorDependsOnCut(text: string, cap: nat, headers: HeaderMap)
    requires '\n' !in text && 0 < cap <= |Encode(text)|
    ensures TrailerLoop([], [Data(Encode(text) + [CR, LF])], Some(cap), headers).outcome ==
            Ready(Err(ArithmeticOverflow))
    ensures TrailerLoop([], [Data(Encode(text)), Data([CR, LF])], Some(cap), headers).outcome ==
            Ready(Err(HeadersOverflow))
  {
    hide Encode, LineOf, TrailerLoop, PollLine;
    TrailerInOnePiece(text, cap, headers);
    TrailerCutBehindText(text, cap, headers);
  }

  lemma TrailerInOnePiece(text: string, cap: nat, headers: HeaderMap)
    requires '\n' !in text && 0 < cap <= |Encode(text)|
    ensures TrailerLoop([], [Data(Encode(text) + [CR, LF])], Some(cap), headers).outcome ==
            Ready(Err(ArithmeticOverflow))
  {
    hide Encode, LineOf, PollLine, Cut;
    var none: seq<Byte> := [];
    var whole := Encode(text) + [CR, LF];
    OnePiecePolled(whole, [], cap);
    assert whole + none == whole && [Data(whole)] + [] == [Data(whole)];
    LineOfPrinted(text, [CR, LF], none, None, |whole|, HeadersOverflow);
    LineInHandPolled(whole, [], Some(cap), Line(text, []));
    TrailerRound([], [Data(whole)], Some(cap), headers, Line(text, []), []);
  }

  lemma TrailerCutBehindText(text: string, cap: nat, headers: HeaderMap)
    requires '\n' !in text && 0 < cap <= |Encode(text)|
    ensures TrailerLoop([], [Data(Encode(text)), Data([CR, LF])], Some(cap), headers).outcome ==
            Ready(Err(HeadersOverflow))
  {
    hide Encode;
    var none: seq<Byte> := [];
    var run := [Data(Encode(text)), Data([CR, LF])];
    assert run == [Data(Encode(text))] + [Data([CR, LF])];
    OnePiecePolled(Encode(text), [Data([CR, LF])], cap);
    AsciiByte(text, LF);
    CutIs(Encode(text), none, {LF});
    assert Encode(text) + none == Encode(text);
    TrailerError([], run, Some(cap), headers, HeadersOverflow);
  }

  lemma OnePiecePolled(bytes: seq<Byte>, events: seq<Event>, cap: nat)
    requires cap > 0
    ensures PollLine([], [Data(bytes)] + events, Some(cap), HeadersOverflow) ==
            PollLine(bytes, events, Some(cap), HeadersOverflow)
  {
    var run := [Data(bytes)] + events;
    assert run[1..] == events && [] + bytes == bytes;
  }
}

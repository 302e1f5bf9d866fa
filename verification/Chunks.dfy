/**
 What the chunked framing of src/response.rs delivers. It is not a decoder of chunked bodies (section 4.1 of
 RFC 7230): bytes behind a size line are forgotten, and a chunk of n bytes is n polls of the transport.
 */
module Chunks {
  import opened Wrappers
  import opened Scan
  import opened Text
  import opened Utf8
  import opened Transport
  import opened Lines
  import opened PolledLines
  import opened PolledLimits
  import opened Headers
  import opened Framing
  import opened Metadata
  import opened HeaderBudget
  import opened LazyState
  import opened Delivery
  import opened BodyRuns
  import opened Trailers

  /** A size line denotes its hexadecimal number, with or without a chunk extension. */
  lemma ChunkSizeParses(size: string, extension: string)
    requires size != "" && AllDigits(size, 16) && Value(size, 16) <= USIZE_MAX
    ensures ChunkSize(size) == Some(Value(size, 16))
    ensures ChunkSize(size + ";" + extension) == Some(Value(size, 16))
  {
    assert size[0] in size;
    TrimIsIdentity(size);
    CutIs(size, [], {';'});
    assert size + [] == size && size[..|size|] == size;
    CutIs(size, ";" + extension, {';'});
    var line := size + ";" + extension;
    assert line == size + (";" + extension) && line[..|size|] == size;
    hide Cut, Value, Trim;
  }

  /** A size is a hexadecimal number within 64 bits, with white space around it; behind a semicolon all is ignored. */
  lemma ChunkSizeIff(text: string, extension: string, n: nat)
    requires ';' !in text
    ensures ChunkSize(text + ";" + extension) == Some(n) <==>
            n <= 18446744073709551615 && IsPaddedNumber(text, 16, n)
    ensures text != "" ==>
              (ChunkSize(text) == Some(n) <==> n <= 18446744073709551615 && IsPaddedNumber(text, 16, n))
    ensures ChunkSize("") == Some(0)
  {
    hide Cut, Trim, IsPaddedNumber, ParseUnsigned;
    CutIs(text, [], {';'});
    assert text + [] == text && text[..|text|] == text;
    CutIs(text, ";" + extension, {';'});
    var line := text + ";" + extension;
    assert line == text + (";" + extension) && line[..|text|] == text;
    TrimmedNumberIff(text, 16, 18446744073709551615, n);
  }

  /** Any other size line ends the response with its error. */
  lemma MalformedSizeFails(l: Lazy, line: Line, events: seq<Event>, body: seq<Byte>)
    requires l.state.Chunked? && l.state.expecting && l.state.left == 0 && ReadsSizeLine(l, line, events)
    requires line.text != "" && forall n :: ChunkSize(line.text) != Some(n)
    ensures Drain(l, body).body == Err(MalformedChunkLength)
  {
    hide PollLine, TrailerLoop, ChunkSize;
    PollShrinks(l);
  }

  /** The size hints of all framings: no less than the piece, and only a declared length adds to it. */
  lemma SizeHints(l: Lazy)
    requires LazyState.Delivers(PollStep(l).item)
    ensures var piece := PollStep(l).item.value.value.value;
            && |piece.bytes| <= piece.hint <= |piece.bytes| + 16384
            && (!l.state.ContentLength? ==> piece.hint == |piece.bytes|)
  {
    hide PollLine, TrailerLoop, ChunkSize;
  }

  // ---------- The data phase ----------

  lemma ChunkDataPoll(l: Lazy)
    requires l.state.Chunked? && l.state.left > 0 && l.carried.None?
    ensures PollStep(l) == Step(PieceItem(PollResult(l.events)),
                                l.(events := AfterPoll(l.events), state := l.state.(left := l.state.left - 1)))
  {
  }

  lemma AllBytesStep(events: seq<Event>, body: seq<Byte>)
    requires events != []
    ensures var bytes := if events[0].Data? then events[0].bytes else [];
            body + AllBytes(events) == body + bytes + AllBytes(events[1..])
  {
  }

  /** The next left events, or all there are. */
  ghost function Window(l: Lazy): seq<Event>
    requires l.state.Chunked?
  {
    if |l.events| < l.state.left then l.events else l.events[..l.state.left]
  }

  /** The state behind a data phase that the transport outlasts. */
  ghost function BehindData(l: Lazy): Lazy
    requires l.state.Chunked? && l.state.left <= |l.events|
  {
    l.(events := l.events[l.state.left..], state := l.state.(left := 0))
  }

  /** How the data phase ends: a failure in the window, an early end, or the state behind it. */
  ghost predicate DataPhaseEnds(l: Lazy, body: seq<Byte>)
    requires l.state.Chunked?
  {
    var drained, window := Drain(l, body), Window(l);
    if FaultOf(window).Some? then drained.body == Err(Io(FaultOf(window).value))
    else if |l.events| < l.state.left then
      && drained.body == Ok(body + AllBytes(window))
      && drained.last.state.Chunked? && drained.last.state.expecting == l.state.expecting
    else drained == Drain(BehindData(l), body + AllBytes(window))
  }

  lemma WindowStep(l: Lazy, next: Lazy)
    requires l.state.Chunked? && l.state.left > 0 && l.events != []
    requires next == l.(events := l.events[1..], state := l.state.(left := l.state.left - 1))
    ensures Window(l) != [] && Window(l)[0] == l.events[0] && Window(l)[1..] == Window(next)
    ensures |l.events| < l.state.left <==> |next.events| < next.state.left
    ensures l.state.left <= |l.events| ==> BehindData(l) == BehindData(next)
  {
  }

  lemma DataPhaseStep(l: Lazy, next: Lazy, body: seq<Byte>, bytes: seq<Byte>)
    requires l.state.Chunked? && l.state.left > 0 && l.events != [] && !l.events[0].Fault?
    requires next == l.(events := l.events[1..], state := l.state.(left := l.state.left - 1))
    requires bytes == if l.events[0].Data? then l.events[0].bytes else []
    requires Drain(l, body) == Drain(next, body + bytes) && DataPhaseEnds(next, body + bytes)
    ensures DataPhaseEnds(l, body)
  {
    hide Drain, Window, BehindData;
    WindowStep(l, next);
    AllBytesStep(Window(l), body);
  }

  /**
   What the data phase of a chunk delivers on every run: the bytes of the next left transport events, stalls
   counted, however many bytes they hold; everything, if the transport ends before; or the failure among them.
   */
  lemma {:induction false} ChunkDataPhase(l: Lazy, body: seq<Byte>)
    requires l.state.Chunked? && l.carried.None?
    ensures DataPhaseEnds(l, body)
    decreases |l.events|
  {
    hide PollStep;
    var n, events := l.state.left, l.events;
    if n == 0 {
      assert events[..0] == [] && events[0..] == events && body + [] == body;
      assert BehindData(l) == l;
    } else {
      ChunkDataPoll(l);
      if events == [] {
        assert body + AllBytes(events) == body;
      } else if events[0].Fault? {
        WindowStep(l, PollStep(l).next);
      } else {
        var next := PollStep(l).next;
        var bytes := if events[0].Data? then events[0].bytes else [];
        assert body + [] == body;
        ChunkDataPhase(next, body + bytes);
        DataPhaseStep(l, next, body, bytes);
      }
    }
  }

  // ---------- The size line ----------

  /** The state in which the data phase of a chunk of n bytes starts. */
  ghost function AtData(l: Lazy, n: nat, events: seq<Event>): Lazy
    requires l.state.Chunked?
  {
    l.(carried := None, events := events, state := l.state.(left := n, total := l.state.total + n))
  }

  /** The line that a poll in state l reads as a size line. */
  ghost predicate ReadsSizeLine(l: Lazy, line: Line, events: seq<Event>) {
    PollLine(Carried(l), l.events, Some(1024), MalformedChunkLength) == Polled(Ready(Ok(line)), events)
  }

  /** A nonzero size starts the data phase; the bytes behind the line in the same piece never matter. */
  lemma SizeLineStartsData(l: Lazy, line: Line, events: seq<Event>, n: nat, body: seq<Byte>)
    requires l.state.Chunked? && l.state.expecting && l.state.left == 0
    requires ReadsSizeLine(l, line, events)
    requires ChunkSize(line.text) == Some(n) && 0 < n && l.state.total + n <= USIZE_MAX
    ensures PollStep(l) == PollStep(AtData(l, n, events))
    ensures Drain(l, body) == Drain(AtData(l, n, events), body)
  {
    hide PollLine, ChunkSize, TrailerLoop;
    ChunkDataPoll(AtData(l, n, events));
  }

  /** Sizes that add up beyond 64 bits end the response instead. */
  lemma TotalOverflows(l: Lazy, line: Line, events: seq<Event>, n: nat, body: seq<Byte>)
    requires l.state.Chunked? && l.state.expecting && l.state.left == 0
    requires ReadsSizeLine(l, line, events) && ChunkSize(line.text) == Some(n) && 0 < n
    requires l.state.total + n > 18446744073709551615
    ensures Drain(l, body).body == Err(ArithmeticOverflow)
  {
    hide PollLine, ChunkSize, TrailerLoop;
    PollShrinks(l);
  }

  // ---------- The end of the body ----------

  /** No further chunk: the polls from here deliver nothing, and complete the response with its total. */
  ghost predicate Ends(l: Lazy)
    requires l.state.Chunked?
    decreases Fuel(l)
  {
    PollShrinks(l);
    var s := PollStep(l);
    if s.item.Pending? then s.next.state == l.state && Ends(s.next)
    else s.item == Ready(None) && s.next.state == Chunked(false, 0, l.state.total)
  }

  /** The response is complete and says so: its body, its length and the coding gone. */
  ghost predicate DeliversWhole(l: Lazy, data: seq<Byte>) {
    Drain(l, []).body == Ok(data) && Completed(Drain(l, []).last, |data|)
  }

  lemma {:induction false} EndsDrains(l: Lazy, body: seq<Byte>)
    requires l.state.Chunked? && l.state.expecting && Ends(l)
    ensures Drain(l, body).body == Ok(body) && Completed(Drain(l, body).last, l.state.total)
    decreases Fuel(l)
  {
    PollShrinks(l);
    ChunkedPoll(l);
    hide PollStep, Completed;
    if PollStep(l).item.Pending? {
      EndsDrains(PollStep(l).next, body);
    }
  }

  /** One poll from a state between chunks. */
  lemma BetweenChunks(l: Lazy)
    requires l.state.Chunked? && l.state.expecting && l.state.left == 0
    ensures var s := PollStep(l);
            && s.next.state.Chunked? && s.next.state.total >= l.state.total
            && (LazyState.Delivers(s.item) ==> s.next.state.total > l.state.total)
            && (s.item.Pending? && s.next.state.total == l.state.total ==> s.next.state == l.state)
  {
    hide PollLine, TrailerLoop, ChunkSize;
  }

  lemma TotalGrows(l: Lazy)
    requires l.state.Chunked?
    ensures PollStep(l).next.state.Chunked? && PollStep(l).next.state.total >= l.state.total
  {
    hide PollLine, TrailerLoop, ChunkSize;
  }

  lemma {:induction false} DrainKeepsTotal(l: Lazy, body: seq<Byte>)
    requires l.state.Chunked?
    ensures Drain(l, body).last.state.Chunked? && Drain(l, body).last.state.total >= l.state.total
    ensures Drain(l, body).body.Ok? ==> body <= Drain(l, body).body.value
    decreases Fuel(l)
  {
    PollShrinks(l);
    TotalGrows(l);
    hide PollStep;
    var s := PollStep(l);
    if s.item.Pending? {
      DrainKeepsTotal(s.next, body);
    } else if LazyState.Delivers(s.item) {
      DrainKeepsTotal(s.next, body + s.item.value.value.value.bytes);
    }
  }

  /** Conversely, a drain that completes without another chunk has delivered nothing more. */
  lemma {:induction false} DrainEnds(l: Lazy, body: seq<Byte>)
    requires l.state.Chunked? && l.state.expecting && l.state.left == 0
    requires Drain(l, body).body.Ok? && Drain(l, body).last.state == Chunked(false, 0, l.state.total)
    ensures Ends(l) && Drain(l, body).body == Ok(body)
    decreases Fuel(l)
  {
    PollShrinks(l);
    BetweenChunks(l);
    hide PollStep;
    var s := PollStep(l);
    if s.item.Pending? {
      DrainKeepsTotal(s.next, body);
      DrainEnds(s.next, body);
    } else if LazyState.Delivers(s.item) {
      DrainKeepsTotal(s.next, body + s.item.value.value.value.bytes);
    }
  }

  // ---------- The end of the body in the bytes ----------

  /** These bytes end a body: a size line of zero, which an empty line is too, and trailers that the budget covers. */
  ghost predicate EndsBody(input: seq<Byte>, fault: Option<int>, budget: Option<nat>, headers: HeaderMap) {
    var line := FreeLineOf(input, fault);
    && line.Ok? && ChunkSize(line.value.text) == Some(0)
    && var trailers := TrailersOf(line.value.rest, fault, headers);
    && trailers.Ok? && Suffices(budget, trailers.value.cost)
  }

  lemma EndsAtLine(l: Lazy, line: Line, after: seq<Event>)
    requires l.state.Chunked? && l.state.expecting && l.state.left == 0 && ReadsSizeLine(l, line, after)
    requires NeverStalls(after) && TrailerLoop(line.rest, after, l.maxTrailing, l.headers).outcome.Ready?
    ensures Ends(l) <==>
            ChunkSize(line.text) == Some(0) &&
            TrailerLoop(line.rest, after, l.maxTrailing, l.headers).outcome == Ready(Ok(()))
  {
    hide PollStep, PollLine, TrailerLoop, ChunkSize;
    PollShrinks(l);
    if ChunkSize(line.text) == Some(0) {
      ZeroSizePoll(l, line, after);
      match TrailerLoop(line.rest, after, l.maxTrailing, l.headers).outcome {
        case Ready(Err(_)) =>
        case Ready(Ok(unit)) => assert unit == ();
      }
    } else {
      NonzeroSizePoll(l, line, after);
    }
  }

  lemma ZeroSizePoll(l: Lazy, line: Line, after: seq<Event>)
    requires l.state.Chunked? && l.state.expecting && l.state.left == 0 && ReadsSizeLine(l, line, after)
    requires ChunkSize(line.text) == Some(0)
    ensures PollStep(l) == LastChunkStep(line.rest, l.(carried := None, events := after))
  {
    hide PollLine, TrailerLoop, ChunkSize;
  }

  /** Any other line keeps the response waiting for chunks, or fails. */
  lemma NonzeroSizePoll(l: Lazy, line: Line, after: seq<Event>)
    requires l.state.Chunked? && l.state.expecting && l.state.left == 0 && ReadsSizeLine(l, line, after)
    requires ChunkSize(line.text) != Some(0) && NeverStalls(after)
    ensures !PollStep(l).item.Pending?
    ensures PollStep(l).item == Ready(None) ==> PollStep(l).next.state != Chunked(false, 0, l.state.total)
  {
    hide PollLine, TrailerLoop, ChunkSize;
    assert after != [] ==> after[0] in after;
  }

  lemma NoEndAtError(l: Lazy, e: Error)
    requires l.state.Chunked? && l.state.expecting && l.state.left == 0
    requires PollLine(Carried(l), l.events, Some(1024), MalformedChunkLength).line == Ready(Err(e))
    ensures !Ends(l)
  {
    hide PollLine, TrailerLoop, ChunkSize;
  }

  /** Without stalls a body ends exactly where its bytes do and the limit of the size line is not felt. */
  lemma EndsIff(l: Lazy)
    requires l.state.Chunked? && l.state.expecting && l.state.left == 0 && NeverStalls(l.events)
    ensures Ends(l) <==>
            !Felt(Carried(l), l.events, 0, 1024) &&
            EndsBody(Carried(l) + Payload(l.events), FaultOf(l.events), l.maxTrailing, l.headers)
  {
    hide PollLine, TrailerLoop, TrailersOf, ChunkSize, FreeLineOf, Felt, Ends;
    LimitedLine(Carried(l), l.events, 1024, MalformedChunkLength);
    UnlimitedRefinesBytes(Carried(l), l.events, MalformedChunkLength);
    var polled := PollLine(Carried(l), l.events, None, MalformedChunkLength);
    if Felt(Carried(l), l.events, 0, 1024) {
      NoEndAtError(l, MalformedChunkLength);
    } else if polled.line.value.Err? {
      NoEndAtError(l, polled.line.value.error);
    } else {
      var line := polled.line.value.value;
      EventsLeft(Carried(l), l.events, None, MalformedChunkLength);
      TrailersNeverPend(line.rest, polled.events, l.maxTrailing, l.headers);
      TrailerLoopIff(line.rest, polled.events, l.maxTrailing, l.headers);
      EndsAtLine(l, line, polled.events);
    }
  }

  /**
   The header map that a body ended by these bytes leaves to be finished: the one before, with the trailers merged.
   */
  ghost function Merged(input: seq<Byte>, fault: Option<int>, headers: HeaderMap): HeaderMap {
    var line := FreeLineOf(input, fault);
    if line.Err? || TrailersOf(line.value.rest, fault, headers).Err? then headers
    else TrailersOf(line.value.rest, fault, headers).value.headers
  }

  /**
   The headers of a complete response: the total as content-length, no transfer-encoding, and every other header exactly
   as in the map with the trailers merged.
   */
  ghost predicate Finished(final: HeaderMap, merged: HeaderMap, total: nat) {
    && (forall k :: k in final <==> k == "content-length" || (k in merged && k != "transfer-encoding"))
    && (forall k | k in final && k != "content-length" :: final[k] == merged[k])
    && final["content-length"] == Decimal(total)
  }

  /** Where a body ends, its headers are finished and its trailers merged. */
  lemma EndFinishes(l: Lazy, body: seq<Byte>)
    requires l.state.Chunked? && l.state.expecting && l.state.left == 0 && NeverStalls(l.events) && Ends(l)
    ensures Finished(Drain(l, body).last.headers,
                     Merged(Carried(l) + Payload(l.events), FaultOf(l.events), l.headers), l.state.total)
  {
    hide PollLine, TrailerLoop, TrailersOf, ChunkSize, FreeLineOf, Felt, Ends, Drain, Finished, PollStep, Decimal;
    EndsIff(l);
    LimitedLine(Carried(l), l.events, 1024, MalformedChunkLength);
    UnlimitedRefinesBytes(Carried(l), l.events, MalformedChunkLength);
    var polled := PollLine(Carried(l), l.events, None, MalformedChunkLength);
    var line := polled.line.value.value;
    EventsLeft(Carried(l), l.events, None, MalformedChunkLength);
    TrailerLoopIff(line.rest, polled.events, l.maxTrailing, l.headers);
    ZeroSizePoll(l, line, polled.events);
    FinishedByPoll(l, body, line.rest, l.(carried := None, events := polled.events));
  }

  lemma FinishedByPoll(l: Lazy, body: seq<Byte>, prefix: seq<Byte>, after: Lazy)
    requires after.state.Chunked? && PollStep(l) == LastChunkStep(prefix, after)
    requires TrailerLoop(prefix, after.events, after.maxTrailing, after.headers).outcome == Ready(Ok(()))
    ensures Finished(Drain(l, body).last.headers,
                     TrailerLoop(prefix, after.events, after.maxTrailing, after.headers).headers, after.state.total)
  {
    hide PollStep, TrailerLoop, Decimal;
    PollShrinks(l);
  }

  /** In one piece no limit is felt. */
  lemma OnePieceNotFelt(bytes: seq<Byte>, max: nat)
    requires max > 0
    ensures !Felt([], [Data(bytes)], 0, max)
  {
    assert [Data(bytes)][1..] == [];
  }

  // ---------- Exactly when a chunk is delivered ----------

  /** As many transport events as bytes, whatever each of them holds, and together they carry exactly the data. */
  ghost predicate EventsCarry(events: seq<Event>, data: seq<Byte>) {
    |data| <= |events| && FaultOf(events[..|data|]) == None && AllBytes(events[..|data|]) == data
  }

  lemma DataDeliveredIff(l: Lazy, data: seq<Byte>)
    requires l.state == Chunked(true, |data|, |data|) && l.carried.None?
    ensures DeliversWhole(l, data) <==> EventsCarry(l.events, data) && Ends(BehindData(l))
  {
    hide Drain, Ends, PollStep, Decimal;
    ChunkDataPhase(l, []);
    var none: seq<Byte> := [];
    assert none + AllBytes(Window(l)) == AllBytes(Window(l));
    if FaultOf(Window(l)).None? && |data| <= |l.events| {
      var behind := BehindData(l);
      if Ends(behind) {
        EndsDrains(behind, AllBytes(Window(l)));
      }
      if DeliversWhole(l, data) {
        DrainEnds(behind, AllBytes(Window(l)));
      }
    }
  }

  /** What comes behind the events of a chunk ends the body. */
  ghost predicate EndsBehind(events: seq<Event>, budget: Option<nat>, headers: HeaderMap) {
    && !Felt([], events, 0, 1024)
    && EndsBody(Payload(events), FaultOf(events), budget, headers)
  }

  /**
   A first chunk alone is delivered whole, as the complete body with its length in the headers, if and only if behind
   its size line the transport makes as many events as the chunk has bytes, these carry exactly the data, and what
   follows them, without stalls, ends the body.
   */
  lemma OneChunkDeliveredIff(l: Lazy, line: Line, events: seq<Event>, data: seq<Byte>)
    requires l.state == Chunked(true, 0, 0) && ReadsSizeLine(l, line, events)
    requires ChunkSize(line.text) == Some(|data|) && 0 < |data| <= USIZE_MAX
    requires |data| <= |events| ==> NeverStalls(events[|data|..])
    ensures DeliversWhole(l, data) <==>
            EventsCarry(events, data) && EndsBehind(events[|data|..], l.maxTrailing, l.headers)
    ensures DeliversWhole(l, data) ==>
              var behind := events[|data|..];
              Finished(Drain(l, []).last.headers, Merged(Payload(behind), FaultOf(behind), l.headers), |data|)
  {
    hide ReadsSizeLine, ChunkSize, Drain, Completed, Ends, EndsBody, Felt, AllBytes, FaultOf, Finished, Merged, Payload;
    SizeLineStartsData(l, line, events, |data|, []);
    var at := AtData(l, |data|, events);
    DataDeliveredIff(at, data);
    if |data| <= |events| {
      var behind := BehindData(at);
      var none: seq<Byte> := [];
      assert none + Payload(behind.events) == Payload(behind.events);
      EndsIff(behind);
      if DeliversWhole(at, data) {
        assert none + AllBytes(Window(at)) == data;
        ChunkDataPhase(at, []);
        EndFinishes(behind, data);
      }
    }
  }

  // ---------- What ends a body ----------

  lemma EncodeEmpty()
    ensures Encode("") == []
  {
  }

  /** An empty line and then a line without colon end every body, within the trailer budget for that line. */
  lemma BlankEndsBodyIff(next: Ended, more: seq<Byte>, budget: Option<nat>, headers: HeaderMap)
    requires IsEnded(next) && ':' !in next.text && (next.ending == [] ==> more == [])
    ensures EndsBody([CR, LF] + (Bytes(next) + more), None, budget, headers) <==> Suffices(budget, Size(next) + 2)
    ensures Merged([CR, LF] + (Bytes(next) + more), None, headers) == headers
  {
    hide FreeLineOf, TrailersOf, Encode, Cut;
    var blank := Ended("", [CR, LF]);
    EncodeEmpty();
    assert Bytes(blank) == [CR, LF];
    FreeEndedLine(blank, Bytes(next) + more, None);
    LastTrailer(next, more, None, headers);
  }

  /** What follows the data of the last chunk: its line end, the zero size and the empty trailer section. */
  function ChunkTail(): seq<Byte> {
    [CR, LF] + ((Encode("0") + [CR, LF]) + [CR, LF])
  }

  /** The zero in such a tail is read as a trailer line without a colon, which costs three bytes of the budget. */
  lemma TailEndsBodyIff(budget: Option<nat>, headers: HeaderMap)
    ensures EndsBody(ChunkTail(), None, budget, headers) <==> Suffices(budget, 3)
    ensures Merged(ChunkTail(), None, headers) == headers
  {
    hide EndsBody, Merged;
    var zero := Ended("0", [CR, LF]);
    assert Size(zero) == 1 by {
      assert Encode("0") == EncodeChar('0') + Encode("");
    }
    BlankEndsBodyIff(zero, [CR, LF], budget, headers);
  }

  /**
   A one-chunk body in wire form is delivered whole when its size line ends its piece, the data comes in as many events
   as it has bytes, and the tail follows without stalls and within the trailer budget.
   */
  lemma OneChunkDelivered(l: Lazy, line: Line, data: seq<Byte>, pieces: seq<Event>, tail: seq<Event>)
    requires l.state == Chunked(true, 0, 0) && ReadsSizeLine(l, line, pieces + tail)
    requires ChunkSize(line.text) == Some(|data|) && 0 < |data| <= USIZE_MAX
    requires |pieces| == |data| && FaultOf(pieces) == None && AllBytes(pieces) == data
    requires NeverStalls(tail) && FaultOf(tail) == None && Payload(tail) == ChunkTail() && Suffices(l.maxTrailing, 3)
    ensures DeliversWhole(l, data) && Finished(Drain(l, []).last.headers, l.headers, |data|)
  {
    hide ReadsSizeLine, ChunkSize, DeliversWhole, Encode, EndsBody, Felt, Finished, Drain, Merged;
    TailEndsBodyIff(l.maxTrailing, l.headers);
    BlankNotFelt(tail, (Encode("0") + [CR, LF]) + [CR, LF]);
    BehindPieces(pieces, tail);
    OneChunkDeliveredIff(l, line, pieces + tail, data);
  }

  lemma BehindPieces(pieces: seq<Event>, tail: seq<Event>)
    ensures (pieces + tail)[..|pieces|] == pieces && (pieces + tail)[|pieces|..] == tail
  {
  }

  /** An empty line is too short to feel the limit. */
  lemma BlankNotFelt(events: seq<Event>, rest: seq<Byte>)
    requires NeverStalls(events) && FaultOf(events) == None && Payload(events) == [CR, LF] + rest
    ensures !Felt([], events, 0, 1024)
  {
    hide Felt, FreeLineOf, Cut;
    var blank := Ended("", [CR, LF]);
    var none: seq<Byte> := [];
    assert Bytes(blank) + rest == [CR, LF] + rest && none + Payload(events) == Payload(events);
    FreeEndedLine(blank, rest, None);
    ShortLineNotFelt([], events, 1024);
  }

  /**
   Of several chunks only the first is delivered: where its events carry exactly its data, the line end behind them is
   taken for the last chunk and the next size line for the last trailer. The body is then complete, without an error
   and with the first length in the headers, if and only if the trailer budget covers that line.
   */
  lemma SeveralChunksTruncated(l: Lazy, line: Line, data: seq<Byte>, pieces: seq<Event>, tail: seq<Event>, next: Ended,
      more: seq<Byte>)
    requires l.state == Chunked(true, 0, 0) && ReadsSizeLine(l, line, pieces + tail)
    requires ChunkSize(line.text) == Some(|data|) && 0 < |data| <= USIZE_MAX
    requires |pieces| == |data| && FaultOf(pieces) == None && AllBytes(pieces) == data
    requires NeverStalls(tail) && FaultOf(tail) == None && Payload(tail) == [CR, LF] + (Bytes(next) + more)
    requires IsEnded(next) && ':' !in next.text && (next.ending == [] ==> more == [])
    ensures DeliversWhole(l, data) <==> Suffices(l.maxTrailing, Size(next) + 2)
    ensures DeliversWhole(l, data) ==> Finished(Drain(l, []).last.headers, l.headers, |data|)
  {
    hide ReadsSizeLine, ChunkSize, DeliversWhole, EndsBody, Felt, Bytes, Size, Finished, Drain, Merged;
    BlankEndsBodyIff(next, more, l.maxTrailing, l.headers);
    BlankNotFelt(tail, Bytes(next) + more);
    BehindPieces(pieces, tail);
    OneChunkDeliveredIff(l, line, pieces + tail, data);
  }

  // ---------- The body that is lost ----------

  /** A terminated line that announces a chunk of n bytes. */
  ghost predicate Announces(line: Ended, n: nat) {
    IsEnded(line) && line.ending != [] && ChunkSize(line.text) == Some(n) && 0 < n <= USIZE_MAX
  }

  /** Every hexadecimal size in the range of usize, with any extension or none, announces its chunk. */
  lemma SizeAnnounces(size: string, extension: string)
    requires size != "" && AllDigits(size, 16) && 0 < Value(size, 16) <= USIZE_MAX && '\n' !in extension
    ensures Announces(Ended(size, [CR, LF]), Value(size, 16))
    ensures Announces(Ended(size + ";" + extension, [CR, LF]), Value(size, 16))
  {
    assert '\n' !in size;
    ChunkSizeParses(size, extension);
    hide ChunkSize, Value, AllDigits;
  }

  lemma FiveAnnounces()
    ensures Announces(Ended("5", [CR, LF]), 5)
  {
    assert "5"[..0] == "" && Digit('5', 16) == Some(5) && Value("5", 16) == 5;
    SizeAnnounces("5", "");
    hide ChunkSize, AllDigits;
  }

  lemma SizeLineInHand(l: Lazy, line: Ended, rest: seq<Byte>)
    requires IsEnded(line) && line.ending != [] && l.carried == Some(Bytes(line) + rest)
    ensures ReadsSizeLine(l, Line(line.text, rest), l.events)
  {
    hide Encode, LineOf, Cut;
    FreeEndedLine(line, rest, None);
    LineOfPrinted(line.text, line.ending, rest, None, 0, HeadersOverflow);
  }

  lemma SizeLineInPiece(l: Lazy, line: Ended, rest: seq<Byte>)
    requires IsEnded(line) && line.ending != [] && Carried(l) == [] && l.events == [Data(Bytes(line) + rest)]
    ensures ReadsSizeLine(l, Line(line.text, rest), [])
  {
    var input := Bytes(line) + rest;
    SizeLineInHand(l.(carried := Some(input), events := []), line, rest);
    assert l.events[1..] == [] && [] + input == input;
    hide Bytes;
  }

  /** Whatever comes in the same piece as the first size line is forgotten, be it any number of whole chunks. */
  lemma ChunkedBodyLost(l: Lazy, line: Ended, n: nat, rest: seq<Byte>)
    requires l.state == Chunked(true, 0, 0) && Announces(line, n)
    requires (l.carried == Some(Bytes(line) + rest) && l.events == []) ||
             (Carried(l) == [] && l.events == [Data(Bytes(line) + rest)])
    ensures Drain(l, []).body == Ok([])
  {
    hide Bytes, ChunkSize, Drain, ReadsSizeLine, IsEnded;
    if l.events == [] {
      SizeLineInHand(l, line, rest);
    } else {
      SizeLineInPiece(l, line, rest);
    }
    SizeLineStartsData(l, Line(line.text, rest), [], n, []);
    var at := AtData(l, n, []);
    ChunkDataPhase(at, []);
    assert Window(at) == [] && FaultOf(Window(at)) == None && [] + AllBytes(Window(at)) == [];
  }

  /** Cut behind its size line, the rest of the piece is the first thing delivered. */
  lemma RestDelivered(l: Lazy, line: Ended, n: nat, rest: seq<Byte>)
    requires l.state == Chunked(true, 0, 0) && Announces(line, n) && rest != []
    requires l.carried == Some(Bytes(line)) && l.events == [Data(rest)]
    ensures Drain(l, []).body != Ok([])
  {
    hide Bytes, ChunkSize, Drain, ReadsSizeLine, IsEnded;
    assert Bytes(line) + [] == Bytes(line);
    SizeLineInHand(l, line, []);
    SizeLineStartsData(l, Line(line.text, []), l.events, n, []);
    var at := AtData(l, n, l.events);
    ChunkDataPhase(at, []);
    OnePieceBytes(rest);
    assert Window(at) == [Data(rest)] && [] + rest == rest;
    if n == 1 {
      DrainKeepsTotal(BehindData(at), rest);
    }
  }

  lemma OnePieceBytes(a: seq<Byte>)
    ensures FaultOf([Data(a)]) == None && AllBytes([Data(a)]) == a
  {
    assert [Data(a)][1..] == [];
  }

  // ---------- Chunked payloads depend on the cut ----------

  /** A payload with a chunked body that is read, and starts with this size line. */
  ghost predicate StartsChunk(input: seq<Byte>, limits: Limits, order: HashOrder, m: Metadata, line: Ended, n: nat,
      tail: seq<Byte>)
    requires IsHashOrder(order)
  {
    && MetadataOf(input, None, limits, order) == Ok(m)
    && m.status != 204 && m.status != 304 && m.framing == Chunked(true, 0, 0)
    && Announces(line, n) && m.head.rest == Bytes(line) + tail
  }

  /** An empty body, and no error. */
  ghost predicate IsLost(r: Result<Response, Error>) {
    r.Ok? && r.value.body == []
  }

  lemma LostInOnePiece(input: seq<Byte>, limits: Limits, order: HashOrder, m: Metadata, line: Ended, n: nat,
      tail: seq<Byte>)
    requires IsHashOrder(order) && StartsChunk(input, limits, order, m, line, n, tail)
    ensures IsLost(ReceiveOf([Data(input)], limits, order, false))
  {
    hide ReadingOf, MetadataOf, Drain, Bytes, Announces, CreateOf, LazyFrom;
    ReadingOnePiece(input, None, limits, order);
    assert [Data(input)] + Ending(None) == [Data(input)];
    TerminatedNonEmpty(line, tail);
    var l := Lazy(m.head.headers, Chunked(true, 0, 0), m.head.budget, Some(Bytes(line) + tail), []);
    LazyOfRest(m, []);
    ChunkedBodyLost(l, line, n, tail);
    EmptyCreate(m, l);
  }

  lemma TerminatedNonEmpty(line: Ended, tail: seq<Byte>)
    requires exists n :: Announces(line, n)
    ensures Bytes(line) + tail != []
  {
  }

  lemma LazyOfRest(m: Metadata, events: seq<Event>)
    requires m.head.rest != []
    ensures LazyFrom(m, events) == Lazy(m.head.headers, m.framing, m.head.budget, Some(m.head.rest), events)
  {
  }

  lemma EmptyCreate(m: Metadata, l: Lazy)
    requires m.status != 204 && m.status != 304 && Drain(l, []).body == Ok([])
    ensures IsLost(CreateOf(m.status, m.reason, "", l, false))
  {
    hide Drain;
  }

  /** The reading of a payload whose first piece ends with the size line. */
  lemma CutBehindSizeLine(input: seq<Byte>, limits: Limits, order: HashOrder, m: Metadata, line: Ended, n: nat,
      tail: seq<Byte>, events: seq<Event>)
    requires IsHashOrder(order) && StartsChunk(input, limits, order, m, line, n, tail) && tail != []
    ensures |tail| <= |input| && Before(input, tail) + tail == input
    ensures var l := LazyFrom(m.(head := Head(m.head.headers, m.head.budget, Bytes(line))), events);
            && l == Lazy(m.head.headers, Chunked(true, 0, 0), m.head.budget, Some(Bytes(line)), events)
            && ReceiveOf([Data(Before(input, tail))] + events, limits, order, false) ==
               CreateOf(m.status, m.reason, "", l, false)
  {
    hide ReadingOf, MetadataOf, CreateOf, ChunkSize, IsEnded, Encode;
    MetadataLeavesTail(input, None, limits, order);
    assert Before(input, tail) + tail == input;
    ReadingInHand(Before(input, tail), tail, events, None, limits, order);
    assert Before(m.head.rest, tail) == Bytes(line);
  }

  lemma RestOfPayload(input: seq<Byte>, limits: Limits, order: HashOrder, m: Metadata, line: Ended, n: nat,
      tail: seq<Byte>)
    requires IsHashOrder(order) && StartsChunk(input, limits, order, m, line, n, tail) && tail != []
    ensures |tail| <= |input|
    ensures !IsLost(ReceiveOf([Data(Before(input, tail)), Data(tail)], limits, order, false))
  {
    hide MetadataOf, ReceiveOf, LazyFrom, Before, Bytes, Announces, Drain;
    CutBehindSizeLine(input, limits, order, m, line, n, tail, [Data(tail)]);
    assert [Data(Before(input, tail))] + [Data(tail)] == [Data(Before(input, tail)), Data(tail)];
    var l := Lazy(m.head.headers, Chunked(true, 0, 0), m.head.budget, Some(Bytes(line)), [Data(tail)]);
    RestDelivered(l, line, n, tail);
  }

  /**
   The result of every chunked payload with a first chunk and anything behind its size line depends on the cut,
   however many chunks, extensions and trailers it has: in one piece the body is lost without an error, while cut
   behind the size line it is not.
   */
  lemma ChunkedDependsOnCut(input: seq<Byte>, limits: Limits, order: HashOrder, m: Metadata, line: Ended, n: nat,
      tail: seq<Byte>)
    requires IsHashOrder(order) && StartsChunk(input, limits, order, m, line, n, tail) && tail != []
    ensures |tail| <= |input|
    ensures var run1, run2 := [Data(input)], [Data(Before(input, tail)), Data(tail)];
            && CarriesExactly(run1, input) && CarriesExactly(run2, input)
            && IsLost(ReceiveOf(run1, limits, order, false))
            && !IsLost(ReceiveOf(run2, limits, order, false))
    ensures !CutIrrelevant(input, None, limits, order, false)
  {
    hide StartsChunk, ReceiveOf, CutIrrelevant, Carries, IsLost, Before;
    LostInOnePiece(input, limits, order, m, line, n, tail);
    RestOfPayload(input, limits, order, m, line, n, tail);
    CutBehindSizeLine(input, limits, order, m, line, n, tail, []);
    OnePiece(input, None);
    TwoPieces(Before(input, tail), tail, None);
    TwoResults(input, limits, order, [Data(input)], [Data(Before(input, tail)), Data(tail)]);
  }

  lemma TwoResults(input: seq<Byte>, limits: Limits, order: HashOrder, run1: seq<Event>, run2: seq<Event>)
    requires IsHashOrder(order) && CarriesExactly(run1, input) && CarriesExactly(run2, input)
    requires ReceiveOf(run1, limits, order, false) != ReceiveOf(run2, limits, order, false)
    ensures !CutIrrelevant(input, None, limits, order, false)
  {
    hide ReceiveOf, Carries;
  }

  // ---------- A size line and nothing behind it ----------

  /** The text of the line, a stall, and then its ending, if it has one: the polled reader forgets the text. */
  ghost function StalledLine(line: Ended): seq<Event> {
    [Data(Encode(line.text)), Stall] + if line.ending == [] then [] else [Data(line.ending)]
  }

  lemma StalledLineCarries(a: seq<Byte>, line: Ended)
    ensures CarriesExactly([Data(a)] + StalledLine(line), a + Bytes(line))
  {
    hide Encode;
    var text, last := [Data(Encode(line.text)), Stall], if line.ending == [] then [] else [Data(line.ending)];
    assert text[1..] == [Stall] && [Stall][1..] == [];
    assert AllBytes([Stall]) == [] && FaultOf([Stall]) == None;
    assert FaultOf(text) == None && AllBytes(text) == Encode(line.text);
    OnePiece(line.ending, None);
    PayloadAppend(text, last);
    PayloadAppend([Data(a)], StalledLine(line));
    OnePieceBytes(a);
  }

  lemma StallForgetsSize(l: Lazy, line: Ended)
    requires l.state == Chunked(true, 0, 0) && l.carried.None? && l.events == StalledLine(line) && IsEnded(line)
    ensures var last := if line.ending == [] then [] else [Data(line.ending)];
            PollStep(l) == Step(Pending, l.(events := last))
  {
    hide Encode, TrailerLoop, ChunkSize, HasLf;
    var behind, none: seq<Byte> := l.events[1..], [];
    TextHoldsNoLf(line.text);
    assert behind != [] && behind[0] == Stall && behind[1..] == if line.ending == [] then [] else [Data(line.ending)];
    assert none + Encode(line.text) == Encode(line.text);
    assert PollLine(Encode(line.text), behind, Some(1024), MalformedChunkLength) ==
           Polled(Pending, behind[1..]);
    assert l.events[0] == Data(Encode(line.text));
  }

  lemma TextHoldsNoLf(text: string)
    requires '\n' !in text
    ensures !HasLf(Encode(text)) && !HasLf([])
  {
    AsciiByte(text, LF);
    CutIs(Encode(text), [], {LF});
    assert Encode(text) + [] == Encode(text);
  }

  /** An ending alone ends the body, if at all, and the transfer coding goes. */
  lemma EndingEndsBody(l: Lazy, line: Ended)
    requires l.state == Chunked(true, 0, 0) && l.carried.None? && IsEnded(line)
    requires l.events == if line.ending == [] then [] else [Data(line.ending)]
    ensures Drain(l, []).body.Ok? ==> "transfer-encoding" !in Drain(l, []).last.headers
  {
    hide TrailerLoop, PollLine, FreeLineOf, Cut, FinalHeaders;
    var blank := Ended("", line.ending);
    var none: seq<Byte> := [];
    EncodeEmpty();
    OnePiece(line.ending, None);
    assert Bytes(blank) + none == line.ending && none + Payload(l.events) == line.ending;
    FreeEndedLine(blank, none, None);
    UnlimitedRefinesBytes([], l.events, MalformedChunkLength);
    LimitSuffices([], l.events, 1024, MalformedChunkLength);
    EventsLeft([], l.events, None, MalformedChunkLength);
    var polled := PollLine([], l.events, Some(1024), MalformedChunkLength);
    ZeroSizePoll(l, polled.line.value.value, polled.events);
    TrailersNeverPend(polled.line.value.value.rest, polled.events, l.maxTrailing, l.headers);
    LastPollDrains(l, polled.line.value.value.rest, l.(events := polled.events));
  }

  lemma LastPollDrains(l: Lazy, prefix: seq<Byte>, after: Lazy)
    requires after.state == Chunked(true, 0, 0)
    requires PollStep(l) == LastChunkStep(prefix, after)
    requires TrailerLoop(prefix, after.events, after.maxTrailing, after.headers).outcome.Ready?
    ensures Drain(l, []).body.Ok? ==> "transfer-encoding" !in Drain(l, []).last.headers
  {
    hide PollStep, TrailerLoop;
    PollShrinks(l);
  }

  lemma LoneSizeLineInPiece(l: Lazy, line: Ended, n: nat)
    requires l.state == Chunked(true, 0, 0) && IsEnded(line) && l.carried == Some(Bytes(line)) && l.events == []
    requires ChunkSize(line.text) == Some(n) && 0 < n <= USIZE_MAX
    ensures Drain(l, []) == Drained(Ok([]), AtData(l, n - 1, []).(state := Chunked(true, n - 1, n)))
  {
    hide Encode, ChunkSize, TrailerLoop, Cut, ReadsSizeLine;
    LoneLineRead(l, line);
    SizeLineStartsData(l, Line(line.text, []), [], n, []);
    ChunkDataPoll(AtData(l, n, []));
    hide PollStep;
  }

  lemma LoneLineRead(l: Lazy, line: Ended)
    requires IsEnded(line) && l.carried == Some(Bytes(line)) && l.events == []
    ensures ReadsSizeLine(l, Line(line.text, []), [])
  {
    hide Encode, Cut;
    var none: seq<Byte> := [];
    assert Bytes(line) + none == Bytes(line);
    FreeEndedLine(line, none, None);
    if line.ending == [] {
      TextHoldsNoLf(line.text);
    } else {
      SizeLineInHand(l, line, none);
    }
  }

  lemma StalledLineCompletes(l: Lazy, line: Ended)
    requires l.state == Chunked(true, 0, 0) && l.carried.None? && l.events == StalledLine(line) && IsEnded(line)
    ensures Drain(l, []).body.Ok? ==> "transfer-encoding" !in Drain(l, []).last.headers
  {
    hide PollStep;
    PollShrinks(l);
    StallForgetsSize(l, line);
    EndingEndsBody(PollStep(l).next, line);
  }

  lemma SizeLineNonEmpty(line: Ended, n: nat)
    requires ChunkSize(line.text) == Some(n) && 0 < n
    ensures Bytes(line) != []
  {
    EncodedNonEmpty(line.text);
  }

  /**
   So does the result of a payload with nothing behind the size line of its first chunk: in one piece the coding stays
   in the headers, while with a stall in front of the line's ending it goes, or the trailer budget fails.
   */
  lemma LoneSizeLineDependsOnCut(input: seq<Byte>, limits: Limits, order: HashOrder, m: Metadata, line: Ended, n: nat)
    requires IsHashOrder(order) && MetadataOf(input, None, limits, order) == Ok(m)
    requires m.status != 204 && m.status != 304 && m.framing == Chunked(true, 0, 0) &&
             "transfer-encoding" in m.head.headers
    requires m.head.rest == Bytes(line) && IsEnded(line) && ChunkSize(line.text) == Some(n) && 0 < n <= USIZE_MAX
    ensures !CutIrrelevant(input, None, limits, order, false)
  {
    hide MetadataOf, Bytes, IsEnded, ChunkSize, CutIrrelevant, Drain, StalledLine, ReadingOf, Carries;
    SizeLineNonEmpty(line, n);
    MetadataLeavesTail(input, None, limits, order);
    var a := Before(input, Bytes(line));
    assert a + Bytes(line) == input;
    ReadingOnePiece(input, None, limits, order);
    LoneSizeLineInPiece(LazyFrom(m, []), line, n);
    ReadingInHand(a, Bytes(line), StalledLine(line), None, limits, order);
    assert Before(m.head.rest, Bytes(line)) == [];
    var stalled := LazyFrom(m.(head := Head(m.head.headers, m.head.budget, [])), StalledLine(line));
    StalledLineCompletes(stalled, line);
    OnePiece(input, None);
    StalledLineCarries(a, line);
    TwoResults(input, limits, order, [Data(input)], [Data(a)] + StalledLine(line));
  }

  // ---------- One run that delivers the first chunk ----------

  /** One event for each byte. */
  function Singles(data: seq<Byte>): seq<Event> {
    if data == [] then [] else [Data([data[0]])] + Singles(data[1..])
  }

  lemma {:induction false} SinglesCarry(data: seq<Byte>)
    ensures |Singles(data)| == |data| && FaultOf(Singles(data)) == None && AllBytes(Singles(data)) == data
  {
    if data != [] {
      SinglesCarry(data[1..]);
      var all := Singles(data);
      assert all[1..] == Singles(data[1..]) && [data[0]] + data[1..] == data;
    }
  }

  lemma {:induction false} PayloadAppend(a: seq<Event>, b: seq<Event>)
    requires FaultOf(a) == None
    ensures Payload(a + b) == AllBytes(a) + Payload(b) && FaultOf(a + b) == FaultOf(b)
  {
    if a == [] {
      assert a + b == b;
    } else {
      assert (a + b)[1..] == a[1..] + b;
      PayloadAppend(a[1..], b);
    }
  }

  /** Head with size line, data and what follows in pieces of their own, the data byte by byte. */
  ghost function ByteByByte(a: seq<Byte>, data: seq<Byte>, behind: seq<Byte>): seq<Event> {
    [Data(a)] + (Singles(data) + [Data(behind)])
  }

  lemma ByteByByteCarries(a: seq<Byte>, data: seq<Byte>, behind: seq<Byte>)
    ensures CarriesExactly(ByteByByte(a, data, behind), a + (data + behind))
  {
    hide Singles;
    SinglesCarry(data);
    OnePiece(behind, None);
    PayloadAppend(Singles(data), [Data(behind)]);
    PayloadAppend([Data(a)], Singles(data) + [Data(behind)]);
    OnePieceBytes(a);
  }

  /** The data, with its length in the headers in place of the transfer coding, and all other headers as merged. */
  ghost predicate IsWhole(r: Result<Response, Error>, m: Metadata, data: seq<Byte>, merged: HeaderMap) {
    && r.Ok? && r.value.status == m.status && r.value.reason == m.reason && r.value.url == "" && r.value.body == data
    && Finished(r.value.headers, merged, |data|)
  }

  lemma SinglesDeliverIff(l: Lazy, line: Ended, data: seq<Byte>, behind: seq<Byte>)
    requires l.state == Chunked(true, 0, 0) && Announces(line, |data|)
    requires l.carried == Some(Bytes(line)) && l.events == Singles(data) + [Data(behind)]
    ensures DeliversWhole(l, data) <==> EndsBody(behind, None, l.maxTrailing, l.headers)
    ensures DeliversWhole(l, data) ==>
              Finished(Drain(l, []).last.headers, Merged(behind, None, l.headers), |data|)
  {
    hide Bytes, ChunkSize, ReadsSizeLine, DeliversWhole, EndsBody, IsEnded, Felt, Finished, Drain, Merged;
    assert Bytes(line) + [] == Bytes(line);
    SizeLineInHand(l, line, []);
    SinglesCarry(data);
    BehindPieces(Singles(data), [Data(behind)]);
    OnePieceNotFelt(behind, 1024);
    OnePiece(behind, None);
    OneChunkDeliveredIff(l, Line(line.text, []), l.events, data);
  }

  /**
   Byte by byte the first chunk of every payload is the whole response, without an error, where what follows its data
   ends a body: so a single chunk is decoded, and of several the others are dropped.
   */
  lemma FirstChunkAlone(input: seq<Byte>, limits: Limits, order: HashOrder, m: Metadata, line: Ended,
      data: seq<Byte>, behind: seq<Byte>)
    requires IsHashOrder(order) && StartsChunk(input, limits, order, m, line, |data|, data + behind)
    requires EndsBody(behind, None, m.head.budget, m.head.headers)
    ensures |data + behind| <= |input|
    ensures var run := ByteByByte(Before(input, data + behind), data, behind);
            && CarriesExactly(run, input)
            && IsWhole(ReceiveOf(run, limits, order, false), m, data, Merged(behind, None, m.head.headers))
  {
    hide MetadataOf, ReceiveOf, LazyFrom, Before, Bytes, IsEnded, ChunkSize, EndsBody, CarriesExactly;
    hide Finished, Drain, DeliversWhole, Merged, IsWhole;
    var tail, events := data + behind, Singles(data) + [Data(behind)];
    CutBehindSizeLine(input, limits, order, m, line, |data|, tail, events);
    ByteByByteCarries(Before(input, tail), data, behind);
    var l := Lazy(m.head.headers, Chunked(true, 0, 0), m.head.budget, Some(Bytes(line)), events);
    SinglesDeliverIff(l, line, data, behind);
    WholeResponse(m, l, data, Merged(behind, None, m.head.headers));
  }

  lemma WholeResponse(m: Metadata, l: Lazy, data: seq<Byte>, merged: HeaderMap)
    requires m.status != 204 && m.status != 304
    requires DeliversWhole(l, data) && Finished(Drain(l, []).last.headers, merged, |data|)
    ensures IsWhole(CreateOf(m.status, m.reason, "", l, false), m, data, merged)
  {
    hide Drain, Finished;
  }

  /** Two chunks or more: the second size line is taken for a trailer, and all behind the first chunk is dropped. */
  lemma LaterChunksDropped(input: seq<Byte>, limits: Limits, order: HashOrder, m: Metadata, line: Ended,
      data: seq<Byte>, next: Ended, more: seq<Byte>)
    requires IsHashOrder(order)
    requires StartsChunk(input, limits, order, m, line, |data|, data + ([CR, LF] + (Bytes(next) + more)))
    requires IsEnded(next) && ':' !in next.text && (next.ending == [] ==> more == [])
    requires Suffices(m.head.budget, Size(next) + 2)
    ensures var behind := [CR, LF] + (Bytes(next) + more);
            && |data + behind| <= |input|
            && var run := ByteByByte(Before(input, data + behind), data, behind);
               CarriesExactly(run, input) && IsWhole(ReceiveOf(run, limits, order, false), m, data, m.head.headers)
  {
    hide StartsChunk, ReceiveOf, ByteByByte, Before, Bytes, Size, EndsBody, CarriesExactly, IsWhole, IsEnded, Merged;
    BlankEndsBodyIff(next, more, m.head.budget, m.head.headers);
    FirstChunkAlone(input, limits, order, m, line, data, [CR, LF] + (Bytes(next) + more));
  }

  // ---------- A chunked response without a chunk ----------

  lemma {:induction false} LineLeavesEvents(input: seq<Byte>, events: seq<Event>, max: nat, overflow: Error)
    ensures forall e | e in AsyncLine(input, events, max, overflow).events :: e in events
    decreases |events|
  {
    hide Cut, DecodeLine, FirstLine, Overflows, HasLf;
    if events != [] && !Overflows(input, max) && !HasLf(input) {
      assert forall e | e in events[1..] :: e in events;
      match events[0] {
        case Stall => LineLeavesEvents(input, events[1..], max, overflow);
        case Fault(_) =>
        case Data(bytes) => LineLeavesEvents(input + bytes, events[1..], max, overflow);
      }
    }
  }

  lemma {:induction false} HeadersLeaveEvents(prefix: seq<Byte>, events: seq<Event>, budget: Option<nat>,
      headers: HeaderMap)
    ensures forall e | e in HeaderLoop(prefix, events, budget, headers).events :: e in events
    decreases |prefix| + |Payload(events)|
  {
    hide AsyncLine, Encode, InsertHeader, LineOf;
    var reading := AsyncLine(prefix, events, Limit(budget), HeadersOverflow);
    LineLeavesEvents(prefix, events, Limit(budget), HeadersOverflow);
    AsyncLineRefinesBytes(prefix, events, Limit(budget), HeadersOverflow);
    if reading.line.Ok? && reading.line.value.text != "" {
      var line := reading.line.value;
      var left := Spend(budget, |Encode(line.text)| + 2);
      if left.Ok? {
        HeadersLeaveEvents(line.rest, reading.events, left.value, InsertHeader(headers, line.text));
      }
    }
  }

  lemma ReadingLeavesEvents(events: seq<Event>, limits: Limits, order: HashOrder)
    requires IsHashOrder(order)
    ensures forall e | e in ReadingOf(events, limits, order).events :: e in events
  {
    hide AsyncLine, HeaderLoop, StatusOf, FramingOf;
    var status := AsyncLine([], events, Limit(limits.status), StatusLineOverflow);
    LineLeavesEvents([], events, Limit(limits.status), StatusLineOverflow);
    if status.line.Ok? {
      HeadersLeaveEvents(status.line.value.rest, status.events, limits.headers, map[]);
    }
  }

  /**
   A chunked response whose body ends at once, on every run without stalls: no body, the length zero in place of the
   transfer coding, and every header that was read, with the trailers merged.
   */
  lemma EmptyChunkedResponse(events: seq<Event>, limits: Limits, order: HashOrder, m: Metadata)
    requires IsHashOrder(order) && MetadataOf(Payload(events), FaultOf(events), limits, order) == Ok(m)
    requires NeverStalls(events) && m.status != 204 && m.status != 304 && m.framing == Chunked(true, 0, 0)
    requires EndsBody(m.head.rest, FaultOf(events), m.head.budget, m.head.headers)
    requires |Encode(FreeLineOf(m.head.rest, FaultOf(events)).value.text)| + 2 <= 1024
    ensures IsWhole(ReceiveOf(events, limits, order, false), m, [],
                    Merged(m.head.rest, FaultOf(events), m.head.headers))
  {
    hide ReadingOf, MetadataOf, FreeLineOf, Encode, TrailersOf, ChunkSize, Ends, Finished, Felt, Drain, Merged;
    ReadingRefinesBytes(events, limits, order);
    ReadingLeavesEvents(events, limits, order);
    var reading := ReadingOf(events, limits, order);
    var l := LazyFrom(reading.metadata.value, reading.events);
    assert Carried(l) + Payload(l.events) == m.head.rest && FaultOf(l.events) == FaultOf(events);
    ShortLineNotFelt(Carried(l), l.events, 1024);
    EndsIff(l);
    EndsDrains(l, []);
    EndFinishes(l, []);
  }

  /**
   A last chunk and its trailers as they are written: the lines with a colon are merged, if the budget covers them.
   */
  lemma WrittenEnd(trailers: seq<Ended>, last: Ended, rest: seq<Byte>, budget: Option<nat>, headers: HeaderMap)
    requires IsTrailerSection(trailers, last, rest, None)
    ensures var input := Bytes(Ended("0", [CR, LF])) + (Written(trailers) + (Bytes(last) + rest));
            && FreeLineOf(input, None).Ok? && FreeLineOf(input, None).value.text == "0"
            && (EndsBody(input, None, budget, headers) <==> Suffices(budget, Charged(trailers) + Size(last) + 2))
            && Merged(input, None, headers) == InsertAll(headers, Texts(trailers))
  {
    hide FreeLineOf, TrailersOf, Encode, Cut, Written, Charged, Texts, InsertAll, IsTrailerSection, Bytes, ChunkSize;
    var zero := Ended("0", [CR, LF]);
    ZeroSize();
    FreeEndedLine(zero, Written(trailers) + (Bytes(last) + rest), None);
    TrailersWritten(trailers, last, rest, None, headers);
  }

  lemma ZeroSize()
    ensures ChunkSize("0") == Some(0) && |Encode("0")| == 1
  {
    assert "0"[..0] == "" && Digit('0', 16) == Some(0) && Value("0", 16) == 0;
    ChunkSizeParses("0", "");
    assert Encode("0") == EncodeChar('0') + Encode("");
  }
}

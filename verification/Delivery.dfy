/**
 Response::create over a polled response, and the central property of the client: what a caller gets depends
 on the bytes alone, not on how the transport cut or delayed them.
 */
module Delivery {
  import opened Wrappers
  import opened Scan
  import opened Utf8
  import opened Transport
  import opened Lines
  import opened Headers
  import opened Framing
  import opened Metadata
  import opened LazyState

  datatype Response = Response(status: int, reason: string, headers: HeaderMap, url: string, body: seq<Byte>)

  datatype Drained = Drained(body: Result<seq<Byte>, Error>, last: Lazy)

  /** The loop of Response::create. */
  ghost function Drain(l: Lazy, body: seq<Byte>): Drained
    decreases Fuel(l)
  {
    PollShrinks(l);
    var s := PollStep(l);
    match s.item
    case Pending => Drain(s.next, body)
    case Ready(None) => Drained(Ok(body), s.next)
    case Ready(Some(Err(e))) => Drained(Err(e), s.next)
    case Ready(Some(Ok(piece))) => Drain(s.next, body + piece.bytes)
  }

  /** The responses whose body is not read. */
  predicate Bodyless(status: int, isHead: bool) {
    isHead || status == 204 || status == 304
  }

  ghost function WithBody(status: int, reason: string, headers: HeaderMap, url: string, body: Result<seq<Byte>, Error>)
    : Result<Response, Error>
  {
    if body.Err? then Err(body.error) else Ok(Response(status, reason, headers, url, body.value))
  }

  /** Response::create. */
  ghost function CreateOf(status: int, reason: string, url: string, l: Lazy, isHead: bool): Result<Response, Error> {
    if Bodyless(status, isHead) then Ok(Response(status, reason, l.headers, url, []))
    else WithBody(status, reason, Drain(l, []).last.headers, url, Drain(l, []).body)
  }

  /** The response that ResponseLazy::from_stream builds from the metadata. */
  ghost function LazyFrom(m: Metadata, events: seq<Event>): Lazy {
    Lazy(m.head.headers, m.framing, m.head.budget, if m.head.rest == [] then None else Some(m.head.rest), events)
  }

  /** from_stream, then create. */
  ghost function ReceiveOf(events: seq<Event>, limits: Limits, order: HashOrder, isHead: bool)
    : Result<Response, Error>
    requires IsHashOrder(order)
  {
    var r := ReadingOf(events, limits, order);
    if r.metadata.Err? then Err(r.metadata.error)
    else CreateOf(r.metadata.value.status, r.metadata.value.reason, "", LazyFrom(r.metadata.value, r.events), isHead)
  }

  // ---------- The body in the bytes ----------

  /** The body bytes still to come before the transport fails or ends. */
  ghost function ToCome(l: Lazy): seq<Byte> {
    Carried(l) + Payload(l.events)
  }

  ghost function Io(code: int): Error {
    IoError(IoKind.Transport(code))
  }

  /** A body read until the transport closes: all bytes to come, unless it fails. */
  ghost function UntilClosed(bytes: seq<Byte>, fault: Option<int>): Result<seq<Byte>, Error> {
    if fault.Some? then Err(Io(fault.value)) else Ok(bytes)
  }

  lemma UntilClosedPoll(l: Lazy)
    requires l.state.EndOnClose? && Carried(l) == []
    ensures PollStep(l) == Step(PieceItem(PollResult(l.events)), l.(carried := None, events := AfterPoll(l.events)))
  {
  }

  lemma UntilClosedCarried(l: Lazy)
    requires l.state.EndOnClose? && Carried(l) != []
    ensures PollStep(l) == Step(Ready(Some(Ok(Piece(Carried(l), |Carried(l)|)))), l.(carried := None))
  {
  }

  lemma {:induction false} DrainUntilClosed(l: Lazy, body: seq<Byte>)
    requires l.state.EndOnClose?
    ensures Drain(l, body).body == UntilClosed(body + ToCome(l), FaultOf(l.events))
    ensures Drain(l, body).last.headers == l.headers
    decreases Fuel(l)
  {
    PollShrinks(l);
    hide PollStep;
    var next := PollStep(l).next;
    if Carried(l) != [] {
      UntilClosedCarried(l);
      DrainUntilClosed(next, body + Carried(l));
      assert body + ToCome(l) == body + Carried(l) + ToCome(next);
    } else {
      UntilClosedPoll(l);
      assert ToCome(l) == Payload(l.events) && ToCome(next) == Payload(next.events);
      if l.events == [] {
        assert body + ToCome(l) == body;
      } else {
        match l.events[0] {
          case Stall =>
            DrainUntilClosed(next, body);
          case Fault(_) =>
          case Data(bytes) =>
            DrainUntilClosed(next, body + bytes);
            assert body + ToCome(l) == body + bytes + ToCome(next);
        }
      }
    }
  }

  /** Some leading pieces of the transport hold exactly n bytes. */
  ghost predicate CutAt(events: seq<Event>, n: nat) {
    if n == 0 then true
    else if events == [] then false
    else match events[0]
      case Stall => CutAt(events[1..], n)
      case Fault(_) => false
      case Data(bytes) => |bytes| <= n && CutAt(events[1..], n - |bytes|)
  }

  /** The same with the carried bytes as the first piece. */
  ghost predicate PiecesCutAt(l: Lazy, n: nat) {
    |Carried(l)| <= n && CutAt(l.events, n - |Carried(l)|)
  }

  /**
   A body of declared length n: short bodies are delivered as they are, unless the transport fails; longer
   transports deliver n bytes if a piece ends there, and else run into the subtraction below zero.
   */
  ghost function Counted(l: Lazy, n: nat, body: seq<Byte>): Result<seq<Byte>, Error> {
    if |ToCome(l)| < n then UntilClosed(body + ToCome(l), FaultOf(l.events))
    else if PiecesCutAt(l, n) then Ok(body + ToCome(l)[..n])
    else Err(ArithmeticOverflow)
  }

  lemma {:induction false} DrainContentLength(l: Lazy, body: seq<Byte>)
    requires l.state.ContentLength?
    ensures Drain(l, body).body == Counted(l, l.state.remaining, body)
    ensures Drain(l, body).last.headers == l.headers
    decreases Fuel(l)
  {
    PollShrinks(l);
    var s, n := PollStep(l), l.state.remaining;
    if Carried(l) != [] {
      if |Carried(l)| <= n {
        DrainContentLength(s.next, body + Carried(l));
        CountedAfterPiece(l, s.next, n, body, Carried(l));
      }
    } else if n == 0 {
      assert body + ToCome(l)[..0] == body;
    } else if l.events != [] {
      CountedFromTransport(l, body);
    } else {
      assert ToCome(l) == [] && body + [] == body;
    }
  }

  lemma ContentLengthEvent(l: Lazy)
    requires l.state.ContentLength? && l.state.remaining > 0 && Carried(l) == [] && l.events != []
    ensures var next := l.(carried := None, events := l.events[1..]);
            match l.events[0]
            case Stall => PollStep(l) == Step(Pending, next)
            case Fault(code) => PollStep(l) == Step(Ready(Some(Err(Io(code)))), next)
            case Data(bytes) =>
              if |bytes| > l.state.remaining then PollStep(l) == Step(Ready(Some(Err(ArithmeticOverflow))), next)
              else && Delivers(PollStep(l).item) && PollStep(l).item.value.value.value.bytes == bytes
                   && PollStep(l).next == next.(state := ContentLength(l.state.remaining - |bytes|))
  {
  }

  lemma {:induction false} CountedFromTransport(l: Lazy, body: seq<Byte>)
    requires l.state.ContentLength? && l.state.remaining > 0 && Carried(l) == [] && l.events != []
    ensures Drain(l, body).body == Counted(l, l.state.remaining, body)
    ensures Drain(l, body).last.headers == l.headers
    decreases Fuel(l), 0
  {
    PollShrinks(l);
    ContentLengthEvent(l);
    hide PollStep;
    var s, n := PollStep(l), l.state.remaining;
    assert ToCome(l) == Payload(l.events) && ToCome(s.next) == Payload(s.next.events);
    match l.events[0] {
      case Stall =>
        DrainContentLength(s.next, body);
      case Fault(_) =>
      case Data(bytes) =>
        if |bytes| <= n {
          DrainContentLength(s.next, body + bytes);
          CountedAfterPiece(l, s.next, n, body, bytes);
        } else {
          assert |ToCome(l)| >= |bytes|;
        }
    }
  }

  lemma CountedAfterPiece(l: Lazy, next: Lazy, n: nat, body: seq<Byte>, piece: seq<Byte>)
    requires |piece| <= n && ToCome(l) == piece + ToCome(next) && FaultOf(next.events) == FaultOf(l.events)
    requires PiecesCutAt(l, n) == PiecesCutAt(next, n - |piece|)
    ensures Counted(l, n, body) == Counted(next, n - |piece|, body + piece)
  {
    assert body + ToCome(l) == body + piece + ToCome(next);
    if |ToCome(l)| >= n {
      assert body + ToCome(l)[..n] == body + piece + ToCome(next)[..n - |piece|];
    }
  }

  /** All pieces together end where the payload ends. */
  lemma {:induction false} CutAtEnd(events: seq<Event>)
    ensures CutAt(events, |Payload(events)|)
  {
    if events != [] && !events[0].Fault? {
      CutAtEnd(events[1..]);
    }
  }

  // ---------- Cut independence ----------

  /** The body that framing, remaining bytes and failure determine when the bytes fit the framing. */
  ghost function BodyOf(state: HttpStreamState, rest: seq<Byte>, fault: Option<int>): Result<seq<Byte>, Error>
    requires Fits(state, rest)
  {
    if state.ContentLength? && |rest| == state.remaining then Ok(rest) else UntilClosed(rest, fault)
  }

  /** A close-delimited body, or one of at most the declared length. */
  ghost predicate Fits(state: HttpStreamState, rest: seq<Byte>) {
    state.EndOnClose? || (state.ContentLength? && |rest| <= state.remaining)
  }

  /** The payload carries no body that is read, or one that fits its framing. */
  ghost predicate WellDelimited(input: seq<Byte>, fault: Option<int>, limits: Limits, order: HashOrder, isHead: bool)
    requires IsHashOrder(order)
  {
    var m := MetadataOf(input, fault, limits, order);
    m.Ok? ==> Bodyless(m.value.status, isHead) || Fits(m.value.framing, m.value.head.rest)
  }

  /** The response that a payload means: the body is exactly what follows the blank line. */
  ghost function ResponseOf(input: seq<Byte>, fault: Option<int>, limits: Limits, order: HashOrder,
      isHead: bool): Result<Response, Error>
    requires IsHashOrder(order) && WellDelimited(input, fault, limits, order, isHead)
  {
    var m := MetadataOf(input, fault, limits, order);
    if m.Err? then Err(m.error)
    else
      var body := if Bodyless(m.value.status, isHead) then Ok([])
                  else BodyOf(m.value.framing, m.value.head.rest, fault);
      WithBody(m.value.status, m.value.reason, m.value.head.headers, "", body)
  }

  lemma DrainFits(l: Lazy)
    requires Fits(l.state, ToCome(l))
    ensures Drain(l, []).body == BodyOf(l.state, ToCome(l), FaultOf(l.events))
    ensures Drain(l, []).last.headers == l.headers
  {
    hide Drain, Payload, FaultOf, CutAt;
    assert [] + ToCome(l) == ToCome(l);
    if l.state.EndOnClose? {
      DrainUntilClosed(l, []);
    } else {
      DrainContentLength(l, []);
      CutAtEnd(l.events);
      assert ToCome(l)[..|ToCome(l)|] == ToCome(l);
    }
  }

  lemma CreateRefinesBytes(m: Metadata, events: seq<Event>, fault: Option<int>, isHead: bool)
    requires FaultOf(events) == fault
    requires Bodyless(m.status, isHead) || Fits(m.framing, m.head.rest + Payload(events))
    ensures CreateOf(m.status, m.reason, "", LazyFrom(m, events), isHead) ==
            WithBody(m.status, m.reason, m.head.headers, "",
                     if Bodyless(m.status, isHead) then Ok([])
                     else BodyOf(m.framing, m.head.rest + Payload(events), fault))
  {
    var l := LazyFrom(m, events);
    assert ToCome(l) == m.head.rest + Payload(events);
    if !Bodyless(m.status, isHead) {
      DrainFits(l);
    }
  }

  /** The whole reader on one transport run: the response is that of the bytes. */
  lemma ReceiveRefinesBytes(events: seq<Event>, limits: Limits, order: HashOrder, isHead: bool)
    requires IsHashOrder(order)
    requires WellDelimited(Payload(events), FaultOf(events), limits, order, isHead)
    ensures ReceiveOf(events, limits, order, isHead) ==
            ResponseOf(Payload(events), FaultOf(events), limits, order, isHead)
  {
    hide ReadingOf, MetadataOf, CreateOf, WithBody, BodyOf;
    ReadingRefinesBytes(events, limits, order);
    var r := ReadingOf(events, limits, order);
    if r.metadata.Ok? {
      CreateRefinesBytes(r.metadata.value, r.events, FaultOf(events), isHead);
    }
  }

  /** A response to HEAD, or with status 204 or 304, has no body, whatever follows its head and however it is framed. */
  lemma NoBodyResponse(events: seq<Event>, limits: Limits, order: HashOrder, isHead: bool)
    requires IsHashOrder(order) && MetadataOf(Payload(events), FaultOf(events), limits, order).Ok?
    ensures var m := MetadataOf(Payload(events), FaultOf(events), limits, order).value;
            isHead || m.status == 204 || m.status == 304 ==>
              ReceiveOf(events, limits, order, isHead) == Ok(Response(m.status, m.reason, m.head.headers, "", []))
  {
    hide ReadingOf, MetadataOf;
    ReadingRefinesBytes(events, limits, order);
  }

  /**
   Every other response has the bytes behind its blank line as body, all of them: up to the end of the stream, or as
   many as it declares. If the transport fails before that, so does the response.
   */
  lemma BodyIsRest(events: seq<Event>, limits: Limits, order: HashOrder)
    requires IsHashOrder(order) && MetadataOf(Payload(events), FaultOf(events), limits, order).Ok?
    ensures var m := MetadataOf(Payload(events), FaultOf(events), limits, order).value;
            var r := ReceiveOf(events, limits, order, false);
            var whole: Result<Response, Error> := Ok(Response(m.status, m.reason, m.head.headers, "", m.head.rest));
            m.status != 204 && m.status != 304 ==>
              && (m.framing.ContentLength? && |m.head.rest| == m.framing.remaining ==> r == whole)
              && (m.framing.EndOnClose? || (m.framing.ContentLength? && |m.head.rest| < m.framing.remaining) ==>
                    r == if FaultOf(events).Some? then Err(IoError(IoKind.Transport(FaultOf(events).value))) else whole)
  {
    var m := MetadataOf(Payload(events), FaultOf(events), limits, order).value;
    hide MetadataOf, ReceiveOf;
    if m.framing.EndOnClose? || (m.framing.ContentLength? && |m.head.rest| <= m.framing.remaining) {
      ReceiveRefinesBytes(events, limits, order, false);
    }
  }

  /** Two runs over the same bytes, cut and delayed differently, give the same response or the same error. */
  lemma CutIndependence(run1: seq<Event>, run2: seq<Event>, limits: Limits, order: HashOrder, isHead: bool)
    requires IsHashOrder(order)
    requires Payload(run1) == Payload(run2) && FaultOf(run1) == FaultOf(run2)
    requires WellDelimited(Payload(run1), FaultOf(run1), limits, order, isHead)
    ensures ReceiveOf(run1, limits, order, isHead) == ReceiveOf(run2, limits, order, isHead)
  {
    ReceiveRefinesBytes(run1, limits, order, isHead);
    ReceiveRefinesBytes(run2, limits, order, isHead);
  }

  /** The header section, if it is read at all, gives an unambiguous map. */
  ghost predicate HeadUnambiguous(input: seq<Byte>, fault: Option<int>, limits: Limits) {
    var line := LineOf(input, fault, Limit(limits.status), StatusLineOverflow);
    line.Ok? ==>
      var head := HeadersOf(line.value.rest, fault, limits.headers, map[]);
      head.Ok? ==> Unambiguous(head.value.headers)
  }

  /** Then the iteration order of the map matters to no outcome, error or success. */
  lemma OrderIndependence(input: seq<Byte>, fault: Option<int>, limits: Limits, order1: HashOrder, order2: HashOrder)
    requires IsHashOrder(order1) && IsHashOrder(order2) && HeadUnambiguous(input, fault, limits)
    ensures MetadataOf(input, fault, limits, order1) == MetadataOf(input, fault, limits, order2)
  {
    hide LineOf, HeadersOf, FramingOf, Unambiguous, StatusOf;
    var line := LineOf(input, fault, Limit(limits.status), StatusLineOverflow);
    if line.Ok? && HeadersOf(line.value.rest, fault, limits.headers, map[]).Ok? {
      SameFraming(HeadersOf(line.value.rest, fault, limits.headers, map[]).value.headers, order1, order2);
    }
  }

  lemma SameFraming(headers: HeaderMap, order1: HashOrder, order2: HashOrder)
    requires IsHashOrder(order1) && IsHashOrder(order2) && Unambiguous(headers)
    ensures FramingOf(headers, order1(headers)) == FramingOf(headers, order2(headers))
  {
    hide FramingOf, Unambiguous;
    OrderIrrelevantIff(headers);
    assert Enumerates(order1(headers), headers) && Enumerates(order2(headers), headers);
  }

  /** Nor to the whole response, chunked bodies included, on any transport run. */
  lemma ReceiveOrderIndependence(events: seq<Event>, limits: Limits, order1: HashOrder, order2: HashOrder, isHead: bool)
    requires IsHashOrder(order1) && IsHashOrder(order2) && HeadUnambiguous(Payload(events), FaultOf(events), limits)
    ensures ReceiveOf(events, limits, order1, isHead) == ReceiveOf(events, limits, order2, isHead)
  {
    hide LineOf, HeadersOf, AsyncLine, HeaderLoop, FramingOf, Unambiguous, StatusOf, CreateOf, LazyFrom;
    var max := Limit(limits.status);
    var first := AsyncLine([], events, max, StatusLineOverflow);
    AsyncLineRefinesBytes([], events, max, StatusLineOverflow);
    assert [] + Payload(events) == Payload(events);
    if first.line.Ok? {
      HeaderLoopRefinesBytes(first.line.value.rest, first.events, limits.headers, map[]);
      var reading := HeaderLoop(first.line.value.rest, first.events, limits.headers, map[]);
      if reading.head.Ok? {
        SameFraming(reading.head.value.headers, order1, order2);
      }
    }
  }

  // ---------- Exactly when the cut does not matter ----------

  /** Every run that delivers exactly these bytes and then ends, or fails like this, gives the same result. */
  ghost predicate CutIrrelevant(input: seq<Byte>, fault: Option<int>, limits: Limits, order: HashOrder, isHead: bool)
    requires IsHashOrder(order)
  {
    forall run1, run2 | Carries(run1, input, fault) && Carries(run2, input, fault) ::
      ReceiveOf(run1, limits, order, isHead) == ReceiveOf(run2, limits, order, isHead)
  }

  ghost predicate Carries(run: seq<Event>, input: seq<Byte>, fault: Option<int>) {
    Payload(run) == input && FaultOf(run) == fault
  }

  ghost predicate CarriesExactly(run: seq<Event>, input: seq<Byte>) {
    Carries(run, input, None)
  }

  /** How a run ends: silently, or with a failure. */
  function Ending(fault: Option<int>): seq<Event> {
    if fault.Some? then [Fault(fault.value)] else []
  }

  /** The bytes of s before a given tail. */
  ghost function Before(s: seq<Byte>, tail: seq<Byte>): seq<Byte>
    requires |tail| <= |s|
  {
    s[..|s| - |tail|]
  }

  /** A head that ends inside the first piece is read without touching the rest of the stream. */
  lemma {:induction false} HeaderLoopInHand(a: seq<Byte>, b: seq<Byte>, events: seq<Event>, fault: Option<int>,
      budget: Option<nat>, headers: HeaderMap)
    requires b != []
    requires HeadersOf(a + b, fault, budget, headers).Ok?
    requires |HeadersOf(a + b, fault, budget, headers).value.rest| >= |b|
    ensures var head := HeadersOf(a + b, fault, budget, headers).value;
            HeaderLoop(a, events, budget, headers) ==
            HeadReading(Ok(Head(head.headers, head.budget, Before(head.rest, b))), events)
    decreases |a|
  {
    hide InsertHeader, Encode, LineOf, AsyncLine;
    var max := Limit(budget);
    LineInHand(a, b, events, fault, max, HeadersOverflow);
    var line := LineOf(a + b, fault, max, HeadersOverflow).value;
    if line.text != "" {
      var inA := Line(line.text, Before(line.rest, b));
      var left := Spend(budget, |Encode(line.text)| + 2);
      HeadersOfRound(a + b, line, fault, budget, headers);
      HeaderLoopRound(a, inA, events, budget, headers);
      assert inA.rest + b == line.rest;
      HeaderLoopInHand(inA.rest, b, events, fault, left.value, InsertHeader(headers, line.text));
    }
  }

  lemma LineInHand(a: seq<Byte>, b: seq<Byte>, events: seq<Event>, fault: Option<int>, max: nat, overflow: Error)
    requires b != []
    requires LineOf(a + b, fault, max, overflow).Ok? && |LineOf(a + b, fault, max, overflow).value.rest| >= |b|
    ensures var line := LineOf(a + b, fault, max, overflow).value;
            && |line.rest| - |b| <= |a| && (line.text != "" ==> |line.rest| - |b| < |a|)
            && line.rest[|line.rest| - |b|..] == b
            && AsyncLine(a, events, max, overflow) == Reading(Ok(Line(line.text, Before(line.rest, b))), events)
  {
    CutAppend(a, b, {LF});
    assert HasLf(a);
    OverflowsAppend(a, b, max);
    FirstLineAppend(a, b);
    var inA := FirstLine(a).value.rest;
    assert (inA + b)[..|inA|] == inA && (inA + b)[|inA|..] == b;
  }

  /** The first piece holds all of a, and the head ends in it: the reader carries the rest of a. */
  lemma ReadingInHand(a: seq<Byte>, b: seq<Byte>, events: seq<Event>, fault: Option<int>, limits: Limits,
      order: HashOrder)
    requires IsHashOrder(order) && b != []
    requires MetadataOf(a + b, fault, limits, order).Ok?
    requires |MetadataOf(a + b, fault, limits, order).value.head.rest| >= |b|
    ensures var m := MetadataOf(a + b, fault, limits, order).value;
            ReadingOf([Data(a)] + events, limits, order) ==
            MetadataReading(Ok(m.(head := Head(m.head.headers, m.head.budget, Before(m.head.rest, b)))), events)
  {
    hide AsyncLine, LineOf, HeaderLoop, HeadersOf, StatusOf, FramingOf;
    var max := Limit(limits.status);
    var line := LineOf(a + b, fault, max, StatusLineOverflow).value;
    LineInHand(a, b, events, fault, max, StatusLineOverflow);
    FirstPiece(a, events, max, StatusLineOverflow);
    assert Before(line.rest, b) + b == line.rest;
    HeaderLoopInHand(Before(line.rest, b), b, events, fault, limits.headers, map[]);
  }

  lemma FirstPiece(a: seq<Byte>, events: seq<Event>, max: nat, overflow: Error)
    ensures AsyncLine([], [Data(a)] + events, max, overflow) == AsyncLine(a, events, max, overflow)
  {
    var run := [Data(a)] + events;
    assert run[1..] == events && [] + a == a;
  }

  /** All bytes in one piece: the reader carries everything behind the head. */
  lemma ReadingOnePiece(input: seq<Byte>, fault: Option<int>, limits: Limits, order: HashOrder)
    requires IsHashOrder(order)
    requires MetadataOf(input, fault, limits, order).Ok?
    ensures ReadingOf([Data(input)] + Ending(fault), limits, order) ==
            MetadataReading(MetadataOf(input, fault, limits, order), Ending(fault))
  {
    hide ReadingOf, MetadataOf;
    OnePiece(input, fault);
    var run := [Data(input)] + Ending(fault);
    ReadingRefinesBytes(run, limits, order);
    OnePieceIsUsedUp(input, fault, limits, order);
    var r := ReadingOf(run, limits, order);
    assert r.metadata.value.head.rest + Payload(r.events) == r.metadata.value.head.rest;
  }

  lemma OnePieceIsUsedUp(input: seq<Byte>, fault: Option<int>, limits: Limits, order: HashOrder)
    requires IsHashOrder(order)
    ensures ReadingOf([Data(input)] + Ending(fault), limits, order).events in {[], Ending(fault)}
  {
    var max := Limit(limits.status);
    FirstPiece(input, Ending(fault), max, StatusLineOverflow);
    var status := AsyncLine(input, Ending(fault), max, StatusLineOverflow);
    EndingLeft(input, fault, Ending(fault), max, StatusLineOverflow);
    hide AsyncLine, HeaderLoop, StatusOf, FramingOf;
    if status.line.Ok? {
      EndingLeftByHeaders(status.line.value.rest, fault, status.events, limits.headers, map[]);
    }
  }

  lemma EndingLeft(input: seq<Byte>, fault: Option<int>, events: seq<Event>, max: nat, overflow: Error)
    requires events in {[], Ending(fault)}
    ensures AsyncLine(input, events, max, overflow).events in {[], Ending(fault)}
  {
    hide Cut, DecodeLine;
    assert events != [] ==> events[1..] == [];
  }

  lemma {:induction false} EndingLeftByHeaders(prefix: seq<Byte>, fault: Option<int>, events: seq<Event>,
      budget: Option<nat>, headers: HeaderMap)
    requires events in {[], Ending(fault)}
    ensures HeaderLoop(prefix, events, budget, headers).events in {[], Ending(fault)}
    decreases |prefix| + |Payload(events)|
  {
    hide AsyncLine, Encode, InsertHeader, LineOf, Ending;
    var reading := AsyncLine(prefix, events, Limit(budget), HeadersOverflow);
    EndingLeft(prefix, fault, events, Limit(budget), HeadersOverflow);
    AsyncLineRefinesBytes(prefix, events, Limit(budget), HeadersOverflow);
    if reading.line.Ok? && reading.line.value.text != "" {
      var line := reading.line.value;
      var left := Spend(budget, |Encode(line.text)| + 2);
      if left.Ok? {
        EndingLeftByHeaders(line.rest, fault, reading.events, left.value, InsertHeader(headers, line.text));
      }
    }
  }

  lemma OnePiece(input: seq<Byte>, fault: Option<int>)
    ensures Carries([Data(input)] + Ending(fault), input, fault)
    ensures fault.None? ==> [Data(input)] + Ending(fault) == [Data(input)]
  {
    assert ([Data(input)] + Ending(fault))[1..] == Ending(fault);
    assert input + [] == input;
  }

  lemma TwoPieces(a: seq<Byte>, b: seq<Byte>, fault: Option<int>)
    ensures Carries([Data(a), Data(b)] + Ending(fault), a + b, fault)
    ensures fault.None? ==> [Data(a), Data(b)] + Ending(fault) == [Data(a), Data(b)]
  {
    assert ([Data(a), Data(b)] + Ending(fault))[1..] == [Data(b)] + Ending(fault);
    OnePiece(b, fault);
  }

  /** A payload with more body than it declares. */
  ghost predicate Exceeds(input: seq<Byte>, fault: Option<int>, limits: Limits, order: HashOrder, isHead: bool,
      m: Metadata)
    requires IsHashOrder(order)
  {
    && MetadataOf(input, fault, limits, order) == Ok(m)
    && !Bodyless(m.status, isHead) && m.framing.ContentLength? && |m.head.rest| > m.framing.remaining
    && |m.head.rest| <= |input| && input[|input| - |m.head.rest|..] == m.head.rest
  }

  lemma OnePieceFails(input: seq<Byte>, fault: Option<int>, limits: Limits, order: HashOrder, isHead: bool, m: Metadata)
    requires IsHashOrder(order) && Exceeds(input, fault, limits, order, isHead, m)
    ensures ReceiveOf([Data(input)] + Ending(fault), limits, order, isHead) == Err(ArithmeticOverflow)
  {
    hide ReadingOf, MetadataOf, CreateOf, LazyFrom;
    ReadingOnePiece(input, fault, limits, order);
    OverrunFails(m, Ending(fault), isHead);
  }

  /** The response with the first n bytes of the body. */
  ghost function Declared(m: Metadata): Response
    requires m.framing.ContentLength? && m.framing.remaining <= |m.head.rest|
  {
    Response(m.status, m.reason, m.head.headers, "", m.head.rest[..m.framing.remaining])
  }

  lemma CutBehindLengthSucceeds(input: seq<Byte>, fault: Option<int>, limits: Limits, order: HashOrder, isHead: bool,
      m: Metadata, a: seq<Byte>, b: seq<Byte>)
    requires IsHashOrder(order) && Exceeds(input, fault, limits, order, isHead, m)
    requires b == m.head.rest[m.framing.remaining..] && a + b == input
    ensures ReceiveOf([Data(a), Data(b)] + Ending(fault), limits, order, isHead) == Ok(Declared(m))
  {
    hide ReadingOf, MetadataOf, CreateOf, LazyFrom;
    var rest, events := m.head.rest, [Data(b)] + Ending(fault);
    ReadingInHand(a, b, events, fault, limits, order);
    assert [Data(a)] + events == [Data(a), Data(b)] + Ending(fault);
    assert Before(rest, b) == rest[..m.framing.remaining];
    ExactCutSucceeds(m.(head := Head(m.head.headers, m.head.budget, Before(rest, b))), events, isHead);
  }

  /**
   More bytes than declared: in one piece the reader fails, while cut behind the declared length it delivers exactly
   the declared bytes, even if the transport fails behind them.
   */
  lemma ExcessDependsOnCut(input: seq<Byte>, fault: Option<int>, limits: Limits, order: HashOrder, isHead: bool,
      m: Metadata)
    requires IsHashOrder(order) && Exceeds(input, fault, limits, order, isHead, m)
    ensures var b := m.head.rest[m.framing.remaining..];
            var run1, run2 := [Data(input)] + Ending(fault), [Data(Before(input, b)), Data(b)] + Ending(fault);
            && Carries(run1, input, fault) && Carries(run2, input, fault)
            && ReceiveOf(run1, limits, order, isHead) == Err(ArithmeticOverflow)
            && ReceiveOf(run2, limits, order, isHead) == Ok(Declared(m))
    ensures !CutIrrelevant(input, fault, limits, order, isHead)
  {
    hide MetadataOf, ReceiveOf, Ending;
    var b := m.head.rest[m.framing.remaining..];
    var a := Before(input, b);
    assert a + b == input;
    OnePiece(input, fault);
    TwoPieces(a, b, fault);
    OnePieceFails(input, fault, limits, order, isHead, m);
    CutBehindLengthSucceeds(input, fault, limits, order, isHead, m, a, b);
    hide Carries, Exceeds;
    assert ReceiveOf([Data(input)] + Ending(fault), limits, order, isHead) !=
           ReceiveOf([Data(a), Data(b)] + Ending(fault), limits, order, isHead);
  }

  lemma OverrunFails(m: Metadata, events: seq<Event>, isHead: bool)
    requires !Bodyless(m.status, isHead) && m.framing.ContentLength? && |m.head.rest| > m.framing.remaining
    ensures CreateOf(m.status, m.reason, "", LazyFrom(m, events), isHead) == Err(ArithmeticOverflow)
  {
    DrainContentLength(LazyFrom(m, events), []);
  }

  lemma ExactCutSucceeds(m: Metadata, events: seq<Event>, isHead: bool)
    requires !Bodyless(m.status, isHead) && m.framing.ContentLength? && |m.head.rest| == m.framing.remaining
    ensures CreateOf(m.status, m.reason, "", LazyFrom(m, events), isHead) ==
            Ok(Response(m.status, m.reason, m.head.headers, "", m.head.rest))
  {
    var l := LazyFrom(m, events);
    assert Carried(l) == m.head.rest;
    DrainContentLength(l, []);
    assert [] + ToCome(l)[..m.framing.remaining] == m.head.rest;
  }

  /** What the head leaves is a tail of the payload. */
  lemma {:induction false} HeadersLeaveTail(input: seq<Byte>, fault: Option<int>, budget: Option<nat>,
      headers: HeaderMap)
    requires HeadersOf(input, fault, budget, headers).Ok?
    ensures var rest := HeadersOf(input, fault, budget, headers).value.rest;
            |rest| <= |input| && input[|input| - |rest|..] == rest
    decreases |input|
  {
    hide LineOf, Encode, InsertHeader;
    var line := LineOf(input, fault, Limit(budget), HeadersOverflow).value;
    LineLeavesTail(input, fault, Limit(budget), HeadersOverflow);
    if line.text != "" {
      var left := Spend(budget, |Encode(line.text)| + 2);
      HeadersLeaveTail(line.rest, fault, left.value, InsertHeader(headers, line.text));
    }
  }

  lemma LineLeavesTail(input: seq<Byte>, fault: Option<int>, max: nat, overflow: Error)
    requires LineOf(input, fault, max, overflow).Ok?
    ensures var rest := LineOf(input, fault, max, overflow).value.rest;
            |rest| <= |input| && input[|input| - |rest|..] == rest
  {
    hide Encode, Cut;
    var ending := LineIsExactSplit(input, fault, max, overflow);
  }

  /**
   For every payload, failure and request method: unless a chunked body is read, the transport's cutting is irrelevant
   if and only if the payload carries no more body than it declares (or none that is read).
   */
  lemma CutIrrelevantIff(input: seq<Byte>, fault: Option<int>, limits: Limits, order: HashOrder, isHead: bool)
    requires IsHashOrder(order)
    requires forall m | MetadataOf(input, fault, limits, order) == Ok(m) ::
               !m.framing.Chunked? || Bodyless(m.status, isHead)
    ensures CutIrrelevant(input, fault, limits, order, isHead) <==>
            WellDelimited(input, fault, limits, order, isHead)
  {
    if WellDelimited(input, fault, limits, order, isHead) {
      forall run1, run2 | Carries(run1, input, fault) && Carries(run2, input, fault)
        ensures ReceiveOf(run1, limits, order, isHead) == ReceiveOf(run2, limits, order, isHead)
      {
        CutIndependence(run1, run2, limits, order, isHead);
      }
    } else {
      hide MetadataOf, CutIrrelevant;
      var m := MetadataOf(input, fault, limits, order).value;
      MetadataLeavesTail(input, fault, limits, order);
      ExcessDependsOnCut(input, fault, limits, order, isHead, m);
    }
  }

  lemma MetadataLeavesTail(input: seq<Byte>, fault: Option<int>, limits: Limits, order: HashOrder)
    requires IsHashOrder(order) && MetadataOf(input, fault, limits, order).Ok?
    ensures var rest := MetadataOf(input, fault, limits, order).value.head.rest;
            |rest| <= |input| && input[|input| - |rest|..] == rest
  {
    hide LineOf, HeadersOf, StatusOf, FramingOf;
    LineLeavesTail(input, fault, Limit(limits.status), StatusLineOverflow);
    var line := LineOf(input, fault, Limit(limits.status), StatusLineOverflow).value;
    HeadersLeaveTail(line.rest, fault, limits.headers, map[]);
  }
}

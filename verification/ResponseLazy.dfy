/** ResponseLazy and Response::create of src/response.rs, updating their fields in place. */
module ResponseLazy {
  import opened Wrappers
  import opened Text
  import opened Utf8
  import opened Transport
  import opened PolledLines
  import opened Headers
  import opened Framing
  import opened Metadata
  import opened LazyState
  import opened Delivery

  class ResponseLazy {
    var statusCode: int
    var reasonPhrase: string
    var headers: HeaderMap
    var url: string
    const stream: ByteStream
    var state: HttpStreamState
    var maxTrailingHeadersSize: Option<nat>
    var trailingContent: Option<seq<Byte>>

    function Snapshot(): Lazy
      reads this, stream
    {
      Lazy(headers, state, maxTrailingHeadersSize, trailingContent, stream.events)
    }

    constructor (m: Metadata, stream: ByteStream)
      ensures this.stream == stream
      ensures Snapshot() == LazyFrom(m, stream.events)
      ensures statusCode == m.status && reasonPhrase == m.reason && url == ""
    {
      this.stream := stream;
      statusCode, reasonPhrase, url := m.status, m.reason, "";
      headers, state, maxTrailingHeadersSize := m.head.headers, m.framing, m.head.budget;
      trailingContent := if |m.head.rest| == 0 then None else Some(m.head.rest);
    }

    /** read_until_closed. */
    method ReadUntilClosed(prefix: seq<Byte>) returns (item: BodyItem)
      modifies stream
      ensures Step(item, Snapshot()) == UntilClosedStep(prefix, old(Snapshot()))
    {
      if |prefix| > 0 {
        return Ready(Some(Ok(Piece(prefix, |prefix|))));
      }
      var p := stream.PollNext();
      match p {
        case Ready(Some(Ok(chunk))) => item := Ready(Some(Ok(Piece(chunk, |chunk|))));
        case Ready(Some(Err(e))) => item := Ready(Some(Err(e)));
        case Ready(None) => item := Ready(None);
        case Pending => item := Pending;
      }
    }

    /** read_with_content_length. */
    method ReadWithContentLength(prefix: seq<Byte>) returns (item: BodyItem)
      requires state.ContentLength?
      modifies `state, stream
      ensures Step(item, Snapshot()) == ContentLengthStep(prefix, old(Snapshot()))
    {
      if |prefix| > 0 {
        if |prefix| > state.remaining {
          return Ready(Some(Err(ArithmeticOverflow)));
        }
        state := ContentLength(state.remaining - |prefix|);
        return Ready(Some(Ok(Piece(prefix, |prefix|))));
      }
      if state.remaining > 0 {
        var p := stream.PollNext();
        match p {
          case Ready(Some(Ok(chunk))) =>
            if |chunk| > state.remaining {
              return Ready(Some(Err(ArithmeticOverflow)));
            }
            state := ContentLength(state.remaining - |chunk|);
            item := Ready(Some(Ok(Piece(chunk, Min(state.remaining, MAX_CONTENT_LENGTH) + |chunk|))));
          case Ready(Some(Err(e))) => item := Ready(Some(Err(e)));
          case Ready(None) => item := Ready(None);
          case Pending => item := Pending;
        }
      } else {
        item := Ready(None);
      }
    }

    /** read_trailers. */
    method ReadTrailers(prefix: seq<Byte>) returns (outcome: Poll<Result<(), Error>>)
      modifies `headers, stream
      ensures Trailers(outcome, headers, stream.events) ==
              TrailerLoop(prefix, old(stream.events), maxTrailingHeadersSize, old(headers))
    {
      hide PollLine, Encode, AllBytes, ParseHeader;
      var trailing, budget := prefix, maxTrailingHeadersSize;
      ghost var whole := TrailerLoop(prefix, stream.events, budget, headers);
      while true
        invariant TrailerLoop(trailing, stream.events, budget, headers) == whole
        decreases |trailing| + |AllBytes(stream.events)|
      {
        PolledLineShrinks(trailing, stream.events, budget, HeadersOverflow);
        var polled := ReadLine(stream, budget, HeadersOverflow, trailing);
        match polled {
          case Pending => return Pending;
          case Ready(Err(e)) => return Ready(Err(e));
          case Ready(Ok(line)) =>
            trailing := line.rest;
            var left := Spend(budget, |Encode(line.text)| + 2);
            if left.Err? {
              return Ready(Err(left.error));
            }
            budget := left.value;
            HeaderNeedsColon(line.text);
            var header := ParseHeader(line.text);
            if header.None? {
              break;
            }
            headers := headers[header.value.0 := header.value.1];
        }
      }
      outcome := Ready(Ok(()));
    }

    /** The data phase that ends read_chunked. */
    method ReadChunkData() returns (item: BodyItem)
      requires state.Chunked? && state.left > 0
      modifies `state, stream
      ensures Step(item, Snapshot()) == ChunkDataStep(old(Snapshot()))
    {
      state := state.(left := state.left - 1);
      var p := stream.PollNext();
      match p {
        case Ready(Some(Ok(chunk))) => item := Ready(Some(Ok(Piece(chunk, |chunk|))));
        case Ready(Some(Err(e))) => item := Ready(Some(Err(e)));
        case Ready(None) => item := Ready(None);
        case Pending => item := Pending;
      }
    }

    /** The end of the body in read_chunked: trailers, then the headers that replace the transfer coding. */
    method FinishChunks(prefix: seq<Byte>) returns (item: BodyItem)
      requires state.Chunked?
      modifies `state, `headers, stream
      ensures Step(item, Snapshot()) == LastChunkStep(prefix, old(Snapshot()))
    {
      var outcome := ReadTrailers(prefix);
      match outcome {
        case Ready(Err(e)) => return Ready(Some(Err(e)));
        case Pending => return Pending;
        case Ready(Ok(_)) =>
      }
      state := state.(expecting := false);
      headers := headers["content-length" := Decimal(state.total)];
      headers := headers - {"transfer-encoding"};
      item := Ready(None);
    }

    /** read_chunked. */
    method ReadChunked(prefix: seq<Byte>) returns (item: BodyItem)
      requires state.Chunked?
      modifies `state, `headers, stream
      ensures Step(item, Snapshot()) == ChunkedStep(prefix, old(Snapshot()))
    {
      hide PollLine, ChunkSize, LastChunkStep, ChunkDataStep;
      if !state.expecting && state.left == 0 {
        return Ready(None);
      }
      if state.left == 0 {
        var polled := ReadLine(stream, Some(CHUNK_LINE_LIMIT), MalformedChunkLength, prefix);
        match polled {
          case Pending => return Pending;
          case Ready(Err(e)) => return Ready(Some(Err(e)));
          case Ready(Ok(line)) =>
            var incoming := ChunkSize(line.text);
            if incoming.None? {
              return Ready(Some(Err(MalformedChunkLength)));
            }
            if incoming.value == 0 {
              item := FinishChunks(line.rest);
              return;
            }
            state := state.(left := incoming.value);
            if state.total + incoming.value > USIZE_MAX {
              return Ready(Some(Err(ArithmeticOverflow)));
            }
            state := state.(total := state.total + incoming.value);
        }
      }
      item := ReadChunkData();
    }

    /** Stream::poll_next. */
    method PollNext() returns (item: BodyItem)
      modifies `state, `headers, `trailingContent, stream
      ensures Step(item, Snapshot()) == PollStep(old(Snapshot()))
    {
      var prefix := [];
      if trailingContent.Some? {
        prefix := trailingContent.value;
        trailingContent := None;
      }
      match state {
        case EndOnClose => item := ReadUntilClosed(prefix);
        case ContentLength(_) => item := ReadWithContentLength(prefix);
        case Chunked(_, _, _) => item := ReadChunked(prefix);
      }
    }
  }

  /** ResponseLazy::from_stream. */
  method FromStream(stream: ByteStream, limits: Limits, order: HashOrder)
    returns (r: Result<ResponseLazy, Error>)
    requires IsHashOrder(order)
    modifies stream
    ensures var reading := ReadingOf(old(stream.events), limits, order);
            match r
            case Err(e) => reading.metadata == Err(e)
            case Ok(response) =>
              && fresh(response) && response.stream == stream && reading.metadata.Ok?
              && response.Snapshot() == LazyFrom(reading.metadata.value, reading.events)
              && response.statusCode == reading.metadata.value.status
              && response.reasonPhrase == reading.metadata.value.reason && response.url == ""
  {
    var m := ReadMetadata(stream, limits, order);
    if m.Err? {
      return Err(m.error);
    }
    var response := new ResponseLazy(m.value, stream);
    r := Ok(response);
  }

  /** Response::create. */
  method Create(parent: ResponseLazy, isHead: bool) returns (r: Result<Response, Error>)
    modifies parent, parent.stream
    ensures r == CreateOf(old(parent.statusCode), old(parent.reasonPhrase), old(parent.url), old(parent.Snapshot()),
                          isHead)
  {
    var body := [];
    if !isHead && parent.statusCode != 204 && parent.statusCode != 304 {
      ghost var whole := Drain(parent.Snapshot(), []);
      while true
        invariant Drain(parent.Snapshot(), body) == whole
        invariant parent.statusCode == old(parent.statusCode)
        invariant parent.reasonPhrase == old(parent.reasonPhrase) && parent.url == old(parent.url)
        decreases Fuel(parent.Snapshot())
      {
        PollShrinks(parent.Snapshot());
        var item := parent.PollNext();
        match item {
          case Pending =>
          case Ready(None) => break;
          case Ready(Some(Err(e))) => return Err(e);
          case Ready(Some(Ok(piece))) => body := body + piece.bytes;
        }
      }
      assert whole == Drained(Ok(body), parent.Snapshot());
    }
    r := Ok(Response(parent.statusCode, parent.reasonPhrase, parent.headers, parent.url, body));
  }

  /** from_stream and create, as Request::send runs them for a final response: only the bytes count. */
  method Receive(stream: ByteStream, limits: Limits, order: HashOrder, isHead: bool)
    returns (r: Result<Response, Error>)
    requires IsHashOrder(order)
    modifies stream
    ensures r == ReceiveOf(old(stream.events), limits, order, isHead)
    ensures var input, fault := Payload(old(stream.events)), FaultOf(old(stream.events));
            WellDelimited(input, fault, limits, order, isHead) ==>
              r == ResponseOf(input, fault, limits, order, isHead)
  {
    ghost var events := stream.events;
    var lazy := FromStream(stream, limits, order);
    if lazy.Err? {
      r := Err(lazy.error);
    } else {
      r := Create(lazy.value, isHead);
    }
    if WellDelimited(Payload(events), FaultOf(events), limits, order, isHead) {
      ReceiveRefinesBytes(events, limits, order, isHead);
    }
  }
}

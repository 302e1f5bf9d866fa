/**
 The polling machine of ResponseLazy (src/response.rs) on values: one step for each body framing. The class
 ResponseLazy performs these steps in place.
 */
module LazyState {
  import opened Wrappers
  import opened Scan
  import opened Text
  import opened Utf8
  import opened Transport
  import opened Lines
  import opened PolledLines
  import opened Headers
  import opened Framing
  import opened Metadata

  const MAX_CONTENT_LENGTH: nat := 16 * 1024
  const CHUNK_LINE_LIMIT: nat := 1024

  /** A piece of the body with the size hint that Response::create reserves. */
  datatype Piece = Piece(bytes: seq<Byte>, hint: nat)

  type BodyItem = Poll<Option<Result<Piece, Error>>>

  /** The fields of ResponseLazy that polling reads or writes, and the transport under it. */
  datatype Lazy = Lazy(
    headers: HeaderMap,
    state: HttpStreamState,
    maxTrailing: Option<nat>,
    carried: Option<seq<Byte>>,
    events: seq<Event>)

  /** The bytes the metadata reader left over, taken by the first poll. */
  ghost function Carried(l: Lazy): seq<Byte> {
    if l.carried.Some? then l.carried.value else []
  }

  datatype Step = Step(item: BodyItem, next: Lazy)

  ghost predicate Delivers(item: BodyItem) {
    item.Ready? && item.value.Some? && item.value.value.Ok?
  }

  /** The next transport item as a body piece whose hint is its size. */
  function PieceItem(p: Poll<Item>): BodyItem {
    match p
    case Pending => Pending
    case Ready(None) => Ready(None)
    case Ready(Some(Err(e))) => Ready(Some(Err(e)))
    case Ready(Some(Ok(bytes))) => Ready(Some(Ok(Piece(bytes, |bytes|))))
  }

  ghost function FromTransport(l: Lazy): Step {
    Step(PieceItem(PollResult(l.events)), l.(events := AfterPoll(l.events)))
  }

  /** read_until_closed. */
  ghost function UntilClosedStep(prefix: seq<Byte>, l: Lazy): Step {
    if prefix != [] then Step(Ready(Some(Ok(Piece(prefix, |prefix|)))), l) else FromTransport(l)
  }

  function Min(a: nat, b: nat): nat {
    if a < b then a else b
  }

  /** read_with_content_length. */
  ghost function ContentLengthStep(prefix: seq<Byte>, l: Lazy): Step
    requires l.state.ContentLength?
  {
    var n := l.state.remaining;
    if prefix != [] then
      if |prefix| > n then Step(Ready(Some(Err(ArithmeticOverflow))), l)
      else Step(Ready(Some(Ok(Piece(prefix, |prefix|)))), l.(state := ContentLength(n - |prefix|)))
    else if n == 0 then Step(Ready(None), l)
    else
      var polled := FromTransport(l);
      match polled.item
      case Ready(Some(Ok(piece))) =>
        var size := |piece.bytes|;
        if size > n then Step(Ready(Some(Err(ArithmeticOverflow))), polled.next)
        else Step(Ready(Some(Ok(Piece(piece.bytes, Min(n - size, MAX_CONTENT_LENGTH) + size)))),
                  polled.next.(state := ContentLength(n - size)))
      case _ => polled
  }

  // ---------- Chunked ----------

  /** The size in a chunk-size line: up to a semicolon, trimmed, hexadecimal; an empty line counts as zero. */
  function ChunkSize(line: string): Option<nat> {
    if line == "" then Some(0)
    else ParseUnsigned(Trim(line[..Cut(line, {';'})]), 16, USIZE_MAX)
  }

  /** How read_trailers ends, with the map it has merged into so far. */
  datatype Trailers = Trailers(outcome: Poll<Result<(), Error>>, headers: HeaderMap, events: seq<Event>)

  /** What a line that the polled reader accepted has taken from the bytes at hand. */
  lemma {:induction false} PolledLineShrinks(input: seq<Byte>, events: seq<Event>, max: Option<nat>, overflow: Error)
    ensures var r := PollLine(input, events, max, overflow);
            r.line.Ready? && r.line.value.Ok? && r.line.value.value.text != "" ==>
              |r.line.value.value.rest| + |AllBytes(r.events)| < |input| + |AllBytes(events)|
    decreases |events|
  {
    if !HasLf(input) && events != [] && events[0].Data? {
      PolledLineShrinks(input + events[0].bytes, events[1..], max, overflow);
    }
  }

  /** read_trailers: every line is charged to the budget, and the first one without a colon ends the loop. */
  ghost function TrailerLoop(prefix: seq<Byte>, events: seq<Event>, budget: Option<nat>,
      headers: HeaderMap): (r: Trailers)
    ensures |r.events| <= |events| && (r.outcome.Pending? ==> |r.events| < |events|)
    decreases |prefix| + |AllBytes(events)|
  {
    var polled := PollLine(prefix, events, budget, HeadersOverflow);
    match polled.line
    case Pending => Trailers(Pending, headers, polled.events)
    case Ready(Err(e)) => Trailers(Ready(Err(e)), headers, polled.events)
    case Ready(Ok(line)) =>
      PolledLineShrinks(prefix, events, budget, HeadersOverflow);
      var left := Spend(budget, |Encode(line.text)| + 2);
      if left.Err? then Trailers(Ready(Err(left.error)), headers, polled.events)
      else if ParseHeader(line.text).None? then Trailers(Ready(Ok(())), headers, polled.events)
      else
        HeaderNeedsColon(line.text);
        TrailerLoop(line.rest, polled.events, left.value, InsertHeader(headers, line.text))
  }

  /** The step leaves the carried bytes alone and takes an event wherever it waits or delivers. */
  ghost predicate Advances(s: Step, l: Lazy) {
    && s.next.carried == l.carried
    && |s.next.events| <= |l.events|
    && (s.item.Pending? || Delivers(s.item) ==> |s.next.events| < |l.events|)
  }

  /** The data phase of read_chunked: one byte off the counter, one poll of the transport. */
  ghost function ChunkDataStep(l: Lazy): (s: Step)
    requires l.state.Chunked? && l.state.left > 0
    ensures Advances(s, l)
  {
    FromTransport(l.(state := l.state.(left := l.state.left - 1)))
  }

  /** The end of the body: the headers tell the total instead of the transfer coding. */
  function FinalHeaders(headers: HeaderMap, total: nat): HeaderMap {
    headers["content-length" := Decimal(total)] - {"transfer-encoding"}
  }

  ghost function LastChunkStep(prefix: seq<Byte>, l: Lazy): (s: Step)
    requires l.state.Chunked?
    ensures Advances(s, l)
  {
    var trailers := TrailerLoop(prefix, l.events, l.maxTrailing, l.headers);
    var next := l.(headers := trailers.headers, events := trailers.events);
    match trailers.outcome
    case Pending => Step(Pending, next)
    case Ready(Err(e)) => Step(Ready(Some(Err(e))), next)
    case Ready(Ok(_)) =>
      Step(Ready(None), next.(state := l.state.(expecting := false),
                              headers := FinalHeaders(trailers.headers, l.state.total)))
  }

  /** read_chunked. */
  ghost function ChunkedStep(prefix: seq<Byte>, l: Lazy): (s: Step)
    requires l.state.Chunked?
    ensures Advances(s, l)
  {
    if !l.state.expecting && l.state.left == 0 then Step(Ready(None), l)
    else if l.state.left > 0 then ChunkDataStep(l)
    else
      var polled := PollLine(prefix, l.events, Some(CHUNK_LINE_LIMIT), MalformedChunkLength);
      var after := l.(events := polled.events);
      match polled.line
      case Pending => Step(Pending, after)
      case Ready(Err(e)) => Step(Ready(Some(Err(e))), after)
      case Ready(Ok(line)) =>
        match ChunkSize(line.text)
        case None => Step(Ready(Some(Err(MalformedChunkLength))), after)
        case Some(size) =>
          if size == 0 then LastChunkStep(line.rest, after)
          else if l.state.total + size > USIZE_MAX then
            Step(Ready(Some(Err(ArithmeticOverflow))), after.(state := l.state.(left := size)))
          else ChunkDataStep(after.(state := l.state.(left := size, total := l.state.total + size)))
  }

  /** poll_next. */
  ghost function PollStep(l: Lazy): Step {
    var prefix := Carried(l);
    var taken := l.(carried := None);
    match l.state
    case EndOnClose => UntilClosedStep(prefix, taken)
    case ContentLength(_) => ContentLengthStep(prefix, taken)
    case Chunked(_, _, _) => ChunkedStep(prefix, taken)
  }

  // ---------- Progress ----------

  ghost function Fuel(l: Lazy): nat {
    |l.events| + if l.carried.Some? then 1 else 0
  }

  /** Every poll but the last takes something: a drained response comes to an end on every finite stream. */
  lemma PollShrinks(l: Lazy)
    ensures var s := PollStep(l);
            && Fuel(s.next) <= Fuel(l)
            && (s.item.Pending? || Delivers(s.item) ==> Fuel(s.next) < Fuel(l))
            && s.next.carried == None
  {
  }
}

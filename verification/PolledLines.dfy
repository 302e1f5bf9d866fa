/** The poll-based line reader of src/response.rs (read_line), used for chunk sizes and trailers. */
module PolledLines {
  import opened Wrappers
  import opened Scan
  import opened Utf8
  import opened Transport
  import opened Lines

  datatype Polled = Polled(line: Poll<Result<Line, Error>>, events: seq<Event>)

  /**
   read_line, event by event; input is what this call has collected without finding a line feed. The limit
   is looked at only when another piece arrives, and a stall forgets the input.
   */
  ghost function PollLine(input: seq<Byte>, events: seq<Event>, max: Option<nat>, overflow: Error): (r: Polled)
    ensures |r.events| <= |events| && (r.line.Pending? ==> |r.events| < |events|)
    decreases |events|
  {
    if HasLf(input) then Polled(Ready(FirstLine(input)), events)
    else if events == [] then Polled(Ready(DecodeLine(input, [])), [])
    else match events[0]
      case Stall => Polled(Pending, events[1..])
      case Fault(code) => Polled(Ready(Err(IoError(IoKind.Transport(code)))), events[1..])
      case Data(bytes) =>
        if max.Some? && |input| >= max.value then Polled(Ready(Err(overflow)), events[1..])
        else PollLine(input + bytes, events[1..], max, overflow)
  }

  /** One of the two byte loops of read_line. */
  method Collect(chunk: seq<Byte>, bytes0: seq<Byte>, ghost before: seq<Byte>)
    returns (bytes: seq<Byte>, searching: bool, trailing: seq<Byte>)
    requires Collected(bytes0, true, [], before)
    ensures Collected(bytes, searching, trailing, before + chunk)
  {
    hide Cut;
    bytes, searching, trailing := bytes0, true, [];
    assert before + chunk[..0] == before;
    for k := 0 to |chunk|
      invariant Collected(bytes, searching, trailing, before + chunk[..k])
    {
      ghost var input := before + chunk[..k];
      var byte := chunk[k];
      CollectOne(input, byte);
      assert before + chunk[..k + 1] == input + [byte];
      if searching {
        if byte == LF {
          if bytes != [] && bytes[|bytes| - 1] == CR {
            bytes := bytes[..|bytes| - 1];
          }
          searching := false;
          assert (input + [byte])[..|input|] == input;
        } else {
          bytes := bytes + [byte];
        }
      } else {
        trailing := trailing + [byte];
        assert (input + [byte])[..Cut(input, {LF})] == input[..Cut(input, {LF})];
      }
    }
    assert chunk[..|chunk|] == chunk;
  }

  /** read_line of src/response.rs. */
  method ReadLine(stream: ByteStream, maxLen: Option<nat>, overflow: Error, prefix: seq<Byte>)
    returns (r: Poll<Result<Line, Error>>)
    modifies stream
    ensures Polled(r, stream.events) == PollLine(prefix, old(stream.events), maxLen, overflow)
  {
    var bytes, searching, trailing := Collect(prefix, [], []);
    assert [] + prefix == prefix;
    ghost var input := prefix;
    while searching
      invariant Collected(bytes, searching, trailing, input)
      invariant PollLine(input, stream.events, maxLen, overflow) ==
                PollLine(prefix, old(stream.events), maxLen, overflow)
      decreases searching, |stream.events|
    {
      var p := stream.PollNext();
      match p {
        case Pending =>
          return Pending;
        case Ready(None) =>
          break;
        case Ready(Some(Err(e))) =>
          return Ready(Err(e));
        case Ready(Some(Ok(chunk))) =>
          if maxLen.Some? && |bytes| >= maxLen.value {
            return Ready(Err(overflow));
          }
          bytes, searching, trailing := Collect(chunk, bytes, input);
          input := input + chunk;
      }
    }
    r := Ready(DecodeLine(bytes, trailing));
  }

  // ---------- The two readers compared ----------

  /** What the strict reader accepts, the polled one accepts alike, with the same events left. */
  lemma {:induction false} StrictImpliesPolled(input: seq<Byte>, events: seq<Event>, max: nat, overflow: Error)
    requires NeverStalls(events) && PiecesNonEmpty(events)
    requires AsyncLine(input, events, max, overflow).line.Ok?
    ensures var strict := AsyncLine(input, events, max, overflow);
            PollLine(input, events, Some(max), overflow) == Polled(Ready(strict.line), strict.events)
    decreases |events|
  {
    if !HasLf(input) && events != [] {
      assert events[0] in events && forall e | e in events[1..] :: e in events;
      if events[0].Data? {
        var next := input + events[0].bytes;
        assert !Overflows(next, max);
        CutAppend(input, events[0].bytes, {LF});
        assert |input| < max;
        StrictImpliesPolled(next, events[1..], max, overflow);
      }
    }
  }

  /** What the polled reader accepts under a limit, it accepts alike without one. */
  lemma {:induction false} PolledImpliesUnlimited(input: seq<Byte>, events: seq<Event>, max: nat, overflow: Error)
    requires PollLine(input, events, Some(max), overflow).line.Ready?
    requires PollLine(input, events, Some(max), overflow).line.value.Ok?
    ensures PollLine(input, events, None, overflow) == PollLine(input, events, Some(max), overflow)
    decreases |events|
  {
    if !HasLf(input) && events != [] && events[0].Data? {
      PolledImpliesUnlimited(input + events[0].bytes, events[1..], max, overflow);
    }
  }

  /** Without a limit and without stalls it is the strict reader under a limit too large to matter. */
  lemma {:induction false} UnlimitedIsStrict(input: seq<Byte>, events: seq<Event>, max: nat, overflow: Error)
    requires NeverStalls(events) && |input + Payload(events)| <= max
    ensures var strict := AsyncLine(input, events, max, overflow);
            PollLine(input, events, None, overflow) == Polled(Ready(strict.line), strict.events)
    decreases |events|
  {
    if !HasLf(input) && events != [] {
      assert events[0] in events && NeverStalls(events[1..]);
      if events[0].Data? {
        UnlimitedIsStrict(input + events[0].bytes, events[1..], max, overflow);
      }
    }
  }

  /** So without a limit and without stalls the polled reader, too, sees only the bytes. */
  lemma UnlimitedRefinesBytes(input: seq<Byte>, events: seq<Event>, overflow: Error)
    requires NeverStalls(events)
    ensures var r := PollLine(input, events, None, overflow);
            r.line.Ready? &&
            Refines(r.line.value, r.events, events, FreeLineOf(input + Payload(events), FaultOf(events)))
  {
    var max := |input + Payload(events)|;
    UnlimitedIsStrict(input, events, max, overflow);
    AsyncLineRefinesBytes(input, events, max, overflow);
  }

  /** How far a line can exceed the limit that the polled reader was given: by less than one piece. */
  lemma {:induction false} PolledLineBound(input: seq<Byte>, events: seq<Event>, max: nat, overflow: Error, piece: nat)
    requires forall e | e in events :: e.Data? ==> |e.bytes| <= piece
    requires PollLine(input, events, Some(max), overflow).line.Ready?
    requires PollLine(input, events, Some(max), overflow).line.value.Ok?
    ensures var length := |Encode(PollLine(input, events, Some(max), overflow).line.value.value.text)|;
            length <= |input| || length <= max - 1 + piece
    decreases |events|
  {
    if !HasLf(input) && events != [] && events[0].Data? {
      assert events[0] in events && forall e | e in events[1..] :: e in events;
      PolledLineBound(input + events[0].bytes, events[1..], max, overflow, piece);
    }
  }

  /** A sandwich: strict success gives polled success gives the unlimited meaning of the bytes. */
  lemma ReadersSandwich(prefix: seq<Byte>, events: seq<Event>, max: nat, overflow: Error)
    requires NeverStalls(events) && PiecesNonEmpty(events)
    ensures var strict := AsyncLine(prefix, events, max, overflow);
            var polled := PollLine(prefix, events, Some(max), overflow);
            && (strict.line.Ok? ==> polled == Polled(Ready(strict.line), strict.events))
            && polled.line.Ready?
            && (polled.line.value.Ok? ==>
                  Refines(polled.line.value, polled.events, events,
                          FreeLineOf(prefix + Payload(events), FaultOf(events))))
  {
    if AsyncLine(prefix, events, max, overflow).line.Ok? {
      StrictImpliesPolled(prefix, events, max, overflow);
    }
    NeverPending(prefix, events, Some(max), overflow);
    if PollLine(prefix, events, Some(max), overflow).line.value.Ok? {
      PolledImpliesUnlimited(prefix, events, max, overflow);
      UnlimitedRefinesBytes(prefix, events, overflow);
    }
  }

  lemma {:induction false} EventsLeft(input: seq<Byte>, events: seq<Event>, max: Option<nat>, overflow: Error)
    ensures forall e | e in PollLine(input, events, max, overflow).events :: e in events
    decreases |events|
  {
    assert forall e | e in AfterPoll(events) :: e in events;
    if !HasLf(input) && events != [] && events[0].Data? {
      EventsLeft(input + events[0].bytes, events[1..], max, overflow);
    }
  }

  lemma {:induction false} NeverPending(input: seq<Byte>, events: seq<Event>, max: Option<nat>, overflow: Error)
    requires NeverStalls(events)
    ensures PollLine(input, events, max, overflow).line.Ready?
    decreases |events|
  {
    if !HasLf(input) && events != [] {
      assert events[0] in events && NeverStalls(events[1..]);
      if events[0].Data? {
        NeverPending(input + events[0].bytes, events[1..], max, overflow);
      }
    }
  }
}

/**
 The byte stream under a response: what ReaderStream over the socket hands out, poll by poll. A run of the
 transport is a finite sequence of events, followed by end of stream for ever.
 */
module Transport {
  import opened Wrappers
  import opened Utf8

  datatype Event = Stall | Data(bytes: seq<Byte>) | Fault(code: int)

  datatype Poll<+T> = Pending | Ready(value: T)

  type Item = Option<Result<seq<Byte>, Error>>

  /** The bytes the transport delivers before it fails or ends, however it cuts and delays them. */
  ghost function Payload(events: seq<Event>): seq<Byte> {
    if events == [] || events[0].Fault? then []
    else if events[0].Data? then events[0].bytes + Payload(events[1..])
    else Payload(events[1..])
  }

  /** The failure that cuts the payload short, if any. */
  ghost function FaultOf(events: seq<Event>): Option<int> {
    if events == [] then None
    else if events[0].Fault? then Some(events[0].code)
    else FaultOf(events[1..])
  }

  /** All bytes the transport will ever hand out, also those behind a failure. */
  ghost function AllBytes(events: seq<Event>): seq<Byte> {
    if events == [] then []
    else if events[0].Data? then events[0].bytes + AllBytes(events[1..])
    else AllBytes(events[1..])
  }

  ghost predicate NeverStalls(events: seq<Event>) {
    forall e | e in events :: !e.Stall?
  }

  ghost predicate PiecesNonEmpty(events: seq<Event>) {
    forall e | e in events :: e.Data? ==> e.bytes != []
  }

  function AfterPoll(events: seq<Event>): seq<Event> {
    if events == [] then [] else events[1..]
  }

  function PollResult(events: seq<Event>): Poll<Item> {
    if events == [] then Ready(None)
    else match events[0]
      case Stall => Pending
      case Data(bytes) => Ready(Some(Ok(bytes)))
      case Fault(code) => Ready(Some(Err(IoError(IoKind.Transport(code)))))
  }

  /** The events left when the next poll that is not pending is made. */
  function SkipStalls(events: seq<Event>): (r: seq<Event>)
    ensures |r| <= |events| && (r != [] ==> !r[0].Stall?)
  {
    if events != [] && events[0].Stall? then SkipStalls(events[1..]) else events
  }

  class ByteStream {
    var events: seq<Event>

    constructor (events: seq<Event>)
      ensures this.events == events
    {
      this.events := events;
    }

    /** Stream::poll_next. */
    method PollNext() returns (p: Poll<Item>)
      modifies this
      ensures p == PollResult(old(events)) && events == AfterPoll(old(events))
    {
      if events == [] {
        p := Ready(None);
      } else {
        match events[0] {
          case Stall => p := Pending;
          case Data(bytes) => p := Ready(Some(Ok(bytes)));
          case Fault(code) => p := Ready(Some(Err(IoError(IoKind.Transport(code)))));
        }
        events := events[1..];
      }
    }

    /** stream.next().await: polls until the answer is not Pending. */
    method Next() returns (item: Item)
      modifies this
      ensures Ready(item) == PollResult(SkipStalls(old(events)))
      ensures events == AfterPoll(SkipStalls(old(events)))
    {
      var p := PollNext();
      while p.Pending?
        invariant p.Pending? ==> SkipStalls(events) == SkipStalls(old(events))
        invariant p.Ready? ==> p == PollResult(SkipStalls(old(events)))
        invariant p.Ready? ==> events == AfterPoll(SkipStalls(old(events)))
        decreases p.Pending?, |events|
      {
        p := PollNext();
      }
      item := p.value;
    }
  }
}

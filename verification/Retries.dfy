/**
 The poll-based line reader across stalls: read_line (src/response.rs) starts over with an empty buffer when it
 is polled again, so a stall in the middle of a line loses what was collected.
 */
module Retries {
  import opened Wrappers
  import opened Scan
  import opened Utf8
  import opened Transport
  import opened Lines
  import opened PolledLines

  /** Polling again after every Pending; the carried bytes are only passed to the first call. */
  ghost function Retry(input: seq<Byte>, events: seq<Event>, overflow: Error): Polled
    decreases |events|
  {
    var polled := PollLine(input, events, None, overflow);
    if polled.line.Pending? then Retry([], polled.events, overflow) else polled
  }

  /** The bytes in hand at the stalls in front of the line feed: those the retried reader forgets. */
  ghost function Dropped(input: seq<Byte>, events: seq<Event>): nat
    decreases |events|
  {
    if HasLf(input) || events == [] then 0
    else match events[0]
      case Stall => |input| + Dropped([], events[1..])
      case Fault(_) => 0
      case Data(bytes) => Dropped(input + bytes, events[1..])
  }

  /**
   What a run has to meet for its stalls to do no harm: at every stall in front of the line feed nothing has been
   collected, or only the CR of an empty line whose LF is the next byte.
   */
  ghost predicate StallsHarmless(input: seq<Byte>, events: seq<Event>)
    decreases |events|
  {
    if HasLf(input) || events == [] then true
    else match events[0]
      case Stall => (input == [] || (input == [CR] && [LF] <= Payload(events[1..]))) && StallsHarmless([], events[1..])
      case Fault(_) => true
      case Data(bytes) => StallsHarmless(input + bytes, events[1..])
  }

  // ---------- What the retried reader reads ----------

  /** No line feed is dropped. */
  lemma {:induction false} DroppedBeforeLf(input: seq<Byte>, events: seq<Event>)
    ensures Dropped(input, events) <= Cut(input + Payload(events), {LF})
    decreases |events|
  {
    hide Cut;
    CutAppend(input, Payload(events), {LF});
    if !HasLf(input) && events != [] {
      match events[0] {
        case Stall =>
          DroppedBeforeLf([], events[1..]);
          assert [] + Payload(events[1..]) == Payload(events[1..]);
        case Fault(_) =>
        case Data(bytes) =>
          DroppedBeforeLf(input + bytes, events[1..]);
          assert input + bytes + Payload(events[1..]) == input + Payload(events);
      }
    }
  }

  /** The bytes the retried reader sees: the payload without the dropped ones. */
  ghost function Seen(input: seq<Byte>, events: seq<Event>): seq<Byte> {
    DroppedBeforeLf(input, events);
    (input + Payload(events))[Dropped(input, events)..]
  }

  lemma RetryStep(input: seq<Byte>, events: seq<Event>, overflow: Error)
    requires !HasLf(input) && events != []
    ensures events[0].Stall? ==> Retry(input, events, overflow) == Retry([], events[1..], overflow)
    ensures events[0].Data? ==> Retry(input, events, overflow) == Retry(input + events[0].bytes, events[1..], overflow)
  {
  }

  lemma SeenStep(input: seq<Byte>, events: seq<Event>)
    requires !HasLf(input) && events != []
    ensures events[0].Stall? ==> Seen(input, events) == Seen([], events[1..])
    ensures events[0].Data? ==> Seen(input, events) == Seen(input + events[0].bytes, events[1..])
  {
    hide Cut;
    var rest := events[1..];
    assert [] + Payload(rest) == Payload(rest);
    if events[0].Data? {
      assert input + events[0].bytes + Payload(rest) == input + Payload(events);
    } else if events[0].Stall? {
      var d := Dropped([], rest);
      DroppedBeforeLf([], rest);
      assert (input + Payload(rest))[|input| + d..] == Payload(rest)[d..];
    }
  }

  /** The reader answers without another poll, or the transport fails. */
  lemma RetryAtOnce(input: seq<Byte>, events: seq<Event>, overflow: Error)
    requires HasLf(input) || events == [] || events[0].Fault?
    ensures var r := Retry(input, events, overflow);
            r.line.Ready? && Refines(r.line.value, r.events, events, FreeLineOf(Seen(input, events), FaultOf(events)))
  {
    hide Cut, DecodeLine, FirstLine, Overflows;
    OverflowsAppend(input, Payload(events), 0);
    if HasLf(input) {
      FirstLineAppend(input, Payload(events));
      assert (input + Payload(events))[0..] == input + Payload(events);
    } else {
      var none: seq<Byte> := [];
      assert Payload(events) == [] && Seen(input, events) == input;
      assert none + Payload(events) == none;
    }
  }

  /** The retried reader always answers, and its answer is the meaning of the bytes it has seen. */
  lemma {:induction false} RetryReadsSeen(input: seq<Byte>, events: seq<Event>, overflow: Error)
    ensures var r := Retry(input, events, overflow);
            r.line.Ready? && Refines(r.line.value, r.events, events, FreeLineOf(Seen(input, events), FaultOf(events)))
    decreases |events|
  {
    hide Cut, Retry, PollLine, Seen, FreeLineOf;
    if HasLf(input) || events == [] || events[0].Fault? {
      RetryAtOnce(input, events, overflow);
    } else {
      SeenStep(input, events);
      RetryStep(input, events, overflow);
      if events[0].Stall? {
        RetryReadsSeen([], events[1..], overflow);
      } else {
        RetryReadsSeen(input + events[0].bytes, events[1..], overflow);
      }
    }
  }

  // ---------- When dropping bytes does not show ----------

  /** Nothing is dropped, or the CR of an empty line. */
  ghost predicate DropsNothingSeen(all: seq<Byte>, dropped: nat) {
    dropped == 0 || (dropped == 1 && [CR, LF] <= all)
  }

  lemma {:induction false} HarmlessIff(input: seq<Byte>, events: seq<Event>)
    ensures StallsHarmless(input, events) <==> DropsNothingSeen(input + Payload(events), Dropped(input, events))
    decreases |events|
  {
    hide Cut;
    if !HasLf(input) && events != [] {
      var rest := events[1..];
      assert [] + Payload(rest) == Payload(rest);
      match events[0] {
        case Stall =>
          HarmlessIff([], rest);
          DroppedBeforeLf([], rest);
          StallDrops(input, Payload(rest), Dropped([], rest));
        case Fault(_) =>
        case Data(bytes) =>
          HarmlessIff(input + bytes, rest);
          assert input + bytes + Payload(rest) == input + Payload(events);
      }
    }
  }

  /** A stall with input in hand, in front of bytes of which d more are dropped. */
  lemma StallDrops(input: seq<Byte>, rest: seq<Byte>, d: nat)
    requires d <= Cut(rest, {LF})
    ensures DropsNothingSeen(input + rest, |input| + d) <==>
            (input == [] || (input == [CR] && [LF] <= rest)) && DropsNothingSeen(rest, d)
  {
    hide Cut;
    if [LF] <= rest {
      StartsWithLf(rest);
    }
    if input == [] {
      assert input + rest == rest;
    } else {
      assert (input + rest)[0] == input[0];
      assert |input| == 1 ==> (input + rest)[1..] == rest;
    }
  }

  lemma StartsWithLf(s: seq<Byte>)
    requires [LF] <= s
    ensures Cut(s, {LF}) == 0
  {
  }

  /** The bytes of the line before its ending, or of the unterminated line. */
  ghost function Raw(all: seq<Byte>): seq<Byte> {
    if HasLf(all) then StripCr(all[..Cut(all, {LF})]) else all
  }

  lemma LineBytes(all: seq<Byte>, fault: Option<int>)
    requires FreeLineOf(all, fault).Ok?
    ensures Encode(FreeLineOf(all, fault).value.text) == Raw(all)
  {
    hide Cut, Encode;
  }

  lemma CutBehind(all: seq<Byte>, d: nat)
    requires d <= Cut(all, {LF})
    ensures Cut(all[d..], {LF}) == Cut(all, {LF}) - d
    ensures HasLf(all[d..]) == HasLf(all)
  {
    hide Cut;
    CutIsFirst(all, {LF});
    var i := Cut(all, {LF});
    var clear, tail := all[d..i], all[i..];
    assert clear + tail == all[d..];
    assert forall x | x in clear :: x in all[..i];
    CutIs(clear, tail, {LF});
  }

  /** A decoded line is the same without its first d bytes only if they are the CR of an empty line, or none. */
  lemma SameLineIff(all: seq<Byte>, d: nat, fault: Option<int>)
    requires d <= Cut(all, {LF}) && FreeLineOf(all, fault).Ok?
    ensures FreeLineOf(all[d..], fault) == FreeLineOf(all, fault) <==> DropsNothingSeen(all, d)
  {
    hide Cut, DecodeLine, Encode;
    CutBehind(all, d);
    var i := Cut(all, {LF});
    if d == 0 {
      assert all[0..] == all;
    } else {
      LineBytes(all, fault);
      if FreeLineOf(all[d..], fault) == FreeLineOf(all, fault) {
        LineBytes(all[d..], fault);
        assert Raw(all[d..]) == Raw(all);
        if HasLf(all) {
          assert all[d..][..i - d] == all[d..i];
          assert d == 1 && i == 1 && all[0] == CR && all[1] == LF;
        }
      } else if DropsNothingSeen(all, d) {
        CrLfLine(all, fault);
      }
    }
  }

  lemma CrLfLine(all: seq<Byte>, fault: Option<int>)
    requires [CR, LF] <= all
    ensures FreeLineOf(all[1..], fault) == FreeLineOf(all, fault)
  {
    var blank: seq<Byte> := [CR];
    assert all == blank + all[1..];
    CutIs(blank, all[1..], {LF});
    assert Cut(all[1..], {LF}) == 0;
    assert all[..1] == [CR] && StripCr(all[..1]) == [] && all[1..][..0] == [] && all[1..][1..] == all[2..];
  }

  // ---------- The exact condition ----------

  /** A result refines at most one meaning. */
  lemma RefinesOne(line: Result<Line, Error>, after: seq<Event>, before: seq<Event>, meaning: Result<Line, Error>,
      other: Result<Line, Error>)
    requires Refines(line, after, before, meaning)
    ensures Refines(line, after, before, other) <==> other == meaning
  {
  }

  /**
   Polled again after every stall, the reader gives the line the bytes mean, with nothing lost behind it, if and
   only if the stalls in front of the line feed are harmless.
   */
  lemma RetryExactIff(input: seq<Byte>, events: seq<Event>, overflow: Error)
    requires FreeLineOf(input + Payload(events), FaultOf(events)).Ok?
    ensures var r := Retry(input, events, overflow);
            && r.line.Ready?
            && (Refines(r.line.value, r.events, events, FreeLineOf(input + Payload(events), FaultOf(events))) <==>
                  StallsHarmless(input, events))
  {
    hide Retry, FreeLineOf, StallsHarmless, DropsNothingSeen, Refines, Cut;
    var all, d := input + Payload(events), Dropped(input, events);
    RetryReadsSeen(input, events, overflow);
    DroppedBeforeLf(input, events);
    SameLineIff(all, d, FaultOf(events));
    HarmlessIff(input, events);
    var r := Retry(input, events, overflow);
    RefinesOne(r.line.value, r.events, events, FreeLineOf(Seen(input, events), FaultOf(events)),
               FreeLineOf(all, FaultOf(events)));
  }

  // ---------- Under a limit ----------

  /** The same reader under a limit, as read_chunked polls it. */
  ghost function LimitedRetry(input: seq<Byte>, events: seq<Event>, max: nat, overflow: Error): Polled
    decreases |events|
  {
    var polled := PollLine(input, events, Some(max), overflow);
    if polled.line.Pending? then LimitedRetry([], polled.events, max, overflow) else polled
  }

  /** A piece arrives while max bytes have been collected since the last stall, and no line feed. */
  ghost predicate RetryFelt(input: seq<Byte>, events: seq<Event>, max: nat)
    decreases |events|
  {
    !HasLf(input) && events != [] &&
    match events[0]
    case Stall => RetryFelt([], events[1..], max)
    case Fault(_) => false
    case Data(bytes) => |input| >= max || RetryFelt(input + bytes, events[1..], max)
  }

  lemma LimitedRetryStep(input: seq<Byte>, events: seq<Event>, max: nat, overflow: Error)
    requires !HasLf(input) && events != []
    ensures events[0].Stall? ==>
              LimitedRetry(input, events, max, overflow) == LimitedRetry([], events[1..], max, overflow)
    ensures events[0].Data? && |input| < max ==>
              LimitedRetry(input, events, max, overflow) ==
              LimitedRetry(input + events[0].bytes, events[1..], max, overflow)
    ensures events[0].Data? && |input| >= max ==>
              LimitedRetry(input, events, max, overflow).line == Ready(Err(overflow))
  {
  }

  /** Where the limit is felt the reader reports the overflow, and everywhere else it reads as without a limit. */
  lemma {:induction false} LimitedRetryIff(input: seq<Byte>, events: seq<Event>, max: nat, overflow: Error)
    ensures var r := LimitedRetry(input, events, max, overflow);
            if RetryFelt(input, events, max) then r.line == Ready(Err(overflow))
            else r == Retry(input, events, overflow)
    decreases |events|
  {
    if !HasLf(input) && events != [] && !events[0].Fault? {
      hide Retry, LimitedRetry, PollLine, Cut;
      RetryStep(input, events, overflow);
      LimitedRetryStep(input, events, max, overflow);
      if events[0].Stall? {
        LimitedRetryIff([], events[1..], max, overflow);
      } else if |input| < max {
        LimitedRetryIff(input + events[0].bytes, events[1..], max, overflow);
      }
    }
  }

  lemma {:induction false} ShortRawNotFelt(input: seq<Byte>, events: seq<Event>, max: nat)
    requires Cut(input + Payload(events), {LF}) < max
    ensures !RetryFelt(input, events, max)
    decreases |events|
  {
    hide Cut;
    CutAppend(input, Payload(events), {LF});
    if !HasLf(input) && events != [] {
      match events[0] {
        case Stall =>
          assert [] + Payload(events[1..]) == Payload(events[1..]);
          ShortRawNotFelt([], events[1..], max);
        case Fault(_) =>
        case Data(bytes) =>
          assert input + bytes + Payload(events[1..]) == input + Payload(events);
          ShortRawNotFelt(input + bytes, events[1..], max);
      }
    }
  }

  lemma ShortRaw(all: seq<Byte>, fault: Option<int>)
    requires FreeLineOf(all, fault).Ok?
    ensures Cut(all, {LF}) <= |Encode(FreeLineOf(all, fault).value.text)| + 1
  {
    hide Cut, Encode;
    LineBytes(all, fault);
  }

  /** So for a line that fits the limit with its ending the same condition is exact under the limit. */
  lemma LimitedRetryExactIff(input: seq<Byte>, events: seq<Event>, max: nat, overflow: Error)
    requires var meaning := FreeLineOf(input + Payload(events), FaultOf(events));
             meaning.Ok? && |Encode(meaning.value.text)| + 2 <= max
    ensures var r := LimitedRetry(input, events, max, overflow);
            && r.line.Ready?
            && (Refines(r.line.value, r.events, events, FreeLineOf(input + Payload(events), FaultOf(events))) <==>
                  StallsHarmless(input, events))
  {
    hide Retry, LimitedRetry, FreeLineOf, StallsHarmless, Refines, Cut, Encode, RetryFelt;
    ShortRaw(input + Payload(events), FaultOf(events));
    ShortRawNotFelt(input, events, max);
    LimitedRetryIff(input, events, max, overflow);
    RetryExactIff(input, events, overflow);
  }

  // ---------- What a stall loses ----------

  /**
   A stall in the middle of a line loses the bytes in hand: for every line ab that arrives as a, a stall, and
   b, the polled reader answers Pending and then reads b, while the asynchronous reader reads ab.
   */
  lemma StallLosesBytes(a: string, b: string, overflow: Error)
    requires '\n' !in a && '\n' !in b && |Encode(a + b)| + 2 <= USIZE_MAX
    ensures var first, second := Data(Encode(a)), Data(Encode(b) + [CR, LF]);
            && PollLine([], [first, Stall, second], None, overflow) == Polled(Pending, [second])
            && PollLine([], [second], None, overflow) == Polled(Ready(Ok(Line(b, []))), [])
            && AsyncLine([], [first, Stall, second], USIZE_MAX, overflow).line == Ok(Line(a + b, []))
  {
    hide Encode, Cut, AsyncLine;
    var first, second := Data(Encode(a)), Data(Encode(b) + [CR, LF]);
    var none: seq<Byte> := [];
    NoLf(a);
    assert [first, Stall, second][1..] == [Stall, second] && [Stall, second][1..] == [second] && [second][1..] == [];
    assert none + Encode(a) == Encode(a) && none + second.bytes == second.bytes;
    assert PollLine(Encode(a), [Stall, second], None, overflow) == Polled(Pending, [second]);
    assert second.bytes + none == second.bytes;
    LineOfPrinted(b, [CR, LF], none, None, |second.bytes|, overflow);
    assert PollLine(second.bytes, [], None, overflow) == Polled(Ready(FirstLine(second.bytes)), []);
    ReadAcrossStall(a, b, overflow);
  }

  lemma NoLf(text: string)
    requires '\n' !in text
    ensures !HasLf(Encode(text))
  {
    AsciiByte(text, LF);
    assert Encode(text) + [] == Encode(text);
    CutIs(Encode(text), [], {LF});
  }

  lemma ReadAcrossStall(a: string, b: string, overflow: Error)
    requires '\n' !in a && '\n' !in b && |Encode(a + b)| + 2 <= USIZE_MAX
    ensures var events := [Data(Encode(a)), Stall, Data(Encode(b) + [CR, LF])];
            AsyncLine([], events, USIZE_MAX, overflow).line == Ok(Line(a + b, []))
  {
    hide Encode, AsyncLine, LineOf;
    var first, second := Data(Encode(a)), Data(Encode(b) + [CR, LF]);
    var none: seq<Byte> := [];
    var events := [first, Stall, second];
    assert events[1..] == [Stall, second] && [Stall, second][1..] == [second] && [second][1..] == [];
    EncodeAppend(a, b);
    var all := Encode(a + b) + [CR, LF];
    assert Payload([second]) == second.bytes + Payload([]) == second.bytes;
    assert Payload(events) == Encode(a) + second.bytes == all;
    AsyncLineRefinesBytes([], events, USIZE_MAX, overflow);
    assert none + Payload(events) == all + none;
    LineOfPrinted(a + b, [CR, LF], none, None, USIZE_MAX, overflow);
    assert FaultOf([second]) == FaultOf([]) == None;
    assert FaultOf(events) == None;
  }
}

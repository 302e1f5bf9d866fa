/** The limit of the poll-based line reader of src/response.rs, which is looked at only when another piece arrives. */
module PolledLimits {
  import opened Wrappers
  import opened Scan
  import opened Utf8
  import opened Transport
  import opened Lines
  import opened PolledLines

  // ---------- When the limit is felt ----------

  /** The line from `at` on has no line feed in hand yet, and at least max bytes. */
  predicate Waiting(arrived: seq<Byte>, at: nat, max: nat) {
    && at + max <= |arrived| && (at == 0 || arrived[at - 1] == LF)
    && !HasLf(arrived[at..])
  }

  /** The bytes of an event. */
  function PieceOf(e: Event): seq<Byte> {
    if e.Data? then e.bytes else []
  }

  /** Some piece arrives, before any failure, while the line that starts at `at` is waiting with max bytes in hand. */
  ghost predicate Felt(arrived: seq<Byte>, events: seq<Event>, at: nat, max: nat)
    decreases |events|
  {
    && events != [] && !events[0].Fault?
    && ((events[0].Data? && Waiting(arrived, at, max)) || Felt(arrived + PieceOf(events[0]), events[1..], at, max))
  }

  /** Once the line has its line feed, the limit is no longer felt. */
  lemma {:induction false} NotFeltBehindLf(arrived: seq<Byte>, events: seq<Event>, at: nat, max: nat)
    requires at <= |arrived| && HasLf(arrived[at..])
    ensures !Felt(arrived, events, at, max)
    decreases |events|
  {
    hide Cut;
    if events != [] {
      var bytes := PieceOf(events[0]);
      CutAppend(arrived[at..], bytes, {LF});
      assert (arrived + bytes)[at..] == arrived[at..] + bytes;
      NotFeltBehindLf(arrived + bytes, events[1..], at, max);
    }
  }

  /** The errors a line can end with other than the overflow. */
  predicate IsOverflow(e: Error) {
    !e.IoError? && !e.InvalidUtf8InResponse?
  }

  /** Without stalls the reader reports its overflow if and only if the limit is felt. */
  lemma {:induction false} OverflowIff(input: seq<Byte>, events: seq<Event>, max: nat, overflow: Error)
    requires NeverStalls(events) && IsOverflow(overflow)
    ensures PollLine(input, events, Some(max), overflow).line == Ready(Err(overflow)) <==> Felt(input, events, 0, max)
    decreases |events|
  {
    hide Cut, DecodeLine;
    assert input[0..] == input;
    if HasLf(input) {
      NotFeltBehindLf(input, events, 0, max);
    } else if events != [] {
      assert events[0] in events && NeverStalls(events[1..]);
      if events[0].Data? && |input| < max {
        OverflowIff(input + events[0].bytes, events[1..], max, overflow);
      }
    }
  }

  /** A limit only ever adds the overflow. */
  lemma {:induction false} LimitedOrOverflow(input: seq<Byte>, events: seq<Event>, max: nat, overflow: Error)
    ensures var limited := PollLine(input, events, Some(max), overflow);
            limited == PollLine(input, events, None, overflow) || limited.line == Ready(Err(overflow))
    decreases |events|
  {
    if !HasLf(input) && events != [] && events[0].Data? {
      LimitedOrOverflow(input + events[0].bytes, events[1..], max, overflow);
    }
  }

  /** So under a limit the reader reports the overflow where the limit is felt, and else what it reads without one. */
  lemma LimitedLine(input: seq<Byte>, events: seq<Event>, max: nat, overflow: Error)
    requires NeverStalls(events) && IsOverflow(overflow)
    ensures Felt(input, events, 0, max) ==> PollLine(input, events, Some(max), overflow).line == Ready(Err(overflow))
    ensures !Felt(input, events, 0, max) ==>
              PollLine(input, events, Some(max), overflow) == PollLine(input, events, None, overflow)
  {
    hide PollLine, Felt;
    OverflowIff(input, events, max, overflow);
    LimitedOrOverflow(input, events, max, overflow);
  }

  // ---------- A limit that is never felt ----------

  /** What has been collected is at most the line and its CR. */
  lemma {:induction false} CollectedFits(input: seq<Byte>, events: seq<Event>, overflow: Error)
    requires !HasLf(input)
    requires PollLine(input, events, None, overflow).line.Ready? &&
             PollLine(input, events, None, overflow).line.value.Ok?
    ensures |input| <= |Encode(PollLine(input, events, None, overflow).line.value.value.text)| + 1
    decreases |events|
  {
    hide Encode, Decode, Cut;
    if events != [] && events[0].Data? {
      var next := input + events[0].bytes;
      CutAppend(input, events[0].bytes, {LF});
      if !HasLf(next) {
        CollectedFits(next, events[1..], overflow);
      }
    }
  }

  /** A limit of the line and two bytes is never felt, wherever the line is cut. */
  lemma {:induction false} LimitSuffices(input: seq<Byte>, events: seq<Event>, max: nat, overflow: Error)
    requires PollLine(input, events, None, overflow).line.Ready? &&
             PollLine(input, events, None, overflow).line.value.Ok?
    requires |Encode(PollLine(input, events, None, overflow).line.value.value.text)| + 2 <= max
    ensures PollLine(input, events, Some(max), overflow) == PollLine(input, events, None, overflow)
    decreases |events|
  {
    hide Encode, Decode;
    if !HasLf(input) && events != [] && events[0].Data? {
      CollectedFits(input, events, overflow);
      LimitSuffices(input + events[0].bytes, events[1..], max, overflow);
    }
  }

  /** A line of at most max bytes with its ending never feels the limit. */
  lemma ShortLineNotFelt(input: seq<Byte>, events: seq<Event>, max: nat)
    requires NeverStalls(events)
    requires var meaning := FreeLineOf(input + Payload(events), FaultOf(events));
             meaning.Ok? && |Encode(meaning.value.text)| + 2 <= max
    ensures !Felt(input, events, 0, max)
  {
    hide PollLine, FreeLineOf, Encode, Felt;
    UnlimitedRefinesBytes(input, events, HeadersOverflow);
    LimitSuffices(input, events, max, HeadersOverflow);
    OverflowIff(input, events, max, HeadersOverflow);
  }

  // ---------- Behind a line that was read ----------

  lemma LfBehind(read: seq<Byte>, inHand: seq<Byte>, at: nat)
    requires read != [] && read[|read| - 1] == LF
    ensures forall max: nat :: Waiting(read + inHand, |read| + at, max) == Waiting(inHand, at, max)
  {
    assert at <= |inHand| ==> (read + inHand)[|read| + at..] == inHand[at..];
  }

  /** Bytes up to a line feed that have been read do not matter to the lines behind them. */
  lemma {:induction false} FeltBehind(read: seq<Byte>, inHand: seq<Byte>, events: seq<Event>, at: nat, max: nat)
    requires read != [] && read[|read| - 1] == LF
    ensures Felt(read + inHand, events, |read| + at, max) == Felt(inHand, events, at, max)
    decreases |events|
  {
    hide Waiting;
    LfBehind(read, inHand, at);
    if events != [] {
      var bytes := PieceOf(events[0]);
      assert read + inHand + bytes == read + (inHand + bytes);
      FeltBehind(read, inHand + bytes, events[1..], at, max);
    }
  }

  /** The bytes that a line has taken: the whole input but what is left behind it. */
  ghost function Taken(input: seq<Byte>, events: seq<Event>, line: Line, after: seq<Event>): int {
    |input + Payload(events)| - |line.rest + Payload(after)|
  }

  /** So behind a line the limit is felt as from the state that the reader leaves. */
  lemma {:induction false} FeltAfterLine(input: seq<Byte>, events: seq<Event>, line: Line, after: seq<Event>, at: nat,
      max: nat)
    requires PollLine(input, events, None, HeadersOverflow) == Polled(Ready(Ok(line)), after) && line.text != ""
    ensures Taken(input, events, line, after) > 0
    ensures Felt(input, events, Taken(input, events, line, after) + at, max) == Felt(line.rest, after, at, max)
    decreases |events|
  {
    hide Cut, DecodeLine, FirstLine, Waiting, Encode;
    if HasLf(input) {
      FeltInHand(input, events, line, at, max);
    } else if events == [] {
      FeltAtEnd(input, line);
    } else {
      var bytes := events[0].bytes;
      hide HasLf;
      assert input + Payload(events) == input + bytes + Payload(events[1..]);
      FeltAfterLine(input + bytes, events[1..], line, after, at, max);
      NotWaitingWithoutLf(input, Taken(input, events, line, after) + at, max);
    }
  }

  lemma FeltAtEnd(input: seq<Byte>, line: Line)
    requires DecodeLine(input, []) == Ok(line) && line.text != ""
    ensures input != [] && line.rest == []
  {
    assert Encode("") == [];
  }

  lemma FeltInHand(input: seq<Byte>, events: seq<Event>, line: Line, at: nat, max: nat)
    requires HasLf(input) && FirstLine(input) == Ok(line)
    ensures Taken(input, events, line, events) > 0
    ensures Felt(input, events, Taken(input, events, line, events) + at, max) == Felt(line.rest, events, at, max)
  {
    hide Felt, FirstLine, HasLf, Payload;
    FirstLineSplits(input, line);
    var read := input[..|input| - |line.rest|];
    FeltBehind(read, line.rest, events, at, max);
  }

  lemma FirstLineSplits(input: seq<Byte>, line: Line)
    requires HasLf(input) && FirstLine(input) == Ok(line)
    ensures |line.rest| < |input|
    ensures var read := input[..|input| - |line.rest|]; input == read + line.rest && read[|read| - 1] == LF
  {
    hide Cut, DecodeLine;
    assert line.rest == input[Cut(input, {LF}) + 1..];
  }

  lemma NotWaitingWithoutLf(input: seq<Byte>, at: nat, max: nat)
    requires !HasLf(input) && at > 0
    ensures !Waiting(input, at, max)
  {
    CutIsFirst(input, {LF});
    assert input[..|input|] == input;
  }
}

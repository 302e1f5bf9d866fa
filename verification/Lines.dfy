/** The two line readers of src/response.rs, and the meaning of a line in the bytes alone. */
module Lines {
  import opened Wrappers
  import opened Scan
  import opened Utf8
  import opened Transport

  const LF: Byte := 10
  const CR: Byte := 13

  /** A line without its ending, and the bytes already taken from the stream behind it. */
  datatype Line = Line(text: string, rest: seq<Byte>)

  function StripCr(raw: seq<Byte>): seq<Byte> {
    if raw != [] && raw[|raw| - 1] == CR then raw[..|raw| - 1] else raw
  }

  predicate HasLf(input: seq<Byte>) {
    Cut(input, {LF}) < |input|
  }

  /** String::from_utf8 on the collected bytes. */
  function DecodeLine(bytes: seq<Byte>, rest: seq<Byte>): (r: Result<Line, Error>)
    ensures r.Ok? ==> Encode(r.value.text) == bytes && r.value.rest == rest
    ensures r.Err? ==> r.error == InvalidUtf8InResponse
  {
    var text := Decode(bytes);
    if text.Some? then Ok(Line(text.value, rest)) else Err(InvalidUtf8InResponse)
  }

  /** The line that ends at the first line feed of input. */
  function FirstLine(input: seq<Byte>): (r: Result<Line, Error>)
    requires HasLf(input)
    ensures r.Ok? ==> |r.value.rest| < |input|
  {
    var i := Cut(input, {LF});
    DecodeLine(StripCr(input[..i]), input[i + 1..])
  }

  /** The raw line with its ending is longer than max, or an unterminated line is. */
  predicate Overflows(input: seq<Byte>, max: nat) {
    if HasLf(input) then Cut(input, {LF}) + 1 > max else |input| > max
  }

  // ---------- What a line is, in the bytes alone ----------

  /** The line at the start of a finished payload, under a length limit. */
  ghost function LineOf(input: seq<Byte>, fault: Option<int>, max: nat, overflow: Error): (r: Result<Line, Error>)
    ensures r.Ok? ==> |r.value.rest| <= |input| && (r.value.text != "" ==> |r.value.rest| < |input|)
  {
    if Overflows(input, max) then Err(overflow) else FreeLineOf(input, fault)
  }

  /** The same without a limit. */
  ghost function FreeLineOf(input: seq<Byte>, fault: Option<int>): (r: Result<Line, Error>)
    ensures r.Ok? ==> |r.value.rest| <= |input| && (r.value.text != "" ==> |r.value.rest| < |input|)
  {
    if HasLf(input) then FirstLine(input)
    else if fault.Some? then Err(IoError(IoKind.Transport(fault.value)))
    else DecodeLine(input, [])
  }

  /** What stood between the text of a line and the rest of the payload. */
  ghost predicate IsEnding(ending: seq<Byte>, text: string, rest: seq<Byte>) {
    if ending == [] then rest == []
    else ending == [CR, LF] || (ending == [LF] && (text == "" || text[|text| - 1] != '\r'))
  }

  /** A line is an exact split: its bytes, one recognised ending and the rest are the input again. */
  lemma LineIsExactSplit(input: seq<Byte>, fault: Option<int>, max: nat, overflow: Error)
    returns (ending: seq<Byte>)
    requires LineOf(input, fault, max, overflow).Ok?
    ensures var line := LineOf(input, fault, max, overflow).value;
            && input == Encode(line.text) + ending + line.rest
            && IsEnding(ending, line.text, line.rest)
            && '\n' !in line.text
            && |Encode(line.text)| + |ending| <= max
  {
    hide Cut, Decode, Encode;
    var line := LineOf(input, fault, max, overflow).value;
    var i := Cut(input, {LF});
    AsciiByte(line.text, LF);
    CutIsFirst(input, {LF});
    if HasLf(input) {
      var raw := input[..i];
      assert input == raw + [LF] + line.rest;
      ending := if StripCr(raw) == raw then [LF] else [CR, LF];
      if StripCr(raw) == raw {
        if line.text != "" {
          LastByte(line.text);
        }
      } else {
        assert raw == StripCr(raw) + [CR];
      }
    } else {
      ending := [];
      assert input[..i] == input;
    }
  }

  lemma LastByte(s: string)
    requires s != ""
    ensures Encode(s) != [] && (Encode(s)[|Encode(s)| - 1] == CR <==> s[|s| - 1] == '\r')
  {
    var init := s[..|s| - 1];
    assert s == init + [s[|s| - 1]];
    EncodeAppend(init, [s[|s| - 1]]);
    assert Encode([s[|s| - 1]]) == EncodeChar(s[|s| - 1]) + Encode("");
  }

  lemma PrintedLfAt(text: string, ending: seq<Byte>, rest: seq<Byte>)
    requires '\n' !in text && (ending == [LF] || ending == [CR, LF])
    ensures Cut(Encode(text) + ending + rest, {LF}) == |Encode(text)| + |ending| - 1
  {
    var raw := Encode(text) + ending[..|ending| - 1];
    AsciiByte(text, LF);
    assert Encode(text) + ending + rest == raw + ([LF] + rest);
    CutIs(raw, [LF] + rest, {LF});
  }

  /** Conversely, every text written with a line feed behind it is read back, whatever follows. */
  lemma LineOfPrinted(text: string, ending: seq<Byte>, rest: seq<Byte>, fault: Option<int>, max: nat, overflow: Error)
    requires '\n' !in text && ending != [] && IsEnding(ending, text, rest)
    ensures HasLf(Encode(text) + ending + rest)
    ensures LineOf(Encode(text) + ending + rest, fault, max, overflow) ==
            if |Encode(text)| + |ending| > max then Err(overflow) else Ok(Line(text, rest))
  {
    var input := Encode(text) + ending + rest;
    PrintedLfAt(text, ending, rest);
    var i := Cut(input, {LF});
    assert input[i + 1..] == rest;
    assert StripCr(input[..i]) == Encode(text) by {
      if ending == [CR, LF] {
        assert input[..i] == Encode(text) + [CR];
      } else {
        assert input[..i] == Encode(text);
        if text != "" {
          LastByte(text);
        }
      }
    }
    DecodeEncode(text);
  }

  // ---------- The asynchronous reader ----------

  /** A line, or an error, and the events the reader left in the stream. */
  datatype Reading = Reading(line: Result<Line, Error>, events: seq<Event>)

  /** read_line_async, event by event; input is what has been collected without finding a line feed. */
  ghost function AsyncLine(input: seq<Byte>, events: seq<Event>, max: nat, overflow: Error): (r: Reading)
    ensures |r.events| <= |events|
    decreases |events|
  {
    if Overflows(input, max) then Reading(Err(overflow), events)
    else if HasLf(input) then Reading(FirstLine(input), events)
    else if events == [] then Reading(DecodeLine(input, []), [])
    else match events[0]
      case Stall => AsyncLine(input, events[1..], max, overflow)
      case Fault(code) => Reading(Err(IoError(IoKind.Transport(code))), events[1..])
      case Data(bytes) => AsyncLine(input + bytes, events[1..], max, overflow)
  }

  lemma OverflowsAppend(a: seq<Byte>, b: seq<Byte>, max: nat)
    ensures HasLf(a) ==> HasLf(a + b) && Cut(a + b, {LF}) == Cut(a, {LF})
    ensures HasLf(a) ==> Overflows(a + b, max) == Overflows(a, max)
    ensures Overflows(a, max) ==> Overflows(a + b, max)
  {
    CutAppend(a, b, {LF});
  }

  lemma FirstLineAppend(a: seq<Byte>, b: seq<Byte>)
    requires HasLf(a)
    ensures HasLf(a + b)
    ensures FirstLine(a).Err? ==> FirstLine(a + b) == FirstLine(a)
    ensures FirstLine(a).Ok? ==> FirstLine(a + b) == Ok(Line(FirstLine(a).value.text, FirstLine(a).value.rest + b))
  {
    CutAppend(a, b, {LF});
    var i := Cut(a, {LF});
    assert (a + b)[..i] == a[..i] && (a + b)[i + 1..] == a[i + 1..] + b;
  }

  /** The reading agrees with a line of the whole payload: same text, same error, and no byte lost behind it. */
  ghost predicate Refines(reading: Result<Line, Error>, after: seq<Event>, before: seq<Event>,
      meaning: Result<Line, Error>) {
    match reading
    case Err(e) => meaning == Err(e)
    case Ok(line) =>
      meaning == Ok(Line(line.text, line.rest + Payload(after))) && FaultOf(after) == FaultOf(before)
  }

  /** The asynchronous reader sees only the bytes: cuts and stalls do not matter. */
  lemma {:induction false} AsyncLineRefinesBytes(input: seq<Byte>, events: seq<Event>, max: nat, overflow: Error)
    ensures var r := AsyncLine(input, events, max, overflow);
            Refines(r.line, r.events, events, LineOf(input + Payload(events), FaultOf(events), max, overflow))
    decreases |events|
  {
    hide Cut, DecodeLine, FirstLine, Overflows, HasLf;
    OverflowsAppend(input, Payload(events), max);
    if Overflows(input, max) {
    } else if HasLf(input) {
      FirstLineAppend(input, Payload(events));
    } else if events == [] {
      assert input + Payload(events) == input;
      assert forall rest: seq<Byte> :: rest + Payload(events) == rest;
    } else {
      match events[0] {
        case Stall =>
          AsyncLineRefinesBytes(input, events[1..], max, overflow);
        case Fault(code) =>
          assert Payload(events) == [] && input + [] == input;
        case Data(bytes) =>
          AsyncLineRefinesBytes(input + bytes, events[1..], max, overflow);
          assert input + Payload(events) == input + bytes + Payload(events[1..]);
      }
    }
  }

  /** The variables of the byte loop: bytes, new_line_flag and trailing. */
  ghost predicate Collected(bytes: seq<Byte>, searching: bool, trailing: seq<Byte>, input: seq<Byte>) {
    searching == !HasLf(input) &&
    if searching then bytes == input && trailing == []
    else bytes == StripCr(input[..Cut(input, {LF})]) && trailing == input[Cut(input, {LF}) + 1..]
  }

  lemma CollectOne(input: seq<Byte>, b: Byte)
    ensures var next := input + [b];
            && (HasLf(input) ==> HasLf(next) && Cut(next, {LF}) == Cut(input, {LF}))
            && (!HasLf(input) ==> HasLf(next) == (b == LF) && (b == LF ==> Cut(next, {LF}) == |input|))
  {
    hide Cut;
    CutAppend(input, [b], {LF});
    CutOne(b, {LF});
  }

  /** One of the two byte loops of read_line_async; overflowed stands for its early return. */
  method CollectLimited(chunk: seq<Byte>, max: nat, bytes0: seq<Byte>, ghost before: seq<Byte>)
    returns (bytes: seq<Byte>, searching: bool, trailing: seq<Byte>, overflowed: bool)
    requires Collected(bytes0, true, [], before) && !Overflows(before, max)
    ensures overflowed == Overflows(before + chunk, max)
    ensures !overflowed ==> Collected(bytes, searching, trailing, before + chunk)
  {
    hide Cut;
    bytes, searching, trailing, overflowed := bytes0, true, [], false;
    assert before + chunk[..0] == before;
    for k := 0 to |chunk|
      invariant !Overflows(before + chunk[..k], max)
      invariant Collected(bytes, searching, trailing, before + chunk[..k])
    {
      ghost var input := before + chunk[..k];
      var byte := chunk[k];
      CollectOne(input, byte);
      assert before + chunk[..k + 1] == input + [byte];
      if searching {
        if |bytes| >= max {
          assert before + chunk == input + [byte] + chunk[k + 1..];
          OverflowsAppend(input + [byte], chunk[k + 1..], max);
          overflowed := true;
          return;
        }
        if byte == LF {
          if bytes != [] && bytes[|bytes| - 1] == CR {
            bytes := bytes[..|bytes| - 1];
          }
          searching := false;
          assert (input + [byte])[..|input|] == input;
        } else {
          bytes := bytes + [byte];
        }
      } else {
        trailing := trailing + [byte];
        assert (input + [byte])[..Cut(input, {LF})] == input[..Cut(input, {LF})];
      }
    }
    assert chunk[..|chunk|] == chunk;
  }

  /** read_line_async of src/response.rs. */
  method ReadLineAsync(stream: ByteStream, maxLen: Option<nat>, overflow: Error, prefix: seq<Byte>)
    returns (r: Result<Line, Error>)
    modifies stream
    ensures Reading(r, stream.events) == AsyncLine(prefix, old(stream.events), Limit(maxLen), overflow)
  {
    hide Cut;
    var max := if maxLen.Some? then maxLen.value else USIZE_MAX;
    var bytes, searching, trailing, overflowed := CollectLimited(prefix, max, [], []);
    assert [] + prefix == prefix;
    if overflowed {
      return Err(overflow);
    }
    ghost var input := prefix;
    while searching
      invariant !Overflows(input, max) && Collected(bytes, searching, trailing, input)
      invariant AsyncLine(input, stream.events, max, overflow) == AsyncLine(prefix, old(stream.events), max, overflow)
      decreases searching, |stream.events|
    {
      AsyncLineSkips(input, stream.events, max, overflow);
      var item := stream.Next();
      match item {
        case None =>
          break;
        case Some(Err(e)) =>
          return Err(e);
        case Some(Ok(chunk)) =>
          bytes, searching, trailing, overflowed := CollectLimited(chunk, max, bytes, input);
          input := input + chunk;
          if overflowed {
            return Err(overflow);
          }
      }
    }
    r := DecodeLine(bytes, trailing);
  }

  /** max_len.unwrap_or(usize::MAX). */
  function Limit(maxLen: Option<nat>): nat {
    if maxLen.Some? then maxLen.value else USIZE_MAX
  }

  lemma {:induction false} AsyncLineSkips(input: seq<Byte>, events: seq<Event>, max: nat, overflow: Error)
    requires !Overflows(input, max) && !HasLf(input)
    ensures AsyncLine(input, events, max, overflow) == AsyncLine(input, SkipStalls(events), max, overflow)
  {
    if events != [] && events[0].Stall? {
      AsyncLineSkips(input, events[1..], max, overflow);
    }
  }

  /** A line that the transport breaks off is the transport's error, in both readers' meaning. */
  lemma BrokenLine(input: seq<Byte>, code: int, max: nat, overflow: Error)
    requires LF !in input && |input| <= max
    ensures LineOf(input, Some(code), max, overflow) == Err(IoError(IoKind.Transport(code)))
    ensures FreeLineOf(input, Some(code)) == Err(IoError(IoKind.Transport(code)))
  {
    CutIs(input, [], {LF});
    assert input + [] == input;
  }

  /** A line that is no UTF-8 is an error of its own. */
  lemma UndecodableLine(raw: seq<Byte>, rest: seq<Byte>, fault: Option<int>)
    requires LF !in raw && (forall text: string :: Encode(text) != raw) && (raw == [] || raw[|raw| - 1] != CR)
    ensures FreeLineOf(raw + [LF] + rest, fault) == Err(InvalidUtf8InResponse)
  {
    var input := raw + ([LF] + rest);
    assert raw + [LF] + rest == input;
    CutIs(raw, [LF] + rest, {LF});
    assert input[..|raw|] == raw;
  }
}

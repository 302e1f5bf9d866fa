/** What every run of polls keeps: the accounts of the two counted body framings. */
module BodyRuns {
  import opened Wrappers
  import opened Text
  import opened Utf8
  import opened Transport
  import opened PolledLines
  import opened Framing
  import opened LazyState

  /** The state after k polls. */
  ghost function AfterPolls(l: Lazy, k: nat): Lazy {
    if k == 0 then l else PollStep(AfterPolls(l, k - 1)).next
  }

  /** The k-th poll, counted from zero. */
  ghost function PollAt(l: Lazy, k: nat): Step {
    PollStep(AfterPolls(l, k))
  }

  /** The body bytes handed out by the first k polls. */
  ghost function Delivered(l: Lazy, k: nat): seq<Byte> {
    if k == 0 then []
    else
      var item := PollAt(l, k - 1).item;
      Delivered(l, k - 1) + if Delivers(item) then item.value.value.value.bytes else []
  }

  /** No counter of the first k polls left the range of usize. */
  ghost predicate NoOverflow(l: Lazy, k: nat) {
    forall j: nat | j < k :: PollAt(l, j).item != Ready(Some(Err(ArithmeticOverflow)))
  }

  /** Every byte not yet handed out. */
  ghost function Held(l: Lazy): seq<Byte> {
    Carried(l) + AllBytes(l.events)
  }

  // ---------- Content-Length ----------

  lemma ContentLengthPoll(l: Lazy)
    requires l.state.ContentLength? && PollStep(l).item != Ready(Some(Err(ArithmeticOverflow)))
    ensures var s := PollStep(l);
            var bytes := if Delivers(s.item) then s.item.value.value.value.bytes else [];
            && s.next.state.ContentLength?
            && |bytes| + s.next.state.remaining == l.state.remaining
            && bytes + Held(s.next) == Held(l)
            && s.next.headers == l.headers
            && (s.item.Pending? ==> s.next.state == l.state && Held(s.next) == Held(l))
            && (Delivers(s.item) ==>
                  s.item.value.value.value.hint ==
                  |bytes| + if Carried(l) != [] then 0
                            else if s.next.state.remaining < 16384 then s.next.state.remaining
                            else 16384)
            && (l.state.remaining == 0 && Carried(l) == [] ==>
                  s == Step(Ready(None), l.(carried := None)))
  {
    assert [] + AllBytes(l.events) == AllBytes(l.events);
  }

  /**
   Conservation over every run: delivered bytes plus the counter are the declared length, and delivered bytes
   are a prefix of the body with nothing lost behind it.
   */
  lemma {:induction false} ContentLengthConserved(l: Lazy, k: nat)
    requires l.state.ContentLength? && NoOverflow(l, k)
    ensures var last := AfterPolls(l, k);
            && last.state.ContentLength?
            && |Delivered(l, k)| + last.state.remaining == l.state.remaining
            && Delivered(l, k) + Held(last) == Held(l)
            && last.headers == l.headers
  {
    hide PollStep, Held;
    if k > 0 {
      ContentLengthConserved(l, k - 1);
      var before := AfterPolls(l, k - 1);
      assert PollAt(l, k - 1) == PollStep(before);
      ContentLengthPoll(before);
    }
  }

  // ---------- Chunked ----------

  /** The nonzero chunk size that a poll from this state reads, or zero. */
  ghost function DeclaredBy(l: Lazy): nat {
    if !l.state.Chunked? || !l.state.expecting || l.state.left > 0 then 0
    else
      var polled := PollLine(Carried(l), l.events, Some(1024), MalformedChunkLength);
      if polled.line.Ready? && polled.line.value.Ok? && ChunkSize(polled.line.value.value.text).Some?
      then ChunkSize(polled.line.value.value.text).value
      else 0
  }

  /** A poll from this state takes a byte off the chunk counter and polls the transport for data. */
  ghost predicate PollsData(l: Lazy) {
    l.state.Chunked? && (l.state.left > 0 || DeclaredBy(l) > 0)
  }

  ghost function DeclaredSum(l: Lazy, k: nat): nat {
    if k == 0 then 0 else DeclaredSum(l, k - 1) + DeclaredBy(AfterPolls(l, k - 1))
  }

  ghost function DataPolls(l: Lazy, k: nat): nat {
    if k == 0 then 0 else DataPolls(l, k - 1) + if PollsData(AfterPolls(l, k - 1)) then 1 else 0
  }

  /** The body is complete, and the headers say so. */
  ghost predicate Completed(l: Lazy, total: nat) {
    && l.state == Chunked(false, 0, total)
    && l.carried.None?
    && "content-length" in l.headers && l.headers["content-length"] == Decimal(total)
    && "transfer-encoding" !in l.headers
  }

  lemma ChunkedPoll(l: Lazy)
    requires l.state.Chunked? && PollStep(l).item != Ready(Some(Err(ArithmeticOverflow)))
    requires l.state.expecting
    ensures var next := PollStep(l).next;
            && next.state.Chunked? && next.carried.None?
            && next.state.total == l.state.total + DeclaredBy(l)
            && next.state.left + (if PollsData(l) then 1 else 0) == l.state.left + DeclaredBy(l)
            && (!next.state.expecting ==> PollStep(l).item == Ready(None) && Completed(next, next.state.total))
  {
    hide PollLine, TrailerLoop, ChunkSize, Decimal;
  }

  lemma CompletedIsAbsorbing(l: Lazy, total: nat)
    requires Completed(l, total)
    ensures PollStep(l) == Step(Ready(None), l) && DeclaredBy(l) == 0 && !PollsData(l)
  {
  }

  /**
   The accounts of the chunked machine over every run: the total is the sum of the declared sizes and the
   data polls made plus what is left of the chunk; and once no more chunks are expected nothing is left, the
   content-length header is the decimal of that sum and the transfer coding is gone.
   */
  lemma {:induction false} ChunkedAccounts(l: Lazy, k: nat)
    requires l.state == Chunked(true, 0, 0) && NoOverflow(l, k)
    ensures var last := AfterPolls(l, k);
            && last.state.Chunked?
            && last.state.total == DeclaredSum(l, k)
            && last.state.total == DataPolls(l, k) + last.state.left
            && (!last.state.expecting ==> Completed(last, DeclaredSum(l, k)))
  {
    hide PollStep, DeclaredBy, PollsData, Completed;
    if k > 0 {
      ChunkedAccounts(l, k - 1);
      var before := AfterPolls(l, k - 1);
      assert PollAt(l, k - 1) == PollStep(before);
      if before.state.expecting {
        ChunkedPoll(before);
      } else {
        CompletedIsAbsorbing(before, DeclaredSum(l, k - 1));
      }
    }
  }

  /** Completion is for ever: later polls answer end of body and change nothing. */
  lemma {:induction false} CompletionIsFinal(l: Lazy, k: nat, more: nat)
    requires l.state == Chunked(true, 0, 0) && NoOverflow(l, k)
    requires AfterPolls(l, k).state.Chunked? && !AfterPolls(l, k).state.expecting
    ensures AfterPolls(l, k + more) == AfterPolls(l, k) && PollAt(l, k + more).item == Ready(None)
  {
    hide PollStep, DeclaredBy, PollsData, Completed;
    ChunkedAccounts(l, k);
    CompletedIsAbsorbing(AfterPolls(l, k), DeclaredSum(l, k));
    if more > 0 {
      CompletionIsFinal(l, k, more - 1);
    }
  }
}

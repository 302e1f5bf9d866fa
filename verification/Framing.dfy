/** How read_metadata of src/response.rs picks the body framing (section 3.3.3 of RFC 7230). */
module Framing {
  import opened Wrappers
  import opened Scan
  import opened Text
  import opened Headers

  /** HttpStreamState: Chunked is (expecting more chunks, left of the current chunk, total declared). */
  datatype HttpStreamState =
    | EndOnClose
    | ContentLength(remaining: nat)
    | Chunked(expecting: bool, left: nat, total: nat)

  predicate SaysChunked(name: string, value: string) {
    Trim(ToLower(name)) == "transfer-encoding" && Trim(ToLower(value)) == "chunked"
  }

  predicate NamesLength(name: string) {
    Trim(ToLower(name)) == "content-length"
  }

  /** str::parse::<usize>(value.trim()). */
  function LengthOf(value: string): Option<nat> {
    ParseUnsigned(Trim(value), 10, USIZE_MAX)
  }

  ghost predicate IsChunked(headers: HeaderMap) {
    exists k | k in headers :: SaysChunked(k, headers[k])
  }

  ghost predicate HasMalformedLength(headers: HeaderMap) {
    exists k | k in headers :: NamesLength(k) && LengthOf(headers[k]).None?
  }

  ghost predicate NamesAnyLength(headers: HeaderMap) {
    exists k | k in headers :: NamesLength(k)
  }

  /** The length in the last entry of an iteration order that names one. */
  function LastLength(headers: HeaderMap, order: seq<string>): Option<nat>
    requires forall k | k in order :: k in headers
  {
    if order == [] then None
    else
      var k := order[|order| - 1];
      if NamesLength(k) then LengthOf(headers[k]) else LastLength(headers, order[..|order| - 1])
  }

  /** The choice for one iteration order of the header map. */
  ghost function FramingOf(headers: HeaderMap, order: seq<string>): Result<HttpStreamState, Error>
    requires Enumerates(order, headers)
  {
    if HasMalformedLength(headers) then Err(MalformedContentLength)
    else if IsChunked(headers) then Ok(Chunked(true, 0, 0))
    else match LastLength(headers, order)
      case Some(n) => Ok(ContentLength(n))
      case None => Ok(EndOnClose)
  }

  /** The loop of read_metadata over the header map. */
  method ChooseFraming(headers: HeaderMap, order: seq<string>) returns (r: Result<HttpStreamState, Error>)
    requires Enumerates(order, headers)
    ensures r == FramingOf(headers, order)
  {
    hide SaysChunked, NamesLength, LengthOf;
    var chunked, contentLength := false, None;
    assert order[..0] == [];
    for i := 0 to |order|
      invariant chunked <==> exists j | 0 <= j < i :: SaysChunked(order[j], headers[order[j]])
      invariant forall j | 0 <= j < i :: NamesLength(order[j]) ==> LengthOf(headers[order[j]]).Some?
      invariant contentLength == LastLength(headers, order[..i])
    {
      var header := order[i];
      var value := headers[header];
      assert order[..i + 1][..i] == order[..i];
      if SaysChunked(header, value) {
        chunked := true;
      }
      if NamesLength(header) {
        match LengthOf(value) {
          case Some(length) => contentLength := Some(length);
          case None => return Err(MalformedContentLength);
        }
      }
    }
    assert order[..|order|] == order;
    assert chunked == IsChunked(headers);
    assert !HasMalformedLength(headers);
    r := Ok(if chunked then Chunked(true, 0, 0)
            else if contentLength.Some? then ContentLength(contentLength.value)
            else EndOnClose);
  }

  // ---------- Independence of the iteration order ----------

  /** Every entry that names a length gives the same one. */
  ghost predicate LengthsAgree(headers: HeaderMap) {
    forall k1, k2 | k1 in headers && k2 in headers && NamesLength(k1) && NamesLength(k2) ::
      LengthOf(headers[k1]) == LengthOf(headers[k2])
  }

  /** What the framing does not depend on: the header map alone decides. */
  ghost predicate Unambiguous(headers: HeaderMap) {
    HasMalformedLength(headers) || IsChunked(headers) || LengthsAgree(headers)
  }

  /** The framing depends only on the header map. */
  ghost predicate OrderIrrelevant(headers: HeaderMap) {
    forall o1, o2 | Enumerates(o1, headers) && Enumerates(o2, headers) ::
      FramingOf(headers, o1) == FramingOf(headers, o2)
  }

  /** A map can be iterated with any of its entries last. */
  lemma {:induction false} OrderEndingIn(headers: HeaderMap, k: string) returns (order: seq<string>)
    requires k in headers
    ensures Enumerates(order, headers) && order[|order| - 1] == k
    decreases |headers|
  {
    var others := headers - {k};
    var init: seq<string> := [];
    assert |others.Keys| < |headers.Keys| by {
      assert others.Keys == headers.Keys - {k};
    }
    if others != map[] {
      var k2 :| k2 in others;
      init := OrderEndingIn(others, k2);
    }
    order := init + [k];
    forall x | x in headers ensures x in order {
      assert x == k || x in others;
    }
  }

  lemma {:induction false} LastLengthOfAgreeing(headers: HeaderMap, order: seq<string>, k: string)
    requires forall x | x in order :: x in headers
    requires k in order && NamesLength(k) && LengthsAgree(headers)
    ensures LastLength(headers, order) == LengthOf(headers[k])
  {
    hide NamesLength, LengthOf;
    var last := order[|order| - 1];
    if !NamesLength(last) {
      var init := order[..|order| - 1];
      assert order == init + [last];
      LastLengthOfAgreeing(headers, init, k);
    }
  }

  lemma {:induction false} LastLengthAbsent(headers: HeaderMap, order: seq<string>)
    requires forall x | x in order :: x in headers && !NamesLength(x)
    ensures LastLength(headers, order) == None
  {
    if order != [] {
      LastLengthAbsent(headers, order[..|order| - 1]);
    }
  }

  /** Precedence, whatever the order: malformed, chunked, the agreed length, then read until close. */
  lemma FramingPrecedence(headers: HeaderMap, order: seq<string>)
    requires Enumerates(order, headers)
    ensures HasMalformedLength(headers) ==> FramingOf(headers, order) == Err(MalformedContentLength)
    ensures !HasMalformedLength(headers) && IsChunked(headers) ==> FramingOf(headers, order) == Ok(Chunked(true, 0, 0))
    ensures forall k | k in headers && NamesLength(k) && !HasMalformedLength(headers) && !IsChunked(headers) &&
                       LengthsAgree(headers) ::
              LengthOf(headers[k]).Some? && FramingOf(headers, order) == Ok(ContentLength(LengthOf(headers[k]).value))
    ensures !NamesAnyLength(headers) && !IsChunked(headers) ==> FramingOf(headers, order) == Ok(EndOnClose)
  {
    forall k | k in headers && NamesLength(k) && !HasMalformedLength(headers) && !IsChunked(headers) &&
               LengthsAgree(headers)
      ensures LengthOf(headers[k]).Some? && FramingOf(headers, order) == Ok(ContentLength(LengthOf(headers[k]).value))
    {
      LastLengthOfAgreeing(headers, order, k);
    }
    if !NamesAnyLength(headers) {
      LastLengthAbsent(headers, order);
    }
  }

  /** The framing is independent of the iteration order exactly for the unambiguous header maps. */
  lemma OrderIrrelevantIff(headers: HeaderMap)
    ensures OrderIrrelevant(headers) <==> Unambiguous(headers)
  {
    if Unambiguous(headers) {
      forall o1, o2 | Enumerates(o1, headers) && Enumerates(o2, headers)
        ensures FramingOf(headers, o1) == FramingOf(headers, o2)
      {
        FramingPrecedence(headers, o1);
        FramingPrecedence(headers, o2);
      }
    } else {
      var k1, k2 :| k1 in headers && k2 in headers && NamesLength(k1) && NamesLength(k2) &&
                    LengthOf(headers[k1]) != LengthOf(headers[k2]);
      var o1 := OrderEndingIn(headers, k1);
      var o2 := OrderEndingIn(headers, k2);
      assert LengthOf(headers[k1]).Some? && LengthOf(headers[k2]).Some?;
      assert FramingOf(headers, o1) != FramingOf(headers, o2);
    }
  }

  // ---------- Which headers frame a body ----------

  /** A declared length: a decimal number within 64 bits, white space around it; anything else is malformed. */
  lemma DeclaredLengthIff(value: string, n: nat)
    ensures LengthOf(value) == Some(n) <==> n <= 18446744073709551615 && IsPaddedNumber(value, 10, n)
  {
    TrimmedNumberIff(value, 10, 18446744073709551615, n);
    hide IsPaddedNumber, Trim, ParseUnsigned;
  }

  /** What counts, whatever the letter case and the white space around names and value. */
  lemma FramingHeadersIff(name: string, value: string)
    ensures NamesLength(name) <==> ToLower(Trim(name)) == "content-length"
    ensures SaysChunked(name, value) <==>
            ToLower(Trim(name)) == "transfer-encoding" && ToLower(Trim(value)) == "chunked"
  {
    hide ToLower, Trim;
    TrimLower(name);
    TrimLower(value);
  }

  /** So for names in any letter case, and a value in white space. */
  lemma FramingHeaders(name: string, front: string, value: string, back: string)
    requires AllWhitespace(front) && AllWhitespace(back)
    ensures AsciiLower(name) == "content-length" ==> NamesLength(name) && !SaysChunked(name, value)
    ensures AsciiLower(name) == "transfer-encoding" ==> !NamesLength(name)
    ensures AsciiLower(name) == "transfer-encoding" && ToLower(value) == "chunked" ==>
              SaysChunked(name, front + value + back)
  {
    hide ToLower, Trim, AsciiLower, IsWhitespace;
    LoweringsAgree(name, "content-length");
    LoweringsAgree(name, "transfer-encoding");
    NamesAreTrimmed();
    if ToLower(value) == "chunked" {
      ToLowerAppend(front + value, back);
      ToLowerAppend(front, value);
      WhitespaceStays(front);
      WhitespaceStays(back);
      ChunkedPadded(front, back);
    }
  }

  lemma NamesAreTrimmed()
    ensures Trim("content-length") == "content-length" && Trim("transfer-encoding") == "transfer-encoding"
  {
    hide Trim;
    TrimIsIdentity("content-length");
    TrimIsIdentity("transfer-encoding");
  }

  lemma ChunkedPadded(front: string, back: string)
    requires AllWhitespace(front) && AllWhitespace(back)
    ensures Trim(front + "chunked" + back) == "chunked"
  {
    hide Trim;
    TrimPadded(front, "chunked", back);
  }

  /** Where lengths disagree, the last one that the iteration meets is taken. */
  lemma LastLengthWins(headers: HeaderMap, init: seq<string>, k: string, tail: seq<string>)
    requires Enumerates(init + [k] + tail, headers) && NamesLength(k)
    requires !HasMalformedLength(headers) && !IsChunked(headers) && forall x | x in tail :: !NamesLength(x)
    ensures LengthOf(headers[k]).Some?
    ensures FramingOf(headers, init + [k] + tail) == Ok(ContentLength(LengthOf(headers[k]).value))
  {
    hide NamesLength, LengthOf, SaysChunked;
    assert k in init + [k] + tail;
    LengthBeforeTail(headers, init, k, tail);
  }

  lemma {:induction false} LengthBeforeTail(headers: HeaderMap, init: seq<string>, k: string, tail: seq<string>)
    requires forall x | x in init + [k] + tail :: x in headers
    requires NamesLength(k) && forall x | x in tail :: !NamesLength(x)
    ensures LastLength(headers, init + [k] + tail) == LengthOf(headers[k])
    decreases |tail|
  {
    hide NamesLength, LengthOf;
    var order := init + [k] + tail;
    assert order[|order| - 1] in order;
    if tail == [] {
      assert order[|order| - 1] == k;
    } else {
      var rest := tail[..|tail| - 1];
      assert order[|order| - 1] == tail[|tail| - 1] && order[..|order| - 1] == init + [k] + rest;
      assert forall x | x in rest :: x in tail;
      assert tail[|tail| - 1] in tail;
      LengthBeforeTail(headers, init, k, rest);
    }
  }
}

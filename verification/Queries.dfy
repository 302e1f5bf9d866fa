/** The query string that with_param of src/request.rs builds, and the pairs a server splits it into. */
module Queries {
  import opened Scan

  type Pair = (string, string)

  /** Key and value around the first equals sign. */
  function PairOf(part: string): Pair {
    var i := Cut(part, {'='});
    (part[..i], if i < |part| then part[i + 1..] else "")
  }

  /** The pairs between ampersands. */
  function PairsIn(query: string): (pairs: seq<Pair>)
    ensures pairs != []
    decreases |query|
  {
    var i := Cut(query, {'&'});
    [PairOf(query[..i])] + if i < |query| then PairsIn(query[i + 1..]) else []
  }

  /** The pairs of a parameter string; the empty string has none. */
  function SplitQuery(params: string): seq<Pair> {
    if params == "" then [] else PairsIn(params)
  }

  function PairText(key: string, value: string): string {
    key + "=" + value
  }

  /** with_param. */
  function AddParam(params: string, key: string, value: string): string {
    (if params == "" then "" else params + "&") + PairText(key, value)
  }

  /** What comes through: no ampersand at all, and no equals sign in the key. */
  predicate Separable(key: string, value: string) {
    '&' !in key && '&' !in value && '=' !in key
  }

  lemma PairsUpTo(query: string, i: nat)
    requires i == Cut(query, {'&'})
    ensures PairsIn(query) == [PairOf(query[..i])] + if i < |query| then PairsIn(query[i + 1..]) else []
  {
  }

  lemma {:induction false} PairsJoin(a: string, b: string)
    ensures PairsIn(a + "&" + b) == PairsIn(a) + PairsIn(b)
    decreases |a|
  {
    hide PairsIn, PairOf, Cut;
    var i, query := Cut(a, {'&'}), a + ("&" + b);
    assert a + "&" + b == query;
    PairsUpTo(a, i);
    CutAppend(a, "&" + b, {'&'});
    CutIs([], "&" + b, {'&'});
    assert [] + ("&" + b) == "&" + b;
    PairsUpTo(query, i);
    assert query[..i] == a[..i];
    if i == |a| {
      assert query[i + 1..] == b;
    } else {
      PairsJoin(a[i + 1..], b);
      assert query[i + 1..] == a[i + 1..] + "&" + b;
    }
  }

  lemma PairTextSplitsIff(key: string, value: string)
    ensures PairsIn(PairText(key, value)) == [(key, value)] <==> Separable(key, value)
  {
    hide PairsIn, Cut, PairOf, PairText;
    var text := PairText(key, value);
    PairsUpTo(text, Cut(text, {'&'}));
    AmpersandIn(key, value);
    if Cut(text, {'&'}) < |text| {
      assert |PairsIn(text)| >= 2;
    } else {
      assert text[..|text|] == text;
      OnePair(key, value);
      assert PairsIn(text) == [PairOf(text)];
      assert [PairOf(text)][0] == PairOf(text) && [(key, value)][0] == (key, value);
    }
  }

  lemma AmpersandIn(key: string, value: string)
    ensures var text := PairText(key, value);
            Cut(text, {'&'}) < |text| <==> '&' in key || '&' in value
  {
    var text := PairText(key, value);
    CutIsFirst(text, {'&'});
    assert text[..|text|] == text;
    assert forall c | c in text :: c in key || c in value || c == '=';
    assert forall c | c in key || c in value :: c in text;
  }

  lemma OnePair(key: string, value: string)
    ensures PairOf(PairText(key, value)) == (key, value) <==> '=' !in key
  {
    hide Cut;
    var text, i := key + ("=" + value), Cut(key, {'='});
    assert PairText(key, value) == text;
    CutAppend(key, "=" + value, {'='});
    CutIs([], "=" + value, {'='});
    assert [] + ("=" + value) == "=" + value;
    CutIsFirst(key, {'='});
    if i == |key| {
      assert key[..i] == key && text[..i] == key && text[i + 1..] == value;
    }
  }

  /** A parameter is appended as one pair exactly when it is separable, whatever was there before. */
  lemma AddParamSplitsIff(params: string, key: string, value: string)
    ensures SplitQuery(AddParam(params, key, value)) == SplitQuery(params) + PairsIn(PairText(key, value))
    ensures SplitQuery(params) <= SplitQuery(AddParam(params, key, value))
    ensures SplitQuery(AddParam(params, key, value)) == SplitQuery(params) + [(key, value)] <==> Separable(key, value)
  {
    hide PairsIn, Separable;
    var text := PairText(key, value);
    PairTextSplitsIff(key, value);
    assert text[|key|] == '=';
    if params == "" {
      assert [] + PairsIn(text) == PairsIn(text) && [] + [(key, value)] == [(key, value)];
      assert AddParam(params, key, value) == text;
    } else {
      PairsJoin(params, text);
      assert AddParam(params, key, value) == params + "&" + text;
      if PairsIn(params) + PairsIn(text) == PairsIn(params) + [(key, value)] {
        assert PairsIn(text) == (PairsIn(params) + PairsIn(text))[|PairsIn(params)|..];
      }
    }
  }

  /** The parameters of a request that gets these pairs one by one. */
  function Joined(pairs: seq<Pair>): string {
    if pairs == [] then ""
    else AddParam(Joined(pairs[..|pairs| - 1]), pairs[|pairs| - 1].0, pairs[|pairs| - 1].1)
  }

  predicate AllSeparable(pairs: seq<Pair>) {
    forall pair | pair in pairs :: Separable(pair.0, pair.1)
  }

  /** The query splits back into the pairs it was built from exactly when all of them are separable. */
  lemma {:induction false} QueryRoundTripIff(pairs: seq<Pair>)
    ensures |SplitQuery(Joined(pairs))| >= |pairs|
    ensures SplitQuery(Joined(pairs)) == pairs <==> AllSeparable(pairs)
  {
    hide AddParam, PairsIn, Separable, PairText;
    if pairs != [] {
      var init, last := pairs[..|pairs| - 1], pairs[|pairs| - 1];
      QueryRoundTripIff(init);
      AddParamSplitsIff(Joined(init), last.0, last.1);
      var before, more := SplitQuery(Joined(init)), PairsIn(PairText(last.0, last.1));
      assert pairs == init + [last];
      if before + more == pairs {
        assert |before| == |init| && before == pairs[..|init|];
        assert more == pairs[|init|..];
      }
      assert AllSeparable(pairs) <==> AllSeparable(init) && Separable(last.0, last.1);
    }
  }

  /** The inputs that fail: a key with an ampersand comes apart. */
  lemma AmpersandSplitsKey(a: string, b: string, value: string)
    requires '&' !in a && '=' !in a && Separable(b, value)
    ensures SplitQuery(AddParam("", a + "&" + b, value)) == [(a, ""), (b, value)]
    ensures SplitQuery(AddParam("", "a&b", "c")) == [("a", ""), ("b", "c")]
  {
    hide SplitQuery, AddParam;
    KeyApart(a, b, value);
    KeyApart("a", "b", "c");
    assert "a" + "&" + "b" == "a&b";
  }

  lemma KeyApart(a: string, b: string, value: string)
    requires '&' !in a && '=' !in a && Separable(b, value)
    ensures SplitQuery(AddParam("", a + "&" + b, value)) == [(a, ""), (b, value)]
  {
    hide PairsIn, Separable, Cut;
    var query := a + "&" + PairText(b, value);
    assert AddParam("", a + "&" + b, value) == query;
    LonePart(a);
    PairTextSplitsIff(b, value);
    PairsJoin(a, PairText(b, value));
  }

  lemma LonePart(a: string)
    requires '&' !in a && '=' !in a
    ensures PairsIn(a) == [(a, "")]
  {
    hide PairsIn, Cut;
    CutIs(a, [], {'&'});
    CutIs(a, [], {'='});
    assert a + [] == a && a[..|a|] == a;
    PairsUpTo(a, |a|);
  }
}

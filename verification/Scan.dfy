/** Searching in sequences: the meaning of the crate's find, split and strip calls. */
module Scan {
  import opened Wrappers

  /** The index of the first element of s that is in stops, or |s|. */
  function Cut<T(==)>(s: seq<T>, stops: set<T>): (i: nat)
    ensures i <= |s|
    ensures i < |s| ==> s[i] in stops
  {
    if s == [] || s[0] in stops then 0 else 1 + Cut(s[1..], stops)
  }

  lemma {:induction false} CutIsFirst<T>(s: seq<T>, stops: set<T>)
    ensures forall x | x in s[..Cut(s, stops)] :: x !in stops
  {
    if s != [] && s[0] !in stops {
      CutIsFirst(s[1..], stops);
      assert s[..Cut(s, stops)] == [s[0]] + s[1..][..Cut(s[1..], stops)];
    }
  }

  lemma CutOne<T>(x: T, stops: set<T>)
    ensures Cut([x], stops) == if x in stops then 0 else 1
  {
    assert [x][1..] == [];
  }

  /** A sequence free of stops, then a stop or the end: the cut is behind that sequence. */
  lemma {:induction false} CutIs<T>(clear: seq<T>, tail: seq<T>, stops: set<T>)
    requires forall x | x in clear :: x !in stops
    requires tail != [] ==> tail[0] in stops
    ensures Cut(clear + tail, stops) == |clear|
  {
    if clear == [] {
      assert clear + tail == tail;
    } else {
      assert (clear + tail)[1..] == clear[1..] + tail;
      assert clear[0] in clear && forall x | x in clear[1..] :: x in clear;
      CutIs(clear[1..], tail, stops);
    }
  }

  /** Appending does not move a cut that was found, and a cut not found is looked for in what follows. */
  lemma {:induction false} CutAppend<T>(a: seq<T>, b: seq<T>, stops: set<T>)
    ensures Cut(a, stops) < |a| ==> Cut(a + b, stops) == Cut(a, stops)
    ensures Cut(a, stops) == |a| ==> Cut(a + b, stops) == |a| + Cut(b, stops)
  {
    if a == [] {
      assert a + b == b;
    } else {
      assert (a + b)[1..] == a[1..] + b;
      CutAppend(a[1..], b, stops);
    }
  }

  /** The pattern occurs in s at index i. */
  predicate OccursAt<T(==)>(s: seq<T>, pattern: seq<T>, i: nat) {
    i + |pattern| <= |s| && s[i..i + |pattern|] == pattern
  }

  /** str::find with a string pattern. */
  function Find<T(==)>(s: seq<T>, pattern: seq<T>): (r: Option<nat>)
    ensures r.Some? ==> OccursAt(s, pattern, r.value) && forall j: nat | j < r.value :: !OccursAt(s, pattern, j)
    ensures r.None? ==> forall j: nat :: !OccursAt(s, pattern, j)
  {
    FindFrom(s, pattern, 0)
  }

  function FindFrom<T(==)>(s: seq<T>, pattern: seq<T>, from: nat): (r: Option<nat>)
    ensures r.Some? ==> from <= r.value && OccursAt(s, pattern, r.value)
    ensures r.Some? ==> forall j: nat | from <= j < r.value :: !OccursAt(s, pattern, j)
    ensures r.None? ==> forall j: nat | from <= j :: !OccursAt(s, pattern, j)
    decreases |s| - from
  {
    if OccursAt(s, pattern, from) then Some(from)
    else if from >= |s| then None
    else FindFrom(s, pattern, from + 1)
  }

  /** The order in which a hash map hands out its entries: every key once. */
  ghost predicate Enumerates<K, V>(order: seq<K>, m: map<K, V>) {
    (forall k | k in order :: k in m) &&
    (forall k | k in m :: k in order) &&
    (forall i, j | 0 <= i < j < |order| :: order[i] != order[j])
  }
}

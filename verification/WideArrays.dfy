/** What becomes of a parse when a 32-bit element count wraps: an array of nulls for every
  * length. */
module WideArrays {
  import opened Options
  import opened Machine
  import opened Sax
  import opened Scanner
  import opened Dom
  import opened EventCounts
  import G = RecursiveGrammar
  import A = Automaton
  import E = ReaderEquivalence

  /** `n` nulls separated by commas, and the closing bracket. */
  function Rest(n: nat): string
    requires n > 0
  {
    "null" + if n == 1 then "]" else "," + Rest(n - 1)
  }

  function NullArray(n: nat): string
    requires n > 0
  {
    "[" + Rest(n)
  }

  function Nulls(n: nat): (ev: seq<Event>)
    ensures |ev| == n && forall k :: 0 <= k < n ==> ev[k] == Null
  {
    if n == 0 then [] else [Null] + Nulls(n - 1)
  }

  /** The handler takes everything. */
  ghost predicate AcceptsAll(s: Source) { forall ev :: s.handler(ev) }

  lemma NoSkip(s: Source, p: nat, ev: seq<Event>)
    requires p < |s.text| && (s.text[p] == 'n' || s.text[p] == ',' || s.text[p] == ']')
    ensures Skip(s, p, ev) == Ok(p, ev)
  {
  }

  lemma ReadsNull(s: Source, p: nat, ev: seq<Event>)
    requires Sound(s) && AcceptsAll(s) && p + 4 <= |s.text| && s.text[p..p + 4] == "null"
    ensures G.ParseValue(s, p, ev) == Ok(p + 4, ev + [Null])
  {
    var t := s.text[p..p + 4];
    assert s.text[p] == t[0] && s.text[p + 1] == t[1] && s.text[p + 2] == t[2] && s.text[p + 3] == t[3];
    assert "null"[1..] == "ull" && "ull"[1..] == "ll" && "ll"[1..] == "l" && "l"[1..] == "";
    assert Matched(s.text, p + 4, "") == 0;
    assert Matched(s.text, p + 3, "l") == 1;
    assert Matched(s.text, p + 2, "ll") == 2;
    assert Matched(s.text, p + 1, "ull") == 3;
  }

  /** One null and the bracket or comma behind it. */
  lemma ReadsElement(s: Source, p: nat, count: nat, ev: seq<Event>)
    requires Sound(s) && AcceptsAll(s) && p + 5 <= |s.text| && s.text[p..p + 4] == "null"
    requires s.text[p + 4] == ']' || (s.text[p + 4] == ',' && p + 5 < |s.text| && s.text[p + 5] == 'n')
    ensures G.ParseElements(s, p, count, ev) ==
      if s.text[p + 4] == ']' then Ok(p + 5, ev + [Null] + [EndArray(Increment(count))])
      else G.ParseElements(s, p + 5, Increment(count), ev + [Null])
  {
    hide G.ParseValue, Skip;
    ReadsNull(s, p, ev);
    var ev1 := ev + [Null];
    NoSkip(s, p + 4, ev1);
    assert G.ParseElements(s, p, count, ev) == G.AfterElement(s, p + 4, count, ev1);
    if s.text[p + 4] == ',' {
      NoSkip(s, p + 5, ev1);
    }
  }

  lemma RestStarts(n: nat)
    requires n > 0
    ensures var t := Rest(n);
            && |t| >= 5 && t[..4] == "null" && t[0] == 'n'
            && (if n == 1 then t[4] == ']' && |t| == 5 else t[4] == ',' && t[5..] == Rest(n - 1))
  {
    if n == 1 {
      assert Rest(1) == "null]";
    }
  }

  /** The elements from position `p` on are all read, and counted modulo 2^32. */
  lemma {:induction false} ReadsRest(s: Source, p: nat, count: nat, ev: seq<Event>, n: nat)
    requires Sound(s) && AcceptsAll(s) && n > 0 && p <= |s.text| && s.text[p..] == Rest(n) && count < SIZE_MODULUS
    ensures G.ParseElements(s, p, count, ev) == Ok(|s.text|, ev + Nulls(n) + [EndArray((count + n) % SIZE_MODULUS)])
    decreases n
  {
    hide G.ParseElements, Rest;
    var t := s.text[p..];
    RestStarts(n);
    assert s.text[p..p + 4] == t[..4] && s.text[p + 4] == t[4];
    if n == 1 {
      ReadsElement(s, p, count, ev);
      assert ev + [Null] == ev + Nulls(1);
    } else {
      RestStarts(n - 1);
      assert s.text[p + 5..] == t[5..] && s.text[p + 5] == t[5..][0];
      ReadsElement(s, p, count, ev);
      ReadsRest(s, p + 5, Increment(count), ev + [Null], n - 1);
      assert ev + [Null] + Nulls(n - 1) == ev + Nulls(n);
      CountOn(count, n - 1);
    }
  }

  lemma {:induction false} PushesNulls(stack: seq<Value>, ev: seq<Event>, n: nat)
    requires Replay([], ev) == Some(stack)
    ensures Replay([], ev + Nulls(n)).Some? && stack <= Replay([], ev + Nulls(n)).value
    ensures |Replay([], ev + Nulls(n)).value| == |stack| + n
    decreases n
  {
    if n > 0 {
      ReplayOne([], ev, Null);
      PushesNulls(stack + [VNull], ev + [Null], n - 1);
      assert ev + [Null] + Nulls(n - 1) == ev + Nulls(n);
    } else {
      assert ev + [] == ev;
    }
  }

  /** An array of any number of nulls is read by both parsers, whatever the flags. Afterwards
    * the builder's stack holds exactly one value if and only if the array has fewer than 2^32
    * elements; the surplus stays behind otherwise. */
  lemma OneValueIffCountFits(s: Source, n: nat)
    requires Sound(s) && AcceptsAll(s) && n > 0 && s.text == NullArray(n)
    ensures var r := G.Parse(s);
            && r.Ok? && A.IterativeParse(s) == r && Replay([], r.events).Some?
            && |Replay([], r.events).value| == 1 + n - n % SIZE_MODULUS
            && (|Replay([], r.events).value| == 1 <==> n < SIZE_MODULUS)
  {
    hide G.ParseElements, Skip, Replay, A.IterativeParse;
    E.ParsersAgree(s);
    var t := s.text;
    assert t[0] == '[' && t[1..] == Rest(n) && Rest(n)[0] == 'n' && t[1] == Rest(n)[0];
    SkipBracket(s);
    NoSkip(s, 1, [StartArray]);
    ReadsRest(s, 1, 0, [StartArray], n);
    var ev := [StartArray] + Nulls(n) + [EndArray(n % SIZE_MODULUS)];
    assert [] + [StartArray] == [StartArray];
    assert G.ParseValue(s, 0, []) == Ok(|t|, ev);
    SkipAtEnd(s, ev);
    Builds(n);
  }

  lemma SkipBracket(s: Source)
    requires |s.text| > 0 && s.text[0] == '['
    ensures Skip(s, 0, []) == Ok(0, [])
  {
  }

  lemma SkipAtEnd(s: Source, ev: seq<Event>)
    ensures Skip(s, |s.text|, ev) == Ok(|s.text|, ev)
  {
  }

  lemma Builds(n: nat)
    requires n > 0
    ensures var r := Replay([], [StartArray] + Nulls(n) + [EndArray(n % SIZE_MODULUS)]);
            r.Some? && |r.value| == 1 + n - n % SIZE_MODULUS
  {
    hide Replay;
    var empty: seq<Value> := [];
    ReplayFirst(empty, StartArray);
    assert empty + [VArray([])] == [VArray([])];
    PushesNulls([VArray([])], [StartArray], n);
    ReplayOne([], [StartArray] + Nulls(n), EndArray(n % SIZE_MODULUS));
  }
}

/** Parsing into a document: the builder as an object, and its stack after any successful parse. */
module DocumentParse {
  import opened Options
  import opened Machine
  import opened Sax
  import opened Scanner
  import opened Dom
  import opened EventCounts
  import G = RecursiveGrammar
  import A = Automaton
  import E = ReaderEquivalence
  import GenericReader

  lemma {:induction false} ReplayHeight(ev: seq<Event>)
    requires Replay([], ev).Some?
    ensures |Replay([], ev).value| == Height(ev)
  {
    hide Pair;
    if ev != [] {
      ReplayHeight(ev[..|ev| - 1]);
    }
  }

  lemma {:induction false} ReplayPrefix(ev: seq<Event>, k: nat)
    requires Replay([], ev).Some? && k <= |ev|
    ensures Replay([], ev[..k]).Some?
    decreases |ev|
  {
    if k == |ev| {
      assert ev[..k] == ev;
    } else {
      assert ev[..|ev| - 1][..k] == ev[..k];
      ReplayPrefix(ev[..|ev| - 1], k);
    }
  }

  /** A stack that fits the root after one value holds that value. */
  lemma OneValueFits(st: seq<Value>)
    requires Fits(st, Root(1))
    ensures |st| == 1 && st == [st[0]]
  {
  }

  /**
   * After any successful parse by either parser, whatever the text, the flags and the handler: the builder's stack
   * holds at least one value, and exactly one, as ParseStream asserts, if and only if no container of the text has
   * 2^32 entries or more, so that every closing event carries the number of entries since its opening; then it is the
   * value those events build. A text of fewer than 2^32 characters has no such container.
   */
  lemma ParseBuildsOneValue(s: Source, iterative: bool)
    requires Sound(s)
    ensures var r := if iterative then A.IterativeParse(s) else G.Parse(s);
            r.Ok? ==>
              && Height(r.events) >= 1
              && (Height(r.events) == 1 <==> NarrowContainers(r.events))
              && (Exact(r.events) <==> NarrowContainers(r.events))
              && (Exact(r.events) ==> exists v :: Replay([], r.events) == Some([v]))
              && (|s.text| < SIZE_MODULUS ==> Exact(r.events))
  {
    hide A.IterativeParse, G.Parse, Exact, Wrapped, NarrowContainers, Fits, Replay;
    E.ParsersAgree(s);
    var r := if iterative then A.IterativeParse(s) else G.Parse(s);
    if r.Ok? {
      var ev := r.events;
      ParseCounts(s);
      HeightIsSizeAndSurplus(ev);
      NothingLeftIffExact(ev);
      ExactIffNarrow(ev);
      if |s.text| < SIZE_MODULUS { FewEventsAreExact(ev); }
      if Exact(ev) {
        ExactBuilds(ev);
        OneValueFits(Replay([], ev).value);
      }
    }
  }

  /** Names and values on the stack taken as members, one by one from the top. */
  method AsMembers(vs: seq<Value>) returns (members: seq<Member>)
    requires |vs| % 2 == 0 && Pair(vs).Some?
    ensures Pair(vs) == Some(members)
  {
    members := [];
    for k := |vs| / 2 downto 0
      invariant Pair(vs[2 * k..]) == Some(members)
    {
      PairNames(vs, k);
      assert vs[2 * k..][2..] == vs[2 * (k + 1)..];
      members := [Member(vs[2 * k].s, vs[2 * k + 1])] + members;
    }
    assert vs[0..] == vs;
  }

  /** The builder: the stack of GenericDocument and the handler functions that push on it and pop from it. */
  class Document {
    var stack: seq<Value>

    /** The events received. */
    ghost var sent: seq<Event>

    /** The stack is what the events received build. */
    ghost predicate Valid()
      reads this
    {
      Replay([], sent) == Some(stack)
    }

    constructor ()
      ensures Valid() && stack == [] && sent == []
    {
      stack, sent := [], [];
    }

    /** Null, Bool, Int, Uint, Int64, Uint64, Double, RawNumber, String, Key, StartObject and StartArray. */
    method Push(e: Event)
      requires Valid() && !e.EndObject? && !e.EndArray?
      modifies this
      ensures Valid() && sent == old(sent) + [e] && |stack| == |old(stack)| + 1
    {
      hide Replay, Pair;
      var v := match e
        case Null => VNull
        case Bool(b) => VBool(b)
        case Int(n) => VInteger(n)
        case Uint(n) => VInteger(n)
        case Int64(n) => VInteger(n)
        case Uint64(n) => VInteger(n)
        case Double(d) => VDouble(d)
        case RawNumber(s) => VString(s)
        case String(s) => VString(s)
        case Key(s) => VString(s)
        case StartObject => VObject([])
        case StartArray => VArray([]);
      ReplayOne([], sent, e);
      stack, sent := stack + [v], sent + [e];
    }

    /** Pop the members from the top, then overwrite the value under them. */
    method EndObject(memberCount: nat)
      requires Valid() && Apply(stack, Sax.EndObject(memberCount)).Some?
      modifies this
      ensures Valid() && sent == old(sent) + [Sax.EndObject(memberCount)]
    {
      hide Replay, Pair;
      ReplayOne([], sent, Sax.EndObject(memberCount));
      sent := sent + [Sax.EndObject(memberCount)];
      var members := AsMembers(stack[|stack| - 2 * memberCount..]);
      stack := stack[..|stack| - 2 * memberCount];
      stack := stack[|stack| - 1 := VObject(members)];
    }

    /** Pop the elements from the top, then overwrite the value under them. */
    method EndArray(elementCount: nat)
      requires Valid() && elementCount < |stack|
      modifies this
      ensures Valid() && sent == old(sent) + [Sax.EndArray(elementCount)]
    {
      hide Replay, Pair;
      ReplayOne([], sent, Sax.EndArray(elementCount));
      sent := sent + [Sax.EndArray(elementCount)];
      var elements := stack[|stack| - elementCount..];
      stack := stack[..|stack| - elementCount];
      stack := stack[|stack| - 1 := VArray(elements)];
    }

    /** The handler call for one event; false if it would make a member of a value that is no name. */
    method Handle(e: Event) returns (ok: bool)
      requires Valid()
      modifies this
      ensures Valid() && ok == Apply(old(stack), e).Some?
      ensures sent == if ok then old(sent) + [e] else old(sent)
    {
      ok := Apply(stack, e).Some?;
      if ok {
        if e.EndObject? {
          EndObject(e.memberCount);
        } else if e.EndArray? {
          EndArray(e.elementCount);
        } else {
          Push(e);
        }
      }
    }

    /**
     * ParseStream, with either parser. The document is set exactly if the parse got through and no count wrapped,
     * and it is then the one value that the events build. Otherwise the assertion on the stack fails.
     */
    method ParseStream(s: Source, iterative: bool) returns (r: Outcome, document: Option<Value>)
      requires Sound(s) && Valid() && sent == []
      modifies this
      ensures r == if iterative then A.IterativeParse(s) else G.Parse(s)
      ensures document.Some? <==> r.Ok? && Exact(r.events)
      ensures document.Some? ==> Replay([], r.events) == Some([document.value]) && stack == []
      ensures r.Ok? && |s.text| < SIZE_MODULUS ==> document.Some?
    {
      hide A.IterativeParse, G.Parse, Exact, Replay, Apply;
      var reader := new GenericReader.Reader(s);
      if iterative {
        reader.IterativeParse();
      } else {
        reader.Parse();
      }
      r := reader.Result();
      document := None;
      ParseBuildsOneValue(s, iterative);
      if r.Fail? { return; }
      var k := 0;
      var ok := true;
      while ok && k < |r.events|
        invariant 0 <= k <= |r.events| && Valid() && sent == r.events[..k]
        invariant !ok ==> Replay([], r.events).None?
        decreases ok, |r.events| - k
      {
        if Replay([], r.events).Some? { ReplayPrefix(r.events, k + 1); }
        ReplayOne([], sent, r.events[k]);
        assert r.events[..k + 1] == sent + [r.events[k]];
        ok := Handle(r.events[k]);
        if ok { k := k + 1; }
      }
      if ok {
        assert r.events[..k] == r.events;
        ReplayHeight(r.events);
        if |stack| == 1 {
          document := Some(stack[0]);
          stack, sent := [], [];
        }
      }
    }
  }
}

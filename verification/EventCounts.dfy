/** What the counts in closing events are worth: the parsers count the entries of a container
  * modulo 2^32, and the builder's stack comes out right exactly when no count has wrapped. */
module EventCounts {
  import opened Machine
  import opened Options
  import opened Sax
  import opened Scanner
  import opened Dom
  import G = RecursiveGrammar

  /** The containers open after some events, innermost first, with the names and values each
    * has received. */
  datatype Frames =
    | Root(pieces: nat)
    | ArrayFrame(pieces: nat, below: Frames)
    | ObjectFrame(pieces: nat, below: Frames)

  /** A value may come next. */
  predicate AtValue(f: Frames) { f.ObjectFrame? ==> f.pieces % 2 == 1 }

  function Placed(f: Frames): Frames { f.(pieces := f.pieces + 1) }

  /** Every open container stands where a value may stand. */
  predicate Nested(f: Frames) { f.Root? || (AtValue(f.below) && Nested(f.below)) }

  /** The frames after one more event; none for an event that no parser sends there. */
  function Step(f: Frames, e: Event): Option<Frames> {
    match e
    case Key(_) => if f.ObjectFrame? && f.pieces % 2 == 0 then Some(Placed(f)) else None
    case StartObject => if AtValue(f) then Some(ObjectFrame(0, f)) else None
    case StartArray => if AtValue(f) then Some(ArrayFrame(0, f)) else None
    case EndObject(_) => if f.ObjectFrame? && f.pieces % 2 == 0 then Some(Placed(f.below)) else None
    case EndArray(_) => if f.ArrayFrame? then Some(Placed(f.below)) else None
    case _ => if AtValue(f) then Some(Placed(f)) else None
  }

  function Open(ev: seq<Event>): (r: Option<Frames>)
    ensures r.Some? ==> Nested(r.value)
  {
    if ev == [] then Some(Root(0))
    else
      var r := Open(ev[..|ev| - 1]);
      if r.None? then None
      else
        StepNests(r.value, ev[|ev| - 1]);
        Step(r.value, ev[|ev| - 1])
  }

  lemma StepNests(f: Frames, e: Event)
    requires Nested(f)
    ensures Step(f, e).Some? ==> Nested(Step(f, e).value)
  {
    if !f.Root? {
      assert Nested(f.below);
    }
  }

  /** A closing event carries the number of entries its container has received. */
  predicate Right(f: Frames, e: Event) {
    (e.EndObject? ==> 2 * e.memberCount == f.pieces) && (e.EndArray? ==> e.elementCount == f.pieces)
  }

  /** It carries that number modulo 2^32. */
  predicate Wraps(f: Frames, e: Event) {
    && (e.EndObject? ==> e.memberCount == f.pieces / 2 % SIZE_MODULUS)
    && (e.EndArray? ==> e.elementCount == f.pieces % SIZE_MODULUS)
  }

  /** Every closing event carries the number of entries since its opening. */
  predicate Exact(ev: seq<Event>) {
    ev != [] ==>
      var init := ev[..|ev| - 1];
      Exact(init) && (Open(init).Some? ==> Right(Open(init).value, ev[|ev| - 1]))
  }

  /** Every closing event carries that number modulo 2^32. */
  predicate Wrapped(ev: seq<Event>) {
    ev != [] ==>
      var init := ev[..|ev| - 1];
      Wrapped(init) && (Open(init).Some? ==> Wraps(Open(init).value, ev[|ev| - 1]))
  }

  /** The container that a closing event ends has received fewer than 2^32 entries. */
  predicate Narrow(f: Frames, e: Event) {
    (e.EndObject? ==> f.pieces / 2 < SIZE_MODULUS) && (e.EndArray? ==> f.pieces < SIZE_MODULUS)
  }

  /** No container has received 2^32 entries or more by the time it was closed. */
  predicate NarrowContainers(ev: seq<Event>) {
    ev != [] ==>
      var init := ev[..|ev| - 1];
      NarrowContainers(init) && (Open(init).Some? ==> Narrow(Open(init).value, ev[|ev| - 1]))
  }

  lemma OneMore(ev: seq<Event>, e: Event, f: Frames)
    requires Open(ev) == Some(f)
    ensures Open(ev + [e]) == Step(f, e)
    ensures Exact(ev + [e]) <==> Exact(ev) && Right(f, e)
    ensures Wrapped(ev + [e]) <==> Wrapped(ev) && Wraps(f, e)
  {
    assert (ev + [e])[..|ev|] == ev;
  }

  // ---- What the parsers send

  /** If the parse got through, it put one value where `f` stood, counted its containers
    * modulo 2^32, and sent no more events than it read characters. */
  ghost predicate SendsValue(r: Outcome, f: Frames, ev: seq<Event>, p: nat) {
    r.Ok? ==> Open(r.events) == Some(Placed(f)) && Wrapped(r.events) && |ev| <= |r.events| <= |ev| + (r.pos - p)
  }

  lemma SendCounts(s: Source, e: Event, next: nat, offset: nat, ev: seq<Event>, f: Frames)
    requires Open(ev) == Some(f) && Wrapped(ev) && Wraps(f, e)
    ensures var r := Send(s, e, next, offset, ev);
            r.Ok? ==> r.pos == next && r.events == ev + [e] && Open(r.events) == Step(f, e) && Wrapped(r.events)
  {
    OneMore(ev, e, f);
  }

  /** A scalar that was read was sent as one event. */
  lemma ScalarSends(s: Source, p: nat, ev: seq<Event>)
    requires Sound(s) && p <= |s.text| && ParseScalar(s, p, ev).Ok?
    ensures var r := ParseScalar(s, p, ev);
            |r.events| == |ev| + 1 && r.events == ev + [r.events[|ev|]] && IsScalar(r.events[|ev|]) && !r.events[|ev|].Key?
  {
    hide Matched;
  }

  lemma {:induction false} ValueCounts(s: Source, p: nat, ev: seq<Event>, f: Frames)
    requires Sound(s) && p <= |s.text| && Open(ev) == Some(f) && AtValue(f) && Wrapped(ev)
    ensures SendsValue(G.ParseValue(s, p, ev), f, ev, p)
    decreases |s.text| - p, 2
  {
    hide Open, Wrapped, ParseScalar, G.ParseObject, G.ParseArray;
    var c := Peek(s.text, p);
    if c == '{' {
      ObjectCounts(s, p, ev, f);
    } else if c == '[' {
      ArrayCounts(s, p, ev, f);
    } else if ParseScalar(s, p, ev).Ok? {
      ScalarSends(s, p, ev);
      OneMore(ev, ParseScalar(s, p, ev).events[|ev|], f);
    }
  }

  lemma {:induction false} ObjectCounts(s: Source, p: nat, ev: seq<Event>, f: Frames)
    requires Sound(s) && p < |s.text| && Open(ev) == Some(f) && AtValue(f) && Wrapped(ev)
    ensures SendsValue(G.ParseObject(s, p, ev), f, ev, p)
    decreases |s.text| - p, 1
  {
    hide Open, Wrapped, Skip, Send, G.ParseMembers;
    SendCounts(s, StartObject, p + 1, p + 1, ev, f);
    var start := Send(s, StartObject, p + 1, p + 1, ev);
    if start.Ok? {
      var o := Skip(s, p + 1, start.events);
      if o.Ok? {
        if Peek(s.text, o.pos) == '}' {
          SendCounts(s, EndObject(0), o.pos + 1, o.pos + 1, start.events, ObjectFrame(0, f));
        } else {
          MembersCounts(s, o.pos, 0, start.events, f, 0);
        }
      }
    }
  }

  /** At a name, with `n` members read. */
  lemma {:induction false} MembersCounts(s: Source, p: nat, count: nat, ev: seq<Event>, f: Frames, n: nat)
    requires Sound(s) && p <= |s.text| && count == n % SIZE_MODULUS
    requires Open(ev) == Some(ObjectFrame(2 * n, f)) && AtValue(f) && Wrapped(ev)
    ensures SendsValue(G.ParseMembers(s, p, count, ev), f, ev, p)
    decreases |s.text| - p, 0
  {
    hide Open, Wrapped, Skip, Send, G.AfterKey;
    if Peek(s.text, p) == '"' {
      var key := ParseString(s, p, true, ev);
      if key.Ok? {
        var l := s.lexString(s.text, p);
        SendCounts(s, Key(l.s), l.next, l.next, ev, ObjectFrame(2 * n, f));
        var o := Skip(s, key.pos, key.events);
        if o.Ok? {
          AfterKeyCounts(s, o.pos, count, key.events, f, n);
        }
      }
    }
  }

  lemma AfterName(n: nat, f: Frames)
    ensures AtValue(ObjectFrame(2 * n + 1, f)) && Placed(ObjectFrame(2 * n + 1, f)) == ObjectFrame(2 * n + 2, f)
  {
  }

  /** After a name. */
  lemma {:induction false} AfterKeyCounts(s: Source, p: nat, count: nat, ev: seq<Event>, f: Frames, n: nat)
    requires Sound(s) && p <= |s.text| && count == n % SIZE_MODULUS
    requires Open(ev) == Some(ObjectFrame(2 * n + 1, f)) && AtValue(f) && Wrapped(ev)
    ensures SendsValue(G.AfterKey(s, p, count, ev), f, ev, p)
    decreases |s.text| - p, 0
  {
    hide Open, Wrapped, Step, Wraps, Skip, Placed, AtValue, G.ParseValue, G.AfterMember;
    if Peek(s.text, p) == ':' {
      var o := Skip(s, p + 1, ev);
      if o.Ok? {
        AfterName(n, f);
        ValueCounts(s, o.pos, ev, ObjectFrame(2 * n + 1, f));
        var r := G.ParseValue(s, o.pos, ev);
        if r.Ok? {
          AfterMemberCounts(s, r.pos, count, r.events, f, n);
        }
      }
    }
  }

  lemma Counted(n: nat, count: nat)
    requires count == n % SIZE_MODULUS
    ensures Increment(count) == (n + 1) % SIZE_MODULUS && (2 * (n + 1)) / 2 == n + 1
  {
  }

  /** After a member's value, the `n + 1`st. */
  lemma {:induction false} AfterMemberCounts(s: Source, p: nat, count: nat, ev: seq<Event>, f: Frames, n: nat)
    requires Sound(s) && p <= |s.text| && count == n % SIZE_MODULUS
    requires Open(ev) == Some(ObjectFrame(2 * n + 2, f)) && AtValue(f) && Wrapped(ev)
    ensures SendsValue(G.AfterMember(s, p, count, ev), f, ev, p)
    decreases |s.text| - p, 0
  {
    hide Open, Wrapped, Skip, Send, G.ParseMembers, Increment;
    Counted(n, count);
    var close := EndObject(Increment(count));
    var o := Skip(s, p, ev);
    if o.Ok? {
      var c := Peek(s.text, o.pos);
      if c == '}' {
        SendCounts(s, close, o.pos + 1, o.pos + 1, ev, ObjectFrame(2 * n + 2, f));
      } else if c == ',' {
        var next := Skip(s, o.pos + 1, ev);
        if next.Ok? {
          if s.flags.trailingCommas && Peek(s.text, next.pos) == '}' {
            SendCounts(s, close, next.pos + 1, next.pos, ev, ObjectFrame(2 * n + 2, f));
          } else {
            MembersCounts(s, next.pos, Increment(count), ev, f, n + 1);
          }
        }
      }
    }
  }

  lemma {:induction false} ArrayCounts(s: Source, p: nat, ev: seq<Event>, f: Frames)
    requires Sound(s) && p < |s.text| && Open(ev) == Some(f) && AtValue(f) && Wrapped(ev)
    ensures SendsValue(G.ParseArray(s, p, ev), f, ev, p)
    decreases |s.text| - p, 1
  {
    hide Open, Wrapped, Skip, Send, G.ParseElements;
    SendCounts(s, StartArray, p + 1, p + 1, ev, f);
    var start := Send(s, StartArray, p + 1, p + 1, ev);
    if start.Ok? {
      var o := Skip(s, p + 1, start.events);
      if o.Ok? {
        if Peek(s.text, o.pos) == ']' {
          SendCounts(s, EndArray(0), o.pos + 1, o.pos + 1, start.events, ArrayFrame(0, f));
        } else {
          ElementsCounts(s, o.pos, 0, start.events, f, 0);
        }
      }
    }
  }

  /** At an element, with `n` elements read. */
  lemma {:induction false} ElementsCounts(s: Source, p: nat, count: nat, ev: seq<Event>, f: Frames, n: nat)
    requires Sound(s) && p <= |s.text| && count == n % SIZE_MODULUS
    requires Open(ev) == Some(ArrayFrame(n, f)) && AtValue(f) && Wrapped(ev)
    ensures SendsValue(G.ParseElements(s, p, count, ev), f, ev, p)
    decreases |s.text| - p, 3
  {
    hide Open, Wrapped, G.ParseValue, G.AfterElement;
    ValueCounts(s, p, ev, ArrayFrame(n, f));
    var r := G.ParseValue(s, p, ev);
    if r.Ok? {
      AfterElementCounts(s, r.pos, count, r.events, f, n);
    }
  }

  /** After an element, the `n + 1`st. */
  lemma {:induction false} AfterElementCounts(s: Source, p: nat, count: nat, ev: seq<Event>, f: Frames, n: nat)
    requires Sound(s) && p <= |s.text| && count == n % SIZE_MODULUS
    requires Open(ev) == Some(ArrayFrame(n + 1, f)) && AtValue(f) && Wrapped(ev)
    ensures SendsValue(G.AfterElement(s, p, count, ev), f, ev, p)
    decreases |s.text| - p, 0
  {
    hide Open, Wrapped, Skip, Send, G.ParseElements, Increment;
    Counted(n, count);
    var close := EndArray(Increment(count));
    var o := Skip(s, p, ev);
    if o.Ok? {
      var c := Peek(s.text, o.pos);
      if c == ']' {
        SendCounts(s, close, o.pos + 1, o.pos + 1, ev, ArrayFrame(n + 1, f));
      } else if c == ',' {
        var next := Skip(s, o.pos + 1, ev);
        if next.Ok? {
          if s.flags.trailingCommas && Peek(s.text, next.pos) == ']' {
            SendCounts(s, close, next.pos + 1, next.pos, ev, ArrayFrame(n + 1, f));
          } else {
            ElementsCounts(s, next.pos, Increment(count), ev, f, n + 1);
          }
        }
      }
    }
  }

  /** A parse that gets through sends the events of one value, its counts modulo 2^32. */
  lemma ParseCounts(s: Source)
    requires Sound(s) && G.Parse(s).Ok?
    ensures var ev := G.Parse(s).events;
            Open(ev) == Some(Root(1)) && Wrapped(ev) && |ev| <= |s.text|
  {
    hide G.ParseValue, Skip;
    var o := Skip(s, 0, []);
    ValueCounts(s, o.pos, [], Root(0));
  }

  // ---- What the builder's stack holds

  /** How an event changes the number of values on the builder's stack: what the source pushes
    * and pops depends on nothing else. */
  function Change(e: Event): int {
    match e
    case EndObject(n) => 0 - 2 * n
    case EndArray(n) => 0 - n
    case _ => 1
  }

  function Height(ev: seq<Event>): int {
    if ev == [] then 0 else Height(ev[..|ev| - 1]) + Change(ev[|ev| - 1])
  }

  /** The values on a stack that fits the frames: for each open container one, and what it has
    * received. */
  function Size(f: Frames): nat {
    if f.Root? then f.pieces else Size(f.below) + 1 + f.pieces
  }

  /** What a closing event leaves behind of its container. */
  function Surplus(f: Frames, e: Event): int {
    match e
    case EndObject(n) => f.pieces - 2 * n
    case EndArray(n) => f.pieces - n
    case _ => 0
  }

  function TotalSurplus(ev: seq<Event>): int {
    if ev == [] then 0
    else
      var init := ev[..|ev| - 1];
      TotalSurplus(init) + if Open(init).Some? then Surplus(Open(init).value, ev[|ev| - 1]) else 0
  }

  /** The stack holds what fits the frames and everything left behind. */
  lemma {:induction false} HeightIsSizeAndSurplus(ev: seq<Event>)
    requires Open(ev).Some?
    ensures Height(ev) == Size(Open(ev).value) + TotalSurplus(ev)
  {
    if ev != [] {
      HeightIsSizeAndSurplus(ev[..|ev| - 1]);
      SizeSteps(Open(ev[..|ev| - 1]).value, ev[|ev| - 1]);
    }
  }

  lemma SizeSteps(f: Frames, e: Event)
    requires Step(f, e).Some?
    ensures Size(Step(f, e).value) == Size(f) + Change(e) - Surplus(f, e)
  {
  }

  /** A wrapped count leaves at least 2^32 entries behind, any other none. */
  lemma SurplusOfWrapped(f: Frames, e: Event)
    requires Step(f, e).Some? && Wraps(f, e)
    ensures Surplus(f, e) >= 0 && (Surplus(f, e) == 0 <==> Right(f, e))
    ensures !Right(f, e) ==> Surplus(f, e) >= SIZE_MODULUS
    ensures f.pieces < SIZE_MODULUS ==> Right(f, e)
  {
    if e.EndObject? {
      assert f.pieces == f.pieces / 2 * 2;
    }
  }

  lemma {:induction false} NothingLeftIffExact(ev: seq<Event>)
    requires Open(ev).Some? && Wrapped(ev)
    ensures TotalSurplus(ev) >= 0 && (TotalSurplus(ev) == 0 <==> Exact(ev))
  {
    hide Surplus, Wraps, Right;
    if ev != [] {
      var init := ev[..|ev| - 1];
      NothingLeftIffExact(init);
      SurplusOfWrapped(Open(init).value, ev[|ev| - 1]);
    }
  }

  /** Of counts modulo 2^32, all are right exactly when no container has 2^32 entries or more. */
  lemma {:induction false} ExactIffNarrow(ev: seq<Event>)
    requires Open(ev).Some? && Wrapped(ev)
    ensures Exact(ev) <==> NarrowContainers(ev)
    decreases |ev|
  {
    hide Step;
    if ev != [] {
      var init := ev[..|ev| - 1];
      ExactIffNarrow(init);
      RightIffNarrow(Open(init).value, ev[|ev| - 1]);
    }
  }

  lemma RightIffNarrow(f: Frames, e: Event)
    requires Step(f, e).Some? && Wraps(f, e)
    ensures Right(f, e) <==> Narrow(f, e)
  {
    if e.EndObject? {
      assert f.pieces == f.pieces / 2 * 2;
    }
  }

  /** Fewer than 2^32 events: no count has wrapped. */
  lemma {:induction false} FewEventsAreExact(ev: seq<Event>)
    requires Open(ev).Some? && Wrapped(ev) && |ev| < SIZE_MODULUS
    ensures Exact(ev) && Size(Open(ev).value) <= |ev|
  {
    hide Wraps, Right, Step;
    if ev != [] {
      var init := ev[..|ev| - 1];
      FewEventsAreExact(init);
      var f := Open(init).value;
      SurplusOfWrapped(f, ev[|ev| - 1]);
      SizeSteps(f, ev[|ev| - 1]);
      assert Change(ev[|ev| - 1]) - Surplus(f, ev[|ev| - 1]) <= 1;
    }
  }

  // ---- What is on the stack

  /** The stack fits the frames: each open container is followed by what it has received, and
    * in an object every other piece is a name. */
  predicate Fits(st: seq<Value>, f: Frames)
    decreases f
  {
    if f.Root? then |st| == f.pieces
    else
      && |st| > f.pieces
      && Fits(st[..|st| - f.pieces - 1], f.below)
      && (f.ObjectFrame? ==> Names(st[|st| - f.pieces..]))
  }

  /** Every other value is a string. */
  predicate Names(vs: seq<Value>) { forall k :: 0 <= k < |vs| && k % 2 == 0 ==> vs[k].VString? }

  lemma {:induction false} PairNamed(vs: seq<Value>)
    requires |vs| % 2 == 0 && Names(vs)
    ensures Pair(vs).Some?
    decreases |vs|
  {
    if vs != [] {
      assert forall k :: 0 <= k < |vs[2..]| ==> vs[2..][k] == vs[k + 2];
      PairNamed(vs[2..]);
    }
  }

  lemma PushFits(st: seq<Value>, f: Frames, v: Value)
    requires Fits(st, f) && (f.ObjectFrame? && f.pieces % 2 == 0 ==> v.VString?)
    ensures Fits(st + [v], Placed(f))
  {
    if !f.Root? {
      var n := |st| - f.pieces;
      assert (st + [v])[..n - 1] == st[..n - 1];
      assert (st + [v])[n..] == st[n..] + [v];
    }
  }

  lemma OpenFits(st: seq<Value>, f: Frames, v: Value)
    requires Fits(st, f)
    ensures Fits(st + [v], ArrayFrame(0, f)) && Fits(st + [v], ObjectFrame(0, f))
  {
    assert (st + [v])[..|st|] == st;
  }

  /** One event with the right count keeps the stack in step with the frames. */
  lemma StepFits(st: seq<Value>, f: Frames, e: Event)
    requires Fits(st, f) && Nested(f) && Step(f, e).Some? && Right(f, e)
    ensures Apply(st, e).Some? && Fits(Apply(st, e).value, Step(f, e).value)
  {
    hide Fits, Names;
    match e
    case StartObject => OpenFits(st, f, VObject([]));
    case StartArray => OpenFits(st, f, VArray([]));
    case EndObject(n) => CloseObjectFits(st, f, n);
    case EndArray(n) => CloseArrayFits(st, f, n);
    case _ =>
      var v := Apply(st, e).value[|st|];
      PushFits(st, f, v);
  }

  lemma CloseArrayFits(st: seq<Value>, f: Frames, n: nat)
    requires Fits(st, f) && Nested(f) && f.ArrayFrame? && n == f.pieces
    ensures Apply(st, EndArray(n)).Some? && Fits(Apply(st, EndArray(n)).value, Placed(f.below))
  {
    var below := st[..|st| - n - 1];
    var v := VArray(st[|st| - n..]);
    assert st[..|st| - n][|st| - n - 1 := v] == below + [v];
    PushFits(below, f.below, v);
  }

  lemma CloseObjectFits(st: seq<Value>, f: Frames, n: nat)
    requires Fits(st, f) && Nested(f) && f.ObjectFrame? && 2 * n == f.pieces
    ensures Apply(st, EndObject(n)).Some? && Fits(Apply(st, EndObject(n)).value, Placed(f.below))
  {
    var base := |st| - 2 * n;
    PairNamed(st[base..]);
    var below := st[..base - 1];
    var v := VObject(Pair(st[base..]).value);
    assert st[..base][base - 1 := v] == below + [v];
    PushFits(below, f.below, v);
  }

  /** With right counts the builder goes through, and its stack fits the frames. */
  lemma {:induction false} ExactBuilds(ev: seq<Event>)
    requires Open(ev).Some? && Exact(ev)
    ensures Replay([], ev).Some? && Fits(Replay([], ev).value, Open(ev).value)
  {
    hide Fits, Apply, Step, Right;
    if ev == [] {
      assert Fits([], Root(0)) by { NothingFits(); }
    } else {
      var init := ev[..|ev| - 1];
      ExactBuilds(init);
      StepFits(Replay([], init).value, Open(init).value, ev[|ev| - 1]);
    }
  }

  lemma NothingFits()
    ensures Fits([], Root(0))
  {
  }
}

/** DOM values, the events Accept produces for them, and the stack machine that rebuilds them. */
module Dom {
  import opened Options
  import opened Sax

  /** An integer is kept by value: its word and flags are functions of it (see module IntegerFlags). */
  datatype Value =
    | VNull
    | VBool(b: bool)
    | VInteger(n: int)
    | VDouble(d: real)
    | VString(s: string)
    | VObject(members: seq<Member>)
    | VArray(elements: seq<Value>)
  datatype Member = Member(name: string, value: Value)

  /** The event for an integer, tried in the order IsInt, IsUint, IsInt64. */
  function IntegerEvent(n: int): (e: Event)
    ensures IntegerOf(e) == Some(n)
  {
    if -0x8000_0000 <= n < 0x8000_0000 then Int(n)
    else if 0 <= n < 0x1_0000_0000 then Uint(n)
    else if -0x8000_0000_0000_0000 <= n < 0x8000_0000_0000_0000 then Int64(n)
    else Uint64(n)
  }

  function IntegerOf(e: Event): Option<int> {
    match e
    case Int(n) => Some(n)
    case Uint(n) => Some(n)
    case Int64(n) => Some(n)
    case Uint64(n) => Some(n)
    case _ => None
  }

  /** Accept. */
  function Events(v: Value): (ev: seq<Event>) {
    match v
    case VNull => [Null]
    case VBool(b) => [Bool(b)]
    case VInteger(n) => [IntegerEvent(n)]
    case VDouble(d) => [Double(d)]
    case VString(s) => [String(s)]
    case VObject(ms) => [StartObject] + MemberEvents(ms) + [EndObject(|ms|)]
    case VArray(es) => [StartArray] + ElementEvents(es) + [EndArray(|es|)]
  }

  function MemberEvents(ms: seq<Member>): (ev: seq<Event>) {
    if ms == [] then [] else [Key(ms[0].name)] + Events(ms[0].value) + MemberEvents(ms[1..])
  }

  function ElementEvents(es: seq<Value>): (ev: seq<Event>) {
    if es == [] then [] else Events(es[0]) + ElementEvents(es[1..])
  }

  /** Members as they lie on the builder's stack: each name followed by its value. */
  function Flatten(ms: seq<Member>): (vs: seq<Value>)
    ensures |vs| == 2 * |ms|
  {
    if ms == [] then [] else [VString(ms[0].name), ms[0].value] + Flatten(ms[1..])
  }

  /** The 2n values seen as n members; none when some name is not a string. */
  function Pair(vs: seq<Value>): (ms: Option<seq<Member>>)
    requires |vs| % 2 == 0
  {
    if vs == [] then Some([])
    else match Pair(vs[2..])
      case None => None
      case Some(rest) => if vs[0].VString? then Some([Member(vs[0].s, vs[1])] + rest) else None
  }

  /** One handler call on the stack; none when it would pop more than was pushed, or an object name is no string. */
  function Apply(stack: seq<Value>, e: Event): (r: Option<seq<Value>>) {
    match e
    case Null => Some(stack + [VNull])
    case Bool(b) => Some(stack + [VBool(b)])
    case Int(n) => Some(stack + [VInteger(n)])
    case Uint(n) => Some(stack + [VInteger(n)])
    case Int64(n) => Some(stack + [VInteger(n)])
    case Uint64(n) => Some(stack + [VInteger(n)])
    case Double(d) => Some(stack + [VDouble(d)])
    case RawNumber(s) => Some(stack + [VString(s)])
    case String(s) => Some(stack + [VString(s)])
    case Key(s) => Some(stack + [VString(s)])
    case StartObject => Some(stack + [VObject([])])
    case StartArray => Some(stack + [VArray([])])
    case EndObject(n) =>
      if |stack| < 2 * n + 1 then None
      else
        var base := |stack| - 2 * n;
        (match Pair(stack[base..])
         case None => None
         case Some(ms) => Some(stack[..base][base - 1 := VObject(ms)]))
    case EndArray(n) =>
      if |stack| < n + 1 then None
      else
        var base := |stack| - n;
        Some(stack[..base][base - 1 := VArray(stack[base..])])
  }

  function Replay(stack: seq<Value>, ev: seq<Event>): (r: Option<seq<Value>>) {
    if ev == [] then Some(stack)
    else match Replay(stack, ev[..|ev| - 1])
      case None => None
      case Some(st) => Apply(st, ev[|ev| - 1])
  }

  lemma ReplayOne(stack: seq<Value>, ev: seq<Event>, e: Event)
    ensures Replay(stack, ev + [e]) ==
            var r := Replay(stack, ev);
            if r.None? then None else Apply(r.value, e)
  {
    assert (ev + [e])[..|ev|] == ev;
  }

  lemma {:induction false} ReplayConcat(stack: seq<Value>, a: seq<Event>, b: seq<Event>)
    ensures Replay(stack, a + b) ==
            var r := Replay(stack, a);
            if r.None? then None else Replay(r.value, b)
    decreases |b|
  {
    if b == [] {
      assert a + b == a;
    } else {
      var b' := b[..|b| - 1];
      assert (a + b)[..|a + b| - 1] == a + b';
      ReplayConcat(stack, a, b');
    }
  }

  lemma {:induction false} PairFlatten(ms: seq<Member>)
    ensures Pair(Flatten(ms)) == Some(ms)
  {
    if ms != [] {
      assert Flatten(ms)[2..] == Flatten(ms[1..]);
      PairFlatten(ms[1..]);
      assert [Member(ms[0].name, ms[0].value)] + ms[1..] == ms;
    }
  }

  lemma {:induction false} PairNames(vs: seq<Value>, j: nat)
    requires |vs| % 2 == 0 && Pair(vs).Some? && 2 * j < |vs|
    ensures vs[2 * j].VString?
  {
    if j > 0 {
      PairNames(vs[2..], j - 1);
    }
  }

  lemma {:induction false} FlattenSnoc(ms: seq<Member>, m: Member)
    ensures Flatten(ms + [m]) == Flatten(ms) + [VString(m.name), m.value]
  {
    if ms != [] {
      assert (ms + [m])[1..] == ms[1..] + [m];
      FlattenSnoc(ms[1..], m);
    }
  }

  /** Closing a container over what was pushed since it was opened. */
  lemma CloseObject(stack: seq<Value>, ms: seq<Member>)
    ensures Apply(stack + [VObject([])] + Flatten(ms), EndObject(|ms|)) == Some(stack + [VObject(ms)])
  {
    hide Apply, Flatten, Pair;
    PairFlatten(ms);
    CloseMembers(stack, VObject([]), Flatten(ms), ms);
  }

  /** Closing an object over names and values that make up members. */
  lemma CloseMembers(stack: seq<Value>, v: Value, top: seq<Value>, ms: seq<Member>)
    requires |top| == 2 * |ms| && Pair(top) == Some(ms)
    ensures Apply(stack + [v] + top, EndObject(|ms|)) == Some(stack + [VObject(ms)])
  {
    hide Pair;
    var st := stack + [v] + top;
    var base := |st| - 2 * |ms|;
    assert st[base..] == top;
    assert st[..base] == stack + [v];
    assert (stack + [v])[base - 1 := VObject(ms)] == stack + [VObject(ms)];
  }

  lemma CloseArray(stack: seq<Value>, es: seq<Value>)
    ensures Apply(stack + [VArray([])] + es, EndArray(|es|)) == Some(stack + [VArray(es)])
  {
    var st := stack + [VArray([])] + es;
    var base := |st| - |es|;
    assert st[base..] == es;
    assert st[..base][base - 1 := VArray(es)] == stack + [VArray(es)];
  }

  /** The first event of a value, on a given stack. */
  lemma ReplayFirst(stack: seq<Value>, e: Event)
    ensures Replay(stack, [e]) == Apply(stack, e)
  {
    ReplayOne(stack, [], e);
    var none: seq<Event> := [];
    assert none + [e] == [e];
  }

  lemma ReplayNothing(stack: seq<Value>)
    ensures Replay(stack, []) == Some(stack)
  {
  }

  /** An opening event, what lies between, and the closing event. */
  lemma ReplayEnclosed(stack: seq<Value>, open: Event, inner: seq<Event>, close: Event, begun: seq<Value>, full: seq<Value>)
    requires Apply(stack, open) == Some(begun) && Replay(begun, inner) == Some(full)
    ensures Replay(stack, [open] + inner + [close]) == Apply(full, close)
  {
    hide Apply, Replay;
    ReplayFirst(stack, open);
    ReplayConcat(stack, [open], inner);
    ReplayOne(stack, [open] + inner, close);
  }

  /** Feeding the events of a value to the builder pushes exactly that value. */
  lemma {:induction false} AcceptBuilds(stack: seq<Value>, v: Value)
    ensures Replay(stack, Events(v)) == Some(stack + [v])
    decreases v, 0
  {
    hide Replay, Flatten, MemberEvents, ElementEvents;
    match v
    case VObject(ms) =>
      var open := stack + [VObject([])];
      MembersBuild(open, ms);
      ReplayEnclosed(stack, StartObject, MemberEvents(ms), EndObject(|ms|), open, open + Flatten(ms));
      CloseObject(stack, ms);
    case VArray(es) =>
      var open := stack + [VArray([])];
      ElementsBuild(open, es);
      ReplayEnclosed(stack, StartArray, ElementEvents(es), EndArray(|es|), open, open + es);
      CloseArray(stack, es);
    case _ =>
      ReplayFirst(stack, Events(v)[0]);
  }

  lemma {:induction false} MembersBuild(stack: seq<Value>, ms: seq<Member>)
    ensures Replay(stack, MemberEvents(ms)) == Some(stack + Flatten(ms))
    decreases ms, 1
  {
    hide Apply, Events, Replay, Flatten;
    FlattenStep(stack, ms);
    if ms == [] {
      ReplayNothing(stack);
    } else {
      var m, rest := ms[0], ms[1..];
      MemberBuilds(stack, m);
      MembersBuild(stack + [VString(m.name), m.value], rest);
      ReplayConcat(stack, [Key(m.name)] + Events(m.value), MemberEvents(rest));
    }
  }

  lemma FlattenStep(stack: seq<Value>, ms: seq<Member>)
    ensures stack + Flatten(ms) ==
      if ms == [] then stack else stack + [VString(ms[0].name), ms[0].value] + Flatten(ms[1..])
  {
  }

  lemma {:induction false} MemberBuilds(stack: seq<Value>, m: Member)
    ensures Replay(stack, [Key(m.name)] + Events(m.value)) == Some(stack + [VString(m.name), m.value])
    decreases m, 1
  {
    hide Events, Replay;
    var named := stack + [VString(m.name)];
    ReplayFirst(stack, Key(m.name));
    AcceptBuilds(named, m.value);
    ReplayConcat(stack, [Key(m.name)], Events(m.value));
    assert named + [m.value] == stack + [VString(m.name), m.value];
  }

  lemma {:induction false} ElementsBuild(stack: seq<Value>, es: seq<Value>)
    ensures Replay(stack, ElementEvents(es)) == Some(stack + es)
    decreases es, 1
  {
    hide Apply, Events;
    if es == [] {
      assert stack + es == stack;
    } else {
      AcceptBuilds(stack, es[0]);
      ElementsBuild(stack + [es[0]], es[1..]);
      ReplayConcat(stack, Events(es[0]), ElementEvents(es[1..]));
      assert stack + [es[0]] + es[1..] == stack + es;
    }
  }

  /** Two values with the same events are the same value. */
  lemma AcceptInjective(v: Value, w: Value)
    requires Events(v) == Events(w)
    ensures v == w
  {
    AcceptBuilds([], v);
    AcceptBuilds([], w);
    assert ([] + [v])[0] == ([] + [w])[0];
  }
}

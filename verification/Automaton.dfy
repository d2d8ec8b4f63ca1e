/** The table-driven pushdown automaton: Tokenize, Predict, Transit, HandleError and the loop around them. */
module Automaton {
  import opened Machine
  import opened Sax
  import opened Scanner

  datatype State =
    | Start | Finish | Error
    | ObjectInitial | MemberKey | KeyValueDelimiter | MemberValue | MemberDelimiter | ObjectFinish
    | ArrayInitial | Element | ElementDelimiter | ArrayFinish
    | SingleValue

  datatype Token =
    | LeftBracket | RightBracket | LeftCurly | RightCurly | Comma | Colon
    | StringToken | FalseToken | TrueToken | NullToken | NumberToken

  function Tokenize(c: char): Token {
    match c
    case '[' => LeftBracket
    case ']' => RightBracket
    case '{' => LeftCurly
    case '}' => RightCurly
    case ',' => Comma
    case ':' => Colon
    case '"' => StringToken
    case 'f' => FalseToken
    case 't' => TrueToken
    case 'n' => NullToken
    case _ => NumberToken
  }

  predicate IsScalarToken(t: Token) {
    t.StringToken? || t.FalseToken? || t.TrueToken? || t.NullToken? || t.NumberToken?
  }

  /** A row of the table for a state in which a value may begin. */
  function PredictValue(t: Token, scalar: State): State {
    match t
    case LeftBracket => ArrayInitial
    case LeftCurly => ObjectInitial
    case RightBracket | RightCurly | Comma | Colon => Error
    case _ => scalar
  }

  /** The table G. */
  function Predict(state: State, t: Token): State {
    match state
    case Start => PredictValue(t, SingleValue)
    case KeyValueDelimiter => PredictValue(t, MemberValue)
    case ArrayInitial | ElementDelimiter => if t.RightBracket? then ArrayFinish else PredictValue(t, Element)
    case ObjectInitial | MemberDelimiter =>
      (match t case RightCurly => ObjectFinish case StringToken => MemberKey case _ => Error)
    case MemberKey => if t.Colon? then KeyValueDelimiter else Error
    case MemberValue => (match t case RightCurly => ObjectFinish case Comma => MemberDelimiter case _ => Error)
    case Element => (match t case RightBracket => ArrayFinish case Comma => ElementDelimiter case _ => Error)
    case Finish | Error | ObjectFinish | ArrayFinish | SingleValue => Error
  }

  /** The parse stack: each open container has pushed the state to return to and its running count. */
  datatype Stack = Empty | Push(below: Stack, ret: State, count: nat)

  predicate Framed(stack: Stack) {
    match stack
    case Empty => true
    case Push(below, ret, _) =>
      Framed(below) && if below.Empty? then ret == Start else ret == Element || ret == MemberValue
  }

  /** States of the loop, with the stack each of them can have. */
  predicate Reachable(state: State, stack: Stack) {
    && Framed(stack)
    && match state
       case Start | Finish => stack.Empty?
       case Error | ObjectFinish | ArrayFinish | SingleValue => false
       case _ => stack.Push?
  }

  /** The state in which a value that began in `src` leaves the automaton. */
  function ReturnState(src: State): State {
    match src
    case ArrayInitial | ElementDelimiter => Element
    case KeyValueDelimiter => MemberValue
    case _ => src
  }

  function Restored(ret: State): State {
    if ret == Start then Finish else ret
  }

  datatype Transition =
    | To(state: State, stack: Stack, pos: nat, events: seq<Event>)
    | Stopped(error: Outcome) // Transit has set the parse error
    | NoRule // Predict gave the error state

  function Moved(o: Outcome, state: State, stack: Stack): Transition {
    if o.Ok? then To(state, stack, o.pos, o.events) else Stopped(o)
  }

  /** Transit, for the destination chosen by Predict. A container closes before its bracket is taken. */
  function Transit(s: Source, src: State, stack: Stack, p: nat, ev: seq<Event>): (r: Transition)
    requires Sound(s) && p < |s.text| && Reachable(src, stack)
    ensures r.To? ==> p < r.pos <= |s.text| && Reachable(r.state, r.stack)
    ensures r.Stopped? ==> r.error.Fail?
  {
    var dst := Predict(src, Tokenize(s.text[p]));
    match dst
    case ObjectInitial =>
      Moved(Send(s, StartObject, p + 1, p, ev), dst, Push(stack, ReturnState(src), 0))
    case ArrayInitial =>
      Moved(Send(s, StartArray, p + 1, p, ev), dst, Push(stack, ReturnState(src), 0))
    case MemberKey => Moved(ParseString(s, p, true, ev), dst, stack)
    case KeyValueDelimiter => To(dst, stack, p + 1, ev)
    case MemberValue | Element => Moved(ParseScalar(s, p, ev), dst, stack)
    case MemberDelimiter | ElementDelimiter =>
      To(dst, stack.(count := Increment(stack.count)), p + 1, ev)
    case ObjectFinish =>
      if !s.flags.trailingCommas && src == MemberDelimiter then Stopped(Fail(ObjectMissName, p, ev))
      else
        var c := if src == MemberValue then Increment(stack.count) else stack.count;
        Moved(Send(s, EndObject(c), p + 1, p, ev), Restored(stack.ret), stack.below)
    case ArrayFinish =>
      if !s.flags.trailingCommas && src == ElementDelimiter then Stopped(Fail(ValueInvalid, p, ev))
      else
        var c := if src == Element then Increment(stack.count) else stack.count;
        Moved(Send(s, EndArray(c), p + 1, p, ev), Restored(stack.ret), stack.below)
    case SingleValue => Moved(ParseScalar(s, p, ev), Finish, stack)
    case Error | Start | Finish => NoRule
  }

  /** HandleError, for the states of the loop. */
  function ErrorIn(src: State): ErrorCode {
    match src
    case Start => DocumentEmpty
    case Finish => DocumentRootNotSingular
    case ObjectInitial | MemberDelimiter => ObjectMissName
    case MemberKey => ObjectMissColon
    case MemberValue => ObjectMissCommaOrCurlyBracket
    case KeyValueDelimiter | ArrayInitial | ElementDelimiter => ValueInvalid
    case _ => ArrayMissCommaOrSquareBracket
  }

  /** The loop of IterativeParse, from the test of the loop condition. */
  function Run(s: Source, state: State, stack: Stack, p: nat, ev: seq<Event>): (r: Outcome)
    requires Sound(s) && p <= |s.text| && Reachable(state, stack)
    decreases |s.text| - p, 0
  {
    if Peek(s.text, p) == '\0' then
      if state == Finish then Ok(p, ev) else Fail(ErrorIn(state), p, ev)
    else
      match Transit(s, state, stack, p, ev)
      case To(state', stack', p', ev') => Resume(s, state', stack', p', ev')
      case Stopped(error) => error
      case NoRule => Fail(ErrorIn(state), p, ev)
  }

  /** The rest of an iteration, after a transition. */
  function Resume(s: Source, state: State, stack: Stack, p: nat, ev: seq<Event>): (r: Outcome)
    requires Sound(s) && p <= |s.text| && Reachable(state, stack)
    decreases |s.text| - p, 1
  {
    if s.flags.stopWhenDone && state == Finish then Ok(p, ev)
    else
      var (q, _) :- Skip(s, p, ev);
      Run(s, state, stack, q, ev)
  }

  function IterativeParse(s: Source): (r: Outcome)
    requires Sound(s)
  {
    var (p, _) :- Skip(s, 0, []);
    Run(s, Start, Empty, p, [])
  }
}

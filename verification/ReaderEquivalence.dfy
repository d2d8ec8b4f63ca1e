/** The two parsers agree. */
module ReaderEquivalence {
  import opened Machine
  import opened Sax
  import opened Scanner
  import R = RecursiveGrammar
  import opened Automaton

  /** Same result, except for the offset of a refusal: the automaton reports it before taking the bracket. */
  predicate Agree(a: Outcome, b: Outcome) {
    a == b || (a.Fail? && b.Fail? && a.code == b.code == Termination && a.events == b.events)
  }

  /** The automaton, having agreed on a value's outcome `o`, goes on in `state`. */
  ghost predicate Continues(s: Source, run: Outcome, o: Outcome, state: State, stack: Stack)
    requires Sound(s) && Reachable(state, stack) && (o.Ok? ==> o.pos <= |s.text|)
  {
    if o.Ok? then Agree(run, Resume(s, state, stack, o.pos, o.events)) else Agree(run, o)
  }

  predicate ValueState(src: State) {
    src.Start? || src.KeyValueDelimiter? || src.ArrayInitial? || src.ElementDelimiter?
  }

  predicate ClosesOrSeparates(c: char) {
    c == ']' || c == '}' || c == ',' || c == ':'
  }

  /** One iteration. */
  lemma Turn(s: Source, state: State, stack: Stack, p: nat, ev: seq<Event>)
    requires Sound(s) && p <= |s.text| && Reachable(state, stack)
    ensures Peek(s.text, p) == '\0' ==>
              Run(s, state, stack, p, ev) == if state == Finish then Ok(p, ev) else Fail(ErrorIn(state), p, ev)
    ensures Peek(s.text, p) != '\0' ==>
              var t := Transit(s, state, stack, p, ev);
              Run(s, state, stack, p, ev) ==
              if t.To? then Resume(s, t.state, t.stack, t.pos, t.events)
              else if t.Stopped? then t.error
              else Fail(ErrorIn(state), p, ev)
  {
  }

  lemma Proceed(s: Source, state: State, stack: Stack, p: nat, ev: seq<Event>)
    requires Sound(s) && p <= |s.text| && Reachable(state, stack) && state != Finish
    ensures var o := Skip(s, p, ev);
            Resume(s, state, stack, p, ev) == if o.Ok? then Run(s, state, stack, o.pos, ev) else o
  {
  }

  /** The row of the table for a closing bracket, when it is allowed. */
  lemma CloseTransit(s: Source, st: State, open: Stack, p: nat, ev: seq<Event>)
    requires Sound(s) && Reachable(st, open) && p < |s.text|
    ensures s.text[p] == '}' && (st == ObjectInitial || st == MemberValue) ==>
              var c := if st == MemberValue then Increment(open.count) else open.count;
              Transit(s, st, open, p, ev) == Moved(Send(s, EndObject(c), p + 1, p, ev), Restored(open.ret), open.below)
    ensures s.text[p] == ']' && (st == ArrayInitial || st == Element) ==>
              var c := if st == Element then Increment(open.count) else open.count;
              Transit(s, st, open, p, ev) == Moved(Send(s, EndArray(c), p + 1, p, ev), Restored(open.ret), open.below)
  {
    hide Send, ParseString, ParseScalar;
  }

  /** The rows for what may follow an entry. */
  lemma AfterTransit(s: Source, st: State, open: Stack, p: nat, ev: seq<Event>)
    requires Sound(s) && Reachable(st, open) && p < |s.text| && (st == MemberValue || st == Element)
    ensures s.text[p] == ',' ==>
              Transit(s, st, open, p, ev) ==
              To(if st == MemberValue then MemberDelimiter else ElementDelimiter, open.(count := Increment(open.count)), p + 1, ev)
    ensures s.text[p] != ',' && s.text[p] != (if st == MemberValue then '}' else ']') ==> Transit(s, st, open, p, ev) == NoRule
  {
    hide Send, ParseString, ParseScalar;
  }

  /** The row for a scalar where a value may begin. */
  lemma ScalarTransit(s: Source, src: State, stack: Stack, p: nat, ev: seq<Event>)
    requires Sound(s) && ValueState(src) && Reachable(src, stack) && p < |s.text|
    requires !ClosesOrSeparates(s.text[p]) && s.text[p] != '{' && s.text[p] != '['
    ensures Transit(s, src, stack, p, ev) == Moved(ParseScalar(s, p, ev), Restored(ReturnState(src)), stack)
  {
    hide Send, ParseString, ParseScalar;
    assert IsScalarToken(Tokenize(s.text[p]));
  }

  lemma {:induction false} RunValue(s: Source, src: State, stack: Stack, p: nat, ev: seq<Event>)
    requires Sound(s) && ValueState(src) && Reachable(src, stack)
    requires p <= |s.text| && Peek(s.text, p) != '\0' && !ClosesOrSeparates(s.text[p])
    ensures Continues(s, Run(s, src, stack, p, ev), R.ParseValue(s, p, ev), Restored(ReturnState(src)), stack)
    decreases |s.text| - p, 2
  {
    hide Run, Resume, Transit, ParseScalar, R.ParseObject, R.ParseArray;
    if s.text[p] == '{' {
      RunObject(s, src, stack, p, ev);
    } else if s.text[p] == '[' {
      RunArray(s, src, stack, p, ev);
    } else {
      Turn(s, src, stack, p, ev);
      ScalarTransit(s, src, stack, p, ev);
    }
  }

  /** Opening a container. */
  lemma Open(s: Source, src: State, stack: Stack, p: nat, ev: seq<Event>)
    requires Sound(s) && ValueState(src) && Reachable(src, stack)
    requires p < |s.text| && (s.text[p] == '{' || s.text[p] == '[')
    ensures var (e, dst) := if s.text[p] == '{' then (StartObject, ObjectInitial) else (StartArray, ArrayInitial);
            var o := Send(s, e, p + 1, p, ev);
            Run(s, src, stack, p, ev) ==
            if o.Ok? then Resume(s, dst, Push(stack, ReturnState(src), 0), p + 1, o.events) else o
  {
    hide Run, Resume;
    Turn(s, src, stack, p, ev);
  }

  /** No value begins with a closing bracket, a separator or the end of the text. */
  lemma NoValue(s: Source, p: nat, ev: seq<Event>)
    requires Sound(s) && p <= |s.text|
    requires Peek(s.text, p) == '\0' || ClosesOrSeparates(s.text[p])
    ensures R.ParseValue(s, p, ev) == Fail(ValueInvalid, p, ev)
  {
  }

  lemma {:induction false} RunObject(s: Source, src: State, stack: Stack, p: nat, ev: seq<Event>)
    requires Sound(s) && ValueState(src) && Reachable(src, stack)
    requires p < |s.text| && s.text[p] == '{'
    ensures Continues(s, Run(s, src, stack, p, ev), R.ParseObject(s, p, ev), Restored(ReturnState(src)), stack)
    decreases |s.text| - p, 1
  {
    hide Run, Resume, Transit, Skip, ParseString, ParseScalar, R.ParseMembers, R.ParseValue;
    Open(s, src, stack, p, ev);
    var start := Send(s, StartObject, p + 1, p + 1, ev);
    if start.Ok? {
      var open := Push(stack, ReturnState(src), 0);
      Proceed(s, ObjectInitial, open, start.pos, start.events);
      var o := Skip(s, start.pos, start.events);
      if o.Ok? {
        if Peek(s.text, o.pos) == '}' {
          Turn(s, ObjectInitial, open, o.pos, start.events);
          CloseTransit(s, ObjectInitial, open, o.pos, start.events);
        } else {
          RunMembers(s, ObjectInitial, open, o.pos, start.events);
        }
      }
    }
  }

  /** From a member name to the end of the object. */
  lemma {:induction false} RunMembers(s: Source, st: State, open: Stack, p: nat, ev: seq<Event>)
    requires Sound(s) && (st == ObjectInitial || st == MemberDelimiter)
    requires Reachable(st, open) && p <= |s.text|
    requires Peek(s.text, p) == '}' ==> st == MemberDelimiter && !s.flags.trailingCommas
    ensures Continues(s, Run(s, st, open, p, ev), R.ParseMembers(s, p, open.count, ev), Restored(open.ret), open.below)
    decreases |s.text| - p, 0
  {
    hide Run, Resume, Skip, ParseString, ParseScalar, R.ParseValue, R.AfterKey;
    Turn(s, st, open, p, ev);
    if Peek(s.text, p) == '"' {
      var key := ParseString(s, p, true, ev);
      if key.Ok? {
        Proceed(s, MemberKey, open, key.pos, key.events);
        var colon := Skip(s, key.pos, key.events);
        if colon.Ok? {
          RunColon(s, open, colon.pos, key.events);
        }
      }
    }
  }

  /** From the colon to the end of the object. */
  lemma {:induction false} RunColon(s: Source, open: Stack, p: nat, ev: seq<Event>)
    requires Sound(s) && Reachable(MemberKey, open) && p <= |s.text|
    ensures Continues(s, Run(s, MemberKey, open, p, ev), R.AfterKey(s, p, open.count, ev), Restored(open.ret), open.below)
    decreases |s.text| - p, 0
  {
    hide Run, Resume, Skip, ParseString, ParseScalar, R.ParseValue, R.AfterMember;
    Turn(s, MemberKey, open, p, ev);
    if Peek(s.text, p) == ':' {
      Proceed(s, KeyValueDelimiter, open, p + 1, ev);
      var value := Skip(s, p + 1, ev);
      if value.Ok? {
        var q := value.pos;
        if Peek(s.text, q) == '\0' || ClosesOrSeparates(s.text[q]) {
          NoValue(s, q, ev);
          Turn(s, KeyValueDelimiter, open, q, ev);
        } else {
          RunValue(s, KeyValueDelimiter, open, q, ev);
          var v := R.ParseValue(s, q, ev);
          if v.Ok? {
            AfterMember(s, open, v.pos, v.events);
          }
        }
      }
    }
  }

  /** After a member's value. */
  lemma {:induction false} AfterMember(s: Source, open: Stack, p: nat, ev: seq<Event>)
    requires Sound(s) && Reachable(MemberValue, open) && p <= |s.text|
    ensures Continues(s, Resume(s, MemberValue, open, p, ev), R.AfterMember(s, p, open.count, ev), Restored(open.ret), open.below)
    decreases |s.text| - p, 0
  {
    hide Run, Resume, Transit, Skip, ParseString, ParseScalar, R.ParseMembers, R.ParseValue;
    Proceed(s, MemberValue, open, p, ev);
    var o := Skip(s, p, ev);
    if o.Ok? {
      Turn(s, MemberValue, open, o.pos, ev);
      if Peek(s.text, o.pos) != '\0' {
        CloseTransit(s, MemberValue, open, o.pos, ev);
        AfterTransit(s, MemberValue, open, o.pos, ev);
      }
      if Peek(s.text, o.pos) == ',' {
        MemberComma(s, open.(count := Increment(open.count)), o.pos, ev);
      }
    }
  }

  /** After the comma behind a member. */
  lemma {:induction false} MemberComma(s: Source, counted: Stack, p: nat, ev: seq<Event>)
    requires Sound(s) && Reachable(MemberDelimiter, counted) && p < |s.text|
    ensures var next := Skip(s, p + 1, ev);
            var o := if next.Fail? then next
                     else if s.flags.trailingCommas && Peek(s.text, next.pos) == '}' then
                       Send(s, EndObject(counted.count), next.pos + 1, next.pos, ev)
                     else R.ParseMembers(s, next.pos, counted.count, ev);
            Continues(s, Resume(s, MemberDelimiter, counted, p + 1, ev), o, Restored(counted.ret), counted.below)
    decreases |s.text| - (p + 1), 5
  {
    hide Run, Resume, Skip, ParseString, ParseScalar, R.ParseMembers, R.ParseValue;
    Proceed(s, MemberDelimiter, counted, p + 1, ev);
    var next := Skip(s, p + 1, ev);
    if next.Ok? {
      if Peek(s.text, next.pos) == '}' && s.flags.trailingCommas {
        Turn(s, MemberDelimiter, counted, next.pos, ev);
      } else {
        RunMembers(s, MemberDelimiter, counted, next.pos, ev);
      }
    }
  }

  lemma {:induction false} RunArray(s: Source, src: State, stack: Stack, p: nat, ev: seq<Event>)
    requires Sound(s) && ValueState(src) && Reachable(src, stack)
    requires p < |s.text| && s.text[p] == '['
    ensures Continues(s, Run(s, src, stack, p, ev), R.ParseArray(s, p, ev), Restored(ReturnState(src)), stack)
    decreases |s.text| - p, 1
  {
    hide Run, Resume, Transit, Skip, ParseString, ParseScalar, R.ParseElements, R.ParseValue;
    Open(s, src, stack, p, ev);
    var start := Send(s, StartArray, p + 1, p + 1, ev);
    if start.Ok? {
      var open := Push(stack, ReturnState(src), 0);
      Proceed(s, ArrayInitial, open, start.pos, start.events);
      var o := Skip(s, start.pos, start.events);
      if o.Ok? {
        if Peek(s.text, o.pos) == ']' {
          Turn(s, ArrayInitial, open, o.pos, start.events);
          CloseTransit(s, ArrayInitial, open, o.pos, start.events);
        } else {
          RunElements(s, ArrayInitial, open, o.pos, start.events);
        }
      }
    }
  }

  /** From an element to the end of the array. */
  lemma {:induction false} RunElements(s: Source, st: State, open: Stack, p: nat, ev: seq<Event>)
    requires Sound(s) && (st == ArrayInitial || st == ElementDelimiter)
    requires Reachable(st, open) && p <= |s.text|
    requires Peek(s.text, p) == ']' ==> st == ElementDelimiter && !s.flags.trailingCommas
    ensures Continues(s, Run(s, st, open, p, ev), R.ParseElements(s, p, open.count, ev), Restored(open.ret), open.below)
    decreases |s.text| - p, 3
  {
    hide Run, Resume, Skip, ParseString, ParseScalar, R.ParseValue, R.AfterElement;
    if Peek(s.text, p) == '\0' || ClosesOrSeparates(s.text[p]) {
      NoValue(s, p, ev);
      Turn(s, st, open, p, ev);
    } else {
      RunValue(s, st, open, p, ev);
      var v := R.ParseValue(s, p, ev);
      if v.Ok? {
        AfterElement(s, open, v.pos, v.events);
      }
    }
  }

  /** After an element. */
  lemma {:induction false} AfterElement(s: Source, open: Stack, p: nat, ev: seq<Event>)
    requires Sound(s) && Reachable(Element, open) && p <= |s.text|
    ensures Continues(s, Resume(s, Element, open, p, ev), R.AfterElement(s, p, open.count, ev), Restored(open.ret), open.below)
    decreases |s.text| - p, 0
  {
    hide Run, Resume, Transit, Skip, ParseString, ParseScalar, R.ParseElements, R.ParseValue;
    Proceed(s, Element, open, p, ev);
    var o := Skip(s, p, ev);
    if o.Ok? {
      Turn(s, Element, open, o.pos, ev);
      if Peek(s.text, o.pos) != '\0' {
        CloseTransit(s, Element, open, o.pos, ev);
        AfterTransit(s, Element, open, o.pos, ev);
      }
      if Peek(s.text, o.pos) == ',' {
        ElementComma(s, open.(count := Increment(open.count)), o.pos, ev);
      }
    }
  }

  /** After the comma behind an element. */
  lemma {:induction false} ElementComma(s: Source, counted: Stack, p: nat, ev: seq<Event>)
    requires Sound(s) && Reachable(ElementDelimiter, counted) && p < |s.text|
    ensures var next := Skip(s, p + 1, ev);
            var o := if next.Fail? then next
                     else if s.flags.trailingCommas && Peek(s.text, next.pos) == ']' then
                       Send(s, EndArray(counted.count), next.pos + 1, next.pos, ev)
                     else R.ParseElements(s, next.pos, counted.count, ev);
            Continues(s, Resume(s, ElementDelimiter, counted, p + 1, ev), o, Restored(counted.ret), counted.below)
    decreases |s.text| - (p + 1), 5
  {
    hide Run, Resume, Skip, ParseString, ParseScalar, R.ParseElements, R.ParseValue;
    Proceed(s, ElementDelimiter, counted, p + 1, ev);
    var next := Skip(s, p + 1, ev);
    if next.Ok? {
      if Peek(s.text, next.pos) == ']' && s.flags.trailingCommas {
        Turn(s, ElementDelimiter, counted, next.pos, ev);
      } else {
        RunElements(s, ElementDelimiter, counted, next.pos, ev);
      }
    }
  }

  /** The position at which the root value is looked for, when the leading blanks and comments are well formed. */
  function RootAt(s: Source): Outcome
  {
    Skip(s, 0, [])
  }

  /** The root begins with a character that no value can begin with and that the automaton has a token for. */
  predicate RootIsPunctuation(s: Source) {
    RootAt(s).Ok? && ClosesOrSeparates(Peek(s.text, RootAt(s).pos))
  }

  /**
   * For every text, every flag set, every scanning code and every handler, both parsers succeed or both fail, at
   * the same place, having sent the same events; the error codes and offsets differ exactly as stated.
   */
  lemma ParsersAgree(s: Source)
    requires Sound(s)
    ensures !RootIsPunctuation(s) ==> Agree(IterativeParse(s), R.Parse(s))
    ensures RootIsPunctuation(s) ==>
              && IterativeParse(s) == Fail(DocumentEmpty, RootAt(s).pos, [])
              && R.Parse(s) == Fail(ValueInvalid, RootAt(s).pos, [])
  {
    var root := RootAt(s);
    if root.Ok? && Peek(s.text, root.pos) != '\0' && !RootIsPunctuation(s) {
      RunValue(s, Start, Empty, root.pos, []);
      var v := R.ParseValue(s, root.pos, []);
      if v.Ok? && !s.flags.stopWhenDone {
        var rest := Skip(s, v.pos, v.events);
        assert rest.Ok? ==> Resume(s, Finish, Empty, v.pos, v.events) == Run(s, Finish, Empty, rest.pos, v.events);
      }
    }
  }
}

/** GenericReader as the code runs it: a cursor, the handler's history and a parse error, updated step by step. */
module GenericReader {
  import opened Machine
  import opened Sax
  import opened Scanner
  import G = RecursiveGrammar
  import A = Automaton
  import E = ReaderEquivalence

  datatype ParseError = NoError | ErrorAt(code: ErrorCode, offset: nat)

  class Reader {
    const s: Source
    var pos: nat
    var events: seq<Event>
    var parseResult: ParseError

    ghost predicate Valid()
      reads this
    {
      Sound(s) && pos <= |s.text|
    }

    /** What the caller of Parse observes. */
    function Result(): (o: Outcome)
      reads this
    {
      if parseResult.NoError? then Ok(pos, events) else Fail(parseResult.code, parseResult.offset, events)
    }

    constructor (source: Source)
      requires Sound(source)
      ensures Valid() && s == source && Result() == Ok(0, [])
    {
      s := source;
      pos := 0;
      events := [];
      parseResult := NoError;
    }

    method SetParseError(code: ErrorCode, offset: nat)
      requires Valid() && parseResult.NoError?
      modifies this
      ensures Valid() && Result() == Fail(code, offset, old(events))
    {
      parseResult := ErrorAt(code, offset);
    }

    /** The handler receives `e`; a refusal is recorded at `offset`, otherwise `taken` characters are taken. */
    method Emit(e: Event, taken: nat, offset: nat)
      requires Valid() && parseResult.NoError? && pos + taken <= |s.text|
      modifies this
      ensures Valid() && Result() == Send(s, e, old(pos) + taken, offset, old(events))
    {
      events := events + [e];
      if s.handler(events) {
        pos := pos + taken;
      } else {
        parseResult := ErrorAt(Termination, offset);
      }
    }

    /** Any scalar scanner: it leaves the cursor after the scalar, or an error. */
    method Adopt(o: Outcome)
      requires Valid() && parseResult.NoError? && (o.Ok? ==> o.pos <= |s.text|)
      modifies this
      ensures Valid() && Result() == o
    {
      events := o.events;
      if o.Ok? {
        pos := o.pos;
      } else {
        parseResult := ErrorAt(o.code, o.offset);
      }
    }

    method SkipWhitespace()
      requires Valid()
      modifies `pos
      ensures Valid() && pos == SkipBlanks(s.text, old(pos))
    {
      while IsBlank(Peek(s.text, pos))
        invariant Valid() && SkipBlanks(s.text, pos) == SkipBlanks(s.text, old(pos))
        decreases |s.text| - pos
      {
        pos := pos + 1;
      }
    }

    /** The loop inside a block comment; false when the text ends first. */
    method SkipBlockComment() returns (closed: bool)
      requires Valid()
      modifies `pos
      ensures Valid()
      ensures BlockCommentEnd(s.text, old(pos)) == if closed then At(pos) else SkipError(pos)
    {
      closed := false;
      while !closed && Peek(s.text, pos) != '\0'
        invariant Valid()
        invariant BlockCommentEnd(s.text, old(pos)) == if closed then At(pos) else BlockCommentEnd(s.text, pos)
        decreases |s.text| - pos
      {
        if s.text[pos] == '*' {
          pos := pos + 1;
          if Peek(s.text, pos) == '/' {
            pos := pos + 1;
            closed := true;
          }
        } else {
          pos := pos + 1;
        }
      }
    }

    method SkipLineComment()
      requires Valid()
      modifies `pos
      ensures Valid() && pos == LineCommentEnd(s.text, old(pos))
    {
      var ended := false;
      while !ended && Peek(s.text, pos) != '\0'
        invariant Valid()
        invariant LineCommentEnd(s.text, old(pos)) == if ended then pos else LineCommentEnd(s.text, pos)
        decreases |s.text| - pos
      {
        ended := s.text[pos] == '\n';
        pos := pos + 1;
      }
    }

    /** One comment, whose first slash is under the cursor, and the blanks after it. */
    method SkipComment()
      requires Valid() && parseResult.NoError? && Peek(s.text, pos) == '/'
      modifies this
      ensures Valid() && events == old(events)
      ensures if parseResult.NoError? then pos > old(pos) && SkipComments(s.text, old(pos)) == SkipComments(s.text, pos)
              else parseResult.code == UnspecificSyntaxError
                   && SkipComments(s.text, old(pos)) == SkipError(parseResult.offset)
    {
      hide SkipBlanks, BlockCommentEnd, LineCommentEnd;
      pos := pos + 1;
      if Peek(s.text, pos) == '*' {
        pos := pos + 1;
        var closed := SkipBlockComment();
        if closed {
          SkipWhitespace();
        } else {
          parseResult := ErrorAt(UnspecificSyntaxError, pos);
        }
      } else if Peek(s.text, pos) == '/' {
        pos := pos + 1;
        SkipLineComment();
        SkipWhitespace();
      } else {
        parseResult := ErrorAt(UnspecificSyntaxError, pos);
      }
    }

    method SkipWhitespaceAndComments()
      requires Valid() && parseResult.NoError?
      modifies this
      ensures Valid() && Result() == Skip(s, old(pos), old(events))
    {
      SkipWhitespace();
      if !s.flags.comments { return; }
      ghost var goal := SkipComments(s.text, pos);
      while parseResult.NoError? && Peek(s.text, pos) == '/'
        invariant Valid() && events == old(events)
        invariant if parseResult.NoError? then SkipComments(s.text, pos) == goal
                  else parseResult.code == UnspecificSyntaxError && goal == SkipError(parseResult.offset)
        decreases parseResult.NoError?, |s.text| - pos
      {
        SkipComment();
      }
    }

    method ParseValue()
      requires Valid() && parseResult.NoError?
      modifies this
      ensures Valid() && Result() == G.ParseValue(s, old(pos), old(events))
      decreases |s.text| - pos, 2
    {
      var c := Peek(s.text, pos);
      if c == '{' {
        ParseObject();
      } else if c == '[' {
        ParseArray();
      } else {
        Adopt(ParseScalar(s, pos, events));
      }
    }

    method ParseObject()
      requires Valid() && parseResult.NoError? && pos < |s.text|
      modifies this
      ensures Valid() && Result() == G.ParseObject(s, old(pos), old(events))
      decreases |s.text| - pos, 1
    {
      hide Skip;
      Emit(StartObject, 1, pos + 1);
      if parseResult.ErrorAt? { return; }
      SkipWhitespaceAndComments();
      if parseResult.ErrorAt? { return; }
      if Peek(s.text, pos) == '}' {
        Emit(EndObject(0), 1, pos + 1);
        return;
      }
      var memberCount: nat := 0;
      ghost var goal := G.ParseMembers(s, pos, 0, events);
      var more := true;
      while more
        invariant Valid() && (more ==> pos > old(pos))
        invariant if more then parseResult.NoError? && G.ParseMembers(s, pos, memberCount, events) == goal
                  else Result() == goal
        decreases more, |s.text| - pos
      {
        hide G.ParseMembers, G.AfterMember;
        ParseMember(memberCount);
        if parseResult.ErrorAt? { return; }
        more := EndMember(memberCount);
        memberCount := Increment(memberCount);
      }
    }

    /** A name, a colon and a value. */
    method ParseMember(ghost count: nat)
      requires Valid() && parseResult.NoError?
      modifies this
      ensures Valid() && (parseResult.NoError? ==> pos > old(pos))
      ensures G.ParseMembers(s, old(pos), count, old(events)) ==
              if parseResult.NoError? then G.AfterMember(s, pos, count, events) else Result()
      decreases |s.text| - pos, 0
    {
      hide Skip, ParseString, G.ParseValue, G.AfterMember;
      if Peek(s.text, pos) != '"' {
        SetParseError(ObjectMissName, pos);
        return;
      }
      Adopt(ParseString(s, pos, true, events));
      if parseResult.ErrorAt? { return; }
      SkipWhitespaceAndComments();
      if parseResult.ErrorAt? { return; }
      assert G.ParseMembers(s, old(pos), count, old(events)) == G.AfterKey(s, pos, count, events);
      if Peek(s.text, pos) != ':' {
        SetParseError(ObjectMissColon, pos);
        return;
      }
      pos := pos + 1;
      SkipWhitespaceAndComments();
      if parseResult.ErrorAt? { return; }
      ParseValue();
    }

    /** What follows a member: the end of the object, an error, or another member. */
    method EndMember(count: nat) returns (more: bool)
      requires Valid() && parseResult.NoError?
      modifies this
      ensures Valid()
      ensures more ==> parseResult.NoError? && pos > old(pos)
      ensures G.AfterMember(s, old(pos), count, old(events)) ==
              if more then G.ParseMembers(s, pos, Increment(count), events) else Result()
    {
      hide Skip, G.ParseMembers;
      more := false;
      SkipWhitespaceAndComments();
      if parseResult.ErrorAt? { return; }
      var c := Peek(s.text, pos);
      if c == '}' {
        Emit(EndObject(Increment(count)), 1, pos + 1);
        return;
      } else if c != ',' {
        SetParseError(ObjectMissCommaOrCurlyBracket, pos);
        return;
      }
      pos := pos + 1;
      SkipWhitespaceAndComments();
      if parseResult.ErrorAt? { return; }
      if s.flags.trailingCommas && Peek(s.text, pos) == '}' {
        Emit(EndObject(Increment(count)), 1, pos);
        return;
      }
      more := true;
    }

    method ParseArray()
      requires Valid() && parseResult.NoError? && pos < |s.text|
      modifies this
      ensures Valid() && Result() == G.ParseArray(s, old(pos), old(events))
      decreases |s.text| - pos, 1
    {
      Emit(StartArray, 1, pos + 1);
      if parseResult.ErrorAt? { return; }
      SkipWhitespaceAndComments();
      if parseResult.ErrorAt? { return; }
      if Peek(s.text, pos) == ']' {
        Emit(EndArray(0), 1, pos + 1);
        return;
      }
      var elementCount: nat := 0;
      ghost var goal := G.ParseElements(s, pos, 0, events);
      var more := true;
      while more
        invariant Valid() && (more ==> pos > old(pos))
        invariant if more then parseResult.NoError? && G.ParseElements(s, pos, elementCount, events) == goal
                  else Result() == goal
        decreases more, |s.text| - pos
      {
        hide G.ParseValue, G.AfterElement;
        ParseValue();
        if parseResult.ErrorAt? { return; }
        more := EndElement(elementCount);
        elementCount := Increment(elementCount);
      }
    }

    /** What follows an element: the end of the array, an error, or another element. */
    method EndElement(count: nat) returns (more: bool)
      requires Valid() && parseResult.NoError?
      modifies this
      ensures Valid()
      ensures more ==> parseResult.NoError? && pos > old(pos)
      ensures G.AfterElement(s, old(pos), count, old(events)) ==
              if more then G.ParseElements(s, pos, Increment(count), events) else Result()
    {
      hide Skip, G.ParseElements;
      more := false;
      SkipWhitespaceAndComments();
      if parseResult.ErrorAt? { return; }
      var c := Peek(s.text, pos);
      if c == ',' {
        pos := pos + 1;
        SkipWhitespaceAndComments();
        if parseResult.ErrorAt? { return; }
      } else if c == ']' {
        Emit(EndArray(Increment(count)), 1, pos + 1);
        return;
      } else {
        SetParseError(ArrayMissCommaOrSquareBracket, pos);
        return;
      }
      if s.flags.trailingCommas && Peek(s.text, pos) == ']' {
        Emit(EndArray(Increment(count)), 1, pos);
        return;
      }
      more := true;
    }

    /** Parse, without the iterative flag. */
    method Parse()
      requires Valid() && Result() == Ok(0, [])
      modifies this
      ensures Valid() && Result() == G.Parse(s)
    {
      SkipWhitespaceAndComments();
      if parseResult.ErrorAt? { return; }
      if Peek(s.text, pos) == '\0' {
        SetParseError(DocumentEmpty, pos);
        return;
      }
      ParseValue();
      if parseResult.ErrorAt? || s.flags.stopWhenDone { return; }
      SkipWhitespaceAndComments();
      if parseResult.ErrorAt? { return; }
      if Peek(s.text, pos) != '\0' {
        SetParseError(DocumentRootNotSingular, pos);
      }
    }

    /** The character under the cursor opens a container: push the state to return to and a count of zero. */
    method OpenContainer(state: A.State, stack: A.Stack, dst: A.State) returns (ok: bool, stack': A.Stack)
      requires Valid() && parseResult.NoError? && pos < |s.text| && (dst == A.ObjectInitial || dst == A.ArrayInitial)
      modifies this
      ensures Valid() && ok == parseResult.NoError? && stack' == A.Push(stack, A.ReturnState(state), 0)
      ensures Result() == Send(s, if dst == A.ObjectInitial then StartObject else StartArray, old(pos) + 1, old(pos), old(events))
    {
      var ret := state;
      if state == A.ArrayInitial || state == A.ElementDelimiter {
        ret := A.Element;
      } else if state == A.KeyValueDelimiter {
        ret := A.MemberValue;
      }
      stack' := A.Push(stack, ret, 0);
      Emit(if dst == A.ObjectInitial then StartObject else StartArray, 1, pos);
      ok := parseResult.NoError?;
    }

    /** The character under the cursor closes a container: pop its frame, counting the last entry unless a delimiter
      * or nothing came before. */
    method CloseContainer(state: A.State, stack: A.Stack, dst: A.State) returns (ok: bool, state': A.State, stack': A.Stack)
      requires Valid() && parseResult.NoError? && pos < |s.text| && stack.Push?
      requires dst == A.ObjectFinish || dst == A.ArrayFinish
      modifies this
      ensures Valid() && ok == parseResult.NoError?
      ensures var comma := state == if dst == A.ObjectFinish then A.MemberDelimiter else A.ElementDelimiter;
              var last := state == if dst == A.ObjectFinish then A.MemberValue else A.Element;
              var count := if last then Increment(stack.count) else stack.count;
              var event := if dst == A.ObjectFinish then EndObject(count) else EndArray(count);
              if comma && !s.flags.trailingCommas then
                Result() == Fail(if dst == A.ObjectFinish then ObjectMissName else ValueInvalid, old(pos), old(events))
              else
                && Result() == Send(s, event, old(pos) + 1, old(pos), old(events))
                && state' == A.Restored(stack.ret) && stack' == stack.below
    {
      state', stack' := state, stack;
      if dst == A.ObjectFinish {
        if !s.flags.trailingCommas && state == A.MemberDelimiter {
          SetParseError(ObjectMissName, pos);
          return false, state, stack;
        }
      } else {
        if !s.flags.trailingCommas && state == A.ElementDelimiter {
          SetParseError(ValueInvalid, pos);
          return false, state, stack;
        }
      }
      var c := stack.count;
      if state == if dst == A.ObjectFinish then A.MemberValue else A.Element {
        c := Increment(c);
      }
      var n := stack.ret;
      stack' := stack.below;
      if n == A.Start {
        n := A.Finish;
      }
      Emit(if dst == A.ObjectFinish then EndObject(c) else EndArray(c), 1, pos);
      ok, state' := parseResult.NoError?, n;
    }

    /** One call of Transit on the token under the cursor; false for the error state. */
    method Transit(state: A.State, stack: A.Stack) returns (ok: bool, state': A.State, stack': A.Stack)
      requires Valid() && parseResult.NoError? && A.Reachable(state, stack) && Peek(s.text, pos) != '\0'
      modifies this
      ensures Valid()
      ensures var t := A.Transit(s, state, stack, old(pos), old(events));
              if t.To? then ok && parseResult.NoError? && t == A.To(state', stack', pos, events)
              else if t.Stopped? then !ok && Result() == t.error
              else !ok && parseResult.NoError? && pos == old(pos) && events == old(events)
    {
      hide ParseString, ParseScalar, Send;
      var dst := A.Predict(state, A.Tokenize(s.text[pos]));
      ok, state', stack' := true, dst, stack;
      match dst {
        case ObjectInitial | ArrayInitial =>
          ok, stack' := OpenContainer(state, stack, dst);
        case MemberKey =>
          Adopt(ParseString(s, pos, true, events));
          ok := parseResult.NoError?;
        case KeyValueDelimiter =>
          pos := pos + 1;
        case MemberValue | Element =>
          Adopt(ParseScalar(s, pos, events));
          ok := parseResult.NoError?;
        case MemberDelimiter | ElementDelimiter =>
          pos := pos + 1;
          stack' := stack.(count := Increment(stack.count));
        case ObjectFinish | ArrayFinish =>
          ok, state', stack' := CloseContainer(state, stack, dst);
        case SingleValue =>
          Adopt(ParseScalar(s, pos, events));
          ok, state' := parseResult.NoError?, A.Finish;
        case Error | Start | Finish =>
          ok := false;
      }
    }

    method IterativeParse()
      requires Valid() && Result() == Ok(0, [])
      modifies this
      ensures Valid() && Result() == A.IterativeParse(s)
      ensures !E.RootIsPunctuation(s) ==> E.Agree(Result(), G.Parse(s))
    {
      E.ParsersAgree(s);
      hide Skip, A.Transit, G.Parse;
      SkipWhitespaceAndComments();
      if parseResult.ErrorAt? { return; }
      var state, stack := A.Start, A.Empty;
      ghost var goal := A.Run(s, state, stack, pos, events);
      while Peek(s.text, pos) != '\0'
        invariant Valid() && parseResult.NoError? && A.Reachable(state, stack)
        invariant A.Run(s, state, stack, pos, events) == goal
        decreases |s.text| - pos
      {
        E.Turn(s, state, stack, pos, events);
        var ok, state', stack' := Transit(state, stack);
        if !ok {
          if parseResult.NoError? {
            SetParseError(A.ErrorIn(state), pos);
          }
          return;
        }
        state, stack := state', stack';
        if s.flags.stopWhenDone && state == A.Finish { return; }
        SkipWhitespaceAndComments();
        if parseResult.ErrorAt? { return; }
      }
      if state != A.Finish {
        SetParseError(A.ErrorIn(state), pos);
      }
    }
  }
}

/** PrettyWriter: the text written for a stream of events, with its level stack. */
module Pretty {
  import opened Sax
  import opened Scanner
  import opened Dom

  /** Indentation and array style, and the tokens the base class writes for strings and numbers. */
  datatype Format = Format(
    indentChar: char,
    indentCharCount: nat,
    singleLineArray: bool,
    writeString: string -> string,
    writeNumber: Event -> string)

  datatype Level = Level(inArray: bool, valueCount: nat)
  datatype Writer = Writer(out: string, levels: seq<Level>, hasRoot: bool)

  function Repeat(c: char, n: nat): (r: string)
    ensures |r| == n && forall k :: 0 <= k < n ==> r[k] == c
  {
    if n == 0 then "" else [c] + Repeat(c, n - 1)
  }

  function Indent(f: Format, depth: nat): (r: string)
    ensures forall c | c in r :: c == f.indentChar
  {
    Repeat(f.indentChar, depth * f.indentCharCount)
  }

  /** As many characters of indentation for each level as set. */
  lemma {:induction false} IndentLength(f: Format, depth: nat)
    ensures |Indent(f, 0)| == 0 && |Indent(f, depth + 1)| == |Indent(f, depth)| + f.indentCharCount
  {
    assert (depth + 1) * f.indentCharCount == depth * f.indentCharCount + f.indentCharCount;
  }

  /** What PrettyPrefix writes before a value at a level that is `depth` deep. */
  function Separator(f: Format, level: Level, depth: nat): string {
    if level.inArray then
      (if level.valueCount > 0 then (if f.singleLineArray then ", " else ",") else "")
      + (if f.singleLineArray then "" else "\n" + Indent(f, depth))
    else
      (if level.valueCount == 0 then "\n" else if level.valueCount % 2 == 0 then ",\n" else ": ")
      + (if level.valueCount % 2 == 0 then Indent(f, depth) else "")
  }

  function Prefix(f: Format, w: Writer): Writer {
    if w.levels == [] then w.(hasRoot := true)
    else
      var top := |w.levels| - 1;
      var level := w.levels[top];
      w.(out := w.out + Separator(f, level, |w.levels|),
         levels := w.levels[top := level.(valueCount := level.valueCount + 1)])
  }

  function Token(f: Format, e: Event): string {
    match e
    case Null => "null"
    case Bool(b) => if b then "true" else "false"
    case String(s) => f.writeString(s)
    case Key(s) => f.writeString(s)
    case RawNumber(s) => f.writeString(s)
    case _ => f.writeNumber(e)
  }

  /** One handler call; closing a container needs one to be open. */
  function Write(f: Format, w: Writer, e: Event): Writer {
    match e
    case StartObject =>
      var w1 := Prefix(f, w);
      w1.(out := w1.out + "{", levels := w1.levels + [Level(false, 0)])
    case StartArray =>
      var w1 := Prefix(f, w);
      w1.(out := w1.out + "[", levels := w1.levels + [Level(true, 0)])
    case EndObject(_) =>
      if w.levels == [] then w
      else
        var below := w.levels[..|w.levels| - 1];
        var gap := if w.levels[|below|].valueCount == 0 then "" else "\n" + Indent(f, |below|);
        w.(out := w.out + gap + "}", levels := below)
    case EndArray(_) =>
      if w.levels == [] then w
      else
        var below := w.levels[..|w.levels| - 1];
        var gap := if w.levels[|below|].valueCount == 0 || f.singleLineArray then "" else "\n" + Indent(f, |below|);
        w.(out := w.out + gap + "]", levels := below)
    case _ =>
      var w1 := Prefix(f, w);
      w1.(out := w1.out + Token(f, e))
  }

  function WriteAll(f: Format, w: Writer, ev: seq<Event>): Writer
    decreases |ev|
  {
    if ev == [] then w else WriteAll(f, Write(f, w, ev[0]), ev[1..])
  }

  /** The text of a value nested `depth` levels deep, followed by `rest`. */
  function Text(f: Format, v: Value, depth: nat, rest: string): string
    decreases v, 0
  {
    match v
    case VNull => Token(f, Null) + rest
    case VBool(b) => Token(f, Bool(b)) + rest
    case VInteger(n) => Token(f, IntegerEvent(n)) + rest
    case VDouble(d) => Token(f, Double(d)) + rest
    case VString(s) => Token(f, String(s)) + rest
    case VObject(ms) => "{" + Members(f, ms, 0, depth + 1, ObjectGap(f, |ms|, depth) + ("}" + rest))
    case VArray(es) => "[" + Elements(f, es, 0, depth + 1, ArrayGap(f, |es|, depth) + ("]" + rest))
  }

  function ObjectGap(f: Format, size: nat, depth: nat): string {
    if size == 0 then "" else "\n" + Indent(f, depth)
  }

  function ArrayGap(f: Format, size: nat, depth: nat): string {
    if size == 0 || f.singleLineArray then "" else "\n" + Indent(f, depth)
  }

  /** Members, after `count` names and values have been written at their level, followed by `rest`. */
  function Members(f: Format, ms: seq<Member>, count: nat, depth: nat, rest: string): string
    decreases ms, 1
  {
    if ms == [] then rest
    else Separator(f, Level(false, count), depth) + NameAndValue(f, ms[0], count, depth, Members(f, ms[1..], count + 2, depth, rest))
  }

  function NameAndValue(f: Format, m: Member, count: nat, depth: nat, rest: string): string
    decreases m, 1
  {
    Token(f, Key(m.name)) + (Separator(f, Level(false, count + 1), depth) + Text(f, m.value, depth, rest))
  }

  function Elements(f: Format, es: seq<Value>, count: nat, depth: nat, rest: string): string
    decreases es, 1
  {
    if es == [] then rest
    else Separator(f, Level(true, count), depth) + Text(f, es[0], depth, Elements(f, es[1..], count + 1, depth, rest))
  }

  lemma {:induction false} WriteConcat(f: Format, w: Writer, a: seq<Event>, b: seq<Event>)
    ensures WriteAll(f, w, a + b) == WriteAll(f, WriteAll(f, w, a), b)
    decreases |a|
  {
    if a == [] {
      assert a + b == b;
    } else {
      assert (a + b)[1..] == a[1..] + b;
      WriteConcat(f, Write(f, w, a[0]), a[1..], b);
    }
  }

  lemma WriteOne(f: Format, w: Writer, e: Event)
    ensures WriteAll(f, w, [e]) == Write(f, w, e)
  {
    assert [e][1..] == [];
  }

  /** `w` has gone on to `w'`, writing `text`, except that `rest` is still to come; `n` more values counted on top. */
  predicate Wrote(w: Writer, w': Writer, n: nat, text: string, rest: string) {
    && w'.out + rest == w.out + text
    && w'.hasRoot == w.hasRoot
    && w'.levels == Counted(w.levels, n)
  }

  function Counted(levels: seq<Level>, n: nat): seq<Level> {
    if levels == [] then levels
    else
      var top := |levels| - 1;
      levels[top := levels[top].(valueCount := levels[top].valueCount + n)]
  }

  lemma Assoc(a: string, b: string, c: string)
    ensures (a + b) + c == a + (b + c)
  {
  }

  lemma JoinClose(before: string, open: string, text: string, out: string, gap: string, close: string, rest: string)
    requires out + (gap + (close + rest)) == (before + open) + text
    ensures (out + gap + close) + rest == before + (open + text)
  {
    Assoc(out, gap, close + rest);
    Assoc(out + gap, close, rest);
    Assoc(before, open, text);
  }

  /** Writing a value through Accept appends its separator and its text, and changes no other level. */
  lemma {:induction false} WriteValue(f: Format, w: Writer, v: Value, rest: string)
    ensures Wrote(Prefix(f, w), WriteAll(f, w, Events(v)), 0, Text(f, v, |w.levels|, rest), rest)
    decreases v, 0
  {
    match v
    case VObject(ms) => WriteObject(f, w, ms, rest);
    case VArray(es) => WriteArray(f, w, es, rest);
    case _ =>
      var e := Events(v)[0];
      WriteOne(f, w, e);
      Assoc(Prefix(f, w).out, Token(f, e), rest);
  }

  lemma {:induction false} WriteObject(f: Format, w: Writer, ms: seq<Member>, rest: string)
    ensures Wrote(Prefix(f, w), WriteAll(f, w, Events(VObject(ms))), 0, Text(f, VObject(ms), |w.levels|, rest), rest)
    decreases ms, 3
  {
    hide Prefix, Text, Members, MemberEvents, Indent;
    var w1 := Write(f, w, StartObject);
    WriteOne(f, w, StartObject);
    WriteConcat(f, w, [StartObject], MemberEvents(ms));
    var w2 := WriteAll(f, w1, MemberEvents(ms));
    WriteConcat(f, w, [StartObject] + MemberEvents(ms), [EndObject(|ms|)]);
    WriteOne(f, w2, EndObject(|ms|));
    WriteMembers(f, w1, ms, ObjectGap(f, |ms|, |w.levels|) + ("}" + rest));
    CloseObjectText(f, w, ms, w2, rest);
  }

  /** Closing a container whose level has counted `count` values. */
  lemma CloseLevel(f: Format, w: Writer, base: seq<Level>, count: nat, inArray: bool, n: nat)
    requires w.levels == base + [Level(inArray, count)]
    ensures !inArray ==> Write(f, w, EndObject(n)) == Writer(w.out + ObjectGap(f, count, |base|) + "}", base, w.hasRoot)
    ensures inArray ==> Write(f, w, EndArray(n)) == Writer(w.out + ArrayGap(f, count, |base|) + "]", base, w.hasRoot)
  {
    hide Indent;
    assert w.levels[..|base|] == base;
  }

  /** The level an opening event adds, after it has counted some values. */
  lemma OpenedLevel(f: Format, w: Writer, inArray: bool, n: nat)
    ensures var w1 := Write(f, w, if inArray then StartArray else StartObject);
            && w1.out == Prefix(f, w).out + (if inArray then "[" else "{") && w1.hasRoot == Prefix(f, w).hasRoot
            && |w1.levels| == |w.levels| + 1
            && Counted(w1.levels, n) == Prefix(f, w).levels + [Level(inArray, n)]
            && Counted(Prefix(f, w).levels, 0) == Prefix(f, w).levels && |Prefix(f, w).levels| == |w.levels|
  {
    hide Separator;
  }

  lemma CloseObjectText(f: Format, w: Writer, ms: seq<Member>, w2: Writer, rest: string)
    requires var w1 := Write(f, w, StartObject);
             var after := ObjectGap(f, |ms|, |w.levels|) + ("}" + rest);
             Wrote(w1, w2, 2 * |ms|, Members(f, ms, 0, |w1.levels|, after), after)
    ensures Wrote(Prefix(f, w), Write(f, w2, EndObject(|ms|)), 0, Text(f, VObject(ms), |w.levels|, rest), rest)
  {
    hide Members, Prefix, Write, Counted, Indent;
    var w0 := Prefix(f, w);
    OpenedLevel(f, w, false, 2 * |ms|);
    CloseLevel(f, w2, w0.levels, 2 * |ms|, false, |ms|);
    var gap := ObjectGap(f, |ms|, |w.levels|);
    JoinClose(w0.out, "{", Members(f, ms, 0, |w.levels| + 1, gap + ("}" + rest)), w2.out, gap, "}", rest);
  }

  lemma {:induction false} WriteArray(f: Format, w: Writer, es: seq<Value>, rest: string)
    ensures Wrote(Prefix(f, w), WriteAll(f, w, Events(VArray(es))), 0, Text(f, VArray(es), |w.levels|, rest), rest)
    decreases es, 3
  {
    hide Prefix, Text, Elements, ElementEvents, Indent;
    var w1 := Write(f, w, StartArray);
    WriteOne(f, w, StartArray);
    WriteConcat(f, w, [StartArray], ElementEvents(es));
    var w2 := WriteAll(f, w1, ElementEvents(es));
    WriteConcat(f, w, [StartArray] + ElementEvents(es), [EndArray(|es|)]);
    WriteOne(f, w2, EndArray(|es|));
    WriteElements(f, w1, es, ArrayGap(f, |es|, |w.levels|) + ("]" + rest));
    CloseArrayText(f, w, es, w2, rest);
  }

  lemma CloseArrayText(f: Format, w: Writer, es: seq<Value>, w2: Writer, rest: string)
    requires var w1 := Write(f, w, StartArray);
             var after := ArrayGap(f, |es|, |w.levels|) + ("]" + rest);
             Wrote(w1, w2, |es|, Elements(f, es, 0, |w1.levels|, after), after)
    ensures Wrote(Prefix(f, w), Write(f, w2, EndArray(|es|)), 0, Text(f, VArray(es), |w.levels|, rest), rest)
  {
    hide Elements, Prefix, Write, Counted, Indent;
    var w0 := Prefix(f, w);
    OpenedLevel(f, w, true, |es|);
    CloseLevel(f, w2, w0.levels, |es|, true, |es|);
    var gap := ArrayGap(f, |es|, |w.levels|);
    JoinClose(w0.out, "[", Elements(f, es, 0, |w.levels| + 1, gap + ("]" + rest)), w2.out, gap, "]", rest);
  }

  lemma {:induction false} WriteMembers(f: Format, w: Writer, ms: seq<Member>, rest: string)
    requires w.levels != [] && !w.levels[|w.levels| - 1].inArray
    ensures Wrote(w, WriteAll(f, w, MemberEvents(ms)), 2 * |ms|,
                  Members(f, ms, w.levels[|w.levels| - 1].valueCount, |w.levels|, rest), rest)
    decreases ms, 1
  {
    hide Separator, Events, Text, Write;
    if ms != [] {
      var m := ms[0];
      var count := w.levels[|w.levels| - 1].valueCount;
      var after := Members(f, ms[1..], count + 2, |w.levels|, rest);
      WriteMember(f, w, m, after);
      WriteConcat(f, w, [Key(m.name)] + Events(m.value), MemberEvents(ms[1..]));
      var w1 := WriteAll(f, w, [Key(m.name)] + Events(m.value));
      WriteMembers(f, w1, ms[1..], rest);
    }
  }

  lemma {:induction false} WriteMember(f: Format, w: Writer, m: Member, rest: string)
    requires w.levels != [] && !w.levels[|w.levels| - 1].inArray
    ensures var count := w.levels[|w.levels| - 1].valueCount;
            Wrote(w, WriteAll(f, w, [Key(m.name)] + Events(m.value)), 2,
                  Separator(f, Level(false, count), |w.levels|) + NameAndValue(f, m, count, |w.levels|, rest), rest)
    decreases m, 1
  {
    hide Separator, Events, Text;
    var top := |w.levels| - 1;
    var count := w.levels[top].valueCount;
    var w1 := Write(f, w, Key(m.name));
    WriteOne(f, w, Key(m.name));
    WriteConcat(f, w, [Key(m.name)], Events(m.value));
    WriteValue(f, w1, m.value, rest);
    assert w.levels[top] == Level(false, count) && w1.levels[top] == Level(false, count + 1);
    var sep1, sep2 := Separator(f, Level(false, count), |w.levels|), Separator(f, Level(false, count + 1), |w.levels|);
    var name, value := Token(f, Key(m.name)), Text(f, m.value, |w.levels|, rest);
    Assoc(w.out + sep1 + name, sep2, value);
    Assoc(w.out + sep1, name, sep2 + value);
    Assoc(w.out, sep1, name + (sep2 + value));
  }

  lemma {:induction false} WriteElements(f: Format, w: Writer, es: seq<Value>, rest: string)
    requires w.levels != [] && w.levels[|w.levels| - 1].inArray
    ensures Wrote(w, WriteAll(f, w, ElementEvents(es)), |es|,
                  Elements(f, es, w.levels[|w.levels| - 1].valueCount, |w.levels|, rest), rest)
    decreases es, 1
  {
    hide Separator, Events, Text, Write;
    if es != [] {
      var level := w.levels[|w.levels| - 1];
      var after := Elements(f, es[1..], level.valueCount + 1, |w.levels|, rest);
      WriteValue(f, w, es[0], after);
      WriteConcat(f, w, Events(es[0]), ElementEvents(es[1..]));
      var w1 := WriteAll(f, w, Events(es[0]));
      assert level == Level(true, level.valueCount);
      Assoc(w.out, Separator(f, level, |w.levels|), Text(f, es[0], |w.levels|, after));
      WriteElements(f, w1, es[1..], rest);
    }
  }

  const Fresh := Writer("", [], false)

  /** The whole output for one document. */
  function Print(f: Format, v: Value): string {
    WriteAll(f, Fresh, Events(v)).out
  }

  /** The writer's output is the text of the value, and the writer is back at its root level. */
  lemma PrintIsText(f: Format, v: Value)
    ensures WriteAll(f, Fresh, Events(v)) == Writer(Text(f, v, 0, ""), [], true)
  {
    hide Text, Events;
    WriteValue(f, Fresh, v, "");
    var w := WriteAll(f, Fresh, Events(v));
    assert w.out + "" == w.out && "" + Text(f, v, 0, "") == Text(f, v, 0, "");
  }
}

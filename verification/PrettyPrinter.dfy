/** The pretty writer as an object: its output and level stack, changed by every event, and
  * `Accept`, which walks a tree and drives it. None of its assertions can fail there. */
module PrettyPrinter {
  import opened Sax
  import opened Dom
  import opened Pretty

  /** What `PrettyPrefix` asserts: one root only, and a name where a name is due. */
  predicate MayPrefix(w: Writer, isString: bool) {
    if w.levels == [] then !w.hasRoot
    else
      var level := w.levels[|w.levels| - 1];
      !level.inArray && level.valueCount % 2 == 0 ==> isString
  }

  predicate MayClose(w: Writer, inArray: bool) { w.levels != [] && w.levels[|w.levels| - 1].inArray == inArray }

  lemma RepeatSnoc(c: char, n: nat)
    ensures Pretty.Repeat(c, n) + [c] == Pretty.Repeat(c, n + 1)
  {
  }

  class PrettyWriter {
    const format: Format
    var os: string
    var levels: seq<Level>
    var hasRoot: bool

    function Now(): Writer
      reads this
    {
      Writer(os, levels, hasRoot)
    }

    constructor (format: Format)
      ensures this.format == format && Now() == Fresh
    {
      this.format, os, levels, hasRoot := format, "", [], false;
    }

    method PutN(c: char, n: nat)
      modifies this`os
      ensures os == old(os) + Pretty.Repeat(c, n)
    {
      var i := 0;
      while i < n
        invariant 0 <= i <= n && os == old(os) + Pretty.Repeat(c, i)
      {
        RepeatSnoc(c, i);
        os := os + [c];
        i := i + 1;
      }
    }

    method WriteIndent()
      modifies this`os
      ensures os == old(os) + Indent(format, |levels|)
    {
      PutN(format.indentChar, |levels| * format.indentCharCount);
    }

    /** What separates a value from the one before it. */
    method PutSeparator(level: Level)
      modifies this`os
      ensures os == old(os) + Separator(format, level, |levels|)
    {
      hide Indent;
      if level.inArray {
        if level.valueCount > 0 {
          os := os + ",";
          if format.singleLineArray { os := os + " "; }
        }
        if !format.singleLineArray {
          os := os + "\n";
          WriteIndent();
        }
      } else {
        if level.valueCount > 0 {
          if level.valueCount % 2 == 0 {
            os := os + ",";
            os := os + "\n";
          } else {
            os := os + ":";
            os := os + " ";
          }
        } else {
          os := os + "\n";
        }
        if level.valueCount % 2 == 0 { WriteIndent(); }
      }
    }

    method PrettyPrefix(isString: bool)
      requires MayPrefix(Now(), isString)
      modifies this
      ensures Now() == Prefix(format, old(Now()))
    {
      hide Separator;
      if |levels| != 0 {
        var top := |levels| - 1;
        var level := levels[top];
        PutSeparator(level);
        levels := levels[top := level.(valueCount := level.valueCount + 1)];
      } else {
        hasRoot := true;
      }
    }

    /** `Null`, `Bool`, the numbers, `String` and `Key`. */
    method Scalar(e: Event)
      requires IsScalar(e) && MayPrefix(Now(), e.String? || e.Key?)
      modifies this
      ensures Now() == Write(format, old(Now()), e)
    {
      PrettyPrefix(e.String? || e.Key?);
      os := os + Token(format, e);
    }

    method StartObject()
      requires MayPrefix(Now(), false)
      modifies this
      ensures Now() == Write(format, old(Now()), Event.StartObject)
    {
      PrettyPrefix(false);
      levels := levels + [Level(false, 0)];
      os := os + "{";
    }

    method EndObject(memberCount: nat)
      requires MayClose(Now(), false)
      modifies this
      ensures Now() == Write(format, old(Now()), Event.EndObject(memberCount))
    {
      var empty := levels[|levels| - 1].valueCount == 0;
      levels := levels[..|levels| - 1];
      if !empty {
        os := os + "\n";
        WriteIndent();
      }
      os := os + "}";
    }

    method StartArray()
      requires MayPrefix(Now(), false)
      modifies this
      ensures Now() == Write(format, old(Now()), Event.StartArray)
    {
      PrettyPrefix(false);
      levels := levels + [Level(true, 0)];
      os := os + "[";
    }

    method EndArray(elementCount: nat)
      requires MayClose(Now(), true)
      modifies this
      ensures Now() == Write(format, old(Now()), Event.EndArray(elementCount))
    {
      var empty := levels[|levels| - 1].valueCount == 0;
      levels := levels[..|levels| - 1];
      if !empty && !format.singleLineArray {
        os := os + "\n";
        WriteIndent();
      }
      os := os + "]";
    }
  }

  /** `Accept`: the walk over a tree meets every assertion of the writer and writes the text
    * of the tree's events. */
  method Accept(v: Value, handler: PrettyWriter)
    requires MayPrefix(handler.Now(), v.VString?)
    modifies handler
    ensures handler.Now() == WriteAll(handler.format, old(handler.Now()), Events(v))
    decreases v, 1
  {
    hide Write, Separator;
    var f := handler.format;
    ghost var w := handler.Now();
    match v {
      case VObject(ms) => AcceptObject(ms, handler);
      case VArray(es) => AcceptArray(es, handler);
      case VNull => handler.Scalar(Null); WriteOne(f, w, Null);
      case VBool(b) => handler.Scalar(Bool(b)); WriteOne(f, w, Bool(b));
      case VInteger(n) => handler.Scalar(IntegerEvent(n)); WriteOne(f, w, IntegerEvent(n));
      case VDouble(d) => handler.Scalar(Double(d)); WriteOne(f, w, Double(d));
      case VString(s) => handler.Scalar(String(s)); WriteOne(f, w, String(s));
    }
  }

  method AcceptObject(ms: seq<Member>, handler: PrettyWriter)
    requires MayPrefix(handler.Now(), false)
    modifies handler
    ensures handler.Now() == WriteAll(handler.format, old(handler.Now()), Events(VObject(ms)))
    decreases ms, 2
  {
    hide Write, Separator, WriteAll, MemberEvents, Prefix;
    var f := handler.format;
    ghost var w := handler.Now();
    handler.StartObject();
    ghost var w1 := handler.Now();
    ObjectStarts(f, w, ms);
    var m := 0;
    assert ms[0..] == ms;
    while m < |ms|
      invariant 0 <= m <= |ms|
      invariant WriteAll(f, handler.Now(), MemberEvents(ms[m..])) == WriteAll(f, w1, MemberEvents(ms))
      invariant handler.levels != [] && handler.levels[|handler.levels| - 1] == Level(false, 2 * m)
    {
      ghost var w2 := handler.Now();
      NextMember(f, w2, ms, m);
      handler.Scalar(Key(ms[m].name));
      Accept(ms[m].value, handler);
      m := m + 1;
    }
    assert ms[m..] == [];
    NothingWritten(f, handler.Now());
    handler.EndObject(|ms|);
  }

  /** After the opening brace the level is empty, and the members and the closing brace follow. */
  lemma ObjectStarts(f: Format, w: Writer, ms: seq<Member>)
    ensures var w1 := Write(f, w, StartObject);
            && w1.levels != [] && w1.levels[|w1.levels| - 1] == Level(false, 0)
            && WriteAll(f, w, Events(VObject(ms))) == Write(f, WriteAll(f, w1, MemberEvents(ms)), EndObject(|ms|))
  {
    hide Separator, MemberEvents, WriteAll;
    WriteOne(f, w, StartObject);
    WriteConcat(f, w, [StartObject], MemberEvents(ms));
    WriteConcat(f, w, [StartObject] + MemberEvents(ms), [EndObject(|ms|)]);
    WriteOne(f, WriteAll(f, w, [StartObject] + MemberEvents(ms)), EndObject(|ms|));
  }

  /** A name and a value bring the level of an object two further. */
  lemma NextMember(f: Format, w: Writer, ms: seq<Member>, m: nat)
    requires m < |ms| && w.levels != [] && w.levels[|w.levels| - 1] == Level(false, 2 * m)
    ensures var w1 := Write(f, w, Key(ms[m].name));
            var w2 := WriteAll(f, w1, Events(ms[m].value));
            && MayPrefix(w, true) && MayPrefix(w1, false)
            && w2.levels != [] && w2.levels[|w2.levels| - 1] == Level(false, 2 * (m + 1))
            && WriteAll(f, w, MemberEvents(ms[m..])) == WriteAll(f, w2, MemberEvents(ms[m + 1..]))
  {
    hide Separator, WriteAll, Events, Text;
    var w1 := Write(f, w, Key(ms[m].name));
    WriteValue(f, w1, ms[m].value, "");
    assert ms[m..][1..] == ms[m + 1..];
    WriteOne(f, w, Key(ms[m].name));
    WriteConcat(f, w, [Key(ms[m].name)], Events(ms[m].value));
    WriteConcat(f, w, [Key(ms[m].name)] + Events(ms[m].value), MemberEvents(ms[m + 1..]));
  }

  lemma NothingWritten(f: Format, w: Writer)
    ensures WriteAll(f, w, MemberEvents([])) == w && WriteAll(f, w, ElementEvents([])) == w
  {
  }

  method AcceptArray(es: seq<Value>, handler: PrettyWriter)
    requires MayPrefix(handler.Now(), false)
    modifies handler
    ensures handler.Now() == WriteAll(handler.format, old(handler.Now()), Events(VArray(es)))
    decreases es, 2
  {
    hide Write, Separator, WriteAll, ElementEvents, Prefix;
    var f := handler.format;
    ghost var w := handler.Now();
    handler.StartArray();
    ghost var w1 := handler.Now();
    ArrayStarts(f, w, es);
    var k := 0;
    assert es[0..] == es;
    while k < |es|
      invariant 0 <= k <= |es|
      invariant WriteAll(f, handler.Now(), ElementEvents(es[k..])) == WriteAll(f, w1, ElementEvents(es))
      invariant handler.levels != [] && handler.levels[|handler.levels| - 1] == Level(true, k)
    {
      NextElement(f, handler.Now(), es, k);
      Accept(es[k], handler);
      k := k + 1;
    }
    assert es[k..] == [];
    NothingWritten(f, handler.Now());
    handler.EndArray(|es|);
  }

  lemma ArrayStarts(f: Format, w: Writer, es: seq<Value>)
    ensures var w1 := Write(f, w, StartArray);
            && w1.levels != [] && w1.levels[|w1.levels| - 1] == Level(true, 0)
            && WriteAll(f, w, Events(VArray(es))) == Write(f, WriteAll(f, w1, ElementEvents(es)), EndArray(|es|))
  {
    hide Separator, ElementEvents, WriteAll;
    WriteOne(f, w, StartArray);
    WriteConcat(f, w, [StartArray], ElementEvents(es));
    WriteConcat(f, w, [StartArray] + ElementEvents(es), [EndArray(|es|)]);
    WriteOne(f, WriteAll(f, w, [StartArray] + ElementEvents(es)), EndArray(|es|));
  }

  lemma NextElement(f: Format, w: Writer, es: seq<Value>, k: nat)
    requires k < |es| && w.levels != [] && w.levels[|w.levels| - 1] == Level(true, k)
    ensures var w1 := WriteAll(f, w, Events(es[k]));
            && MayPrefix(w, es[k].VString?)
            && w1.levels != [] && w1.levels[|w1.levels| - 1] == Level(true, k + 1)
            && WriteAll(f, w, ElementEvents(es[k..])) == WriteAll(f, w1, ElementEvents(es[k + 1..]))
  {
    hide Separator, WriteAll, Events, Text;
    WriteValue(f, w, es[k], "");
    assert es[k..][1..] == es[k + 1..];
    WriteConcat(f, w, Events(es[k]), ElementEvents(es[k + 1..]));
  }
}

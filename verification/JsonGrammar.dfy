/** Texts by the grammar of section 2 of RFC 4627, with any value at the root and, by flag, comments and trailing
  * commas; and that the parsers accept exactly those, with the events of what the text spells. */
module JsonGrammar {
  import opened Machine
  import opened Sax
  import opened Scanner
  import P = PrettyRoundTrip
  import G = RecursiveGrammar
  import A = Automaton
  import E = ReaderEquivalence

  // ---- Between tokens

  /** The white space of the grammar: space, tab, line feed and carriage return. */
  predicate Blank(c: char) { c as int == 0x20 || c as int == 0x09 || c as int == 0x0A || c as int == 0x0D }

  /** The character stands there. */
  predicate Is(text: string, p: nat, c: char) { p < |text| && text[p] == c }

  /** The text ends there, or a NUL ends it. */
  predicate EndsAt(text: string, p: nat) { p == |text| || (p < |text| && text[p] as int == 0) }

  predicate NoEnd(text: string, p: nat, q: nat)
    requires p <= q <= |text|
  {
    forall k | p <= k < q :: text[k] as int != 0
  }

  /** A comment from slash and star to the first star and slash behind them. */
  predicate BlockComment(text: string, p: nat, q: nat) {
    && p + 4 <= q <= |text| && NoEnd(text, p, q)
    && text[p] == '/' && text[p + 1] == '*' && text[q - 2] == '*' && text[q - 1] == '/'
    && forall k | p + 2 <= k < q - 2 :: !(text[k] == '*' && text[k + 1] == '/')
  }

  /** A comment from two slashes to the end of the line, or of the text. */
  predicate LineComment(text: string, p: nat, q: nat) {
    && p + 2 <= q <= |text| && NoEnd(text, p, q)
    && text[p] == '/' && text[p + 1] == '/'
    && (forall k | p + 2 <= k < q - 1 :: text[k] as int != 0x0A)
    && ((q > p + 2 && text[q - 1] as int == 0x0A) || EndsAt(text, q))
  }

  predicate Comment(text: string, p: nat, q: nat) { BlockComment(text, p, q) || LineComment(text, p, q) }

  /** White space, and comments if the flag allows them. */
  ghost predicate Gap(s: Source, p: nat, q: nat)
    decreases if p < q then q - p else 0
  {
    p == q <= |s.text| ||
    (p < q <= |s.text| && Blank(s.text[p]) && Gap(s, p + 1, q)) ||
    (s.flags.comments && exists m | p < m <= q :: Comment(s.text, p, m) && Gap(s, m, q))
  }

  // ---- Values

  /** What a text spells, with the lengths of everything between the tokens. `comma` tells whether a comma stands
    * behind the last entry. */
  datatype Tree =
    | Scalar(e: Event, length: nat)
    | Object(gap: nat, members: seq<Member>, comma: bool)
    | Array(gap: nat, elements: seq<Element>, comma: bool)
  datatype Element = Element(value: Tree, before: nat, after: nat)
  datatype Member = Member(name: string, length: nat, beforeColon: nat, afterColon: nat, element: Element)

  predicate NumberStart(s: Source, c: char) { c in "-0123456789" || (s.flags.nanAndInf && c in "IN") }

  /** A scalar token; which strings and numbers there are is the scanner's matter. */
  predicate Token(s: Source, p: nat, e: Event, q: nat) {
    p < q <= |s.text| &&
    match e
    case Null => s.text[p..q] == "null"
    case Bool(b) => s.text[p..q] == if b then "true" else "false"
    case String(str) => s.text[p] == '"' && s.lexString(s.text, p) == StringAt(str, q)
    case _ => NumberStart(s, s.text[p]) && s.lexNumber(s.text, p) == NumberAt(e, q)
  }

  function Length(t: Tree): nat
    decreases t, 0
  {
    match t
    case Scalar(_, n) => n
    case Object(gap, ms, comma) => 1 + gap + if ms == [] then 1 else MembersLength(ms, comma)
    case Array(gap, es, comma) => 1 + gap + if es == [] then 1 else ElementsLength(es, comma)
  }

  /** From an element to the entry behind it, or to the end of the container. */
  function ElementLength(e: Element): nat
    decreases e, 1
  {
    Length(e.value) + e.before + 1 + e.after
  }

  function ElementsLength(es: seq<Element>, comma: bool): nat
    decreases es
  {
    if es == [] then if comma then 1 else 0 else ElementLength(es[0]) + ElementsLength(es[1..], comma)
  }

  /** From a name to its value. */
  function NameLength(m: Member): nat { m.length + m.beforeColon + 1 + m.afterColon }

  function MembersLength(ms: seq<Member>, comma: bool): nat
    decreases ms
  {
    if ms == [] then if comma then 1 else 0
    else NameLength(ms[0]) + ElementLength(ms[0].element) + MembersLength(ms[1..], comma)
  }

  function Events(t: Tree): seq<Event>
    decreases t, 0
  {
    match t
    case Scalar(e, _) => [e]
    case Object(_, ms, _) => [StartObject] + MembersEvents(ms) + [EndObject(|ms| % SIZE_MODULUS)]
    case Array(_, es, _) => [StartArray] + ElementsEvents(es) + [EndArray(|es| % SIZE_MODULUS)]
  }

  function ElementEvents(e: Element): seq<Event>
    decreases e, 1
  {
    Events(e.value)
  }

  function ElementsEvents(es: seq<Element>): seq<Event>
    decreases es
  {
    if es == [] then [] else ElementEvents(es[0]) + ElementsEvents(es[1..])
  }

  function MembersEvents(ms: seq<Member>): seq<Event>
    decreases ms
  {
    if ms == [] then [] else [Key(ms[0].name)] + ElementEvents(ms[0].element) + MembersEvents(ms[1..])
  }

  /** The value stands at `p`. */
  ghost predicate Spells(s: Source, p: nat, t: Tree)
    decreases t, 0
  {
    match t
    case Scalar(e, n) => Token(s, p, e, p + n)
    case Object(gap, ms, comma) =>
      && Is(s.text, p, '{') && Gap(s, p + 1, p + 1 + gap)
      && if ms == [] then !comma && Is(s.text, p + 1 + gap, '}') else SpellsMembers(s, p + 1 + gap, ms, comma)
    case Array(gap, es, comma) =>
      && Is(s.text, p, '[') && Gap(s, p + 1, p + 1 + gap)
      && if es == [] then !comma && Is(s.text, p + 1 + gap, ']') else SpellsElements(s, p + 1 + gap, es, comma)
  }

  /** What stands behind an entry and its gap: the end of the container, or a comma and either another entry or, by
    * flag, the end. */
  ghost predicate Behind(s: Source, q: nat, after: nat, last: bool, comma: bool, close: char) {
    if last && !comma then Is(s.text, q, close) && after == 0
    else
      && Is(s.text, q, ',') && Gap(s, q + 1, q + 1 + after)
      && (last ==> s.flags.trailingCommas && Is(s.text, q + 1 + after, close))
  }

  ghost predicate SpellsElement(s: Source, p: nat, e: Element, last: bool, comma: bool, close: char)
    decreases e, 1
  {
    var q := p + Length(e.value);
    Spells(s, p, e.value) && Gap(s, q, q + e.before) && Behind(s, q + e.before, e.after, last, comma, close)
  }

  ghost predicate SpellsElements(s: Source, p: nat, es: seq<Element>, comma: bool)
    requires es != []
    decreases es
  {
    && SpellsElement(s, p, es[0], |es| == 1, comma, ']')
    && (|es| > 1 ==> SpellsElements(s, p + ElementLength(es[0]), es[1..], comma))
  }

  ghost predicate SpellsName(s: Source, p: nat, m: Member) {
    var q := p + m.length + m.beforeColon;
    && Is(s.text, p, '"') && s.lexString(s.text, p) == StringAt(m.name, p + m.length)
    && Gap(s, p + m.length, q) && Is(s.text, q, ':') && Gap(s, q + 1, q + 1 + m.afterColon)
  }

  ghost predicate SpellsMembers(s: Source, p: nat, ms: seq<Member>, comma: bool)
    requires ms != []
    decreases ms
  {
    && SpellsName(s, p, ms[0])
    && SpellsElement(s, p + NameLength(ms[0]), ms[0].element, |ms| == 1, comma, '}')
    && (|ms| > 1 ==> SpellsMembers(s, p + NameLength(ms[0]) + ElementLength(ms[0].element), ms[1..], comma))
  }

  /** The text is a value with nothing but gaps around it, up to `r`; or it begins with one, if the parser is to stop
    * there. */
  ghost predicate SpellsText(s: Source, lead: nat, t: Tree, r: nat) {
    && Gap(s, 0, lead) && Spells(s, lead, t)
    && if s.flags.stopWhenDone then r == lead + Length(t)
       else Gap(s, lead + Length(t), r) && EndsAt(s.text, r)
  }

  /** With these events. */
  ghost predicate IsText(s: Source, r: nat, ev: seq<Event>) {
    exists lead, t :: SpellsText(s, lead, t, r) && ev == Events(t)
  }

  // ---- Gaps are what the reader skips

  lemma BlanksAgree(c: char)
    ensures IsBlank(c) <==> Blank(c)
  {
  }

  /** Where a gap cannot go on. */
  predicate GapStops(s: Source, q: nat) {
    q <= |s.text| && !IsBlank(Peek(s.text, q)) && (s.flags.comments ==> Peek(s.text, q) != '/')
  }

  /** What is skipped from `p` on. */
  function Skipping(s: Source, p: nat): Skipped
    requires p <= |s.text|
  {
    if s.flags.comments then SkipComments(s.text, SkipBlanks(s.text, p)) else At(SkipBlanks(s.text, p))
  }

  lemma SkipIsSkipping(s: Source, p: nat, ev: seq<Event>)
    requires p <= |s.text|
    ensures Skip(s, p, ev) == match Skipping(s, p) case At(r) => Ok(r, ev) case SkipError(o) => Fail(UnspecificSyntaxError, o, ev)
  {
  }

  lemma {:induction false} BlockEnds(text: string, p: nat, m: nat, q: nat)
    requires BlockComment(text, p, q) && p + 2 <= m <= q - 2
    ensures BlockCommentEnd(text, m) == At(q)
    decreases q - m
  {
    if m < q - 2 {
      BlockEnds(text, p, m + 1, q);
    }
  }

  lemma {:induction false} LineEnds(text: string, p: nat, m: nat, q: nat)
    requires LineComment(text, p, q) && p + 2 <= m <= q && (m == q ==> EndsAt(text, q))
    ensures LineCommentEnd(text, m) == q
    decreases q - m
  {
    if m < q && text[m] as int != 0x0A {
      LineEnds(text, p, m + 1, q);
    }
  }

  lemma CommentSkipped(text: string, p: nat, q: nat)
    requires Comment(text, p, q)
    ensures p < q <= |text| && !IsBlank(Peek(text, p)) && Peek(text, p) == '/'
    ensures SkipComments(text, p) == SkipComments(text, SkipBlanks(text, q))
  {
    hide BlockCommentEnd, LineCommentEnd;
    if BlockComment(text, p, q) {
      BlockEnds(text, p, p + 2, q);
    } else if q > p + 2 && text[q - 1] as int == 0x0A {
      LineEnds(text, p, p + 2, q);
    } else {
      LineEnds(text, p, p + 2, q);
    }
  }

  lemma {:induction false} GapSkipped(s: Source, p: nat, q: nat)
    requires Gap(s, p, q) && GapStops(s, q)
    ensures p <= |s.text| && Skipping(s, p) == At(q)
    decreases if p < q then q - p else 0
  {
    hide Comment, BlockCommentEnd, LineCommentEnd;
    if p == q {
      assert SkipBlanks(s.text, p) == p;
    } else if p < q && q <= |s.text| && Blank(s.text[p]) && Gap(s, p + 1, q) {
      BlanksAgree(s.text[p]);
      GapSkipped(s, p + 1, q);
    } else {
      var m :| p < m <= q && Comment(s.text, p, m) && Gap(s, m, q);
      CommentSkipped(s.text, p, m);
      GapSkipped(s, m, q);
    }
  }

  lemma {:induction false} BlockFound(text: string, p: nat, m: nat, q: nat)
    requires p + 2 <= m <= |text| && BlockCommentEnd(text, m) == At(q) && text[p] == '/' && text[p + 1] == '*'
    requires NoEnd(text, p, m) && forall k | p + 2 <= k < m :: !(text[k] == '*' && Peek(text, k + 1) == '/')
    ensures BlockComment(text, p, q)
    decreases |text| - m
  {
    if !(Peek(text, m) == '*' && Peek(text, m + 1) == '/') {
      BlockFound(text, p, m + 1, q);
    }
  }

  lemma {:induction false} LineFound(text: string, p: nat, m: nat)
    requires p + 2 <= m <= |text| && text[p] == '/' && text[p + 1] == '/'
    requires NoEnd(text, p, m) && forall k | p + 2 <= k < m :: text[k] as int != 0x0A
    ensures LineComment(text, p, LineCommentEnd(text, m))
    decreases |text| - m
  {
    if Peek(text, m) != '\0' && text[m] != '\n' {
      LineFound(text, p, m + 1);
    }
  }

  lemma {:induction false} BlanksAreGap(s: Source, p: nat, q: nat)
    requires p <= |s.text| && Gap(s, SkipBlanks(s.text, p), q)
    ensures Gap(s, p, q)
    decreases |s.text| - p
  {
    if IsBlank(Peek(s.text, p)) {
      BlanksAreGap(s, p + 1, q);
      BlanksAgree(s.text[p]);
      GapForward(s, p + 1, q);
    }
  }

  lemma {:induction false} GapForward(s: Source, p: nat, q: nat)
    requires Gap(s, p, q)
    ensures p <= q <= |s.text|
    decreases if p < q then q - p else 0
  {
    if p < q && s.flags.comments && !(Blank(s.text[p]) && Gap(s, p + 1, q)) {
      var m :| p < m <= q && Comment(s.text, p, m) && Gap(s, m, q);
      GapForward(s, m, q);
    }
  }

  lemma {:induction false} SkippedIsGap(s: Source, p: nat)
    requires p <= |s.text| && s.flags.comments && SkipComments(s.text, p).At?
    ensures Gap(s, p, SkipComments(s.text, p).pos)
    ensures !IsBlank(Peek(s.text, p)) ==> GapStops(s, SkipComments(s.text, p).pos)
    decreases |s.text| - p
  {
    if Peek(s.text, p) == '/' {
      var q := if s.text[p + 1] == '*' then BlockCommentEnd(s.text, p + 2).pos else LineCommentEnd(s.text, p + 2);
      if s.text[p + 1] == '*' { BlockFound(s.text, p, p + 2, q); } else { LineFound(s.text, p, p + 2); }
      assert Comment(s.text, p, q);
      var b := SkipBlanks(s.text, q);
      SkippedIsGap(s, b);
      BlanksAreGap(s, q, SkipComments(s.text, p).pos);
      GapForward(s, q, SkipComments(s.text, p).pos);
    }
  }

  /** The reader skips to `q` exactly if there is a gap up to there, and none beyond. */
  lemma SkipsExactlyGaps(s: Source, p: nat, q: nat, ev: seq<Event>)
    requires p <= |s.text|
    ensures Skip(s, p, ev) == Ok(q, ev) <==> Gap(s, p, q) && GapStops(s, q)
  {
    hide SkipComments, SkipBlanks, Gap;
    SkipIsSkipping(s, p, ev);
    if Skipping(s, p) == At(q) {
      SkippingIsGap(s, p);
    }
    if Gap(s, p, q) && GapStops(s, q) {
      GapSkipped(s, p, q);
    }
  }

  lemma SkippingIsGap(s: Source, p: nat)
    requires p <= |s.text| && Skipping(s, p).At?
    ensures Gap(s, p, Skipping(s, p).pos) && GapStops(s, Skipping(s, p).pos)
  {
    var b := SkipBlanks(s.text, p);
    if s.flags.comments { SkippedIsGap(s, b); }
    BlanksAreGap(s, p, Skipping(s, p).pos);
  }

  // ---- Where a gap breaks off

  /** A comment begins at `m` that never ends, or a slash stands there that begins none; the fault is at `o`. */
  predicate BadComment(text: string, m: nat, o: nat) {
    && m < |text| && text[m] == '/' &&
    if Is(text, m + 1, '*') then
      && m + 2 <= o && EndsAt(text, o) && NoEnd(text, m, o)
      && forall k | m + 2 <= k < o - 1 :: !(text[k] == '*' && text[k + 1] == '/')
    else o == m + 1 && !Is(text, m + 1, '/')
  }

  lemma {:induction false} BlockNeverEnds(text: string, p: nat, m: nat)
    requires p + 2 <= m <= |text| && text[p] == '/' && text[p + 1] == '*' && BlockCommentEnd(text, m).SkipError?
    requires NoEnd(text, p, m) && forall k | p + 2 <= k < m :: !(text[k] == '*' && Peek(text, k + 1) == '/')
    ensures BadComment(text, p, BlockCommentEnd(text, m).offset)
    decreases |text| - m
  {
    if Peek(text, m) != '\0' { BlockNeverEnds(text, p, m + 1); }
  }

  lemma {:induction false} NeverEndingBlock(text: string, p: nat, m: nat, o: nat)
    requires BadComment(text, p, o) && Is(text, p + 1, '*') && p + 2 <= m <= o
    ensures BlockCommentEnd(text, m) == SkipError(o)
    decreases o - m
  {
    if m < o { NeverEndingBlock(text, p, m + 1, o); }
  }

  /** The reader stops in the gap at `m`, where a bad comment begins. */
  ghost predicate BreaksOff(s: Source, p: nat, m: nat, o: nat) { s.flags.comments && Gap(s, p, m) && BadComment(s.text, m, o) }

  lemma {:induction false} GapBreaks(s: Source, p: nat, m: nat, o: nat)
    requires BreaksOff(s, p, m, o)
    ensures p <= |s.text| && Skipping(s, p) == SkipError(o)
    decreases if p < m then m - p else 0
  {
    hide Comment, BlockCommentEnd, LineCommentEnd;
    if p == m {
      BadCommentBreaks(s.text, m, o);
    } else if p < m && m <= |s.text| && Blank(s.text[p]) && Gap(s, p + 1, m) {
      BlanksAgree(s.text[p]);
      GapBreaks(s, p + 1, m, o);
    } else {
      var n :| p < n <= m && Comment(s.text, p, n) && Gap(s, n, m);
      CommentSkipped(s.text, p, n);
      GapBreaks(s, n, m, o);
    }
  }

  lemma BadCommentBreaks(text: string, m: nat, o: nat)
    requires BadComment(text, m, o)
    ensures SkipBlanks(text, m) == m && SkipComments(text, m) == SkipError(o)
  {
    if Is(text, m + 1, '*') { NeverEndingBlock(text, m, m + 2, o); }
  }

  lemma {:induction false} BrokenGap(s: Source, p: nat) returns (m: nat)
    requires p <= |s.text| && s.flags.comments && SkipComments(s.text, p).SkipError?
    ensures BreaksOff(s, p, m, SkipComments(s.text, p).offset)
    decreases |s.text| - p
  {
    var block := Peek(s.text, p + 1) == '*';
    if block && BlockCommentEnd(s.text, p + 2).SkipError? {
      m := p;
      BlockNeverEnds(s.text, p, p + 2);
    } else if block || Peek(s.text, p + 1) == '/' {
      var q := if block then BlockCommentEnd(s.text, p + 2).pos else LineCommentEnd(s.text, p + 2);
      if block { BlockFound(s.text, p, p + 2, q); } else { LineFound(s.text, p, p + 2); }
      assert Comment(s.text, p, q);
      m := BrokenGap(s, SkipBlanks(s.text, q));
      BlanksAreGap(s, q, m);
      GapForward(s, q, m);
    } else {
      m := p;
    }
  }

  /** Skipping fails exactly where a gap runs into a bad comment. */
  lemma SkipFailsExactlyAtBadComments(s: Source, p: nat, o: nat, ev: seq<Event>)
    requires p <= |s.text|
    ensures Skip(s, p, ev) == Fail(UnspecificSyntaxError, o, ev) <==> exists m :: BreaksOff(s, p, m, o)
  {
    hide SkipComments, SkipBlanks, BreaksOff;
    SkipIsSkipping(s, p, ev);
    if Skipping(s, p) == SkipError(o) {
      var m := BrokenGap(s, SkipBlanks(s.text, p));
      BreaksBehindBlanks(s, p, m, o);
    }
    forall m | BreaksOff(s, p, m, o) ensures Skipping(s, p) == SkipError(o) { GapBreaks(s, p, m, o); }
  }

  lemma BreaksBehindBlanks(s: Source, p: nat, m: nat, o: nat)
    requires p <= |s.text| && BreaksOff(s, SkipBlanks(s.text, p), m, o)
    ensures BreaksOff(s, p, m, o)
  {
    BlanksAreGap(s, p, m);
  }

  // ---- Tokens

  lemma WordIs(s: Source, p: nat, word: string, e: Event, ev: seq<Event>)
    requires P.Accepting(s) && p < |s.text| && |word| > 1 && s.text[p] == word[0] && '\0' !in word
    ensures ParseLiteral(s, p, word, e, ev).Ok? ==>
      ParseLiteral(s, p, word, e, ev) == Ok(p + |word|, ev + [e]) && p + |word| <= |s.text| && s.text[p..p + |word|] == word
  {
    hide Matched;
    if Matched(s.text, p + 1, word[1..]) == |word| - 1 { WordSpelled(s.text, p, word); }
  }

  lemma WordSpelled(text: string, p: nat, word: string)
    requires p < |text| && |word| > 1 && text[p] == word[0] && '\0' !in word && Matched(text, p + 1, word[1..]) == |word| - 1
    ensures p + |word| <= |text| && text[p..p + |word|] == word
  {
    hide Matched;
    var rest := word[1..];
    assert forall c | c in rest :: c in word;
    var spelled := text[p..p + |word|];
    forall i | 0 <= i < |word| ensures spelled[i] == word[i] {
      if i > 0 { assert text[p + 1..p + 1 + |rest|][i - 1] == rest[i - 1]; }
    }
  }

  predicate Agrees(text: string, p: nat, word: string, n: nat)
    requires n <= |word|
  {
    forall i {:trigger word[i]} | 0 <= i < n :: Is(text, p + i, word[i])
  }

  /** The text agrees with `n` characters of the word, and no more. */
  predicate Differs(text: string, p: nat, word: string, n: nat) {
    n < |word| && Agrees(text, p, word, n) && Peek(text, p + n) != word[n]
  }

  lemma AgreesFromNext(text: string, p: nat, word: string, n: nat)
    requires n < |word| && Is(text, p, word[0])
    ensures Agrees(text, p, word, n + 1) <==> Agrees(text, p + 1, word[1..], n)
  {
    var rest := word[1..];
    if Agrees(text, p, word, n + 1) {
      forall i | 0 <= i < n ensures Is(text, p + 1 + i, rest[i]) { assert rest[i] == word[i + 1]; }
    }
    if Agrees(text, p + 1, rest, n) {
      forall i | 0 <= i < n + 1 ensures Is(text, p + i, word[i]) { if i > 0 { assert word[i] == rest[i - 1]; } }
    }
  }

  lemma {:induction false} MatchedUpTo(text: string, p: nat, rest: string)
    requires '\0' !in rest
    ensures var n := Matched(text, p, rest); Agrees(text, p, rest, n) && (n < |rest| ==> Differs(text, p, rest, n))
    decreases |rest|
  {
    if rest != "" {
      assert rest[0] in rest && forall c | c in rest[1..] :: c in rest;
      if Peek(text, p) == rest[0] {
        MatchedUpTo(text, p + 1, rest[1..]);
        AgreesFromNext(text, p, rest, Matched(text, p + 1, rest[1..]));
      }
    }
  }

  /** Otherwise it is refused where the text first differs. */
  lemma RefusedWord(s: Source, p: nat, word: string, e: Event, ev: seq<Event>, n: nat)
    requires P.Accepting(s) && p < |s.text| && |word| > 1 && s.text[p] == word[0] && '\0' !in word
    ensures ParseLiteral(s, p, word, e, ev) == Fail(ValueInvalid, p + n, ev) <==> Differs(s.text, p, word, n)
  {
    hide Matched, Agrees;
    var rest := word[1..];
    assert forall c | c in rest :: c in word;
    MatchedUpTo(s.text, p + 1, rest);
    var m := Matched(s.text, p + 1, rest);
    AgreesFromNext(s.text, p, word, m);
    assert m < |rest| ==> word[m + 1] == rest[m];
    if Differs(s.text, p, word, n) { OneDifference(s.text, p, word, n, m + 1); }
  }

  lemma OneDifference(text: string, p: nat, word: string, n: nat, m: nat)
    requires Differs(text, p, word, n) && m <= |word| && Agrees(text, p, word, m) && (m < |word| ==> Peek(text, p + m) != word[m])
    ensures n == m
  {
  }

  lemma NumberStarts(s: Source, c: char)
    ensures NumberStart(s, c) <==> StartsNumber(s, c)
    ensures NumberStart(s, c) ==> TokenStart(c) && c !in "ntf\"{["
  {
  }

  lemma WordMatched(text: string, p: nat, word: string, q: nat)
    requires p < q <= |text| && |word| > 1 && text[p..q] == word && '\0' !in word
    ensures text[p] == word[0] && q == p + |word| && Matched(text, p + 1, word[1..]) == |word| - 1
  {
    hide Matched;
    var rest := word[1..];
    assert text[p] == text[p..q][0] && text[p + 1..q] == rest;
    assert forall c | c in rest :: c in word;
    P.MatchedWord(text, p + 1, rest);
  }

  lemma ReadsWord(s: Source, p: nat, word: string, e: Event, q: nat, ev: seq<Event>)
    requires P.Accepting(s) && p < q <= |s.text| && |word| > 1 && s.text[p..q] == word && '\0' !in word
    ensures s.text[p] == word[0] && ParseLiteral(s, p, word, e, ev) == Ok(q, ev + [e])
  {
    hide Matched;
    WordMatched(s.text, p, word, q);
  }

  /** The reader takes exactly the tokens, one event each. */
  lemma ReadsToken(s: Source, p: nat, e: Event, q: nat, ev: seq<Event>)
    requires Sound(s) && P.Accepting(s) && Token(s, p, e, q)
    ensures s.text[p] != '{' && s.text[p] != '[' && ParseScalar(s, p, ev) == Ok(q, ev + [e])
    ensures TokenStart(s.text[p])
  {
    hide ParseLiteral, NumberStart, StartsNumber;
    NumberStarts(s, s.text[p]);
    match e
    case Null => ReadsWord(s, p, "null", e, q, ev);
    case Bool(b) => ReadsWord(s, p, if b then "true" else "false", e, q, ev);
    case String(_) =>
    case _ =>
  }

  /** A refusal is reported behind the token, but at the beginning of a number. */
  lemma RefusedToken(s: Source, p: nat, e: Event, q: nat, ev: seq<Event>)
    requires Sound(s) && Token(s, p, e, q) && !s.handler(ev + [e])
    ensures ParseScalar(s, p, ev) == Fail(Termination, if IsNumber(e) then p else q, ev + [e])
  {
    hide Matched, NumberStart, StartsNumber;
    NumberStarts(s, s.text[p]);
    match e
    case Null => WordMatched(s.text, p, "null", q);
    case Bool(b) => WordMatched(s.text, p, if b then "true" else "false", q);
    case String(_) =>
    case _ =>
  }

  /** No character that a gap or the end of a container begins with. */
  predicate TokenStart(c: char) { !IsBlank(c) && c != '/' && c != '}' && c != ']' && c != '\0' }

  lemma TokenRead(s: Source, p: nat, ev: seq<Event>) returns (e: Event)
    requires Sound(s) && P.Accepting(s) && p <= |s.text| && ParseScalar(s, p, ev).Ok?
    ensures ParseScalar(s, p, ev).events == ev + [e] && Token(s, p, e, ParseScalar(s, p, ev).pos)
  {
    hide ParseLiteral, NumberStart, StartsNumber;
    var c := Peek(s.text, p);
    if c == 'n' {
      e := Null;
      WordIs(s, p, "null", e, ev);
    } else if c == 't' {
      e := Bool(true);
      WordIs(s, p, "true", e, ev);
    } else if c == 'f' {
      e := Bool(false);
      WordIs(s, p, "false", e, ev);
    } else if c == '"' {
      e := String(s.lexString(s.text, p).s);
    } else {
      e := s.lexNumber(s.text, p).event;
      NumberStarts(s, c);
    }
  }

  // ---- What is spelled is read

  lemma {:induction false} ReadValue(s: Source, p: nat, t: Tree, ev: seq<Event>)
    requires Sound(s) && P.Accepting(s) && Spells(s, p, t)
    ensures p < p + Length(t) <= |s.text| && TokenStart(s.text[p])
    ensures G.ParseValue(s, p, ev) == Ok(p + Length(t), ev + Events(t))
    decreases t, 2
  {
    hide Token, ParseScalar, Gap, SpellsElements, SpellsMembers, G.ParseArray, G.ParseObject, Sound, ElementsLength, MembersLength, ElementsEvents, MembersEvents;
    match t
    case Scalar(e, n) =>
      TokenInside(s, p, e, p + n);
      ReadsToken(s, p, e, p + n, ev);
    case Object(gap, ms, comma) =>
      if ms != [] { ReadMembers(s, p + 1 + gap, ms, comma, 0, ev + [StartObject]); }
      ReadObject(s, p, t, ev);
    case Array(gap, es, comma) =>
      if es != [] { ReadElements(s, p + 1 + gap, es, comma, 0, ev + [StartArray]); }
      ReadArray(s, p, t, ev);
  }

  /** An array, once its elements have been read. */
  lemma ReadArray(s: Source, p: nat, t: Tree, ev: seq<Event>)
    requires Sound(s) && P.Accepting(s) && t.Array? && Spells(s, p, t)
    requires t.elements != [] ==>
      var q := p + 1 + t.gap;
      && q < |s.text| && TokenStart(s.text[q]) && q + ElementsLength(t.elements, t.comma) <= |s.text|
      && G.ParseElements(s, q, 0, ev + [StartArray]) ==
           Ok(q + ElementsLength(t.elements, t.comma),
              ev + [StartArray] + ElementsEvents(t.elements) + [EndArray((0 + |t.elements|) % SIZE_MODULUS)])
    ensures p < p + Length(t) <= |s.text| && s.text[p] == '['
    ensures G.ParseArray(s, p, ev) == Ok(p + Length(t), ev + Events(t))
  {
    hide Gap, Skip, SpellsElements, G.ParseElements, Sound;
    SkipTo(s, p + 1, p + 1 + t.gap, ev + [StartArray]);
    var inner, end := ElementsEvents(t.elements), [EndArray(|t.elements| % SIZE_MODULUS)];
    assert ev + [StartArray] + inner + end == ev + ([StartArray] + inner + end);
    if t.elements == [] { assert ev + [StartArray] + end == ev + [StartArray] + inner + end; }
  }

  lemma ReadObject(s: Source, p: nat, t: Tree, ev: seq<Event>)
    requires Sound(s) && P.Accepting(s) && t.Object? && Spells(s, p, t)
    requires t.members != [] ==>
      var q := p + 1 + t.gap;
      && q < |s.text| && s.text[q] == '"' && q + MembersLength(t.members, t.comma) <= |s.text|
      && G.ParseMembers(s, q, 0, ev + [StartObject]) ==
           Ok(q + MembersLength(t.members, t.comma),
              ev + [StartObject] + MembersEvents(t.members) + [EndObject((0 + |t.members|) % SIZE_MODULUS)])
    ensures p < p + Length(t) <= |s.text| && s.text[p] == '{'
    ensures G.ParseObject(s, p, ev) == Ok(p + Length(t), ev + Events(t))
  {
    hide Gap, Skip, SpellsMembers, G.ParseMembers, Sound;
    SkipTo(s, p + 1, p + 1 + t.gap, ev + [StartObject]);
    var inner, end := MembersEvents(t.members), [EndObject(|t.members| % SIZE_MODULUS)];
    assert ev + [StartObject] + inner + end == ev + ([StartObject] + inner + end);
    if t.members == [] { assert ev + [StartObject] + end == ev + [StartObject] + inner + end; }
  }

  lemma TokenInside(s: Source, p: nat, e: Event, q: nat)
    requires Token(s, p, e, q)
    ensures p < q <= |s.text|
  {
  }

  /** A gap is skipped up to a character that no gap begins with. */
  lemma SkipTo(s: Source, p: nat, q: nat, ev: seq<Event>)
    requires Gap(s, p, q) && (EndsAt(s.text, q) || (q < |s.text| && !IsBlank(s.text[q]) && s.text[q] != '/'))
    ensures p <= q <= |s.text| && Skip(s, p, ev) == Ok(q, ev)
  {
    GapForward(s, p, q);
    SkipsExactlyGaps(s, p, q, ev);
  }

  lemma {:induction false} ReadEntry(s: Source, p: nat, e: Element, ev: seq<Event>)
    requires Sound(s) && P.Accepting(s) && Spells(s, p, e.value)
    ensures p < p + Length(e.value) <= |s.text| && TokenStart(s.text[p])
    ensures G.ParseValue(s, p, ev) == Ok(p + Length(e.value), ev + Events(e.value))
    decreases e, 3
  {
    hide Spells, Length, Events, G.ParseValue, Sound;
    ReadValue(s, p, e.value, ev);
  }

  lemma {:induction false} ReadElements(s: Source, p: nat, es: seq<Element>, comma: bool, k: nat, ev: seq<Event>)
    requires Sound(s) && P.Accepting(s) && es != [] && SpellsElements(s, p, es, comma)
    ensures p < |s.text| && TokenStart(s.text[p]) && p + ElementsLength(es, comma) <= |s.text|
    ensures G.ParseElements(s, p, k, ev) ==
      Ok(p + ElementsLength(es, comma), ev + ElementsEvents(es) + [EndArray((k + |es|) % SIZE_MODULUS)])
    decreases es, 4
  {
    hide Gap, Spells, Events, Length, Behind, G.ParseValue, G.AfterElement, Increment, ElementsEvents, ElementsLength;
    var e, rest := es[0], es[1..];
    ReadEntry(s, p, e, ev);
    var a, ev1 := p + Length(e.value), ev + Events(e.value);
    ElementsSplit(es, comma);
    if |es| == 1 {
      LastElement(s, a, e, comma, k, ev1);
      Counts(k, 0);
    } else {
      ReadElements(s, p + ElementLength(e), rest, comma, Increment(k), ev1);
      NextElement(s, a, e, comma, k, ev1);
      Counts(k, |es| - 1);
      assert ev1 + ElementsEvents(rest) == ev + ElementsEvents(es);
    }
  }

  lemma ElementsSplit(es: seq<Element>, comma: bool)
    requires es != []
    ensures ElementsEvents(es) == Events(es[0].value) + ElementsEvents(es[1..])
    ensures ElementsLength(es, comma) == ElementLength(es[0]) + ElementsLength(es[1..], comma)
    ensures |es| == 1 ==> ElementsEvents(es) == Events(es[0].value) && ElementsLength(es[1..], comma) == if comma then 1 else 0
  {
    if |es| == 1 { assert es[1..] == []; }
  }

  lemma MembersSplit(ms: seq<Member>, comma: bool)
    requires ms != []
    ensures MembersEvents(ms) == [Key(ms[0].name)] + Events(ms[0].element.value) + MembersEvents(ms[1..])
    ensures MembersLength(ms, comma) == NameLength(ms[0]) + ElementLength(ms[0].element) + MembersLength(ms[1..], comma)
    ensures |ms| == 1 ==>
      MembersEvents(ms) == [Key(ms[0].name)] + Events(ms[0].element.value) && MembersLength(ms[1..], comma) == if comma then 1 else 0
  {
    if |ms| == 1 { assert ms[1..] == []; }
  }

  lemma Counts(k: nat, n: nat)
    ensures Increment(k) == (k + 1) % SIZE_MODULUS && (Increment(k) + n) % SIZE_MODULUS == (k + 1 + n) % SIZE_MODULUS
  {
    CountOn(k, n);
  }

  /** The end of the container behind an entry, with or without a comma before it. */
  lemma LastElement(s: Source, a: nat, e: Element, comma: bool, k: nat, ev: seq<Event>)
    requires Sound(s) && P.Accepting(s) && Gap(s, a, a + e.before) && Behind(s, a + e.before, e.after, true, comma, ']')
    ensures a <= |s.text| && a + e.before + 1 + e.after + (if comma then 1 else 0) <= |s.text|
    ensures G.AfterElement(s, a, k, ev) ==
      Ok(a + e.before + 1 + e.after + (if comma then 1 else 0), ev + [EndArray(Increment(k))])
  {
    hide Gap, Skip, Increment, G.ParseElements, Sound;
    var q := a + e.before;
    SkipTo(s, a, q, ev);
    if comma { SkipTo(s, q + 1, q + 1 + e.after, ev); }
  }

  lemma NextElement(s: Source, a: nat, e: Element, comma: bool, k: nat, ev: seq<Event>)
    requires Sound(s) && P.Accepting(s) && Gap(s, a, a + e.before) && Behind(s, a + e.before, e.after, false, comma, ']')
    requires var n := a + e.before + 1 + e.after; n < |s.text| && TokenStart(s.text[n])
    ensures a <= |s.text| && G.AfterElement(s, a, k, ev) == G.ParseElements(s, a + e.before + 1 + e.after, Increment(k), ev)
  {
    hide Gap, Skip, Increment, G.ParseElements, Sound;
    var q := a + e.before;
    SkipTo(s, a, q, ev);
    SkipTo(s, q + 1, q + 1 + e.after, ev);
  }

  lemma LastMember(s: Source, a: nat, e: Element, comma: bool, k: nat, ev: seq<Event>)
    requires Sound(s) && P.Accepting(s) && Gap(s, a, a + e.before) && Behind(s, a + e.before, e.after, true, comma, '}')
    ensures a <= |s.text| && a + e.before + 1 + e.after + (if comma then 1 else 0) <= |s.text|
    ensures G.AfterMember(s, a, k, ev) ==
      Ok(a + e.before + 1 + e.after + (if comma then 1 else 0), ev + [EndObject(Increment(k))])
  {
    hide Gap, Skip, Increment, G.ParseMembers, Sound;
    var q := a + e.before;
    SkipTo(s, a, q, ev);
    if comma { SkipTo(s, q + 1, q + 1 + e.after, ev); }
  }

  lemma NextMember(s: Source, a: nat, e: Element, comma: bool, k: nat, ev: seq<Event>)
    requires Sound(s) && P.Accepting(s) && Gap(s, a, a + e.before) && Behind(s, a + e.before, e.after, false, comma, '}')
    requires var n := a + e.before + 1 + e.after; n < |s.text| && s.text[n] == '"'
    ensures a <= |s.text| && G.AfterMember(s, a, k, ev) == G.ParseMembers(s, a + e.before + 1 + e.after, Increment(k), ev)
  {
    hide Gap, Skip, Increment, G.ParseMembers, Sound;
    var q := a + e.before;
    SkipTo(s, a, q, ev);
    SkipTo(s, q + 1, q + 1 + e.after, ev);
  }

  /** A name, its colon and the gaps around it lead to the value. */
  lemma ReadName(s: Source, p: nat, m: Member, k: nat, ev: seq<Event>)
    requires Sound(s) && P.Accepting(s) && SpellsName(s, p, m)
    requires var v := p + NameLength(m); v < |s.text| && TokenStart(s.text[v])
    ensures p < |s.text| && s.text[p] == '"'
    ensures var r := G.ParseValue(s, p + NameLength(m), ev + [Key(m.name)]);
      G.ParseMembers(s, p, k, ev) == if r.Ok? then G.AfterMember(s, r.pos, k, r.events) else r
  {
    hide Gap, Skip, Increment, G.ParseValue, G.AfterMember;
    var ev1 := ev + [Key(m.name)];
    var q := p + m.length + m.beforeColon;
    SkipTo(s, p + m.length, q, ev1);
    SkipTo(s, q + 1, p + NameLength(m), ev1);
  }

  lemma {:induction false} ReadMembers(s: Source, p: nat, ms: seq<Member>, comma: bool, k: nat, ev: seq<Event>)
    requires Sound(s) && P.Accepting(s) && ms != [] && SpellsMembers(s, p, ms, comma)
    ensures p < |s.text| && s.text[p] == '"' && p + MembersLength(ms, comma) <= |s.text|
    ensures G.ParseMembers(s, p, k, ev) ==
      Ok(p + MembersLength(ms, comma), ev + MembersEvents(ms) + [EndObject((k + |ms|) % SIZE_MODULUS)])
    decreases ms, 4
  {
    hide Gap, Spells, Events, Length, Behind, SpellsName, G.ParseValue, G.AfterMember, G.ParseMembers, Increment, MembersEvents, MembersLength;
    var m, e, rest := ms[0], ms[0].element, ms[1..];
    var v, ev1 := p + NameLength(m), ev + [Key(m.name)];
    ReadEntry(s, v, e, ev1);
    ReadName(s, p, m, k, ev);
    var a, ev2 := v + Length(e.value), ev1 + Events(e.value);
    MembersSplit(ms, comma);
    if |ms| == 1 {
      LastMember(s, a, e, comma, k, ev2);
      assert ev2 == ev + MembersEvents(ms);
      Counts(k, 0);
    } else {
      ReadMembers(s, v + ElementLength(e), rest, comma, Increment(k), ev2);
      NextMember(s, a, e, comma, k, ev2);
      Counts(k, |ms| - 1);
      assert ev2 + MembersEvents(rest) == ev + MembersEvents(ms);
    }
  }

  // ---- What is read is spelled

  lemma SkippedGap(s: Source, p: nat, ev: seq<Event>) returns (n: nat)
    requires p <= |s.text| && Skip(s, p, ev).Ok?
    ensures Skip(s, p, ev) == Ok(p + n, ev) && Gap(s, p, p + n) && p + n <= |s.text|
  {
    hide Skip, Gap;
    var q := Skip(s, p, ev).pos;
    SkipsExactlyGaps(s, p, q, ev);
    n := q - p;
  }

  lemma {:induction false} ValueRead(s: Source, p: nat, ev: seq<Event>) returns (t: Tree)
    requires Sound(s) && P.Accepting(s) && p <= |s.text| && G.ParseValue(s, p, ev).Ok?
    ensures Spells(s, p, t)
    decreases |s.text| - p, 2
  {
    hide Skip, Gap, ParseScalar, Token, SpellsElements, SpellsMembers, G.ParseElements, G.ParseMembers, Sound;
    var c := Peek(s.text, p);
    if c == '{' {
      var gap := SkippedGap(s, p + 1, ev + [StartObject]);
      if Peek(s.text, p + 1 + gap) == '}' { return Object(gap, [], false); }
      var ms, comma := MembersRead(s, p + 1 + gap, 0, ev + [StartObject]);
      t := Object(gap, ms, comma);
    } else if c == '[' {
      var gap := SkippedGap(s, p + 1, ev + [StartArray]);
      if Peek(s.text, p + 1 + gap) == ']' { return Array(gap, [], false); }
      var es, comma := ElementsRead(s, p + 1 + gap, 0, ev + [StartArray]);
      t := Array(gap, es, comma);
    } else {
      var e := TokenRead(s, p, ev);
      var q := ParseScalar(s, p, ev).pos;
      TokenInside(s, p, e, q);
      t := Scalar(e, q - p);
    }
  }

  lemma {:induction false} ElementsRead(s: Source, p: nat, k: nat, ev: seq<Event>) returns (es: seq<Element>, comma: bool)
    requires Sound(s) && P.Accepting(s) && p <= |s.text| && G.ParseElements(s, p, k, ev).Ok?
    ensures es != [] && SpellsElements(s, p, es, comma)
    decreases |s.text| - p, 3
  {
    hide Gap, Spells, Events, Length, Behind, G.ParseValue, G.AfterElement, Increment, Sound;
    var v := ValueRead(s, p, ev);
    ReadValue(s, p, v, ev);
    var a, ev1 := p + Length(v), ev + Events(v);
    var before, after, last;
    before, after, last, comma := ElementEnds(s, a, k, ev1);
    var e := Element(v, before, after);
    if last {
      es := [e];
    } else {
      var rest;
      rest, comma := ElementsRead(s, a + before + 1 + after, Increment(k), ev1);
      Between(s, a + before, after, comma, ']');
      es := [e] + rest;
      assert es[1..] == rest;
    }
  }

  /** Between two entries it does not matter how the last one ends. */
  lemma Between(s: Source, q: nat, after: nat, comma: bool, close: char)
    ensures Behind(s, q, after, false, comma, close) <==> Is(s.text, q, ',') && Gap(s, q + 1, q + 1 + after)
  {
    hide Gap;
  }

  lemma ElementEnds(s: Source, a: nat, k: nat, ev: seq<Event>) returns (before: nat, after: nat, last: bool, comma: bool)
    requires Sound(s) && P.Accepting(s) && a <= |s.text| && G.AfterElement(s, a, k, ev).Ok?
    ensures Gap(s, a, a + before)
    ensures if last then Behind(s, a + before, after, true, comma, ']')
            else
              var n := a + before + 1 + after;
              && Is(s.text, a + before, ',') && Gap(s, a + before + 1, n)
              && n <= |s.text| && G.ParseElements(s, n, Increment(k), ev).Ok?
  {
    hide Gap, Skip, Increment, G.ParseElements, Sound;
    before := SkippedGap(s, a, ev);
    after, last, comma := 0, true, false;
    if Peek(s.text, a + before) == ',' {
      after := SkippedGap(s, a + before + 1, ev);
      last := s.flags.trailingCommas && Peek(s.text, a + before + 1 + after) == ']';
      comma := last;
    }
  }

  lemma MemberEnds(s: Source, a: nat, k: nat, ev: seq<Event>) returns (before: nat, after: nat, last: bool, comma: bool)
    requires Sound(s) && P.Accepting(s) && a <= |s.text| && G.AfterMember(s, a, k, ev).Ok?
    ensures Gap(s, a, a + before)
    ensures if last then Behind(s, a + before, after, true, comma, '}')
            else
              var n := a + before + 1 + after;
              && Is(s.text, a + before, ',') && Gap(s, a + before + 1, n)
              && n <= |s.text| && G.ParseMembers(s, n, Increment(k), ev).Ok?
  {
    hide Gap, Skip, Increment, G.ParseMembers, Sound;
    before := SkippedGap(s, a, ev);
    after, last, comma := 0, true, false;
    if Peek(s.text, a + before) == ',' {
      after := SkippedGap(s, a + before + 1, ev);
      last := s.flags.trailingCommas && Peek(s.text, a + before + 1 + after) == '}';
      comma := last;
    }
  }

  /** Up to the value of a member. */
  lemma NameRead(s: Source, p: nat, k: nat, ev: seq<Event>) returns (name: string, length: nat, beforeColon: nat, afterColon: nat)
    requires Sound(s) && P.Accepting(s) && p <= |s.text| && G.ParseMembers(s, p, k, ev).Ok?
    ensures forall e :: SpellsName(s, p, Member(name, length, beforeColon, afterColon, e))
    ensures var v := p + length + beforeColon + 1 + afterColon;
      p < v <= |s.text| && G.ParseValue(s, v, ev + [Key(name)]).Ok? &&
      var r := G.ParseValue(s, v, ev + [Key(name)]); G.AfterMember(s, r.pos, k, r.events).Ok?
  {
    hide Gap, Skip, G.ParseValue, G.AfterMember;
    var l := s.lexString(s.text, p);
    name, length := l.s, l.next - p;
    var ev1 := ev + [Key(name)];
    beforeColon := SkippedGap(s, l.next, ev1);
    afterColon := SkippedGap(s, l.next + beforeColon + 1, ev1);
  }

  lemma {:induction false} MembersRead(s: Source, p: nat, k: nat, ev: seq<Event>) returns (ms: seq<Member>, comma: bool)
    requires Sound(s) && P.Accepting(s) && p <= |s.text| && G.ParseMembers(s, p, k, ev).Ok?
    ensures ms != [] && SpellsMembers(s, p, ms, comma)
    decreases |s.text| - p, 3
  {
    hide Gap, Spells, Events, Length, Behind, SpellsName, G.ParseValue, G.AfterMember, G.ParseMembers, Increment, Sound;
    var name, length, beforeColon, afterColon := NameRead(s, p, k, ev);
    var v, ev1 := p + length + beforeColon + 1 + afterColon, ev + [Key(name)];
    var t := ValueRead(s, v, ev1);
    ReadValue(s, v, t, ev1);
    var a, ev2 := v + Length(t), ev1 + Events(t);
    var before, after, last;
    before, after, last, comma := MemberEnds(s, a, k, ev2);
    var m := Member(name, length, beforeColon, afterColon, Element(t, before, after));
    if last {
      ms := [m];
    } else {
      var rest;
      rest, comma := MembersRead(s, a + before + 1 + after, Increment(k), ev2);
      Between(s, a + before, after, comma, '}');
      ms := [m] + rest;
      assert ms[1..] == rest;
    }
  }

  // ---- The whole text

  /**
   * For every text, every flags and every handler that takes what it gets: the recursive parser gets through, to `r`
   * and with these events, exactly if the text is one of the grammar with these events.
   */
  lemma AcceptsExactlyTheGrammar(s: Source, r: nat, ev: seq<Event>)
    requires Sound(s) && P.Accepting(s)
    ensures G.Parse(s) == Ok(r, ev) <==> IsText(s, r, ev)
  {
    hide G.Parse, SpellsText, Events, Sound;
    if G.Parse(s) == Ok(r, ev) {
      var lead, t := TextRead(s, r, ev);
    }
    forall lead, t | SpellsText(s, lead, t, r) && ev == Events(t)
      ensures G.Parse(s) == Ok(r, ev)
    {
      ReadText(s, lead, t, r);
    }
  }

  lemma ReadText(s: Source, lead: nat, t: Tree, r: nat)
    requires Sound(s) && P.Accepting(s) && SpellsText(s, lead, t, r)
    ensures G.Parse(s) == Ok(r, Events(t))
  {
    hide Gap, Spells, Events, Length, Skip, G.ParseValue, Sound;
    ReadValue(s, lead, t, []);
    assert [] + Events(t) == Events(t);
    SkipTo(s, 0, lead, []);
    if !s.flags.stopWhenDone { SkipTo(s, lead + Length(t), r, Events(t)); }
  }

  lemma TextRead(s: Source, r: nat, ev: seq<Event>) returns (lead: nat, t: Tree)
    requires Sound(s) && P.Accepting(s) && G.Parse(s) == Ok(r, ev)
    ensures SpellsText(s, lead, t, r) && ev == Events(t)
  {
    hide Gap, Spells, Events, Length, Skip, G.ParseValue, Sound;
    lead := SkippedGap(s, 0, []);
    t := ValueRead(s, lead, []);
    ReadValue(s, lead, t, []);
    assert [] + Events(t) == Events(t);
    if !s.flags.stopWhenDone { var trail := SkippedGap(s, lead + Length(t), Events(t)); }
  }

  /** The iterative parser accepts the same. */
  lemma IterativeAcceptsTheSame(s: Source, r: nat, ev: seq<Event>)
    requires Sound(s) && P.Accepting(s)
    ensures A.IterativeParse(s) == Ok(r, ev) <==> IsText(s, r, ev)
  {
    hide A.IterativeParse, G.Parse, IsText, Sound;
    AcceptsExactlyTheGrammar(s, r, ev);
    E.ParsersAgree(s);
  }
}

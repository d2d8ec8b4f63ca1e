# Verified models of the RapidJSON, async++ and codec code

These Dafny modules model the parts of the repository where a mistake would be hardest to
see, and prove what each of them is for. `dafny verify dfyconfig.toml` checks everything.

**RapidJSON.** `Reader.dfy` gives the recursive descent parser as functions over a text, a
history of events and a handler that may refuse any event; `Automaton.dfy` gives the
table-driven automaton, and `ReaderEquivalence.dfy` proves that the two drive the handler
identically; `GenericReader.dfy` is the reader as an object that both describe. `Numbers.dfy`,
`IntegerFlags.dfy`, `Strings.dfy`, `StringBuffer.dfy`, `Itoa.dfy` and `Decimal.dfy` cover the
scanning and writing of scalars at their machine widths, and the whole circle of a document.
`JsonGrammar.dfy`, `StringGrammar.dfy` and `NumberGrammar.dfy` give the texts of RFC 4627 by a
grammar of their own and prove that exactly those are accepted (`Characters.dfy` has the
letters and digits).
`Document.dfy` and `GenericDocument.dfy` hold the tree, its events and the stack machine that
rebuilds it, `EventCounts.dfy` exactly when that machine comes out right, `WideArrays.dfy` a family of inputs on which it does not,
`ValueEquality.dfy` equality. `Options.dfy` is a shared datatype. `PrettyWriter.dfy`,
`PrettyPrinter.dfy` and `PrettyRoundTrip.dfy` print a tree and read it back. `PointerText.dfy`,
`PointerParser.dfy` and `PointerTree.dfy` are JSON pointers: their two text forms (RFC 6901),
array indices, their parser with its buffers, and resolving, creating, setting and erasing;
`PointerGrammar.dfy` gives the pointers by their grammar and proves that exactly those are read.
`PoolAllocator.dfy` is the memory pool.

**async++.** `Continuations.dfy` is a transition system for one task, its continuation list
and any number of threads, with a step for every access to shared memory; a weak exchange
may fail for no reason, and a relaxed load of the task state may miss a finish.
`ContinuationRuns.dfy` proves its invariant and what holds of every run,
`ContinuationProgress.dfy` that nobody is ever stuck and the steps of calls under way come to
an end. `TaskLife.dfy` is the life of a `task_func` and the race to set an event,
`RefCount.dfy` the reference-counted pointers and what goes with an object, `WhenAll.dfy` the
shared state of `when_all`, `Partitions.dfy` the fork-join loops.

**Codecs and a lock.** `Utf8.dfy` (RFC 3629), `Base64.dfy` (RFC 4648), `ScopeRunner.dfy`.

Where the code and its documentation disagree the models follow the code:

- An object that repeats a name is documented to equal nothing. On the left it equals
  something exactly when its members of one name could all equal one value
  (`ValueEquality.EqualsSomethingIff`, and `EqualsSomethingIffJoinable` at any depth).
- A pointer token too large for an index is documented to be no index. It is taken for one
  exactly when its wrapped value never falls (`PointerIndex.TooLargeIsNoIndexIff`).
- The document asserts one value after a parse. That holds exactly when no entry count has
  wrapped (`DocumentParse.ParseBuildsOneValue`).
- Lengths of strings are 32-bit. The reader hands a string over whole exactly below 2^32 - 1
  units (`Strings.HandedWholeIff`), and the writer reserves enough for every string of a
  length exactly below 715827883 (`Strings.ReservationCoversIff`).
- A pointer assigned while it, or the source, is a member of what its reference alone keeps
  alive meets ended objects (`RefCount.World.CopyAssign`, `MoveAssign`, `Reset`).
- The exponent of a number and the digits of its fraction can add up to less than an `int`
  holds (`Numbers.DecimalPowerOverflows`).
- Any value may stand at the root of a text, where RFC 4627 has an object or an array, and a
  high surrogate must have its low one behind it (`StringGrammar.ScansExactlyStrings`).
- In a URI fragment RFC 6901 has the percent-encoding undone before the pointer is taken apart;
  the code takes a solidus written as a triplet for a character of a name
  (`PointerGrammar.ReadsExactlyPointers`).
- Printing and reading does not send a tree's own events again unless its integers lie where
  both ends choose the same class (`PrettyRoundTrip.SameEventsIff`).

Texts are null-terminated: reading at the end gives NUL, as it does for a C string. The
continuation model has one thread that finishes the task, once; that this is so is what
`TaskLife` and `BasicEvent` prove of its callers.

## Model

| member | source | states |
|---|---|---|
| ReaderEquivalence.ParsersAgree | include/rapidjson/reader.h:1465-1837 | for every text, flag set, scalar scanning that leaves the shared parse stack as it found it, and handler, the table-driven automaton and the recursive descent parser both succeed or both fail at the same place with the same events and error code; only when the root begins with one of `] } , :` do the codes differ, DocumentEmpty against ValueInvalid, and only a refusal's offset may differ; strings leave the stack so exactly below 2^32 - 1 units (`Strings.HandedWholeIff`) |
| ReaderEquivalence.RunObject | include/rapidjson/reader.h:575-639 | run from an object's opening brace, the automaton does what ParseObject does and comes back to the state and stack it left, for any stack below |
| ReaderEquivalence.RunArray | include/rapidjson/reader.h:643-688 | the same for an array and ParseArray |
| ReaderEquivalence.RunValue | include/rapidjson/reader.h:1375-1388 | the same for any value, from every state in which a value may begin |
| GenericReader.Reader.Parse | include/rapidjson/reader.h:471-502 | the recursive parser as it runs, with its cursor, event history and parse result as fields, computes the grammar functions that the equivalence is about |
| GenericReader.Reader.ParseObject | include/rapidjson/reader.h:575-639 | the member loop sends the events, counts and errors of the object grammar |
| GenericReader.Reader.ParseArray | include/rapidjson/reader.h:643-688 | the element loop sends the events, counts and errors of the array grammar |
| GenericReader.Reader.ParseValue | include/rapidjson/reader.h:1375-1388 | dispatches on the first character as the value grammar does |
| GenericReader.Reader.SkipWhitespaceAndComments | include/rapidjson/reader.h:546-571 | stops at the first character that is neither blank nor in a comment, or reports the unfinished comment where it stands |
| GenericReader.Reader.Transit | include/rapidjson/reader.h:1632-1781 | one transition, written out on the cursor, the history and the frames, is the one that the equivalence is about: next state, frames, event, or the error and its place |
| GenericReader.Reader.OpenContainer | include/rapidjson/reader.h:1638-1662 | opening pushes the state to return to and a count of zero, and a refusal is reported before the bracket is taken |
| GenericReader.Reader.CloseContainer | include/rapidjson/reader.h:1704-1759 | closing counts the last entry, pops the frame, returns to the state it held or to the end, and refuses a trailing comma unless the flag allows it |
| GenericReader.Reader.IterativeParse | include/rapidjson/reader.h:1805-1837 | the automaton's loop computes the run that the equivalence is about |
| JsonGrammar.AcceptsExactlyTheGrammar | include/rapidjson/reader.h:471-502 | for every text, every flags and a handler that takes what it gets, the recursive parser gets through, and to this place with these events, exactly if the text is one of the grammar of section 2 of RFC 4627 with them: a value between gaps of white space and, by flag, comments; by flag a comma behind the last entry, or anything behind the value; every count modulo 2^32. The grammar shares nothing with the parsers but which strings and numbers the scanner takes |
| JsonGrammar.IterativeAcceptsTheSame | include/rapidjson/reader.h:1805-1837 | the iterative parser gets through exactly on the same texts |
| JsonGrammar.SkipsExactlyGaps | include/rapidjson/reader.h:546-571 | skipping goes up to a place exactly if a gap leads there and none goes on: space, tab, line feed and carriage return, and with the flag comments up to their first end |
| JsonGrammar.SkipFailsExactlyAtBadComments | include/rapidjson/reader.h:546-571 | it fails exactly where a gap runs into a comment that never ends, at the end of the text, or a slash that begins none, behind it |
| JsonGrammar.ReadsToken | include/rapidjson/reader.h:692-734 | each token of the grammar is read as one event |
| JsonGrammar.TokenRead | include/rapidjson/reader.h:692-734 | and only those are |
| JsonGrammar.RefusedWord | include/rapidjson/reader.h:692-734 | a word that is none of the three is refused where it first differs |
| JsonGrammar.RefusedToken | include/rapidjson/reader.h:692-734 | a handler's refusal of a scalar is reported behind its token, and at the beginning of a number |
| Numbers.ScanInteger | include/rapidjson/reader.h:1129-1212 | the 32-bit and the 64-bit accumulation loops: no accumulator overflows, and the value kept is that of the digits read, in the first width that holds it; the loop gives up exactly on a number no width holds |
| Numbers.ScanWide | include/rapidjson/reader.h:1187-1212 | the 64-bit loop from a prefix that has just outgrown 32 bits |
| Numbers.ParseNumber | include/rapidjson/reader.h:1116-1367 | for an integer literal of any length the event carries its exact value in the narrowest class its sign allows, going to double only beyond 64 bits or before a fraction or exponent |
| NumberGrammar.ScansExactlyIntegers | include/rapidjson/reader.h:1116-1212 | the integer path delivers exactly the integers of the grammar of section 2.4 of RFC 4627 that no digit, fraction or exponent continues and 64 bits hold, each by its sign and size and with the value of its digits by their place among the ten |
| NumberGrammar.IntegersFirst | include/rapidjson/reader.h:1116-1212 | such a number is scanned as that integer, and any other only by the double path |
| NumberGrammar.RealsToTheDoublePath | include/rapidjson/reader.h:1187-1256 | an integer that a fraction or exponent continues or 64 bits do not hold goes to the double path |
| NumberGrammar.NoNumber | include/rapidjson/reader.h:1129-1185 | without a digit behind the sign there is no number, and that is reported there, unless the flag allows a NaN or an infinity |
| Numbers.ScanExponent | include/rapidjson/reader.h:1271-1310 | an exponent of any length leaves the `int` accumulator in range, exact when it fits, refused when positive and above 308 - expFrac, at most the bound when negative; it overflows exactly when that bound does, or a prefix is within the bound and the next digit is too much for `int`, which takes 214748056 counted fraction digits |
| Numbers.BoundedExponentsFit | include/rapidjson/reader.h:1296-1303 | no exponent can do that while the bound 308 - expFrac is at most 214748363 |
| Numbers.LongFractionOverflows | include/rapidjson/reader.h:1296-1303 | an exponent of 2147483648 after 214748056 fraction zeros or more does |
| Numbers.ScanFraction | include/rapidjson/reader.h:1224-1265 | the two loops after the point: expFrac is minus the digits that count, which are the zeros before the first significant digit and then as many as make seventeen significant ones after the first of the integer part; it overflows exactly when more than 2^31 count |
| Numbers.DecimalPower | include/rapidjson/reader.h:1343-1343 | exp + expFrac overflows exactly below -2^31, and never exceeds 308 |
| Numbers.NineFractionDigitsFit | include/rapidjson/reader.h:1285-1295 | with at most nine counted fraction digits no negative exponent of any length makes that sum overflow |
| Numbers.DecimalPowerOverflows | include/rapidjson/reader.h:1343-1343 | with ten or more the exponent -2147483639 does |
| Numbers.ScanNegativeExponent | include/rapidjson/reader.h:1285-1295 | the loop that stops accumulating and only consumes digits never overflows and ends after the last digit |
| Numbers.ScanPositiveExponent | include/rapidjson/reader.h:1296-1303 | the loop reports the number too big as soon as the value exceeds the bound, for every bound, and overflows under that condition only |
| IntegerFlags.FromInt | include/rapidjson/document.h:681-685 | the word and the flags stored for an `int` are the value's word and the four range predicates |
| IntegerFlags.FromUnsigned | include/rapidjson/document.h:687-691 | the same for `unsigned` |
| IntegerFlags.FromInt64 | include/rapidjson/document.h:693-706 | the same for `int64_t`, by its bit masks |
| IntegerFlags.FromUint64 | include/rapidjson/document.h:708-717 | the same for `uint64_t` |
| IntegerFlags.WordEquality | include/rapidjson/document.h:936-936 | comparing the stored words takes two integers for equal exactly when they are equal or 2^64 apart |
| IntegerFlags.StoredNumberIsExact | include/rapidjson/document.h:681-717 | word and flags together determine the integer |
| Strings.ParseString | include/rapidjson/reader.h:762-891 | the scanning loop with its escapes, on a stack with a 32-bit count of what it has put there, hands over what the scanning function and the wrapped count say, and leaves the rest on the stack |
| StringGrammar.ScansExactlyStrings | include/rapidjson/reader.h:740-891 | the scanner takes exactly the strings of section 2.5 of RFC 4627, except those in which a high surrogate has no low one behind it, and gives their meaning: the eight letters, four hexadecimal digits of either case as a code point in UTF-8, a surrogate pair as the code point of section 2.2 of RFC 2781 |
| StringGrammar.DeliversExactlyStrings | include/rapidjson/reader.h:801-815 | what reaches the handler is that meaning as the 32-bit length hands it over |
| StringGrammar.RefusesTheRest | include/rapidjson/reader.h:740-891 | anything else is refused where the first character stands that is none of the grammar, with the reason: the end, a control character, an unknown letter, a bad digit, a surrogate without its partner |
| StringGrammar.LoneLowSurrogate | include/rapidjson/encodings.h:102-121 | a low surrogate on its own is delivered as three bytes, which are not UTF-8 |
| StringGrammar.WritesShortest | include/rapidjson/writer.h:359-431 | the writer escapes only what it must: by a letter where there is one, otherwise by a code unit in capitals |
| Strings.StringRoundTrip | include/rapidjson/writer.h:359-431 | a string written as a token is scanned back exactly, wherever it stands and however long, for every code unit that needs an escape and every one that does not; what then reaches the handler is the next row's |
| Strings.HandedWholeIff | include/rapidjson/reader.h:811-815 | a scanned string reaches the handler whole exactly when its units and the terminator are fewer than 2^32, or what lies past one of 2^32 - 1 units is its copy; and exactly in the first case nothing stays on the stack |
| Strings.LongestWraps | include/rapidjson/reader.h:811-815 | of a string of 2^32 - 1 units the handler gets what lies past its end, and all of it stays on the stack |
| Strings.ReservationCoversIff | include/rapidjson/writer.h:374-377 | the room reserved for a string of n units is enough for every such string exactly when 2 + 6n is below 2^32, that is n below 715827883 |
| StringBuffer.StringBuffer.WriteString | include/rapidjson/writer.h:359-431 | reserving once and putting without looking writes the token exactly when it fits the buffer's capacity after the reservation, whatever it held before |
| StringBuffer.StringBuffer.Reserve | include/rapidjson/internal/stack.h:180-197 | without room, capacity grows by half, from the initial capacity, or to what is asked if that is more |
| StringBuffer.RoomEnough | include/rapidjson/writer.h:374-377 | below 715827883 units it always fits |
| StringBuffer.FreshBufferOverrun | include/rapidjson/writer.h:374-377 | from there on a string of control characters runs past a fresh buffer |
| Decimal.IntegerRoundTrip | include/rapidjson/writer.h:295-329 | a written integer is read back with its exact value, in the reader's class, whatever ends it |
| Itoa.U32toa | include/rapidjson/internal/itoa.h:39-111 | the two-digits-at-a-time printer appends the shortest decimal digits, at most the ten its caller's buffer holds |
| Itoa.U64toa | include/rapidjson/internal/itoa.h:123-289 | the same for 64 bits, at most twenty |
| Itoa.I32toa | include/rapidjson/internal/itoa.h:113-121 | a sign and the magnitude, negated in 32 bits; at most eleven characters |
| Itoa.I64toa | include/rapidjson/internal/itoa.h:291-299 | the same in 64 bits; at most twenty-one characters |
| Dom.AcceptBuilds | include/rapidjson/document.h:1818-1855 | running the events of a tree on the document builder pushes exactly that tree and leaves the rest of the stack as it was |
| Dom.AcceptInjective | include/rapidjson/document.h:1818-1855 | different trees have different events |
| DocumentParse.Document.ParseStream | include/rapidjson/document.h:2205-2215 | driving the builder object with the events of either parser sets the document exactly if the parse got through and no count wrapped, and then it is the value those events build; for texts below 2^32 characters always |
| DocumentParse.ParseBuildsOneValue | include/rapidjson/document.h:2205-2215 | after any successful parse by either parser, for every text, the stack holds exactly one value, as ParseStream asserts, if and only if no container of the text has 2^32 entries or more, which is when every closing event carries the number of entries since its opening |
| EventCounts.ParseCounts | include/rapidjson/reader.h:575-688 | for every text the events of a successful parse are those of one value, and every closing event carries its number of entries modulo 2^32 |
| EventCounts.HeightIsSizeAndSurplus | include/rapidjson/document.h:2383-2423 | the builder's stack holds what the open containers have received and what every close so far left behind |
| EventCounts.SurplusOfWrapped | include/rapidjson/document.h:2411-2423 | what a close leaves behind is never negative, nothing if its count is right and at least 2^32 if it has wrapped |
| EventCounts.NothingLeftIffExact | include/rapidjson/document.h:2411-2423 | over a whole parse nothing is left behind exactly when every count is right |
| EventCounts.ExactIffNarrow | include/rapidjson/reader.h:575-688 | the counts that a parse sends are right exactly when no container received 2^32 entries or more |
| EventCounts.ExactBuilds | include/rapidjson/document.h:2383-2423 | with right counts the builder goes through, and finds a name wherever an object needs one |
| WideArrays.OneValueIffCountFits | include/rapidjson/reader.h:643-688 | for an array of n nulls, of any length: both parsers succeed with the same events, and afterwards the stack holds one value if and only if n is below 2^32 |
| ValueEquality.EqualIffSameMeaning | include/rapidjson/document.h:902-941 | on double-free values in which no object repeats a name, `operator==` holds exactly when both sides mean the same, an object meaning the map from its names; the one-directional member loop is enough |
| ValueEquality.EqualIsEquivalence | include/rapidjson/document.h:902-941 | there `operator==` is reflexive, symmetric and transitive |
| ValueEquality.MemberOrderIsIrrelevant | include/rapidjson/document.h:902-941 | permuting the members of an object keeps it equal |
| ValueEquality.EqualsSomethingIff | include/rapidjson/document.h:896-898 | the documentation says that an object which repeats a name equals nothing: where no value inside its members repeats one, it equals something on the left, and itself, exactly when its members of one name all mean the same |
| ValueEquality.EqualsSomethingIffJoinable | include/rapidjson/document.h:902-941 | every double-free value, whatever names repeat at any depth, equals something on the left exactly when, in each of its objects, the members of one name could all equal one value: the same scalar, arrays of one length with such elements, objects of one size with no more names among them than that and such values at each name |
| ValueEquality.EqualsSomethingNotItself | include/rapidjson/document.h:902-941 | below the first level a value can equal something and not itself |
| ValueEquality.EverythingEqualsOnTheRight | include/rapidjson/document.h:896-898 | on the right every double-free value equals something, whatever names its objects repeat at any depth |
| ValueEquality.RepeatedNames | include/rapidjson/document.h:896-898 | an object that repeats a name and equals itself, and one that equals another which does not equal it |
| ValueEquality.EqualTo | include/rapidjson/document.h:902-941 | the loops with their early exits decide that equality, for every two values; the conversion of integers to doubles is a parameter |
| Pretty.PrintIsText | include/rapidjson/prettywriter.h:95-253 | what the writer has written after a tree's events is the tree's text by structure, and the writer is back at its root level |
| Pretty.WriteValue | include/rapidjson/prettywriter.h:206-253 | writing a value at any level appends its separator and its text and changes no level below |
| PrettyPrinter.PrettyWriter.PrettyPrefix | include/rapidjson/prettywriter.h:206-248 | the separator and indentation before a value, and the count at its level |
| PrettyPrinter.PrettyWriter.WriteIndent | include/rapidjson/prettywriter.h:250-253 | the indentation of every open level, of indentation characters only |
| Pretty.IndentLength | include/rapidjson/prettywriter.h:250-253 | which is as many for each level as set |
| PrettyPrinter.PrettyWriter.StartObject | include/rapidjson/prettywriter.h:123-127 | prefix, brace and a new level |
| PrettyPrinter.PrettyWriter.EndObject | include/rapidjson/prettywriter.h:137-153 | closes the level, on a line of its own unless it was empty |
| PrettyPrinter.PrettyWriter.StartArray | include/rapidjson/prettywriter.h:155-159 | prefix, bracket and a new level |
| PrettyPrinter.PrettyWriter.EndArray | include/rapidjson/prettywriter.h:161-177 | closes the level, on a line of its own unless it was empty or arrays stay on one line |
| PrettyPrinter.Accept | include/rapidjson/document.h:1818-1855 | walking any tree into the writer meets every assertion of PrettyPrefix, EndObject and EndArray, and writes the text of the tree's events |
| PrettyRoundTrip.PrettyRoundTrip | include/rapidjson/prettywriter.h:95-253 | for every tree, whatever its sizes, and every indentation and array style, either parser reads the printed text to its end and sends the tree's events, each string as scanning hands it over, each integer in the reader's class and each count modulo 2^32; these are the tree's own events, and rebuild it, exactly under the conditions of the next rows; the base class is any that writes each token readably, the scanning any that leaves the parse stack alone |
| PrettyRoundTrip.SameEventsIff | include/rapidjson/prettywriter.h:95-253 | those are the tree's own events exactly when no container has 2^32 entries and no integer lies in [0, 2^31) or [2^32, 2^63) |
| PrettyRoundTrip.ZeroChangesClass | include/rapidjson/document.h:1850-1854 | a zero is sent as a signed integer and comes back as an unsigned one |
| PrettyRoundTrip.RebuildsIffSmall | include/rapidjson/prettywriter.h:95-253 | the events read back rebuild the tree exactly when no container has 2^32 entries, and otherwise leave more than one value |
| PrettyRoundTrip.RebuildsSameIff | include/rapidjson/prettywriter.h:95-253 | with strings changed on the way, they rebuild it exactly when, besides, every string and name came through as it was |
| Decimal.DocumentRoundTrip | include/rapidjson/prettywriter.h:95-253 | the closed form with the base class's own strings and integers: for every double-free tree, reading what was printed under any flags and rebuilding gives the tree back exactly when no container has 2^32 entries and every string and name is handed over whole; the iterative parser does the same when all of them are below 2^32 - 1 units |
| Decimal.CircleIff | include/rapidjson/writer.h:359-431 | on a stream that has only the room the writer reserves, the whole circle of printing, reading and rebuilding gives back the tree exactly when, besides, every string and name fits what is reserved for it |
| Decimal.StringsKeptIff | include/rapidjson/reader.h:811-815 | all of a tree's strings are handed over as they were exactly when each is below 2^32 - 1 units, or of that length with its copy behind it |
| Decimal.ShortStringsComeBack | include/rapidjson/writer.h:374-377 | strings below 715827883 units meet both conditions |
| PointerText.ReadWrite | include/rapidjson/pointer.h:802-972 | reading the string form of any token names, arbitrary bytes included, gives the names back |
| PointerText.WriteRead | include/rapidjson/pointer.h:802-972 | writing what was read from a valid string-form pointer gives the same text |
| PointerText.UriRoundTrip | include/rapidjson/pointer.h:940-972 | the URI fragment form exists exactly when every name is UTF-8, and then reading it gives the names back |
| PointerText.UriNormalForm | include/rapidjson/pointer.h:802-972 | every URI fragment that parses can be written again, in a form that reads as the same names |
| PointerText.TokenCount | include/rapidjson/pointer.h:811-815 | a valid pointer has as many tokens as solidi, the size its token array was given |
| PointerGrammar.ReadsExactlyPointers | include/rapidjson/pointer.h:802-972 | exactly the pointers of RFC 6901 are read, each with its names: bytes as themselves, a tilde with zero for a tilde and with one for a solidus; in a fragment unreserved characters as themselves and characters of UTF-8 as triplets with digits of either case, where a solidus written so belongs to a name and the digit behind a tilde must stand as itself |
| PointerGrammar.UnreservedIs | include/rapidjson/pointer.h:790-792 | what need not be percent-encoded is exactly the unreserved characters of section 2.3 of RFC 3986 |
| PointerGrammar.WrittenDigit | include/rapidjson/pointer.h:1025-1034 | triplets are written with capitals |
| PointerIndex.IndexIsExact | include/rapidjson/pointer.h:900-917 | a number that fits the index type is converted exactly |
| PointerIndex.IndexOfNumber | include/rapidjson/pointer.h:904-917 | what a number of any length becomes: no index exactly when its wrapped value falls at some digit or is the value that marks no index, and otherwise its wrapped value |
| PointerIndex.TooLargeIsNoIndexIff | include/rapidjson/pointer.h:86-96 | the documentation says that a number beyond the type is no index: it is taken for one exactly when no digit makes its wrapped value fall and the result does not mark no index |
| PointerIndex.WrapsUnnoticed | include/rapidjson/pointer.h:86-96 | against the documentation, 5000000000 is taken for index 705032704 |
| PointerParser.GenericPointer.constructor | include/rapidjson/pointer.h:802-932 | the parser with its token array and name buffer, for every text: valid text gives its names, each null-terminated inside the buffer, with its index if its length fits 32 bits; invalid text gives the error and its offset; neither array is ever exceeded |
| PointerParser.NameInto | include/rapidjson/pointer.h:838-894 | one name: its bytes are in the buffer, no byte before it changed, and fewer bytes are written than characters read |
| PointerParser.ValidateInto | include/rapidjson/encodings.h:179-202 | validating one percent-encoded sequence through the decoding stream accepts exactly a well-formed sequence and never writes past the buffer, even when the text ends early |
| PointerParser.PercentDecodeStream.Take | include/rapidjson/pointer.h:991-1011 | a triplet gives its byte; anything else marks the stream invalid |
| PointerParser.Index | include/rapidjson/pointer.h:895-919 | the checks and the conversion loop compute the index of a name |
| PointerParser.GenericPointer.Stringify | include/rapidjson/pointer.h:940-972 | both forms print what the round trips are about, and the URI fragment form fails exactly on a name that is not UTF-8 |
| PointerTree.ParsedTokenOk | include/rapidjson/pointer.h:900-917 | the parser makes no index of a dash, which is what the laws below ask of a token |
| PointerTree.CreateExistsIffResolves | include/rapidjson/pointer.h:401-447 | `Create` reports that the value exists exactly when `Get` resolves the pointer, and then returns the same place in an unchanged tree |
| PointerTree.StepMakes | include/rapidjson/pointer.h:401-447 | what a token makes of a value: a dash appends a null to an array; an object stays, with a null member behind if it lacks the name; anything else becomes an object with that member if the token has no index, and with one an array keeps its elements, a scalar becomes an array, and nulls fill it up |
| PointerTree.ReplaceOnlyThere | include/rapidjson/pointer.h:401-447 | putting a value at a location changes no other value, and above it neither kinds nor names nor numbers of children |
| PointerTree.GetAfterSet | include/rapidjson/pointer.h:610-617 | after `Set` the pointer resolves to the value set if and only if no dash appended to an array on the way; the value is in its place either way |
| PointerTree.SetLeavesDivergingPaths | include/rapidjson/pointer.h:610-617 | setting an existing value leaves alone whatever any diverging pointer finds |
| PointerTree.CreateKeepsPaths | include/rapidjson/pointer.h:401-447 | where no value on the way is converted to another container, everything that resolved still resolves to the same place, with the same value unless the new one lies in it |
| PointerTree.EraseIffResolves | include/rapidjson/pointer.h:711-749 | `Erase` succeeds exactly when the pointer is not the root and resolves; then its parent has lost that child and nothing else changed |
| PointerTree.EraseRemovesOnly | include/rapidjson/pointer.h:711-749 | erasing leaves the parent one child less: those before the one named stay, those behind it move up, members with their names; every location outside the parent keeps its value, and those above their kind and names |
| PointerTree.UnresolvedToken | include/rapidjson/pointer.h:479-507 | the token reported is the first that names no child of what the tokens before it reach |
| PointerTree.FindMember | include/rapidjson/document.h:1203-1211 | the first member with the name, if any |
| PointerTree.Get | include/rapidjson/pointer.h:479-507 | the loop with its cursor resolves as the laws say |
| PointerTree.CreateIn | include/rapidjson/pointer.h:401-447 | the loop with its cursor and its padding loop creates as the laws say |
| PointerTree.EraseIn | include/rapidjson/pointer.h:711-749 | the loop to the parent and the removal erase as the laws say |
| PoolAllocator.MemoryPoolAllocator.Malloc | include/rapidjson/allocators.h:176-188 | a head chunk with room serves the request with its next bytes and nothing else changes; otherwise a new chunk in front does, of the usual capacity or the size asked if that is more; the block meets no other, and null is given exactly for nothing or when the base allocator has none |
| PoolAllocator.MemoryPoolAllocator.Realloc | include/rapidjson/allocators.h:191-222 | shrinking does nothing; the last block grows in place when there is room, even if the caller claims less than the block has; otherwise the contents are copied; no byte of any other block changes and all blocks stay apart |
| PoolAllocator.MemoryPoolAllocator.AddChunk | include/rapidjson/allocators.h:237-249 | a new chunk in front, without touching the others |
| PoolAllocator.MemoryPoolAllocator.Clear | include/rapidjson/allocators.h:145-153 | every chunk from the base allocator is given back once and none is lost; the user's buffer stays, empty |
| PoolAllocator.MemoryPoolAllocator.Size | include/rapidjson/allocators.h:168-173 | the used bytes add up, and never exceed the capacity |
| PoolAllocator.MemoryPoolAllocator.Capacity | include/rapidjson/allocators.h:158-163 | the capacities add up |
| PoolAllocator.MemoryPoolAllocator.OnBuffer | include/rapidjson/allocators.h:125-134 | the pool that starts on a user's buffer |
| PoolAllocator.Grow | include/rapidjson/allocators.h:205-212 | a block that, by the size claimed for it, ends where the head chunk is free does end there, and growing it meets no other block |
| PoolAllocator.Bump | include/rapidjson/allocators.h:185-187 | the next bytes of the head chunk meet no block in any chunk |
| PoolAllocator.AlignCoversIff | include/rapidjson/rapidjson.h:272-273 | rounding up covers the size exactly when it does not wrap |
| ContinuationRuns.ScheduledExactlyOnce | include/async++/task_base.h:111-142 | in every run of any number of threads, once all calls have returned, each continuation passed to `add_continuation` was scheduled exactly once, by the finisher in the order the list took them or by the thread that was refused, never both |
| ContinuationRuns.DestroyedCleanly | include/async++/continuation_vector.h:127-142 | when the task is destroyed, finished or not, each continuation was scheduled or let go exactly once and no vector is left allocated |
| ContinuationRuns.ScheduledAfterFinish | include/async++/task_base.h:111-142 | continuations are scheduled only by steps taken after the task was completed or canceled, and a refusal by the list implies that |
| ContinuationRuns.HistoryGrows | include/async++/continuation_vector.h:146-221 | a finished task stays finished, and what the list took or flushed is never taken back |
| ContinuationProgress.NeverStuck | include/async++/continuation_vector.h:146-221 | while a call has not returned some thread can take a step that brings it forward, other than a spurious failure: the mutex and the exchange loops cannot deadlock |
| ContinuationProgress.ForwardComesCloser | include/async++/continuation_vector.h:146-221 | every step that begins no new call and is no spurious failure goes down in a lexicographic order of four naturals |
| ContinuationProgress.NoEndlessChain | include/async++/continuation_vector.h:146-221 | such steps cannot follow one another for ever from any state of a run, so all calls return unless new ones keep coming or exchanges keep failing for no reason |
| ContinuationRuns.SwapSucceedsKeeps | include/async++/continuation_vector.h:173-184 | a successful exchange keeps the invariant: an inline continuation is only ever replaced by a vector that begins with it, so a vector cached before a failed exchange is still right |
| ContinuationRuns.PushKeeps | include/async++/continuation_vector.h:160-172 | a push under the mutex, after the lock flag was checked again, comes before any flush |
| ContinuationRuns.ClearVectorKeeps | include/async++/continuation_vector.h:205-215 | clearing loses nothing: all of it was flushed |
| TaskLife.DestroyedExactlyOnce | include/async++/task_base.h:394-584 | over every life path, run, throw, cancel, unwrap or drop, the function object is destroyed exactly once and never used afterwards, and so is each result or exception constructed |
| TaskLife.ReadsWhatWasWritten | include/async++/task_base.h:167-203 | the union is read only as the member last written: the result of a completed task, the exception of a canceled one, the scheduler of a queued continuation |
| TaskLife.EndsByFate | include/async++/task_base.h:394-584 | in every run a finished task is completed exactly if it was scheduled, its function returned, and its result was stored or the child task that it returned completed and could be copied; otherwise it is canceled with the exception of the first thing that went wrong |
| TaskLife.NeverStuck | include/async++/task_base.h:394-584 | until it has finished some statement of the task can be executed |
| TaskLife.EveryStatementCounts | include/async++/task_base.h:394-584 | each brings the end closer, and nine reach it |
| TaskLife.FinishedForGood | include/async++/task_base.h:137-142 | a finished task keeps its state and its union |
| BasicEvent.SetOnce | include/async++/task.h:147-169 | however setters race, at most one returns true, the event completes once with that one's value or with the exception its copy threw, and the others return false only because one has won |
| BasicEvent.SetForGood | include/async++/task.h:147-169 | a set event keeps its state and payload |
| BasicEvent.CallGoesOn | include/async++/task.h:147-169 | a thread in a call can always go on, and returns after at most four steps |
| WhenAll.SetOnceWithAllResults | include/async++/when_all_any.h:41-70 | in every interleaving of registration and completion the event is set at most once, never abandoned, after every continuation has let go, with the task of each one that ran in its slot; a freed state has set it exactly once |
| WhenAll.EveryRunDelivers | include/async++/when_all_any.h:171-199 | every run ends, after at most three steps for each task and five more, and one that can go no further has set the event exactly once |
| WhenAll.NeverUsedAfterDeletion | include/async++/when_all_any.h:171-199 | the reference count is the number of continuations that have not let go, and nothing touches the shared state once its destructor has begun |
| WhenAll.ProgressUntilFreed | include/async++/when_all_any.h:41-51 | until the state is freed some step is possible |
| RefCount.World.RemoveRef | include/async++/ref_count.h:50-56 | dropping references to an object, its members' destructors and theirs in turn, in any order: what ends is exactly the least set of objects that holds the object, if they were its last references, and every object that only members of the set hold; every other pointer and reference stays, and every count is again the number of references |
| RefCount.World.Delete | include/async++/ref_count.h:28-35 | deleting an object ends its members, and drops the reference of each |
| RefCount.FallsLeast | include/async++/ref_count.h:50-56 | that set is closed, and within every closed set |
| RefCount.RemovedOnce | include/async++/ref_count.h:50-56 | it determines the state left, so the order of destructors does not matter |
| RefCount.Survives | include/async++/ref_count.h:50-56 | another object survives exactly when it has a reference held by no pointer, or by one that is no member or a member of a survivor |
| RefCount.DroppedObject | include/async++/ref_count.h:121-125 | dropping a pointer's reference deletes its object exactly when it was the last, and otherwise only lowers the count |
| RefCount.World.CopyAssign | include/async++/ref_count.h:100-110 | goes without touching an ended pointer exactly when neither the source nor the destination is a member of what the reference dropped alone kept alive; then the reference is dropped, with all that goes with it, and the object of the source shared, which is not deleted on the way even if both pointers held it; a pointer assigned to itself ends up null |
| RefCount.World.MoveAssign | include/async++/ref_count.h:111-120 | the same condition; then the reference moves without changing the count, and the old one is dropped; moving a pointer onto itself leaves it null |
| RefCount.World.Reset | include/async++/ref_count.h:93-99 | drops the pointer's reference; goes without touching an ended pointer exactly when the pointer itself is no member of what that reference alone kept alive |
| RefCount.OnlyTheLast | include/async++/ref_count.h:93-120 | only a pointer that holds the last reference to its object undermines any, and only members of objects |
| RefCount.NextOfList | include/async++/ref_count.h:100-120 | `p = p->next` on a list, where the source goes with the first node |
| RefCount.NextButOne | include/async++/ref_count.h:100-120 | `p = p->next->next`, where it goes with a node that only the first kept alive |
| RefCount.SelfCycle | include/async++/ref_count.h:93-120 | a node that points to itself, where the destination goes with its own object, for `= nullptr` too |
| RefCount.CycleOfTwo | include/async++/ref_count.h:93-120 | the same for a cycle of two nodes |
| RefCount.World.Own | include/async++/ref_count.h:75-76 | the constructor from an object takes over a reference that is held by nobody |
| RefCount.World.Copy | include/async++/ref_count.h:82-87 | one more reference to the same object |
| RefCount.World.Move | include/async++/ref_count.h:88-92 | the reference changes hands and the count stays |
| RefCount.World.Destroy | include/async++/ref_count.h:121-125 | a pointer that is no member drops its reference and ends |
| RefCount.World.Release | include/async++/ref_count.h:139-144 | gives the reference up without dropping it |
| Partitions.Split | include/async++/partitioner.h:70-131 | both partitioners cut a range into two parts that are it, each shorter than the whole when the second is not empty, and nearly equal; they cut exactly when the range is longer than its grain and one and, for the automatic one, it has more than one thread, and then the threads are halved |
| Partitions.ParallelMapReduce | include/async++/parallel_reduce.h:40-57 | for any range, any grain and any choice of threads the result is the sequential fold, if `reduce` is associative and `init` is neutral on the right |
| Partitions.FoldFrom | include/async++/parallel_reduce.h:40-57 | folding on from a value is reducing it with a fold of its own |
| Partitions.ParallelFor | include/async++/parallel_for.h:31-47 | the calls made, in whatever order the threads interleave, are one for each position of the range, and the recursion ends for every grain, zero included |
| Partitions.EachPositionOnce | include/async++/parallel_for.h:31-47 | each position of the range is visited exactly once and no other is |
| Partitions.AutoGrainSize | include/async++/partitioner.h:43-52 | an eighth of each thread's share, but at least 1 and at most 2048 |
| Utf8.DecodeIsWellFormed | include/rapidjson/encodings.h:146-176 | one decoding step succeeds exactly on a well-formed sequence of section 4 of RFC 3629 inside the input and yields a scalar value whose encoding stands there |
| Utf8.DecodeEncode | include/rapidjson/encodings.h:102-121 | decoding the encoding of a scalar value gives it back |
| Utf8.DecodeAllAccepts | include/rapidjson/encodings.h:146-176 | repeated decoding succeeds exactly on the concatenations of well-formed sequences |
| Utf8.EncodeDecodeAll | include/rapidjson/encodings.h:102-176 | encoding what was decoded reproduces the bytes |
| Utf8.DecodeEncodeAll | include/rapidjson/encodings.h:102-176 | decoding what was encoded reproduces any sequence of scalar values |
| Utf8.Validate | include/rapidjson/encodings.h:179-202 | validating one sequence decides as decoding does and copies the bytes it takes |
| Utf8.ValidateAll | include/rapidjson/encodings.h:179-202 | repeated validation accepts exactly UTF-8 and copies it unchanged |
| Utf8.Masks | include/rapidjson/encodings.h:204-220 | the byte classes and masks pick out exactly the ranges of the grammar |
| Base64.Encode | include/query/bin2ascii.h:112-139 | the encoder's loop computes the groups of section 4 of RFC 4648, with or without padding |
| Base64.DigitIsTable | include/query/bin2ascii.h:112-139 | the digits are the characters of table 1 of section 4 of RFC 4648, and the decoder gives each its place there |
| Base64.LookupIsTable | include/query/bin2ascii.h:146-189 | the decoder's table has those characters and the padding, and no other |
| Base64.DecodeEncode | include/query/bin2ascii.h:112-189 | decoding an encoding gives back any byte string |
| Base64.EncodedLength | include/query/bin2ascii.h:112-139 | four characters for every three bytes begun; stripped, four thirds rounded up |
| Base64.Padding | include/query/bin2ascii.h:134-137 | the padded form is the stripped form and the padding of section 3.2 of RFC 4648 |
| Base64.Decode | include/query/bin2ascii.h:146-189 | accepts exactly whole groups of characters of its table, reports the size or the first bad group otherwise, and yields the bytes of the groups |
| Base64.Strip | include/query/bin2ascii.h:88-92 | takes off exactly the padding, of an encoding leaving the stripped encoding; it reads past the beginning exactly of a string that is not empty and only padding |
| Base64.Sanitize | include/query/bin2ascii.h:100-104 | fills up to a multiple of four with at most three padding characters |
| Base64.EncodeStrip | include/query/bin2ascii.h:141-144 | the stripped encoding |
| Base64.StripEncoded | include/query/bin2ascii.h:88-92 | whatever ends in no padding and becomes an encoding by padding is the stripped encoding |
| Base64.SanitizeDecode | include/query/bin2ascii.h:191-196 | gives back the bytes of every stripped encoding |
| ScopeRunner.CountIsLiveLocks | include/http/Utility.hpp:535-581 | in every run a count that is not negative is the number of live locks, and a negative one, or a `stop` that has returned, means that none is alive |
| ScopeRunner.StoppedForGood | include/http/Utility.hpp:557-580 | once `stop` has returned the count stays at minus one, no lock is ever alive again, and every `continue_lock` that ends gives null, even one that began before |
| ScopeRunner.NullOnlyAfterStop | include/http/Utility.hpp:557-580 | in every run `continue_lock` gives null only after the exchange of some `stop` has succeeded |
| ScopeRunner.ContinueLockReturns | include/http/Utility.hpp:557-567 | undisturbed it returns after two steps, with a lock exactly when the count is not negative |
| ScopeRunner.StopReturnsIff | include/http/Utility.hpp:570-580 | a `stop` in its loop can return exactly when no lock is alive |

## Left out

- Floating point: double accumulation, `Strtod`, NaN and infinities, and printing doubles; doubles are opaque reals, and equality and the closed round trip are about trees without them.
- SIMD scanning, in-situ parsing, numbers kept as strings, 48-bit pointer packing, and encodings other than UTF-8.
- Decimal.DocumentRoundTrip: integers are those of 64 bits, the only ones a value can hold, and trees have no doubles.
- ReaderEquivalence.ParsersAgree: scanning is taken to leave the parse stack as it found it. A string of 2^32 - 1 units or more does not, and then the iterative parser's frames lie below what stayed behind; what it does there is not stated. `Decimal.DocumentRoundTrip` names the iterative parser for shorter strings only.
- Decimal.CircleIff: a string buffer may have more room left than was reserved; `StringBuffer.StringBuffer.WriteString` says exactly when one token fits, and the circle takes the stream without such room.
- Numbers.ParseNumber: stops where the double path begins.
- Dom.AcceptBuilds: the handler takes every event; that `Accept` stops at a refusal is not modelled.
- The pretty writer's format option, which its constructor leaves unset, is a parameter; validation of encodings and output to other encodings in the base class are left out.
- PointerTree.CreateIn: the tree is a value replaced along a cursor, not a structure updated in place; references to the created value are locations, and allocation failure and the limits on array sizes are left out. The same holds of `Get` and `EraseIn`.
- PointerParser.GenericPointer.constructor: the length of a name is kept in 32 bits; what such a token denotes when the name is longer is not stated. Copying and appending pointers is left out.
- PointerParser.GenericPointer.Stringify: for names whose length fits 32 bits; what was printed before a failure is not stated. A lead byte cut off by the end of a name is followed by a NUL here, while the source's unbounded stream goes on to read past the terminating NUL; both refuse the name.
- PoolAllocator.MemoryPoolAllocator.Malloc: sizes are those that do not wrap in 64 bits; `AlignCoversIff` says which do in rounding. The base allocator is a parameter that returns null or a fresh region. Alignment is the 64-bit one.
- ValueEquality.EqualIsEquivalence: values without doubles; comparing an integer with a double rounds, which is not transitive.
- ContinuationRuns.ScheduledExactlyOnce: accesses are sequentially consistent steps except the relaxed load of the task state; fences, the thread pool, `wait`, and what a scheduler does with a continuation are not modelled. Releasing a mutex and freeing an unused vector are one step, as are clearing a vector and releasing its mutex.
- WhenAll.SetOnceWithAllResults: a continuation dropped without running leaves its slot empty, as in the code; the exception paths of registration are left out, and so is `when_any`, whose result may be moved out while registration still writes it.
- TaskLife.DestroyedExactlyOnce: one task at a time; who holds references to it is not modelled, only when the code may delete it.
- Partitions.ParallelMapReduce: `map` and `reduce` are pure functions, and tasks that throw are left out.
- Partitions.ParallelFor: the function called is represented by the trace of its calls.
- RefCount.World.RemoveRef: the atomic counter is a plain one; races on it appear in `WhenAll`. Addresses come from an allocator that is a parameter, and a pointer inside an object is placed there after the object is made.
- RefCount.World.CopyAssign: where an ended pointer would be read or written the model stops; what the source does from there on is not stated. The same holds of `MoveAssign` and `Reset`.
- `bin2hex` and `hex2bin`, where the sign of `char` matters.
- ScopeRunner.StoppedForGood: a thread identity stands for one lock at a time.
- The HTTP server and client, the query services, the endpoints, cryptography and scripts: input and output around stores that are not part of this model.

/** Equality of DOM values (`operator==`): it is agreement on what the values mean, as long
  * as no object repeats a name. */
module ValueEquality {
  import opened Dom
  import opened PointerTree
  import opened IntegerFlags

  /** No double inside. */
  predicate DoubleFree(v: Value) {
    match v
    case VDouble(_) => false
    case VObject(ms) => forall k :: 0 <= k < |ms| ==> DoubleFree(ms[k].value)
    case VArray(es) => forall k :: 0 <= k < |es| ==> DoubleFree(es[k])
    case _ => true
  }

  predicate DistinctNames(ms: seq<Member>) {
    forall j, k :: 0 <= j < k < |ms| ==> ms[j].name != ms[k].name
  }

  /** No object in the value repeats a name. */
  predicate DuplicateFree(v: Value) {
    match v
    case VObject(ms) => DistinctNames(ms) && forall k :: 0 <= k < |ms| ==> DuplicateFree(ms[k].value)
    case VArray(es) => forall k :: 0 <= k < |es| ==> DuplicateFree(es[k])
    case _ => true
  }

  /** What a number is compared as when one side is a double; `round` is the conversion of an
    * integer to the nearest double. */
  function AsDouble(round: int -> real, v: Value): real
    requires v.VInteger? || v.VDouble?
  {
    if v.VInteger? then round(v.n) else v.d
  }

  /** `operator==`. The member loop goes over the left side only. */
  predicate Equal(round: int -> real, a: Value, b: Value)
    decreases a
  {
    match a
    case VObject(ms) =>
      b.VObject? && |ms| == |b.members| &&
      forall k :: 0 <= k < |ms| ==>
        var m := FindMember(b.members, ms[k].name);
        m < |b.members| && Equal(round, ms[k].value, b.members[m].value)
    case VArray(es) =>
      b.VArray? && |es| == |b.elements| && forall k :: 0 <= k < |es| ==> Equal(round, es[k], b.elements[k])
    case VString(s) => b.VString? && s == b.s
    case VInteger(n) =>
      if b.VInteger? then Word(n) == Word(b.n) else b.VDouble? && AsDouble(round, a) == AsDouble(round, b)
    case VDouble(_) => (b.VInteger? || b.VDouble?) && AsDouble(round, a) == AsDouble(round, b)
    case VBool(x) => b.VBool? && x == b.b
    case VNull => b.VNull?
  }

  /** What a value means: an object is the function from its names to their meanings. */
  datatype Meaning =
    | MNull
    | MBool(b: bool)
    | MWord(n: int)
    | MString(s: string)
    | MObject(members: map<string, Meaning>)
    | MArray(elements: seq<Meaning>)

  function MeaningOf(v: Value): Meaning
    decreases v
  {
    match v
    case VNull => MNull
    case VBool(b) => MBool(b)
    case VInteger(n) => MWord(Word(n))
    case VDouble(_) => MNull
    case VString(s) => MString(s)
    case VObject(ms) => MObject(MembersMeaning(ms))
    case VArray(es) => MArray(ElementsMeaning(es))
  }

  /** Earlier members hide later ones of the same name. */
  function MembersMeaning(ms: seq<Member>): map<string, Meaning>
    decreases ms
  {
    if ms == [] then map[] else MembersMeaning(ms[1..])[ms[0].name := MeaningOf(ms[0].value)]
  }

  function ElementsMeaning(es: seq<Value>): (r: seq<Meaning>)
    ensures |r| == |es|
    decreases es
  {
    if es == [] then [] else [MeaningOf(es[0])] + ElementsMeaning(es[1..])
  }

  lemma {:induction false} ElementMeaning(es: seq<Value>, k: nat)
    requires k < |es|
    ensures ElementsMeaning(es)[k] == MeaningOf(es[k])
  {
    if k > 0 {
      ElementMeaning(es[1..], k - 1);
    }
  }

  /** The meaning of an object maps exactly its names, each to the meaning of the first
    * member that has it. */
  lemma {:induction false} MemberMeaning(ms: seq<Member>, name: string)
    ensures var m := FindMember(ms, name);
            if m < |ms| then name in MembersMeaning(ms) && MembersMeaning(ms)[name] == MeaningOf(ms[m].value)
            else name !in MembersMeaning(ms)
  {
    if ms != [] && ms[0].name != name {
      MemberMeaning(ms[1..], name);
    }
  }

  /** An object with distinct names has as many of them as members. */
  lemma {:induction false} NameCount(ms: seq<Member>)
    requires DistinctNames(ms)
    ensures |MembersMeaning(ms).Keys| == |ms|
  {
    if ms != [] {
      assert DistinctNames(ms[1..]);
      NameCount(ms[1..]);
      MemberMeaning(ms[1..], ms[0].name);
      var m := FindMember(ms[1..], ms[0].name);
      assert forall j :: 0 <= j < |ms[1..]| ==> ms[1..][j].name != ms[0].name;
      assert MembersMeaning(ms).Keys == MembersMeaning(ms[1..]).Keys + {ms[0].name};
    }
  }

  lemma FindSelf(ms: seq<Member>, k: nat)
    requires DistinctNames(ms) && k < |ms|
    ensures FindMember(ms, ms[k].name) == k
  {
    FirstMatch(ms, ms[k].name, k);
  }

  lemma {:induction false} SubsetOfSameSize<T>(a: set<T>, b: set<T>)
    requires a <= b && |a| == |b|
    ensures a == b
  {
    if a != b {
      var x :| x in b && x !in a;
      SubsetSize(a, b - {x});
    }
  }

  lemma {:induction false} SubsetSize<T>(a: set<T>, b: set<T>)
    requires a <= b
    ensures |a| <= |b|
  {
    if a != {} {
      var x :| x in a;
      SubsetSize(a - {x}, b - {x});
    }
  }

  /** On values without repeated names, `operator==` decides whether both sides mean the same. */
  lemma {:induction false} EqualIffSameMeaning(round: int -> real, a: Value, b: Value)
    requires DoubleFree(a) && DoubleFree(b) && DuplicateFree(a) && DuplicateFree(b)
    ensures Equal(round, a, b) <==> MeaningOf(a) == MeaningOf(b)
    decreases a
  {
    if a.VObject? && b.VObject? {
      ObjectsEqual(round, a, b);
    } else if a.VArray? && b.VArray? {
      ArraysEqual(round, a, b);
    }
  }

  lemma {:induction false} ArraysEqual(round: int -> real, a: Value, b: Value)
    requires a.VArray? && b.VArray?
    requires DoubleFree(a) && DoubleFree(b) && DuplicateFree(a) && DuplicateFree(b)
    ensures Equal(round, a, b) <==> MeaningOf(a) == MeaningOf(b)
    decreases a, 0
  {
    var es, fs := a.elements, b.elements;
    if |es| == |fs| {
      forall k | 0 <= k < |es|
        ensures Equal(round, es[k], fs[k]) <==> ElementsMeaning(es)[k] == ElementsMeaning(fs)[k]
      {
        EqualIffSameMeaning(round, es[k], fs[k]);
        ElementMeaning(es, k);
        ElementMeaning(fs, k);
      }
    }
  }

  lemma {:induction false} ObjectsEqual(round: int -> real, a: Value, b: Value)
    requires a.VObject? && b.VObject?
    requires DoubleFree(a) && DoubleFree(b) && DuplicateFree(a) && DuplicateFree(b)
    ensures Equal(round, a, b) <==> MeaningOf(a) == MeaningOf(b)
    decreases a, 0
  {
    var ms, ns := a.members, b.members;
    NameCount(ms);
    NameCount(ns);
    forall k | 0 <= k < |ms|
      ensures MemberAgrees(ms, ns, k) <==>
        var m := FindMember(ns, ms[k].name);
        m < |ns| && Equal(round, ms[k].value, ns[m].value)
    {
      var m := FindMember(ns, ms[k].name);
      FindSelf(ms, k);
      MemberMeaning(ms, ms[k].name);
      MemberMeaning(ns, ms[k].name);
      if m < |ns| {
        EqualIffSameMeaning(round, ms[k].value, ns[m].value);
      }
    }
    if |ms| == |ns| && forall k :: 0 <= k < |ms| ==> MemberAgrees(ms, ns, k) {
      SameMembers(ms, ns);
    }
    if MembersMeaning(ms) == MembersMeaning(ns) {
      forall k | 0 <= k < |ms| ensures MemberAgrees(ms, ns, k) {
        FindSelf(ms, k);
        MemberMeaning(ms, ms[k].name);
      }
    }
  }

  /** The `k`th member of `ms` means the same in `ns`. */
  predicate MemberAgrees(ms: seq<Member>, ns: seq<Member>, k: nat)
    requires k < |ms|
  {
    var name := ms[k].name;
    name in MembersMeaning(ns) && name in MembersMeaning(ms) && MembersMeaning(ns)[name] == MembersMeaning(ms)[name]
  }

  /** The pigeonhole step: members that all agree, as many as on the other side, are all. */
  lemma SameMembers(ms: seq<Member>, ns: seq<Member>)
    requires DistinctNames(ms) && DistinctNames(ns) && |ms| == |ns|
    requires forall k :: 0 <= k < |ms| ==> MemberAgrees(ms, ns, k)
    ensures MembersMeaning(ms) == MembersMeaning(ns)
  {
    var f, g := MembersMeaning(ms), MembersMeaning(ns);
    forall name | name in f ensures name in g && g[name] == f[name] {
      MemberMeaning(ms, name);
      assert MemberAgrees(ms, ns, FindMember(ms, name));
    }
    NameCount(ms);
    NameCount(ns);
    assert f.Keys <= g.Keys;
    SubsetOfSameSize(f.Keys, g.Keys);
  }

  /** `operator==` is an equivalence on values without repeated names. */
  lemma EqualIsEquivalence(round: int -> real, a: Value, b: Value, c: Value)
    requires DoubleFree(a) && DoubleFree(b) && DoubleFree(c)
    requires DuplicateFree(a) && DuplicateFree(b) && DuplicateFree(c)
    ensures Equal(round, a, a)
    ensures Equal(round, a, b) <==> Equal(round, b, a)
    ensures Equal(round, a, b) && Equal(round, b, c) ==> Equal(round, a, c)
  {
    EqualIffSameMeaning(round, a, a);
    EqualIffSameMeaning(round, a, b);
    EqualIffSameMeaning(round, b, a);
    EqualIffSameMeaning(round, b, c);
    EqualIffSameMeaning(round, a, c);
  }

  /** The order of the members of an object does not matter. */
  lemma MemberOrderIsIrrelevant(round: int -> real, ms: seq<Member>, ns: seq<Member>)
    requires multiset(ms) == multiset(ns) && DoubleFree(VObject(ms)) && DuplicateFree(VObject(ms))
    requires DoubleFree(VObject(ns)) && DuplicateFree(VObject(ns))
    ensures Equal(round, VObject(ms), VObject(ns))
  {
    SizeOfMultiset(ms);
    SizeOfMultiset(ns);
    forall k | 0 <= k < |ms|
      ensures var m := FindMember(ns, ms[k].name); m < |ns| && Equal(round, ms[k].value, ns[m].value)
    {
      assert ms[k] in multiset(ns);
      var m :| 0 <= m < |ns| && ns[m] == ms[k];
      FindSelf(ns, m);
      EqualIffSameMeaning(round, ms[k].value, ms[k].value);
    }
  }

  lemma SizeOfMultiset(ms: seq<Member>)
    ensures |multiset(ms)| == |ms|
  {
  }

  /** Members of one name all mean the same. */
  ghost predicate Consistent(ms: seq<Member>) {
    forall j, k :: 0 <= j < k < |ms| && ms[j].name == ms[k].name ==> MeaningOf(ms[j].value) == MeaningOf(ms[k].value)
  }

  /** The values of the members are double-free and no object inside them repeats a name; the
    * members themselves may. */
  predicate PlainMembers(ms: seq<Member>) {
    forall k :: 0 <= k < |ms| ==> DoubleFree(ms[k].value) && DuplicateFree(ms[k].value)
  }

  /** The documentation says that an object which repeats a name equals nothing. Exactly: on
    * the left it equals something, and then itself too, if and only if its members of one
    * name all mean the same. */
  lemma EqualsSomethingIff(round: int -> real, ms: seq<Member>)
    requires PlainMembers(ms)
    ensures Equal(round, VObject(ms), VObject(ms)) <==> Consistent(ms)
    ensures forall ns :: PlainMembers(ns) && Equal(round, VObject(ms), VObject(ns)) ==> Consistent(ms)
  {
    forall ns | PlainMembers(ns) && Equal(round, VObject(ms), VObject(ns))
      ensures Consistent(ms)
    {
      EqualsSomething(round, ms, ns);
    }
    if Consistent(ms) {
      forall k | 0 <= k < |ms|
        ensures var m := FindMember(ms, ms[k].name); m < |ms| && Equal(round, ms[k].value, ms[m].value)
      {
        var m := FindMember(ms, ms[k].name);
        assert m <= k;
        EqualIffSameMeaning(round, ms[k].value, ms[m].value);
      }
    }
  }

  lemma EqualsSomething(round: int -> real, ms: seq<Member>, ns: seq<Member>)
    requires PlainMembers(ms) && PlainMembers(ns) && Equal(round, VObject(ms), VObject(ns))
    ensures Consistent(ms)
  {
    forall k | 0 <= k < |ms|
      ensures var m := FindMember(ns, ms[k].name);
              m < |ns| && MeaningOf(ms[k].value) == MeaningOf(ns[m].value)
    {
      EqualIffSameMeaning(round, ms[k].value, ns[FindMember(ns, ms[k].name)].value);
    }
  }

  function Copies(m: Member, n: nat): (ms: seq<Member>)
    ensures |ms| == n && forall k :: 0 <= k < n ==> ms[k] == m
  {
    if n == 0 then [] else [m] + Copies(m, n - 1)
  }

  /** A value to stand on the left of `v`: in its objects, copies of the first member. */
  function LeftOf(v: Value): (a: Value)
    decreases v
  {
    match v
    case VObject(ms) => if ms == [] then v else VObject(Copies(Member(ms[0].name, LeftOf(ms[0].value)), |ms|))
    case VArray(es) => VArray(seq(|es|, k requires 0 <= k < |es| => LeftOf(es[k])))
    case _ => v
  }

  /** On the right every double-free value equals something, whatever names its objects repeat: only the
    * first member of each name is looked at. */
  lemma {:induction false} EverythingEqualsOnTheRight(round: int -> real, v: Value)
    requires DoubleFree(v)
    ensures DoubleFree(LeftOf(v)) && Equal(round, LeftOf(v), v)
    decreases v
  {
    match v
    case VObject(ms) =>
      if ms != [] {
        EverythingEqualsOnTheRight(round, ms[0].value);
        assert FindMember(ms, ms[0].name) == 0;
      }
    case VArray(es) =>
      forall k | 0 <= k < |es| ensures DoubleFree(LeftOf(es[k])) && Equal(round, LeftOf(es[k]), es[k]) {
        EverythingEqualsOnTheRight(round, es[k]);
      }
    case _ =>
  }

  // ---- What can stand on the left

  function Max(a: nat, b: nat): nat { if a < b then b else a }

  function Depth(v: Value): nat
    decreases v, 0
  {
    match v
    case VObject(ms) => 1 + MembersDepth(ms)
    case VArray(es) => 1 + ElementsDepth(es)
    case _ => 0
  }

  function MembersDepth(ms: seq<Member>): (d: nat)
    ensures forall m | m in ms :: Depth(m.value) <= d
    decreases ms, 1
  {
    if ms == [] then 0 else Max(Depth(ms[0].value), MembersDepth(ms[1..]))
  }

  function ElementsDepth(es: seq<Value>): (d: nat)
    ensures forall e | e in es :: Depth(e) <= d
    decreases es, 1
  {
    if es == [] then 0 else Max(Depth(es[0]), ElementsDepth(es[1..]))
  }

  /** The names of all the objects, and the values that they have at a name. */
  function NamesOf(xs: set<Value>): set<string> {
    set x, k | x in xs && x.VObject? && 0 <= k < |x.members| :: x.members[k].name
  }

  function ValuesAt(xs: set<Value>, name: string): set<Value> {
    set x, k | x in xs && x.VObject? && 0 <= k < |x.members| && x.members[k].name == name :: x.members[k].value
  }

  /** The values that the arrays have at an index. */
  function Column(xs: set<Value>, k: nat): set<Value> {
    set x | x in xs && x.VArray? && k < |x.elements| :: x.elements[k]
  }

  predicate Alike(round: int -> real, x: Value, z: Value) {
    match x
    case VObject(ms) => z.VObject? && |z.members| == |ms|
    case VArray(es) => z.VArray? && |z.elements| == |es|
    case _ => Equal(round, x, z)
  }

  ghost predicate Within(xs: set<Value>, d: nat) { forall x | x in xs :: DoubleFree(x) && Depth(x) <= d }

  /** The values could all equal one: scalars are the same; arrays have one length, and joinable
    * elements; objects have one number of members, no more names among them than that, and joinable
    * values at each name. */
  ghost predicate Joinable(round: int -> real, xs: set<Value>, d: nat)
    requires Within(xs, d)
    decreases d, 1
  {
    && (forall x, z | x in xs && z in xs :: Alike(round, x, z))
    && (forall x | x in xs && x.VObject? :: |NamesOf(xs)| <= |x.members|)
    && (forall name | name in NamesOf(xs) :: ValuesJoinable(round, xs, name, d))
    && (forall x, k: nat | x in xs && x.VArray? && k < |x.elements| :: ColumnJoinable(round, xs, k, d))
  }

  ghost predicate ValuesJoinable(round: int -> real, xs: set<Value>, name: string, d: nat)
    requires Within(xs, d)
    decreases d, 0
  {
    d > 0 && Joinable(round, ValuesAt(xs, name), d - 1)
  }

  ghost predicate ColumnJoinable(round: int -> real, xs: set<Value>, k: nat, d: nat)
    requires Within(xs, d)
    decreases d, 0
  {
    d > 0 && Joinable(round, Column(xs, k), d - 1)
  }

  ghost predicate AllEqual(round: int -> real, xs: set<Value>, y: Value) {
    forall x | x in xs :: Equal(round, x, y)
  }

  lemma {:induction false} EqualsAreJoinable(round: int -> real, xs: set<Value>, d: nat, y: Value)
    requires Within(xs, d) && DoubleFree(y) && AllEqual(round, xs, y)
    ensures Joinable(round, xs, d)
    decreases d
  {
    hide DoubleFree, NamesOf, ValuesAt, Column, Depth, Within, AllEqual, Alike, Equal;
    forall x, z | x in xs && z in xs ensures Alike(round, x, z) {
      WithinFree(xs, d, x);
      WithinFree(xs, d, z);
      EqualsAlike(round, xs, x, z, y);
    }
    forall name | name in NamesOf(xs) ensures ValuesJoinable(round, xs, name, d) {
      var c := ValueAt(round, xs, name, d, y);
      EqualsAreJoinable(round, ValuesAt(xs, name), d - 1, c);
    }
    forall x, k: nat | x in xs && x.VArray? && k < |x.elements| ensures ColumnJoinable(round, xs, k, d) {
      var c := ElementAt(round, xs, x, k, d, y);
      EqualsAreJoinable(round, Column(xs, k), d - 1, c);
    }
    forall x | x in xs && x.VObject? ensures |NamesOf(xs)| <= |x.members| {
      EqualsSize(round, xs, x, y);
      NamesFew(round, xs, y.members);
    }
  }

  lemma EqualsSize(round: int -> real, xs: set<Value>, x: Value, y: Value)
    requires AllEqual(round, xs, y) && x in xs && x.VObject?
    ensures y.VObject? && |y.members| == |x.members|
  {
  }

  lemma EqualsAlike(round: int -> real, xs: set<Value>, x: Value, z: Value, y: Value)
    requires AllEqual(round, xs, y) && x in xs && z in xs && DoubleFree(x) && DoubleFree(z) && DoubleFree(y)
    ensures Alike(round, x, z)
  {
  }

  lemma ValueAt(round: int -> real, xs: set<Value>, name: string, d: nat, y: Value) returns (c: Value)
    requires Within(xs, d) && DoubleFree(y) && AllEqual(round, xs, y) && name in NamesOf(xs)
    ensures d > 0 && Within(ValuesAt(xs, name), d - 1) && DoubleFree(c) && AllEqual(round, ValuesAt(xs, name), c)
  {
    ValuesWithin(xs, name, d);
    c := y.members[FindMember(y.members, name)].value;
  }

  lemma ElementAt(round: int -> real, xs: set<Value>, x: Value, k: nat, d: nat, y: Value) returns (c: Value)
    requires Within(xs, d) && DoubleFree(y) && AllEqual(round, xs, y) && x in xs && x.VArray? && k < |x.elements|
    ensures d > 0 && Within(Column(xs, k), d - 1) && DoubleFree(c) && AllEqual(round, Column(xs, k), c)
  {
    ColumnWithin(xs, k, d);
    c := y.elements[k];
  }

  lemma {:induction false} NamesFew(round: int -> real, xs: set<Value>, ns: seq<Member>)
    requires AllEqual(round, xs, VObject(ns))
    ensures |NamesOf(xs)| <= |ns|
  {
    var names := set k | 0 <= k < |ns| :: ns[k].name;
    NamesAtMost(ns);
    forall name | name in NamesOf(xs) ensures name in names {
      var m := FindMember(ns, name);
      assert ns[m].name in names;
    }
    Fewer(NamesOf(xs), names);
  }

  lemma {:induction false} NamesAtMost(ns: seq<Member>)
    ensures |set k | 0 <= k < |ns| :: ns[k].name| <= |ns|
  {
    if ns != [] {
      NamesAtMost(ns[1..]);
      var rest := set k | 0 <= k < |ns[1..]| :: ns[1..][k].name;
      var all := set k | 0 <= k < |ns| :: ns[k].name;
      forall name | name in all ensures name in rest + {ns[0].name} {
        var k :| 0 <= k < |ns| && ns[k].name == name;
        if k > 0 { assert ns[1..][k - 1].name == name; }
      }
      Fewer(all, rest + {ns[0].name});
    }
  }

  lemma Fewer<T>(a: set<T>, b: set<T>)
    requires a <= b
    ensures |a| <= |b|
  {
    assert b == a + (b - a);
  }

  /** A joinable set of values does equal one. */
  lemma {:induction false} JoinableEqual(round: int -> real, xs: set<Value>, d: nat) returns (y: Value)
    requires Within(xs, d) && Joinable(round, xs, d)
    ensures DoubleFree(y) && AllEqual(round, xs, y)
    decreases d, 1
  {
    hide Within, Equal, NamesOf, ValuesAt, Column, Depth;
    if xs == {} { return VNull; }
    var x :| x in xs;
    forall z | z in xs ensures Alike(round, x, z) && Alike(round, z, x) { }
    if x.VObject? {
      var at := JoinNames(round, xs, d, NamesOf(xs));
      if x.members == [] {
        y := VObject([]);
        EmptyJoin(round, xs);
      } else {
        NamesOnce(xs, x);
        var ns := Listed(at, |x.members|);
        y := VObject(ns);
        ObjectsJoin(round, xs, at, ns);
        ListedDoubleFree(at, ns);
      }
    } else if x.VArray? {
      var fs := JoinColumns(round, xs, d, |x.elements|);
      y := VArray(fs);
      forall z | z in xs ensures Equal(round, z, y) { ArraysJoin(round, xs, fs, z); }
    } else {
      y := x;
      WithinFree(xs, d, x);
    }
  }

  lemma ValuesWithin(xs: set<Value>, name: string, d: nat)
    requires Within(xs, d) && d > 0
    ensures Within(ValuesAt(xs, name), d - 1)
  {
  }

  lemma ColumnWithin(xs: set<Value>, k: nat, d: nat)
    requires Within(xs, d) && d > 0
    ensures Within(Column(xs, k), d - 1)
  {
  }

  lemma WithinFree(xs: set<Value>, d: nat, x: Value)
    requires Within(xs, d) && x in xs
    ensures DoubleFree(x)
  {
  }

  lemma NamesOnce(xs: set<Value>, x: Value)
    requires x in xs && x.VObject? && x.members != []
    ensures |NamesOf(xs)| > 0
  {
    assert x.members[0].name in NamesOf(xs);
  }

  lemma EmptyJoin(round: int -> real, xs: set<Value>)
    requires forall x | x in xs :: x.VObject? && x.members == []
    ensures AllEqual(round, xs, VObject([]))
  {
  }

  lemma ListedDoubleFree(at: map<string, Value>, ns: seq<Member>)
    requires forall name | name in at :: DoubleFree(at[name])
    requires ListedAs(at, ns)
    ensures DoubleFree(VObject(ns))
  {
  }

  /** The members of the joint object hold what the names were joined to. */
  ghost predicate ListedAs(at: map<string, Value>, ns: seq<Member>) {
    && (forall name | name in at :: FindMember(ns, name) < |ns|)
    && (forall k | 0 <= k < |ns| :: ns[k].name in at && ns[k].value == at[ns[k].name])
  }

  lemma ObjectsJoin(round: int -> real, xs: set<Value>, at: map<string, Value>, ns: seq<Member>)
    requires forall x | x in xs :: x.VObject? && |x.members| == |ns|
    requires at.Keys == NamesOf(xs) && ListedAs(at, ns)
    requires forall name | name in at :: AllEqual(round, ValuesAt(xs, name), at[name])
    ensures AllEqual(round, xs, VObject(ns))
  {
    hide Equal, NamesOf, ValuesAt, ListedAs;
    forall x | x in xs ensures Equal(round, x, VObject(ns)) {
      forall k | 0 <= k < |x.members| ensures MemberEqual(round, x.members[k], ns) {
        MemberJoins(round, xs, x, k, at, ns);
      }
      MembersEqual(round, x.members, ns);
    }
  }

  predicate MemberEqual(round: int -> real, m: Member, ns: seq<Member>) {
    var k := FindMember(ns, m.name);
    k < |ns| && Equal(round, m.value, ns[k].value)
  }

  lemma MembersEqual(round: int -> real, ms: seq<Member>, ns: seq<Member>)
    requires |ms| == |ns| && forall k | 0 <= k < |ms| :: MemberEqual(round, ms[k], ns)
    ensures Equal(round, VObject(ms), VObject(ns))
  {
    forall k | 0 <= k < |ms|
      ensures var m := FindMember(ns, ms[k].name); m < |ns| && Equal(round, ms[k].value, ns[m].value)
    {
      assert MemberEqual(round, ms[k], ns);
    }
  }

  lemma MemberJoins(round: int -> real, xs: set<Value>, x: Value, k: nat, at: map<string, Value>, ns: seq<Member>)
    requires x in xs && x.VObject? && k < |x.members| && at.Keys == NamesOf(xs) && ListedAs(at, ns)
    requires forall name | name in at :: AllEqual(round, ValuesAt(xs, name), at[name])
    ensures MemberEqual(round, x.members[k], ns)
  {
    hide Equal;
    var name := x.members[k].name;
    assert name in NamesOf(xs) && x.members[k].value in ValuesAt(xs, name);
  }

  lemma ArraysJoin(round: int -> real, xs: set<Value>, fs: seq<Value>, z: Value)
    requires z in xs && z.VArray? && |z.elements| == |fs|
    requires forall k | 0 <= k < |fs| :: AllEqual(round, Column(xs, k), fs[k])
    ensures Equal(round, z, VArray(fs))
  {
    forall k | 0 <= k < |fs| ensures Equal(round, z.elements[k], fs[k]) {
      assert z.elements[k] in Column(xs, k);
    }
  }

  lemma {:induction false} JoinNames(round: int -> real, xs: set<Value>, d: nat, names: set<string>) returns (at: map<string, Value>)
    requires Within(xs, d) && Joinable(round, xs, d) && names <= NamesOf(xs)
    ensures at.Keys == names
    ensures forall name | name in names :: DoubleFree(at[name]) && AllEqual(round, ValuesAt(xs, name), at[name])
    decreases d, 0, |names|
  {
    hide Equal, DoubleFree, NamesOf, AllEqual, Depth, Alike, ValuesAt, Column;
    at := map[];
    if names != {} {
      var name :| name in names;
      assert ValuesJoinable(round, xs, name, d);
      ValuesWithin(xs, name, d);
      var y := JoinableEqual(round, ValuesAt(xs, name), d - 1);
      at := JoinNames(round, xs, d, names - {name});
      at := at[name := y];
    }
  }

  lemma {:induction false} JoinColumns(round: int -> real, xs: set<Value>, d: nat, n: nat) returns (fs: seq<Value>)
    requires Within(xs, d) && Joinable(round, xs, d) && forall x | x in xs :: x.VArray? && n <= |x.elements|
    requires xs != {}
    ensures |fs| == n
    ensures forall k | 0 <= k < n :: DoubleFree(fs[k]) && AllEqual(round, Column(xs, k), fs[k])
    decreases d, 0, n
  {
    hide Equal, DoubleFree, NamesOf, AllEqual, Depth, Alike, ValuesAt, Column;
    fs := [];
    if n > 0 {
      var x :| x in xs;
      assert ColumnJoinable(round, xs, n - 1, d);
      ColumnWithin(xs, n - 1, d);
      var y := JoinableEqual(round, Column(xs, n - 1), d - 1);
      fs := JoinColumns(round, xs, d, n - 1);
      fs := fs + [y];
    }
  }

  /** The names in some order, one of them repeated up to the number wanted. */
  lemma {:induction false} Repeated(names: set<string>, n: nat) returns (list: seq<string>)
    requires 0 < |names| <= n
    ensures |list| == n && forall name :: name in list <==> name in names
    decreases n
  {
    var name :| name in names;
    list := [];
    if |names| < n {
      list := Repeated(names, n - 1);
    } else if n > 1 {
      list := Repeated(names - {name}, n - 1);
    } else {
      assert names - {name} == {};
    }
    list := [name] + list;
  }

  /** A member for each name, and copies of one of them up to the number wanted. */
  lemma Listed(at: map<string, Value>, n: nat) returns (ns: seq<Member>)
    requires 0 < |at| <= n
    ensures |ns| == n && ListedAs(at, ns)
  {
    var list := Repeated(at.Keys, n);
    ns := seq(n, k requires 0 <= k < n => assert list[k] in list; Member(list[k], at[list[k]]));
    forall name | name in at ensures FindMember(ns, name) < n {
      var k :| 0 <= k < n && list[k] == name;
      assert ns[k].name == name;
    }
  }

  /**
   * For every double-free value, whatever names the objects inside repeat: on the left it equals something if and only
   * if the members of one name, in each of its objects, could all equal one value.
   */
  lemma EqualsSomethingIffJoinable(round: int -> real, v: Value)
    requires DoubleFree(v)
    ensures (exists y :: DoubleFree(y) && Equal(round, v, y)) <==> Joinable(round, {v}, Depth(v))
  {
    if Joinable(round, {v}, Depth(v)) {
      var y := JoinableEqual(round, {v}, Depth(v));
      assert Equal(round, v, y);
    }
    forall y | DoubleFree(y) && Equal(round, v, y) ensures Joinable(round, {v}, Depth(v)) {
      EqualsAreJoinable(round, {v}, Depth(v), y);
    }
  }

  /** Below the first level a value can equal something and not itself. */
  lemma EqualsSomethingNotItself(round: int -> real)
    ensures var x, y := Member("a", VNull), Member("b", VNull);
      var v := VObject([Member("n", VObject([x, x])), Member("n", VObject([x, y]))]);
      var w := VObject([Member("n", VObject([x, y])), Member("n", VNull)]);
      Equal(round, v, w) && !Equal(round, v, v)
  {
    RepeatedNames(round);
    var x, y := Member("a", VNull), Member("b", VNull);
    var xx, xy := VObject([x, x]), VObject([x, y]);
    DistinctEqual(round, x, y);
    assert Equal(round, xx, xy) && Equal(round, xy, xy) && !Equal(round, xy, xx);
    OneName(round, xx, xy, xy, VNull);
    OneName(round, xx, xy, xx, xy);
  }

  lemma DistinctEqual(round: int -> real, x: Member, y: Member)
    requires x == Member("a", VNull) && y == Member("b", VNull)
    ensures Equal(round, VObject([x, y]), VObject([x, y]))
  {
    assert "a"[0] != "b"[0];
    assert FindMember([x, y], "a") == 0;
    assert [x, y][1..] == [y] && FindMember([y], "b") == 0;
    assert FindMember([x, y], "b") == 1;
    assert [x, y][1] == y && [x, y][0] == x;
  }

  /** Of two members of one name on the right, the first is compared with both on the left. */
  lemma OneName(round: int -> real, a: Value, b: Value, c: Value, d: Value)
    ensures Equal(round, VObject([Member("n", a), Member("n", b)]), VObject([Member("n", c), Member("n", d)]))
      <==> Equal(round, a, c) && Equal(round, b, c)
  {
    var ms, ns := [Member("n", a), Member("n", b)], [Member("n", c), Member("n", d)];
    assert FindMember(ns, "n") == 0;
    assert ms[0].value == a && ms[1].value == b && ms[0].name == ms[1].name == "n";
  }

  /** An object that repeats a name and equals itself, and one that equals another without
    * being equalled by it. */
  lemma RepeatedNames(round: int -> real)
    ensures var x, y := Member("a", VNull), Member("b", VNull);
            && !DuplicateFree(VObject([x, x]))
            && Equal(round, VObject([x, x]), VObject([x, x]))
            && Equal(round, VObject([x, x]), VObject([x, y])) && !Equal(round, VObject([x, y]), VObject([x, x]))
  {
    var x, y := Member("a", VNull), Member("b", VNull);
    assert [x, x][0].name == [x, x][1].name;
    assert [x, y][1] == y && "a"[0] != "b"[0];
    assert FindMember([x, x], "b") == 2 by {
      assert [x, x][1..] == [x];
      assert [x][1..] == [];
    }
    assert FindMember([x, x], "a") == 0 && FindMember([x, y], "a") == 0;
  }

  /** The loops of `operator==`. */
  method EqualTo(round: int -> real, a: Value, b: Value) returns (eq: bool)
    ensures eq == Equal(round, a, b)
    decreases a
  {
    match a {
      case VObject(ms) =>
        if !b.VObject? || |ms| != |b.members| { return false; }
        var k := 0;
        while k < |ms|
          invariant 0 <= k <= |ms|
          invariant forall j :: 0 <= j < k ==>
            var m := FindMember(b.members, ms[j].name);
            m < |b.members| && Equal(round, ms[j].value, b.members[m].value)
        {
          var m := FindMemberIn(b.members, ms[k].name);
          if m == |b.members| { return false; }
          var same := EqualTo(round, ms[k].value, b.members[m].value);
          if !same { return false; }
          k := k + 1;
        }
        return true;
      case VArray(es) =>
        if !b.VArray? || |es| != |b.elements| { return false; }
        var k := 0;
        while k < |es|
          invariant 0 <= k <= |es|
          invariant forall j :: 0 <= j < k ==> Equal(round, es[j], b.elements[j])
        {
          var same := EqualTo(round, es[k], b.elements[k]);
          if !same { return false; }
          k := k + 1;
        }
        return true;
      case VString(s) => return b.VString? && s == b.s;
      case VInteger(n) =>
        if b.VDouble? { return AsDouble(round, a) >= AsDouble(round, b) && AsDouble(round, a) <= AsDouble(round, b); }
        return b.VInteger? && Word(n) == Word(b.n);
      case VBool(x) => return b.VBool? && x == b.b;
      case VNull => return b.VNull?;
      case VDouble(_) =>
        if !b.VInteger? && !b.VDouble? { return false; }
        return AsDouble(round, a) >= AsDouble(round, b) && AsDouble(round, a) <= AsDouble(round, b);
    }
  }
}

/** Resolving a pointer in a DOM tree, and creating, setting and erasing the value it
  * names.
  *
  * The source walks with a pointer into the tree and changes the tree in place. Here the
  * place reached is a location: the positions of the children on the way down. */
module PointerTree {
  import opened Options
  import opened Dom
  import opened PointerIndex
  import opened PointerText

  type Location = seq<nat>

  datatype Token = Token(name: string, index: nat)

  datatype Resolution = Found(at: Location) | Unresolved(token: nat)

  datatype Created = Created(tree: Value, at: Location, exist: bool)

  datatype Stepped = Stepped(node: Value, child: nat, exist: bool)

  // ---- Locations

  function ChildCount(v: Value): nat {
    if v.VObject? then |v.members| else if v.VArray? then |v.elements| else 0
  }

  function Child(v: Value, k: nat): Value
    requires k < ChildCount(v)
  {
    if v.VObject? then v.members[k].value else v.elements[k]
  }

  function WithChild(v: Value, k: nat, c: Value): (r: Value)
    requires k < ChildCount(v)
    ensures ChildCount(r) == ChildCount(v) && r.VObject? == v.VObject? && r.VArray? == v.VArray?
    ensures forall j :: 0 <= j < ChildCount(v) ==> Child(r, j) == if j == k then c else Child(v, j)
  {
    if v.VObject? then VObject(v.members[k := Member(v.members[k].name, c)]) else VArray(v.elements[k := c])
  }

  predicate IsLocation(v: Value, at: Location)
    decreases |at|
  {
    at == [] || (at[0] < ChildCount(v) && IsLocation(Child(v, at[0]), at[1..]))
  }

  function At(v: Value, at: Location): Value
    requires IsLocation(v, at)
    decreases |at|
  {
    if at == [] then v else At(Child(v, at[0]), at[1..])
  }

  function Replace(v: Value, at: Location, w: Value): Value
    requires IsLocation(v, at)
    decreases |at|
  {
    if at == [] then w else WithChild(v, at[0], Replace(Child(v, at[0]), at[1..], w))
  }

  // ---- Resolving

  /** The position of the first member with the name, or the number of members. */
  function FindMember(ms: seq<Member>, name: string): (k: nat)
    ensures k <= |ms| && (k < |ms| ==> ms[k].name == name)
    ensures forall j :: 0 <= j < k ==> ms[j].name != name
  {
    if ms == [] || ms[0].name == name then 0 else 1 + FindMember(ms[1..], name)
  }

  /** The child a token names in a value, or the number of children if there is none. */
  function Lookup(v: Value, t: Token): (k: nat)
    ensures k <= ChildCount(v)
  {
    if v.VObject? then FindMember(v.members, t.name)
    else if v.VArray? && t.index != INVALID_INDEX && t.index < |v.elements| then t.index
    else ChildCount(v)
  }

  function Resolve(v: Value, ts: seq<Token>): (r: Resolution)
    ensures r.Found? ==> IsLocation(v, r.at) && |r.at| == |ts|
    ensures r.Unresolved? ==> r.token < |ts|
  {
    if ts == [] then Found([])
    else
      var k := Lookup(v, ts[0]);
      if k == ChildCount(v) then Unresolved(0)
      else
        match Resolve(Child(v, k), ts[1..])
        case Found(at) => Found([k] + at)
        case Unresolved(n) => Unresolved(n + 1)
  }

  // ---- Creating

  function Nulls(n: nat): (s: seq<Value>)
    ensures |s| == n && forall k :: 0 <= k < n ==> s[k] == VNull
  {
    if n == 0 then [] else [VNull] + Nulls(n - 1)
  }

  /** The token that appends to an array. */
  predicate Appends(v: Value, t: Token) { v.VArray? && t.name == "-" }

  /** The container that a token turns a value into, when it is not one it fits. */
  function Container(v: Value, t: Token): Value {
    if t.index == INVALID_INDEX then (if v.VObject? then v else VObject([]))
    else if v.VArray? || v.VObject? then v else VArray([])
  }

  /** One turn of the loop of `Create`. */
  function Step(v: Value, t: Token): (s: Stepped)
    ensures s.child < ChildCount(s.node)
  {
    if Appends(v, t) then Stepped(VArray(v.elements + [VNull]), |v.elements|, false)
    else
      var w := Container(v, t);
      if w.VArray? then
        if t.index >= |w.elements| then Stepped(VArray(w.elements + Nulls(t.index + 1 - |w.elements|)), t.index, false)
        else Stepped(w, t.index, true)
      else
        var m := FindMember(w.members, t.name);
        if m == |w.members| then Stepped(VObject(w.members + [Member(t.name, VNull)]), m, false)
        else Stepped(w, m, true)
  }

  function Create(v: Value, ts: seq<Token>): (r: Created)
    ensures IsLocation(r.tree, r.at) && |r.at| == |ts|
    decreases |ts|
  {
    if ts == [] then Created(v, [], true)
    else
      var s := Step(v, ts[0]);
      var r := Create(Child(s.node, s.child), ts[1..]);
      Created(WithChild(s.node, s.child, r.tree), [s.child] + r.at, s.exist && r.exist)
  }

  function Set(v: Value, ts: seq<Token>, w: Value): Value {
    var c := Create(v, ts);
    Replace(c.tree, c.at, w)
  }

  // ---- Erasing

  function RemoveChild(v: Value, k: nat): Value
    requires k < ChildCount(v)
  {
    if v.VObject? then VObject(v.members[..k] + v.members[k + 1..]) else VArray(v.elements[..k] + v.elements[k + 1..])
  }

  datatype Erased = Erased(tree: Value, ok: bool)

  function Erase(v: Value, ts: seq<Token>): Erased {
    if ts == [] then Erased(v, false)
    else
      match Resolve(v, ts[..|ts| - 1])
      case Unresolved(_) => Erased(v, false)
      case Found(at) =>
        var parent := At(v, at);
        var k := Lookup(parent, ts[|ts| - 1]);
        if k == ChildCount(parent) then Erased(v, false) else Erased(Replace(v, at, RemoveChild(parent, k)), true)
  }

  /** What the parser guarantees of a token: a dash is no number. */
  predicate TokenOk(t: Token) { t.name == "-" ==> t.index == INVALID_INDEX }

  /** The token that the parser makes of a name. */
  function Parsed(name: Text): Token {
    Token(seq(|name|, i requires 0 <= i < |name| => name[i] as char), IndexOf(name))
  }

  lemma ParsedTokenOk(name: Text)
    ensures TokenOk(Parsed(name))
  {
    hide Accumulate;
    if Parsed(name).name == "-" {
      assert Parsed(name).name[0] == name[0] as char;
      assert !IsDigit(name[0]);
    }
  }

  predicate TokensOk(ts: seq<Token>) { forall k :: 0 <= k < |ts| ==> TokenOk(ts[k]) }

  // ---- Laws

  /** A step finds what lookup finds, and then changes nothing. */
  lemma StepFinds(v: Value, t: Token)
    requires TokenOk(t)
    ensures Step(v, t).exist <==> Lookup(v, t) < ChildCount(v)
    ensures Step(v, t).exist ==> Step(v, t).node == v && Step(v, t).child == Lookup(v, t)
    ensures !Step(v, t).exist ==> Child(Step(v, t).node, Step(v, t).child) == VNull
  {
  }

  /**
   * What one turn of `Create` makes of a value. A dash appends a null to an array. An object stays as it is, with a
   * null member behind if it has none of the name; anything else that meets a token without an index becomes an object
   * with that one member. With an index an array keeps its elements, and a scalar becomes an array; nulls fill it up.
   */
  lemma StepMakes(v: Value, t: Token)
    ensures var s := Step(v, t);
      if v.VArray? && t.name == "-" then
        s.node == VArray(v.elements + [VNull]) && s.child == |v.elements| && !s.exist
      else if v.VObject? then
        && s.node.VObject? && s.child < |s.node.members| && s.node.members[s.child].name == t.name
        && (forall j | 0 <= j < s.child :: s.node.members[j].name != t.name)
        && s.exist == (exists m | m in v.members :: m.name == t.name)
        && s.node.members == if s.exist then v.members else v.members + [Member(t.name, VNull)]
      else if t.index == INVALID_INDEX then
        s.node == VObject([Member(t.name, VNull)]) && s.child == 0 && !s.exist
      else
        var es := if v.VArray? then v.elements else [];
        && s.node.VArray? && s.child == t.index && s.exist == (t.index < |es|)
        && |s.node.elements| == (if t.index < |es| then |es| else t.index + 1)
        && s.node.elements[..|es|] == es && forall j | |es| <= j < |s.node.elements| :: s.node.elements[j] == VNull
  {
    if v.VObject? {
      var m := FindMember(v.members, t.name);
      assert Step(v, t).exist <==> m < |v.members|;
      if m < |v.members| { assert v.members[m] in v.members; }
    }
  }

  lemma WithSameChild(v: Value, k: nat)
    requires k < ChildCount(v)
    ensures WithChild(v, k, Child(v, k)) == v
  {
    if v.VObject? {
      assert v.members[k := Member(v.members[k].name, v.members[k].value)] == v.members;
    } else {
      assert v.elements[k := v.elements[k]] == v.elements;
    }
  }

  /** `Create` reports that the value exists exactly when `Get` resolves it, and then it
    * returns the same place in an unchanged tree. */
  lemma {:induction false} CreateExistsIffResolves(v: Value, ts: seq<Token>)
    requires TokensOk(ts)
    ensures Create(v, ts).exist <==> Resolve(v, ts).Found?
    ensures Create(v, ts).exist ==> Create(v, ts).tree == v && Create(v, ts).at == Resolve(v, ts).at
    decreases |ts|
  {
    if ts != [] {
      StepFinds(v, ts[0]);
      var s := Step(v, ts[0]);
      CreateExistsIffResolves(Child(s.node, s.child), ts[1..]);
      WithSameChild(s.node, s.child);
      if !s.exist {
        Lookup0(v, ts);
      }
    }
  }

  lemma Lookup0(v: Value, ts: seq<Token>)
    requires ts != [] && Lookup(v, ts[0]) == ChildCount(v)
    ensures Resolve(v, ts) == Unresolved(0)
  {
  }

  /** Some token would append to an array. */
  predicate MeetsDash(v: Value, ts: seq<Token>)
    decreases |ts|
  {
    ts != [] && (Appends(v, ts[0]) || MeetsDash(Child(Step(v, ts[0]).node, Step(v, ts[0]).child), ts[1..]))
  }

  /** Lookup in the node a step leaves, whatever is then put at the child. */
  lemma LookupAfterStep(v: Value, t: Token, c: Value)
    requires TokenOk(t)
    ensures var s := Step(v, t);
            var n := WithChild(s.node, s.child, c);
            if Appends(v, t) then Lookup(n, t) == ChildCount(n) else Lookup(n, t) == s.child < ChildCount(n)
  {
    var s := Step(v, t);
    var n := WithChild(s.node, s.child, c);
    if n.VObject? {
      FirstMatch(n.members, t.name, s.child);
    }
  }

  lemma {:induction false} FirstMatch(ms: seq<Member>, name: string, k: nat)
    requires k < |ms| && ms[k].name == name && forall j :: 0 <= j < k ==> ms[j].name != name
    ensures FindMember(ms, name) == k
  {
  }

  /** After `Set`, the pointer resolves to the value set, unless a dash appended on the way:
    * then it resolves nothing, since a dash never names an element. */
  lemma {:induction false} GetAfterSet(v: Value, ts: seq<Token>, w: Value)
    requires TokensOk(ts)
    ensures Resolve(Set(v, ts, w), ts).Found? <==> !MeetsDash(v, ts)
    ensures !MeetsDash(v, ts) ==> Resolve(Set(v, ts, w), ts) == Found(Create(v, ts).at)
    ensures IsLocation(Set(v, ts, w), Create(v, ts).at) && At(Set(v, ts, w), Create(v, ts).at) == w
    decreases |ts|
  {
    hide Step, Lookup, Appends;
    if ts != [] {
      var s := Step(v, ts[0]);
      var c := Child(s.node, s.child);
      var r := Create(c, ts[1..]);
      GetAfterSet(c, ts[1..], w);
      SetStep(v, ts, w);
      LookupAfterStep(v, ts[0], Set(c, ts[1..], w));
      assert ([s.child] + r.at)[1..] == r.at;
    }
  }

  lemma SetStep(v: Value, ts: seq<Token>, w: Value)
    requires ts != []
    ensures var s := Step(v, ts[0]);
            Set(v, ts, w) == WithChild(s.node, s.child, Set(Child(s.node, s.child), ts[1..], w))
  {
    var s := Step(v, ts[0]);
    var r := Create(Child(s.node, s.child), ts[1..]);
    var n := WithChild(s.node, s.child, r.tree);
    assert ([s.child] + r.at)[1..] == r.at;
    WithChildTwice(s.node, s.child, r.tree, Replace(r.tree, r.at, w));
  }

  lemma WithChildTwice(v: Value, k: nat, c: Value, d: Value)
    requires k < ChildCount(v)
    ensures WithChild(WithChild(v, k, c), k, d) == WithChild(v, k, d)
  {
  }

  predicate Prefix(a: Location, b: Location) { |a| <= |b| && a == b[..|a|] }

  /** The locations part ways: neither lies on the way to the other. */
  predicate Diverge(a: Location, b: Location) { !Prefix(a, b) && !Prefix(b, a) }

  /** Replacing the value at one location changes nothing that a pointer finds at another. */
  lemma {:induction false} ReplaceElsewhere(v: Value, at: Location, w: Value, us: seq<Token>)
    requires IsLocation(v, at) && Resolve(v, us).Found? && Diverge(at, Resolve(v, us).at)
    ensures Resolve(Replace(v, at, w), us) == Resolve(v, us)
    ensures At(Replace(v, at, w), Resolve(v, us).at) == At(v, Resolve(v, us).at)
    decreases |at|
  {
    var k := Lookup(v, us[0]);
    var r := Replace(v, at, w);
    var below := Resolve(Child(v, k), us[1..]).at;
    assert Resolve(v, us).at == [k] + below && ([k] + below)[1..] == below;
    LookupIgnoresValues(v, at[0], Replace(Child(v, at[0]), at[1..], w), us[0]);
    if k == at[0] {
      assert Diverge(at[1..], below) by { DivergeBelow(k, at, below); }
      ReplaceElsewhere(Child(v, k), at[1..], w, us[1..]);
    }
  }

  lemma DivergeBelow(k: nat, at: Location, below: Location)
    requires at != [] && at[0] == k && Diverge(at, [k] + below)
    ensures Diverge(at[1..], below)
  {
    var q := [k] + below;
    assert at == [k] + at[1..];
    assert Prefix(at[1..], below) ==> Prefix(at, q);
    assert Prefix(below, at[1..]) ==> Prefix(q, at);
  }

  lemma {:induction false} LookupIgnoresValues(v: Value, k: nat, c: Value, t: Token)
    requires k < ChildCount(v)
    ensures Lookup(WithChild(v, k, c), t) == Lookup(v, t)
  {
    if v.VObject? {
      var ms := WithChild(v, k, c).members;
      SameNames(v.members, ms, t.name);
    }
  }

  lemma {:induction false} SameNames(ms: seq<Member>, ns: seq<Member>, name: string)
    requires |ms| == |ns| && forall k :: 0 <= k < |ms| ==> ms[k].name == ns[k].name
    ensures FindMember(ms, name) == FindMember(ns, name)
  {
    if ms != [] {
      SameNames(ms[1..], ns[1..], name);
    }
  }

  /** Setting a value that exists leaves every pointer that parts ways with it alone. */
  lemma SetLeavesDivergingPaths(v: Value, ts: seq<Token>, w: Value, us: seq<Token>)
    requires TokensOk(ts) && Resolve(v, ts).Found? && Resolve(v, us).Found?
    requires Diverge(Resolve(v, ts).at, Resolve(v, us).at)
    ensures Resolve(Set(v, ts, w), us) == Resolve(v, us)
    ensures At(Set(v, ts, w), Resolve(v, us).at) == At(v, Resolve(v, us).at)
  {
    CreateExistsIffResolves(v, ts);
    ReplaceElsewhere(v, Resolve(v, ts).at, w, us);
  }

  /** On the way, some value that is not a fitting container would have to become one. */
  predicate Converts(v: Value, ts: seq<Token>)
    decreases |ts|
  {
    ts != [] &&
    ((!Appends(v, ts[0]) && Container(v, ts[0]) != v) ||
     Converts(Child(Step(v, ts[0]).node, Step(v, ts[0]).child), ts[1..]))
  }

  /** A step that converts nothing keeps every child where it was. */
  lemma StepKeepsChildren(v: Value, t: Token, u: Token)
    requires Appends(v, t) || Container(v, t) == v
    requires Lookup(v, u) < ChildCount(v)
    ensures Lookup(Step(v, t).node, u) == Lookup(v, u) < ChildCount(Step(v, t).node)
    ensures Child(Step(v, t).node, Lookup(v, u)) == Child(v, Lookup(v, u))
  {
    var n := Step(v, t).node;
    if v.VObject? {
      FirstMatch(n.members, u.name, Lookup(v, u));
    }
  }

  /** Where it converts nothing, `Create` keeps everything that resolved: at the same place,
    * and with the same value unless the new value lies inside it. */
  lemma {:induction false} CreateKeepsPaths(v: Value, ts: seq<Token>, us: seq<Token>)
    requires TokensOk(ts) && !Converts(v, ts) && Resolve(v, us).Found?
    ensures Resolve(Create(v, ts).tree, us) == Resolve(v, us)
    ensures !Prefix(Resolve(v, us).at, Create(v, ts).at) ==>
      At(Create(v, ts).tree, Resolve(v, us).at) == At(v, Resolve(v, us).at)
    decreases |ts|
  {
    hide Step, Lookup, Appends, Container, WithChild;
    if ts != [] && us != [] {
      var s := Step(v, ts[0]);
      var c := Child(s.node, s.child);
      var r := Create(c, ts[1..]);
      var k := Lookup(v, us[0]);
      var below := Resolve(Child(v, k), us[1..]).at;
      assert Resolve(v, us).at == [k] + below && ([k] + below)[1..] == below;
      StepKeepsChildren(v, ts[0], us[0]);
      LookupIgnoresValues(s.node, s.child, r.tree, us[0]);
      if k == s.child {
        CreateKeepsPaths(c, ts[1..], us[1..]);
        if Prefix(below, r.at) {
          assert Prefix([k] + below, [k] + r.at);
        }
      }
    }
  }

  /** The same kind of value with as many children, and the same names. */
  predicate SameShape(a: Value, b: Value) {
    && a.VObject? == b.VObject? && a.VArray? == b.VArray? && ChildCount(a) == ChildCount(b)
    && (a.VObject? ==> forall k | 0 <= k < |a.members| :: a.members[k].name == b.members[k].name)
  }

  /** A location keeps its value, or its shape if it lies on the way to `at`. */
  ghost predicate KeptBeside(v: Value, u: Value, at: Location, o: Location) {
    && IsLocation(v, o) && IsLocation(u, o)
    && if Prefix(o, at) then SameShape(At(v, o), At(u, o)) else At(u, o) == At(v, o)
  }

  /** Replacing puts the value there and leaves everything beside it, and the shape of what is above. */
  lemma {:induction false} ReplaceOnlyThere(v: Value, at: Location, w: Value)
    requires IsLocation(v, at)
    ensures IsLocation(Replace(v, at, w), at) && At(Replace(v, at, w), at) == w
    ensures forall o: Location | IsLocation(v, o) && !Prefix(at, o) :: KeptBeside(v, Replace(v, at, w), at, o)
    decreases |at|
  {
    if at != [] {
      ReplaceOnlyThere(Child(v, at[0]), at[1..], w);
      forall o: Location | IsLocation(v, o) && !Prefix(at, o)
        ensures KeptBeside(v, Replace(v, at, w), at, o)
      {
        KeptAbove(v, at, w, o);
      }
    }
  }

  lemma KeptAbove(v: Value, at: Location, w: Value, o: Location)
    requires at != [] && IsLocation(v, at) && IsLocation(v, o) && !Prefix(at, o)
    requires forall p: Location | IsLocation(Child(v, at[0]), p) && !Prefix(at[1..], p) ::
      KeptBeside(Child(v, at[0]), Replace(Child(v, at[0]), at[1..], w), at[1..], p)
    ensures KeptBeside(v, Replace(v, at, w), at, o)
  {
    if o != [] {
      assert o == [o[0]] + o[1..] && at == [at[0]] + at[1..];
      if o[0] == at[0] {
        assert Prefix(at[1..], o[1..]) ==> Prefix(at, o);
        assert Prefix(o, at) <==> Prefix(o[1..], at[1..]);
        assert KeptBeside(Child(v, at[0]), Replace(Child(v, at[0]), at[1..], w), at[1..], o[1..]);
      } else {
        assert !Prefix(o, at);
      }
    }
  }

  /** One child, and no other, has gone: those before it stay, and those behind it move up, with their names. */
  predicate LosesChild(v: Value, u: Value, k: nat)
    requires k < ChildCount(v)
  {
    && u.VObject? == v.VObject? && u.VArray? == v.VArray? && ChildCount(u) + 1 == ChildCount(v)
    && (forall j | 0 <= j < k :: Child(u, j) == Child(v, j))
    && (forall j | k <= j < ChildCount(u) :: Child(u, j) == Child(v, j + 1))
    && (v.VObject? ==>
          && (forall j | 0 <= j < k :: u.members[j].name == v.members[j].name)
          && (forall j | k <= j < |u.members| :: u.members[j].name == v.members[j + 1].name))
  }

  lemma RemoveChildLoses(v: Value, k: nat)
    requires k < ChildCount(v)
    ensures LosesChild(v, RemoveChild(v, k), k)
  {
  }

  /** What erasing does to the tree: the parent loses just the child named, and every location that does not
    * lie inside the parent keeps its value, or its shape if it is above. */
  lemma EraseRemovesOnly(v: Value, ts: seq<Token>)
    requires Erase(v, ts).ok
    ensures Resolve(v, ts).Found? && ts != []
    ensures var at := Resolve(v, ts).at;
      var parent, u := at[..|at| - 1], Erase(v, ts).tree;
      && IsLocation(v, parent) && IsLocation(u, parent) && at[|at| - 1] < ChildCount(At(v, parent))
      && LosesChild(At(v, parent), At(u, parent), at[|at| - 1])
      && forall o: Location | IsLocation(v, o) && !Prefix(parent, o) :: KeptBeside(v, u, parent, o)
  {
    hide Resolve, KeptBeside, Replace, LosesChild, RemoveChild, Erase, At, IsLocation, Prefix, ChildCount;
    EraseIffResolves(v, ts);
    var at := Resolve(v, ts).at;
    var parent, k := at[..|at| - 1], at[|at| - 1];
    RemoveChildLoses(At(v, parent), k);
    ReplaceOnlyThere(v, parent, RemoveChild(At(v, parent), k));
  }

  /** `Erase` succeeds exactly when the pointer is not the root and resolves; then the child
    * it named, and nothing else, is gone from its parent. */
  lemma {:induction false} EraseIffResolves(v: Value, ts: seq<Token>)
    ensures Erase(v, ts).ok <==> ts != [] && Resolve(v, ts).Found?
    ensures !Erase(v, ts).ok ==> Erase(v, ts).tree == v
    ensures Erase(v, ts).ok ==>
      var at := Resolve(v, ts).at;
      var parent := at[..|at| - 1];
      IsLocation(v, parent) && at[|at| - 1] < ChildCount(At(v, parent)) &&
      Erase(v, ts).tree == Replace(v, parent, RemoveChild(At(v, parent), at[|at| - 1]))
  {
    if ts != [] {
      ResolveLast(v, ts);
    }
  }

  /** Resolving all but the last token, then the last. */
  lemma {:induction false} ResolveLast(v: Value, ts: seq<Token>)
    requires ts != []
    ensures var r := Resolve(v, ts[..|ts| - 1]);
            if r.Unresolved? then Resolve(v, ts) == r
            else
              var k := Lookup(At(v, r.at), ts[|ts| - 1]);
              Resolve(v, ts) == if k == ChildCount(At(v, r.at)) then Unresolved(|ts| - 1) else Found(r.at + [k])
    decreases |ts|
  {
    hide Lookup, Child, Resolve, At;
    var init := ts[..|ts| - 1];
    ResolveStep(v, ts);
    if |ts| > 1 {
      assert init[0] == ts[0] && init[1..] == ts[1..][..|ts| - 2];
      ResolveStep(v, init);
      var k := Lookup(v, ts[0]);
      if k < ChildCount(v) {
        ResolveLast(Child(v, k), ts[1..]);
        var r := Resolve(Child(v, k), init[1..]);
        if r.Found? {
          var m := Lookup(At(Child(v, k), r.at), ts[|ts| - 1]);
          assert [k] + (r.at + [m]) == ([k] + r.at) + [m];
          AtStep(v, k, r.at);
        }
      }
    } else {
      assert init == [] && ts[1..] == [];
      ResolveNothing(v);
      ResolveNothing(if Lookup(v, ts[0]) < ChildCount(v) then Child(v, Lookup(v, ts[0])) else v);
    }
  }

  lemma ResolveStep(v: Value, ts: seq<Token>)
    requires ts != []
    ensures var k := Lookup(v, ts[0]);
            Resolve(v, ts) ==
            if k == ChildCount(v) then Unresolved(0)
            else
              var r := Resolve(Child(v, k), ts[1..]);
              if r.Found? then Found([k] + r.at) else Unresolved(r.token + 1)
  {
  }

  lemma ResolveNothing(v: Value)
    ensures Resolve(v, []) == Found([]) && At(v, []) == v
  {
  }

  lemma AtStep(v: Value, k: nat, at: Location)
    requires k < ChildCount(v) && IsLocation(Child(v, k), at)
    ensures IsLocation(v, [k] + at) && At(v, [k] + at) == At(Child(v, k), at)
  {
    assert ([k] + at)[1..] == at;
  }

  /** The token reported as unresolved is the first that names no child of what the tokens
    * before it reach. */
  lemma {:induction false} UnresolvedToken(v: Value, ts: seq<Token>)
    requires Resolve(v, ts).Unresolved?
    ensures var n := Resolve(v, ts).token;
            var r := Resolve(v, ts[..n]);
            r.Found? && Lookup(At(v, r.at), ts[n]) == ChildCount(At(v, r.at))
    decreases |ts|
  {
    var n := Resolve(v, ts).token;
    if n > 0 {
      var k := Lookup(v, ts[0]);
      UnresolvedToken(Child(v, k), ts[1..]);
      var r := Resolve(Child(v, k), ts[1..][..n - 1]);
      assert ts[..n][0] == ts[0] && ts[..n][1..] == ts[1..][..n - 1];
      assert ([k] + r.at)[1..] == r.at;
    }
  }

  // ---- The loops of the source

  method FindMemberIn(ms: seq<Member>, name: string) returns (m: nat)
    ensures m == FindMember(ms, name)
  {
    m := 0;
    while m < |ms|
      invariant 0 <= m <= |ms| && FindMember(ms, name) == m + FindMember(ms[m..], name)
    {
      if name == ms[m].name { break; }
      m := m + 1;
    }
  }

  /** The child a token names, as `Get` and `Erase` look for it. */
  method LookupIn(v: Value, t: Token) returns (found: bool, k: nat)
    ensures found <==> Lookup(v, t) < ChildCount(v)
    ensures found ==> k == Lookup(v, t)
  {
    found, k := false, 0;
    if v.VObject? {
      k := FindMemberIn(v.members, t.name);
      found := k != |v.members|;
    } else if v.VArray? && t.index != INVALID_INDEX && t.index < |v.elements| {
      k, found := t.index, true;
    }
  }

  /** What resolving the remaining tokens says about the whole pointer. */
  function Onward(at: Location, n: nat, r: Resolution): Resolution {
    if r.Found? then Found(at + r.at) else Unresolved(n + r.token)
  }

  lemma OnwardStep(at: Location, v: Value, ts: seq<Token>, n: nat)
    requires n < |ts|
    ensures var k := Lookup(v, ts[n]);
            Onward(at, n, Resolve(v, ts[n..])) ==
            if k == ChildCount(v) then Unresolved(n) else Onward(at + [k], n + 1, Resolve(Child(v, k), ts[n + 1..]))
  {
    var k := Lookup(v, ts[n]);
    assert ts[n..][1..] == ts[n + 1..];
    if k < ChildCount(v) {
      var r := Resolve(Child(v, k), ts[n + 1..]);
      if r.Found? {
        assert at + ([k] + r.at) == at + [k] + r.at;
      }
    }
  }

  lemma OnwardEnds(at: Location, v: Value, n: nat, r: Resolution)
    ensures Onward(at, n, Resolve(v, [])) == Found(at)
    ensures Onward([], 0, r) == r
  {
    assert at + [] == at;
    if r.Found? {
      assert [] + r.at == r.at;
    }
  }

  method Get(root: Value, ts: seq<Token>) returns (r: Resolution)
    ensures r == Resolve(root, ts)
  {
    hide Resolve, Lookup, Onward;
    var v, at := root, [];
    var n := 0;
    assert ts[0..] == ts;
    OnwardEnds([], root, 0, Resolve(root, ts));
    while n < |ts|
      invariant 0 <= n <= |ts|
      invariant Resolve(root, ts) == Onward(at, n, Resolve(v, ts[n..]))
    {
      OnwardStep(at, v, ts, n);
      var found, k := LookupIn(v, ts[n]);
      if !found { return Unresolved(n); }
      v, at := Child(v, k), at + [k];
      n := n + 1;
    }
    assert ts[n..] == [];
    OnwardEnds(at, v, n, Resolve(root, ts));
    r := Found(at);
  }

  /** One turn of the loop of `Create`, with the loop that pads an array. */
  method StepIn(v: Value, t: Token) returns (node: Value, child: nat, exist: bool)
    ensures Step(v, t) == Stepped(node, child, exist)
  {
    exist := true;
    if v.VArray? && t.name == "-" {
      return VArray(v.elements + [VNull]), |v.elements|, false;
    }
    node := v;
    if t.index == INVALID_INDEX {
      if !v.VObject? { node := VObject([]); }
    } else {
      if !v.VArray? && !v.VObject? { node := VArray([]); }
    }
    if node.VArray? {
      ghost var was := node.elements;
      child := t.index;
      if t.index >= |node.elements| {
        while t.index >= |node.elements|
          invariant node.VArray? && |was| <= |node.elements| <= t.index + 1
          invariant node.elements == was + Nulls(|node.elements| - |was|)
          decreases t.index + 1 - |node.elements|
        {
          NullsSnoc(|node.elements| - |was|);
          node := VArray(node.elements + [VNull]);
        }
        exist := false;
      }
    } else {
      child := FindMemberIn(node.members, t.name);
      if child == |node.members| {
        node := VObject(node.members + [Member(t.name, VNull)]);
        exist := false;
      }
    }
  }

  lemma NullsSnoc(n: nat)
    ensures Nulls(n) + [VNull] == Nulls(n + 1)
  {
  }

  lemma {:induction false} ReplaceBelow(v: Value, at: Location, k: nat, w: Value, c: Value)
    requires IsLocation(v, at) && k < ChildCount(w)
    ensures var u := Replace(v, at, w);
            && IsLocation(u, at + [k]) && At(u, at + [k]) == Child(w, k)
            && Replace(u, at + [k], c) == Replace(v, at, WithChild(w, k, c))
    decreases |at|
  {
    if at != [] {
      ReplaceBelow(Child(v, at[0]), at[1..], k, w, c);
      assert (at + [k])[1..] == at[1..] + [k];
      WithChildTwice(v, at[0], Replace(Child(v, at[0]), at[1..], w), Replace(Child(v, at[0]), at[1..], WithChild(w, k, c)));
    } else {
      assert at + [k] == [k];
    }
  }

  lemma {:induction false} ReplaceSame(v: Value, at: Location)
    requires IsLocation(v, at)
    ensures Replace(v, at, At(v, at)) == v
    decreases |at|
  {
    if at != [] {
      ReplaceSame(Child(v, at[0]), at[1..]);
      WithSameChild(v, at[0]);
    }
  }

  /** What creating the remaining tokens below `at` makes of the whole tree. */
  function OnwardCreated(tree: Value, at: Location, exist: bool, ts: seq<Token>): Created
    requires IsLocation(tree, at)
  {
    var r := Create(At(tree, at), ts);
    Created(Replace(tree, at, r.tree), at + r.at, exist && r.exist)
  }

  lemma CreateStep(v: Value, ts: seq<Token>)
    requires ts != []
    ensures var s := Step(v, ts[0]);
            var r := Create(Child(s.node, s.child), ts[1..]);
            Create(v, ts) == Created(WithChild(s.node, s.child, r.tree), [s.child] + r.at, s.exist && r.exist)
  {
  }

  lemma OnwardCreatedStep(tree: Value, at: Location, exist: bool, ts: seq<Token>)
    requires IsLocation(tree, at) && ts != []
    ensures var s := Step(At(tree, at), ts[0]);
            var tree' := Replace(tree, at, s.node);
            && IsLocation(tree', at + [s.child])
            && OnwardCreated(tree, at, exist, ts) == OnwardCreated(tree', at + [s.child], exist && s.exist, ts[1..])
  {
    hide Step, Replace, Create, WithChild, IsLocation, At;
    CreateStep(At(tree, at), ts);
    var s := Step(At(tree, at), ts[0]);
    var r := Create(Child(s.node, s.child), ts[1..]);
    ReplaceBelow(tree, at, s.child, s.node, r.tree);
    assert at + ([s.child] + r.at) == at + [s.child] + r.at;
  }

  lemma OnwardCreatedEnds(tree: Value, at: Location, exist: bool)
    requires IsLocation(tree, at)
    ensures OnwardCreated(tree, at, exist, []) == Created(tree, at, exist)
  {
    ReplaceSame(tree, at);
    assert at + [] == at;
  }

  lemma OnwardCreatedStarts(tree: Value, ts: seq<Token>)
    ensures OnwardCreated(tree, [], true, ts) == Create(tree, ts)
  {
    assert [] + Create(tree, ts).at == Create(tree, ts).at;
  }

  /** The loop of `Create`: the tree changes at the cursor `at`, which then moves down. */
  method CreateIn(root: Value, ts: seq<Token>) returns (tree: Value, at: Location, exist: bool)
    ensures Create(root, ts) == Created(tree, at, exist)
  {
    hide Create, Step, OnwardCreated;
    tree, at, exist := root, [], true;
    var n := 0;
    assert ts[0..] == ts;
    OnwardCreatedStarts(root, ts);
    while n < |ts|
      invariant 0 <= n <= |ts| && IsLocation(tree, at)
      invariant Create(root, ts) == OnwardCreated(tree, at, exist, ts[n..])
    {
      OnwardCreatedStep(tree, at, exist, ts[n..]);
      assert ts[n..][1..] == ts[n + 1..];
      var node, child, existed := StepIn(At(tree, at), ts[n]);
      tree, at, exist := Replace(tree, at, node), at + [child], exist && existed;
      n := n + 1;
    }
    assert ts[n..] == [];
    OnwardCreatedEnds(tree, at, exist);
  }

  lemma {:induction false} LocationSnoc(v: Value, at: Location, k: nat)
    requires IsLocation(v, at) && k < ChildCount(At(v, at))
    ensures IsLocation(v, at + [k]) && At(v, at + [k]) == Child(At(v, at), k)
    decreases |at|
  {
    if at != [] {
      LocationSnoc(Child(v, at[0]), at[1..], k);
      assert (at + [k])[1..] == at[1..] + [k];
    }
  }

  method EraseIn(root: Value, ts: seq<Token>) returns (tree: Value, ok: bool)
    ensures Erase(root, ts) == Erased(tree, ok)
  {
    hide Resolve, Lookup, Onward, Replace, RemoveChild;
    tree, ok := root, false;
    if |ts| == 0 { return; }
    var init := ts[..|ts| - 1];
    var v, at := root, [];
    var n := 0;
    assert init[0..] == init;
    OnwardEnds([], root, 0, Resolve(root, init));
    while n < |init|
      invariant 0 <= n <= |init| && IsLocation(root, at) && v == At(root, at)
      invariant Resolve(root, init) == Onward(at, n, Resolve(v, init[n..]))
    {
      OnwardStep(at, v, init, n);
      var found, k := LookupIn(v, init[n]);
      if !found { return; }
      LocationSnoc(root, at, k);
      v, at := Child(v, k), at + [k];
      n := n + 1;
    }
    assert init[n..] == [];
    OnwardEnds(at, v, n, Resolve(root, init));
    var found, k := LookupIn(v, ts[|ts| - 1]);
    if found {
      tree, ok := Replace(root, at, RemoveChild(v, k)), true;
    }
  }
}

/** Reference-counted objects and the pointers that own references to them. */
module RefCount {
  import opened Options

  /** Addresses of objects and of pointers. */
  type Obj = nat
  type Ptr = nat

  /**
   * The objects and pointers that live. `target` is what a pointer points to, `home` the object
   * that it is a member of, if it is one; `count` is the stored count of an object, and `loose`
   * the references to it that no pointer holds, as after construction or `release`.
   */
  datatype Heap = Heap(target: map<Ptr, Option<Obj>>, home: map<Ptr, Obj>, count: map<Obj, nat>, loose: map<Obj, nat>)

  function Holders(h: Heap, x: Obj): set<Ptr> {
    set q | q in h.target && h.target[q] == Some(x)
  }

  /** The count of an object is the number of references to it, of which there is at least one. */
  predicate Counted(h: Heap, x: Obj) {
    x in h.count && x in h.loose && h.count[x] == |Holders(h, x)| + h.loose[x] && h.count[x] > 0
  }

  /** Pointers point to living objects and are members of living objects. */
  predicate Wired(h: Heap) {
    && h.home.Keys <= h.target.Keys
    && h.loose.Keys == h.count.Keys
    && (forall q | q in h.home :: h.home[q] in h.count)
    && (forall q | q in h.target && h.target[q].Some? :: h.target[q].value in h.count)
  }

  predicate Valid(h: Heap) {
    Wired(h) && forall x | x in h.count :: Counted(h, x)
  }

  // ---- What goes with an object

  /** Nothing but members of the objects in `gone` holds a reference to `x`. */
  predicate HeldOnlyBy(h: Heap, x: Obj, gone: set<Obj>) {
    x in h.loose && h.loose[x] == 0 && forall q | q in Holders(h, x) :: q in h.home && h.home[q] in gone
  }

  /** The objects in `gone`, and those that only they keep alive, and so on. */
  function Falls(h: Heap, gone: set<Obj>): (r: set<Obj>)
    ensures gone <= r
    ensures forall x :: x in r && x !in gone ==> x in h.loose && h.loose[x] == 0
    decreases h.loose.Keys - gone
  {
    var more := set x | x in h.loose && x !in gone && HeldOnlyBy(h, x, gone);
    if more == {} then gone else
      assert h.loose.Keys - (gone + more) < h.loose.Keys - gone by { assert exists x :: x in more && x in h.loose.Keys - gone; }
      Falls(h, gone + more)
  }

  ghost predicate Closed(h: Heap, s: set<Obj>) {
    forall x :: HeldOnlyBy(h, x, s) ==> x in s
  }

  /** What falls is the least set that is closed: an object that only fallen ones hold falls. */
  lemma {:induction false} FallsLeast(h: Heap, gone: set<Obj>)
    ensures Closed(h, Falls(h, gone))
    ensures forall s :: gone <= s && Closed(h, s) ==> Falls(h, gone) <= s
    decreases h.loose.Keys - gone
  {
    var more := set x | x in h.loose && x !in gone && HeldOnlyBy(h, x, gone);
    if more != {} {
      assert h.loose.Keys - (gone + more) < h.loose.Keys - gone by { assert exists x :: x in more && x in h.loose.Keys - gone; }
      FallsLeast(h, gone + more);
      forall s | gone <= s && Closed(h, s)
        ensures gone + more <= s
      {
        forall x | x in more ensures x in s { assert HeldOnlyBy(h, x, s); }
      }
    } else {
      forall x | HeldOnlyBy(h, x, gone) ensures x in gone { assert x !in more; }
    }
  }

  /** The objects that are deleted when `n` loose references to `x` are dropped. */
  function Doomed(h: Heap, x: Obj, n: nat): set<Obj>
    requires x in h.count
  {
    if h.count[x] == n then Falls(h, {x}) else {}
  }

  // ---- Dropping references

  function Targets(h: Heap, gone: set<Obj>): map<Ptr, Option<Obj>> {
    map q | q in h.target && !(q in h.home && h.home[q] in gone) :: h.target[q]
  }

  function Homes(h: Heap, gone: set<Obj>): map<Ptr, Obj> {
    map q | q in h.home && h.home[q] !in gone :: h.home[q]
  }

  /** What is left once the objects in `gone` and their members have ended. */
  predicate Left(h: Heap, l: Heap, gone: set<Obj>) {
    && Valid(l)
    && l.target == Targets(h, gone)
    && l.home == Homes(h, gone)
    && l.loose.Keys == h.loose.Keys - gone
  }

  /** `n` loose references to `x` have been dropped, and everything has gone that was doomed. */
  predicate Removed(h: Heap, l: Heap, x: Obj, n: nat)
    requires x in h.count
  {
    && Left(h, l, Doomed(h, x, n))
    && forall y | y in l.loose :: l.loose[y] == h.loose[y] - (if y == x then n else 0)
  }

  /** The destructors of `ms`, members of objects that have gone, have not run yet: the references
    * that they own count as loose. */
  predicate Pending(h: Heap, l: Heap, gone: set<Obj>, ms: set<Ptr>) {
    && Left(h, l, gone)
    && forall y | y in l.loose :: l.loose[y] == h.loose[y] + |Holders(h, y) * ms|
  }

  /** The state left is determined: the counts are those of the references left. */
  lemma RemovedOnce(h: Heap, l: Heap, l': Heap, x: Obj, n: nat)
    requires x in h.count && Removed(h, l, x, n) && Removed(h, l', x, n)
    ensures l == l'
  {
    hide Falls, Targets, Homes;
    assert l.loose == l'.loose;
    forall y | y in l.count ensures l.count[y] == l'.count[y] {
      assert Counted(l, y) && Counted(l', y);
    }
  }

  function Lowered(h: Heap, x: Obj, n: nat): Heap
    requires x in h.count && x in h.loose && n <= h.loose[x] && n <= h.count[x]
  {
    h.(count := h.count[x := h.count[x] - n], loose := h.loose[x := h.loose[x] - n])
  }

  /** Unless it is the last, a reference dropped only lowers the count. */
  lemma LoweredIsRemoved(h: Heap, x: Obj, n: nat)
    requires Valid(h) && x in h.count && n <= h.loose[x] && h.count[x] != n
    ensures n < h.count[x] && Removed(h, Lowered(h, x, n), x, n)
  {
    hide Falls;
    assert Counted(h, x);
    var l := Lowered(h, x, n);
    forall y | y in l.count ensures Counted(l, y) {
      assert Counted(h, y);
      assert Holders(l, y) == Holders(h, y);
    }
  }

  /** What the members of an object point to. */
  function Owned(h: Heap, x: Obj): map<Ptr, Obj> {
    map m | m in h.home && h.home[m] == x && m in h.target && h.target[m].Some? :: h.target[m].value
  }

  /** The object itself has ended, and the destructors of its members are still to run. */
  function Deleted(h: Heap, x: Obj): Heap {
    Heap(Targets(h, {x}), Homes(h, {x}), map y | y in h.count && y != x :: h.count[y],
         map y | y in h.loose && y != x :: h.loose[y] + |Holders(h, y) * Owned(h, x).Keys|)
  }

  lemma DeletedIsPending(h: Heap, x: Obj)
    requires Valid(h) && x in h.count && h.count[x] == h.loose[x]
    ensures Pending(h, Deleted(h, x), {x}, Owned(h, x).Keys)
  {
    hide Wired, Counted, Holders, Owned, Targets, Homes;
    NotHeld(h, x);
    DeletedWired(h, x);
    var d := Deleted(h, x);
    forall y | y in d.count ensures Counted(d, y) {
      assert Counted(h, y);
      DeletedCounts(h, x, y);
    }
  }

  lemma NotHeld(h: Heap, x: Obj)
    requires Valid(h) && x in h.count && h.count[x] == h.loose[x]
    ensures Wired(h) && Holders(h, x) == {}
  {
    assert Counted(h, x);
  }

  lemma DeletedWired(h: Heap, x: Obj)
    requires Wired(h) && Holders(h, x) == {}
    ensures Wired(Deleted(h, x)) && Deleted(h, x).loose.Keys == h.loose.Keys - {x}
  {
    hide Holders, Targets, Homes, Owned;
    DeletedHomes(h, x);
    DeletedTargets(h, x);
  }

  lemma DeletedHomes(h: Heap, x: Obj)
    requires Wired(h)
    ensures Homes(h, {x}).Keys <= Targets(h, {x}).Keys
    ensures forall q | q in Homes(h, {x}) :: Homes(h, {x})[q] in h.count && Homes(h, {x})[q] != x
  {
  }

  lemma DeletedTargets(h: Heap, x: Obj)
    requires Wired(h) && Holders(h, x) == {}
    ensures forall q | q in Targets(h, {x}) && Targets(h, {x})[q].Some? ::
      Targets(h, {x})[q].value in h.count && Targets(h, {x})[q].value != x
  {
    var t := Targets(h, {x});
    forall q | q in t && t[q].Some? ensures t[q].value in h.count && t[q].value != x {
      assert t[q].value == x ==> q in Holders(h, x);
    }
  }

  lemma DeletedCounts(h: Heap, x: Obj, y: Obj)
    requires Counted(h, y) && x != y
    ensures Counted(Deleted(h, x), y)
  {
    hide Holders, Owned, Targets, Homes;
    var hs, ms := Holders(h, y), Owned(h, x).Keys;
    HoldersLeft(h, x, y);
    assert hs == hs - ms + hs * ms;
  }

  lemma HoldersLeft(h: Heap, x: Obj, y: Obj)
    ensures Holders(Deleted(h, x), y) == Holders(h, y) - Owned(h, x).Keys
  {
    assert Deleted(h, x).target == Targets(h, {x});
  }

  lemma TargetsTwice(h: Heap, c: Heap, gone: set<Obj>, more: set<Obj>)
    requires c.target == Targets(h, gone) && c.home == Homes(h, gone)
    ensures Targets(c, more) == Targets(h, gone + more) && Homes(c, more) == Homes(h, gone + more)
  {
  }

  lemma OneLess<T>(a: set<T>, ms: set<T>, m: T)
    requires m in ms
    ensures |a * ms| == |a * (ms - {m})| + if m in a then 1 else 0
  {
    if m in a {
      assert a * ms == a * (ms - {m}) + {m};
    } else {
      assert a * ms == a * (ms - {m});
    }
  }

  /** The destructor of one of the members to come is run, and drops its reference. */
  lemma PendingStep(h: Heap, c: Heap, l: Heap, gone: set<Obj>, ms: set<Ptr>, m: Ptr, y: Obj)
    requires Pending(h, c, gone, ms) && m in ms && m in Holders(h, y) && y in c.count && Removed(c, l, y, 1)
    ensures Pending(h, l, gone + Doomed(c, y, 1), ms - {m})
  {
    hide Falls, Valid, Doomed, Targets, Homes;
    TargetsTwice(h, c, gone, Doomed(c, y, 1));
    forall z | z in l.loose ensures l.loose[z] == h.loose[z] + |Holders(h, z) * (ms - {m})| {
      OneLess(Holders(h, z), ms, m);
      assert m in Holders(h, z) <==> z == y;
    }
  }

  /** What has a reference pending lives on. */
  lemma PendingLives(h: Heap, c: Heap, gone: set<Obj>, ms: set<Ptr>, m: Ptr, k: Ptr, y: Obj, z: Obj)
    requires Pending(h, c, gone, ms) && {m, k} <= ms && m != k && m in Holders(h, y) && k in Holders(h, z)
    requires y in c.count && z in c.loose
    ensures z !in Doomed(c, y, 1)
  {
    hide Falls, Targets, Homes;
    assert k in Holders(h, z) * ms;
    if z == y {
      assert {m, k} <= Holders(h, y) * ms;
      AtLeast({m, k}, Holders(h, y) * ms);
      assert Counted(c, y);
    } 
  }

  lemma AtLeast<T>(a: set<T>, b: set<T>)
    requires a <= b
    ensures |a| <= |b|
  {
    assert b == a + (b - a);
  }

  /** What the destructor of a member takes with it falls with the object too. */
  lemma StepFalls(h: Heap, c: Heap, gone: set<Obj>, ms: set<Ptr>, m: Ptr, y: Obj, s: set<Obj>)
    requires Pending(h, c, gone, ms) && m in ms && m in Holders(h, y) && y in c.count
    requires m in h.home && h.home[m] in gone && gone <= s && Closed(h, s)
    ensures Doomed(c, y, 1) <= s
  {
    hide Falls;
    FallsLeast(c, {y});
    if c.count[y] == 1 {
      assert Counted(c, y);
      assert m in Holders(h, y) * ms;
      StillHeld(h, c, gone, ms, y, s);
      forall z | HeldOnlyBy(c, z, s) ensures z in s { StillHeld(h, c, gone, ms, z, s); }
      assert Closed(c, s);
    }
  }

  lemma StillHeld(h: Heap, c: Heap, gone: set<Obj>, ms: set<Ptr>, z: Obj, s: set<Obj>)
    requires Pending(h, c, gone, ms) && gone <= s && Closed(h, s) && z in c.loose
    requires c.loose[z] == |Holders(h, z) * ms|
    requires forall q | q in Holders(c, z) :: q in c.home && c.home[q] in s
    ensures z in s
  {
    hide Falls, Valid;
    assert h.loose[z] == 0;
    forall q | q in Holders(h, z) ensures q in h.home && h.home[q] in s {
      if q in Targets(h, gone) { assert q in Holders(c, z); }
    }
    assert HeldOnlyBy(h, z, s);
  }

  /** Once all destructors have run, everything has gone that nothing else holds. */
  lemma NothingMoreFalls(h: Heap, l: Heap, gone: set<Obj>)
    requires Pending(h, l, gone, {})
    ensures Closed(h, gone)
  {
    hide Falls;
    forall z | HeldOnlyBy(h, z, gone) ensures z in gone {
      assert Holders(l, z) == {} by { hide Valid; }
      assert z in l.count ==> Counted(l, z) && |Holders(h, z) * {}| == 0;
    }
  }

  lemma NonePending(h: Heap, l: Heap, gone: set<Obj>)
    requires Pending(h, l, gone, {})
    ensures Left(h, l, gone)
    ensures forall y | y in l.loose :: y in h.loose && y !in gone && l.loose[y] == h.loose[y]
  {
    hide Valid, Targets, Homes, Holders;
    forall y | y in l.loose ensures l.loose[y] == h.loose[y] {
      assert Holders(h, y) * {} == {};
    }
  }

  lemma DeletedIsRemoved(h: Heap, l: Heap, x: Obj)
    requires x in h.count && Pending(h, l, Falls(h, {x}), {})
    ensures Removed(h, l, x, h.count[x])
  {
    hide Falls, Left, Pending;
    assert x in Falls(h, {x});
    NonePending(h, l, Falls(h, {x}));
  }

  lemma LeftKeys(h: Heap, l: Heap, gone: set<Obj>)
    requires Left(h, l, gone)
    ensures Valid(l) && l.count.Keys == l.loose.Keys == h.loose.Keys - gone
  {
  }

  lemma OwnedHeld(h: Heap, x: Obj, m: Ptr)
    requires m in Owned(h, x)
    ensures m in Holders(h, Owned(h, x)[m]) && m in h.home && h.home[m] == x
  {
  }

  /** The references of the members to come are still there after one destructor has run. */
  lemma NextMember(h: Heap, x: Obj, c: Heap, l: Heap, gone: set<Obj>, ms: set<Ptr>, m: Ptr)
    requires MembersWait(h, x, c, gone, ms) && m in ms && Removed(c, l, Owned(h, x)[m], 1)
    ensures MembersWait(h, x, l, gone + Doomed(c, Owned(h, x)[m], 1), ms - {m})
  {
    hide Falls, Pending, Left, Doomed, Holders, Owned, Removed, Closed, Valid, Targets, Homes;
    var y := Owned(h, x)[m];
    FallsLeast(h, {x});
    OwnedHeld(h, x, m);
    StepFalls(h, c, gone, ms, m, y, Falls(h, {x}));
    PendingStep(h, c, l, gone, ms, m, y);
    forall k | k in ms - {m} ensures Owned(h, x)[k] in l.count {
      OwnedHeld(h, x, k);
      WaitsOn(h, c, l, gone, ms, m, k, y, Owned(h, x)[k]);
    }
  }

  lemma WaitsOn(h: Heap, c: Heap, l: Heap, gone: set<Obj>, ms: set<Ptr>, m: Ptr, k: Ptr, y: Obj, z: Obj)
    requires Pending(h, c, gone, ms) && {m, k} <= ms && m != k && m in Holders(h, y) && k in Holders(h, z)
    requires y in c.count && z in c.count && Removed(c, l, y, 1)
    ensures z in l.count
  {
    hide Falls, Left, Doomed, Holders, Valid;
    LeftKeys(c, l, Doomed(c, y, 1));
    LeftKeys(h, c, gone);
    PendingLives(h, c, gone, ms, m, k, y, z);
  }

  /** The reference of a member to come is counted. */
  lemma OwnedLoose(h: Heap, c: Heap, gone: set<Obj>, ms: set<Ptr>, m: Ptr, y: Obj)
    requires Pending(h, c, gone, ms) && m in ms && m in Holders(h, y) && y in c.count
    ensures Valid(c) && y in c.loose && c.loose[y] >= 1
  {
    hide Left, Holders, Valid;
    LeftKeys(h, c, gone);
    assert m in Holders(h, y) * ms;
  }

  /** Some members of a deleted object are still to end, and what they point to lives. */
  predicate MembersWait(h: Heap, x: Obj, c: Heap, gone: set<Obj>, ms: set<Ptr>) {
    && Pending(h, c, gone, ms)
    && x in gone && gone <= Falls(h, {x})
    && ms <= Owned(h, x).Keys
    && forall m | m in ms :: Owned(h, x)[m] in c.count
  }

  /** The reference of a member to come may be dropped, in a world with fewer objects. */
  lemma MemberMayEnd(h: Heap, x: Obj, c: Heap, gone: set<Obj>, ms: set<Ptr>, m: Ptr)
    requires Valid(h) && x in h.count && MembersWait(h, x, c, gone, ms) && m in ms
    ensures Owned(h, x)[m] in c.loose && c.loose[Owned(h, x)[m]] >= 1
    ensures Valid(c) && |c.count| < |h.count|
  {
    OwnedLoose(h, c, gone, ms, m, Owned(h, x)[m]);
    LeftKeys(h, c, gone);
    assert h.count.Keys == h.loose.Keys;
    AtLeast(c.count.Keys, h.count.Keys - {x});
  }

  lemma DeleteBegins(h: Heap, x: Obj)
    requires Valid(h) && x in h.count && h.count[x] == h.loose[x]
    ensures MembersWait(h, x, Deleted(h, x), {x}, Owned(h, x).Keys)
  {
    hide Falls, Pending, Targets, Homes, Left;
    DeletedIsPending(h, x);
    assert Counted(h, x) && Holders(h, x) == {};
    forall m | m in Owned(h, x) ensures Owned(h, x)[m] in Deleted(h, x).count {
      assert Owned(h, x)[m] == x ==> m in Holders(h, x);
    }
  }

  // ---- The operations of pointers

  /** One for a reference to `y`. */
  function Refers(t: Option<Obj>, y: Obj): nat {
    if t == Some(y) then 1 else 0
  }

  /** The pointer `a`, perhaps a new one, is made to point to `t`, and the counts follow. */
  predicate Repointed(h: Heap, l: Heap, a: Ptr, t: Option<Obj>) {
    && l.target == h.target[a := t]
    && (l.home == h.home || (exists x | x in h.count :: l.home == h.home[a := x]))
    && l.count.Keys == h.count.Keys && l.loose.Keys == h.loose.Keys
    && (t.Some? ==> t.value in h.count)
    && forall y | y in h.count && y in h.loose ::
      l.count[y] > 0 &&
      l.count[y] - l.loose[y] - Refers(t, y) ==
      h.count[y] - h.loose[y] - if a in h.target then Refers(h.target[a], y) else 0
  }

  lemma RepointedValid(h: Heap, l: Heap, a: Ptr, t: Option<Obj>)
    requires Valid(h) && Repointed(h, l, a, t)
    ensures Valid(l)
  {
    hide Wired, Holders;
    RepointedWired(h, l, a, t);
    forall y | y in l.count ensures Counted(l, y) {
      assert Counted(h, y);
      RepointedHolders(h, l, a, t, y);
    }
  }

  lemma RepointedWired(h: Heap, l: Heap, a: Ptr, t: Option<Obj>)
    requires Wired(h) && Repointed(h, l, a, t)
    ensures Wired(l)
  {
  }

  lemma RepointedHolders(h: Heap, l: Heap, a: Ptr, t: Option<Obj>, y: Obj)
    requires l.target == h.target[a := t]
    ensures |Holders(l, y)| - Refers(t, y) == |Holders(h, y)| - if a in h.target then Refers(h.target[a], y) else 0
  {
    OneLess(Holders(h, y), Holders(h, y) + {a}, a);
    OneLess(Holders(l, y), Holders(l, y) + {a}, a);
    var hs, ls := Holders(h, y), Holders(l, y);
    assert hs * (hs + {a}) == hs && ls * (ls + {a}) == ls;
    assert hs * (hs + {a} - {a}) == ls * (ls + {a} - {a});
  }

  /** The reference of `a` is held by `a` no more. */
  function Detached(h: Heap, a: Ptr): Heap
    requires Valid(h) && a in h.target && h.target[a].Some?
  {
    var x := h.target[a].value;
    h.(target := h.target[a := None], loose := h.loose[x := h.loose[x] + 1])
  }

  /** Dropping the reference of `a` ends the pointer `q`: it is a member of the object that the
    * reference was the last to, or of one that only that object kept alive, and so on. */
  predicate Undermines(h: Heap, a: Ptr, q: Ptr)
    requires Valid(h) && a in h.target
  {
    h.target[a].Some? && q in h.home && h.home[q] in Doomed(Detached(h, a), h.target[a].value, 1)
  }

  /** The reference that `a` held, if any, has been dropped. */
  predicate Dropped(h: Heap, l: Heap, a: Ptr)
    requires Valid(h) && a in h.target
  {
    if h.target[a].None? then l == h else Removed(Detached(h, a), l, h.target[a].value, 1)
  }

  /** A new pointer, null so far, on its own or as a member. */
  function Placed(h: Heap, a: Ptr, at: Option<Obj>): Heap {
    h.(target := h.target[a := None], home := if at.Some? then h.home[a := at.value] else h.home)
  }

  /** The null pointer `a` comes to share `t`. */
  function Shared(h: Heap, a: Ptr, t: Option<Obj>): Heap
    requires t.Some? ==> t.value in h.count
  {
    if t.None? then h.(target := h.target[a := None])
    else h.(target := h.target[a := t], count := h.count[t.value := h.count[t.value] + 1])
  }

  /** The reference that `x` had loose is taken over by the null pointer `a`. */
  function Attached(h: Heap, a: Ptr, x: Obj): Heap
    requires x in h.loose && h.loose[x] > 0
  {
    h.(target := h.target[a := Some(x)], loose := h.loose[x := h.loose[x] - 1])
  }

  lemma DetachedValid(h: Heap, a: Ptr)
    requires Valid(h) && a in h.target && h.target[a].Some?
    ensures Valid(Detached(h, a))
  {
    RepointedValid(h, Detached(h, a), a, None) by { CountsPositive(h); }
  }

  lemma AttachedValid(h: Heap, a: Ptr, x: Obj)
    requires Valid(h) && (a in h.target ==> h.target[a].None?) && x in h.loose && h.loose[x] > 0
    ensures Valid(Attached(h, a, x))
  {
    RepointedValid(h, Attached(h, a, x), a, Some(x)) by { CountsPositive(h); }
  }

  lemma PlacedValid(h: Heap, a: Ptr, at: Option<Obj>)
    requires Valid(h) && a !in h.target && (at.Some? ==> at.value in h.count)
    ensures Valid(Placed(h, a, at))
  {
    RepointedValid(h, Placed(h, a, at), a, None) by { CountsPositive(h); }
  }

  lemma SharedValid(h: Heap, a: Ptr, t: Option<Obj>)
    requires Valid(h) && a in h.target && h.target[a].None? && (t.Some? ==> t.value in h.count)
    ensures Valid(Shared(h, a, t))
  {
    RepointedValid(h, Shared(h, a, t), a, t) by { CountsPositive(h); }
  }

  /** The reference of `other` is taken over by the null pointer `a`. */
  function Taken(h: Heap, a: Ptr, other: Ptr): Heap
    requires other in h.target
  {
    h.(target := h.target[a := h.target[other]][other := None])
  }

  lemma TakenValid(h: Heap, a: Ptr, other: Ptr)
    requires Valid(h) && a in h.target && h.target[a].None? && other in h.target
    ensures Valid(Taken(h, a, other))
  {
    hide Valid;
    var t := h.target[other];
    if t.Some? {
      TargetLives(h, other);
      DetachedValid(h, other);
      AttachedValid(Detached(h, other), a, t.value);
      var l := Attached(Detached(h, other), a, t.value);
      assert l.target == Taken(h, a, other).target && l.loose == h.loose;
    } else {
      assert Taken(h, a, other).target == h.target;
    }
  }

  function Raised(h: Heap, x: Obj, n: nat): Heap
    requires x in h.count && x in h.loose
  {
    h.(count := h.count[x := h.count[x] + n], loose := h.loose[x := h.loose[x] + n])
  }

  lemma RaisedValid(h: Heap, x: Obj, n: nat)
    requires Valid(h) && x in h.count
    ensures Valid(Raised(h, x, n))
  {
    var l := Raised(h, x, n);
    forall y | y in l.count ensures Counted(l, y) {
      assert Counted(h, y) && Holders(l, y) == Holders(h, y);
    }
  }

  lemma NewValid(h: Heap, l: Heap, x: Obj, n: nat)
    requires Valid(h) && x !in h.count && n > 0
    requires l == h.(count := h.count[x := n], loose := h.loose[x := n])
    ensures Valid(l)
  {
    forall y | y in l.count ensures Counted(l, y) {
      assert Holders(l, y) == Holders(h, y);
      assert if y == x then Holders(h, x) == {} else Counted(h, y);
    }
  }

  lemma EndedValid(h: Heap, a: Ptr)
    requires Valid(h) && a in h.target && h.target[a].None? && a !in h.home
    ensures Valid(h.(target := h.target - {a}))
  {
    var l := h.(target := h.target - {a});
    forall y | y in l.count ensures Counted(l, y) {
      assert Counted(h, y) && Holders(l, y) == Holders(h, y);
    }
  }

  /** A pointer lives on unless it is undermined, and still points to what it did. */
  lemma DroppedPointer(h: Heap, l: Heap, a: Ptr, q: Ptr)
    requires Valid(h) && a in h.target && q in h.target && Dropped(h, l, a)
    ensures q in l.target <==> !Undermines(h, a, q)
    ensures q in l.target ==> l.target[q] == if q == a then None else h.target[q]
  {
    hide Valid, Falls;
  }

  /** An object goes exactly with its last reference, and otherwise only loses one. */
  lemma DroppedObject(h: Heap, l: Heap, a: Ptr)
    requires Valid(h) && a in h.target && h.target[a].Some? && Dropped(h, l, a)
    ensures var x := h.target[a].value;
      && (x in l.count <==> h.count[x] > 1)
      && (x in l.count ==> l == h.(target := h.target[a := None], count := h.count[x := h.count[x] - 1]))
  {
    hide Falls, Targets, Homes, Counted, Doomed, Left, Removed;
    DetachedValid(h, a);
    var d, x := Detached(h, a), h.target[a].value;
    CountsPositive(h);
    LastOrLowered(d, l, x);
    assert d.loose[x := d.loose[x] - 1] == h.loose;
  }

  lemma LastOrLowered(d: Heap, l: Heap, x: Obj)
    requires Valid(d) && x in d.count && d.loose[x] > 0 && Removed(d, l, x, 1)
    ensures x in l.count <==> d.count[x] != 1
    ensures x in l.count ==> l == Lowered(d, x, 1)
  {
    hide Falls;
    assert Counted(d, x);
    FallsLeast(d, {x});
    if d.count[x] != 1 {
      LoweredIsRemoved(d, x, 1);
      RemovedOnce(d, l, Lowered(d, x, 1), x, 1);
    }
  }

  /** What no member of a fallen object alone keeps alive stays: an object with a loose reference,
    * or with a pointer to it that is no member of an object that goes. */
  lemma Survives(h: Heap, l: Heap, x: Obj, n: nat, z: Obj)
    requires Valid(h) && x in h.count && n <= h.loose[x] && Removed(h, l, x, n) && z in h.count && z != x
    ensures z in l.count <==> h.loose[z] > 0 || exists q | q in Holders(h, z) :: q !in h.home || h.home[q] in l.count
  {
    hide Falls;
    FallsLeast(h, {x});
    LeftKeys(h, l, Doomed(h, x, n));
    if z in l.count && h.loose[z] == 0 {
      assert Counted(l, z);
      var q :| q in Holders(l, z);
      assert q in Targets(h, Doomed(h, x, n)) && q in Holders(h, z);
    }
    if q :| q in Holders(h, z) && (q !in h.home || h.home[q] in l.count) {
      assert q in l.target && l.target[q] == Some(z);
    }
  }

  /** Only a pointer that holds the last reference to its object undermines any, and only members. */
  lemma OnlyTheLast(h: Heap, a: Ptr, q: Ptr)
    requires Valid(h) && a in h.target && Undermines(h, a, q)
    ensures h.target[a].Some? && h.count[h.target[a].value] == 1 && q in h.home
  {
  }

  lemma TargetLives(h: Heap, q: Ptr)
    requires Valid(h) && q in h.target && h.target[q].Some?
    ensures h.target[q].value in h.count && h.target[q].value in h.loose
  {
  }

  lemma CountsPositive(h: Heap)
    requires Valid(h)
    ensures forall y | y in h.count :: h.count[y] > 0
  {
    forall y | y in h.count ensures h.count[y] > 0 { assert Counted(h, y); }
  }

  // ---- Assignments that meet ended objects

  /** `p = p->next`: the first of two nodes goes, and `next` (pointer 1, in node 10) with it. */
  lemma NextOfList()
    ensures var h := Heap(map[0 := Some(10), 1 := Some(11)], map[1 := 10], map[10 := 1, 11 := 1], map[10 := 0, 11 := 0]);
      Valid(h) && Undermines(h, 0, 1) && !Undermines(h, 0, 0)
  {
    var h := Heap(map[0 := Some(10), 1 := Some(11)], map[1 := 10], map[10 := 1, 11 := 1], map[10 := 0, 11 := 0]);
    assert Holders(h, 10) == {0} && Holders(h, 11) == {1};
  }

  /** `p = p->next->next`: what only the first node keeps alive goes too. */
  lemma NextButOne()
    ensures var h := Heap(map[0 := Some(10), 1 := Some(11), 2 := Some(12)], map[1 := 10, 2 := 11],
                          map[10 := 1, 11 := 1, 12 := 1], map[10 := 0, 11 := 0, 12 := 0]);
      Valid(h) && Undermines(h, 0, 2) && !Undermines(h, 0, 0)
  {
    hide Falls;
    var h := Heap(map[0 := Some(10), 1 := Some(11), 2 := Some(12)], map[1 := 10, 2 := 11],
                  map[10 := 1, 11 := 1, 12 := 1], map[10 := 0, 11 := 0, 12 := 0]);
    assert Holders(h, 10) == {0} && Holders(h, 11) == {1} && Holders(h, 12) == {2};
    FallsLeast(Detached(h, 0), {10});
    assert HeldOnlyBy(Detached(h, 0), 11, {10});
    assert HeldOnlyBy(Detached(h, 0), 11, Falls(Detached(h, 0), {10}));
  }

  /** A node that points to itself, assigned anything, or null: the pointer ends with the node. */
  lemma SelfCycle()
    ensures var h := Heap(map[0 := Some(10)], map[0 := 10], map[10 := 1], map[10 := 0]);
      Valid(h) && Undermines(h, 0, 0)
  {
    assert Holders(Heap(map[0 := Some(10)], map[0 := 10], map[10 := 1], map[10 := 0]), 10) == {0};
  }

  /** The pointer from node 10 to node 11 is the last to it, and the pointer back from 11 the last to 10. */
  lemma CycleOfTwo()
    ensures var h := Heap(map[0 := Some(11), 1 := Some(10)], map[0 := 10, 1 := 11], map[10 := 1, 11 := 1], map[10 := 0, 11 := 0]);
      Valid(h) && Undermines(h, 0, 0)
  {
    hide Falls;
    var h := Heap(map[0 := Some(11), 1 := Some(10)], map[0 := 10, 1 := 11], map[10 := 1, 11 := 1], map[10 := 0, 11 := 0]);
    assert Holders(h, 10) == {1} && Holders(h, 11) == {0};
    FallsLeast(Detached(h, 0), {11});
    assert HeldOnlyBy(Detached(h, 0), 10, Falls(Detached(h, 0), {11}));
  }

  class World {
    var heap: Heap

    constructor ()
      ensures heap == Heap(map[], map[], map[], map[]) && Valid(heap)
    {
      heap := Heap(map[], map[], map[], map[]);
    }

    /** Drops `n` loose references to `x`, which is deleted if they were the last. */
    method RemoveRef(x: Obj, n: nat)
      requires Valid(heap) && x in heap.count && n <= heap.loose[x]
      modifies this
      ensures Removed(old(heap), heap, x, n)
      decreases |heap.count|, 1
    {
      hide Falls, Pending, Lowered;
      ghost var h := heap;
      assert Counted(h, x);
      if heap.count[x] != n {
        LoweredIsRemoved(h, x, n);
        heap := Lowered(heap, x, n);
      } else {
        Delete(x);
        DeletedIsRemoved(h, heap, x);
      }
    }

    /** Deletes an object that no pointer holds: its members end, and the destructor of each drops
      * the reference that it owns, which may delete more. */
    method Delete(x: Obj)
      requires Valid(heap) && x in heap.count && heap.count[x] == heap.loose[x]
      modifies this
      ensures Pending(old(heap), heap, Falls(old(heap), {x}), {})
      decreases |heap.count|, 0
    {
      hide Valid, Falls, Left, Targets, Homes, Doomed, Removed, Pending, Holders, Deleted, Owned;
      ghost var h := heap;
      var owned := Owned(heap, x);
      DeleteBegins(h, x);
      heap := Deleted(heap, x);
      var ms := owned.Keys;
      ghost var gone := {x};
      while ms != {}
        invariant MembersWait(h, x, heap, gone, ms)
      {
        var m :| m in ms;
        ghost var c := heap;
        MemberMayEnd(h, x, c, gone, ms, m);
        RemoveRef(owned[m], 1);
        NextMember(h, x, c, heap, gone, ms, m);
        gone, ms := gone + Doomed(c, owned[m], 1), ms - {m};
      }
      FallsLeast(h, {x});
      NothingMoreFalls(h, heap, gone);
      assert gone == Falls(h, {x});
    }

    /** A new object, constructed with its first references. */
    method New(x: Obj, count: nat)
      requires Valid(heap) && x !in heap.count && count > 0
      modifies this
      ensures Valid(heap) && heap == old(heap).(count := old(heap.count)[x := count], loose := old(heap.loose)[x := count])
    {
      ghost var h := heap;
      heap := heap.(count := heap.count[x := count], loose := heap.loose[x := count]);
      NewValid(h, heap, x, count);
    }

    method AddRef(x: Obj, n: nat)
      requires Valid(heap) && x in heap.count
      modifies this
      ensures Valid(heap) && heap == Raised(old(heap), x, n)
    {
      RaisedValid(heap, x, n);
      heap := Raised(heap, x, n);
    }

    /** A pointer that takes over a loose reference. */
    method Own(a: Ptr, x: Obj, at: Option<Obj>)
      requires Valid(heap) && a !in heap.target && (at.Some? ==> at.value in heap.count)
      requires x in heap.count && heap.loose[x] > 0
      modifies this
      ensures Valid(heap) && heap == Attached(Placed(old(heap), a, at), a, x)
    {
      PlacedValid(heap, a, at);
      heap := Placed(heap, a, at);
      AttachedValid(heap, a, x);
      heap := Attached(heap, a, x);
    }

    /** The copy constructor: one more reference to the same object. */
    method Copy(a: Ptr, other: Ptr, at: Option<Obj>)
      requires Valid(heap) && a !in heap.target && (at.Some? ==> at.value in heap.count)
      requires other in heap.target
      modifies this
      ensures Valid(heap) && heap == Shared(Placed(old(heap), a, at), a, old(heap.target[other]))
    {
      PlacedValid(heap, a, at);
      heap := Placed(heap, a, at);
      SharedValid(heap, a, heap.target[other]);
      heap := Shared(heap, a, heap.target[other]);
    }

    /** The move constructor: the reference changes hands. */
    method Move(a: Ptr, other: Ptr, at: Option<Obj>)
      requires Valid(heap) && a !in heap.target && (at.Some? ==> at.value in heap.count)
      requires other in heap.target
      modifies this
      ensures Valid(heap) && heap == Taken(Placed(old(heap), a, at), a, other)
    {
      PlacedValid(heap, a, at);
      heap := Placed(heap, a, at);
      TakenValid(heap, a, other);
      heap := Taken(heap, a, other);
    }

    /** Drops the reference that a pointer holds, if it holds one. */
    method Drop(a: Ptr)
      requires Valid(heap) && a in heap.target
      modifies this
      ensures Valid(heap) && Dropped(old(heap), heap, a)
    {
      var t := heap.target[a];
      if t.Some? {
        DetachedValid(heap, a);
        heap := Detached(heap, a);
        RemoveRef(t.value, 1);
      }
    }

    /** The assignment of null, which then writes the pointer again. */
    method Reset(a: Ptr) returns (ok: bool)
      requires Valid(heap) && a in heap.target
      modifies this
      ensures Valid(heap) && Dropped(old(heap), heap, a)
      ensures ok <==> a in heap.target
      ensures ok <==> !Undermines(old(heap), a, a)
      ensures ok ==> heap.target[a] == None
    {
      hide Valid, Doomed, Detached;
      Drop(a);
      DroppedPointer(old(heap), heap, a, a);
      ok := a in heap.target;
    }

    /** The destructor of a pointer that is no member. */
    method Destroy(a: Ptr) returns (ghost mid: Heap)
      requires Valid(heap) && a in heap.target && a !in heap.home
      modifies this
      ensures Dropped(old(heap), mid, a) && a in mid.target && mid.target[a] == None
      ensures Valid(heap) && heap == mid.(target := mid.target - {a})
    {
      Drop(a);
      DroppedPointer(old(heap), heap, a, a);
      mid := heap;
      heap := heap.(target := heap.target - {a});
      EndedValid(mid, a);
    }

    /**
     * Copy assignment. The reference held is dropped before `other` is read and `a` is written: they
     * must outlive that.
     */
    method CopyAssign(a: Ptr, other: Ptr) returns (ok: bool, ghost mid: Heap)
      requires Valid(heap) && a in heap.target && other in heap.target
      modifies this
      ensures Valid(heap) && Valid(mid) && Dropped(old(heap), mid, a)
      ensures ok <==> a in mid.target && other in mid.target
      ensures ok <==> !Undermines(old(heap), a, a) && !Undermines(old(heap), a, other)
      ensures ok ==> mid.target[a] == None && heap == Shared(mid, a, mid.target[other])
      ensures ok ==> heap.target[a] == if a == other then None else old(heap.target[other])
    {
      hide Valid, Doomed, Detached, Undermines, Removed;
      Drop(a);
      mid := heap;
      DroppedPointer(old(heap), mid, a, a);
      DroppedPointer(old(heap), mid, a, other);
      if a !in heap.target || other !in heap.target { return false, mid; }
      if heap.target[other].Some? { TargetLives(heap, other); }
      SharedValid(heap, a, heap.target[other]);
      heap := Shared(heap, a, heap.target[other]);
      ok := true;
    }

    /** Move assignment. */
    method MoveAssign(a: Ptr, other: Ptr) returns (ok: bool, ghost mid: Heap)
      requires Valid(heap) && a in heap.target && other in heap.target
      modifies this
      ensures Valid(heap) && Valid(mid) && Dropped(old(heap), mid, a)
      ensures ok <==> a in mid.target && other in mid.target
      ensures ok <==> !Undermines(old(heap), a, a) && !Undermines(old(heap), a, other)
      ensures ok ==> mid.target[a] == None && heap == Taken(mid, a, other)
      ensures ok ==> heap.target[other] == None && heap.target[a] == if a == other then None else old(heap.target[other])
    {
      hide Valid, Doomed, Detached, Undermines, Removed;
      Drop(a);
      mid := heap;
      DroppedPointer(old(heap), mid, a, a);
      DroppedPointer(old(heap), mid, a, other);
      if a !in heap.target || other !in heap.target { return false, mid; }
      TakenValid(heap, a, other);
      heap := Taken(heap, a, other);
      ok := true;
    }

    /** Gives the reference up without dropping it. */
    method Release(a: Ptr) returns (out: Option<Obj>)
      requires Valid(heap) && a in heap.target
      modifies this
      ensures Valid(heap) && out == old(heap.target[a])
      ensures heap == if out.None? then old(heap) else Detached(old(heap), a)
    {
      out := heap.target[a];
      if out.Some? {
        DetachedValid(heap, a);
        heap := Detached(heap, a);
      }
    }
  }
}

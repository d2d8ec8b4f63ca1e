/** `when_all` over a range: one shared state, counted by the continuations that have not
  * let go of it, whose destructor sets the event. */
module WhenAll {
  import opened Options
  import opened Continuations

  /** What became of the continuation on one task of the range. Each holds a reference to
    * the shared state from the start, and releases it when its function object is
    * destroyed, after it ran or without having run. */
  datatype Part = Unregistered | Registered | Filled | Released(ran: bool)

  /** The destructor of the shared state, statement by statement. */
  datatype Ending = Alive | Exchanging | Storing | Publishing | DroppingEvent | Freed

  datatype Shared = Shared(
    tasks: seq<TaskId>,
    count: int,
    result: seq<Option<TaskId>>,
    parts: seq<Part>,
    registered: nat,
    ending: Ending,
    event: TaskState,
    value: seq<Option<TaskId>>,
    delivered: seq<seq<Option<TaskId>>>,
    abandoned: bool)

  function Repeat<T>(x: T, n: nat): (s: seq<T>)
    ensures |s| == n && forall k :: 0 <= k < n ==> s[k] == x
  {
    if n == 0 then [] else [x] + Repeat(x, n - 1)
  }

  ghost predicate Init(s: Shared) {
    && |s.tasks| > 0
    && s == Shared(s.tasks, |s.tasks|, Repeat(None, |s.tasks|), Repeat(Unregistered, |s.tasks|), 0, Alive, Pending, [], [], false)
  }

  // ---- Steps

  /** The loop of `when_all` adds the next continuation. */
  ghost predicate Register(s: Shared, s': Shared) {
    s.registered < |s.parts| &&
    s' == s.(parts := s.parts[s.registered := Registered], registered := s.registered + 1)
  }

  /** A continuation runs: it moves its task into its slot. */
  ghost predicate Fill(s: Shared, s': Shared, i: nat) {
    i < |s.parts| && s.parts[i].Registered? && i < |s.result| && i < |s.tasks| &&
    s' == s.(parts := s.parts[i := Filled], result := s.result[i := Some(s.tasks[i])])
  }

  /** `remove_ref`: who takes the count from one to zero deletes the state. */
  ghost predicate Release(s: Shared, s': Shared, i: nat) {
    i < |s.parts| && (s.parts[i].Registered? || s.parts[i].Filled?) &&
    s' == s.(parts := s.parts[i := Released(s.parts[i].Filled?)], count := s.count - 1,
             ending := if s.count == 1 then Exchanging else s.ending)
  }

  ghost predicate SwapState(s: Shared, s': Shared) {
    s.ending == Exchanging &&
    s' == if s.event == Pending then s.(event := Locked, ending := Storing) else s.(ending := DroppingEvent)
  }

  ghost predicate StoreResult(s: Shared, s': Shared) {
    s.ending == Storing && s' == s.(value := s.result, ending := Publishing)
  }

  ghost predicate Publish(s: Shared, s': Shared) {
    s.ending == Publishing && s' == s.(event := Completed, delivered := s.delivered + [s.value], ending := DroppingEvent)
  }

  /** The event's own destructor cancels an event that was never set. */
  ghost predicate DropEvent(s: Shared, s': Shared) {
    s.ending == DroppingEvent && s' == s.(ending := Freed, abandoned := !IsFinished(s.event))
  }

  ghost predicate Next(s: Shared, s': Shared) {
    || Register(s, s') || (exists i :: Fill(s, s', i)) || (exists i :: Release(s, s', i))
    || SwapState(s, s') || StoreResult(s, s') || Publish(s, s') || DropEvent(s, s')
  }

  ghost predicate IsRun(run: seq<Shared>) {
    |run| > 0 && Init(run[0]) && forall k :: 0 <= k < |run| - 1 ==> Next(run[k], run[k + 1])
  }

  // ---- The invariant

  /** The continuations that still hold a reference. */
  ghost function Holders(parts: seq<Part>): set<nat> {
    set i: nat | i < |parts| && !parts[i].Released?
  }

  ghost predicate PartsOk(s: Shared) {
    && |s.parts| == |s.result| == |s.tasks| > 0 && s.registered <= |s.parts|
    && (forall i :: 0 <= i < |s.parts| ==> (s.parts[i].Unregistered? <==> i >= s.registered))
    && (forall i :: 0 <= i < |s.parts| ==>
          s.result[i] == if s.parts[i].Filled? || s.parts[i] == Released(true) then Some(s.tasks[i]) else None)
  }

  ghost predicate EndOk(s: Shared) {
    && (s.ending == Alive || s.ending == Exchanging ==> s.event == Pending)
    && (s.ending == Storing || s.ending == Publishing ==> s.event == Locked)
    && (s.ending == Publishing ==> s.value == s.result)
    && (if s.ending == DroppingEvent || s.ending == Freed then s.event == Completed && s.delivered == [s.result]
        else s.delivered == [])
    && !s.abandoned
  }

  /** The reference count is the number of continuations that have not let go, and the
    * destructor starts when the last one does. */
  ghost predicate CountOk(s: Shared) {
    s.count == |Holders(s.parts)| && (s.ending == Alive <==> s.count > 0)
  }

  ghost predicate Inv(s: Shared) { PartsOk(s) && CountOk(s) && EndOk(s) }

  lemma Same(before: seq<Part>, after: seq<Part>)
    requires |before| == |after| && forall i :: 0 <= i < |before| ==> before[i].Released? == after[i].Released?
    ensures Holders(before) == Holders(after)
  {
  }

  lemma OneLess(before: seq<Part>, i: nat, ran: bool)
    requires i < |before| && !before[i].Released?
    ensures |Holders(before[i := Released(ran)])| == |Holders(before)| - 1
  {
    assert Holders(before[i := Released(ran)]) == Holders(before) - {i};
  }

  lemma Positive(parts: seq<Part>, i: nat)
    requires i < |parts| && !parts[i].Released?
    ensures |Holders(parts)| > 0
  {
    assert i in Holders(parts);
  }

  lemma {:induction false} AllHold(n: nat)
    ensures |Holders(Repeat(Unregistered, n))| == n
  {
    var now := Holders(Repeat(Unregistered, n));
    if n == 0 {
      assert now == {};
    } else {
      AllHold(n - 1);
      assert now == Holders(Repeat(Unregistered, n - 1)) + {n - 1};
    }
  }

  lemma InitInv(s: Shared)
    requires Init(s)
    ensures Inv(s)
  {
    AllHold(|s.tasks|);
  }

  lemma RegisterInv(s: Shared, s': Shared)
    requires Inv(s) && Register(s, s')
    ensures Inv(s')
  {
    hide Holders;
    Same(s.parts, s'.parts);
    Positive(s.parts, s.registered);
  }

  lemma FillInv(s: Shared, s': Shared, i: nat)
    requires Inv(s) && Fill(s, s', i)
    ensures Inv(s')
  {
    hide Holders;
    Same(s.parts, s'.parts);
    Positive(s.parts, i);
  }

  lemma ReleaseInv(s: Shared, s': Shared, i: nat)
    requires Inv(s) && Release(s, s', i)
    ensures Inv(s')
  {
    hide Holders;
    OneLess(s.parts, i, s.parts[i].Filled?);
    Positive(s.parts, i);
  }

  lemma NextInv(s: Shared, s': Shared)
    requires Inv(s) && Next(s, s')
    ensures Inv(s')
  {
    hide Fill, Release, Register, Holders;
    if Register(s, s') {
      RegisterInv(s, s');
    } else if i: nat :| Fill(s, s', i) {
      FillInv(s, s', i);
    } else if i: nat :| Release(s, s', i) {
      ReleaseInv(s, s', i);
    }
  }

  lemma {:induction false} RunInv(run: seq<Shared>, k: nat)
    requires IsRun(run) && k < |run|
    ensures Inv(run[k])
  {
    hide Inv, Next;
    if k == 0 {
      InitInv(run[0]);
    } else {
      RunInv(run, k - 1);
      assert Next(run[k - 1], run[k - 1 + 1]);
      NextInv(run[k - 1], run[k]);
    }
  }

  // ---- What holds of every run

  /** The reference count always equals the number of continuations that have not let go of
    * the state. While one of them, or the loop that registers them, may still use the state,
    * its destructor has not begun. */
  lemma NeverUsedAfterDeletion(run: seq<Shared>, k: nat)
    requires IsRun(run) && k < |run|
    ensures run[k].count == |Holders(run[k].parts)|
    ensures run[k].ending != Alive ==> forall i :: 0 <= i < |run[k].parts| ==> run[k].parts[i].Released?
    ensures run[k].ending != Alive ==> run[k].registered == |run[k].parts|
    ensures k + 1 < |run| && run[k].ending != Alive ==> run[k + 1].parts == run[k].parts && run[k + 1].result == run[k].result
  {
    RunInv(run, k);
    var s := run[k];
    if s.ending != Alive {
      forall i: nat | i < |s.parts| ensures s.parts[i].Released? {
        if !s.parts[i].Released? { Positive(s.parts, i); }
      }
      if s.registered < |s.parts| { Positive(s.parts, s.registered); }
      if k + 1 < |run| { assert Next(run[k], run[k + 1]); }
    }
  }

  /** The event is set at most once and never abandoned, and once the state is freed it has
    * been set exactly once. It is set only after every continuation has let go, and the value
    * holds the task of each one that ran; if none was dropped without running, all of them in
    * the order of the range. */
  lemma SetOnceWithAllResults(run: seq<Shared>, k: nat)
    requires IsRun(run) && k < |run|
    ensures |run[k].delivered| <= 1 && !run[k].abandoned
    ensures run[k].ending == Freed ==> |run[k].delivered| == 1
    ensures |run[k].delivered| == 1 <==> run[k].event == Completed
    ensures |run[k].delivered| == 1 ==>
      && |run[k].parts| == |run[k].tasks|
      && (forall i :: 0 <= i < |run[k].parts| ==> run[k].parts[i].Released?)
      && |run[k].delivered[0]| == |run[k].tasks|
      && (forall i :: 0 <= i < |run[k].tasks| ==>
            run[k].delivered[0][i] == if run[k].parts[i] == Released(true) then Some(run[k].tasks[i]) else None)
  {
    RunInv(run, k);
    NeverUsedAfterDeletion(run, k);
  }

  /** Until the state is freed, some step is possible. */
  lemma ProgressUntilFreed(run: seq<Shared>, k: nat)
    requires IsRun(run) && k < |run| && run[k].ending != Freed
    ensures CanStep(run[k])
  {
    RunInv(run, k);
    var s := run[k];
    if s.ending == Alive {
      assert |Holders(s.parts)| > 0;
      var i :| i in Holders(s.parts);
      if s.parts[i].Unregistered? {
        var s' := s.(parts := s.parts[s.registered := Registered], registered := s.registered + 1);
        assert Register(s, s');
        assert s'.registered != s.registered;
        assert Next(s, s');
      } else {
        var s' := s.(parts := s.parts[i := Released(s.parts[i].Filled?)], count := s.count - 1,
                     ending := if s.count == 1 then Exchanging else s.ending);
        assert Release(s, s', i);
        assert s'.count != s.count;
        assert Next(s, s');
      }
    } else {
      EndingMoves(s);
    }
  }

  /** How many steps a continuation may still take. */
  function StepsOf(p: Part): nat {
    match p
    case Unregistered => 3
    case Registered => 2
    case Filled => 1
    case Released(_) => 0
  }

  function StepsOfAll(parts: seq<Part>): nat {
    if parts == [] then 0 else StepsOf(parts[0]) + StepsOfAll(parts[1..])
  }

  /** How many steps the destructor may still take. */
  function StepsToFree(e: Ending): nat {
    match e
    case Alive => 5
    case Exchanging => 4
    case Storing => 3
    case Publishing => 2
    case DroppingEvent => 1
    case Freed => 0
  }

  /** The steps a state can still take. */
  function StepsLeft(s: Shared): nat { StepsOfAll(s.parts) + StepsToFree(s.ending) }

  lemma {:induction false} OnePartMoves(parts: seq<Part>, i: nat, p: Part)
    requires i < |parts|
    ensures StepsOfAll(parts[i := p]) == StepsOfAll(parts) - StepsOf(parts[i]) + StepsOf(p)
  {
    if i == 0 {
      assert parts[0 := p][1..] == parts[1..];
    } else {
      assert parts[i := p][1..] == parts[1..][i - 1 := p];
      OnePartMoves(parts[1..], i - 1, p);
    }
  }

  /** Every step uses up at least one. */
  lemma StepUsesUp(s: Shared, s': Shared)
    requires Inv(s) && Next(s, s')
    ensures StepsLeft(s') < StepsLeft(s)
  {
    hide StepsOfAll, Holders;
    if Register(s, s') {
      OnePartMoves(s.parts, s.registered, Registered);
    } else if i: nat :| Fill(s, s', i) {
      OnePartMoves(s.parts, i, Filled);
    } else if i: nat :| Release(s, s', i) {
      Positive(s.parts, i);
      OnePartMoves(s.parts, i, Released(s.parts[i].Filled?));
    }
  }

  lemma {:induction false} StepsAtFirst(n: nat)
    ensures StepsOfAll(Repeat(Unregistered, n)) == 3 * n
  {
    if n > 0 {
      StepsAtFirst(n - 1);
    }
  }

  lemma {:induction false} RunUsesUp(run: seq<Shared>, k: nat)
    requires IsRun(run) && k < |run|
    ensures k + StepsLeft(run[k]) <= 3 * |run[0].tasks| + 5
  {
    hide Next, Inv, StepsLeft;
    if k == 0 {
      assert StepsLeft(run[0]) == 3 * |run[0].tasks| + 5 by { LeftAtFirst(run[0]); }
    } else {
      RunInv(run, k - 1);
      assert Next(run[k - 1], run[k - 1 + 1]);
      StepUsesUp(run[k - 1], run[k]);
      RunUsesUp(run, k - 1);
    }
  }

  lemma LeftAtFirst(s: Shared)
    requires Init(s)
    ensures StepsLeft(s) == 3 * |s.tasks| + 5
  {
    StepsAtFirst(|s.tasks|);
  }

  /** The event cannot be missed: a run has at most three steps for each task and five more,
    * and a run that can go no further has freed the state and set the event exactly once. */
  lemma EveryRunDelivers(run: seq<Shared>)
    requires IsRun(run)
    ensures |run| <= 3 * |run[0].tasks| + 6
    ensures !CanStep(run[|run| - 1]) ==> run[|run| - 1].ending == Freed && |run[|run| - 1].delivered| == 1
  {
    RunUsesUp(run, |run| - 1);
    if run[|run| - 1].ending != Freed {
      ProgressUntilFreed(run, |run| - 1);
    }
    SetOnceWithAllResults(run, |run| - 1);
  }

  ghost predicate CanStep(s: Shared) { exists s' :: Next(s, s') && s' != s }

  lemma EndingMoves(s: Shared)
    requires Inv(s) && s.ending != Alive && s.ending != Freed
    ensures CanStep(s)
  {
    var s' :=
      match s.ending
      case Exchanging => if s.event == Pending then s.(event := Locked, ending := Storing) else s.(ending := DroppingEvent)
      case Storing => s.(value := s.result, ending := Publishing)
      case Publishing => s.(event := Completed, delivered := s.delivered + [s.value], ending := DroppingEvent)
      case _ => s.(ending := Freed, abandoned := !IsFinished(s.event));
    assert s'.ending != s.ending;
    assert SwapState(s, s') || StoreResult(s, s') || Publish(s, s') || DropEvent(s, s');
    assert Next(s, s');
  }
}

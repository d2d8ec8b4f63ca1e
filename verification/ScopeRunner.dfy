/** `ScopeRunner`: shared locks counted in one atomic word, and a stop that waits for them. */
module ScopeRunner {
  type ThreadId = nat

  /** How far a thread is in `continue_lock`, or the life of the lock it got. */
  datatype Locking = Outside | Entered | Trying(expected: int) | Holding | GotNull

  /** How far a thread is in `stop`. */
  datatype Stopping = Running | Exchanging(expected: int) | Stopped

  datatype State = State(count: int, lockers: map<ThreadId, Locking>, stoppers: map<ThreadId, Stopping>)

  function Lock(s: State, i: ThreadId): Locking { if i in s.lockers then s.lockers[i] else Outside }

  function Stop(s: State, i: ThreadId): Stopping { if i in s.stoppers then s.stoppers[i] else Running }

  function LockTo(s: State, i: ThreadId, p: Locking): State { s.(lockers := s.lockers[i := p]) }

  function StopTo(s: State, i: ThreadId, p: Stopping): State { s.(stoppers := s.stoppers[i := p]) }

  ghost predicate Init(s: State) { s == State(0, map[], map[]) }

  // ---- Steps of continue_lock and of the lock's destructor

  /** A thread calls `continue_lock`, for the first time or again after a call that gave null. */
  ghost predicate Enter(s: State, s': State, i: ThreadId) {
    (Lock(s, i).Outside? || Lock(s, i).GotNull?) && s' == LockTo(s, i, Entered)
  }

  ghost predicate Load(s: State, s': State, i: ThreadId) {
    Lock(s, i).Entered? && s' == LockTo(s, i, Trying(s.count))
  }

  ghost predicate GiveNull(s: State, s': State, i: ThreadId) {
    Lock(s, i).Trying? && Lock(s, i).expected < 0 && s' == LockTo(s, i, GotNull)
  }

  ghost predicate Acquire(s: State, s': State, i: ThreadId) {
    Lock(s, i).Trying? && Lock(s, i).expected >= 0 && s.count == Lock(s, i).expected &&
    s' == LockTo(s, i, Holding).(count := Lock(s, i).expected + 1)
  }

  /** The weak exchange may fail for no reason. */
  ghost predicate AcquireFails(s: State, s': State, i: ThreadId) {
    Lock(s, i).Trying? && Lock(s, i).expected >= 0 && s' == LockTo(s, i, Trying(s.count))
  }

  ghost predicate Release(s: State, s': State, i: ThreadId) {
    Lock(s, i).Holding? && s' == LockTo(s, i, Outside).(count := s.count - 1)
  }

  // ---- Steps of stop

  ghost predicate BeginStop(s: State, s': State, i: ThreadId) {
    Stop(s, i).Running? && s' == StopTo(s, i, Exchanging(0))
  }

  ghost predicate StopSucceeds(s: State, s': State, i: ThreadId) {
    Stop(s, i).Exchanging? && s.count == Stop(s, i).expected && s' == StopTo(s, i, Stopped).(count := -1)
  }

  /** On failure `expected` becomes the current count; a negative one ends the loop. */
  ghost predicate StopFails(s: State, s': State, i: ThreadId) {
    Stop(s, i).Exchanging? && s' == StopTo(s, i, if s.count < 0 then Stopped else Exchanging(0))
  }

  ghost predicate Next(s: State, s': State) {
    exists i :: Enter(s, s', i) || Load(s, s', i) || GiveNull(s, s', i) || Acquire(s, s', i) || AcquireFails(s, s', i)
             || Release(s, s', i) || BeginStop(s, s', i) || StopSucceeds(s, s', i) || StopFails(s, s', i)
  }

  ghost predicate IsRun(run: seq<State>) {
    |run| > 0 && Init(run[0]) && forall k :: 0 <= k < |run| - 1 ==> Next(run[k], run[k + 1])
  }

  // ---- The invariant

  ghost function Holders(lockers: map<ThreadId, Locking>): set<ThreadId> {
    set i | i in lockers && lockers[i].Holding?
  }

  /** The count is the number of live locks, or minus one with none alive. */
  ghost predicate Inv(s: State) {
    && s.count >= -1
    && |Holders(s.lockers)| == (if s.count < 0 then 0 else s.count)
    && (forall i :: Stop(s, i).Stopped? ==> s.count == -1)
    && (forall i :: Stop(s, i).Exchanging? ==> Stop(s, i).expected == 0)
  }

  /** Every call of `continue_lock` that this step ends gives null. */
  ghost predicate CallsGiveNull(s: State, s': State) {
    forall i :: Lock(s, i).Trying? && !Lock(s', i).Trying? ==> Lock(s', i).GotNull?
  }

  lemma HoldersMove(lockers: map<ThreadId, Locking>, i: ThreadId, p: Locking)
    ensures var h := Holders(lockers);
            var was := i in lockers && lockers[i].Holding?;
            |Holders(lockers[i := p])| == |h| - (if was then 1 else 0) + (if p.Holding? then 1 else 0)
    ensures i in lockers && lockers[i].Holding? ==> |Holders(lockers)| > 0
  {
    assert Holders(lockers[i := p]) == (Holders(lockers) - {i}) + if p.Holding? then {i} else {};
  }

  lemma NextInv(s: State, s': State)
    requires Inv(s) && Next(s, s')
    ensures Inv(s')
    ensures s.count == -1 ==> s'.count == -1 && CallsGiveNull(s, s')
  {
    hide Holders;
    var i :| Enter(s, s', i) || Load(s, s', i) || GiveNull(s, s', i) || Acquire(s, s', i) || AcquireFails(s, s', i)
          || Release(s, s', i) || BeginStop(s, s', i) || StopSucceeds(s, s', i) || StopFails(s, s', i);
    if !(BeginStop(s, s', i) || StopSucceeds(s, s', i) || StopFails(s, s', i)) {
      HoldersMove(s.lockers, i, Lock(s', i));
      LockStep(s, s', i);
    } else {
      StopStep(s, s', i);
    }
  }

  lemma LockStep(s: State, s': State, i: ThreadId)
    requires Inv(s) && s'.stoppers == s.stoppers
    requires Enter(s, s', i) || Load(s, s', i) || GiveNull(s, s', i) || Acquire(s, s', i) || AcquireFails(s, s', i) || Release(s, s', i)
    ensures Inv(s') && (s.count == -1 ==> s'.count == -1)
  {
    hide Holders;
    HoldersMove(s.lockers, i, Lock(s', i));
    assert forall j :: Stop(s', j) == Stop(s, j);
  }

  lemma StopStep(s: State, s': State, i: ThreadId)
    requires Inv(s) && (BeginStop(s, s', i) || StopSucceeds(s, s', i) || StopFails(s, s', i))
    ensures Inv(s') && (s.count == -1 ==> s'.count == -1)
  {
    hide Holders;
    assert s'.lockers == s.lockers;
    assert forall j :: j != i ==> Stop(s', j) == Stop(s, j);
  }

  lemma {:induction false} RunInv(run: seq<State>, k: nat)
    requires IsRun(run) && k < |run|
    ensures Inv(run[k])
  {
    hide Inv, Next;
    if k == 0 {
      InitInv(run[0]);
    } else {
      RunInv(run, k - 1);
      assert Next(run[k - 1], run[k - 1 + 1]);
      NextInv(run[k - 1], run[k]);
    }
  }

  lemma InitInv(s: State)
    requires Init(s)
    ensures Inv(s)
  {
    assert Holders(map[]) == {};
  }

  // ---- What holds of every run

  /** In every run, a count that is not negative is the number of live locks; a count of
    * minus one means that no lock is alive, and so does a `stop` that has returned. */
  lemma CountIsLiveLocks(run: seq<State>, k: nat)
    requires IsRun(run) && k < |run|
    ensures run[k].count >= 0 ==> run[k].count == |Holders(run[k].lockers)|
    ensures run[k].count < 0 ==> run[k].count == -1 && forall i :: !Lock(run[k], i).Holding?
    ensures (exists i :: Stop(run[k], i).Stopped?) ==> run[k].count == -1
  {
    RunInv(run, k);
    var s := run[k];
    if s.count < 0 {
      assert Holders(s.lockers) == {};
      assert forall i :: Lock(s, i).Holding? ==> i in Holders(s.lockers);
    }
  }

  /** After a `stop` has returned, the count stays at minus one, no lock is ever alive again,
    * and every call of `continue_lock` that ends gives null, even one that began before. */
  lemma {:induction false} StoppedForGood(run: seq<State>, j: nat, k: nat, i: ThreadId)
    requires IsRun(run) && j <= k < |run| && Stop(run[j], i).Stopped?
    ensures run[k].count == -1 && forall m :: !Lock(run[k], m).Holding?
    ensures k + 1 < |run| ==> CallsGiveNull(run[k], run[k + 1])
    decreases k
  {
    hide Next, Inv;
    if j < k {
      StoppedForGood(run, j, k - 1, i);
      RunInv(run, k - 1);
      assert Next(run[k - 1], run[k - 1 + 1]);
      NextInv(run[k - 1], run[k]);
    } else {
      CountIsLiveLocks(run, k);
    }
    CountIsLiveLocks(run, k);
    if k + 1 < |run| {
      RunInv(run, k);
      assert Next(run[k], run[k + 1]);
      NextInv(run[k], run[k + 1]);
    }
  }

  // ---- Null only after a stop

  /** At some point up to the `k`th the count was negative. */
  ghost predicate WasNegative(run: seq<State>, k: nat)
    requires k < |run|
  {
    exists j :: 0 <= j <= k && run[j].count < 0
  }

  /** The exchange of some `stop` succeeds in the step to the `k`th state. */
  ghost predicate StopsAt(run: seq<State>, k: nat) {
    0 < k < |run| && StopHappens(run[k - 1], run[k])
  }

  ghost predicate StopHappens(s: State, s': State) { exists i :: StopSucceeds(s, s', i) }

  /** A call that has read a negative count, or given null, did so because the count was negative. */
  lemma {:induction false} ReadNegative(run: seq<State>, k: nat, i: ThreadId)
    requires IsRun(run) && k < |run|
    requires Lock(run[k], i).GotNull? || (Lock(run[k], i).Trying? && Lock(run[k], i).expected < 0)
    ensures WasNegative(run, k)
  {
    if k > 0 {
      var s, s' := run[k - 1], run[k - 1 + 1];
      assert Next(s, s');
      if Lock(s, i) == Lock(s', i) || Lock(s, i).Trying? {
        if Lock(s, i).Trying? && Lock(s, i).expected >= 0 {
          assert s.count < 0;
        } else {
          ReadNegative(run, k - 1, i);
        }
      } else {
        assert s.count < 0;
      }
    }
  }

  /** The count becomes negative only by a `stop`. */
  lemma {:induction false} NegativeByStop(run: seq<State>, k: nat)
    requires IsRun(run) && k < |run| && run[k].count < 0
    ensures exists j: nat :: j <= k && StopsAt(run, j)
  {
    if k > 0 {
      var s, s' := run[k - 1], run[k - 1 + 1];
      assert Next(s, s');
      RunInv(run, k - 1);
      if s.count < 0 {
        NegativeByStop(run, k - 1);
      } else {
        OnlyStopGoesBelow(s, s');
        assert StopsAt(run, k);
      }
    }
  }

  lemma OnlyStopGoesBelow(s: State, s': State)
    requires Inv(s) && Next(s, s') && s.count >= 0 && s'.count < 0
    ensures StopHappens(s, s')
  {
    hide Holders;
    if i :| Release(s, s', i) {
      HoldersMove(s.lockers, i, Outside);
    }
  }

  /** In every run `continue_lock` gives null only if the count was negative by then, that is only after the
    * exchange of some `stop` has succeeded: before that every call that ends gives a lock. */
  lemma NullOnlyAfterStop(run: seq<State>, k: nat, i: ThreadId)
    requires IsRun(run) && k < |run| && Lock(run[k], i).GotNull?
    ensures WasNegative(run, k)
    ensures exists j: nat :: j <= k && StopsAt(run, j)
  {
    ReadNegative(run, k, i);
    var j :| 0 <= j <= k && run[j].count < 0;
    NegativeByStop(run, j);
  }

  // ---- Calls return

  /** The two steps that thread `i` needs for a call that nobody disturbs. */
  ghost predicate LockedBy(s: State, s1: State, s2: State, i: ThreadId) {
    Load(s, s1, i) && (GiveNull(s1, s2, i) || Acquire(s1, s2, i))
  }

  /** Undisturbed, `continue_lock` gives a lock exactly when the count is not negative, and null otherwise. */
  lemma ContinueLockReturns(s: State, i: ThreadId) returns (s1: State, s2: State)
    requires Lock(s, i).Entered?
    ensures LockedBy(s, s1, s2, i)
    ensures s.count >= 0 ==> Lock(s2, i).Holding? && s2.count == s.count + 1
    ensures s.count < 0 ==> Lock(s2, i).GotNull? && s2.count == s.count
  {
    s1 := LockTo(s, i, Trying(s.count));
    s2 := if s.count < 0 then LockTo(s1, i, GotNull) else LockTo(s1, i, Holding).(count := s.count + 1);
  }

  /** A `stop` in its loop can return exactly when no lock is alive. */
  lemma StopReturnsIff(run: seq<State>, k: nat, i: ThreadId)
    requires IsRun(run) && k < |run| && Stop(run[k], i).Exchanging?
    ensures (exists s' :: Returns(run[k], s', i)) <==> run[k].count <= 0
    ensures run[k].count <= 0 <==> Holders(run[k].lockers) == {}
  {
    RunInv(run, k);
    var s := run[k];
    if s.count <= 0 {
      var s' := StopTo(s, i, Stopped).(count := if s.count < 0 then s.count else -1);
      assert Returns(s, s', i);
    }
  }

  ghost predicate Returns(s: State, s': State, i: ThreadId) {
    (StopSucceeds(s, s', i) || StopFails(s, s', i)) && Stop(s', i).Stopped?
  }
}

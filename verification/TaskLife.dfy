/** The life of one `task_func`: its function object, its result union and its state, over
  * every path from construction to deletion. */
module TaskLife {
  import opened Continuations

  /** The union in a task, by the member written last. */
  datatype Slot = Unset | Scheduler | Result | Except(cause: Cause)

  /** Which exception a task is canceled with: that of a scheduler which could not take it, that of its parent, one
    * thrown by the function, by storing the result or by registering with the child, that of the child, or one thrown
    * by copying the child's result. */
  datatype Cause = NotExecuted | ParentsException | FromCall | FromResult | FromRegistration | ChildsException | FromCopy

  /** How the call of the function ends, and how a child task that it returned does. */
  datatype CallEnd = Returned | Threw | ParentWasCanceled
  datatype ChildEnd = ChildDone | ChildWasCanceled | CopyThrew

  /** Everything that the task itself does not decide. */
  datatype Fate = Fate(scheduled: bool, call: CallEnd, resultStored: bool, unwrap: bool, registered: bool, child: ChildEnd)

  /** Where the task is. Between `Ready` and `Finished` each value is the statement about
    * to execute. */
  datatype Point =
    | Ready
    | Invoking
    | SettingResult
    | DestroyingFunc
    | Finishing
    | Canceling(cause: Cause)
    | SettingException(cause: Cause)
    | FinishingCanceled
    | Unwrapping
    | DestroyingUnwrapped
    | AddingUnwrapper
    | AwaitingChild
    | ForwardingResult
    | Finished
    | Deleted

  /** `fate` never changes; `func` tells whether the function object exists, `queued` whether a parent task may
    * schedule this one; the counters say how often each of
    * the three objects a task may hold was constructed and destroyed. */
  datatype Task = Task(
    fate: Fate,
    state: TaskState,
    slot: Slot,
    func: bool,
    queued: bool,
    at: Point,
    funcDestroyed: nat,
    resultsMade: nat,
    resultsDestroyed: nat,
    exceptionsMade: nat,
    exceptionsDestroyed: nat)

  ghost predicate Init(s: Task) { s == Task(s.fate, Pending, Unset, true, false, Ready, 0, 0, 0, 0, 0) }

  /** A continuation stores its scheduler before it is handed to its parent, which reads it
    * there to schedule the continuation. */
  ghost predicate StoreScheduler(s: Task, s': Task) {
    s.at == Ready && !s.queued && s' == s.(slot := Scheduler)
  }

  ghost predicate HandToParent(s: Task, s': Task) {
    s.at == Ready && s.slot == Scheduler && s' == s.(queued := true)
  }

  /** `destroy_func`: it destroys whatever is there, so nothing must be missing. */
  function DestroyFunc(s: Task): Task { s.(func := false, funcDestroyed := s.funcDestroyed + 1) }

  // ---- run, cancel and the execution functions

  ghost predicate Run(s: Task, s': Task) { s.at == Ready && s.fate.scheduled && s' == s.(at := Invoking) }

  /** A value continuation whose parent was canceled cancels itself without calling anything. */
  ghost predicate ParentCanceled(s: Task, s': Task) {
    s.at == Invoking && s.fate.call.ParentWasCanceled? && s' == s.(at := Canceling(ParentsException))
  }

  ghost predicate InvokeThrows(s: Task, s': Task) {
    s.at == Invoking && s.fate.call.Threw? && s' == s.(at := Canceling(FromCall))
  }

  ghost predicate InvokeReturns(s: Task, s': Task) {
    s.at == Invoking && s.fate.call.Returned? && s' == s.(at := if s.fate.unwrap then Unwrapping else SettingResult)
  }

  ghost predicate SetResultThrows(s: Task, s': Task) {
    s.at == SettingResult && !s.fate.resultStored && s' == s.(at := Canceling(FromResult))
  }

  ghost predicate SetResult(s: Task, s': Task) {
    s.at == SettingResult && s.fate.resultStored && s' == s.(at := DestroyingFunc, slot := Result, resultsMade := s.resultsMade + 1)
  }

  ghost predicate DestroyAfterRun(s: Task, s': Task) {
    s.at == DestroyingFunc && s' == DestroyFunc(s).(at := Finishing)
  }

  ghost predicate Finish(s: Task, s': Task) {
    s.at == Finishing && s' == s.(state := Completed, at := Finished)
  }

  /** A task that could not be scheduled is canceled. */
  ghost predicate CancelUnscheduled(s: Task, s': Task) {
    s.at == Ready && !s.fate.scheduled && s' == s.(at := Canceling(NotExecuted))
  }

  ghost predicate DestroyOnCancel(s: Task, s': Task) {
    s.at.Canceling? && s' == DestroyFunc(s).(at := SettingException(s.at.cause))
  }

  ghost predicate SetException(s: Task, s': Task) {
    s.at.SettingException? && s' == s.(at := FinishingCanceled, slot := Except(s.at.cause), exceptionsMade := s.exceptionsMade + 1)
  }

  ghost predicate FinishCanceled(s: Task, s': Task) {
    s.at == FinishingCanceled && s' == s.(state := Canceled, at := Finished)
  }

  // ---- Unwrapping

  ghost predicate MarkUnwrapped(s: Task, s': Task) {
    s.at == Unwrapping && s' == s.(state := Unwrapped, at := DestroyingUnwrapped)
  }

  ghost predicate DestroyUnwrapped(s: Task, s': Task) {
    s.at == DestroyingUnwrapped && s' == DestroyFunc(s).(at := AddingUnwrapper)
  }

  ghost predicate AddUnwrapperThrows(s: Task, s': Task) {
    s.at == AddingUnwrapper && !s.fate.registered && s' == s.(at := SettingException(FromRegistration))
  }

  ghost predicate AddUnwrapper(s: Task, s': Task) { s.at == AddingUnwrapper && s.fate.registered && s' == s.(at := AwaitingChild) }

  ghost predicate ChildCompleted(s: Task, s': Task) {
    s.at == AwaitingChild && !s.fate.child.ChildWasCanceled? && s' == s.(at := ForwardingResult)
  }

  ghost predicate ChildCanceled(s: Task, s': Task) {
    s.at == AwaitingChild && s.fate.child.ChildWasCanceled? && s' == s.(at := SettingException(ChildsException))
  }

  ghost predicate ForwardThrows(s: Task, s': Task) {
    s.at == ForwardingResult && s.fate.child.CopyThrew? && s' == s.(at := SettingException(FromCopy))
  }

  ghost predicate Forward(s: Task, s': Task) {
    s.at == ForwardingResult && s.fate.child.ChildDone? && s' == s.(at := Finishing, slot := Result, resultsMade := s.resultsMade + 1)
  }

  // ---- Deletion, when nobody holds a reference any more

  /** The three destructors, most derived first; each goes by the state alone. */
  function Destroyed(s: Task): Task {
    var s1 := if s.state == Pending then DestroyFunc(s) else s;
    var s2 := if s1.state == Canceled then s1.(exceptionsDestroyed := s1.exceptionsDestroyed + 1) else s1;
    if s2.state == Completed then s2.(resultsDestroyed := s2.resultsDestroyed + 1) else s2
  }

  ghost predicate Delete(s: Task, s': Task) {
    (s.at == Ready || s.at == AwaitingChild || s.at == Finished) && s' == Destroyed(s).(at := Deleted)
  }

  ghost predicate RunStep(s: Task, s': Task) {
    || Run(s, s') || ParentCanceled(s, s') || InvokeThrows(s, s') || InvokeReturns(s, s')
    || SetResultThrows(s, s') || SetResult(s, s') || DestroyAfterRun(s, s') || Finish(s, s')
    || CancelUnscheduled(s, s') || DestroyOnCancel(s, s') || SetException(s, s') || FinishCanceled(s, s')
  }

  ghost predicate UnwrapStep(s: Task, s': Task) {
    || MarkUnwrapped(s, s') || DestroyUnwrapped(s, s') || AddUnwrapperThrows(s, s') || AddUnwrapper(s, s')
    || ChildCompleted(s, s') || ChildCanceled(s, s') || ForwardThrows(s, s') || Forward(s, s')
  }

  ghost predicate Next(s: Task, s': Task) {
    StoreScheduler(s, s') || HandToParent(s, s') || RunStep(s, s') || UnwrapStep(s, s') || Delete(s, s')
  }

  ghost predicate IsRun(run: seq<Task>) {
    |run| > 0 && Init(run[0]) && forall k :: 0 <= k < |run| - 1 ==> Next(run[k], run[k + 1])
  }

  // ---- The invariant

  /** The function object is there up to the statement that destroys it. */
  predicate HasFunc(at: Point) {
    at == Ready || at == Invoking || at == SettingResult || at == DestroyingFunc || at.Canceling? ||
    at == Unwrapping || at == DestroyingUnwrapped
  }

  /** The states a task can have at each point. */
  predicate StateFits(at: Point, state: TaskState) {
    match at
    case Ready | Invoking | SettingResult | DestroyingFunc | Canceling(_) | Unwrapping => state == Pending
    case DestroyingUnwrapped | AddingUnwrapper | AwaitingChild | ForwardingResult => state == Unwrapped
    case Finishing | SettingException(_) | FinishingCanceled => state == Pending || state == Unwrapped
    case Finished => IsFinished(state)
    case Deleted => state == Pending || state == Unwrapped || IsFinished(state)
  }

  /** The union by point: the result or the exception once it was written, until then what
    * construction left. */
  predicate SlotFits(s: Task) {
    match s.at
    case DestroyingFunc | Finishing => s.slot == Result
    case FinishingCanceled => s.slot.Except?
    case Finished | Deleted =>
      (s.state == Completed ==> s.slot == Result) && (s.state == Canceled ==> s.slot.Except?) &&
      (!IsFinished(s.state) ==> s.slot == Unset || s.slot == Scheduler)
    case _ => s.slot == Unset || s.slot == Scheduler
  }

  predicate CountsFit(s: Task) {
    && s.func == HasFunc(s.at)
    && s.funcDestroyed == (if s.func then 0 else 1)
    && s.resultsMade == (if s.slot == Result then 1 else 0)
    && s.exceptionsMade == (if s.slot.Except? then 1 else 0)
    && s.resultsDestroyed == (if s.at == Deleted then s.resultsMade else 0)
    && s.exceptionsDestroyed == (if s.at == Deleted then s.exceptionsMade else 0)
  }

  predicate Inv(s: Task) {
    StateFits(s.at, s.state) && SlotFits(s) && CountsFit(s) && (s.queued && s.at == Ready ==> s.slot == Scheduler)
  }

  lemma InitInv(s: Task)
    requires Init(s)
    ensures Inv(s)
  {
  }

  lemma RunStepInv(s: Task, s': Task)
    requires Inv(s) && RunStep(s, s')
    ensures Inv(s') && !IsFinished(s.state)
  {
  }

  lemma UnwrapStepInv(s: Task, s': Task)
    requires Inv(s) && UnwrapStep(s, s')
    ensures Inv(s') && !IsFinished(s.state)
  {
  }

  lemma NextInv(s: Task, s': Task)
    requires Inv(s) && Next(s, s')
    ensures Inv(s')
    ensures IsFinished(s.state) ==> s'.state == s.state && s'.slot == s.slot
  {
    hide RunStep, UnwrapStep;
    if RunStep(s, s') {
      RunStepInv(s, s');
    } else if UnwrapStep(s, s') {
      UnwrapStepInv(s, s');
    }
  }

  lemma {:induction false} RunInv(run: seq<Task>, k: nat)
    requires IsRun(run) && k < |run|
    ensures Inv(run[k])
  {
    if k == 0 {
      InitInv(run[0]);
    } else {
      RunInv(run, k - 1);
      assert Next(run[k - 1], run[k - 1 + 1]);
      NextInv(run[k - 1], run[k]);
    }
  }

  // ---- What holds of every life

  /** The function object is never destroyed twice nor used after that; when the task is
    * deleted it, and every result and exception that was constructed, has been destroyed
    * exactly once. */
  lemma DestroyedExactlyOnce(run: seq<Task>, k: nat)
    requires IsRun(run) && k < |run|
    ensures run[k].funcDestroyed <= 1
    ensures run[k].at == Invoking || run[k].at.Canceling? || run[k].at == DestroyingFunc || run[k].at == DestroyingUnwrapped ==>
      run[k].func && run[k].funcDestroyed == 0
    ensures run[k].at == Deleted ==>
      run[k].funcDestroyed == 1 &&
      run[k].resultsDestroyed == run[k].resultsMade <= 1 && run[k].exceptionsDestroyed == run[k].exceptionsMade <= 1
  {
    RunInv(run, k);
  }

  /** A task that finished keeps its state and its union for good. */
  lemma {:induction false} FinishedForGood(run: seq<Task>, j: nat, k: nat)
    requires IsRun(run) && j <= k < |run| && IsFinished(run[j].state)
    ensures run[k].state == run[j].state && run[k].slot == run[j].slot
    decreases k
  {
    hide Next, Inv;
    if j < k {
      FinishedForGood(run, j, k - 1);
      RunInv(run, k - 1);
      assert Next(run[k - 1], run[k - 1 + 1]);
      NextInv(run[k - 1], run[k]);
    }
  }

  /** Readers go by the state, and the union holds what they then read: a result if the task
    * completed, an exception if it was canceled, the scheduler if it is a continuation that
    * has not been run yet. */
  lemma ReadsWhatWasWritten(run: seq<Task>, k: nat)
    requires IsRun(run) && k < |run|
    ensures run[k].state == Completed ==> run[k].slot == Result
    ensures run[k].state == Canceled ==> run[k].slot.Except?
    ensures run[k].at == Ready && run[k].queued ==> run[k].slot == Scheduler
  {
    RunInv(run, k);
  }

  // ---- How a task ends

  /** The call returned, and its result could be stored, or the child task that it returned delivered one. */
  predicate Succeeds(f: Fate) {
    f.scheduled && f.call.Returned? && if f.unwrap then f.registered && f.child.ChildDone? else f.resultStored
  }

  /** The exception of the first thing that went wrong. */
  function Failure(f: Fate): Cause
    requires !Succeeds(f)
  {
    if !f.scheduled then NotExecuted
    else match f.call
      case ParentWasCanceled => ParentsException
      case Threw => FromCall
      case Returned =>
        if !f.unwrap then FromResult
        else if !f.registered then FromRegistration
        else if f.child.ChildWasCanceled? then ChildsException
        else FromCopy
  }

  predicate FailsWith(f: Fate, c: Cause) { !Succeeds(f) && Failure(f) == c }

  /** What has gone well so far. */
  predicate OnCourse(s: Task) {
    var f := s.fate;
    match s.at
    case Ready => true
    case Invoking => f.scheduled
    case SettingResult => f.scheduled && f.call.Returned? && !f.unwrap
    case DestroyingFunc | Finishing => Succeeds(f)
    case Canceling(c) => FailsWith(f, c)
    case SettingException(c) => FailsWith(f, c)
    case FinishingCanceled => s.slot.Except? && FailsWith(f, s.slot.cause)
    case Unwrapping | DestroyingUnwrapped | AddingUnwrapper => f.scheduled && f.call.Returned? && f.unwrap
    case AwaitingChild => f.scheduled && f.call.Returned? && f.unwrap && f.registered
    case ForwardingResult => f.scheduled && f.call.Returned? && f.unwrap && f.registered && !f.child.ChildWasCanceled?
    case Finished | Deleted => EndsAs(s)
  }

  predicate EndsAs(s: Task) {
    && (s.state == Completed ==> Succeeds(s.fate))
    && (s.state == Canceled ==> s.slot.Except? && FailsWith(s.fate, s.slot.cause))
  }

  lemma StaysOnCourse(s: Task, s': Task)
    requires Inv(s) && OnCourse(s) && Next(s, s')
    ensures OnCourse(s') && s'.fate == s.fate
  {
    hide RunStep, UnwrapStep;
    if RunStep(s, s') {
      RunStaysOnCourse(s, s');
    } else if UnwrapStep(s, s') {
      UnwrapStaysOnCourse(s, s');
    }
  }

  lemma RunStaysOnCourse(s: Task, s': Task)
    requires Inv(s) && OnCourse(s) && RunStep(s, s')
    ensures OnCourse(s') && s'.fate == s.fate
  {
  }

  lemma UnwrapStaysOnCourse(s: Task, s': Task)
    requires Inv(s) && OnCourse(s) && UnwrapStep(s, s')
    ensures OnCourse(s') && s'.fate == s.fate
  {
  }

  lemma {:induction false} RunOnCourse(run: seq<Task>, k: nat)
    requires IsRun(run) && k < |run|
    ensures OnCourse(run[k]) && run[k].fate == run[0].fate
  {
    hide Inv, Next, OnCourse;
    if k == 0 {
      assert OnCourse(run[0]) by { ReadyOnCourse(run[0]); }
    } else {
      RunInv(run, k - 1);
      RunOnCourse(run, k - 1);
      assert Next(run[k - 1], run[k - 1 + 1]);
      StaysOnCourse(run[k - 1], run[k]);
    }
  }

  lemma ReadyOnCourse(s: Task)
    requires Init(s)
    ensures OnCourse(s)
  {
  }

  /**
   * In every run a finished task has completed exactly if it was scheduled, the function was called and returned, and
   * its result was stored, or the child task that it returned completed and its result could be copied. Otherwise it
   * is canceled, with the exception of what went wrong.
   */
  lemma EndsByFate(run: seq<Task>, k: nat)
    requires IsRun(run) && k < |run| && IsFinished(run[k].state)
    ensures run[k].state == Completed <==> Succeeds(run[0].fate)
    ensures run[k].state == Canceled ==> run[k].slot == Except(Failure(run[0].fate))
  {
    RunInv(run, k);
    RunOnCourse(run, k);
  }

  /** Until it has finished, some statement of the task, of its scheduler or of its child can be executed. */
  lemma NeverStuck(run: seq<Task>, k: nat) returns (s': Task)
    requires IsRun(run) && k < |run| && run[k].at != Finished && run[k].at != Deleted
    ensures RunStep(run[k], s') || UnwrapStep(run[k], s')
  {
    RunOnCourse(run, k);
    var s := run[k];
    var f := s.fate;
    match s.at
    case Ready => s' := s.(at := if f.scheduled then Invoking else Canceling(NotExecuted));
    case Invoking =>
      s' := s.(at := match f.call
                     case ParentWasCanceled => Canceling(ParentsException)
                     case Threw => Canceling(FromCall)
                     case Returned => if f.unwrap then Unwrapping else SettingResult);
    case SettingResult =>
      s' := if f.resultStored then s.(at := DestroyingFunc, slot := Result, resultsMade := s.resultsMade + 1)
            else s.(at := Canceling(FromResult));
    case DestroyingFunc => s' := DestroyFunc(s).(at := Finishing);
    case Finishing => s' := s.(state := Completed, at := Finished);
    case Canceling(c) => s' := DestroyFunc(s).(at := SettingException(c));
    case SettingException(c) => s' := s.(at := FinishingCanceled, slot := Except(c), exceptionsMade := s.exceptionsMade + 1);
    case FinishingCanceled => s' := s.(state := Canceled, at := Finished);
    case Unwrapping => s' := s.(state := Unwrapped, at := DestroyingUnwrapped);
    case DestroyingUnwrapped => s' := DestroyFunc(s).(at := AddingUnwrapper);
    case AddingUnwrapper => s' := s.(at := if f.registered then AwaitingChild else SettingException(FromRegistration));
    case AwaitingChild => s' := s.(at := if f.child.ChildWasCanceled? then SettingException(ChildsException) else ForwardingResult);
    case ForwardingResult =>
      s' := if f.child.CopyThrew? then s.(at := SettingException(FromCopy))
            else s.(at := Finishing, slot := Result, resultsMade := s.resultsMade + 1);
  }

  /** How many statements are left at most. */
  function Left(at: Point): nat {
    match at
    case Ready => 9
    case Invoking => 8
    case Unwrapping => 7
    case DestroyingUnwrapped => 6
    case AddingUnwrapper => 5
    case AwaitingChild => 4
    case SettingResult => 4
    case ForwardingResult | Canceling(_) => 3
    case DestroyingFunc | SettingException(_) => 2
    case Finishing | FinishingCanceled => 1
    case Finished | Deleted => 0
  }

  /** Each statement brings the task closer to its end. */
  lemma EveryStatementCounts(s: Task, s': Task)
    requires RunStep(s, s') || UnwrapStep(s, s')
    ensures Left(s'.at) < Left(s.at)
  {
  }
}

/** `basic_event`: any number of threads race to set a value or an exception. */
module BasicEvent {
  import opened Options
  import opened Continuations

  datatype Payload = Value(value: int) | Exception(exception: int)

  datatype Setting =
    | Out
    | Called(what: Payload)
    | Won(what: Payload)
    | Raised(exception: int)
    | Publishing(what: Payload)
    | Returned(ok: bool)

  /** `calls` records what each thread asked for, `published` each completion of the task. */
  datatype Event = Event(
    state: TaskState,
    slot: Option<Payload>,
    setters: map<ThreadId, Setting>,
    calls: map<ThreadId, Payload>,
    winner: Option<ThreadId>,
    published: seq<Payload>)

  function Phase(s: Event, i: ThreadId): Setting { if i in s.setters then s.setters[i] else Out }

  function To(s: Event, i: ThreadId, p: Setting): Event { s.(setters := s.setters[i := p]) }

  ghost predicate Init(s: Event) { s == Event(Pending, None, map[], map[], None, []) }

  ghost predicate Call(s: Event, s': Event, i: ThreadId, what: Payload) {
    Phase(s, i).Out? && s' == To(s, i, Called(what)).(calls := s.calls[i := what])
  }

  /** The strong compare-exchange from pending to locked. */
  ghost predicate Swap(s: Event, s': Event, i: ThreadId) {
    Phase(s, i).Called? &&
    s' == if s.state == Pending then To(s, i, Won(Phase(s, i).what)).(state := Locked, winner := Some(i))
          else To(s, i, Returned(false))
  }

  ghost predicate Store(s: Event, s': Event, i: ThreadId) {
    Phase(s, i).Won? &&
    s' == To(s, i, Publishing(Phase(s, i).what)).(slot := Some(Phase(s, i).what))
  }

  /** Copying the value threw; the task is then canceled with what was thrown. */
  ghost predicate StoreThrows(s: Event, s': Event, i: ThreadId, thrown: int) {
    Phase(s, i).Won? && Phase(s, i).what.Value? && s' == To(s, i, Raised(thrown))
  }

  ghost predicate StoreThrown(s: Event, s': Event, i: ThreadId) {
    Phase(s, i).Raised? &&
    var e := Exception(Phase(s, i).exception);
    s' == To(s, i, Publishing(e)).(slot := Some(e))
  }

  ghost predicate Publish(s: Event, s': Event, i: ThreadId) {
    Phase(s, i).Publishing? &&
    var what := Phase(s, i).what;
    s' == To(s, i, Returned(true)).(state := if what.Value? then Completed else Canceled, published := s.published + [what])
  }

  ghost predicate Next(s: Event, s': Event) {
    || (exists i, what :: Call(s, s', i, what))
    || (exists i :: Swap(s, s', i))
    || (exists i :: Store(s, s', i))
    || (exists i, thrown :: StoreThrows(s, s', i, thrown))
    || (exists i :: StoreThrown(s, s', i))
    || (exists i :: Publish(s, s', i))
  }

  ghost predicate IsRun(run: seq<Event>) {
    |run| > 0 && Init(run[0]) && forall k :: 0 <= k < |run| - 1 ==> Next(run[k], run[k + 1])
  }

  predicate Winning(p: Setting) { p.Won? || p.Raised? || p.Publishing? || p == Returned(true) }

  /** Whose call and which payload: only the winner is past the exchange, and until it
    * publishes, the task is locked. */
  ghost predicate Inv(s: Event) {
    && (s.state == Pending || s.state == Locked || IsFinished(s.state))
    && (s.state == Pending <==> s.winner.None?)
    && (forall i: ThreadId :: Winning(Phase(s, i)) <==> s.winner == Some(i))
    && (forall i: ThreadId :: Phase(s, i) == Returned(false) ==> s.state != Pending)
    && (forall i: ThreadId :: Phase(s, i).Called? || Phase(s, i).Won? ==> i in s.calls && s.calls[i] == Phase(s, i).what)
    && (s.winner.Some? ==>
          var w := s.winner.value;
          var p := Phase(s, w);
          && w in s.calls
          && (IsFinished(s.state) <==> p == Returned(true))
          && (p.Won? || p.Raised? ==> s.slot == None)
          && (p.Raised? ==> s.calls[w].Value?)
          && (p.Publishing? ==> s.slot == Some(p.what))
          && (p.Publishing? || p.Returned? ==> s.slot.Some? && (s.slot.value == s.calls[w] || (s.calls[w].Value? && s.slot.value.Exception?))))
    && (s.winner.None? ==> s.slot == None)
    && (if IsFinished(s.state) then s.slot.Some? && s.published == [s.slot.value] && (s.state == Completed <==> s.slot.value.Value?)
        else s.published == [])
  }

  lemma NextInv(s: Event, s': Event)
    requires Inv(s) && Next(s, s')
    ensures Inv(s')
    ensures IsFinished(s.state) ==> s'.state == s.state && s'.slot == s.slot && s'.published == s.published
  {
    hide Inv;
    if i, what :| Call(s, s', i, what) { CallInv(s, s', i, what); }
    else if i :| Swap(s, s', i) { SwapInv(s, s', i); }
    else if i :| Store(s, s', i) { StoreInv(s, s', i); }
    else if i, thrown :| StoreThrows(s, s', i, thrown) { ThrowsInv(s, s', i, thrown); }
    else if i :| StoreThrown(s, s', i) { ThrownInv(s, s', i); }
    else { var i :| Publish(s, s', i); PublishInv(s, s', i); }
  }

  lemma CallInv(s: Event, s': Event, i: ThreadId, what: Payload)
    requires Inv(s) && Call(s, s', i, what)
    ensures Inv(s')
  {
  }

  lemma SwapInv(s: Event, s': Event, i: ThreadId)
    requires Inv(s) && Swap(s, s', i)
    ensures Inv(s')
    ensures IsFinished(s.state) ==> s'.state == s.state && s'.slot == s.slot && s'.published == s.published
  {
  }

  lemma StoreInv(s: Event, s': Event, i: ThreadId)
    requires Inv(s) && Store(s, s', i)
    ensures Inv(s') && !IsFinished(s.state)
  {
    assert Winning(Phase(s, i));
  }

  lemma ThrowsInv(s: Event, s': Event, i: ThreadId, thrown: int)
    requires Inv(s) && StoreThrows(s, s', i, thrown)
    ensures Inv(s') && !IsFinished(s.state)
  {
    assert Winning(Phase(s, i));
  }

  lemma ThrownInv(s: Event, s': Event, i: ThreadId)
    requires Inv(s) && StoreThrown(s, s', i)
    ensures Inv(s') && !IsFinished(s.state)
  {
    assert Winning(Phase(s, i));
  }

  lemma PublishInv(s: Event, s': Event, i: ThreadId)
    requires Inv(s) && Publish(s, s', i)
    ensures Inv(s') && !IsFinished(s.state)
  {
    assert Winning(Phase(s, i));
  }

  lemma {:induction false} RunInv(run: seq<Event>, k: nat)
    requires IsRun(run) && k < |run|
    ensures Inv(run[k])
  {
    hide Inv, Next;
    if k == 0 {
      InitInv(run[0]);
    } else {
      RunInv(run, k - 1);
      assert Next(run[k - 1], run[k - 1 + 1]);
      NextInv(run[k - 1], run[k]);
    }
  }

  lemma InitInv(s: Event)
    requires Init(s)
    ensures Inv(s)
  {
  }

  /** However the setters race: at most one of them returns true, the event completes at most
    * once, and it completes with what that setter asked for, or with an exception if copying
    * its value threw. A setter returns false only when another has won. */
  lemma SetOnce(run: seq<Event>, k: nat)
    requires IsRun(run) && k < |run|
    ensures forall i: ThreadId, j: ThreadId :: Phase(run[k], i) == Returned(true) && Phase(run[k], j) == Returned(true) ==> i == j
    ensures forall i: ThreadId :: Phase(run[k], i) == Returned(false) ==> run[k].winner.Some? && run[k].winner != Some(i)
    ensures |run[k].published| <= 1 && (|run[k].published| == 1 <==> IsFinished(run[k].state))
    ensures forall i: ThreadId :: Phase(run[k], i) == Returned(true) ==>
      IsFinished(run[k].state) && i in run[k].calls &&
      (run[k].published == [run[k].calls[i]] ||
       (run[k].calls[i].Value? && |run[k].published| == 1 && run[k].published[0].Exception?))
  {
    RunInv(run, k);
    var s := run[k];
    forall i: ThreadId | Phase(s, i).Returned?
      ensures Phase(s, i).ok <==> s.winner == Some(i)
    {
      assert Winning(Phase(s, i)) <==> s.winner == Some(i);
    }
  }

  /** Once finished, the event keeps its state and its payload. */
  lemma {:induction false} SetForGood(run: seq<Event>, j: nat, k: nat)
    requires IsRun(run) && j <= k < |run| && IsFinished(run[j].state)
    ensures run[k].state == run[j].state && run[k].slot == run[j].slot && run[k].published == run[j].published
    decreases k
  {
    hide Inv, Next;
    if j < k {
      SetForGood(run, j, k - 1);
      RunInv(run, k - 1);
      assert Next(run[k - 1], run[k - 1 + 1]);
      NextInv(run[k - 1], run[k]);
    }
  }

  /** A thread in a call can always go on, and each of its steps takes it further. */
  lemma CallGoesOn(s: Event, i: ThreadId) returns (s': Event)
    requires Phase(s, i).Called? || Phase(s, i).Won? || Phase(s, i).Raised? || Phase(s, i).Publishing?
    ensures Swap(s, s', i) || Store(s, s', i) || StoreThrown(s, s', i) || Publish(s, s', i)
    ensures StepsLeft(Phase(s', i)) < StepsLeft(Phase(s, i))
  {
    match Phase(s, i)
    case Called(what) =>
      s' := if s.state == Pending then To(s, i, Won(what)).(state := Locked, winner := Some(i)) else To(s, i, Returned(false));
    case Won(what) => s' := To(s, i, Publishing(what)).(slot := Some(what));
    case Raised(e) => s' := To(s, i, Publishing(Exception(e))).(slot := Some(Exception(e)));
    case Publishing(what) =>
      s' := To(s, i, Returned(true)).(state := if what.Value? then Completed else Canceled, published := s.published + [what]);
  }

  function StepsLeft(p: Setting): nat {
    match p
    case Called(_) => 4
    case Won(_) => 3
    case Raised(_) => 2
    case Publishing(_) => 1
    case _ => 0
  }
}

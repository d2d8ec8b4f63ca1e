/** The continuation list of a task (`continuation_vector`) and the race between adding a
  * continuation to a task and finishing that task, as a transition system.
  *
  * Any number of threads add continuations while one thread finishes the task. Every
  * access to the atomic word, to the task state and to a vector is one step, steps of
  * different threads interleave freely, and a compare-exchange may fail spuriously. */
module Continuations {
  import opened Options

  type TaskId = nat
  type ThreadId = nat
  type VectorId = nat

  datatype TaskState = Pending | Locked | Unwrapped | Completed | Canceled

  predicate IsFinished(state: TaskState) { state == Completed || state == Canceled }

  /** The pointer part of the atomic word; the `is_vector` flag selects the last form. */
  datatype Pointer = Null | Inline(task: TaskId) | Vector(id: VectorId)

  datatype Word = Word(pointer: Pointer, locked: bool)

  datatype Owner = Free | Adder(id: ThreadId) | Finisher

  /** A heap-allocated vector and the mutex beside it. */
  datatype VectorData = VectorData(tasks: seq<TaskId>, owner: Owner)

  /** How far a thread is in `add_continuation`. `cached` is the vector that `try_add`
    * allocated and has not installed. */
  datatype Adding =
    | Idle
    | Entered(task: TaskId)
    | Loading(task: TaskId)
    | Deciding(task: TaskId, data: Word, cached: Option<VectorId>)
    | Swapping(task: TaskId, data: Word, cached: Option<VectorId>)
    | Holding(task: TaskId, vector: VectorId, cached: Option<VectorId>)
    | Pushing(task: TaskId, vector: VectorId, cached: Option<VectorId>)
    | Releasing(refused: Option<TaskId>, vector: VectorId, cached: Option<VectorId>)
    | Refused(task: TaskId)

  /** How far the finishing thread is in `finish` or `cancel_base`. */
  datatype Finishing =
    | NotFinished
    | Stored
    | Locking(data: Word)
    | Flushing(data: Word)
    | FlushingVector(vector: VectorId, next: nat)
    | Done

  /** `offered`, `accepted`, `flushed`, `direct` and `dropped` record what happened so far:
    * the continuations offered, those the list took (in order), those the finisher
    * scheduled (in order), those an adder scheduled itself, and those the destructor let go. */
  datatype State = State(
    state: TaskState,
    word: Word,
    heap: map<VectorId, VectorData>,
    adders: map<ThreadId, Adding>,
    finisher: Finishing,
    destroyed: bool,
    offered: set<TaskId>,
    accepted: seq<TaskId>,
    flushed: seq<TaskId>,
    direct: seq<TaskId>,
    dropped: seq<TaskId>)

  function Phase(s: State, i: ThreadId): Adding { if i in s.adders then s.adders[i] else Idle }

  function To(s: State, i: ThreadId, phase: Adding): State { s.(adders := s.adders[i := phase]) }

  function Discard(heap: map<VectorId, VectorData>, cached: Option<VectorId>): map<VectorId, VectorData> {
    if cached.None? then heap else heap - {cached.value}
  }

  ghost predicate Init(s: State) {
    s == State(Pending, Word(Null, false), map[], map[], NotFinished, false, {}, [], [], [], [])
  }

  // ---- Steps of a thread adding a continuation

  ghost predicate Enter(s: State, s': State, i: ThreadId, t: TaskId) {
    Phase(s, i).Idle? && t !in s.offered &&
    s' == To(s, i, Entered(t)).(offered := s.offered + {t})
  }

  /** Reads the task state. The load is relaxed, so it may miss a finish, but it never
    * reports one that has not happened. */
  ghost predicate ReadState(s: State, s': State, i: ThreadId, finished: bool) {
    var p := Phase(s, i);
    p.Entered? && (finished ==> IsFinished(s.state)) &&
    s' == To(s, i, if finished then Refused(p.task) else Loading(p.task))
  }

  ghost predicate LoadWord(s: State, s': State, i: ThreadId) {
    var p := Phase(s, i);
    p.Loading? && s' == To(s, i, Deciding(p.task, s.word, None))
  }

  ghost predicate SeeLocked(s: State, s': State, i: ThreadId) {
    var p := Phase(s, i);
    p.Deciding? && p.data.locked &&
    s' == To(s, i, Refused(p.task)).(heap := Discard(s.heap, p.cached))
  }

  ghost predicate TakeMutex(s: State, s': State, i: ThreadId) {
    var p := Phase(s, i);
    p.Deciding? && !p.data.locked && p.data.pointer.Vector? && p.data.pointer.id in s.heap &&
    var v := p.data.pointer.id;
    s.heap[v].owner.Free? &&
    s' == To(s, i, Holding(p.task, v, p.cached)).(heap := s.heap[v := s.heap[v].(owner := Adder(i))])
  }

  ghost predicate Allocate(s: State, s': State, i: ThreadId, v: VectorId) {
    var p := Phase(s, i);
    p.Deciding? && !p.data.locked && p.data.pointer.Inline? && p.cached.None? && v !in s.heap &&
    s' == To(s, i, Swapping(p.task, p.data, Some(v))).(
      heap := s.heap[v := VectorData([p.data.pointer.task, p.task], Free)])
  }

  ghost predicate Prepare(s: State, s': State, i: ThreadId) {
    var p := Phase(s, i);
    p.Deciding? && !p.data.locked &&
    (p.data.pointer.Null? || (p.data.pointer.Inline? && p.cached.Some?)) &&
    s' == To(s, i, Swapping(p.task, p.data, p.cached))
  }

  ghost predicate SwapFails(s: State, s': State, i: ThreadId) {
    var p := Phase(s, i);
    p.Swapping? && s' == To(s, i, Deciding(p.task, s.word, p.cached))
  }

  ghost predicate SwapSucceeds(s: State, s': State, i: ThreadId) {
    var p := Phase(s, i);
    p.Swapping? && s.word == p.data && (p.data.pointer.Inline? ==> p.cached.Some?) &&
    s' == To(s, i, Idle).(
      word := Word(if p.data.pointer.Inline? then Vector(p.cached.value) else Inline(p.task), false),
      accepted := s.accepted + [p.task])
  }

  ghost predicate CheckAgain(s: State, s': State, i: ThreadId) {
    var p := Phase(s, i);
    p.Holding? &&
    s' == To(s, i, if s.word.locked then Releasing(Some(p.task), p.vector, p.cached)
                                    else Pushing(p.task, p.vector, p.cached))
  }

  ghost predicate Push(s: State, s': State, i: ThreadId) {
    var p := Phase(s, i);
    p.Pushing? && p.vector in s.heap &&
    s' == To(s, i, Releasing(None, p.vector, p.cached)).(
      heap := s.heap[p.vector := s.heap[p.vector].(tasks := s.heap[p.vector].tasks + [p.task])],
      accepted := s.accepted + [p.task])
  }

  ghost predicate ReleaseMutex(s: State, s': State, i: ThreadId) {
    var p := Phase(s, i);
    p.Releasing? && p.vector in s.heap &&
    s' == To(s, i, if p.refused.None? then Idle else Refused(p.refused.value)).(
      heap := Discard(s.heap[p.vector := s.heap[p.vector].(owner := Free)], p.cached))
  }

  ghost predicate RunDirectly(s: State, s': State, i: ThreadId) {
    var p := Phase(s, i);
    p.Refused? && s' == To(s, i, Idle).(direct := s.direct + [p.task])
  }

  /** The steps that touch neither the heap nor the word. */
  ghost predicate ReadingStep(s: State, s': State, i: ThreadId) {
    || (exists t :: Enter(s, s', i, t))
    || (exists finished :: ReadState(s, s', i, finished))
    || LoadWord(s, s', i)
    || Prepare(s, s', i)
    || SwapFails(s, s', i)
    || CheckAgain(s, s', i)
    || RunDirectly(s, s', i)
  }

  ghost predicate WritingStep(s: State, s': State, i: ThreadId) {
    || SeeLocked(s, s', i)
    || TakeMutex(s, s', i)
    || (exists v :: Allocate(s, s', i, v))
    || SwapSucceeds(s, s', i)
    || Push(s, s', i)
    || ReleaseMutex(s, s', i)
  }

  ghost predicate Add(s: State, s': State, i: ThreadId) { ReadingStep(s, s', i) || WritingStep(s, s', i) }

  // ---- Steps of the thread that finishes the task

  /** Moves between the states in which a task is not finished. */
  ghost predicate Advance(s: State, s': State, state: TaskState) {
    s.finisher.NotFinished? && !IsFinished(state) && s' == s.(state := state)
  }

  ghost predicate StoreState(s: State, s': State, state: TaskState) {
    s.finisher.NotFinished? && IsFinished(state) && s' == s.(state := state, finisher := Stored)
  }

  ghost predicate LoadForFlush(s: State, s': State) {
    s.finisher.Stored? && s' == s.(finisher := Locking(s.word))
  }

  ghost predicate LockFails(s: State, s': State) {
    s.finisher.Locking? && s' == s.(finisher := Locking(s.word))
  }

  ghost predicate LockSucceeds(s: State, s': State) {
    s.finisher.Locking? && s.word == s.finisher.data &&
    s' == s.(word := s.word.(locked := true), finisher := Flushing(s.finisher.data))
  }

  ghost predicate FlushInline(s: State, s': State) {
    s.finisher.Flushing? && !s.finisher.data.pointer.Vector? &&
    s' == s.(finisher := Done,
             flushed := s.flushed + if s.finisher.data.pointer.Inline? then [s.finisher.data.pointer.task] else [])
  }

  ghost predicate TakeMutexForFlush(s: State, s': State) {
    s.finisher.Flushing? && s.finisher.data.pointer.Vector? && s.finisher.data.pointer.id in s.heap &&
    var v := s.finisher.data.pointer.id;
    s.heap[v].owner.Free? &&
    s' == s.(finisher := FlushingVector(v, 0), heap := s.heap[v := s.heap[v].(owner := Finisher)])
  }

  ghost predicate FlushNext(s: State, s': State) {
    s.finisher.FlushingVector? && s.finisher.vector in s.heap &&
    var v, k := s.finisher.vector, s.finisher.next;
    k < |s.heap[v].tasks| &&
    s' == s.(finisher := FlushingVector(v, k + 1), flushed := s.flushed + [s.heap[v].tasks[k]])
  }

  ghost predicate ClearVector(s: State, s': State) {
    s.finisher.FlushingVector? && s.finisher.vector in s.heap &&
    var v := s.finisher.vector;
    s.finisher.next == |s.heap[v].tasks| &&
    s' == s.(finisher := Done, heap := s.heap[v := VectorData([], Free)])
  }

  ghost predicate Finish(s: State, s': State) {
    || (exists state :: Advance(s, s', state))
    || (exists state :: StoreState(s, s', state))
    || LoadForFlush(s, s')
    || LockFails(s, s')
    || LockSucceeds(s, s')
    || FlushInline(s, s')
    || TakeMutexForFlush(s, s')
    || FlushNext(s, s')
    || ClearVector(s, s')
  }

  /** No call on the task is running; the finisher has either not begun or returned. */
  ghost predicate Quiet(s: State) {
    (forall i :: Phase(s, i).Idle?) && (s.finisher.NotFinished? || s.finisher.Done?)
  }

  /** The destructor: it runs once nobody else can reach the task. */
  ghost predicate Destroy(s: State, s': State) {
    Quiet(s) && (s.word.pointer.Vector? ==> s.word.pointer.id in s.heap) &&
    s' == match s.word.pointer
          case Vector(v) => s.(destroyed := true, dropped := s.heap[v].tasks, heap := s.heap - {v})
          case Inline(t) => s.(destroyed := true, dropped := if s.word.locked then [] else [t])
          case Null => s.(destroyed := true)
  }

  ghost predicate Next(s: State, s': State) {
    !s.destroyed && ((exists i :: Add(s, s', i)) || Finish(s, s') || Destroy(s, s'))
  }

  ghost predicate IsRun(run: seq<State>) {
    |run| > 0 && Init(run[0]) && forall k :: 0 <= k < |run| - 1 ==> Next(run[k], run[k + 1])
  }
}

/** Over every run of the continuation protocol: each continuation is scheduled exactly
  * once and only after the task has finished, nothing leaks, and nobody is ever stuck. */
module ContinuationRuns {
  import opened Options
  import opened Continuations

  // ---- The invariant

  function Carried(p: Adding): Option<TaskId> {
    match p
    case Idle => None
    case Releasing(refused, _, _) => refused
    case _ => Some(p.task)
  }

  function Cached(p: Adding): Option<VectorId> {
    if p.Deciding? || p.Swapping? || p.Holding? || p.Pushing? || p.Releasing? then p.cached else None
  }

  predicate InMutex(p: Adding) { p.Holding? || p.Pushing? || p.Releasing? }

  /** The continuations in the list that the finisher has not yet scheduled. */
  ghost function Waiting(s: State): seq<TaskId> {
    match s.word.pointer
    case Null => []
    case Inline(t) => if s.finisher.Done? then [] else [t]
    case Vector(v) =>
      if v !in s.heap then []
      else if s.finisher.FlushingVector? && s.finisher.next <= |s.heap[v].tasks| then s.heap[v].tasks[s.finisher.next..]
      else s.heap[v].tasks
  }

  predicate NoRepeats(q: seq<TaskId>) { forall i, j :: 0 <= i < j < |q| ==> q[i] != q[j] }

  /** What the finisher has done so far agrees with the word and the task state. */
  ghost predicate FinisherOk(s: State) {
    && (s.finisher.NotFinished? <==> !IsFinished(s.state))
    && (s.word.locked <==> s.finisher.Flushing? || s.finisher.FlushingVector? || s.finisher.Done?)
    && (s.finisher.Flushing? ==> s.word.pointer == s.finisher.data.pointer)
    && (s.finisher.FlushingVector? ==>
          && s.word.pointer == Vector(s.finisher.vector)
          && s.finisher.vector in s.heap
          && s.finisher.next <= |s.heap[s.finisher.vector].tasks|)
    && (s.finisher.Done? && s.word.pointer.Vector? && s.word.pointer.id in s.heap ==>
          s.heap[s.word.pointer.id].tasks == [])
  }

  /** Of everything in the heap, exactly the installed vector and the cached ones are there,
    * and the cached ones belong to one thread each and are not installed. */
  ghost predicate HeapOk(s: State) {
    && (s.word.pointer.Vector? ==> s.word.pointer.id in s.heap)
    && (forall i :: Cached(Phase(s, i)).Some? ==>
          && Cached(Phase(s, i)).value in s.heap
          && s.word.pointer != Vector(Cached(Phase(s, i)).value))
    && (forall i, j :: i != j && Cached(Phase(s, i)).Some? ==> Cached(Phase(s, j)) != Cached(Phase(s, i)))
    && (forall v :: v in s.heap ==> s.word.pointer == Vector(v) || exists i :: Cached(Phase(s, i)) == Some(v))
  }

  /** What a thread remembers of the word is an earlier value of it: an empty list may have
    * grown, a single continuation may have moved into a vector, a vector stays. */
  predicate Earlier(data: Word, word: Word) {
    && (data.locked ==> word.locked)
    && (data.pointer.Inline? ==> word.pointer == data.pointer || word.pointer.Vector?)
    && (data.pointer.Vector? ==> word.pointer == data.pointer)
  }

  /** A cached vector always holds the continuation it is going to replace, then the
    * thread's own. */
  ghost predicate CacheOk(s: State, p: Adding) {
    Cached(p).Some? && Cached(p).value in s.heap ==>
      && !s.word.pointer.Null?
      && s.heap[Cached(p).value].owner.Free?
      && |s.heap[Cached(p).value].tasks| == 2
      && (s.word.pointer.Inline? ==> s.heap[Cached(p).value].tasks[0] == s.word.pointer.task)
      && ((p.Deciding? || p.Swapping?) ==>
            && !p.data.pointer.Null?
            && s.heap[Cached(p).value].tasks[1] == p.task
            && (p.data.pointer.Inline? ==> s.heap[Cached(p).value].tasks[0] == p.data.pointer.task))
  }

  ghost predicate AdderOk(s: State, i: ThreadId) {
    var p := Phase(s, i);
    && ((p.Deciding? || p.Swapping?) ==> Earlier(p.data, s.word))
    && (p.Swapping? ==> !p.data.locked && !p.data.pointer.Vector? && (p.data.pointer.Inline? ==> p.cached.Some?))
    && (InMutex(p) ==> s.word.pointer == Vector(p.vector) && p.vector in s.heap && s.heap[p.vector].owner == Adder(i))
    && (p.Pushing? ==> !s.finisher.FlushingVector? && !s.finisher.Done?)
    && (p.Refused? || (p.Releasing? && p.refused.Some?) ==> IsFinished(s.state))
    && CacheOk(s, p)
  }

  ghost predicate MutexOk(s: State) {
    && (forall v :: v in s.heap && s.heap[v].owner.Adder? ==>
          InMutex(Phase(s, s.heap[v].owner.id)) && Phase(s, s.heap[v].owner.id).vector == v)
    && (forall v :: v in s.heap ==>
          (s.heap[v].owner.Finisher? <==> s.finisher.FlushingVector? && s.finisher.vector == v))
  }

  /** Every continuation offered is carried by one thread, or in the list's history, or was
    * scheduled by the thread that offered it, and is in one of these places once. */
  ghost predicate TasksOk(s: State) {
    && NoRepeats(s.accepted) && NoRepeats(s.direct)
    && (forall t :: t in s.accepted ==> t in s.offered && t !in s.direct)
    && (forall t :: t in s.direct ==> t in s.offered)
    && (forall i :: Carried(Phase(s, i)).Some? ==>
          && Carried(Phase(s, i)).value in s.offered
          && Carried(Phase(s, i)).value !in s.accepted
          && Carried(Phase(s, i)).value !in s.direct)
    && (forall i, j :: i != j && Carried(Phase(s, i)).Some? ==> Carried(Phase(s, j)) != Carried(Phase(s, i)))
    && (forall t :: t in s.offered ==>
          t in s.accepted || t in s.direct || exists i :: Carried(Phase(s, i)) == Some(t))
  }

  ghost predicate HistoryOk(s: State) {
    && s.accepted == s.flushed + Waiting(s)
    && (s.flushed != [] || s.direct != [] ==> IsFinished(s.state))
  }

  ghost predicate Live(s: State) {
    && FinisherOk(s) && HeapOk(s) && MutexOk(s) && TasksOk(s) && HistoryOk(s)
    && (forall i :: AdderOk(s, i))
    && s.dropped == []
  }

  /** After the destructor: what the list took was scheduled or let go, and nothing is left
    * allocated. */
  ghost predicate Gone(s: State) {
    && TasksOk(s) && (forall i :: Phase(s, i).Idle?)
    && s.accepted == s.flushed + s.dropped
    && (s.finisher.NotFinished? || s.finisher.Done?)
    && (s.finisher.NotFinished? <==> !IsFinished(s.state))
    && (if s.finisher.Done? then s.dropped == [] else s.flushed == [] && s.direct == [])
    && s.heap == map[]
  }

  ghost predicate Inv(s: State) { if s.destroyed then Gone(s) else Live(s) }

  // ---- What a step leaves alone

  /** Only thread `i` moves. */
  ghost predicate Moves(s: State, s': State, i: ThreadId) { s'.adders == s.adders[i := Phase(s', i)] }

  /** Nothing thread `j` relies on is taken away between `s` and `s'`. */
  ghost predicate Undisturbed(s: State, s': State, j: ThreadId) {
    var p := Phase(s, j);
    && Phase(s', j) == p
    && Earlier(s.word, s'.word)
    && (IsFinished(s.state) ==> IsFinished(s'.state))
    && (p.Pushing? ==> !s'.finisher.FlushingVector? && !s'.finisher.Done?)
    && (Cached(p).Some? && Cached(p).value in s'.heap ==>
          Cached(p).value in s.heap && s'.heap[Cached(p).value] == s.heap[Cached(p).value])
    && (InMutex(p) ==> p.vector in s'.heap && s'.heap[p.vector].owner == Adder(j))
  }

  lemma AdderStays(s: State, s': State, j: ThreadId)
    requires AdderOk(s, j) && Undisturbed(s, s', j)
    ensures AdderOk(s', j)
  {
  }

  lemma TasksStay(s: State, s': State, i: ThreadId)
    requires TasksOk(s) && Moves(s, s', i) && Carried(Phase(s', i)) == Carried(Phase(s, i))
    requires s'.offered == s.offered && s'.accepted == s.accepted && s'.direct == s.direct
    ensures TasksOk(s')
  {
    assert forall j :: j != i ==> Phase(s', j) == Phase(s, j);
    forall t | t in s'.offered
      ensures t in s'.accepted || t in s'.direct || exists i :: Carried(Phase(s', i)) == Some(t)
    {
      if t !in s.accepted && t !in s.direct {
        var j :| Carried(Phase(s, j)) == Some(t);
        assert Carried(Phase(s', j)) == Some(t);
      }
    }
  }

  lemma TasksSettle(s: State, s': State, i: ThreadId, t: TaskId)
    requires TasksOk(s) && Moves(s, s', i) && Carried(Phase(s, i)) == Some(t) && Carried(Phase(s', i)).None?
    requires s'.offered == s.offered
    requires (s'.accepted == s.accepted + [t] && s'.direct == s.direct) ||
             (s'.accepted == s.accepted && s'.direct == s.direct + [t])
    ensures TasksOk(s')
  {
    assert forall j :: j != i ==> Phase(s', j) == Phase(s, j);
    forall u | u in s'.offered
      ensures u in s'.accepted || u in s'.direct || exists i :: Carried(Phase(s', i)) == Some(u)
    {
      if u !in s.accepted && u !in s.direct && u != t {
        var j :| Carried(Phase(s, j)) == Some(u);
        assert Carried(Phase(s', j)) == Some(u);
      }
    }
  }

  lemma TasksEnter(s: State, s': State, i: ThreadId, t: TaskId)
    requires TasksOk(s) && Moves(s, s', i) && Carried(Phase(s, i)).None? && Carried(Phase(s', i)) == Some(t)
    requires t !in s.offered && s'.offered == s.offered + {t}
    requires s'.accepted == s.accepted && s'.direct == s.direct
    ensures TasksOk(s')
  {
    assert forall j :: j != i ==> Phase(s', j) == Phase(s, j);
    forall u | u in s'.offered
      ensures u in s'.accepted || u in s'.direct || exists i :: Carried(Phase(s', i)) == Some(u)
    {
      if u == t {
        assert Carried(Phase(s', i)) == Some(u);
      } else if u !in s.accepted && u !in s.direct {
        var j :| Carried(Phase(s, j)) == Some(u);
        assert Carried(Phase(s', j)) == Some(u);
      }
    }
  }

  /** Thread `i` keeps, gains, discards or installs a cached vector. */
  lemma HeapStays(s: State, s': State, i: ThreadId)
    requires HeapOk(s) && Moves(s, s', i)
    requires
      var c, c' := Cached(Phase(s, i)), Cached(Phase(s', i));
      || (c' == c && s'.heap.Keys == s.heap.Keys && s'.word.pointer == s.word.pointer)
      || (c.None? && c'.Some? && c'.value !in s.heap && s'.heap.Keys == s.heap.Keys + {c'.value} && s'.word.pointer == s.word.pointer)
      || (c'.None? && c.Some? && s'.heap.Keys == s.heap.Keys - {c.value} && s'.word.pointer == s.word.pointer)
      || (c'.None? && c.Some? && s'.heap.Keys == s.heap.Keys && s'.word.pointer == Vector(c.value) && !s.word.pointer.Vector?)
      || (c'.None? && c.None? && s'.heap.Keys == s.heap.Keys && !s'.word.pointer.Vector? && !s.word.pointer.Vector?)
    ensures HeapOk(s')
  {
    var c, c' := Cached(Phase(s, i)), Cached(Phase(s', i));
    assert forall v :: v in s'.heap <==> v in s'.heap.Keys;
    assert forall v :: v in s.heap <==> v in s.heap.Keys;
    assert forall j :: j != i ==> Phase(s', j) == Phase(s, j);
    forall v | v in s'.heap && s'.word.pointer != Vector(v)
      ensures exists j :: Cached(Phase(s', j)) == Some(v)
    {
      if c' == Some(v) {
        assert Cached(Phase(s', i)) == Some(v);
      } else {
        var j :| Cached(Phase(s, j)) == Some(v);
        assert Cached(Phase(s', j)) == Some(v);
      }
    }
  }

  /** Outside what thread `i` cached, the heap changes only at the installed vector, and
    * there only when its mutex is free or held by `i`. */
  ghost predicate HeapMoves(s: State, s': State, i: ThreadId) {
    forall v :: v in s.heap ==>
      || (v in s'.heap && s'.heap[v] == s.heap[v])
      || Cached(Phase(s, i)) == Some(v)
      || (v in s'.heap && s.word.pointer == Vector(v) && (s.heap[v].owner.Free? || s.heap[v].owner == Adder(i)))
  }

  lemma OthersStay(s: State, s': State, i: ThreadId)
    requires HeapOk(s) && (forall j :: AdderOk(s, j)) && Moves(s, s', i) && HeapMoves(s, s', i)
    requires Earlier(s.word, s'.word) && s'.finisher == s.finisher && s'.state == s.state
    ensures forall j :: j != i ==> AdderOk(s', j)
  {
    forall j | j != i ensures AdderOk(s', j) {
      assert AdderOk(s, j);
      AdderStays(s, s', j);
    }
  }

  lemma MutexStays(s: State, s': State, i: ThreadId)
    requires MutexOk(s) && Moves(s, s', i) && s'.finisher == s.finisher
    requires InMutex(Phase(s, i)) ==> InMutex(Phase(s', i)) && Phase(s', i).vector == Phase(s, i).vector
    requires forall v :: v in s'.heap ==>
      if v in s.heap then s'.heap[v].owner == s.heap[v].owner
      else s'.heap[v].owner.Free? && !(s.finisher.FlushingVector? && s.finisher.vector == v)
    ensures MutexOk(s')
  {
    assert forall j :: j != i ==> Phase(s', j) == Phase(s, j);
  }

  lemma HistoryStays(s: State, s': State)
    requires FinisherOk(s) && HistoryOk(s)
    requires s'.finisher == s.finisher && s'.state == s.state && s'.word == s.word
    requires s'.accepted == s.accepted && s'.flushed == s.flushed
    requires s'.direct == s.direct || IsFinished(s.state)
    requires s.word.pointer.Vector? ==>
      var v := s.word.pointer.id;
      v in s.heap && v in s'.heap && s'.heap[v].tasks == s.heap[v].tasks
    ensures FinisherOk(s') && HistoryOk(s')
  {
  }

  /** For the steps that touch neither the heap nor the word. */
  lemma QuietStep(s: State, s': State, i: ThreadId)
    requires Live(s) && Moves(s, s', i) && s' == s.(adders := s'.adders)
    requires Carried(Phase(s', i)) == Carried(Phase(s, i)) && Cached(Phase(s', i)) == Cached(Phase(s, i))
    requires InMutex(Phase(s, i)) ==> InMutex(Phase(s', i)) && Phase(s', i).vector == Phase(s, i).vector
    requires AdderOk(s', i)
    ensures Live(s')
  {
    hide TasksOk, MutexOk, AdderOk, HistoryOk, FinisherOk;
    TasksStay(s, s', i);
    HeapStays(s, s', i);
    MutexStays(s, s', i);
    HistoryStays(s, s');
    OthersStay(s, s', i);
  }

  lemma ReadStateKeeps(s: State, s': State, i: ThreadId, finished: bool)
    requires Live(s) && ReadState(s, s', i, finished)
    ensures Live(s')
  {
    hide TasksOk, HeapOk, MutexOk, HistoryOk, FinisherOk;
    assert AdderOk(s, i);
    QuietStep(s, s', i);
  }

  lemma LoadWordKeeps(s: State, s': State, i: ThreadId)
    requires Live(s) && LoadWord(s, s', i)
    ensures Live(s')
  {
    hide TasksOk, HeapOk, MutexOk, HistoryOk, FinisherOk;
    assert AdderOk(s, i);
    QuietStep(s, s', i);
  }

  lemma PrepareKeeps(s: State, s': State, i: ThreadId)
    requires Live(s) && Prepare(s, s', i)
    ensures Live(s')
  {
    hide TasksOk, HeapOk, MutexOk, HistoryOk, FinisherOk;
    assert AdderOk(s, i);
    QuietStep(s, s', i);
  }

  lemma SwapFailsKeeps(s: State, s': State, i: ThreadId)
    requires Live(s) && SwapFails(s, s', i)
    ensures Live(s')
  {
    hide TasksOk, HeapOk, MutexOk, HistoryOk, FinisherOk;
    assert AdderOk(s, i);
    QuietStep(s, s', i);
  }

  lemma CheckAgainKeeps(s: State, s': State, i: ThreadId)
    requires Live(s) && CheckAgain(s, s', i)
    ensures Live(s')
  {
    hide TasksOk, HeapOk, MutexOk, HistoryOk;
    assert AdderOk(s, i);
    QuietStep(s, s', i);
  }

  lemma EnterKeeps(s: State, s': State, i: ThreadId, t: TaskId)
    requires Live(s) && Enter(s, s', i, t)
    ensures Live(s')
  {
    hide TasksOk, MutexOk, HistoryOk, FinisherOk;
    assert AdderOk(s, i);
    TasksEnter(s, s', i, t);
    HeapStays(s, s', i);
    MutexStays(s, s', i);
    HistoryStays(s, s');
    OthersStay(s, s', i);
  }

  lemma RunDirectlyKeeps(s: State, s': State, i: ThreadId)
    requires Live(s) && RunDirectly(s, s', i)
    ensures Live(s')
  {
    hide TasksOk, MutexOk, HistoryOk, FinisherOk;
    assert AdderOk(s, i);
    TasksSettle(s, s', i, Phase(s, i).task);
    HeapStays(s, s', i);
    MutexStays(s, s', i);
    HistoryStays(s, s');
    OthersStay(s, s', i);
  }

  lemma SeeLockedKeeps(s: State, s': State, i: ThreadId)
    requires Live(s) && SeeLocked(s, s', i)
    ensures Live(s')
  {
    hide TasksOk, MutexOk, HistoryOk;
    assert AdderOk(s, i);
    TasksStay(s, s', i);
    HeapStays(s, s', i);
    MutexStays(s, s', i);
    HistoryStays(s, s');
    OthersStay(s, s', i);
  }

  lemma AllocateAdder(s: State, s': State, i: ThreadId, v: VectorId)
    requires AdderOk(s, i) && FinisherOk(s) && HeapOk(s) && Allocate(s, s', i, v)
    ensures AdderOk(s', i)
    ensures !(s.finisher.FlushingVector? && s.finisher.vector == v) && s.word.pointer != Vector(v)
  {
  }

  lemma AllocateKeeps(s: State, s': State, i: ThreadId, v: VectorId)
    requires Live(s) && Allocate(s, s', i, v)
    ensures Live(s')
  {
    hide TasksOk, MutexOk, HistoryOk, AdderOk, FinisherOk;
    assert AdderOk(s, i);
    AllocateAdder(s, s', i, v);
    TasksStay(s, s', i);
    HeapStays(s, s', i);
    MutexStays(s, s', i);
    HistoryStays(s, s');
    OthersStay(s, s', i);
  }

  lemma TakeMutexOwners(s: State, s': State, i: ThreadId)
    requires MutexOk(s) && TakeMutex(s, s', i)
    ensures MutexOk(s')
  {
    assert forall j :: j != i ==> Phase(s', j) == Phase(s, j);
  }

  lemma TakeMutexKeeps(s: State, s': State, i: ThreadId)
    requires Live(s) && TakeMutex(s, s', i)
    ensures Live(s')
  {
    hide TasksOk, MutexOk, HistoryOk, FinisherOk;
    assert AdderOk(s, i);
    TasksStay(s, s', i);
    HeapStays(s, s', i);
    TakeMutexOwners(s, s', i);
    HistoryStays(s, s');
    OthersStay(s, s', i);
  }

  lemma ReleaseMutexOwners(s: State, s': State, i: ThreadId)
    requires MutexOk(s) && HeapOk(s) && ReleaseMutex(s, s', i) && s.word.pointer == Vector(Phase(s, i).vector)
    requires s.heap[Phase(s, i).vector].owner == Adder(i)
    ensures MutexOk(s')
  {
    hide HeapOk;
    assert forall j :: j != i ==> Phase(s', j) == Phase(s, j);
  }

  lemma ReleaseMutexKeeps(s: State, s': State, i: ThreadId)
    requires Live(s) && ReleaseMutex(s, s', i)
    ensures Live(s')
  {
    hide TasksOk, MutexOk, HistoryOk, FinisherOk;
    assert AdderOk(s, i);
    TasksStay(s, s', i);
    HeapStays(s, s', i);
    ReleaseMutexOwners(s, s', i);
    HistoryStays(s, s');
    OthersStay(s, s', i);
  }

  lemma PushHistory(s: State, s': State, i: ThreadId)
    requires FinisherOk(s) && HistoryOk(s) && AdderOk(s, i) && Push(s, s', i)
    ensures FinisherOk(s') && HistoryOk(s')
  {
    assert Waiting(s') == Waiting(s) + [Phase(s, i).task];
  }

  lemma PushKeeps(s: State, s': State, i: ThreadId)
    requires Live(s) && Push(s, s', i)
    ensures Live(s')
  {
    hide TasksOk, MutexOk, HistoryOk, FinisherOk;
    assert AdderOk(s, i);
    TasksSettle(s, s', i, Phase(s, i).task);
    HeapStays(s, s', i);
    MutexStays(s, s', i);
    PushHistory(s, s', i);
    OthersStay(s, s', i);
  }

  lemma SwapHistory(s: State, s': State, i: ThreadId)
    requires FinisherOk(s) && HistoryOk(s) && HeapOk(s) && AdderOk(s, i) && SwapSucceeds(s, s', i)
    ensures FinisherOk(s') && HistoryOk(s')
  {
    hide HeapOk;
    var p := Phase(s, i);
    if p.data.pointer.Inline? {
      assert Cached(p) == p.cached && p.cached.value in s.heap by { HeapHasCached(s, i); }
      assert s.heap[p.cached.value].tasks == [p.data.pointer.task, p.task];
    }
    assert Waiting(s') == Waiting(s) + [p.task];
  }

  lemma HeapHasCached(s: State, i: ThreadId)
    requires HeapOk(s) && Cached(Phase(s, i)).Some?
    ensures Cached(Phase(s, i)).value in s.heap && s.word.pointer != Vector(Cached(Phase(s, i)).value)
  {
  }

  lemma SwapSucceedsKeeps(s: State, s': State, i: ThreadId)
    requires Live(s) && SwapSucceeds(s, s', i)
    ensures Live(s')
  {
    hide TasksOk, MutexOk, HistoryOk, FinisherOk;
    assert AdderOk(s, i);
    TasksSettle(s, s', i, Phase(s, i).task);
    HeapStays(s, s', i);
    MutexStays(s, s', i);
    SwapHistory(s, s', i);
    OthersStay(s, s', i);
  }

  lemma AddKeeps(s: State, s': State, i: ThreadId)
    requires Live(s) && Add(s, s', i)
    ensures Live(s')
  {
    hide Live, Enter, ReadState, LoadWord, SeeLocked, TakeMutex, Allocate, Prepare, SwapFails, SwapSucceeds,
         CheckAgain, Push, ReleaseMutex, RunDirectly;
    if t :| Enter(s, s', i, t) { EnterKeeps(s, s', i, t); }
    else if finished :| ReadState(s, s', i, finished) { ReadStateKeeps(s, s', i, finished); }
    else if v :| Allocate(s, s', i, v) { AllocateKeeps(s, s', i, v); }
    else if LoadWord(s, s', i) { LoadWordKeeps(s, s', i); }
    else if SeeLocked(s, s', i) { SeeLockedKeeps(s, s', i); }
    else if TakeMutex(s, s', i) { TakeMutexKeeps(s, s', i); }
    else if Prepare(s, s', i) { PrepareKeeps(s, s', i); }
    else if SwapFails(s, s', i) { SwapFailsKeeps(s, s', i); }
    else if SwapSucceeds(s, s', i) { SwapSucceedsKeeps(s, s', i); }
    else if CheckAgain(s, s', i) { CheckAgainKeeps(s, s', i); }
    else if Push(s, s', i) { PushKeeps(s, s', i); }
    else if ReleaseMutex(s, s', i) { ReleaseMutexKeeps(s, s', i); }
    else { RunDirectlyKeeps(s, s', i); }
  }

  // ---- The finisher's steps

  lemma AddersUndisturbed(s: State, s': State)
    requires (forall j :: AdderOk(s, j)) && (forall j :: Undisturbed(s, s', j))
    ensures forall j :: AdderOk(s', j)
  {
    forall j ensures AdderOk(s', j) {
      AdderStays(s, s', j);
    }
  }

  /** For the finisher's steps that touch neither the heap nor the word. */
  lemma FinisherMoves(s: State, s': State)
    requires Live(s) && s' == s.(finisher := s'.finisher, state := s'.state, flushed := s'.flushed)
    requires IsFinished(s.state) ==> IsFinished(s'.state)
    requires s'.finisher.FlushingVector? || s'.finisher.Done? ==>
      s.finisher == s'.finisher || (s.finisher.FlushingVector? && s'.finisher.FlushingVector? && s.finisher.vector == s'.finisher.vector)
      || !s.word.pointer.Vector?
    requires s.finisher.FlushingVector? ==> s'.finisher.FlushingVector? && s.finisher.vector == s'.finisher.vector
    requires s'.finisher.FlushingVector? ==> s.finisher.FlushingVector?
    requires FinisherOk(s') && HistoryOk(s')
    ensures Live(s')
  {
    hide FinisherOk, HistoryOk, TasksOk, HeapOk;
    TasksSame(s, s');
    HeapSame(s, s');
    assert MutexOk(s') by {
      hide AdderOk;
      assert forall j :: Phase(s', j) == Phase(s, j);
    }
    forall j ensures Undisturbed(s, s', j) {
      hide HeapOk, MutexOk;
      assert AdderOk(s, j);
    }
    AddersUndisturbed(s, s');
  }

  lemma TasksSame(s: State, s': State)
    requires TasksOk(s) && s'.adders == s.adders && s'.offered == s.offered
    requires s'.accepted == s.accepted && s'.direct == s.direct
    ensures TasksOk(s')
  {
    assert forall j :: Phase(s', j) == Phase(s, j);
    forall t | t in s'.offered
      ensures t in s'.accepted || t in s'.direct || exists i :: Carried(Phase(s', i)) == Some(t)
    {
      if t !in s.accepted && t !in s.direct {
        var j :| Carried(Phase(s, j)) == Some(t);
        assert Carried(Phase(s', j)) == Some(t);
      }
    }
  }

  lemma AdvanceKeeps(s: State, s': State, state: TaskState)
    requires Live(s) && Advance(s, s', state)
    ensures Live(s')
  {
    hide HeapOk, MutexOk, TasksOk, AdderOk;
    FinisherMoves(s, s');
  }

  lemma StoreStateKeeps(s: State, s': State, state: TaskState)
    requires Live(s) && StoreState(s, s', state)
    ensures Live(s')
  {
    hide HeapOk, MutexOk, TasksOk, AdderOk;
    FinisherMoves(s, s');
  }

  lemma LoadForFlushKeeps(s: State, s': State)
    requires Live(s) && (LoadForFlush(s, s') || LockFails(s, s'))
    ensures Live(s')
  {
    hide HeapOk, MutexOk, TasksOk, AdderOk;
    FinisherMoves(s, s');
  }

  lemma FlushInlineKeeps(s: State, s': State)
    requires Live(s) && FlushInline(s, s')
    ensures Live(s')
  {
    hide HeapOk, MutexOk, TasksOk, AdderOk;
    FinisherMoves(s, s');
  }

  lemma FlushNextKeeps(s: State, s': State)
    requires Live(s) && FlushNext(s, s')
    ensures Live(s')
  {
    hide HeapOk, MutexOk, TasksOk, AdderOk, HistoryOk, FinisherOk;
    FlushNextHistory(s, s');
    FinisherMoves(s, s');
  }

  lemma FlushNextHistory(s: State, s': State)
    requires FinisherOk(s) && HistoryOk(s) && FlushNext(s, s')
    ensures FinisherOk(s') && HistoryOk(s')
  {
    var q, k := s.heap[s.finisher.vector].tasks, s.finisher.next;
    assert q[k..] == [q[k]] + q[k + 1..];
  }

  lemma LockSucceedsKeeps(s: State, s': State)
    requires Live(s) && LockSucceeds(s, s')
    ensures Live(s')
  {
    hide TasksOk, HeapOk;
    TasksSame(s, s');
    HeapSame(s, s');
    assert forall j :: Phase(s', j) == Phase(s, j);
    assert FinisherOk(s') && HistoryOk(s') && MutexOk(s') by { hide AdderOk; }
    forall j ensures Undisturbed(s, s', j) {
      hide HeapOk, MutexOk, FinisherOk, HistoryOk;
      assert AdderOk(s, j);
    }
    AddersUndisturbed(s, s');
  }

  lemma HeapSame(s: State, s': State)
    requires HeapOk(s) && s'.adders == s.adders && s'.word.pointer == s.word.pointer && s'.heap.Keys == s.heap.Keys
    ensures HeapOk(s')
  {
    assert forall j :: Phase(s', j) == Phase(s, j);
    assert forall v :: v in s'.heap <==> v in s'.heap.Keys;
    assert forall v :: v in s.heap <==> v in s.heap.Keys;
    forall v | v in s'.heap && s'.word.pointer != Vector(v)
      ensures exists j :: Cached(Phase(s', j)) == Some(v)
    {
      var j :| Cached(Phase(s, j)) == Some(v);
      assert Cached(Phase(s', j)) == Some(v);
    }
  }

  lemma TakeForFlushKeeps(s: State, s': State)
    requires Live(s) && TakeMutexForFlush(s, s')
    ensures Live(s')
  {
    hide TasksOk, HeapOk;
    TasksSame(s, s');
    HeapSame(s, s');
    assert FinisherOk(s') && HistoryOk(s') && MutexOk(s') by { hide AdderOk; }
    forall j ensures Undisturbed(s, s', j) {
      hide MutexOk, HistoryOk;
      assert AdderOk(s, j);
      if Cached(Phase(s, j)).Some? { HeapHasCached(s, j); }
    }
    AddersUndisturbed(s, s');
  }

  lemma ClearVectorKeeps(s: State, s': State)
    requires Live(s) && ClearVector(s, s')
    ensures Live(s')
  {
    hide TasksOk, HeapOk;
    TasksSame(s, s');
    HeapSame(s, s');
    assert FinisherOk(s') && HistoryOk(s') && MutexOk(s') by { hide AdderOk; }
    forall j ensures Undisturbed(s, s', j) {
      hide HistoryOk;
      assert AdderOk(s, j);
      if Cached(Phase(s, j)).Some? { HeapHasCached(s, j); }
    }
    AddersUndisturbed(s, s');
  }

  lemma FinishKeeps(s: State, s': State)
    requires Live(s) && Finish(s, s')
    ensures Live(s')
  {
    hide Live, Advance, StoreState, LoadForFlush, LockFails, LockSucceeds, FlushInline, TakeMutexForFlush,
         FlushNext, ClearVector;
    if state :| Advance(s, s', state) { AdvanceKeeps(s, s', state); }
    else if state :| StoreState(s, s', state) { StoreStateKeeps(s, s', state); }
    else if LoadForFlush(s, s') || LockFails(s, s') { LoadForFlushKeeps(s, s'); }
    else if LockSucceeds(s, s') { LockSucceedsKeeps(s, s'); }
    else if FlushInline(s, s') { FlushInlineKeeps(s, s'); }
    else if TakeMutexForFlush(s, s') { TakeForFlushKeeps(s, s'); }
    else if FlushNext(s, s') { FlushNextKeeps(s, s'); }
    else { ClearVectorKeeps(s, s'); }
  }

  lemma DestroyFrees(s: State, s': State)
    requires Live(s) && Destroy(s, s')
    ensures Gone(s')
  {
    hide MutexOk, TasksOk, AdderOk;
    TasksSame(s, s');
    assert forall v :: v in s.heap ==> s.word.pointer == Vector(v);
    assert s'.heap.Keys == {};
    assert forall j :: Phase(s', j) == Phase(s, j);
  }

  lemma NextKeeps(s: State, s': State)
    requires Inv(s) && Next(s, s')
    ensures Inv(s')
  {
    hide Live, Gone, Add, Finish, Destroy;
    if i :| Add(s, s', i) {
      AddKeeps(s, s', i);
      AddLives(s, s', i);
    } else if Finish(s, s') {
      FinishKeeps(s, s');
      FinishLives(s, s');
    } else {
      DestroyFrees(s, s');
      assert s'.destroyed by { DestroyDestroys(s, s'); }
    }
  }

  lemma AddLives(s: State, s': State, i: ThreadId)
    requires Add(s, s', i)
    ensures s'.destroyed == s.destroyed
  {
  }

  lemma FinishLives(s: State, s': State)
    requires Finish(s, s')
    ensures s'.destroyed == s.destroyed
  {
  }

  lemma DestroyDestroys(s: State, s': State)
    requires Destroy(s, s')
    ensures s'.destroyed
  {
  }

  lemma {:induction false} RunKeeps(run: seq<State>, k: nat)
    requires IsRun(run) && k < |run|
    ensures Inv(run[k])
  {
    if k == 0 {
      InitHolds(run[0]);
    } else {
      RunKeeps(run, k - 1);
      assert Next(run[k - 1], run[k - 1 + 1]);
      NextKeeps(run[k - 1], run[k]);
    }
  }

  lemma InitHolds(s: State)
    requires Init(s)
    ensures Inv(s)
  {
    assert forall i :: Phase(s, i).Idle?;
  }

  // ---- What holds of every run

  /** Once the finisher and every call to `add_continuation` have returned, each continuation
    * offered was scheduled exactly once: by the finisher if the list took it, by the thread
    * that offered it if the list refused it, never by both. The finisher schedules in the
    * order in which the list took them. */
  lemma ScheduledExactlyOnce(run: seq<State>, k: nat)
    requires IsRun(run) && k < |run| && Quiet(run[k]) && run[k].finisher.Done?
    ensures run[k].flushed == run[k].accepted && run[k].dropped == []
    ensures forall t :: t in run[k].offered ==> multiset(run[k].flushed + run[k].direct)[t] == 1
    ensures forall t :: t in run[k].flushed + run[k].direct ==> t in run[k].offered
  {
    RunKeeps(run, k);
    var s := run[k];
    assert Waiting(s) == [] || s.destroyed;
    forall t | t in s.offered ensures multiset(s.flushed + s.direct)[t] == 1 {
      Settled(s, t);
    }
  }

  /** Whatever becomes of the task: once it is destroyed each continuation offered was
    * scheduled or let go exactly once, let go only if the task never finished, and no
    * vector is left allocated. */
  lemma DestroyedCleanly(run: seq<State>, k: nat)
    requires IsRun(run) && k < |run| && run[k].destroyed
    ensures run[k].heap == map[]
    ensures run[k].accepted == run[k].flushed + run[k].dropped
    ensures forall t :: t in run[k].offered ==> multiset(run[k].flushed + run[k].dropped + run[k].direct)[t] == 1
    ensures IsFinished(run[k].state) ==> run[k].dropped == []
    ensures !IsFinished(run[k].state) ==> run[k].flushed == [] && run[k].direct == []
  {
    RunKeeps(run, k);
    var s := run[k];
    forall t | t in s.offered ensures multiset(s.flushed + s.dropped + s.direct)[t] == 1 {
      Settled(s, t);
    }
  }

  lemma Settled(s: State, t: TaskId)
    requires TasksOk(s) && (forall i :: Phase(s, i).Idle?) && t in s.offered
    ensures multiset(s.accepted + s.direct)[t] == 1
  {
    assert t in s.accepted || t in s.direct;
    OccursOnce(s.accepted, t);
    OccursOnce(s.direct, t);
    assert multiset(s.accepted + s.direct) == multiset(s.accepted) + multiset(s.direct);
  }

  lemma {:induction false} OccursOnce(q: seq<TaskId>, t: TaskId)
    requires NoRepeats(q)
    ensures multiset(q)[t] == if t in q then 1 else 0
  {
    if q != [] {
      var n := |q| - 1;
      assert q == q[..n] + [q[n]];
      OccursOnce(q[..n], t);
    }
  }

  /** A continuation is scheduled only by a step taken after the task has finished, and a
    * refusal by the list implies that the task has finished. */
  lemma ScheduledAfterFinish(run: seq<State>, k: nat)
    requires IsRun(run) && k < |run|
    ensures k + 1 < |run| && (run[k + 1].flushed != run[k].flushed || run[k + 1].direct != run[k].direct) ==> IsFinished(run[k].state)
    ensures forall i :: Phase(run[k], i).Refused? ==> IsFinished(run[k].state)
    ensures run[k].flushed + run[k].direct != [] ==> IsFinished(run[k].state)
  {
    RunKeeps(run, k);
    var s := run[k];
    forall i | Phase(s, i).Refused? ensures IsFinished(s.state) {
      assert s.destroyed || AdderOk(s, i);
    }
    if k + 1 < |run| {
      assert Next(run[k], run[k + 1]);
      SchedulingStep(run[k], run[k + 1]);
    }
  }

  lemma SchedulingStep(s: State, s': State)
    requires Inv(s) && Next(s, s')
    ensures s'.flushed != s.flushed || s'.direct != s.direct ==> IsFinished(s.state)
  {
    hide TasksOk, HeapOk, MutexOk, HistoryOk, Add, Finish, AdderOk;
    if i :| Add(s, s', i) {
      assert AdderOk(s, i);
      DirectStep(s, s', i);
    } else if Finish(s, s') {
      FlushStep(s, s');
    }
  }

  lemma DirectStep(s: State, s': State, i: ThreadId)
    requires Add(s, s', i) && AdderOk(s, i)
    ensures s'.flushed == s.flushed && (s'.direct != s.direct ==> IsFinished(s.state))
  {
    hide ReadingStep, WritingStep, AdderOk;
    if ReadingStep(s, s', i) {
      ReadingSchedules(s, s', i);
    } else {
      WritingSchedulesNothing(s, s', i);
    }
  }

  lemma ReadingSchedules(s: State, s': State, i: ThreadId)
    requires ReadingStep(s, s', i) && AdderOk(s, i)
    ensures s'.flushed == s.flushed && (s'.direct != s.direct ==> IsFinished(s.state))
  {
    hide CacheOk;
  }

  lemma WritingSchedulesNothing(s: State, s': State, i: ThreadId)
    requires WritingStep(s, s', i)
    ensures s'.flushed == s.flushed && s'.direct == s.direct
  {
    hide Phase, Discard;
  }

  lemma FlushStep(s: State, s': State)
    requires Finish(s, s') && FinisherOk(s)
    ensures s'.direct == s.direct && (s'.flushed != s.flushed ==> IsFinished(s.state))
  {
  }

  /** A finished task stays finished, and the list only ever grows at its end. */
  lemma {:induction false} HistoryGrows(run: seq<State>, j: nat, k: nat)
    requires IsRun(run) && j <= k < |run|
    ensures IsFinished(run[j].state) ==> run[k].state == run[j].state
    ensures run[j].accepted <= run[k].accepted && run[j].flushed <= run[k].flushed
    ensures run[j].offered <= run[k].offered
    decreases k
  {
    hide Next, Inv;
    if j < k {
      HistoryGrows(run, j, k - 1);
      RunKeeps(run, k - 1);
      assert Next(run[k - 1], run[k - 1 + 1]) by { StepOfRun(run, k - 1); }
      StepGrows(run[k - 1], run[k]);
    }
  }

  lemma StepOfRun(run: seq<State>, k: nat)
    requires IsRun(run) && k + 1 < |run|
    ensures Next(run[k], run[k + 1])
  {
  }

  lemma StepGrows(s: State, s': State)
    requires Inv(s) && Next(s, s')
    ensures IsFinished(s.state) ==> s'.state == s.state
    ensures s.accepted <= s'.accepted && s.flushed <= s'.flushed && s.offered <= s'.offered
  {
    hide TasksOk, HeapOk, MutexOk, HistoryOk, AdderOk, Add, Finish;
    if i :| Add(s, s', i) {
      AddGrows(s, s', i);
    } else if Finish(s, s') {
      FinishGrows(s, s');
    }
  }

  lemma AddGrows(s: State, s': State, i: ThreadId)
    requires Add(s, s', i)
    ensures s'.state == s.state && s'.flushed == s.flushed
    ensures s.accepted <= s'.accepted && s.offered <= s'.offered
  {
    hide ReadingStep, WritingStep;
    if ReadingStep(s, s', i) {
      ReadingGrows(s, s', i);
    } else {
      WritingGrows(s, s', i);
    }
  }

  lemma ReadingGrows(s: State, s': State, i: ThreadId)
    requires ReadingStep(s, s', i)
    ensures s'.state == s.state && s'.flushed == s.flushed
    ensures s'.accepted == s.accepted && s.offered <= s'.offered
  {
    hide Phase;
  }

  lemma WritingGrows(s: State, s': State, i: ThreadId)
    requires WritingStep(s, s', i)
    ensures s'.state == s.state && s'.flushed == s.flushed
    ensures s.accepted <= s'.accepted && s'.offered == s.offered
  {
    hide Phase, Discard;
  }

  lemma FinishGrows(s: State, s': State)
    requires Finish(s, s')
    ensures s.finisher.NotFinished? || s'.state == s.state
    ensures s'.accepted == s.accepted && s'.offered == s.offered && s.flushed <= s'.flushed
  {
  }
}

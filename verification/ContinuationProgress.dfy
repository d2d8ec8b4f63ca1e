/** Progress of the continuation protocol: nobody is ever stuck, and every step that begins
  * no new call and is no spurious failure brings all calls closer to their end. */
module ContinuationProgress {
  import opened Options
  import opened Continuations
  import opened ContinuationRuns

  // ---- Steps that bring a call forward

  /** A step of a call under way, other than an exchange that fails although it could have
    * succeeded. */
  ghost predicate AddForward(s: State, s': State, i: ThreadId) {
    Add(s, s', i) && !Phase(s, i).Idle? && !(Phase(s', i).Deciding? && Phase(s, i).Swapping? && s.word == Phase(s, i).data)
  }

  /** The same for the finisher, from the store of the final state on. */
  ghost predicate FinishForward(s: State, s': State) { Finish(s, s') && s'.finisher != s.finisher }

  ghost predicate Forward(s: State, s': State) {
    Next(s, s') && ((exists i :: AddForward(s, s', i)) || FinishForward(s, s'))
  }

  // ---- What is left to do

  /** How often the word may still change: from nothing to one continuation to a vector, and
    * to locked. */
  function Changes(w: Word): nat {
    (match w.pointer case Null => 2 case Inline(_) => 1 case Vector(_) => 0) + if w.locked then 0 else 1
  }

  /** How far a call is from its end while the word stays as it is; what a thread remembers
    * may be out of date. */
  function Rank(p: Adding, w: Word): nat {
    match p
    case Idle => 0
    case Refused(_) => 1
    case Releasing(_, _, _) => 2
    case Pushing(_, _, _) => 3
    case Holding(_, _, _) => 4
    case Swapping(_, data, _) => if data == w then 5 else 7
    case Deciding(_, data, _) => if data == w then 6 else 8
    case Loading(_) => 9
    case Entered(_) => 10
  }

  function FinisherRank(f: Finishing, w: Word): nat {
    match f
    case NotFinished => 6
    case Stored => 5
    case Locking(data) => if data == w then 3 else 4
    case Flushing(_) => 2
    case FlushingVector(_, _) => 1
    case Done => 0
  }

  ghost function RankOfAll(ids: set<ThreadId>, s: State): nat {
    if ids == {} then 0
    else
      var i :| i in ids;
      Rank(Phase(s, i), s.word) + RankOfAll(ids - {i}, s)
  }

  /** Continuations of the vector not yet flushed. */
  function Unflushed(s: State): nat {
    if s.finisher.FlushingVector? && s.finisher.vector in s.heap && s.finisher.next <= |s.heap[s.finisher.vector].tasks|
    then |s.heap[s.finisher.vector].tasks| - s.finisher.next else 0
  }

  /** The lexicographic order, which has no infinite descent. */
  ghost predicate Closer(s': State, s: State) {
    var a, a' := Changes(s.word), Changes(s'.word);
    var b, b' := FinisherRank(s.finisher, s.word), FinisherRank(s'.finisher, s'.word);
    var c, c' := RankOfAll(s.adders.Keys, s), RankOfAll(s'.adders.Keys, s');
    a' < a || (a' == a && (b' < b || (b' == b && (c' < c || (c' == c && Unflushed(s') < Unflushed(s))))))
  }

  /** The sum does not depend on the order of the threads. */
  lemma {:induction false} RankSplit(ids: set<ThreadId>, s: State, i: ThreadId)
    requires i in ids
    ensures RankOfAll(ids, s) == Rank(Phase(s, i), s.word) + RankOfAll(ids - {i}, s)
  {
    hide Rank;
    var j :| j in ids && RankOfAll(ids, s) == Rank(Phase(s, j), s.word) + RankOfAll(ids - {j}, s);
    if j != i {
      RankSplit(ids - {j}, s, i);
      RankSplit(ids - {i}, s, j);
      assert ids - {i} - {j} == ids - {j} - {i};
    }
  }

  lemma {:induction false} RankSame(ids: set<ThreadId>, s: State, s': State)
    requires s'.word == s.word && forall i :: i in ids ==> Phase(s', i) == Phase(s, i)
    ensures RankOfAll(ids, s') == RankOfAll(ids, s)
  {
    hide Rank;
    if ids != {} {
      var i :| i in ids;
      RankSplit(ids, s, i);
      RankSplit(ids, s', i);
      RankSame(ids - {i}, s, s');
    }
  }

  /** One thread goes down, the word and the other threads stay. */
  lemma OneGoesDown(s: State, s': State, i: ThreadId)
    requires Moves(s, s', i) && i in s.adders && s'.word == s.word
    requires Rank(Phase(s', i), s.word) < Rank(Phase(s, i), s.word)
    ensures RankOfAll(s'.adders.Keys, s') < RankOfAll(s.adders.Keys, s)
  {
    hide Rank;
    var ids := s.adders.Keys;
    assert s'.adders.Keys == ids;
    RankSplit(ids, s, i);
    RankSplit(ids, s', i);
    RankSame(ids - {i}, s, s');
  }

  /** A step of an adder changes the word, or takes its own call further down and leaves the
    * finisher alone. */
  lemma AddGoesDown(s: State, s': State, i: ThreadId)
    requires AddForward(s, s', i) && AdderOk(s, i)
    ensures Moves(s, s', i) && s'.finisher == s.finisher
    ensures if s'.word == s.word then Rank(Phase(s', i), s.word) < Rank(Phase(s, i), s.word)
            else Changes(s'.word) < Changes(s.word)
  {
    hide ReadingStep, WritingStep, AdderOk, Rank, Changes;
    if ReadingStep(s, s', i) {
      ReadingGoesDown(s, s', i);
    } else {
      WritingGoesDown(s, s', i);
    }
  }

  lemma ReadingGoesDown(s: State, s': State, i: ThreadId)
    requires ReadingStep(s, s', i) && !Phase(s, i).Idle?
    requires !(Phase(s', i).Deciding? && Phase(s, i).Swapping? && s.word == Phase(s, i).data)
    ensures Moves(s, s', i) && s'.finisher == s.finisher && s'.word == s.word
    ensures Rank(Phase(s', i), s.word) < Rank(Phase(s, i), s.word)
  {
  }

  lemma WritingGoesDown(s: State, s': State, i: ThreadId)
    requires WritingStep(s, s', i) && AdderOk(s, i)
    ensures Moves(s, s', i) && s'.finisher == s.finisher
    ensures if s'.word == s.word then Rank(Phase(s', i), s.word) < Rank(Phase(s, i), s.word)
            else Changes(s'.word) < Changes(s.word)
  {
    hide Discard, CacheOk;
  }

  lemma FinishGoesDown(s: State, s': State)
    requires FinishForward(s, s') && FinisherOk(s)
    ensures s'.adders == s.adders
    ensures || Changes(s'.word) < Changes(s.word)
            || (s'.word == s.word && FinisherRank(s'.finisher, s.word) < FinisherRank(s.finisher, s.word))
            || (s'.word == s.word && FinisherRank(s'.finisher, s.word) == FinisherRank(s.finisher, s.word)
                && Unflushed(s') < Unflushed(s))
  {
  }

  /** Every step that begins no call and is no spurious failure brings the protocol closer to
    * its end. */
  lemma ForwardComesCloser(run: seq<State>, k: nat, s': State)
    requires IsRun(run) && k < |run| && Forward(run[k], s')
    ensures Closer(s', run[k])
  {
    hide Add, Finish, Rank, FinisherRank, Changes, Unflushed, IsRun;
    var s := run[k];
    RunKeeps(run, k);
    assert !s.destroyed;
    if i :| AddForward(s, s', i) {
      assert AdderOk(s, i);
      AddGoesDown(s, s', i);
      if s'.word == s.word { OneGoesDown(s, s', i); }
    } else {
      FinishGoesDown(s, s');
      if s'.word == s.word { RankSame(s.adders.Keys, s, s'); }
    }
  }

  ghost predicate GoesForward(chain: nat -> State, n: nat) { Forward(chain(n), chain(n + 1)) }

  /** The order has no infinite descent: from no state of a run can such steps follow one another for ever. */
  lemma {:induction false} NoEndlessChain(run: seq<State>, chain: nat -> State, n: nat)
    requires IsRun(run) && chain(n) == run[|run| - 1]
    ensures exists m :: m >= n && !GoesForward(chain, m)
    decreases Changes(chain(n).word), FinisherRank(chain(n).finisher, chain(n).word),
              RankOfAll(chain(n).adders.Keys, chain(n)), Unflushed(chain(n))
  {
    hide Forward, Changes, FinisherRank, RankOfAll, Unflushed;
    if GoesForward(chain, n) {
      ForwardComesCloser(run, |run| - 1, chain(n + 1));
      ForwardRuns(run, chain(n + 1));
      NoEndlessChain(run + [chain(n + 1)], chain, n + 1);
    }
  }

  lemma ForwardRuns(run: seq<State>, s': State)
    requires IsRun(run) && Forward(run[|run| - 1], s')
    ensures IsRun(run + [s'])
  {
    hide Next, AddForward, FinishForward;
    assert (run + [s'])[..|run|] == run;
  }

  // ---- No deadlock

  ghost predicate CanStep(s: State) { exists s' :: Forward(s, s') }

  lemma AdderMakes(s: State, s': State, i: ThreadId)
    requires !s.destroyed && AddForward(s, s', i)
    ensures CanStep(s)
  {
    hide Add;
    assert Next(s, s');
    assert Forward(s, s');
  }

  lemma FinisherMakes(s: State, s': State)
    requires !s.destroyed && FinishForward(s, s')
    ensures CanStep(s)
  {
    hide Finish;
    assert Next(s, s');
    assert Forward(s, s');
  }

  lemma HolderSteps(s: State, i: ThreadId)
    requires Live(s) && !s.destroyed && InMutex(Phase(s, i))
    ensures CanStep(s)
  {
    hide TasksOk, HeapOk, MutexOk, HistoryOk, FinisherOk;
    var p := Phase(s, i);
    assert AdderOk(s, i);
    if p.Holding? {
      var s' := To(s, i, if s.word.locked then Releasing(Some(p.task), p.vector, p.cached) else Pushing(p.task, p.vector, p.cached));
      assert CheckAgain(s, s', i);
      AdderMakes(s, s', i);
    } else if p.Pushing? {
      var s' := To(s, i, Releasing(None, p.vector, p.cached)).(
        heap := s.heap[p.vector := s.heap[p.vector].(tasks := s.heap[p.vector].tasks + [p.task])],
        accepted := s.accepted + [p.task]);
      assert Push(s, s', i);
      AdderMakes(s, s', i);
    } else {
      var s' := To(s, i, if p.refused.None? then Idle else Refused(p.refused.value)).(
        heap := Discard(s.heap[p.vector := s.heap[p.vector].(owner := Free)], p.cached));
      assert ReleaseMutex(s, s', i);
      AdderMakes(s, s', i);
    }
  }

  lemma FinisherSteps(s: State)
    requires Live(s) && !s.destroyed && !s.finisher.NotFinished? && !s.finisher.Done?
    ensures CanStep(s)
  {
    hide TasksOk, HistoryOk, AdderOk;
    var f := s.finisher;
    if f.Stored? {
      assert LoadForFlush(s, s.(finisher := Locking(s.word)));
      FinisherMakes(s, s.(finisher := Locking(s.word)));
    } else if f.Locking? {
      if s.word == f.data {
        var s' := s.(word := s.word.(locked := true), finisher := Flushing(f.data));
        assert LockSucceeds(s, s');
        FinisherMakes(s, s');
      } else {
        var s' := s.(finisher := Locking(s.word));
        assert LockFails(s, s');
        FinisherMakes(s, s');
      }
    } else if f.Flushing? {
      FlushingSteps(s);
    } else if f.next < |s.heap[f.vector].tasks| {
      var s' := s.(finisher := FlushingVector(f.vector, f.next + 1), flushed := s.flushed + [s.heap[f.vector].tasks[f.next]]);
      assert FlushNext(s, s');
      FinisherMakes(s, s');
    } else {
      var s' := s.(finisher := Done, heap := s.heap[f.vector := VectorData([], Free)]);
      assert ClearVector(s, s');
      FinisherMakes(s, s');
    }
  }

  lemma FlushingSteps(s: State)
    requires Live(s) && !s.destroyed && s.finisher.Flushing?
    ensures CanStep(s)
  {
    hide TasksOk, HistoryOk, AdderOk;
    var f := s.finisher;
    if !f.data.pointer.Vector? {
      var s' := s.(finisher := Done, flushed := s.flushed + if f.data.pointer.Inline? then [f.data.pointer.task] else []);
      assert FlushInline(s, s');
      FinisherMakes(s, s');
    } else {
      var v := f.data.pointer.id;
      if s.heap[v].owner.Adder? {
        HolderSteps(s, s.heap[v].owner.id);
      } else {
        var s' := s.(finisher := FlushingVector(v, 0), heap := s.heap[v := s.heap[v].(owner := Finisher)]);
        assert TakeMutexForFlush(s, s');
        FinisherMakes(s, s');
      }
    }
  }

  lemma DeciderSteps(s: State, i: ThreadId)
    requires Live(s) && !s.destroyed && Phase(s, i).Deciding?
    ensures CanStep(s)
  {
    hide TasksOk, HistoryOk;
    var p := Phase(s, i);
    assert AdderOk(s, i);
    if p.data.locked {
      var s' := To(s, i, Refused(p.task)).(heap := Discard(s.heap, p.cached));
      assert SeeLocked(s, s', i);
      AdderMakes(s, s', i);
    } else if p.data.pointer.Vector? {
      var v := p.data.pointer.id;
      if s.heap[v].owner.Adder? {
        HolderSteps(s, s.heap[v].owner.id);
      } else if s.heap[v].owner.Finisher? {
        FinisherSteps(s);
      } else {
        var s' := To(s, i, Holding(p.task, v, p.cached)).(heap := s.heap[v := s.heap[v].(owner := Adder(i))]);
        assert TakeMutex(s, s', i);
        AdderMakes(s, s', i);
      }
    } else if p.data.pointer.Inline? && p.cached.None? {
      var v := Unused(s.heap.Keys);
      var s' := To(s, i, Swapping(p.task, p.data, Some(v))).(
        heap := s.heap[v := VectorData([p.data.pointer.task, p.task], Free)]);
      assert Allocate(s, s', i, v);
      AdderMakes(s, s', i);
    } else {
      var s' := To(s, i, Swapping(p.task, p.data, p.cached));
      assert Prepare(s, s', i);
      AdderMakes(s, s', i);
    }
  }

  /** An identity not yet in use. */
  ghost function {:induction false} Unused(ids: set<VectorId>): (v: VectorId)
    ensures v !in ids && forall u :: u in ids ==> u < v
  {
    if ids == {} then 0 else
    var u :| u in ids;
    var w := Unused(ids - {u});
    assert ids == (ids - {u}) + {u};
    if u < w then w else u + 1
  }

  /** While a call on the task has not returned, some thread can take a step that brings it
    * forward, so by `NoEndlessChain` all calls return unless new ones keep coming or
    * exchanges keep failing for no reason. */
  lemma NeverStuck(run: seq<State>, k: nat)
    requires IsRun(run) && k < |run| && !run[k].destroyed && !Quiet(run[k])
    ensures CanStep(run[k])
  {
    RunKeeps(run, k);
    var s := run[k];
    if !s.finisher.NotFinished? && !s.finisher.Done? {
      FinisherSteps(s);
    } else {
      var i :| !Phase(s, i).Idle?;
      AdderSteps(s, i);
    }
  }

  lemma AdderSteps(s: State, i: ThreadId)
    requires Live(s) && !s.destroyed && !Phase(s, i).Idle?
    ensures CanStep(s)
  {
    hide TasksOk, HistoryOk, MutexOk, HeapOk, FinisherOk;
    var p := Phase(s, i);
    if InMutex(p) {
      HolderSteps(s, i);
    } else if p.Deciding? {
      DeciderSteps(s, i);
    } else if p.Entered? {
      var s' := To(s, i, Loading(p.task));
      assert ReadState(s, s', i, false);
      AdderMakes(s, s', i);
    } else if p.Loading? {
      var s' := To(s, i, Deciding(p.task, s.word, None));
      assert LoadWord(s, s', i);
      AdderMakes(s, s', i);
    } else if p.Swapping? && s.word == p.data {
      assert AdderOk(s, i);
      var s' := To(s, i, Idle).(
        word := Word(if p.data.pointer.Inline? then Vector(p.cached.value) else Inline(p.task), false),
        accepted := s.accepted + [p.task]);
      assert SwapSucceeds(s, s', i);
      AdderMakes(s, s', i);
    } else if p.Swapping? {
      var s' := To(s, i, Deciding(p.task, s.word, p.cached));
      assert SwapFails(s, s', i);
      AdderMakes(s, s', i);
    } else {
      var s' := To(s, i, Idle).(direct := s.direct + [p.task]);
      assert RunDirectly(s, s', i);
      AdderMakes(s, s', i);
    }
  }
}

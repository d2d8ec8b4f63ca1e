/** Splitting ranges in half and working on the halves in parallel: the partitioners,
  * `parallel_map_reduce` and `parallel_for`. */
module Partitions {
  import opened Options

  type ThreadId = nat

  /** A range of positions with what its kind of partitioner remembers. An automatic
    * partitioner that never ran has no last thread, and its thread count means nothing. */
  datatype Partitioner =
    | Static(begin: nat, end: nat, grain: nat)
    | Auto(begin: nat, end: nat, grain: nat, numThreads: nat, lastThread: Option<ThreadId>)

  predicate IsRange(p: Partitioner) { p.begin <= p.end }

  /** The parts `p` and `out` are the range of `whole`, cut in two: either nothing was split
    * off, or both parts are shorter than the whole and differ by at most one. */
  predicate SplitsInto(whole: Partitioner, p: Partitioner, out: Partitioner) {
    && p.begin == whole.begin && out.end == whole.end && p.begin <= p.end && out.begin <= out.end
    && (out.begin == out.end ==> p.end == whole.end)
    && (out.begin < out.end ==>
          && p.end == out.begin
          && p.end - p.begin < whole.end - whole.begin && out.end - out.begin < whole.end - whole.begin
          && 0 <= (p.end - p.begin) - (out.end - out.begin) <= 1)
  }

  /** The threads that an automatic partitioner has to divide: those it was given, unless another thread has taken it. */
  function Threads(p: Partitioner, hardware: nat, current: ThreadId): nat
    requires p.Auto?
  {
    if p.lastThread == Some(current) then p.numThreads else hardware
  }

  /** `split`, run on the thread `current`. It returns the part split off and leaves the rest. */
  method Split(whole: Partitioner, hardware: nat, current: ThreadId) returns (p: Partitioner, out: Partitioner)
    requires IsRange(whole)
    ensures SplitsInto(whole, p, out) && p.grain == out.grain == whole.grain
    ensures p.Auto? == out.Auto? == whole.Auto?
    ensures out.begin < out.end <==> whole.end - whole.begin > whole.grain && whole.end - whole.begin > 1 && (whole.Auto? ==> Threads(whole, hardware, current) > 1)
    ensures whole.end - whole.begin <= whole.grain || whole.Static? ==> p == whole.(end := p.end)
    ensures whole.Auto? && whole.end - whole.begin > whole.grain ==>
      p.numThreads + out.numThreads == Threads(whole, hardware, current)
    ensures whole.Auto? && whole.end - whole.begin > whole.grain && Threads(whole, hardware, current) <= 1 ==>
      p == whole.(numThreads := Threads(whole, hardware, current))
    ensures whole.Auto? && out.begin < out.end ==>
      && p.lastThread == out.lastThread == Some(current)
      && 0 < out.numThreads <= p.numThreads <= out.numThreads + 1
  {
    p := whole;
    var length := p.end - p.begin;
    out := p.(begin := p.end);
    if p.Auto? { out := out.(numThreads := 0, lastThread := None); }
    if length <= p.grain { return; }
    if p.Auto? {
      if Some(current) != p.lastThread { p := p.(numThreads := hardware); }
      if p.numThreads <= 1 { return; }
    }
    p := p.(end := p.begin + (length + 1) / 2);
    out := out.(begin := p.end);
    if p.Auto? {
      out := out.(lastThread := Some(current));
      p := p.(lastThread := Some(current));
      out := out.(numThreads := p.numThreads / 2);
      p := p.(numThreads := p.numThreads - out.numThreads);
    }
  }

  // ---- Reduction

  ghost predicate Associative<R(!new)>(reduce: (R, R) -> R) {
    forall a, b, c :: reduce(reduce(a, b), c) == reduce(a, reduce(b, c))
  }

  ghost predicate RightIdentity<R(!new)>(reduce: (R, R) -> R, init: R) { forall a :: reduce(a, init) == a }

  /** The sequential fold from the left. */
  function Fold<T, R>(acc: R, xs: seq<T>, mapping: T -> R, reduce: (R, R) -> R): R {
    if xs == [] then acc else Fold(reduce(acc, mapping(xs[0])), xs[1..], mapping, reduce)
  }

  lemma {:induction false} FoldConcat<T, R>(acc: R, xs: seq<T>, ys: seq<T>, mapping: T -> R, reduce: (R, R) -> R)
    ensures Fold(acc, xs + ys, mapping, reduce) == Fold(Fold(acc, xs, mapping, reduce), ys, mapping, reduce)
    decreases |xs|
  {
    if xs == [] {
      assert xs + ys == ys;
    } else {
      assert (xs + ys)[0] == xs[0] && (xs + ys)[1..] == xs[1..] + ys;
      FoldConcat(reduce(acc, mapping(xs[0])), xs[1..], ys, mapping, reduce);
    }
  }

  /** Folding on from a value is reducing it with a fold of its own. */
  lemma {:induction false} FoldFrom<T, R(!new)>(acc: R, xs: seq<T>, init: R, mapping: T -> R, reduce: (R, R) -> R)
    requires Associative(reduce) && RightIdentity(reduce, init)
    ensures Fold(acc, xs, mapping, reduce) == reduce(acc, Fold(init, xs, mapping, reduce))
    decreases |xs|
  {
    if xs == [] {
      assert reduce(acc, init) == acc;
    } else {
      var x := mapping(xs[0]);
      FoldFrom(reduce(acc, x), xs[1..], init, mapping, reduce);
      FoldFrom(reduce(init, x), xs[1..], init, mapping, reduce);
      var rest := Fold(init, xs[1..], mapping, reduce);
      assert reduce(acc, reduce(reduce(init, x), rest)) == reduce(reduce(acc, reduce(init, x)), rest);
      assert reduce(acc, reduce(init, x)) == reduce(reduce(acc, init), x) == reduce(acc, x);
    }
  }

  /** The two halves, reduced, are the whole. */
  lemma Halves<T, R(!new)>(data: seq<T>, p: Partitioner, out: Partitioner, init: R, mapping: T -> R, reduce: (R, R) -> R)
    requires Associative(reduce) && RightIdentity(reduce, init)
    requires p.begin <= p.end == out.begin <= out.end <= |data|
    ensures Fold(init, data[p.begin..out.end], mapping, reduce) ==
      reduce(Fold(init, data[p.begin..p.end], mapping, reduce), Fold(init, data[out.begin..out.end], mapping, reduce))
  {
    assert data[p.begin..out.end] == data[p.begin..p.end] + data[out.begin..out.end];
    FoldConcat(init, data[p.begin..p.end], data[out.begin..out.end], mapping, reduce);
    FoldFrom(Fold(init, data[p.begin..p.end], mapping, reduce), data[out.begin..out.end], init, mapping, reduce);
  }

  /** `internal_parallel_map_reduce`. Which thread runs it is not known; the half split off
    * shares nothing that changes with the half that stays. */
  method ParallelMapReduce<T, R(!new)>(data: seq<T>, partitioner: Partitioner, hardware: nat, init: R, mapping: T -> R, reduce: (R, R) -> R)
    returns (out: R)
    requires IsRange(partitioner) && partitioner.end <= |data|
    requires Associative(reduce) && RightIdentity(reduce, init)
    ensures out == Fold(init, data[partitioner.begin..partitioner.end], mapping, reduce)
    decreases partitioner.end - partitioner.begin
  {
    var current: ThreadId := *;
    var p, subpart := Split(partitioner, hardware, current);
    if subpart.begin == subpart.end {
      out := init;
      var i := p.begin;
      ghost var whole := Fold(init, data[p.begin..p.end], mapping, reduce);
      while i < p.end
        invariant p.begin <= i <= p.end && Fold(out, data[i..p.end], mapping, reduce) == whole
      {
        assert data[i..p.end][0] == data[i] && data[i..p.end][1..] == data[i + 1..p.end];
        out := reduce(out, mapping(data[i]));
        i := i + 1;
      }
      return;
    }
    var t := ParallelMapReduce(data, subpart, hardware, init, mapping, reduce);
    out := ParallelMapReduce(data, p, hardware, init, mapping, reduce);
    Halves(data, p, subpart, init, mapping, reduce);
    out := reduce(out, t);
  }

  // ---- Visiting

  /** The positions of a range, each once. */
  function Positions(begin: nat, end: nat): (s: seq<nat>)
    requires begin <= end
    ensures |s| == end - begin && forall k :: 0 <= k < |s| ==> s[k] == begin + k
    decreases end - begin
  {
    if begin == end then [] else [begin] + Positions(begin + 1, end)
  }

  lemma {:induction false} PositionsConcat(a: nat, b: nat, c: nat)
    requires a <= b <= c
    ensures Positions(a, c) == Positions(a, b) + Positions(b, c)
  {
  }

  /** Two threads at work: their calls happen in any order that keeps each one's own. */
  ghost predicate Interleaves(t: seq<nat>, a: seq<nat>, b: seq<nat>)
    decreases |t|
  {
    if t == [] then a == [] && b == []
    else (a != [] && a[0] == t[0] && Interleaves(t[1..], a[1..], b)) || (b != [] && b[0] == t[0] && Interleaves(t[1..], a, b[1..]))
  }

  lemma {:induction false} InterleavingIsPermutation(t: seq<nat>, a: seq<nat>, b: seq<nat>)
    requires Interleaves(t, a, b)
    ensures multiset(t) == multiset(a) + multiset(b)
    decreases |t|
  {
    if t != [] {
      assert t == [t[0]] + t[1..];
      if a != [] && a[0] == t[0] && Interleaves(t[1..], a[1..], b) {
        assert a == [a[0]] + a[1..];
        InterleavingIsPermutation(t[1..], a[1..], b);
      } else {
        assert b == [b[0]] + b[1..];
        InterleavingIsPermutation(t[1..], a, b[1..]);
      }
    }
  }

  /** Some interleaving of the calls of two threads. */
  method RunBoth(a: seq<nat>, b: seq<nat>) returns (t: seq<nat>)
    ensures Interleaves(t, a, b)
    decreases |a| + |b|
  {
    if a == [] && b == [] { return []; }
    var first: bool := *;
    if a != [] && (first || b == []) {
      var rest := RunBoth(a[1..], b);
      t := [a[0]] + rest;
      assert t[1..] == rest;
    } else {
      var rest := RunBoth(a, b[1..]);
      t := [b[0]] + rest;
      assert t[1..] == rest;
    }
  }

  lemma BothHalves(calls: seq<nat>, spawned: seq<nat>, own: seq<nat>, a: nat, b: nat, c: nat)
    requires a <= b <= c && Interleaves(calls, spawned, own)
    requires multiset(own) == multiset(Positions(a, b)) && multiset(spawned) == multiset(Positions(b, c))
    ensures multiset(calls) == multiset(Positions(a, c))
  {
    InterleavingIsPermutation(calls, spawned, own);
    PositionsConcat(a, b, c);
  }

  /** The loop that calls the function for each element of a range. */
  method Visit(begin: nat, end: nat) returns (calls: seq<nat>)
    requires begin <= end
    ensures calls == Positions(begin, end)
  {
    hide Positions;
    calls := [];
    assert Positions(begin, begin) == [];
    var i := begin;
    while i < end
      invariant begin <= i <= end && calls == Positions(begin, i)
    {
      PositionsConcat(begin, i, i + 1);
      assert Positions(i, i + 1) == [i];
      calls := calls + [i];
      i := i + 1;
    }
  }

  /** `internal_parallel_for`: the trace of its calls, by position. */
  method ParallelFor(partitioner: Partitioner, hardware: nat) returns (calls: seq<nat>)
    requires IsRange(partitioner)
    ensures multiset(calls) == multiset(Positions(partitioner.begin, partitioner.end))
    decreases partitioner.end - partitioner.begin
  {
    hide Interleaves, Positions;
    var current: ThreadId := *;
    var p, subpart := Split(partitioner, hardware, current);
    if subpart.begin == subpart.end {
      calls := Visit(p.begin, p.end);
      return;
    }
    var spawned := ParallelFor(subpart, hardware);
    var own := ParallelFor(p, hardware);
    calls := RunBoth(spawned, own);
    BothHalves(calls, spawned, own, p.begin, p.end, subpart.end);
  }

  /** A trace with these calls makes exactly one at each position of the range. */
  lemma EachPositionOnce(calls: seq<nat>, begin: nat, end: nat, i: nat)
    requires begin <= end && multiset(calls) == multiset(Positions(begin, end))
    ensures multiset(calls)[i] == if begin <= i < end then 1 else 0
  {
    PositionOnce(begin, end, i);
  }

  lemma {:induction false} PositionOnce(begin: nat, end: nat, i: nat)
    requires begin <= end
    ensures multiset(Positions(begin, end))[i] == if begin <= i < end then 1 else 0
    decreases end - begin
  {
    if begin < end {
      PositionOnce(begin + 1, end, i);
    }
  }

  lemma ShareBounds(dist: nat, unit: nat)
    requires unit > 0
    ensures var q := dist / unit; q * unit <= dist < (q + 1) * unit
    ensures (dist < unit ==> dist / unit < 1) && (dist > 2048 * unit ==> dist / unit >= 2048)
    ensures unit <= dist <= 2048 * unit ==> 1 <= dist / unit <= 2048
  {
  }

  /** `auto_grain_size`: between 1 and 2048 for every length, so that a range of one element
    * is never split. */
  function AutoGrainSize(dist: nat, hardware: nat): (grain: nat)
    requires hardware > 0
    ensures 1 <= grain <= 2048
    ensures var unit := 8 * hardware;
      && (dist < unit ==> grain == 1) && (dist > 2048 * unit ==> grain == 2048)
      && (unit <= dist <= 2048 * unit ==> grain * unit <= dist < (grain + 1) * unit)
  {
    var unit := 8 * hardware;
    ShareBounds(dist, unit);
    var grain := dist / unit;
    if grain < 1 then 1 else if grain > 2048 then 2048 else grain
  }
}

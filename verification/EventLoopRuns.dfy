/** What one iteration leaves behind to the last field, which runs stop, and which queue and readiness
    each kind of submission meets: stated without the functions that the loop is made of. */
module EventLoopRuns {
  import opened EventLoop
  import opened EventLoopLaws

  // What callbacks submit

  /** The operations of one kind that submissions numbered from `first` become. */
  function OpsOf(ss: seq<Submission>, first: nat, kind: Kind): seq<Op> {
    if ss == [] then []
    else (if ss[0].kind == kind then [Op(first, ss[0].fd, false)] else []) + OpsOf(ss[1..], first + 1, kind)
  }

  /** All that the callbacks of the given operations submit, in order. */
  function SubmissionsOf(ids: seq<nat>, callback: nat -> Effect): seq<Submission> {
    if ids == [] then [] else callback(ids[0]).submits + SubmissionsOf(ids[1..], callback)
  }

  predicate AnyStops(ids: seq<nat>, callback: nat -> Effect) {
    exists i :: 0 <= i < |ids| && callback(ids[i]).stops
  }

  lemma SeqAssoc<T>(a: seq<T>, b: seq<T>, c: seq<T>)
    ensures a + b + c == a + (b + c)
  {
  }

  lemma {:induction false} OpsOfAppend(a: seq<Submission>, b: seq<Submission>, first: nat, kind: Kind)
    ensures OpsOf(a + b, first, kind) == OpsOf(a, first, kind) + OpsOf(b, first + |a|, kind)
  {
    if a == [] {
      assert a + b == b;
    } else {
      assert (a + b)[1..] == a[1..] + b;
      OpsOfAppend(a[1..], b, first + 1, kind);
      var own := if a[0].kind == kind then [Op(first, a[0].fd, false)] else [];
      SeqAssoc(own, OpsOf(a[1..], first + 1, kind), OpsOf(b, first + |a|, kind));
    }
  }

  lemma {:induction false} SubmissionsAppend(a: seq<nat>, b: seq<nat>, callback: nat -> Effect)
    ensures SubmissionsOf(a + b, callback) == SubmissionsOf(a, callback) + SubmissionsOf(b, callback)
  {
    if a == [] {
      assert a + b == b;
    } else {
      assert (a + b)[1..] == a[1..] + b;
      SubmissionsAppend(a[1..], b, callback);
    }
  }

  lemma StopsAppend(a: seq<nat>, b: seq<nat>, callback: nat -> Effect)
    ensures AnyStops(a + b, callback) <==> AnyStops(a, callback) || AnyStops(b, callback)
  {
    if i :| 0 <= i < |a| && callback(a[i]).stops {
      assert (a + b)[i] == a[i];
    }
    if i :| 0 <= i < |b| && callback(b[i]).stops {
      assert (a + b)[|a| + i] == b[i];
    }
  }

  /** Only the queue of the submission's kind grows, by one operation on its descriptor. */
  lemma SubmitGrowsOneQueue(st: LoopState, s: Submission)
    ensures var q, q' := st.queues, Submit(st, s).queues;
            var op := Op(st.nextId, s.fd, false);
            && q'.recv == (if s.kind == Recv then q.recv + [op] else q.recv)
            && q'.send == (if s.kind == Send then q.send + [op] else q.send)
            && q'.accept == (if s.kind == Accept then q.accept + [op] else q.accept)
            && q'.wait == (if s.kind == Wait then q.wait + [op] else q.wait)
            && Submit(st, s).nextId == st.nextId + 1
  {
  }

  lemma {:induction false} SubmitAllMeans(st: LoopState, ss: seq<Submission>, kind: Kind)
    ensures var st' := SubmitAll(st, ss);
            && st'.queues.Get(kind) == st.queues.Get(kind) + OpsOf(ss, st.nextId, kind)
            && st'.nextId == st.nextId + |ss| && st'.stopped == st.stopped
    decreases |ss|
  {
    if ss != [] {
      SubmitAllMeans(Submit(st, ss[0]), ss[1..], kind);
      var own := if ss[0].kind == kind then [Op(st.nextId, ss[0].fd, false)] else [];
      assert Submit(st, ss[0]).queues.Get(kind) == st.queues.Get(kind) + own;
      SeqAssoc(st.queues.Get(kind), own, OpsOf(ss[1..], st.nextId + 1, kind));
    }
  }

  /** After the callbacks of `ids` have run, in order, in state `st`. */
  ghost predicate Called(st: LoopState, ids: seq<nat>, callback: nat -> Effect, kind: Kind, st': LoopState) {
    var ss := SubmissionsOf(ids, callback);
    && st'.queues.Get(kind) == st.queues.Get(kind) + OpsOf(ss, st.nextId, kind)
    && st'.nextId == st.nextId + |ss|
    && (st'.stopped <==> st.stopped || AnyStops(ids, callback))
  }

  lemma CalledNone(st: LoopState, callback: nat -> Effect, kind: Kind)
    ensures Called(st, [], callback, kind, st)
  {
  }

  lemma CalledOne(st: LoopState, id: nat, callback: nat -> Effect, kind: Kind)
    ensures Called(st, [id], callback, kind, Call(st, id, callback(id)))
  {
    SubmitAllMeans(st, callback(id).submits, kind);
    assert SubmissionsOf([id], callback) == callback(id).submits + [] == callback(id).submits;
    assert callback(id).stops ==> callback([id][0]).stops;
  }

  lemma CalledMore(st: LoopState, a: seq<nat>, st1: LoopState, b: seq<nat>, st2: LoopState,
        callback: nat -> Effect, kind: Kind)
    requires Called(st, a, callback, kind, st1) && Called(st1, b, callback, kind, st2)
    ensures Called(st, a + b, callback, kind, st2)
  {
    var sa, sb := SubmissionsOf(a, callback), SubmissionsOf(b, callback);
    SubmissionsAppend(a, b, callback);
    StopsAppend(a, b, callback);
    OpsOfAppend(sa, sb, st.nextId, kind);
    SeqAssoc(st.queues.Get(kind), OpsOf(sa, st.nextId, kind), OpsOf(sb, st1.nextId, kind));
  }

  lemma {:induction false} FireCalls(st: LoopState, ops: seq<Op>, ready: set<int>, callback: nat -> Effect, kind: Kind)
    ensures Called(st, Fired(ops, ready), callback, kind, FireAll(st, ops, ready, callback).0)
    decreases |ops|
  {
    if ops == [] {
      CalledNone(st, callback, kind);
    } else {
      var op, rest := ops[0], ops[1..];
      if op.fd in ready {
        var called := Call(st, op.id, callback(op.id));
        CalledOne(st, op.id, callback, kind);
        FireCalls(called, rest, ready, callback, kind);
        CalledMore(st, [op.id], called, Fired(rest, ready), FireAll(called, rest, ready, callback).0, callback, kind);
      } else {
        FireCalls(st, rest, ready, callback, kind);
        assert Fired(ops, ready) == Fired(rest, ready);
      }
    }
  }

  /** The operations that fire in an iteration, in order. */
  function AllFired(st: LoopState, o: Oracle): seq<nat> {
    FiredBy(st, o, Recv) + FiredBy(st, o, Send) + FiredBy(st, o, Accept) + FiredBy(st, o, Wait)
  }

  lemma PassesCall(st: LoopState, o: Oracle, kind: Kind)
    ensures Called(st.(queues := NO_OPS), AllFired(st, o), o.callback, kind, Pass(st, o, 4))
  {
    var start := Pass(st, o, 0);
    FireCalls(start, st.queues.Get(Recv), Ready(o, Recv), o.callback, kind);
    FireCalls(Pass(st, o, 1), st.queues.Get(Send), Ready(o, Send), o.callback, kind);
    FireCalls(Pass(st, o, 2), st.queues.Get(Accept), Ready(o, Accept), o.callback, kind);
    FireCalls(Pass(st, o, 3), st.queues.Get(Wait), Ready(o, Wait), o.callback, kind);
    var r, s, a, w := FiredBy(st, o, Recv), FiredBy(st, o, Send), FiredBy(st, o, Accept), FiredBy(st, o, Wait);
    CalledMore(start, r, Pass(st, o, 1), s, Pass(st, o, 2), o.callback, kind);
    CalledMore(start, r + s, Pass(st, o, 2), a, Pass(st, o, 3), o.callback, kind);
    CalledMore(start, r + s + a, Pass(st, o, 3), w, Pass(st, o, 4), o.callback, kind);
  }

  /** The callbacks that an iteration ran, as the record of completions shows them. */
  function Ran(st: LoopState, st': LoopState): seq<nat>
    requires |st.done| <= |st'.done|
  {
    st'.done[|st.done|..]
  }

  lemma AppendedPart(a: seq<nat>, b: seq<nat>)
    ensures a <= a + b && (a + b)[|a|..] == b
  {
  }

  lemma IterationRan(st: LoopState, o: Oracle)
    requires LoopOk(st)
    ensures st.done <= Iterate(st, o).done && Ran(st, Iterate(st, o)) == AllFired(st, o)
  {
    IterationMeans(st, o);
    var r, s, a, w := FiredBy(st, o, Recv), FiredBy(st, o, Send), FiredBy(st, o, Accept), FiredBy(st, o, Wait);
    SeqAssoc(st.done, r, s);
    SeqAssoc(st.done, r + s, a);
    SeqAssoc(st.done, r + s + a, w);
    AppendedPart(st.done, AllFired(st, o));
  }

  lemma IterationLeaves(st: LoopState, o: Oracle, kind: Kind)
    requires LoopOk(st)
    ensures var st' := Iterate(st, o);
            var ss := SubmissionsOf(AllFired(st, o), o.callback);
            && st'.queues.Get(kind) == Kept(st, o, kind) + OpsOf(ss, st.nextId, kind)
            && st'.nextId == st.nextId + |ss|
            && (st'.stopped <==> st.stopped || AnyStops(AllFired(st, o), o.callback))
  {
    assert forall k: Kind :: Ascending(st.queues.Get(k), 0, st.nextId);
    IterationIsPasses(st, o);
    PassesCall(st, o, kind);
    var ops := OpsOf(SubmissionsOf(AllFired(st, o), o.callback), st.nextId, kind);
    assert NO_OPS.Get(kind) + ops == ops;
  }

  /** An iteration to the last field: each queue is what was not ready, in order, followed by exactly
      what the callbacks that ran submitted, in order; and the loop is stopped exactly when it was or
      one of those callbacks stops it. */
  lemma IterationExactly(st: LoopState, o: Oracle, kind: Kind)
    requires LoopOk(st)
    ensures var st' := Iterate(st, o);
            && st.done <= st'.done
            && var ss := SubmissionsOf(Ran(st, st'), o.callback);
               && st'.queues.Get(kind) == Kept(st, o, kind) + OpsOf(ss, st.nextId, kind)
               && st'.nextId == st.nextId + |ss|
               && (st'.stopped <==> st.stopped || AnyStops(Ran(st, st'), o.callback))
  {
    IterationRan(st, o);
    IterationLeaves(st, o, kind);
  }

  /** A submission completes in the next iteration exactly when its descriptor is writable, for a send,
      or readable, for the other kinds. */
  lemma SubmittedCompletesWhenReady(st: LoopState, s: Submission, o: Oracle)
    requires LoopOk(st)
    ensures Completed(Iterate(Submit(st, s), o).done, st.nextId) ==
              match s.kind
              case Send => if s.fd in o.writable then 1 else 0
              case Recv | Accept | Wait => if s.fd in o.readable then 1 else 0
  {
    var st' := Submit(st, s);
    SubmitOk(st, s);
    SubmitGrowsOneQueue(st, s);
    CompletesExactlyWhenReady(st', o, s.kind, |st'.queues.Get(s.kind)| - 1);
  }

  // Stopping

  /** Iterations one after the other, stopped or not. */
  function IterateAll(st: LoopState, schedule: seq<Oracle>): LoopState
    decreases |schedule|
  {
    if schedule == [] then st else IterateAll(Iterate(st, schedule[0]), schedule[1..])
  }

  /** `n` is the number of iterations up to and including the first that leaves the loop stopped, or
      all that the schedule allows if none does. */
  ghost predicate StopsAfter(st: LoopState, schedule: seq<Oracle>, n: nat) {
    && n <= |schedule|
    && (forall i | 0 <= i < n :: !IterateAll(st, schedule[..i]).stopped)
    && (n < |schedule| ==> IterateAll(st, schedule[..n]).stopped)
  }

  lemma IterateAllFirst(st: LoopState, schedule: seq<Oracle>, i: nat)
    requires 0 < i <= |schedule|
    ensures IterateAll(st, schedule[..i]) == IterateAll(Iterate(st, schedule[0]), schedule[1..][..i - 1])
  {
    assert schedule[..i][1..] == schedule[1..][..i - 1];
  }

  lemma {:induction false} TurnRunsUntilStopped(st: LoopState, schedule: seq<Oracle>) returns (n: nat)
    ensures StopsAfter(st, schedule, n) && Turn(st, schedule) == IterateAll(st, schedule[..n])
    decreases |schedule|
  {
    if st.stopped || schedule == [] {
      n := 0;
    } else {
      var rest := schedule[1..];
      var st' := Iterate(st, schedule[0]);
      var m := TurnRunsUntilStopped(st', rest);
      n := m + 1;
      forall i | 0 <= i < n
        ensures !IterateAll(st, schedule[..i]).stopped
      {
        if i > 0 {
          IterateAllFirst(st, schedule, i);
          assert !IterateAll(st', rest[..i - 1]).stopped;
        }
      }
      IterateAllFirst(st, schedule, n);
    }
  }

  lemma StopsAfterOnce(st: LoopState, schedule: seq<Oracle>, n: nat, m: nat)
    requires StopsAfter(st, schedule, n) && StopsAfter(st, schedule, m)
    ensures n == m
  {
  }

  /** A run clears the stop flag, goes on from the queues as they are, and executes exactly the
      iterations up to and including the first that leaves the loop stopped: none after it, all of
      them if there is none, and one at least. */
  lemma RunStopsExactly(st: LoopState, schedule: seq<Oracle>) returns (n: nat)
    ensures StopsAfter(st.(stopped := false), schedule, n)
    ensures Happen(st, EventLoop.Ran(schedule)) == IterateAll(st.(stopped := false), schedule[..n])
    ensures schedule != [] ==> n > 0
    ensures forall m | StopsAfter(st.(stopped := false), schedule, m) :: m == n
  {
    n := TurnRunsUntilStopped(st.(stopped := false), schedule);
    forall m | StopsAfter(st.(stopped := false), schedule, m)
      ensures m == n
    {
      StopsAfterOnce(st.(stopped := false), schedule, n, m);
    }
  }

  /** A stop asked for from outside a run is forgotten by the next run. */
  lemma StopBeforeRun(st: LoopState, schedule: seq<Oracle>)
    ensures Happen(st, Stopped) == st.(stopped := true)
    ensures Happen(Happen(st, Stopped), EventLoop.Ran(schedule)) == Happen(st, EventLoop.Ran(schedule))
  {
  }
}

/** Over every history of the event loop, each submitted operation is pending once or completed
    once, in order. */
module EventLoopLaws {
  import opened EventLoop

  // Conservation, counted for one operation at a time

  function Count(ops: seq<Op>, id: nat): nat {
    if ops == [] then 0 else (if ops[0].id == id then 1 else 0) + Count(ops[1..], id)
  }

  function Pending(q: Queues, id: nat): nat {
    Count(q.recv, id) + Count(q.send, id) + Count(q.accept, id) + Count(q.wait, id)
  }

  /** How often the callback of operation `id` has run. */
  function Completed(done: seq<nat>, id: nat): nat
    decreases |done|
  {
    if done == [] then 0 else Completed(done[..|done| - 1], id) + (if done[|done| - 1] == id then 1 else 0)
  }

  /** A submitted operation is queued, held aside, or completed: exactly once. Any other is none of these. */
  predicate Conserved(st: LoopState, id: nat, aside: nat) {
    Pending(st.queues, id) + aside + Completed(st.done, id) == if id < st.nextId then 1 else 0
  }

  lemma {:induction false} CountAppend(a: seq<Op>, b: seq<Op>, id: nat)
    ensures Count(a + b, id) == Count(a, id) + Count(b, id)
  {
    if a == [] {
      assert a + b == b;
    } else {
      assert (a + b)[1..] == a[1..] + b;
      CountAppend(a[1..], b, id);
    }
  }

  lemma CountCons(op: Op, ops: seq<Op>, id: nat)
    ensures Count([op] + ops, id) == (if op.id == id then 1 else 0) + Count(ops, id)
  {
    assert ([op] + ops)[1..] == ops;
  }

  lemma CompletedSnoc(done: seq<nat>, x: nat, id: nat)
    ensures Completed(done + [x], id) == Completed(done, id) + (if x == id then 1 else 0)
  {
    assert (done + [x])[..|done|] == done;
  }

  lemma PushCounts(q: Queues, kind: Kind, op: Op, id: nat)
    ensures Pending(q.Push(kind, op), id) == Pending(q, id) + if op.id == id then 1 else 0
  {
    CountAppend(q.Get(kind), [op], id);
    CountCons(op, [], id);
    assert [op] + [] == [op];
  }

  lemma SubmitConserves(st: LoopState, s: Submission, id: nat, aside: nat)
    requires Conserved(st, id, aside)
    ensures Conserved(Submit(st, s), id, aside)
  {
    PushCounts(st.queues, s.kind, Op(st.nextId, s.fd, false), id);
  }

  lemma {:induction false} SubmitAllConserves(st: LoopState, ss: seq<Submission>, id: nat, aside: nat)
    requires Conserved(st, id, aside)
    ensures Conserved(SubmitAll(st, ss), id, aside)
    decreases |ss|
  {
    if ss != [] {
      SubmitConserves(st, ss[0], id, aside);
      SubmitAllConserves(Submit(st, ss[0]), ss[1..], id, aside);
    }
  }

  lemma CallConserves(st: LoopState, called: nat, effect: Effect, id: nat, aside: nat)
    requires Conserved(st, id, aside + if called == id then 1 else 0)
    ensures Conserved(Call(st, called, effect), id, aside)
  {
    SubmitAllConserves(st, effect.submits, id, aside + if called == id then 1 else 0);
    CompletedSnoc(SubmitAll(st, effect.submits).done, called, id);
  }

  predicate AllIncomplete(ops: seq<Op>) {
    forall i | 0 <= i < |ops| :: !ops[i].complete
  }

  lemma {:induction false} FireConserves(st: LoopState, ops: seq<Op>, ready: set<int>, callback: nat -> Effect,
        id: nat, aside: nat)
    requires AllIncomplete(ops) && Conserved(st, id, aside + Count(ops, id))
    ensures var (st', ops') := FireAll(st, ops, ready, callback);
            Conserved(st', id, aside + Count(Incomplete(ops'), id))
    decreases |ops|
  {
    if ops != [] {
      var op, rest := ops[0], ops[1..];
      if op.fd in ready {
        var called := Call(st, op.id, callback(op.id));
        CallConserves(st, op.id, callback(op.id), id, aside + Count(rest, id));
        FireConserves(called, rest, ready, callback, id, aside);
        FiredDropped(op.(complete := true), FireAll(called, rest, ready, callback).1);
      } else {
        FireConserves(st, rest, ready, callback, id, aside + if op.id == id then 1 else 0);
        var rest' := FireAll(st, rest, ready, callback).1;
        KeptFirst(op, rest');
        CountCons(op, Incomplete(rest'), id);
      }
    }
  }

  lemma FiredDropped(op: Op, rest: seq<Op>)
    requires op.complete
    ensures Incomplete([op] + rest) == Incomplete(rest)
  {
    assert ([op] + rest)[1..] == rest;
  }

  lemma KeptFirst(op: Op, rest: seq<Op>)
    requires !op.complete
    ensures Incomplete([op] + rest) == [op] + Incomplete(rest)
  {
    assert ([op] + rest)[1..] == rest;
  }

  // What one pass over a copied queue does, stated without the pass

  function NotReady(ops: seq<Op>, ready: set<int>): seq<Op> {
    if ops == [] then [] else (if ops[0].fd in ready then [] else [ops[0]]) + NotReady(ops[1..], ready)
  }

  function Fired(ops: seq<Op>, ready: set<int>): seq<nat> {
    if ops == [] then [] else (if ops[0].fd in ready then [ops[0].id] else []) + Fired(ops[1..], ready)
  }

  /** Operations in submission order, numbered from `lo` to below `hi`, none of them complete. */
  predicate Ascending(ops: seq<Op>, lo: nat, hi: nat) {
    && AllIncomplete(ops)
    && (forall i | 0 <= i < |ops| :: lo <= ops[i].id < hi)
    && (forall i, j | 0 <= i < j < |ops| :: ops[i].id < ops[j].id)
  }

  /** `st'` only adds newly numbered operations behind the queues of `st`. */
  ghost predicate Extends(st: LoopState, st': LoopState) {
    && st.nextId <= st'.nextId
    && forall kind: Kind ::
         && st.queues.Get(kind) <= st'.queues.Get(kind)
         && Ascending(st'.queues.Get(kind)[|st.queues.Get(kind)|..], st.nextId, st'.nextId)
  }

  lemma ExtendsTransitive(a: LoopState, b: LoopState, c: LoopState)
    requires Extends(a, b) && Extends(b, c)
    ensures Extends(a, c)
  {
    forall kind: Kind
      ensures && a.queues.Get(kind) <= c.queues.Get(kind)
              && Ascending(c.queues.Get(kind)[|a.queues.Get(kind)|..], a.nextId, c.nextId)
    {
      var qa, qb, qc := a.queues.Get(kind), b.queues.Get(kind), c.queues.Get(kind);
      AscendingAppend(qb[|qa|..], qc[|qb|..], a.nextId, b.nextId, c.nextId);
      assert qc[|qa|..] == qb[|qa|..] + qc[|qb|..];
    }
  }

  lemma AscendingAppend(a: seq<Op>, b: seq<Op>, lo: nat, mid: nat, hi: nat)
    requires Ascending(a, lo, mid) && Ascending(b, mid, hi) && lo <= mid <= hi
    ensures Ascending(a + b, lo, hi)
  {
  }

  lemma SubmitExtends(st: LoopState, s: Submission)
    ensures Extends(st, Submit(st, s))
  {
    var st' := Submit(st, s);
    forall kind: Kind
      ensures && st.queues.Get(kind) <= st'.queues.Get(kind)
              && Ascending(st'.queues.Get(kind)[|st.queues.Get(kind)|..], st.nextId, st'.nextId)
    {
      assert st'.queues.Get(kind)[|st.queues.Get(kind)|..]
          == if kind == s.kind then [Op(st.nextId, s.fd, false)] else [];
    }
  }

  lemma {:induction false} SubmitAllExtends(st: LoopState, ss: seq<Submission>)
    ensures Extends(st, SubmitAll(st, ss)) && SubmitAll(st, ss).done == st.done
    decreases |ss|
  {
    if ss != [] {
      SubmitExtends(st, ss[0]);
      SubmitAllExtends(Submit(st, ss[0]), ss[1..]);
      ExtendsTransitive(st, Submit(st, ss[0]), SubmitAll(st, ss));
    }
  }

  lemma CallExtends(st: LoopState, id: nat, effect: Effect)
    ensures Extends(st, Call(st, id, effect)) && Call(st, id, effect).done == st.done + [id]
  {
    SubmitAllExtends(st, effect.submits);
  }

  lemma {:induction false} FireExtends(st: LoopState, ops: seq<Op>, ready: set<int>, callback: nat -> Effect)
    ensures Extends(st, FireAll(st, ops, ready, callback).0)
    decreases |ops|
  {
    if ops != [] {
      var op := ops[0];
      if op.fd in ready {
        var called := Call(st, op.id, callback(op.id));
        CallExtends(st, op.id, callback(op.id));
        FireExtends(called, ops[1..], ready, callback);
        ExtendsTransitive(st, called, FireAll(called, ops[1..], ready, callback).0);
      } else {
        FireExtends(st, ops[1..], ready, callback);
      }
    }
  }

  /** A pass keeps exactly the operations that are not ready, in order. */
  lemma {:induction false} FireKeeps(st: LoopState, ops: seq<Op>, ready: set<int>, callback: nat -> Effect)
    requires AllIncomplete(ops)
    ensures Incomplete(FireAll(st, ops, ready, callback).1) == NotReady(ops, ready)
    decreases |ops|
  {
    if ops != [] {
      var op, rest := ops[0], ops[1..];
      if op.fd in ready {
        var called := Call(st, op.id, callback(op.id));
        FireKeeps(called, rest, ready, callback);
        FiredDropped(op.(complete := true), FireAll(called, rest, ready, callback).1);
      } else {
        FireKeeps(st, rest, ready, callback);
        KeptFirst(op, FireAll(st, rest, ready, callback).1);
      }
    }
  }

  lemma {:induction false} SubmitAllRunsNothing(st: LoopState, ss: seq<Submission>)
    ensures SubmitAll(st, ss).done == st.done
    decreases |ss|
  {
    if ss != [] {
      SubmitAllRunsNothing(Submit(st, ss[0]), ss[1..]);
    }
  }

  lemma AppendAppend(a: seq<nat>, x: nat, b: seq<nat>)
    ensures a + [x] + b == a + ([x] + b)
  {
  }

  /** A pass runs exactly the callbacks of the ready operations, in order. */
  lemma {:induction false} FireRuns(st: LoopState, ops: seq<Op>, ready: set<int>, callback: nat -> Effect)
    ensures FireAll(st, ops, ready, callback).0.done == st.done + Fired(ops, ready)
    decreases |ops|
  {
    if ops != [] {
      var op, rest := ops[0], ops[1..];
      if op.fd in ready {
        SubmitAllRunsNothing(st, callback(op.id).submits);
        FireRuns(Call(st, op.id, callback(op.id)), rest, ready, callback);
        AppendAppend(st.done, op.id, Fired(rest, ready));
      } else {
        FireRuns(st, rest, ready, callback);
        assert Fired(ops, ready) == Fired(rest, ready);
      }
    }
  }

  // One iteration

  /** The state before the pass over the queue of a kind, and after the last pass. */
  ghost function Pass(st: LoopState, o: Oracle, n: nat): LoopState
    requires n <= 4
  {
    if n == 0 then st.(queues := NO_OPS)
    else
      var kind := KindOf(n - 1);
      FireAll(Pass(st, o, n - 1), st.queues.Get(kind), Ready(o, kind), o.callback).0
  }

  function KindOf(n: nat): Kind
    requires n < 4
  {
    [Recv, Send, Accept, Wait][n]
  }

  function Kept(st: LoopState, o: Oracle, kind: Kind): seq<Op> {
    NotReady(st.queues.Get(kind), Ready(o, kind))
  }

  function FiredBy(st: LoopState, o: Oracle, kind: Kind): seq<nat> {
    Fired(st.queues.Get(kind), Ready(o, kind))
  }

  /** Between iterations: queues in submission order, and every operation conserved. */
  ghost predicate LoopOk(st: LoopState) {
    && (forall kind: Kind :: Ascending(st.queues.Get(kind), 0, st.nextId))
    && (forall id: nat :: Conserved(st, id, 0))
  }

  lemma PassStep(st: LoopState, o: Oracle, n: nat)
    requires n < 4 && AllIncomplete(st.queues.Get(KindOf(n))) && Extends(st.(queues := NO_OPS), Pass(st, o, n))
    ensures Extends(st.(queues := NO_OPS), Pass(st, o, n + 1))
    ensures Pass(st, o, n + 1).done == Pass(st, o, n).done + FiredBy(st, o, KindOf(n))
  {
    var kind := KindOf(n);
    FireExtends(Pass(st, o, n), st.queues.Get(kind), Ready(o, kind), o.callback);
    FireRuns(Pass(st, o, n), st.queues.Get(kind), Ready(o, kind), o.callback);
    ExtendsTransitive(st.(queues := NO_OPS), Pass(st, o, n), Pass(st, o, n + 1));
  }

  lemma NothingExtends(st: LoopState)
    ensures Extends(st, st)
  {
    assert forall kind: Kind :: st.queues.Get(kind)[|st.queues.Get(kind)|..] == [];
  }

  /** What an iteration does: it runs the callbacks of exactly the operations that were queued
      before it and are ready, so none that a callback submits; the others keep their order, ahead
      of the newly submitted ones. */
  lemma IterationMeans(st: LoopState, o: Oracle)
    requires LoopOk(st)
    ensures var st' := Iterate(st, o);
            && st'.done == st.done + FiredBy(st, o, Recv) + FiredBy(st, o, Send)
                           + FiredBy(st, o, Accept) + FiredBy(st, o, Wait)
            && st.nextId <= st'.nextId
            && forall kind: Kind ::
                 && Kept(st, o, kind) <= st'.queues.Get(kind)
                 && Ascending(st'.queues.Get(kind)[|Kept(st, o, kind)|..], st.nextId, st'.nextId)
  {
    assert forall kind: Kind :: Ascending(st.queues.Get(kind), 0, st.nextId);
    var start := st.(queues := NO_OPS);
    NothingExtends(start);
    PassStep(st, o, 0);
    PassStep(st, o, 1);
    PassStep(st, o, 2);
    PassStep(st, o, 3);
    IterationIsPasses(st, o);
    var new_ := Pass(st, o, 4).queues;
    var st' := Iterate(st, o);
    forall kind: Kind
      ensures && Kept(st, o, kind) <= st'.queues.Get(kind)
              && Ascending(st'.queues.Get(kind)[|Kept(st, o, kind)|..], st.nextId, st'.nextId)
    {
      assert st'.queues.Get(kind) == Kept(st, o, kind) + new_.Get(kind);
      assert new_.Get(kind)[|start.queues.Get(kind)|..] == new_.Get(kind);
      assert (Kept(st, o, kind) + new_.Get(kind))[|Kept(st, o, kind)|..] == new_.Get(kind);
    }
  }

  lemma IterationIsPasses(st: LoopState, o: Oracle)
    requires forall kind: Kind :: AllIncomplete(st.queues.Get(kind))
    ensures var st', last := Iterate(st, o), Pass(st, o, 4);
            && st'.done == last.done && st'.nextId == last.nextId && st'.stopped == last.stopped
            && forall kind: Kind :: st'.queues.Get(kind) == Kept(st, o, kind) + last.queues.Get(kind)
  {
    assert forall kind: Kind :: AllIncomplete(st.queues.Get(kind));
    assert st.queues.Get(Recv) == st.queues.recv && st.queues.Get(Send) == st.queues.send;
    assert st.queues.Get(Accept) == st.queues.accept && st.queues.Get(Wait) == st.queues.wait;
    FireKeeps(Pass(st, o, 0), st.queues.recv, Ready(o, Recv), o.callback);
    FireKeeps(Pass(st, o, 1), st.queues.send, Ready(o, Send), o.callback);
    FireKeeps(Pass(st, o, 2), st.queues.accept, Ready(o, Accept), o.callback);
    FireKeeps(Pass(st, o, 3), st.queues.wait, Ready(o, Wait), o.callback);
  }

  lemma AscendingTail(ops: seq<Op>, lo: nat, hi: nat)
    requires Ascending(ops, lo, hi) && ops != []
    ensures var next := ops[0].id + 1; lo < next <= hi && Ascending(ops[1..], next, hi)
  {
  }

  lemma AscendingCons(op: Op, rest: seq<Op>, lo: nat, next: nat, hi: nat)
    requires !op.complete && lo <= op.id < hi && next == op.id + 1 && Ascending(rest, next, hi)
    ensures Ascending([op] + rest, lo, hi)
  {
  }

  lemma {:induction false} NotReadyAscending(ops: seq<Op>, ready: set<int>, lo: nat, hi: nat)
    requires Ascending(ops, lo, hi)
    ensures Ascending(NotReady(ops, ready), lo, hi)
    decreases |ops|
  {
    if ops != [] {
      var op, next := ops[0], ops[0].id + 1;
      AscendingTail(ops, lo, hi);
      NotReadyAscending(ops[1..], ready, next, hi);
      if op.fd in ready {
        assert NotReady(ops, ready) == NotReady(ops[1..], ready);
      } else {
        AscendingCons(op, NotReady(ops[1..], ready), lo, next, hi);
      }
    }
  }

  lemma IterationConserves(st: LoopState, o: Oracle, id: nat)
    requires Conserved(st, id, 0) && forall kind: Kind :: AllIncomplete(st.queues.Get(kind))
    ensures Conserved(Iterate(st, o), id, 0)
  {
    var q := st.queues;
    var r, s, a, w := Count(q.recv, id), Count(q.send, id), Count(q.accept, id), Count(q.wait, id);
    var (st1, recv) := FireAll(st.(queues := NO_OPS), q.recv, Ready(o, Recv), o.callback);
    var (st2, send) := FireAll(st1, q.send, Ready(o, Send), o.callback);
    var (st3, accept) := FireAll(st2, q.accept, Ready(o, Accept), o.callback);
    var (st4, wait) := FireAll(st3, q.wait, Ready(o, Wait), o.callback);
    assert AllIncomplete(q.Get(Recv)) && AllIncomplete(q.Get(Send));
    assert AllIncomplete(q.Get(Accept)) && AllIncomplete(q.Get(Wait));
    FireConserves(st.(queues := NO_OPS), q.recv, Ready(o, Recv), o.callback, id, s + a + w);
    var r' := Count(Incomplete(recv), id);
    FireConserves(st1, q.send, Ready(o, Send), o.callback, id, r' + a + w);
    var s' := Count(Incomplete(send), id);
    FireConserves(st2, q.accept, Ready(o, Accept), o.callback, id, r' + s' + w);
    var a' := Count(Incomplete(accept), id);
    FireConserves(st3, q.wait, Ready(o, Wait), o.callback, id, r' + s' + a');
    CountAppend(Incomplete(recv), st4.queues.recv, id);
    CountAppend(Incomplete(send), st4.queues.send, id);
    CountAppend(Incomplete(accept), st4.queues.accept, id);
    CountAppend(Incomplete(wait), st4.queues.wait, id);
  }

  lemma IterationOk(st: LoopState, o: Oracle)
    requires LoopOk(st)
    ensures LoopOk(Iterate(st, o))
  {
    var st' := Iterate(st, o);
    IterationMeans(st, o);
    forall kind: Kind
      ensures Ascending(st'.queues.Get(kind), 0, st'.nextId)
    {
      assert Ascending(st.queues.Get(kind), 0, st.nextId);
      NotReadyAscending(st.queues.Get(kind), Ready(o, kind), 0, st.nextId);
      var kept, all := Kept(st, o, kind), st'.queues.Get(kind);
      AscendingAppend(kept, all[|kept|..], 0, st.nextId, st'.nextId);
      assert all == kept + all[|kept|..];
    }
    forall id: nat
      ensures Conserved(st', id, 0)
    {
      assert forall kind: Kind :: Ascending(st.queues.Get(kind), 0, st.nextId);
      assert Conserved(st, id, 0);
      IterationConserves(st, o, id);
    }
  }

  lemma {:induction false} CompletedAppend(a: seq<nat>, b: seq<nat>, id: nat)
    ensures Completed(a + b, id) == Completed(a, id) + Completed(b, id)
    decreases |b|
  {
    if b == [] {
      assert a + b == a;
    } else {
      var last := |b| - 1;
      CompletedAppend(a, b[..last], id);
      CompletedSnoc(a + b[..last], b[last], id);
      assert a + b == a + b[..last] + [b[last]];
    }
  }

  /** A pass splits the operations of a queue between those it runs and those it keeps. */
  lemma {:induction false} PassSplits(ops: seq<Op>, ready: set<int>, id: nat)
    ensures Completed(Fired(ops, ready), id) + Count(NotReady(ops, ready), id) == Count(ops, id)
  {
    if ops != [] {
      var op, rest := ops[0], ops[1..];
      PassSplits(rest, ready, id);
      if op.fd in ready {
        assert Fired(ops, ready) == [op.id] + Fired(rest, ready) && NotReady(ops, ready) == NotReady(rest, ready);
        CompletedAppend([op.id], Fired(rest, ready), id);
        CompletedOne(op.id, id);
      } else {
        assert Fired(ops, ready) == Fired(rest, ready) && NotReady(ops, ready) == [op] + NotReady(rest, ready);
        CountCons(op, NotReady(rest, ready), id);
      }
    }
  }

  lemma CompletedOne(x: nat, id: nat)
    ensures Completed([x], id) == if x == id then 1 else 0
  {
    CompletedSnoc([], x, id);
    assert [] + [x] == [x];
  }

  lemma {:induction false} CountAtLeastOne(ops: seq<Op>, i: nat)
    requires i < |ops|
    ensures Count(ops, ops[i].id) >= 1
  {
    if i > 0 {
      CountAtLeastOne(ops[1..], i - 1);
    }
  }

  /** In a queue where `op` is the only one of its number, a pass keeps it exactly when it is not ready. */
  lemma {:induction false} KeptExactlyWhenNotReady(ops: seq<Op>, ready: set<int>, i: nat)
    requires i < |ops| && Count(ops, ops[i].id) == 1
    ensures Count(NotReady(ops, ready), ops[i].id) == if ops[i].fd in ready then 0 else 1
  {
    var op, rest := ops[0], ops[1..];
    if i == 0 {
      PassSplits(rest, ready, op.id);
      if op.fd in ready {
        assert NotReady(ops, ready) == NotReady(rest, ready);
      } else {
        CountCons(op, NotReady(rest, ready), op.id);
      }
    } else {
      CountAtLeastOne(rest, i - 1);
      KeptExactlyWhenNotReady(rest, ready, i - 1);
      if op.fd in ready {
        assert NotReady(ops, ready) == NotReady(rest, ready);
      } else {
        CountCons(op, NotReady(rest, ready), ops[i].id);
      }
    }
  }

  lemma IterationCompletes(st: LoopState, o: Oracle, id: nat)
    requires LoopOk(st)
    ensures Completed(Iterate(st, o).done, id) ==
              Completed(st.done, id) + Completed(FiredBy(st, o, Recv), id) + Completed(FiredBy(st, o, Send), id)
              + Completed(FiredBy(st, o, Accept), id) + Completed(FiredBy(st, o, Wait), id)
  {
    IterationMeans(st, o);
    var r, s, a, w := FiredBy(st, o, Recv), FiredBy(st, o, Send), FiredBy(st, o, Accept), FiredBy(st, o, Wait);
    CompletedAppend(st.done, r, id);
    CompletedAppend(st.done + r, s, id);
    CompletedAppend(st.done + r + s, a, id);
    CompletedAppend(st.done + r + s + a, w, id);
  }

  /** No operation submitted during an iteration, by a callback, has its own callback run in it. */
  lemma NewOperationsWait(st: LoopState, o: Oracle, id: nat)
    requires LoopOk(st) && st.nextId <= id
    ensures Completed(Iterate(st, o).done, id) == 0
  {
    assert Conserved(st, id, 0);
    IterationCompletes(st, o, id);
    PassSplits(st.queues.Get(Recv), Ready(o, Recv), id);
    PassSplits(st.queues.Get(Send), Ready(o, Send), id);
    PassSplits(st.queues.Get(Accept), Ready(o, Accept), id);
    PassSplits(st.queues.Get(Wait), Ready(o, Wait), id);
  }

  /** The queue of one kind holds an operation once; then the others do not, and it was never called. */
  lemma QueuedOnce(st: LoopState, kind: Kind, i: nat)
    requires LoopOk(st) && i < |st.queues.Get(kind)|
    ensures var id := st.queues.Get(kind)[i].id;
            && Count(st.queues.Get(kind), id) == 1 && Completed(st.done, id) == 0
            && forall other: Kind | other != kind :: Count(st.queues.Get(other), id) == 0
  {
    CountAtLeastOne(st.queues.Get(kind), i);
    assert Ascending(st.queues.Get(kind), 0, st.nextId);
    assert Conserved(st, st.queues.Get(kind)[i].id, 0);
  }

  /** A queued operation completes in an iteration exactly when its descriptor is ready in it. */
  lemma CompletesExactlyWhenReady(st: LoopState, o: Oracle, kind: Kind, i: nat)
    requires LoopOk(st) && i < |st.queues.Get(kind)|
    ensures var op := st.queues.Get(kind)[i];
            Completed(Iterate(st, o).done, op.id) == if op.fd in Ready(o, kind) then 1 else 0
  {
    var op := st.queues.Get(kind)[i];
    QueuedOnce(st, kind, i);
    KeptExactlyWhenNotReady(st.queues.Get(kind), Ready(o, kind), i);
    IterationCompletes(st, o, op.id);
    PassSplits(st.queues.Get(Recv), Ready(o, Recv), op.id);
    PassSplits(st.queues.Get(Send), Ready(o, Send), op.id);
    PassSplits(st.queues.Get(Accept), Ready(o, Accept), op.id);
    PassSplits(st.queues.Get(Wait), Ready(o, Wait), op.id);
  }

  lemma SubmitOk(st: LoopState, s: Submission)
    requires LoopOk(st)
    ensures LoopOk(Submit(st, s))
  {
    var st' := Submit(st, s);
    SubmitExtends(st, s);
    forall kind: Kind
      ensures Ascending(st'.queues.Get(kind), 0, st'.nextId)
    {
      assert Ascending(st.queues.Get(kind), 0, st.nextId);
      var before, all := st.queues.Get(kind), st'.queues.Get(kind);
      AscendingAppend(before, all[|before|..], 0, st.nextId, st'.nextId);
      assert all == before + all[|before|..];
    }
    forall id: nat
      ensures Conserved(st', id, 0)
    {
      assert Conserved(st, id, 0);
      SubmitConserves(st, s, id, 0);
    }
  }

  lemma FlagOk(st: LoopState, stopped: bool)
    requires LoopOk(st)
    ensures LoopOk(st.(stopped := stopped))
  {
    var st' := st.(stopped := stopped);
    assert forall kind: Kind :: Ascending(st.queues.Get(kind), 0, st.nextId);
    forall id: nat
      ensures Conserved(st', id, 0)
    {
      assert Conserved(st, id, 0);
    }
  }

  lemma {:induction false} TurnOk(st: LoopState, schedule: seq<Oracle>)
    requires LoopOk(st)
    ensures LoopOk(Turn(st, schedule))
    decreases |schedule|
  {
    if !st.stopped && schedule != [] {
      IterationOk(st, schedule[0]);
      TurnOk(Iterate(st, schedule[0]), schedule[1..]);
    }
  }

  lemma {:induction false} HistoryOk(st: LoopState, events: seq<Event>)
    requires LoopOk(st)
    ensures LoopOk(History(st, events))
    decreases |events|
  {
    if events != [] {
      match events[0] {
        case Submitted(s) => SubmitOk(st, s);
        case Stopped => FlagOk(st, true);
        case Ran(schedule) =>
          FlagOk(st, false);
          TurnOk(st.(stopped := false), schedule);
      }
      HistoryOk(Happen(st, events[0]), events[1..]);
    }
  }

  /** Over every history, including stopping and running again, each operation ever submitted is
      either queued exactly once and never called, or called exactly once and no longer queued; no
      other operation exists; and each queue is in submission order. */
  lemma SubmittedOnceCompletedOnce(events: seq<Event>, id: nat)
    ensures var st := History(INITIAL, events);
            && Pending(st.queues, id) + Completed(st.done, id) == (if id < st.nextId then 1 else 0)
            && forall kind: Kind :: Ascending(st.queues.Get(kind), 0, st.nextId)
  {
    assert forall kind: Kind :: INITIAL.queues.Get(kind) == [];
    HistoryOk(INITIAL, events);
    assert Conserved(History(INITIAL, events), id, 0);
  }
}

/** The event loop (io/context.cpp): four queues of one-shot operations, readiness chosen by an
    oracle, and callbacks that submit any finite list of new operations or stop the loop. */
module EventLoop {
  datatype Kind = Recv | Send | Accept | Wait

  /** An operation: `id` stands for its callback and buffers, and numbers operations as submitted. */
  datatype Op = Op(id: nat, fd: int, complete: bool)

  datatype Submission = Submission(kind: Kind, fd: int)

  /** What a callback does to the loop. */
  datatype Effect = Effect(submits: seq<Submission>, stops: bool)

  /** What the outside decides in one iteration: the descriptors `select` leaves set, and what each
      callback will do if called. */
  datatype Oracle = Oracle(readable: set<int>, writable: set<int>, callback: nat -> Effect)

  datatype Queues = Queues(recv: seq<Op>, send: seq<Op>, accept: seq<Op>, wait: seq<Op>) {
    function Get(kind: Kind): seq<Op> {
      match kind
      case Recv => recv
      case Send => send
      case Accept => accept
      case Wait => wait
    }

    function Push(kind: Kind, op: Op): Queues {
      match kind
      case Recv => this.(recv := recv + [op])
      case Send => this.(send := send + [op])
      case Accept => this.(accept := accept + [op])
      case Wait => this.(wait := wait + [op])
    }
  }

  const NO_OPS := Queues([], [], [], [])

  /** `done` lists the operations whose callbacks have run, in order. */
  datatype LoopState = LoopState(queues: Queues, stopped: bool, nextId: nat, done: seq<nat>)

  const INITIAL := LoopState(NO_OPS, false, 0, [])

  function Submit(st: LoopState, s: Submission): LoopState {
    st.(queues := st.queues.Push(s.kind, Op(st.nextId, s.fd, false)), nextId := st.nextId + 1)
  }

  function SubmitAll(st: LoopState, ss: seq<Submission>): LoopState
    decreases |ss|
  {
    if ss == [] then st else SubmitAll(Submit(st, ss[0]), ss[1..])
  }

  /** The call of an operation's callback. */
  function Call(st: LoopState, id: nat, effect: Effect): LoopState {
    var st' := SubmitAll(st, effect.submits);
    st'.(stopped := st'.stopped || effect.stops, done := st'.done + [id])
  }

  /** Calls the callbacks of the ready operations of a copied queue, in order, and marks them. */
  function FireAll(st: LoopState, ops: seq<Op>, ready: set<int>, callback: nat -> Effect): (LoopState, seq<Op>)
    decreases |ops|
  {
    if ops == [] then (st, [])
    else
      var op := ops[0];
      if op.fd in ready then
        var (st', rest) := FireAll(Call(st, op.id, callback(op.id)), ops[1..], ready, callback);
        (st', [op.(complete := true)] + rest)
      else
        var (st', rest) := FireAll(st, ops[1..], ready, callback);
        (st', [op] + rest)
  }

  function Incomplete(ops: seq<Op>): seq<Op> {
    if ops == [] then [] else (if ops[0].complete then [] else [ops[0]]) + Incomplete(ops[1..])
  }

  /** The descriptors that make operations of a kind ready. */
  function Ready(o: Oracle, kind: Kind): set<int> {
    if kind.Send? then o.writable else o.readable
  }

  /** One turn of the loop. */
  function Iterate(st: LoopState, o: Oracle): LoopState {
    var q := st.queues;
    var (st1, recv) := FireAll(st.(queues := NO_OPS), q.recv, Ready(o, Recv), o.callback);
    var (st2, send) := FireAll(st1, q.send, Ready(o, Send), o.callback);
    var (st3, accept) := FireAll(st2, q.accept, Ready(o, Accept), o.callback);
    var (st4, wait) := FireAll(st3, q.wait, Ready(o, Wait), o.callback);
    var new_ := st4.queues;
    st4.(queues := Queues(Incomplete(recv) + new_.recv, Incomplete(send) + new_.send,
                          Incomplete(accept) + new_.accept, Incomplete(wait) + new_.wait))
  }

  /** Iterations under a schedule of oracles, until stopped or the schedule ends. */
  function Turn(st: LoopState, schedule: seq<Oracle>): LoopState
    decreases |schedule|
  {
    if st.stopped || schedule == [] then st else Turn(Iterate(st, schedule[0]), schedule[1..])
  }

  datatype Event = Submitted(s: Submission) | Stopped | Ran(schedule: seq<Oracle>)

  function Happen(st: LoopState, e: Event): LoopState {
    match e
    case Submitted(s) => Submit(st, s)
    case Stopped => st.(stopped := true)
    case Ran(schedule) => Turn(st.(stopped := false), schedule)
  }

  /** Any history of submissions from outside, stops, and runs. */
  function History(st: LoopState, events: seq<Event>): LoopState
    decreases |events|
  {
    if events == [] then st else History(Happen(st, events[0]), events[1..])
  }

  class IOContext {
    var stopped: bool
    var recv: seq<Op>
    var send: seq<Op>
    var accept: seq<Op>
    var wait: seq<Op>
    var nextId: nat
    ghost var Done: seq<nat>

    ghost function State(): LoopState
      reads this
    {
      LoopState(Queues(recv, send, accept, wait), stopped, nextId, Done)
    }

    constructor ()
      ensures State() == INITIAL
    {
      stopped := false;
      recv, send, accept, wait := [], [], [], [];
      nextId := 0;
      Done := [];
    }

    /** `async_recv`, `async_send`, `async_accept` and `async_wait`. */
    method Async(s: Submission)
      modifies this
      ensures State() == Submit(old(State()), s)
      ensures var op := Op(old(nextId), s.fd, false);
              match s.kind
              case Recv => recv == old(recv) + [op] && send == old(send) && accept == old(accept) && wait == old(wait)
              case Send => recv == old(recv) && send == old(send) + [op] && accept == old(accept) && wait == old(wait)
              case Accept => recv == old(recv) && send == old(send) && accept == old(accept) + [op] && wait == old(wait)
              case Wait => recv == old(recv) && send == old(send) && accept == old(accept) && wait == old(wait) + [op]
    {
      var op := Op(nextId, s.fd, false);
      match s.kind {
        case Recv => recv := recv + [op];
        case Send => send := send + [op];
        case Accept => accept := accept + [op];
        case Wait => wait := wait + [op];
      }
      nextId := nextId + 1;
    }

    method Stop()
      modifies this`stopped
      ensures State() == old(State()).(stopped := true)
    {
      stopped := true;
    }

    /** A callback doing its effect. */
    method Callback(id: nat, effect: Effect)
      modifies this
      ensures State() == Call(old(State()), id, effect)
    {
      var i := 0;
      while i < |effect.submits|
        invariant i <= |effect.submits|
        invariant SubmitAll(State(), effect.submits[i..]) == SubmitAll(old(State()), effect.submits)
      {
        Async(effect.submits[i]);
        assert effect.submits[i..][1..] == effect.submits[i + 1..];
        i := i + 1;
      }
      assert effect.submits[i..] == [];
      if effect.stops {
        Stop();
      }
      Done := Done + [id];
    }

    /** The loop over one copied queue. */
    method Fire(copy: seq<Op>, ready: set<int>, callback: nat -> Effect) returns (ops: seq<Op>)
      modifies this
      ensures (State(), ops) == FireAll(old(State()), copy, ready, callback)
    {
      ops := [];
      var i := 0;
      ghost var goal := FireAll(State(), copy, ready, callback);
      assert copy[0..] == copy && [] + goal.1 == goal.1;
      while i < |copy|
        invariant i <= |copy|
        invariant var (st, rest) := FireAll(State(), copy[i..], ready, callback); goal == (st, ops + rest)
      {
        var op := copy[i];
        assert copy[i..][1..] == copy[i + 1..];
        ghost var before, done := State(), ops;
        if op.fd in ready {
          Callback(op.id, callback(op.id));
          op := op.(complete := true);
        }
        ops := ops + [op];
        FireStep(before, copy[i..], ready, callback, done);
        i := i + 1;
      }
      assert ops + [] == ops;
    }

    method Iteration(o: Oracle)
      modifies this
      ensures State() == Iterate(old(State()), o)
    {
      var recvCopy, sendCopy, acceptCopy, waitCopy := recv, send, accept, wait;
      recv, send, accept, wait := [], [], [], [];
      recvCopy := Fire(recvCopy, Ready(o, Recv), o.callback);
      sendCopy := Fire(sendCopy, Ready(o, Send), o.callback);
      acceptCopy := Fire(acceptCopy, Ready(o, Accept), o.callback);
      waitCopy := Fire(waitCopy, Ready(o, Wait), o.callback);
      recv := Incomplete(recvCopy) + recv;
      send := Incomplete(sendCopy) + send;
      accept := Incomplete(acceptCopy) + accept;
      wait := Incomplete(waitCopy) + wait;
    }

    /** The loop, for as long as the schedule says what the outside does. */
    method Run(schedule: seq<Oracle>)
      modifies this
      ensures State() == Happen(old(State()), Ran(schedule))
    {
      stopped := false;
      var i := 0;
      ghost var goal := Turn(State(), schedule);
      while !stopped && i < |schedule|
        invariant i <= |schedule|
        invariant Turn(State(), schedule[i..]) == goal
      {
        assert schedule[i..][1..] == schedule[i + 1..];
        Iteration(schedule[i]);
        i := i + 1;
      }
    }
  }

  lemma FireStep(st: LoopState, ops: seq<Op>, ready: set<int>, callback: nat -> Effect, done: seq<Op>)
    requires ops != []
    ensures var op := ops[0];
            var (st', rest) := FireAll(st, ops, ready, callback);
            var next := if op.fd in ready then Call(st, op.id, callback(op.id)) else st;
            var marked := if op.fd in ready then op.(complete := true) else op;
            var (st'', rest') := FireAll(next, ops[1..], ready, callback);
            st' == st'' && done + rest == done + [marked] + rest'
  {
  }
}

/** `async_recv_all` and `async_send_all` (io/helpers.cpp): handlers that queue themselves again
    until a whole buffer has moved, over a socket that moves as many bytes as it likes each time. */
module Transfers {
  import opened ByteStrings

  function Min(a: nat, b: nat): nat {
    if a < b then a else b
  }

  function Sum(xs: seq<nat>): nat {
    if xs == [] then 0 else xs[0] + Sum(xs[1..])
  }

  /** A transfer of `length` bytes: whether its next operation is queued with the event loop, and
      the calls of the completion callback so far, by argument. */
  datatype Transfer = Transfer(length: nat, moved: nat, left: nat, queued: bool, reports: seq<nat>)

  /** The call of a handler with a socket's result. */
  function Called(t: Transfer, res: nat): Transfer
    requires res <= t.left
  {
    var t' := t.(moved := t.moved + res, left := t.left - res);
    if t'.left == 0 then t'.(queued := false, reports := t'.reports + [t'.length])
    else t'.(queued := true)
  }

  function Start(length: nat): Transfer {
    Called(Transfer(length, 0, length, false, []), 0)
  }

  /** The event loop fires the queued operation and the socket moves `choice` bytes, or as many as
      it is asked for and has, out of the `supply` it was ever given. */
  function Step(t: Transfer, supply: nat, choice: nat): Transfer
    requires t.moved <= supply
  {
    if t.queued then Called(t, Min(choice, Min(t.left, supply - t.moved))) else t
  }

  function Run(t: Transfer, supply: nat, choices: seq<nat>): Transfer
    requires t.moved <= supply
    decreases |choices|
  {
    if choices == [] then t else Run(Step(t, supply, choices[0]), supply, choices[1..])
  }

  /** What every reachable state satisfies: no byte lost, and the callback called once, exactly when
      nothing is left. */
  predicate Consistent(t: Transfer, supply: nat) {
    && t.moved + t.left == t.length && t.moved <= supply
    && (t.queued <==> t.left > 0)
    && t.reports == if t.left == 0 then [t.length] else []
  }

  lemma {:induction false} RunMoves(t: Transfer, supply: nat, choices: seq<nat>)
    requires Consistent(t, supply)
    ensures Consistent(Run(t, supply, choices), supply) && Run(t, supply, choices).length == t.length
    ensures Run(t, supply, choices).moved == Min(t.moved + Sum(choices), Min(t.length, supply))
    decreases |choices|
  {
    if choices != [] {
      RunMoves(Step(t, supply, choices[0]), supply, choices[1..]);
    }
  }

  /** Over every run, whatever the socket does in each step, the transfer moves as much as the socket
      offered in all, up to what was asked and supplied; nothing is lost; and the completion callback
      is called once, with the original length, exactly when enough was supplied and offered. */
  lemma TransferMoves(length: nat, supply: nat, choices: seq<nat>)
    ensures var t := Run(Start(length), supply, choices);
            && t.moved == Min(Sum(choices), Min(length, supply))
            && t.moved + t.left == length
            && (t.queued <==> t.left > 0)
            && t.reports == (if length <= supply && length <= Sum(choices) then [length] else [])
  {
    RunMoves(Start(length), supply, choices);
  }

  lemma {:induction false} SumAtLeast(choices: seq<nat>)
    requires forall i | 0 <= i < |choices| :: choices[i] > 0
    ensures Sum(choices) >= |choices|
  {
    if choices != [] {
      SumAtLeast(choices[1..]);
    }
  }

  /** With positive results, a transfer completes within as many steps as it has bytes. */
  lemma PositiveResultsComplete(length: nat, supply: nat, choices: seq<nat>)
    requires length <= supply && length <= |choices|
    requires forall i | 0 <= i < |choices| :: choices[i] > 0
    ensures Run(Start(length), supply, choices).reports == [length]
  {
    SumAtLeast(choices);
    TransferMoves(length, supply, choices);
  }

  /** `now` is `was` with `data` written over it at `offset`. */
  predicate Filled(was: Bytes, now: Bytes, offset: nat, data: Bytes) {
    && offset + |data| <= |was| == |now|
    && forall k | 0 <= k < |was| :: now[k] == if offset <= k < offset + |data| then data[k - offset] else was[k]
  }

  lemma FilledInOrder(was: Bytes, then_: Bytes, now: Bytes, wire: Bytes, n: nat, res: nat)
    requires n + res <= |wire|
    requires Filled(was, then_, 0, wire[..n]) && Filled(then_, now, n, wire[n..][..res])
    ensures Filled(was, now, 0, wire[..n + res])
  {
  }

  /** `incoming` is what the peer has sent and was not received yet, `outgoing` what was sent to it. */
  class Socket {
    var incoming: Bytes
    var outgoing: Bytes

    method Recv(buf: array<byte>, offset: nat, maxlen: nat, choice: nat) returns (res: nat)
      requires offset + maxlen <= buf.Length
      modifies this`incoming, buf
      ensures res == Min(choice, Min(maxlen, |old(incoming)|)) && incoming == old(incoming)[res..]
      ensures Filled(old(buf[..]), buf[..], offset, old(incoming)[..res])
    {
      res := Min(choice, Min(maxlen, |incoming|));
      var i := 0;
      while i < res
        invariant i <= res && incoming == old(incoming)
        invariant Filled(old(buf[..]), buf[..], offset, incoming[..i])
      {
        buf[offset + i] := incoming[i];
        i := i + 1;
      }
      incoming := incoming[res..];
    }

    method Send(buf: array<byte>, offset: nat, maxlen: nat, choice: nat) returns (res: nat)
      requires offset + maxlen <= buf.Length
      modifies this`outgoing
      ensures res == Min(choice, maxlen) && outgoing == old(outgoing) + buf[offset..offset + res]
    {
      res := Min(choice, maxlen);
      outgoing := outgoing + buf[offset..offset + res];
    }
  }

  /** A handler: `offset` and `left` are `m_buf` and `m_len`, and are what it queues itself with. */
  class Handler {
    const origLen: nat
    var offset: nat
    var left: nat
    var queued: bool
    var reports: seq<nat>

    ghost function State(): Transfer
      reads this
    {
      Transfer(origLen, offset, left, queued, reports)
    }

    constructor (length: nat)
      ensures State() == Transfer(length, 0, length, false, [])
    {
      origLen, offset, left, queued, reports := length, 0, length, false, [];
    }

    method Call(res: nat)
      requires res <= left
      modifies this
      ensures State() == Called(old(State()), res)
    {
      left := left - res;
      offset := offset + res;
      queued := left != 0;
      if left == 0 {
        reports := reports + [origLen];
      }
    }
  }

  /** The state of a receive in progress that began with `wire` to come and `was` in the buffer. */
  ghost predicate Receiving(handler: Handler, socket: Socket, buf: array<byte>, wire: Bytes, was: Bytes)
    reads handler, socket, buf
  {
    && Consistent(handler.State(), |wire|) && handler.origLen <= buf.Length
    && Filled(was, buf[..], 0, wire[..handler.offset])
    && socket.incoming == wire[handler.offset..]
  }

  /** The event loop fires the handler's operation, if it is queued. */
  method FireRecv(handler: Handler, socket: Socket, buf: array<byte>, choice: nat, ghost wire: Bytes, ghost was: Bytes)
    requires Receiving(handler, socket, buf, wire, was)
    modifies handler, socket`incoming, buf
    ensures Receiving(handler, socket, buf, wire, was)
    ensures handler.State() == Step(old(handler.State()), |wire|, choice)
  {
    if handler.queued {
      var n := handler.offset;
      var res := socket.Recv(buf, n, handler.left, choice);
      handler.Call(res);
      FilledInOrder(was, old(buf[..]), buf[..], wire, n, res);
    }
  }

  /** Receives into `buf` while the event loop fires the handler's operations. */
  method RecvAll(socket: Socket, buf: array<byte>, length: nat, choices: seq<nat>) returns (handler: Handler)
    requires length <= buf.Length
    modifies socket`incoming, buf
    ensures fresh(handler)
    ensures handler.State() == Run(Start(length), |old(socket.incoming)|, choices)
    ensures var n := handler.offset;
            && n == Min(Sum(choices), Min(length, |old(socket.incoming)|))
            && Filled(old(buf[..]), buf[..], 0, old(socket.incoming)[..n])
            && socket.incoming == old(socket.incoming)[n..]
    ensures handler.reports == if length <= |old(socket.incoming)| && length <= Sum(choices) then [length] else []
  {
    ghost var wire, was := socket.incoming, buf[..];
    handler := new Handler(length);
    handler.Call(0);
    TransferMoves(length, |wire|, choices);
    var i := 0;
    while i < |choices|
      invariant i <= |choices| && fresh(handler)
      invariant Receiving(handler, socket, buf, wire, was)
      invariant Run(handler.State(), |wire|, choices[i..]) == Run(Start(length), |wire|, choices)
    {
      assert choices[i..][1..] == choices[i + 1..];
      FireRecv(handler, socket, buf, choices[i], wire, was);
      i := i + 1;
    }
  }

  /** The state of a send in progress that began with `before` sent. */
  ghost predicate Sending(handler: Handler, socket: Socket, buf: array<byte>, before: Bytes)
    reads handler, socket, buf
  {
    && Consistent(handler.State(), handler.origLen) && handler.origLen <= buf.Length
    && socket.outgoing == before + buf[..handler.offset]
  }

  method FireSend(handler: Handler, socket: Socket, buf: array<byte>, choice: nat, ghost before: Bytes)
    requires Sending(handler, socket, buf, before)
    modifies handler, socket`outgoing
    ensures Sending(handler, socket, buf, before)
    ensures handler.State() == Step(old(handler.State()), handler.origLen, choice)
  {
    if handler.queued {
      var n := handler.offset;
      var res := socket.Send(buf, n, handler.left, choice);
      handler.Call(res);
      ConcatAssoc(before, buf[..n], buf[n..n + res]);
      assert buf[..n] + buf[n..n + res] == buf[..n + res];
    }
  }

  /** Sends from `buf` while the event loop fires the handler's operations. */
  method SendAll(socket: Socket, buf: array<byte>, length: nat, choices: seq<nat>) returns (handler: Handler)
    requires length <= buf.Length
    modifies socket`outgoing
    ensures fresh(handler)
    ensures handler.State() == Run(Start(length), length, choices)
    ensures handler.offset == Min(Sum(choices), length)
    ensures socket.outgoing == old(socket.outgoing) + buf[..handler.offset]
    ensures handler.reports == if length <= Sum(choices) then [length] else []
  {
    ghost var before := socket.outgoing;
    handler := new Handler(length);
    handler.Call(0);
    TransferMoves(length, length, choices);
    var i := 0;
    while i < |choices|
      invariant i <= |choices| && fresh(handler) && handler.origLen == length
      invariant Sending(handler, socket, buf, before)
      invariant Run(handler.State(), length, choices[i..]) == Run(Start(length), length, choices)
    {
      assert choices[i..][1..] == choices[i + 1..];
      FireSend(handler, socket, buf, choices[i], before);
      i := i + 1;
    }
  }
}

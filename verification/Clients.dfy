/** Several clients of one server: the event loop hands over one chunk of one client at a time
    (server/server.cpp, server/client_handler.cpp). The server executes one merge of the clients'
    commands, each client's in the order of its own bytes. */
module Clients {
  import opened ByteStrings
  import opened Protocol
  import opened Sessions

  /** The arrival of a chunk from a client; one whose connection has ended has no more arrivals. */
  datatype Arrival = Arrival(client: nat, chunk: Chunk)

  /** `sent` lists all responses, to whom and in the order they were queued. */
  datatype Server<S> = Server(state: S, unread: map<nat, Bytes>, sent: seq<(nat, Response)>)

  function UnreadOf(unread: map<nat, Bytes>, client: nat): Bytes {
    if client in unread then unread[client] else []
  }

  function Tag<T>(client: nat, xs: seq<T>): seq<(nat, T)> {
    if xs == [] then [] else [(client, xs[0])] + Tag(client, xs[1..])
  }

  /** The callback of the client whose chunk arrived runs to its end. */
  function Serve<S>(exec: (S, Command) -> (S, Response), sv: Server<S>, a: Arrival): Server<S> {
    var st := Feed(exec, Session(sv.state, UnreadOf(sv.unread, a.client), []), a.chunk);
    Server(st.state, sv.unread[a.client := st.unread], sv.sent + Tag(a.client, st.sent))
  }

  function ServeAll<S>(exec: (S, Command) -> (S, Response), sv: Server<S>, arrivals: seq<Arrival>): Server<S>
    decreases |arrivals|
  {
    if arrivals == [] then sv else ServeAll(exec, Serve(exec, sv, arrivals[0]), arrivals[1..])
  }

  // The serial order

  datatype Entry = Executed(client: nat, cmd: Command) | Rejected(client: nat)

  function EntriesOf(client: nat, cmds: seq<Command>): seq<Entry> {
    if cmds == [] then [] else [Executed(client, cmds[0])] + EntriesOf(client, cmds[1..])
  }

  function RejectedEntry(client: nat, left: Bytes): seq<Entry> {
    if ReadCommand(left).Invalid? then [Rejected(client)] else []
  }

  /** What one arrival makes the server do. */
  function Entries(unread: map<nat, Bytes>, a: Arrival): seq<Entry> {
    var (cmds, left) := Peel(UnreadOf(unread, a.client) + a.chunk);
    EntriesOf(a.client, cmds) + RejectedEntry(a.client, left)
  }

  /** The unread bytes of all clients after one arrival. */
  function Advance(unread: map<nat, Bytes>, a: Arrival): map<nat, Bytes> {
    unread[a.client := Peel(UnreadOf(unread, a.client) + a.chunk).1]
  }

  /** What the server does, in order, decided by the arrivals alone. */
  function Log(unread: map<nat, Bytes>, arrivals: seq<Arrival>): seq<Entry>
    decreases |arrivals|
  {
    if arrivals == [] then [] else Entries(unread, arrivals[0]) + Log(Advance(unread, arrivals[0]), arrivals[1..])
  }

  /** One executor running the whole log, one entry after the other. */
  function AnswerAll<S>(exec: (S, Command) -> (S, Response), s: S, log: seq<Entry>): (S, seq<(nat, Response)>)
    decreases |log|
  {
    if log == [] then (s, [])
    else match log[0]
      case Executed(client, cmd) =>
        var (s1, response) := exec(s, cmd);
        var (s2, rest) := AnswerAll(exec, s1, log[1..]);
        (s2, [(client, response)] + rest)
      case Rejected(client) =>
        var (s2, rest) := AnswerAll(exec, s, log[1..]);
        (s2, [(client, InvalidCommand)] + rest)
  }

  /** The commands of one client in a log. */
  function CommandsOf(log: seq<Entry>, client: nat): seq<Command> {
    if log == [] then []
    else (if log[0].Executed? && log[0].client == client then [log[0].cmd] else []) + CommandsOf(log[1..], client)
  }

  /** All the bytes that one client has sent. */
  function BytesFrom(arrivals: seq<Arrival>, client: nat): Bytes {
    if arrivals == [] then []
    else (if arrivals[0].client == client then arrivals[0].chunk else []) + BytesFrom(arrivals[1..], client)
  }

  lemma {:induction false} AnswerAppend<S>(exec: (S, Command) -> (S, Response), s: S, a: seq<Entry>, b: seq<Entry>)
    ensures var (s1, first) := AnswerAll(exec, s, a);
            var (s2, second) := AnswerAll(exec, s1, b);
            AnswerAll(exec, s, a + b) == (s2, first + second)
    decreases |a|
  {
    if a == [] {
      assert a + b == b && [] + AnswerAll(exec, s, b).1 == AnswerAll(exec, s, b).1;
    } else {
      assert (a + b)[1..] == a[1..] + b;
      var s1 := if a[0].Executed? then exec(s, a[0].cmd).0 else s;
      var head := (a[0].client, if a[0].Executed? then exec(s, a[0].cmd).1 else InvalidCommand);
      AnswerAppend(exec, s1, a[1..], b);
      var (s2, first) := AnswerAll(exec, s1, a[1..]);
      assert [head] + first + AnswerAll(exec, s2, b).1 == [head] + (first + AnswerAll(exec, s2, b).1);
    }
  }

  lemma {:induction false} AnswerEntries<S>(exec: (S, Command) -> (S, Response), s: S, client: nat, cmds: seq<Command>)
    ensures var (s', responses) := ExecAll(exec, s, cmds);
            AnswerAll(exec, s, EntriesOf(client, cmds)) == (s', Tag(client, responses))
    decreases |cmds|
  {
    if cmds != [] {
      var (s1, response) := exec(s, cmds[0]);
      AnswerEntries(exec, s1, client, cmds[1..]);
      var responses := ExecAll(exec, s1, cmds[1..]).1;
      assert EntriesOf(client, cmds)[1..] == EntriesOf(client, cmds[1..]);
      assert ([response] + responses)[1..] == responses;
    }
  }

  lemma {:induction false} TagAppend<T>(client: nat, a: seq<T>, b: seq<T>)
    ensures Tag(client, a + b) == Tag(client, a) + Tag(client, b)
  {
    if a == [] {
      assert a + b == b;
    } else {
      assert (a + b)[1..] == a[1..] + b;
      TagAppend(client, a[1..], b);
    }
  }

  /** What one arrival adds to the log, and how the server answers it. */
  lemma ServeAnswers<S>(exec: (S, Command) -> (S, Response), sv: Server<S>, a: Arrival)
    ensures var (s, answers) := AnswerAll(exec, sv.state, Entries(sv.unread, a));
            Serve(exec, sv, a) == Server(s, Advance(sv.unread, a), sv.sent + answers)
  {
    var before := Session(sv.state, UnreadOf(sv.unread, a.client) + a.chunk, []);
    var (cmds, left) := Peel(before.unread);
    var (s, responses) := ExecAll(exec, sv.state, cmds);
    DrainIsPeel(exec, before);
    assert [] + (responses + Rejection(left)) == responses + Rejection(left);
    AnswerAppend(exec, sv.state, EntriesOf(a.client, cmds), RejectedEntry(a.client, left));
    AnswerEntries(exec, sv.state, a.client, cmds);
    TagAppend(a.client, responses, Rejection(left));
    RejectionAnswer(exec, s, a.client, left);
  }

  lemma RejectionAnswer<S>(exec: (S, Command) -> (S, Response), s: S, client: nat, left: Bytes)
    ensures AnswerAll(exec, s, RejectedEntry(client, left)) == (s, Tag(client, Rejection(left)))
  {
    if ReadCommand(left).Invalid? {
      assert [Rejected(client)][1..] == [] && [InvalidCommand][1..] == [];
    }
  }

  lemma {:induction false} ServeAllAnswers<S>(exec: (S, Command) -> (S, Response), sv: Server<S>,
        arrivals: seq<Arrival>)
    ensures var sv' := ServeAll(exec, sv, arrivals);
            var (s, answers) := AnswerAll(exec, sv.state, Log(sv.unread, arrivals));
            sv'.state == s && sv'.sent == sv.sent + answers
    decreases |arrivals|
  {
    if arrivals == [] {
      assert sv.sent + [] == sv.sent;
    } else {
      var first, later := Entries(sv.unread, arrivals[0]), Log(Advance(sv.unread, arrivals[0]), arrivals[1..]);
      var next := Serve(exec, sv, arrivals[0]);
      ServeAnswers(exec, sv, arrivals[0]);
      ServeAllAnswers(exec, next, arrivals[1..]);
      AnswerAppend(exec, sv.state, first, later);
      SeqAssoc(sv.sent, AnswerAll(exec, sv.state, first).1, AnswerAll(exec, next.state, later).1);
    }
  }

  // Each client's commands, in its own order

  lemma {:induction false} CommandsAppend(a: seq<Entry>, b: seq<Entry>, client: nat)
    ensures CommandsOf(a + b, client) == CommandsOf(a, client) + CommandsOf(b, client)
  {
    if a == [] {
      assert a + b == b;
    } else {
      assert (a + b)[1..] == a[1..] + b;
      CommandsAppend(a[1..], b, client);
    }
  }

  lemma {:induction false} CommandsOfEntries(owner: nat, cmds: seq<Command>, client: nat)
    ensures CommandsOf(EntriesOf(owner, cmds), client) == if owner == client then cmds else []
  {
    if cmds != [] {
      CommandsOfEntries(owner, cmds[1..], client);
      assert EntriesOf(owner, cmds)[1..] == EntriesOf(owner, cmds[1..]);
    }
  }

  lemma EntriesCommands(unread: map<nat, Bytes>, a: Arrival, client: nat)
    ensures CommandsOf(Entries(unread, a), client) ==
              if a.client == client then Peel(UnreadOf(unread, client) + a.chunk).0 else []
  {
    var (cmds, left) := Peel(UnreadOf(unread, a.client) + a.chunk);
    CommandsAppend(EntriesOf(a.client, cmds), RejectedEntry(a.client, left), client);
    CommandsOfEntries(a.client, cmds, client);
    assert CommandsOf(RejectedEntry(a.client, left), client) == [];
  }

  function UnreadAfter(unread: map<nat, Bytes>, arrivals: seq<Arrival>): map<nat, Bytes>
    decreases |arrivals|
  {
    if arrivals == [] then unread else UnreadAfter(Advance(unread, arrivals[0]), arrivals[1..])
  }

  /** What earlier arrivals complete is executed before anything that later arrivals complete. */
  lemma {:induction false} LogAppend(unread: map<nat, Bytes>, a: seq<Arrival>, b: seq<Arrival>)
    ensures Log(unread, a + b) == Log(unread, a) + Log(UnreadAfter(unread, a), b)
    decreases |a|
  {
    if a == [] {
      assert a + b == b;
    } else {
      var next := Advance(unread, a[0]);
      assert (a + b)[1..] == a[1..] + b;
      LogAppend(next, a[1..], b);
      SeqAssoc(Entries(unread, a[0]), Log(next, a[1..]), Log(UnreadAfter(next, a[1..]), b));
    }
  }

  lemma {:induction false} UnreadIs<S>(exec: (S, Command) -> (S, Response), sv: Server<S>, arrivals: seq<Arrival>)
    ensures ServeAll(exec, sv, arrivals).unread == UnreadAfter(sv.unread, arrivals)
    decreases |arrivals|
  {
    if arrivals != [] {
      ServeAnswers(exec, sv, arrivals[0]);
      UnreadIs(exec, Serve(exec, sv, arrivals[0]), arrivals[1..]);
    }
  }

  lemma {:induction false} ClientPeels(unread: map<nat, Bytes>, arrivals: seq<Arrival>, client: nat)
    requires Peeled(UnreadOf(unread, client))
    ensures Peel(UnreadOf(unread, client) + BytesFrom(arrivals, client)) ==
              (CommandsOf(Log(unread, arrivals), client), UnreadOf(UnreadAfter(unread, arrivals), client))
    decreases |arrivals|
  {
    var u := UnreadOf(unread, client);
    if arrivals == [] {
      assert u + [] == u;
    } else {
      var a, tail := arrivals[0], BytesFrom(arrivals[1..], client);
      var next := Advance(unread, a);
      PeelLeaves(UnreadOf(unread, a.client) + a.chunk);
      ClientPeels(next, arrivals[1..], client);
      EntriesCommands(unread, a, client);
      CommandsAppend(Entries(unread, a), Log(next, arrivals[1..]), client);
      if a.client == client {
        PeelExtends(u + a.chunk, tail);
        ConcatAssoc(u, a.chunk, tail);
      } else {
        assert UnreadOf(next, client) == u;
        var later := CommandsOf(Log(next, arrivals[1..]), client);
        assert [] + tail == tail && [] + later == later;
      }
    }
  }

  /** However the chunks of several clients interleave, the server's final state and all its
      responses are those of executing one merged sequence of commands, one after the other; and
      each client contributes to it exactly the commands that its own bytes hold, in order,
      whatever the others send and however its bytes were split. */
  lemma ClientsAreSerialised<S>(exec: (S, Command) -> (S, Response), s: S, arrivals: seq<Arrival>, client: nat)
    ensures var sv := ServeAll(exec, Server(s, map[], []), arrivals);
            var log := Log(map[], arrivals);
            && (sv.state, sv.sent) == AnswerAll(exec, s, log)
            && Peel(BytesFrom(arrivals, client)) == (CommandsOf(log, client), UnreadOf(sv.unread, client))
  {
    var start := Server(s, map[], []);
    ServeAllAnswers(exec, start, arrivals);
    assert [] + AnswerAll(exec, s, Log(map[], arrivals)).1 == AnswerAll(exec, s, Log(map[], arrivals)).1;
    UnreadIs(exec, start, arrivals);
    assert ReadCommand([]).Incomplete?;
    ClientPeels(map[], arrivals, client);
    assert [] + BytesFrom(arrivals, client) == BytesFrom(arrivals, client);
  }
}

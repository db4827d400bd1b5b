/** The decode, execute, consume loop over a byte stream that arrives in chunks
    (server/client_handler.cpp), for any deterministic executor of commands. */
module Sessions {
  import opened ByteStrings
  import opened Protocol
  import opened ProtocolLaws

  /** What one receive delivers; receiving nothing is the end of the connection. */
  type Chunk = bs: Bytes | bs != [] witness [0]

  /** The executor's state, the bytes received and not consumed, and the responses in order. */
  datatype Session<S> = Session(state: S, unread: Bytes, sent: seq<Response>)

  /** Peels whole commands off the unread bytes until more bytes are needed or the next one is invalid. */
  function Drain<S>(exec: (S, Command) -> (S, Response), st: Session<S>): Session<S>
    decreases |st.unread|
  {
    match ReadCommand(st.unread)
    case Incomplete => st
    case Invalid => st.(sent := st.sent + [InvalidCommand])
    case Ok(cmd, rest) =>
      var (state, response) := exec(st.state, cmd);
      Drain(exec, Session(state, rest, st.sent + [response]))
  }

  /** The arrival of bytes. */
  function Feed<S>(exec: (S, Command) -> (S, Response), st: Session<S>, chunk: Bytes): Session<S> {
    Drain(exec, st.(unread := st.unread + chunk))
  }

  function FeedAll<S>(exec: (S, Command) -> (S, Response), st: Session<S>, chunks: seq<Chunk>): Session<S>
    decreases |chunks|
  {
    if chunks == [] then st else FeedAll(exec, Feed(exec, st, chunks[0]), chunks[1..])
  }

  function Concat(chunks: seq<Chunk>): Bytes {
    if chunks == [] then [] else chunks[0] + Concat(chunks[1..])
  }

  /** Where a drained session rests: waiting for bytes, or stuck at an invalid command. */
  predicate Waiting<S>(st: Session<S>) {
    ReadCommand(st.unread).Incomplete?
  }

  predicate Stuck<S>(st: Session<S>) {
    ReadCommand(st.unread).Invalid?
  }

  lemma {:induction false} DrainRests<S>(exec: (S, Command) -> (S, Response), st: Session<S>)
    ensures var st' := Drain(exec, st);
            Waiting(st') <==> !Stuck(st')
    decreases |st.unread|
  {
    var p := ReadCommand(st.unread);
    if p.Ok? {
      var (state, response) := exec(st.state, p.value);
      DrainRests(exec, Session(state, p.rest, st.sent + [response]));
    }
  }

  /** Draining more bytes at once is draining, then feeding the rest; an invalid command already
      met is not reported again. */
  lemma {:induction false} DrainThenFeed<S>(exec: (S, Command) -> (S, Response), st: Session<S>, ext: Bytes)
    ensures var st' := Drain(exec, st);
            Drain(exec, st.(unread := st.unread + ext)) ==
              if Waiting(st') then Feed(exec, st', ext) else st'.(unread := st'.unread + ext)
    decreases |st.unread|
  {
    DrainRests(exec, st);
    ReadCommandExtends(st.unread, ext);
    var p := ReadCommand(st.unread);
    if p.Ok? {
      var (state, response) := exec(st.state, p.value);
      DrainThenFeed(exec, Session(state, p.rest, st.sent + [response]), ext);
    }
  }

  function ExecAll<S>(exec: (S, Command) -> (S, Response), s: S, cmds: seq<Command>): (S, seq<Response>)
    decreases |cmds|
  {
    if cmds == [] then (s, [])
    else
      var (s1, response) := exec(s, cmds[0]);
      var (s2, responses) := ExecAll(exec, s1, cmds[1..]);
      (s2, [response] + responses)
  }

  // What bytes hold, whatever executes it

  /** The commands that bytes hold up to the first incomplete or invalid one, and the bytes left. */
  function Peel(bs: Bytes): (seq<Command>, Bytes)
    decreases |bs|
  {
    match ReadCommand(bs)
    case Ok(cmd, rest) => var (cmds, left) := Peel(rest); ([cmd] + cmds, left)
    case _ => ([], bs)
  }

  function Rejection(left: Bytes): seq<Response> {
    if ReadCommand(left).Invalid? then [InvalidCommand] else []
  }

  lemma SeqAssoc<T>(a: seq<T>, b: seq<T>, c: seq<T>)
    ensures a + b + c == a + (b + c)
  {
  }

  lemma ExecCons<S>(exec: (S, Command) -> (S, Response), s: S, cmd: Command, cmds: seq<Command>)
    ensures var (s1, response) := exec(s, cmd);
            var (s2, responses) := ExecAll(exec, s1, cmds);
            ExecAll(exec, s, [cmd] + cmds) == (s2, [response] + responses)
  {
    assert ([cmd] + cmds)[1..] == cmds;
  }

  /** Draining executes what the bytes hold. */
  lemma {:induction false} DrainIsPeel<S>(exec: (S, Command) -> (S, Response), st: Session<S>)
    ensures var (cmds, left) := Peel(st.unread);
            var (s, responses) := ExecAll(exec, st.state, cmds);
            Drain(exec, st) == Session(s, left, st.sent + (responses + Rejection(left)))
    decreases |st.unread|
  {
    var p := ReadCommand(st.unread);
    if p.Ok? {
      var (s1, response) := exec(st.state, p.value);
      DrainIsPeel(exec, Session(s1, p.rest, st.sent + [response]));
      var (cmds, left) := Peel(p.rest);
      var responses := ExecAll(exec, s1, cmds).1;
      ExecCons(exec, st.state, p.value, cmds);
      SeqAssoc(st.sent, [response], responses + Rejection(left));
      SeqAssoc([response], responses, Rejection(left));
    } else {
      assert [] + Rejection(st.unread) == Rejection(st.unread);
      assert p.Incomplete? ==> st.sent + [] == st.sent;
    }
  }

  /** Peeling what has arrived and then the rest is peeling it all. */
  lemma {:induction false} PeelExtends(bs: Bytes, ext: Bytes)
    ensures var (cmds, left) := Peel(bs);
            var (more, left') := Peel(left + ext);
            Peel(bs + ext) == (cmds + more, left')
    decreases |bs|
  {
    var p := ReadCommand(bs);
    ReadCommandExtends(bs, ext);
    if p.Ok? {
      PeelExtends(p.rest, ext);
      var (cmds, left) := Peel(p.rest);
      var more := Peel(left + ext).0;
      assert [p.value] + cmds + more == [p.value] + (cmds + more);
    } else {
      assert [] + Peel(bs + ext).0 == Peel(bs + ext).0;
    }
  }

  /** Nothing more can be peeled off. */
  predicate Peeled(bs: Bytes) {
    Peel(bs) == ([], bs)
  }

  lemma {:induction false} PeelLeaves(bs: Bytes)
    ensures Peeled(Peel(bs).1)
    decreases |bs|
  {
    var p := ReadCommand(bs);
    if p.Ok? {
      PeelLeaves(p.rest);
    }
  }

  /** A stuck session executes nothing more and answers each later chunk with one InvalidCommand. */
  lemma StuckFeed<S>(exec: (S, Command) -> (S, Response), st: Session<S>, chunk: Chunk)
    requires Stuck(st)
    ensures var st' := Feed(exec, st, chunk);
            Stuck(st') && st' == Session(st.state, st.unread + chunk, st.sent + [InvalidCommand])
  {
    ReadCommandExtends(st.unread, chunk);
  }

  function Repeat(r: Response, n: nat): seq<Response> {
    if n == 0 then [] else [r] + Repeat(r, n - 1)
  }

  lemma AppendRepeat(sent: seq<Response>, r: Response, n: nat)
    requires n > 0
    ensures sent + [r] + Repeat(r, n - 1) == sent + Repeat(r, n)
  {
  }

  /** The state of a session stuck at `st` after `n` more chunks that add `bytes`. */
  function StillStuck<S>(st: Session<S>, bytes: Bytes, n: nat): Session<S> {
    Session(st.state, st.unread + bytes, st.sent + Repeat(InvalidCommand, n))
  }

  lemma StuckOnceMore<S>(st: Session<S>, chunk: Bytes, bytes: Bytes, n: nat)
    requires n > 0
    ensures StillStuck(Session(st.state, st.unread + chunk, st.sent + [InvalidCommand]), bytes, n - 1)
         == StillStuck(st, chunk + bytes, n)
  {
    ConcatAssoc(st.unread, chunk, bytes);
    AppendRepeat(st.sent, InvalidCommand, n);
  }

  lemma {:induction false} StuckFeedAll<S>(exec: (S, Command) -> (S, Response), st: Session<S>, chunks: seq<Chunk>)
    requires Stuck(st)
    ensures FeedAll(exec, st, chunks) == StillStuck(st, Concat(chunks), |chunks|)
    decreases |chunks|
  {
    if chunks == [] {
      assert st.unread + [] == st.unread && st.sent + [] == st.sent;
    } else {
      StuckFeed(exec, st, chunks[0]);
      StuckFeedAll(exec, Feed(exec, st, chunks[0]), chunks[1..]);
      StuckOnceMore(st, chunks[0], Concat(chunks[1..]), |chunks|);
    }
  }

  /** The index of the first chunk that completes an invalid command, or the number of chunks: read
      off the bytes alone. */
  function FirstInvalid(unread: Bytes, chunks: seq<Chunk>): (n: nat)
    ensures n <= |chunks|
    decreases |chunks|
  {
    if chunks == [] then 0
    else
      var left := Peel(unread + chunks[0]).1;
      if ReadCommand(left).Invalid? then 0 else 1 + FirstInvalid(left, chunks[1..])
  }

  lemma PeelInTwo(unread: Bytes, first: Bytes, rest: Bytes)
    ensures Peel(unread + (first + rest)).1 == Peel(Peel(unread + first).1 + rest).1
  {
    PeelExtends(unread + first, rest);
    ConcatAssoc(unread, first, rest);
  }

  /** That is the first index such that the bytes up to and including that chunk hold an invalid
      command. */
  lemma {:induction false} FirstInvalidMeans(unread: Bytes, chunks: seq<Chunk>, i: nat)
    requires i < |chunks|
    ensures FirstInvalid(unread, chunks) <= i <==> ReadCommand(Peel(unread + Concat(chunks[..i + 1])).1).Invalid?
    decreases |chunks|
  {
    var left, rest := Peel(unread + chunks[0]).1, Concat(chunks[1..][..i]);
    assert chunks[..i + 1][1..] == chunks[1..][..i];
    PeelInTwo(unread, chunks[0], rest);
    if ReadCommand(left).Invalid? {
      ReadCommandExtends(left, rest);
    } else if i > 0 {
      FirstInvalidMeans(left, chunks[1..], i - 1);
      assert FirstInvalid(unread, chunks) == 1 + FirstInvalid(left, chunks[1..]);
    } else {
      assert rest == [] && left + [] == left;
      PeelLeaves(unread + chunks[0]);
    }
  }

  lemma FeedLeaves<S>(exec: (S, Command) -> (S, Response), st: Session<S>, bytes: Bytes)
    ensures Feed(exec, st, bytes).unread == Peel(st.unread + bytes).1
  {
    DrainIsPeel(exec, st.(unread := st.unread + bytes));
  }

  lemma FirstInvalidStep<S>(exec: (S, Command) -> (S, Response), st: Session<S>, chunks: seq<Chunk>)
    requires chunks != []
    ensures var st' := Feed(exec, st, chunks[0]);
            FirstInvalid(st.unread, chunks) == if Stuck(st') then 0 else 1 + FirstInvalid(st'.unread, chunks[1..])
  {
    FeedLeaves(exec, st, chunks[0]);
  }

  /** What one-shot feeding makes of the first chunk and the rest. */
  lemma FeedConcat<S>(exec: (S, Command) -> (S, Response), st: Session<S>, first: Bytes, rest: Bytes)
    ensures var st' := Feed(exec, st, first);
            Feed(exec, st, first + rest) ==
              if Stuck(st') then st'.(unread := st'.unread + rest) else Feed(exec, st', rest)
  {
    var before := st.(unread := st.unread + first);
    DrainRests(exec, before);
    DrainThenFeed(exec, before, rest);
    ConcatAssoc(st.unread, first, rest);
  }

  function Extra(n: nat, chunks: nat): nat {
    if n < chunks then chunks - 1 - n else 0
  }

  lemma NothingFed<S>(exec: (S, Command) -> (S, Response), st: Session<S>)
    requires Waiting(st)
    ensures Feed(exec, st, []) == st == StillStuck(st, [], 0)
  {
    assert st.unread + [] == st.unread && st.sent + [] == st.sent;
  }

  lemma StuckAfterFirst<S>(exec: (S, Command) -> (S, Response), st: Session<S>, chunks: seq<Chunk>)
    requires Stuck(st)
    ensures var once := st.(unread := st.unread + Concat(chunks));
            FeedAll(exec, st, chunks) == StillStuck(once, [], |chunks|) && Stuck(once)
  {
    StuckFeedAll(exec, st, chunks);
    ReadCommandExtends(st.unread, Concat(chunks));
    assert st.unread + Concat(chunks) + [] == st.unread + Concat(chunks);
  }

  /** Feeding the chunks does what feeding their concatenation does, plus one InvalidCommand for
      every chunk after the one that completes an invalid command. */
  ghost predicate SplitHolds<S>(exec: (S, Command) -> (S, Response), st: Session<S>, chunks: seq<Chunk>) {
    var once := Feed(exec, st, Concat(chunks));
    var n := FirstInvalid(st.unread, chunks);
    SplitIs(FeedAll(exec, st, chunks), once, n, |chunks|)
  }

  predicate SplitIs<S(==)>(all: Session<S>, once: Session<S>, n: nat, chunks: nat) {
    && all == StillStuck(once, [], Extra(n, chunks))
    && (n < chunks <==> Stuck(once))
  }

  lemma SplitAfterStuck<S>(exec: (S, Command) -> (S, Response), st: Session<S>, chunks: seq<Chunk>)
    requires chunks != [] && Stuck(Feed(exec, st, chunks[0]))
    ensures SplitHolds(exec, st, chunks)
  {
    FeedConcat(exec, st, chunks[0], Concat(chunks[1..]));
    StuckAfterFirst(exec, Feed(exec, st, chunks[0]), chunks[1..]);
    FirstInvalidStep(exec, st, chunks);
  }

  lemma FirstChunkFed<S>(exec: (S, Command) -> (S, Response), st: Session<S>, chunks: seq<Chunk>)
    requires chunks != [] && !Stuck(Feed(exec, st, chunks[0]))
    ensures var st', rest := Feed(exec, st, chunks[0]), chunks[1..];
            && FeedAll(exec, st, chunks) == FeedAll(exec, st', rest)
            && Feed(exec, st, Concat(chunks)) == Feed(exec, st', Concat(rest))
            && FirstInvalid(st.unread, chunks) == FirstInvalid(st'.unread, rest) + 1
  {
    FeedConcat(exec, st, chunks[0], Concat(chunks[1..]));
    FirstInvalidStep(exec, st, chunks);
  }

  lemma SplitAfterMore<S>(exec: (S, Command) -> (S, Response), st: Session<S>, chunks: seq<Chunk>)
    requires chunks != [] && !Stuck(Feed(exec, st, chunks[0]))
    requires SplitHolds(exec, Feed(exec, st, chunks[0]), chunks[1..])
    ensures SplitHolds(exec, st, chunks)
  {
    var st', rest := Feed(exec, st, chunks[0]), chunks[1..];
    FirstChunkFed(exec, st, chunks);
    SplitStep(FeedAll(exec, st', rest), Feed(exec, st', Concat(rest)), FirstInvalid(st'.unread, rest), |rest|);
  }

  lemma SplitStep<S>(all: Session<S>, once: Session<S>, n: nat, chunks: nat)
    requires SplitIs(all, once, n, chunks)
    ensures SplitIs(all, once, n + 1, chunks + 1)
  {
  }

  /** It does not matter how the bytes were split: the same commands are executed, with the same
      final state and the same unread tail, and the same responses are sent, except for repeated
      InvalidCommands. */
  lemma {:induction false} SplitIrrelevant<S>(exec: (S, Command) -> (S, Response), st: Session<S>, chunks: seq<Chunk>)
    requires Waiting(st)
    ensures SplitHolds(exec, st, chunks)
    decreases |chunks|
  {
    if chunks == [] {
      NothingFed(exec, st);
    } else {
      DrainRests(exec, st.(unread := st.unread + chunks[0]));
      if Stuck(Feed(exec, st, chunks[0])) {
        SplitAfterStuck(exec, st, chunks);
      } else {
        SplitIrrelevant(exec, Feed(exec, st, chunks[0]), chunks[1..]);
        SplitAfterMore(exec, st, chunks);
      }
    }
  }

  /** Responses are the same however the bytes were split exactly when no command is invalid or
      the last chunk is the one that completes the first invalid command. */
  lemma ResponsesIndependentExactly<S>(exec: (S, Command) -> (S, Response), st: Session<S>, chunks: seq<Chunk>)
    requires Waiting(st)
    ensures FeedAll(exec, st, chunks) == Feed(exec, st, Concat(chunks)) <==>
              FirstInvalid(st.unread, chunks) + 1 >= |chunks|
  {
    SplitIrrelevant(exec, st, chunks);
    var n := FirstInvalid(st.unread, chunks);
    if n + 1 < |chunks| {
      assert |Repeat(InvalidCommand, |chunks| - 1 - n)| > 0;
    } else {
      var once := Feed(exec, st, Concat(chunks));
      assert once.sent + [] == once.sent;
    }
  }

  /** No message has the tag 255. Sent in one piece, a byte 255 and another are answered once; in two
      pieces, twice. */
  lemma SplitCanRepeat<S>(exec: (S, Command) -> (S, Response), s: S)
    ensures Feed(exec, Session(s, [], []), [255, 0]).sent == [InvalidCommand]
    ensures FeedAll(exec, Session(s, [], []), [[255], [0]]).sent == [InvalidCommand, InvalidCommand]
  {
    var chunks: seq<Chunk> := [[255], [0]];
    assert ReadCommand([255]).Invalid? && ReadCommand([255, 0]).Invalid?;
    assert [] + [255] == [255] && [255] + [0] == [255, 0] && [] + [255, 0] == [255, 0];
    assert [InvalidCommand] + [InvalidCommand] == [InvalidCommand, InvalidCommand];
    assert FeedAll(exec, Session(s, [255], [InvalidCommand]), chunks[1..]).sent == [InvalidCommand, InvalidCommand];
  }

  /** Draining the encodings of commands executes exactly those commands, in order. */
  lemma {:induction false} DrainExecutes<S>(exec: (S, Command) -> (S, Response), s: S, cmds: seq<Command>,
        sent: seq<Response>)
    requires forall i | 0 <= i < |cmds| :: CommandInRange(cmds[i])
    ensures var (s', responses) := ExecAll(exec, s, cmds);
            Drain(exec, Session(s, WriteCommands(cmds), sent)) == Session(s', [], sent + responses)
    decreases |cmds|
  {
    if cmds == [] {
      assert sent + [] == sent;
    } else {
      ReadCommandWrite(cmds[0], WriteCommands(cmds[1..]));
      var (s1, response) := exec(s, cmds[0]);
      var (s2, responses) := ExecAll(exec, s1, cmds[1..]);
      DrainExecutes(exec, s1, cmds[1..], sent + [response]);
      assert sent + [response] + responses == sent + ([response] + responses);
    }
  }

  /** The encodings of any commands, split into chunks in any way, execute exactly those commands
      in order and leave nothing unread. */
  lemma ChunkedCommandsExecute<S>(exec: (S, Command) -> (S, Response), s: S, cmds: seq<Command>, chunks: seq<Chunk>)
    requires forall i | 0 <= i < |cmds| :: CommandInRange(cmds[i])
    requires Concat(chunks) == WriteCommands(cmds)
    ensures var (s', responses) := ExecAll(exec, s, cmds);
            FeedAll(exec, Session(s, [], []), chunks) == Session(s', [], responses)
  {
    var st: Session<S> := Session(s, [], []);
    DrainExecutes(exec, s, cmds, []);
    SplitIrrelevant(exec, st, chunks);
    assert [] + WriteCommands(cmds) == WriteCommands(cmds);
    var once := Feed(exec, st, Concat(chunks));
    assert [] + ExecAll(exec, s, cmds).1 == ExecAll(exec, s, cmds).1;
    assert once.sent + [] == once.sent;
  }
}

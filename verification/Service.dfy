/** The server as a whole: chunks of bytes in, from one client or many, response bytes out, against
    the abstract database. */
module Service {
  import opened Wrappers
  import opened ByteStrings
  import opened Schemas
  import opened Protocol
  import opened ProtocolLaws
  import opened DatabaseModel
  import opened Sessions
  import opened Clients
  import Index = HashIndex
  import IndexLaws = HashIndexLaws

  function Executor(h: Hasher, v: Variant): (Db, Command) -> (Db, Response) {
    (db, cmd) => Exec(h, v, db, cmd)
  }

  function AbstractExecutor(): (AbstractDb, Command) -> (AbstractDb, Response) {
    (db, cmd) => AbstractExec(db, cmd)
  }

  /** Every command of a run is admissible in the database it finds. */
  predicate AdmissibleRun(h: Hasher, v: Variant, db: Db, cmds: seq<Command>)
    decreases |cmds|
  {
    cmds != [] ==>
      && Admissible(h, v, db, cmds[0])
      && AdmissibleRun(h, v, Exec(h, v, db, cmds[0]).0, cmds[1..])
  }

  /** Any sequence of admissible commands gets, one for one and in order, the responses of the
      abstract database; with the repaired scan, puts need no condition on the table. */
  lemma {:induction false} RunRefines(h: Hasher, v: Variant, db: Db, cmds: seq<Command>)
    requires DbOk(h, db) && AdmissibleRun(h, v, db, cmds)
    requires forall i | 0 <= i < |cmds| :: CommandInRange(cmds[i])
    ensures var (db', responses) := ExecAll(Executor(h, v), db, cmds);
            && DbOk(h, db')
            && (Abstract(h, db'), responses) == ExecAll(AbstractExecutor(), Abstract(h, db), cmds)
            && |responses| == |cmds|
            && forall i | 0 <= i < |responses| :: ResponseInRange(responses[i])
    decreases |cmds|
  {
    if cmds != [] {
      ExecRefines(h, v, db, cmds[0]);
      var (db1, response) := Exec(h, v, db, cmds[0]);
      RunRefines(h, v, db1, cmds[1..]);
      var (db2, responses) := ExecAll(Executor(h, v), db1, cmds[1..]);
      assert ExecAll(Executor(h, v), db, cmds) == (db2, [response] + responses);
    }
  }

  /** From an empty server: whatever way the bytes of a client's commands are split, the bytes sent
      back read as exactly the abstract database's responses, and nothing is left unread. */
  lemma EndToEnd(h: Hasher, v: Variant, cmds: seq<Command>, chunks: seq<Chunk>)
    requires AdmissibleRun(h, v, EMPTY_DB, cmds)
    requires forall i | 0 <= i < |cmds| :: CommandInRange(cmds[i])
    requires Concat(chunks) == WriteCommands(cmds)
    ensures var server := FeedAll(Executor(h, v), Session(EMPTY_DB, [], []), chunks);
            var (db, responses) := ExecAll(AbstractExecutor(), EMPTY_ABSTRACT_DB, cmds);
            && server.unread == []
            && Abstract(h, server.state) == db
            && ReadResponses(WriteResponses(server.sent)) == (responses, [])
  {
    assert DbOk(h, EMPTY_DB) && Abstract(h, EMPTY_DB) == EMPTY_ABSTRACT_DB;
    ChunkedCommandsExecute(Executor(h, v), EMPTY_DB, cmds, chunks);
    RunRefines(h, v, EMPTY_DB, cmds);
    ResponsesRoundTrip(ExecAll(AbstractExecutor(), EMPTY_ABSTRACT_DB, cmds).1);
  }

  // Every command sequence, admissible or not

  ghost predicate DbIntact(db: Db) {
    forall name | name in db.colls :: Index.Bounded(db.colls[name].table) && Index.Roomy(db.colls[name].table)
  }

  /** A deletion's key is not one that a tombstone could be taken for. */
  ghost predicate Unmarked(h: Hasher, cmd: Command) {
    cmd.Delete? ==> forall t: FieldType :: h(t, cmd.key) != Index.TOMBSTONE
  }

  lemma ExecIntact(h: Hasher, v: Variant, db: Db, cmd: Command)
    requires DbIntact(db) && Unmarked(h, cmd)
    ensures DbIntact(Exec(h, v, db, cmd).0) && Exec(h, v, db, cmd).1 != Failed
  {
    match cmd
    case Put(name, value) =>
      if name in db.colls {
        IndexLaws.PutBounded(ConfigOf(h, db.colls[name].schema), v, db.colls[name].table, value);
      }
    case Delete(name, key) =>
      if name in db.colls {
        var coll := db.colls[name];
        assert ConfigOf(h, coll.schema).hash(key) == h(KeyType(coll.schema), key);
        IndexLaws.RemoveBounded(ConfigOf(h, coll.schema), coll.table, key);
      }
    case _ =>
  }

  /** No command sequence, whether or not its puts keep the tables sound, is ever answered Failed. */
  lemma {:induction false} NeverFailed(h: Hasher, v: Variant, db: Db, cmds: seq<Command>)
    requires DbIntact(db) && forall i | 0 <= i < |cmds| :: Unmarked(h, cmds[i])
    ensures Failed !in ExecAll(Executor(h, v), db, cmds).1
    decreases |cmds|
  {
    if cmds != [] {
      ExecIntact(h, v, db, cmds[0]);
      NeverFailed(h, v, Exec(h, v, db, cmds[0]).0, cmds[1..]);
    }
  }

  // Many clients

  /** Every command of a log is admissible in the database it finds. */
  predicate AdmissibleLog(h: Hasher, v: Variant, db: Db, log: seq<Entry>)
    decreases |log|
  {
    log != [] ==>
      if log[0].Executed? then
        Admissible(h, v, db, log[0].cmd) && AdmissibleLog(h, v, Exec(h, v, db, log[0].cmd).0, log[1..])
      else
        AdmissibleLog(h, v, db, log[1..])
  }

  predicate LogInRange(log: seq<Entry>) {
    forall i | 0 <= i < |log| :: log[i].Executed? ==> CommandInRange(log[i].cmd)
  }

  lemma {:induction false} PeeledInRange(bs: Bytes, client: nat)
    ensures LogInRange(EntriesOf(client, Peel(bs).0))
    decreases |bs|
  {
    var p := ReadCommand(bs);
    if p.Ok? {
      ReadCommandCanonical(bs);
      PeeledInRange(p.rest, client);
      assert Peel(bs).0[1..] == Peel(p.rest).0;
    }
  }

  /** Whatever bytes arrive, what is executed fits the wire format. */
  lemma {:induction false} LogsInRange(unread: map<nat, Bytes>, arrivals: seq<Arrival>)
    ensures LogInRange(Log(unread, arrivals))
    decreases |arrivals|
  {
    if arrivals != [] {
      var a := arrivals[0];
      PeeledInRange(UnreadOf(unread, a.client) + a.chunk, a.client);
      LogsInRange(Advance(unread, a), arrivals[1..]);
    }
  }

  lemma {:induction false} LogRefines(h: Hasher, v: Variant, db: Db, log: seq<Entry>)
    requires DbOk(h, db) && AdmissibleLog(h, v, db, log) && LogInRange(log)
    ensures var (db', answers) := AnswerAll(Executor(h, v), db, log);
            && DbOk(h, db')
            && (Abstract(h, db'), answers) == AnswerAll(AbstractExecutor(), Abstract(h, db), log)
    decreases |log|
  {
    if log != [] {
      if log[0].Executed? {
        ExecRefines(h, v, db, log[0].cmd);
        LogRefines(h, v, Exec(h, v, db, log[0].cmd).0, log[1..]);
      } else {
        LogRefines(h, v, db, log[1..]);
      }
    }
  }

  /** Whatever bytes any number of clients send, however they are split and interleaved: the server
      answers as the abstract database does when it executes, one after the other, a merge of the
      commands that each client's own bytes hold. */
  lemma ManyClientsRefine(h: Hasher, v: Variant, arrivals: seq<Arrival>, client: nat)
    requires AdmissibleLog(h, v, EMPTY_DB, Log(map[], arrivals))
    ensures var server := ServeAll(Executor(h, v), Server(EMPTY_DB, map[], []), arrivals);
            var log := Log(map[], arrivals);
            && (Abstract(h, server.state), server.sent) == AnswerAll(AbstractExecutor(), EMPTY_ABSTRACT_DB, log)
            && CommandsOf(log, client) == Peel(BytesFrom(arrivals, client)).0
  {
    assert DbOk(h, EMPTY_DB) && Abstract(h, EMPTY_DB) == EMPTY_ABSTRACT_DB;
    ClientsAreSerialised(Executor(h, v), EMPTY_DB, arrivals, client);
    LogsInRange(map[], arrivals);
    LogRefines(h, v, EMPTY_DB, Log(map[], arrivals));
  }

  // Single commands

  /** No command but its re-creation changes the schema of an existing collection, not even
      registering a different schema under the name it was created from. */
  lemma {:induction false} SchemaFrozen(h: Hasher, v: Variant, db: Db, cmds: seq<Command>, name: Bytes)
    requires name in db.colls
    requires forall i | 0 <= i < |cmds| :: !(cmds[i].CreateCollection? && cmds[i].name == name)
    ensures var db' := ExecAll(Executor(h, v), db, cmds).0;
            name in db'.colls && db'.colls[name].schema == db.colls[name].schema
    decreases |cmds|
  {
    if cmds != [] {
      var db1 := Exec(h, v, db, cmds[0]).0;
      assert name in db1.colls && db1.colls[name].schema == db.colls[name].schema;
      SchemaFrozen(h, v, db1, cmds[1..], name);
    }
  }

  /** Creating a collection again empties it and takes the schema registered at that moment; every
      other collection keeps its documents. */
  lemma RecreationEmpties(h: Hasher, v: Variant, db: Db, name: Bytes, schemaName: Bytes, key: Bytes)
    requires schemaName in db.schemas
    ensures var (db', response) := Exec(h, v, db, CreateCollection(name, schemaName));
            && response == Success
            && Exec(h, v, db', Get(name, key)).1 == NotFound
            && Exec(h, v, db', GetCollectionSchema(name)).1 == SchemaValue(db.schemas[schemaName])
            && forall other | other != name && other in db.colls ::
                 other in db'.colls && db'.colls[other] == db.colls[other]
  {
  }
}

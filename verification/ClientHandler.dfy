/** One client's connection: received bytes are buffered, whole commands are peeled off, executed
    on the database and answered (server/client_handler.cpp, core/streambuf.cpp). */
module ClientHandlers {
  import opened Wrappers
  import opened ByteStrings
  import opened Protocol
  import opened ProtocolLaws
  import opened DatabaseModel
  import opened Sessions
  import opened Service
  import opened Databases
  import Codec

  const RECEIVE_BUFFER: nat := 128

  class StreamBuf {
    var size: nat
    var used: nat
    var buf: Bytes

    ghost predicate Valid()
      reads this
    {
      size == |buf| && used <= size && (used == size ==> size == 0)
    }

    /** The bytes appended and not consumed. */
    ghost function Unread(): Bytes
      requires Valid()
      reads this
    {
      buf[used..]
    }

    constructor ()
      ensures Valid() && Unread() == []
    {
      size, used, buf := 0, 0, [];
    }

    method Append(data: Bytes)
      requires Valid()
      modifies this
      ensures Valid() && Unread() == old(Unread()) + data
    {
      buf := buf + data;
      size := size + |data|;
    }

    method Consume(len: nat)
      requires Valid() && len <= |Unread()|
      modifies this
      ensures Valid() && Unread() == old(Unread())[len..]
      ensures Unread() != [] ==> buf == old(buf) && used == old(used) + len
    {
      used := used + len;
      if used == size {
        size, used, buf := 0, 0, [];
      }
    }

    function Size(): (n: nat)
      requires Valid()
      reads this
      ensures n == |Unread()|
    {
      size - used
    }

    /** `m_size == 0`, which the emptying of a used-up buffer makes mean what it says. */
    predicate Empty()
      requires Valid()
      reads this
      ensures Empty() <==> Unread() == []
    {
      size == 0
    }
  }

  /** Every command that the bytes hold, up to the first incomplete or invalid one, is admissible
      in the database it finds. */
  predicate AdmissibleStream(h: Hasher, db: Db, bytes: Bytes)
    decreases |bytes|
  {
    match ReadCommand(bytes)
    case Ok(cmd, rest) => Admissible(h, AsCoded, db, cmd) && AdmissibleStream(h, Exec(h, AsCoded, db, cmd).0, rest)
    case _ => true
  }

  lemma {:induction false} WriteResponsesSnoc(rs: seq<Response>, r: Response)
    ensures WriteResponses(rs + [r]) == WriteResponses(rs) + WriteResponse(r)
  {
    if rs == [] {
      assert [r][1..] == [] && [] + WriteResponse(r) == WriteResponse(r) + [];
    } else {
      assert (rs + [r])[1..] == rs[1..] + [r];
      WriteResponsesSnoc(rs[1..], r);
      ConcatAssoc(WriteResponse(rs[0]), WriteResponses(rs[1..]), WriteResponse(r));
    }
  }

  /** A database whose heap structure and values are both sound. */
  ghost predicate Sound(db: Database)
    reads db, db.Repr
  {
    db.Valid() && DbOk(db.hasher, db.State())
  }

  /** Nothing outside a database's own objects affects it. */
  twostate lemma StaysSound(db: Database)
    requires old(Sound(db)) && unchanged(db) && unchanged(db.Repr)
    ensures Sound(db) && db.State() == old(db.State())
  {
  }

  class ClientHandler {
    const db: Database
    const stream: StreamBuf
    var closed: bool
    /** Whether a receive is queued with the event loop. */
    var receiving: bool
    /** The bytes handed to the event loop for sending, in order. */
    var sent: Bytes
    ghost var Responses: seq<Response>

    ghost predicate Valid()
      reads this, stream, db, db.Repr
    {
      && stream.Valid()
      && Sound(db) && this !in db.Repr && stream !in db.Repr
      && sent == WriteResponses(Responses)
    }

    ghost function Session(): Session<Db>
      requires stream.Valid()
      reads this, stream, db
    {
      Sessions.Session(db.State(), stream.Unread(), Responses)
    }

    constructor (db: Database)
      requires Sound(db)
      ensures Valid() && this.db == db && fresh(stream)
      ensures Session() == Sessions.Session(db.State(), [], []) && receiving && !closed
    {
      this.db := db;
      stream := new StreamBuf();
      closed, receiving := false, true;
      sent := [];
      Responses := [];
    }

    /** Encodes a response and queues it for sending. */
    method WriteAndSend(response: Response)
      requires sent == WriteResponses(Responses)
      modifies this`sent, this`Responses
      ensures sent == WriteResponses(Responses) && Responses == old(Responses) + [response]
    {
      var w := new Codec.Sink();
      Codec.WriteResponse(w, response);
      assert [] + WriteResponse(response) == WriteResponse(response);
      sent := sent + w.bytes;
      WriteResponsesSnoc(Responses, response);
      Responses := Responses + [response];
    }

    /** Every collection in the database is sound: what `DbOk` says of its value, on the heap. */
    lemma CollectionValid(name: Bytes)
      requires db.Valid() && DbOk(db.hasher, db.State()) && name in db.colls
      ensures var coll := db.colls[name];
              && db.Owns(name, coll, db.State().colls[name])
              && coll.Valid() && coll.schema == db.State().colls[name].schema
              && coll.config == ConfigOf(db.hasher, coll.schema)
    {
      assert db.Owns(name, db.colls[name], db.State().colls[name]);
      assert CollOk(db.hasher, db.State().colls[name]);
    }

    method ExecuteCreate(name: Bytes, schemaName: Bytes) returns (response: Response)
      requires db.Valid() && (schemaName in db.schemas ==> Storable(db.schemas[schemaName]))
      modifies db
      ensures db.Valid() && fresh(db.Repr - old(db.Repr))
      ensures (db.State(), response) == Exec(db.hasher, AsCoded, old(db.State()), CreateCollection(name, schemaName))
    {
      var schema := db.FindSchema(schemaName);
      if schema == None {
        return NotFound;
      }
      db.CreateCollection(name, schema.value);
      return Success;
    }

    method ExecuteGet(name: Bytes, key: Bytes) returns (response: Response)
      requires db.Valid() && (name in db.colls ==> db.colls[name].Valid() && KeyOk(db.colls[name].schema, key))
      ensures db.Valid()
      ensures (db.State(), response) == Exec(db.hasher, AsCoded, old(db.State()), Get(name, key))
    {
      var coll := db.FindCollection(name);
      if coll == null {
        return NotFound;
      }
      assert db.Owns(name, coll, db.State().colls[name]);
      var found := coll.Find(key);
      return if found == None then NotFound else Found(found.value);
    }

    method ExecutePut(name: Bytes, value: Bytes) returns (response: Response)
      requires db.Valid() && (name in db.colls ==> db.colls[name].Valid() && DocOk(db.colls[name].schema, value))
      modifies db.Repr
      ensures db.Valid() && fresh(db.Repr - old(db.Repr))
      ensures (db.State(), response) == Exec(db.hasher, AsCoded, old(db.State()), Put(name, value))
    {
      var coll := db.FindCollection(name);
      if coll == null {
        return NotFound;
      }
      var slot := db.PutInto(name, value);
      return if slot.Some? then Success else Failed;
    }

    method ExecuteDelete(name: Bytes, key: Bytes) returns (response: Response)
      requires db.Valid() && (name in db.colls ==> db.colls[name].Valid() && KeyOk(db.colls[name].schema, key))
      modifies db.Repr
      ensures db.Valid() && fresh(db.Repr - old(db.Repr))
      ensures (db.State(), response) == Exec(db.hasher, AsCoded, old(db.State()), Delete(name, key))
    {
      var coll := db.FindCollection(name);
      if coll == null {
        return NotFound;
      }
      db.RemoveFrom(name, key);
      return Success;
    }

    method ExecuteQuery(cmd: Command) returns (response: Response)
      requires db.Valid() && (cmd.GetSchema? || cmd.GetCollectionSchema?)
      ensures db.Valid()
      ensures (db.State(), response) == Exec(db.hasher, AsCoded, old(db.State()), cmd)
    {
      if cmd.GetSchema? {
        var schema := db.FindSchema(cmd.name);
        response := if schema == None then NotFound else SchemaValue(schema.value);
      } else {
        var coll := db.FindCollection(cmd.name);
        response := if coll == null then NotFound else SchemaValue(coll.schema);
      }
    }

    /** The effect of each command on the database, and its response. */
    method Execute(cmd: Command) returns (response: Response)
      requires Sound(db) && Admissible(db.hasher, AsCoded, db.State(), cmd)
      modifies db, db.Repr
      ensures db.Valid() && fresh(db.Repr - old(db.Repr))
      ensures (db.State(), response) == Exec(db.hasher, AsCoded, old(db.State()), cmd)
    {
      if (cmd.Get? || cmd.Put? || cmd.Delete?) && cmd.name in db.colls {
        CollectionValid(cmd.name);
      }
      match cmd
      case RegisterSchema(name, schema) =>
        db.RegisterSchema(name, schema);
        response := Success;
      case CreateCollection(name, schemaName) =>
        response := ExecuteCreate(name, schemaName);
      case Get(name, key) =>
        response := ExecuteGet(name, key);
      case Put(name, value) =>
        response := ExecutePut(name, value);
      case Delete(name, key) =>
        response := ExecuteDelete(name, key);
      case _ =>
        response := ExecuteQuery(cmd);
    }

    /** A command that came over the wire leaves the database sound. */
    method ExecuteSoundly(cmd: Command) returns (response: Response)
      requires Sound(db) && CommandInRange(cmd) && Admissible(db.hasher, AsCoded, db.State(), cmd)
      modifies db, db.Repr
      ensures Sound(db) && fresh(db.Repr - old(db.Repr))
      ensures (db.State(), response) == Exec(db.hasher, AsCoded, old(db.State()), cmd)
    {
      ExecRefines(db.hasher, AsCoded, db.State(), cmd);
      response := Execute(cmd);
    }

    method Close()
      modifies this`closed
      ensures closed
    {
      closed := true;
    }

    /** The command buffer is a view of exactly the unread bytes of the stream. */
    ghost predicate Views(cmdBuf: Codec.Span)
      requires stream.Valid()
      reads stream, cmdBuf
    {
      && cmdBuf.Valid()
      && cmdBuf.Bytes() == stream.Unread()
      && (stream.Unread() != [] ==> cmdBuf.buffer == stream.buf && cmdBuf.data == stream.used)
    }

    /** Consumes the stream up to where the command buffer stands. */
    method ConsumeUpTo(cmdBuf: Codec.Span, ghost rest: Bytes)
      requires stream.Valid() && cmdBuf.Valid() && cmdBuf.Bytes() == rest
      requires cmdBuf.buffer == stream.buf && stream.used <= cmdBuf.data && cmdBuf.data + |rest| == stream.size
      modifies stream
      ensures stream.Valid() && stream.Unread() == rest && Views(cmdBuf)
    {
      ghost var buf, unread := stream.buf, stream.Unread();
      assert buf[cmdBuf.data..] == rest == unread[cmdBuf.data - stream.used..];
      stream.Consume(cmdBuf.data - stream.used);
    }

    /** Executes a command that has been read, answers it, and consumes its bytes. */
    method Complete(cmd: Command, cmdBuf: Codec.Span, ghost rest: Bytes)
      requires Valid() && CommandInRange(cmd) && Admissible(db.hasher, AsCoded, db.State(), cmd)
      requires cmdBuf.Valid() && cmdBuf.Bytes() == rest && cmdBuf !in db.Repr
      requires cmdBuf.buffer == stream.buf && stream.used <= cmdBuf.data && cmdBuf.data + |rest| == stream.size
      modifies this`sent, this`Responses, stream, db, db.Repr
      ensures Valid() && fresh(db.Repr - old(db.Repr)) && Views(cmdBuf)
      ensures var (state, response) := Exec(db.hasher, AsCoded, old(db.State()), cmd);
              Session() == Sessions.Session(state, rest, old(Responses) + [response])
    {
      var response := ExecuteSoundly(cmd);
      label Executed:
      WriteAndSend(response);
      ConsumeUpTo(cmdBuf, rest);
      StaysSound@Executed(db);
    }

    /** Answers a command that no more bytes can complete. */
    method Reject()
      requires Valid()
      modifies this`sent, this`Responses
      ensures Valid() && Session() == old(Session()).(sent := old(Responses) + [InvalidCommand])
    {
      WriteAndSend(InvalidCommand);
      StaysSound(db);
    }

    /** One round of the loop: it is over when a command is incomplete or invalid. */
    method HandleNext(cmdBuf: Codec.Span) returns (more: bool)
      requires Valid() && Views(cmdBuf) && cmdBuf !in db.Repr
      requires AdmissibleStream(db.hasher, db.State(), stream.Unread())
      modifies this`sent, this`Responses, stream, db, db.Repr, cmdBuf
      ensures Valid() && fresh(db.Repr - old(db.Repr))
      ensures !more ==> Session() == Drain(Executor(db.hasher, AsCoded), old(Session()))
      ensures more ==>
                && Views(cmdBuf)
                && AdmissibleStream(db.hasher, db.State(), stream.Unread())
                && |stream.Unread()| < old(|stream.Unread()|)
                && Drain(Executor(db.hasher, AsCoded), Session()) == Drain(Executor(db.hasher, AsCoded), old(Session()))
    {
      ghost var p := ReadCommand(stream.Unread());
      var res, cmd := Codec.ReadCommand(cmdBuf);
      if res == Codec.INCOMPLETE {
        return false;
      }
      if res == Codec.INVALID {
        Reject();
        return false;
      }
      ReadCommandCanonical(stream.Unread());
      Complete(cmd.value, cmdBuf, p.rest);
      return true;
    }

    /** The loop: commands are handled until the next one is incomplete or invalid. */
    method HandleCommands()
      requires Valid() && AdmissibleStream(db.hasher, db.State(), stream.Unread())
      modifies this`sent, this`Responses, stream, db, db.Repr
      ensures Valid() && fresh(db.Repr - old(db.Repr))
      ensures Session() == Drain(Executor(db.hasher, AsCoded), old(Session()))
    {
      var cmdBuf := new Codec.Span(stream.buf, stream.used, stream.Size());
      ghost var goal := Drain(Executor(db.hasher, AsCoded), Session());
      var more := true;
      while more
        invariant Valid() && fresh(cmdBuf) && cmdBuf !in db.Repr && fresh(db.Repr - old(db.Repr))
        invariant more ==>
                    && Views(cmdBuf)
                    && AdmissibleStream(db.hasher, db.State(), stream.Unread())
                    && Drain(Executor(db.hasher, AsCoded), Session()) == goal
        invariant !more ==> Session() == goal
        decreases more, |stream.Unread()|
      {
        more := HandleNext(cmdBuf);
      }
    }

    /** Buffers what arrived and handles the commands it completes. */
    method Receive(chunk: Bytes)
      requires Valid() && AdmissibleStream(db.hasher, db.State(), stream.Unread() + chunk)
      modifies this`sent, this`Responses, stream, db, db.Repr
      ensures Valid() && fresh(db.Repr - old(db.Repr))
      ensures Session() == Feed(Executor(db.hasher, AsCoded), old(Session()), chunk)
    {
      stream.Append(chunk);
      StaysSound(db);
      HandleCommands();
    }

    /** The callback of a receive: `chunk` is what arrived in the receive buffer, empty at the end
        of the stream. Afterwards the session is what `Feed` makes of it. */
    method RecvHandler(chunk: Bytes)
      requires Valid() && |chunk| <= RECEIVE_BUFFER
      requires AdmissibleStream(db.hasher, db.State(), stream.Unread() + chunk)
      modifies this, stream, db, db.Repr
      ensures Valid() && fresh(db.Repr - old(db.Repr))
      ensures chunk == [] ==> closed && !receiving && Session() == old(Session()) && sent == old(sent)
      ensures chunk != [] ==>
                && Session() == Feed(Executor(db.hasher, AsCoded), old(Session()), chunk)
                && receiving && closed == old(closed)
    {
      if |chunk| == 0 {
        receiving := false;
        Close();
        StaysSound(db);
        return;
      }
      Receive(chunk);
      label Handled:
      receiving := true;
      StaysSound@Handled(db);
    }
  }
}

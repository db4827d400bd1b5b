/** What each command does to the database (server/client_handler.cpp, db/database.cpp): on the
    tables the server keeps, and on the finite maps they stand for. */
module DatabaseModel {
  import opened Wrappers
  import opened ByteStrings
  import opened Schemas
  import opened LayoutLaws
  import opened Protocol
  import Index = HashIndex
  import IndexLaws = HashIndexLaws
  import IndexRuns

  // Documents and their keys

  /** What the constructor of a collection asserts of its schema. */
  predicate Storable(schema: Schema) {
    && NonEmptyFields(schema.fields)
    && schema.keyFieldIndex < |schema.fields|
    && !schema.fields[schema.keyFieldIndex].fieldType.Aggregate?
  }

  function KeyType(schema: Schema): FieldType {
    if schema.keyFieldIndex < |schema.fields| then schema.fields[schema.keyFieldIndex].fieldType else Primitive(Bool)
  }

  function DocSize(schema: Schema): nat
    requires Storable(schema)
  {
    Size(AsCoded, Aggregate(schema.fields))
  }

  function KeyOffset(schema: Schema): (o: nat)
    requires Storable(schema)
    ensures o + Size(AsCoded, KeyType(schema)) <= DocSize(schema)
  {
    FieldInBounds(AsCoded, schema.fields, schema.keyFieldIndex);
    Offset(AsCoded, schema.fields, schema.keyFieldIndex)
  }

  /** A document has its schema's size, and a string key stays within its capacity. */
  predicate DocOk(schema: Schema, doc: Bytes) {
    && Storable(schema)
    && |doc| == DocSize(schema)
    && (KeyType(schema).String? ==> U32At(doc[KeyOffset(schema)..]) <= KeyType(schema).capacity)
  }

  /** The key bytes of a document: a string's characters, or the bytes of a primitive. */
  function KeyOf(schema: Schema, doc: Bytes): Bytes
    requires DocOk(schema, doc)
  {
    var o := KeyOffset(schema);
    match KeyType(schema)
    case String(_) => doc[o + STRING_HEADER..o + STRING_HEADER + U32At(doc[o..])]
    case Primitive(kind) => doc[o..o + Width(kind)]
  }

  /** A lookup key of a primitive type has that type's size. */
  predicate KeyOk(schema: Schema, key: Bytes) {
    KeyType(schema).Primitive? ==> |key| == Width(KeyType(schema).kind)
  }

  /** `std::hash` of each key type: any function. */
  type Hasher = (FieldType, Bytes) -> nat

  function KeyFunction(schema: Schema): Bytes -> Bytes {
    (doc: Bytes) => if DocOk(schema, doc) then KeyOf(schema, doc) else []
  }

  function HashFunction(h: Hasher, schema: Schema): Bytes -> nat {
    (key: Bytes) => h(KeyType(schema), key)
  }

  function ConfigOf(h: Hasher, schema: Schema): Index.Config {
    Index.Config(KeyFunction(schema), HashFunction(h, schema))
  }

  // The database on tables

  datatype Coll = Coll(schema: Schema, table: Index.Table)

  datatype Db = Db(schemas: map<Bytes, Schema>, colls: map<Bytes, Coll>)

  function Exec(h: Hasher, v: Variant, db: Db, cmd: Command): (Db, Response) {
    match cmd
    case RegisterSchema(name, schema) => (db.(schemas := db.schemas[name := schema]), Success)
    case CreateCollection(name, schemaName) =>
      if schemaName !in db.schemas then (db, NotFound)
      else (db.(colls := db.colls[name := Coll(db.schemas[schemaName], Index.EMPTY_TABLE)]), Success)
    case GetSchema(name) =>
      (db, if name !in db.schemas then NotFound else SchemaValue(db.schemas[name]))
    case GetCollectionSchema(name) =>
      (db, if name !in db.colls then NotFound else SchemaValue(db.colls[name].schema))
    case Get(name, key) =>
      if name !in db.colls then (db, NotFound)
      else
        var coll := db.colls[name];
        (db, match Index.Find(ConfigOf(h, coll.schema), coll.table, key)
             case None => NotFound
             case Some(doc) => Found(doc))
    case Put(name, value) =>
      if name !in db.colls then (db, NotFound)
      else
        var coll := db.colls[name];
        var (table, slot) := Index.Put(ConfigOf(h, coll.schema), v, coll.table, value);
        (db.(colls := db.colls[name := coll.(table := table)]), if slot.Some? then Success else Failed)
    case Delete(name, key) =>
      if name !in db.colls then (db, NotFound)
      else
        var coll := db.colls[name];
        var table := Index.Remove(ConfigOf(h, coll.schema), coll.table, key);
        (db.(colls := db.colls[name := coll.(table := table)]), Success)
  }

  // The abstract database: schemas by name, and a schema and a finite map per collection

  datatype AbstractColl = AbstractColl(schema: Schema, docs: map<Bytes, Bytes>)

  datatype AbstractDb = AbstractDb(schemas: map<Bytes, Schema>, colls: map<Bytes, AbstractColl>)

  function AbstractExec(db: AbstractDb, cmd: Command): (AbstractDb, Response) {
    match cmd
    case RegisterSchema(name, schema) => (db.(schemas := db.schemas[name := schema]), Success)
    case CreateCollection(name, schemaName) =>
      if schemaName !in db.schemas then (db, NotFound)
      else (db.(colls := db.colls[name := AbstractColl(db.schemas[schemaName], map[])]), Success)
    case GetSchema(name) =>
      (db, if name !in db.schemas then NotFound else SchemaValue(db.schemas[name]))
    case GetCollectionSchema(name) =>
      (db, if name !in db.colls then NotFound else SchemaValue(db.colls[name].schema))
    case Get(name, key) =>
      (db, if name !in db.colls || key !in db.colls[name].docs then NotFound else Found(db.colls[name].docs[key]))
    case Put(name, value) =>
      if name !in db.colls then (db, NotFound)
      else
        var coll := db.colls[name];
        var docs := coll.docs[KeyFunction(coll.schema)(value) := value];
        (db.(colls := db.colls[name := coll.(docs := docs)]), Success)
    case Delete(name, key) =>
      if name !in db.colls then (db, NotFound)
      else
        var coll := db.colls[name];
        (db.(colls := db.colls[name := coll.(docs := coll.docs - {key})]), Success)
  }

  /** What a command must meet beyond being readable: the source asserts the first, leaves the
      sizes unchecked, and its put needs a hash that is not reserved and, as coded, a safe table. */
  predicate Admissible(h: Hasher, v: Variant, db: Db, cmd: Command) {
    match cmd
    case CreateCollection(_, schemaName) => schemaName in db.schemas ==> Storable(db.schemas[schemaName])
    case Get(name, key) => name in db.colls ==> KeyOk(db.colls[name].schema, key)
    case Delete(name, key) => name in db.colls ==> KeyOk(db.colls[name].schema, key)
    case Put(name, value) =>
      name in db.colls ==>
        var coll := db.colls[name];
        && DocOk(coll.schema, value)
        && Index.PutIsSafe(ConfigOf(h, coll.schema), v, coll.table, KeyOf(coll.schema, value))
    case _ => true
  }

  ghost predicate DocsOk(schema: Schema, docs: seq<Bytes>) {
    forall s | 0 <= s < |docs| :: DocOk(schema, docs[s])
  }

  ghost predicate CollOk(h: Hasher, coll: Coll) {
    && Storable(coll.schema)
    && SchemaInRange(coll.schema)
    && Index.TableOk(ConfigOf(h, coll.schema), coll.table)
    && DocsOk(coll.schema, coll.table.slots)
    && (coll.table.slots != [] ==> DocSize(coll.schema) < TWO_TO_32)
  }

  ghost predicate DbOk(h: Hasher, db: Db) {
    && (forall name | name in db.schemas :: SchemaInRange(db.schemas[name]))
    && (forall name | name in db.colls :: CollOk(h, db.colls[name]))
  }

  ghost function AbstractOfColl(h: Hasher, coll: Coll): AbstractColl {
    AbstractColl(coll.schema, Index.Model(ConfigOf(h, coll.schema), coll.table.Docs()))
  }

  ghost function AbstractColls(h: Hasher, colls: map<Bytes, Coll>): map<Bytes, AbstractColl> {
    map name | name in colls :: AbstractOfColl(h, colls[name])
  }

  ghost function Abstract(h: Hasher, db: Db): AbstractDb {
    AbstractDb(db.schemas, AbstractColls(h, db.colls))
  }

  const EMPTY_DB := Db(map[], map[])
  const EMPTY_ABSTRACT_DB := AbstractDb(map[], map[])

  // Each command refines its abstract counterpart.

  lemma CollPut(h: Hasher, v: Variant, coll: Coll, value: Bytes)
    requires CollOk(h, coll) && DocOk(coll.schema, value) && |value| < TWO_TO_32
    requires Index.PutIsSafe(ConfigOf(h, coll.schema), v, coll.table, KeyOf(coll.schema, value))
    ensures var (table, slot) := Index.Put(ConfigOf(h, coll.schema), v, coll.table, value);
            var coll' := coll.(table := table);
            && slot.Some? && CollOk(h, coll')
            && AbstractOfColl(h, coll') ==
                 AbstractColl(coll.schema, AbstractOfColl(h, coll).docs[KeyFunction(coll.schema)(value) := value])
  {
    var c := ConfigOf(h, coll.schema);
    assert c.key(value) == KeyOf(coll.schema, value);
    IndexLaws.PutCorrect(c, v, coll.table, value);
    PutDocsOk(c, v, coll.schema, coll.table, value);
  }

  lemma PutDocsOk(c: Index.Config, v: Variant, schema: Schema, t: Index.Table, doc: Bytes)
    requires DocsOk(schema, t.slots) && DocOk(schema, doc)
    ensures DocsOk(schema, Index.Put(c, v, t, doc).0.slots)
  {
  }

  lemma RemoveDocsOk(c: Index.Config, schema: Schema, t: Index.Table, k: Bytes)
    requires DocsOk(schema, t.slots)
    ensures DocsOk(schema, Index.Remove(c, t, k).slots)
  {
  }

  lemma CollRemove(h: Hasher, coll: Coll, key: Bytes)
    requires CollOk(h, coll)
    ensures var coll' := coll.(table := Index.Remove(ConfigOf(h, coll.schema), coll.table, key));
            && CollOk(h, coll')
            && AbstractOfColl(h, coll') == AbstractColl(coll.schema, AbstractOfColl(h, coll).docs - {key})
  {
    var c := ConfigOf(h, coll.schema);
    IndexLaws.RemoveCorrect(c, coll.table, key);
    RemoveDocsOk(c, coll.schema, coll.table, key);
  }

  lemma CollFind(h: Hasher, coll: Coll, key: Bytes)
    requires CollOk(h, coll)
    ensures var docs := AbstractOfColl(h, coll).docs;
            var found := Index.Find(ConfigOf(h, coll.schema), coll.table, key);
            && found == (if key in docs then Some(docs[key]) else None)
            && (found.Some? ==> |found.value| < TWO_TO_32)
  {
    IndexLaws.FindIsLookup(ConfigOf(h, coll.schema), coll.table, key);
  }

  lemma CollCreate(h: Hasher, schema: Schema)
    requires Storable(schema) && SchemaInRange(schema)
    ensures var coll := Coll(schema, Index.EMPTY_TABLE);
            CollOk(h, coll) && AbstractOfColl(h, coll) == AbstractColl(schema, map[])
  {
    IndexRuns.EmptyTableOk(ConfigOf(h, schema));
  }

  lemma AbstractUpdate(h: Hasher, colls: map<Bytes, Coll>, name: Bytes, coll: Coll)
    ensures AbstractColls(h, colls[name := coll]) == AbstractColls(h, colls)[name := AbstractOfColl(h, coll)]
  {
  }

  lemma DbOkUpdate(h: Hasher, db: Db, name: Bytes, coll: Coll)
    requires DbOk(h, db) && CollOk(h, coll)
    ensures DbOk(h, db.(colls := db.colls[name := coll]))
  {
  }

  lemma UpdateColl(h: Hasher, db: Db, name: Bytes, coll: Coll)
    requires DbOk(h, db) && CollOk(h, coll)
    ensures var db' := db.(colls := db.colls[name := coll]);
            && DbOk(h, db')
            && Abstract(h, db') ==
                 Abstract(h, db).(colls := Abstract(h, db).colls[name := AbstractOfColl(h, coll)])
  {
    AbstractUpdate(h, db.colls, name, coll);
    DbOkUpdate(h, db, name, coll);
  }

  lemma CreateRefines(h: Hasher, v: Variant, db: Db, cmd: Command)
    requires cmd.CreateCollection? && DbOk(h, db) && Admissible(h, v, db, cmd)
    ensures var (db', response) := Exec(h, v, db, cmd);
            && DbOk(h, db')
            && (Abstract(h, db'), response) == AbstractExec(Abstract(h, db), cmd)
  {
    if cmd.schemaName in db.schemas {
      CollCreate(h, db.schemas[cmd.schemaName]);
      UpdateColl(h, db, cmd.name, Coll(db.schemas[cmd.schemaName], Index.EMPTY_TABLE));
    }
  }

  lemma GetRefines(h: Hasher, v: Variant, db: Db, cmd: Command)
    requires cmd.Get? && DbOk(h, db)
    ensures var (db', response) := Exec(h, v, db, cmd);
            && db' == db
            && (Abstract(h, db), response) == AbstractExec(Abstract(h, db), cmd)
            && ResponseInRange(response)
  {
    if cmd.name in db.colls {
      CollFind(h, db.colls[cmd.name], cmd.key);
    }
  }

  lemma PutRefines(h: Hasher, v: Variant, db: Db, cmd: Command)
    requires cmd.Put? && DbOk(h, db) && CommandInRange(cmd) && Admissible(h, v, db, cmd)
    ensures var (db', response) := Exec(h, v, db, cmd);
            && DbOk(h, db')
            && (Abstract(h, db'), response) == AbstractExec(Abstract(h, db), cmd)
  {
    if cmd.name in db.colls {
      var coll := db.colls[cmd.name];
      CollPut(h, v, coll, cmd.value);
      UpdateColl(h, db, cmd.name, coll.(table := Index.Put(ConfigOf(h, coll.schema), v, coll.table, cmd.value).0));
    }
  }

  lemma DeleteRefines(h: Hasher, v: Variant, db: Db, cmd: Command)
    requires cmd.Delete? && DbOk(h, db)
    ensures var (db', response) := Exec(h, v, db, cmd);
            && DbOk(h, db')
            && (Abstract(h, db'), response) == AbstractExec(Abstract(h, db), cmd)
  {
    if cmd.name in db.colls {
      var coll := db.colls[cmd.name];
      CollRemove(h, coll, cmd.key);
      UpdateColl(h, db, cmd.name, coll.(table := Index.Remove(ConfigOf(h, coll.schema), coll.table, cmd.key)));
    }
  }

  /** An admissible command keeps the database sound, answers as the abstract database does, and
      the answer survives the wire. */
  lemma ExecRefines(h: Hasher, v: Variant, db: Db, cmd: Command)
    requires DbOk(h, db) && CommandInRange(cmd) && Admissible(h, v, db, cmd)
    ensures var (db', response) := Exec(h, v, db, cmd);
            && DbOk(h, db')
            && (Abstract(h, db'), response) == AbstractExec(Abstract(h, db), cmd)
            && ResponseInRange(response)
  {
    match cmd
    case CreateCollection(_, _) => CreateRefines(h, v, db, cmd);
    case Get(_, _) => GetRefines(h, v, db, cmd);
    case Put(_, _) => PutRefines(h, v, db, cmd);
    case Delete(_, _) => DeleteRefines(h, v, db, cmd);
    case _ =>
  }
}

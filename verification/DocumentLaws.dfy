/** Whole documents and whole answers: under which bytes of a document it is filed, and what one
    command lets later ones see (db/collection.cpp, server/client_handler.cpp). */
module DocumentLaws {
  import opened Wrappers
  import opened ByteStrings
  import opened Schemas
  import opened LayoutLaws
  import opened Protocol
  import opened ProtocolLaws
  import opened DatabaseModel
  import Index = HashIndex

  // Keys

  /** A string field of capacity `c`, aligned for its length prefix, has room for exactly the encodings
      of strings of up to `c` characters. */
  lemma StringRoom(v: Variant, c: nat, s: Bytes)
    ensures |WriteString(s)| <= Size(v, String(c)) <==> |s| <= c
    ensures Alignment(String(c)) == 4
  {
  }

  /** The document has its schema's size and, where the layout places the key field, holds the key: a
      string as it is encoded, within its capacity, or the bytes of a primitive. */
  predicate CarriesKey(schema: Schema, doc: Bytes, k: Bytes) {
    && Storable(schema)
    && |doc| == Size(AsCoded, Aggregate(schema.fields))
    && var t := schema.fields[schema.keyFieldIndex].fieldType;
       var o := Offset(AsCoded, schema.fields, schema.keyFieldIndex);
       match t
       case String(capacity) => |k| <= capacity && |k| < TWO_TO_32 && WriteString(k) <= From(doc, o)
       case _ => |k| == Size(AsCoded, t) && k <= From(doc, o)
  }

  function From(doc: Bytes, o: nat): Bytes {
    if o <= |doc| then doc[o..] else []
  }

  predicate HoldsString(bs: Bytes, k: Bytes) {
    4 <= |bs| && U32At(bs) == |k| && 4 + |k| <= |bs| && bs[4..4 + |k|] == k
  }

  lemma PrefixHolds(k: Bytes, bs: Bytes)
    requires |k| < TWO_TO_32 && WriteString(k) <= bs
    ensures HoldsString(bs, k)
  {
    var rest := bs[4 + |k|..];
    assert bs == WriteString(k) + rest;
    ConcatAssoc(U32(|k|), k, rest);
    U32AtU32(|k|, k + rest);
  }

  lemma HoldsPrefix(k: Bytes, bs: Bytes)
    requires HoldsString(bs, k)
    ensures WriteString(k) <= bs
  {
    U32U32At(bs);
    assert bs[..4 + |k|] == bs[..4] + bs[4..4 + |k|];
  }

  lemma StringFiled(schema: Schema, doc: Bytes, k: Bytes, capacity: nat)
    requires Storable(schema) && |doc| == DocSize(schema) && KeyType(schema) == String(capacity)
    ensures CarriesKey(schema, doc, k) <==> DocOk(schema, doc) && KeyFunction(schema)(doc) == k
  {
    var o := KeyOffset(schema);
    var bs := doc[o..];
    if |k| < TWO_TO_32 && WriteString(k) <= bs {
      PrefixHolds(k, bs);
      assert bs[4..4 + |k|] == doc[o + 4..o + 4 + |k|];
    }
    if HoldsString(bs, k) {
      HoldsPrefix(k, bs);
      assert bs[4..4 + |k|] == doc[o + 4..o + 4 + |k|];
    }
  }

  lemma PrimitiveFiled(schema: Schema, doc: Bytes, k: Bytes, kind: PrimitiveType)
    requires Storable(schema) && |doc| == DocSize(schema) && KeyType(schema) == Primitive(kind)
    ensures CarriesKey(schema, doc, k) <==> DocOk(schema, doc) && KeyFunction(schema)(doc) == k
  {
    var o := KeyOffset(schema);
    assert doc[o..][..Width(kind)] == doc[o..o + Width(kind)];
  }

  /** A document is filed under a key exactly when it carries it. */
  lemma FiledUnderItsKey(schema: Schema, doc: Bytes, k: Bytes)
    ensures CarriesKey(schema, doc, k) <==> DocOk(schema, doc) && KeyFunction(schema)(doc) == k
  {
    if Storable(schema) && |doc| == DocSize(schema) {
      match KeyType(schema)
      case String(capacity) => StringFiled(schema, doc, k, capacity);
      case Primitive(kind) => PrimitiveFiled(schema, doc, k, kind);
    }
  }

  /** A document put together around its key is filed under it. */
  lemma StringKeyOf(schema: Schema, pre: Bytes, k: Bytes, post: Bytes, capacity: nat)
    requires Storable(schema) && schema.fields[schema.keyFieldIndex].fieldType == String(capacity)
    requires |k| <= capacity && |k| < TWO_TO_32 && |pre| == Offset(AsCoded, schema.fields, schema.keyFieldIndex)
    requires |pre + WriteString(k) + post| == Size(AsCoded, Aggregate(schema.fields))
    ensures KeyFunction(schema)(pre + WriteString(k) + post) == k
  {
    var doc := pre + WriteString(k) + post;
    assert doc[|pre|..] == WriteString(k) + post;
    FiledUnderItsKey(schema, doc, k);
  }

  lemma PrimitiveKeyOf(schema: Schema, pre: Bytes, k: Bytes, post: Bytes)
    requires Storable(schema) && schema.fields[schema.keyFieldIndex].fieldType.Primitive?
    requires |k| == Size(AsCoded, schema.fields[schema.keyFieldIndex].fieldType)
    requires |pre| == Offset(AsCoded, schema.fields, schema.keyFieldIndex)
    requires |pre + k + post| == Size(AsCoded, Aggregate(schema.fields))
    ensures KeyFunction(schema)(pre + k + post) == k
  {
    var doc := pre + k + post;
    assert doc[|pre|..] == k + post;
    FiledUnderItsKey(schema, doc, k);
  }

  /** A document of three characters' string key alone is filed under the characters. */
  lemma ThreeCharacters(name: Bytes, a: byte, b: byte, c: byte)
    ensures KeyFunction(Schema([Field(name, String(3))], 0))([3, 0, 0, 0, a, b, c]) == [a, b, c]
  {
    var schema := Schema([Field(name, String(3))], 0);
    assert NonEmpty(schema.fields[0].fieldType);
    StartOfFirst(AsCoded, schema.fields);
    assert Size(AsCoded, Aggregate(schema.fields)) == End(AsCoded, schema.fields, 1) == 7;
    LittleEndian(3, 0, 0, 0, []);
    assert [] + WriteString([a, b, c]) + [] == [3, 0, 0, 0, a, b, c];
    StringKeyOf(schema, [], [a, b, c], [], 3);
  }

  // What a command lets later ones see

  /** The answer to a lookup. */
  function Answer(h: Hasher, v: Variant, db: Db, cmd: Command): Response {
    Exec(h, v, db, cmd).1
  }

  /** With the repaired scan a put is admissible exactly when its key's hash is neither zero nor all ones. */
  lemma RepairedPutAdmissible(h: Hasher, db: Db, name: Bytes, doc: Bytes, k: Bytes)
    requires name in db.colls && CarriesKey(db.colls[name].schema, doc, k)
    ensures var schema := db.colls[name].schema;
            var hash := h(schema.fields[schema.keyFieldIndex].fieldType, k);
            Admissible(h, Repaired, db, Put(name, doc)) <==> hash != 0 && hash != 0xFFFF_FFFF_FFFF_FFFF
  {
    FiledUnderItsKey(db.colls[name].schema, doc, k);
    assert ConfigOf(h, db.colls[name].schema).hash(k) == h(KeyType(db.colls[name].schema), k);
  }

  /** A lookup reads off the finite map of its collection. */
  lemma LookupAnswers(h: Hasher, v: Variant, db: Db, name: Bytes, k: Bytes)
    requires DbOk(h, db)
    ensures Answer(h, v, db, Get(name, k)) == Looked(Abstract(h, db).colls, name, k)
  {
    GetRefines(h, v, db, Get(name, k));
  }

  function Looked(colls: map<Bytes, AbstractColl>, name: Bytes, k: Bytes): Response {
    if name in colls && k in colls[name].docs then Found(colls[name].docs[k]) else NotFound
  }

  /** `db'` stands for what `db` stands for, but for the documents of one collection. */
  ghost predicate Differs(h: Hasher, db: Db, db': Db, name: Bytes, docs: map<Bytes, Bytes>) {
    var colls := Abstract(h, db).colls;
    && DbOk(h, db) && DbOk(h, db') && name in colls
    && Abstract(h, db').colls == colls[name := colls[name].(docs := docs)]
  }

  lemma AnswerAfter(h: Hasher, v: Variant, db: Db, db': Db, name: Bytes, docs: map<Bytes, Bytes>, k: Bytes)
    requires Differs(h, db, db', name, docs)
    ensures Answer(h, v, db', Get(name, k)) == if k in docs then Found(docs[k]) else NotFound
  {
    LookupAnswers(h, v, db', name, k);
  }

  predicate Alike(a: map<Bytes, Bytes>, b: map<Bytes, Bytes>, k: Bytes) {
    (k in a <==> k in b) && (k in a ==> a[k] == b[k])
  }

  lemma WithoutAlike(a: map<Bytes, Bytes>, removed: Bytes, k: Bytes)
    requires k != removed
    ensures Alike(a, a - {removed}, k)
  {
  }

  /** A key that both maps treat alike is answered alike. */
  lemma SameAnswer(h: Hasher, v: Variant, db: Db, db': Db, name: Bytes, docs: map<Bytes, Bytes>, k: Bytes)
    requires name in db.colls && Differs(h, db, db', name, docs)
    requires Alike(AbstractOfColl(h, db.colls[name]).docs, docs, k)
    ensures Answer(h, v, db', Get(name, k)) == Answer(h, v, db, Get(name, k))
  {
    AnswerAfter(h, v, db, db', name, docs, k);
    LookupAnswers(h, v, db, name, k);
  }

  /** A put or deletion leaves the answers of other collections alone. */
  lemma OtherCollections(h: Hasher, v: Variant, db: Db, cmd: Command, name: Bytes, k: Bytes)
    requires (cmd.Put? || cmd.Delete?) && cmd.name != name
    ensures Answer(h, v, Exec(h, v, db, cmd).0, Get(name, k)) == Answer(h, v, db, Get(name, k))
  {
  }

  lemma PutChanges(h: Hasher, v: Variant, db: Db, name: Bytes, doc: Bytes, k: Bytes)
    requires DbOk(h, db) && name in db.colls && CarriesKey(db.colls[name].schema, doc, k)
    requires |name| < TWO_TO_32 && |doc| < TWO_TO_32 && Admissible(h, v, db, Put(name, doc))
    ensures var (db', response) := Exec(h, v, db, Put(name, doc));
            response == Success && Differs(h, db, db', name, AbstractOfColl(h, db.colls[name]).docs[k := doc])
  {
    FiledUnderItsKey(db.colls[name].schema, doc, k);
    PutRefines(h, v, db, Put(name, doc));
  }

  /** After a put, a lookup of the key that the document carries finds it. */
  lemma PutThenGet(h: Hasher, v: Variant, db: Db, name: Bytes, doc: Bytes, k: Bytes)
    requires DbOk(h, db) && name in db.colls && CarriesKey(db.colls[name].schema, doc, k)
    requires |name| < TWO_TO_32 && |doc| < TWO_TO_32 && Admissible(h, v, db, Put(name, doc))
    ensures Answer(h, v, Exec(h, v, db, Put(name, doc)).0, Get(name, k)) == Found(doc)
  {
    PutChanges(h, v, db, name, doc, k);
    AnswerAfter(h, v, db, Exec(h, v, db, Put(name, doc)).0, name, AbstractOfColl(h, db.colls[name]).docs[k := doc], k);
  }

  /** Other keys of the collection answer as before it. */
  lemma PutKeepsOthers(h: Hasher, v: Variant, db: Db, name: Bytes, doc: Bytes, k: Bytes, other: Bytes)
    requires DbOk(h, db) && name in db.colls && CarriesKey(db.colls[name].schema, doc, k) && other != k
    requires |name| < TWO_TO_32 && |doc| < TWO_TO_32 && Admissible(h, v, db, Put(name, doc))
    ensures Exec(h, v, db, Put(name, doc)).1 == Success
    ensures Answer(h, v, Exec(h, v, db, Put(name, doc)).0, Get(name, other)) == Answer(h, v, db, Get(name, other))
  {
    PutChanges(h, v, db, name, doc, k);
    var docs := AbstractOfColl(h, db.colls[name]).docs[k := doc];
    SameAnswer(h, v, db, Exec(h, v, db, Put(name, doc)).0, name, docs, other);
  }

  lemma DeleteChanges(h: Hasher, v: Variant, db: Db, name: Bytes, k: Bytes)
    requires DbOk(h, db) && name in db.colls
    ensures var (db', response) := Exec(h, v, db, Delete(name, k));
            response == Success && Differs(h, db, db', name, AbstractOfColl(h, db.colls[name]).docs - {k})
  {
    DeleteRefines(h, v, db, Delete(name, k));
  }

  /** After a deletion, a lookup of its key finds nothing. */
  lemma DeleteThenGet(h: Hasher, v: Variant, db: Db, name: Bytes, k: Bytes)
    requires DbOk(h, db) && name in db.colls
    ensures Answer(h, v, Exec(h, v, db, Delete(name, k)).0, Get(name, k)) == NotFound
  {
    DeleteChanges(h, v, db, name, k);
    AnswerAfter(h, v, db, Exec(h, v, db, Delete(name, k)).0, name, AbstractOfColl(h, db.colls[name]).docs - {k}, k);
  }

  /** Other keys of the collection answer as before it. Deleting a key that is not there succeeds too. */
  lemma DeleteKeepsOthers(h: Hasher, v: Variant, db: Db, name: Bytes, k: Bytes, other: Bytes)
    requires DbOk(h, db) && name in db.colls && other != k
    ensures Exec(h, v, db, Delete(name, k)).1 == Success
    ensures Answer(h, v, Exec(h, v, db, Delete(name, k)).0, Get(name, other)) == Answer(h, v, db, Get(name, other))
  {
    DeleteChanges(h, v, db, name, k);
    var before := AbstractOfColl(h, db.colls[name]).docs;
    WithoutAlike(before, k, other);
    SameAnswer(h, v, db, Exec(h, v, db, Delete(name, k)).0, name, before - {k}, other);
  }

  /** A registered schema is answered until another is registered under its name; registering touches
      no other name and no collection. */
  lemma RegisterThenGet(h: Hasher, v: Variant, db: Db, name: Bytes, schema: Schema, other: Bytes, k: Bytes)
    ensures var (db', response) := Exec(h, v, db, RegisterSchema(name, schema));
            && response == Success
            && Answer(h, v, db', GetSchema(name)) == SchemaValue(schema)
            && (other != name ==> Answer(h, v, db', GetSchema(other)) == Answer(h, v, db, GetSchema(other)))
            && Answer(h, v, db', GetCollectionSchema(other)) == Answer(h, v, db, GetCollectionSchema(other))
            && Answer(h, v, db', Get(other, k)) == Answer(h, v, db, Get(other, k))
  {
  }

  /** Nothing is known under a name before it is registered or created, and asking changes nothing. */
  lemma UnknownNames(h: Hasher, v: Variant, db: Db, name: Bytes, schemaName: Bytes, bytes: Bytes)
    ensures schemaName !in db.schemas ==>
              && Exec(h, v, db, GetSchema(schemaName)) == (db, NotFound)
              && Exec(h, v, db, CreateCollection(name, schemaName)) == (db, NotFound)
    ensures name !in db.colls ==>
              && Exec(h, v, db, GetCollectionSchema(name)) == (db, NotFound)
              && Exec(h, v, db, Get(name, bytes)) == (db, NotFound)
              && Exec(h, v, db, Put(name, bytes)) == (db, NotFound)
              && Exec(h, v, db, Delete(name, bytes)) == (db, NotFound)
  {
  }
}

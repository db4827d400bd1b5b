/** The registries of schemas and collections (db/database.cpp), over collections on the heap. */
module Databases {
  import opened Wrappers
  import opened ByteStrings
  import opened Schemas
  import opened DatabaseModel
  import opened Collections
  import Index = HashIndex

  /** A well-shaped collection on the heap, and its value. */
  ghost predicate Stands(h: Hasher, coll: Collection, value: Coll)
    reads coll, coll.Repr
  {
    coll.Shape() && coll.hasher == h && value == Coll(coll.schema, coll.State())
  }

  predicate OwnedBy(owner: map<object, Bytes>, objects: set<object>, n: Bytes) {
    forall o | o in objects :: o in owner && owner[o] == n
  }

  /** Giving objects that are new or its own to one owner leaves the others theirs. */
  lemma OwnersKept(owner: map<object, Bytes>, added: set<object>, name: Bytes, others: set<object>, n: Bytes)
    requires n != name && OwnedBy(owner, others, n)
    requires forall o | o in added :: o in owner ==> owner[o] == name
    ensures OwnedBy(owner + map o | o in added :: name, others, n)
  {
  }

  class Database {
    const hasher: Hasher
    var schemas: map<Bytes, Schema>
    var colls: map<Bytes, Collection>
    /** The tables of the collections, by value. */
    ghost var Tables: map<Bytes, Coll>
    ghost var Repr: set<object>
    /** Which collection an object belongs to: what keeps collections apart. */
    ghost var Owner: map<object, Bytes>

    ghost predicate Valid()
      reads this, Repr
      ensures Valid() ==> this in Repr
    {
      && this in Repr
      && colls.Keys == Tables.Keys
      && (forall n | n in colls :: colls[n] in Repr && colls[n].Repr <= Repr)
      && (forall n {:trigger Owns(n, colls[n], Tables[n])} | n in colls :: Owns(n, colls[n], Tables[n]))
    }

    ghost predicate Owns(n: Bytes, coll: Collection, value: Coll)
      reads this`Repr, this`Owner, coll, coll.Repr
    {
      coll in Repr && Apart(n, coll.Repr) && Stands(hasher, coll, value)
    }

    /** The objects of a collection belong to the database and to no other collection. */
    ghost predicate Apart(n: Bytes, objects: set<object>)
      reads this`Repr, this`Owner
    {
      objects <= Repr && this !in objects && OwnedBy(Owner, objects, n)
    }

    /** `Valid`, but for the entry of one collection. */
    ghost predicate ValidBut(name: Bytes)
      reads this, Repr
    {
      && this in Repr
      && colls.Keys == Tables.Keys
      && (forall n | n in colls && n != name :: colls[n] in Repr && colls[n].Repr <= Repr)
      && (forall n {:trigger Owns(n, colls[n], Tables[n])} | n in colls && n != name :: Owns(n, colls[n], Tables[n]))
    }

    /** Makes the objects of a collection, which are new or its own, part of the database. */
    ghost method Claim(name: Bytes, objects: set<object>)
      requires ValidBut(name) && this !in objects
      requires forall o | o in objects :: o in Owner ==> Owner[o] == name
      modifies this`Repr, this`Owner
      ensures ValidBut(name) && Repr == old(Repr) + objects && Apart(name, objects)
    {
      Repr, Owner := Repr + objects, Owner + (map o | o in objects :: name);
      forall n | n in colls && n != name
        ensures Owns(n, colls[n], Tables[n])
      {
        assert old(Owns(n, colls[n], Tables[n]));
        OwnersKept(old(Owner), objects, name, colls[n].Repr, n);
        assert Stands(hasher, colls[n], Tables[n]);
      }
    }

    /** Brings the entry of `name` up to date with a collection that shares no object with another. */
    ghost method Adopt(name: Bytes, coll: Collection, value: Coll)
      requires ValidBut(name) && name in colls && colls[name] == coll
      requires Stands(hasher, coll, value) && coll in coll.Repr && this !in coll.Repr
      requires forall o | o in coll.Repr :: o in Owner ==> Owner[o] == name
      modifies this`Repr, this`Owner, this`Tables
      ensures Valid() && Repr == old(Repr) + coll.Repr
      ensures Tables == old(Tables)[name := value]
    {
      Claim(name, coll.Repr);
      ghost var before := Tables;
      label Claimed:
      Tables := Tables[name := value];
      forall n | n in colls && n != name
        ensures Owns(n, colls[n], Tables[n])
      {
        assert old@Claimed(Owns(n, colls[n], before[n]));
      }
      assert Owns(name, coll, value);
    }

    /** The registries, by value. */
    ghost function State(): Db
      reads this
    {
      Db(schemas, Tables)
    }

    constructor (hasher: Hasher)
      ensures Valid() && fresh(Repr) && this.hasher == hasher && State() == EMPTY_DB
    {
      this.hasher := hasher;
      schemas := map[];
      colls := map[];
      Tables := map[];
      Repr := {this};
      Owner := map[];
    }

    method RegisterSchema(name: Bytes, schema: Schema)
      requires Valid()
      modifies this`schemas
      ensures Valid()
      ensures State() == old(State()).(schemas := old(schemas)[name := schema])
    {
      schemas := schemas[name := schema];
      forall n | n in colls
        ensures Owns(n, colls[n], Tables[n])
      {
        assert old(Owns(n, colls[n], Tables[n]));
      }
    }

    /** Assigning to an existing name replaces the collection by an empty one. */
    method CreateCollection(name: Bytes, schema: Schema)
      requires Valid() && Storable(schema)
      modifies this
      ensures Valid() && fresh(Repr - old(Repr))
      ensures State() == old(State()).(colls := old(State()).colls[name := Coll(schema, Index.EMPTY_TABLE)])
    {
      var coll := new Collection(hasher, schema);
      colls, Tables := colls[name := coll], Tables[name := Coll(schema, Index.EMPTY_TABLE)];
      forall n | n in colls && n != name
        ensures Owns(n, colls[n], Tables[n])
      {
        assert old(Owns(n, colls[n], Tables[n]));
        assert Stands(hasher, colls[n], Tables[n]);
      }
      assert Stands(hasher, coll, Coll(schema, Index.EMPTY_TABLE));
      Adopt(name, coll, Coll(schema, Index.EMPTY_TABLE));
    }

    method FindSchema(name: Bytes) returns (schema: Option<Schema>)
      requires Valid()
      ensures Valid()
      ensures schema == if name in State().schemas then Some(State().schemas[name]) else None
    {
      return if name in schemas then Some(schemas[name]) else None;
    }

    method FindCollection(name: Bytes) returns (coll: Collection?)
      requires Valid()
      ensures Valid()
      ensures coll == if name in colls then colls[name] else null
      ensures coll == null <==> name !in State().colls
      ensures coll != null ==> Owns(name, coll, State().colls[name])
    {
      return if name in colls then colls[name] else null;
    }

    /** `collection(name)->put(...)`: only that collection changes. */
    method PutInto(name: Bytes, doc: Bytes) returns (slot: Option<nat>)
      requires Valid() && name in colls
      requires colls[name].Intact() && DocOk(colls[name].schema, doc)
      modifies Repr
      ensures Valid() && fresh(Repr - old(Repr)) && slot.Some?
      ensures var coll := old(State()).colls[name];
              var (table, slot') := Index.Put(ConfigOf(hasher, coll.schema), AsCoded, coll.table, doc);
              slot == slot' && State() == old(State()).(colls := old(State()).colls[name := coll.(table := table)])
    {
      var coll := colls[name];
      assert Owns(name, coll, Tables[name]);
      slot := coll.Put(doc);
      forall n | n in colls && n != name
        ensures Owns(n, colls[n], Tables[n])
      {
        assert old(Owns(n, colls[n], Tables[n]));
      }
      Adopt(name, coll, Coll(coll.schema, coll.State()));
    }

    /** `collection(name)->remove(...)` */
    method RemoveFrom(name: Bytes, key: Bytes)
      requires Valid() && name in colls
      requires colls[name].Valid() && KeyOk(colls[name].schema, key)
      modifies Repr
      ensures Valid() && fresh(Repr - old(Repr))
      ensures var coll := old(State()).colls[name];
              var table := Index.Remove(ConfigOf(hasher, coll.schema), coll.table, key);
              State() == old(State()).(colls := old(State()).colls[name := coll.(table := table)])
    {
      var coll := colls[name];
      assert Owns(name, coll, Tables[name]);
      coll.Remove(key);
      forall n | n in colls && n != name
        ensures Owns(n, colls[n], Tables[n])
      {
        assert old(Owns(n, colls[n], Tables[n]));
      }
      Adopt(name, coll, Coll(coll.schema, coll.State()));
    }
  }
}

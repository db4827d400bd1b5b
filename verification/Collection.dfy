/** The collection as the source keeps it (db/collection.cpp): an array of buckets probed and
    written in place over a storage, each operation proved against `HashIndex`. */
module Collections {
  import opened Wrappers
  import opened ByteStrings
  import opened Bits
  import opened Schemas
  import opened LayoutLaws
  import opened HashIndex
  import opened HashIndexLaws
  import opened DatabaseModel
  import opened DocumentStorage
  import Index = HashIndex
  import IndexRuns

  /** The masked step after `d` steps from `home` is the step to `d + 1`, or back home at the end. */
  lemma NextProbe(home: nat, d: nat, m: nat)
    requires IsPow2(m) && home < m && d < m
    ensures var next := BitAnd(At(home, d, m) + 1, m - 1);
            && (d + 1 < m ==> next == At(home, d + 1, m) && next != home)
            && (d + 1 == m ==> next == home)
  {
    MaskedStep(At(home, d, m), m);
  }

  lemma MaskedHome(hash: nat, m: nat)
    requires IsPow2(m)
    ensures BitAnd(hash, m - 1) == Home(hash, m) == At(Home(hash, m), 0, m)
  {
    var k: nat :| m == Pow2(k);
    AndMask(hash, k);
  }

  /** One more document in a rehash. Among distinct documents it meets no duplicate, which the
      source asserts. */
  lemma RehashOneMore(c: Config, slots: seq<Bytes>, i: nat, b: seq<Bucket>)
    requires i < |slots| && i < |b| && Rehash(c, slots, i, |b|) == Some(b)
    ensures SlotsInRange(b, i)
    ensures var k := c.key(slots[i]);
            var r := PutBucket(c, AsCoded, b, slots, k);
            && r.Some?
            && Rehash(c, slots, i + 1, |b|) == Some(b[r.value := Bucket(c.hash(k), i)])
            && (DistinctKeys(c, slots, i + 1) && AllUsable(c, slots, i + 1) ==> !Live(b[r.value]))
  {
    RehashSucceeds(c, slots, i, |b|);
    PutBucketExists(c, AsCoded, b, slots, c.key(slots[i]));
    if DistinctKeys(c, slots, i + 1) && AllUsable(c, slots, i + 1) {
      RehashIndexes(c, slots, i, |b|);
      RehashStep(c, slots, i, b);
    }
  }

  /** A rehash that fails part way fails. */
  lemma {:induction false} RehashFails(c: Config, slots: seq<Bytes>, i: nat, n: nat, m: nat)
    requires i <= n <= |slots| && m > 0 && Rehash(c, slots, i, m) == None
    ensures Rehash(c, slots, n, m) == None
    decreases n
  {
    if i < n {
      RehashFails(c, slots, i, n - 1, m);
    }
  }

  /** The key's bucket holds a document, and the document in the last slot has a bucket, when the key
      is present: what the source asserts in a removal. */
  predicate Locatable(c: Config, t: Table, k: Bytes) {
    var i := FindBucket(c, t.buckets, t.slots, k);
    i.Some? ==> t.count <= |t.slots| && t.buckets[i.value].slot < t.count && LastLocatable(c, t)
  }

  predicate LastLocatable(c: Config, t: Table)
    requires 0 < t.count <= |t.slots|
  {
    FindBucket(c, t.buckets, t.slots, c.key(t.slots[t.count - 1])).Some?
  }

  lemma KeysLocatable(c: Config, t: Table, k: Bytes)
    requires TableOk(c, t)
    ensures Locatable(c, t, k)
  {
    if FindBucket(c, t.buckets, t.slots, k).Some? {
      RemoveUnfolds(c, t, k, FindBucket(c, t.buckets, t.slots, k).value);
    }
  }

  /** What filing a document does, in terms of the buckets `b` that the probe loop leaves. */
  lemma PlaceIs(c: Config, v: Variant, g: Table, doc: Bytes, j: nat, b: seq<Bucket>)
    requires g.buckets != [] && PutBucket(c, v, g.buckets, g.slots, c.key(doc)) == Some(j)
    requires b == if Live(g.buckets[j]) then g.buckets else g.buckets[j := Bucket(c.hash(c.key(doc)), g.count)]
    ensures b[j].slot < |g.slots| || b[j].slot == g.count
    ensures Index.Place(c, v, g, doc) ==
              (Table(b, WriteAt(g.slots, b[j].slot, doc), if b[j].slot == g.count then g.count + 1 else g.count),
               Some(b[j].slot))
  {
  }

  class Collection {
    const hasher: Hasher
    const schema: Schema
    /** `m_key_buffer_fn` and `m_hash_fn` */
    const config: Config
    const storage: Storage
    var buckets: array<Bucket>
    ghost var Repr: set<object>
    /** How many documents all rehashes so far have inserted again. */
    ghost var Reinserted: nat

    ghost predicate Shape()
      reads this, Repr
      ensures Shape() ==> this in Repr
    {
      && this in Repr && storage in Repr && storage.data in Repr && buckets in Repr
      && buckets as object != storage.data as object
      && Storable(schema)
      && config == ConfigOf(hasher, schema)
      && storage.docSize == DocSize(schema)
      && storage.Valid()
    }

    ghost function State(): Table
      requires Shape()
      reads this, Repr
    {
      Table(buckets[..], storage.Slots, storage.count)
    }

    /** What holds whatever was put: sizes and slots in bounds, and room for another document. */
    ghost predicate Intact()
      reads this, Repr
      ensures Intact() ==> this in Repr
    {
      Shape() && Bounded(State()) && Roomy(State()) && DocsOk(schema, storage.Slots)
    }

    ghost predicate Valid()
      reads this, Repr
      ensures Valid() ==> Intact()
    {
      Intact() && TableOk(config, State())
    }

    /** The key-to-document map the collection stands for. */
    ghost function Map(): map<Bytes, Bytes>
      requires Shape()
      reads this, Repr
    {
      Model(config, State().Docs())
    }

    constructor (hasher: Hasher, schema: Schema)
      requires Storable(schema)
      ensures Valid() && fresh(Repr)
      ensures this.hasher == hasher && this.schema == schema
      ensures State() == EMPTY_TABLE && Map() == map[] && Reinserted == 0
    {
      this.hasher := hasher;
      this.schema := schema;
      this.config := ConfigOf(hasher, schema);
      var size := ComputeAggregateSize(schema.fields);
      SizeAtLeastAlignment(AsCoded, Aggregate(schema.fields));
      var docs := new Storage(size);
      this.storage := docs;
      this.buckets := new Bucket[0];
      this.Reinserted := 0;
      new;
      Repr := {this, storage, storage.data, buckets};
      assert State() == EMPTY_TABLE;
      IndexRuns.EmptyTableOk(config);
    }

    /** The test that a bucket holds `key`: equal stored hashes, then equal key bytes. */
    predicate BucketMatches(bucket: Bucket, key: Bytes, hash: nat)
      requires storage.Valid() && hash == config.hash(key) && bucket.slot < |storage.Slots|
      reads storage, storage.data
      ensures BucketMatches(bucket, key, hash) <==> Matches(config, bucket, storage.Slots, key)
    {
      bucket.hash == hash && config.key(storage.At(bucket.slot)) == key
    }

    /** What the probe loop of a lookup relies on. */
    ghost predicate Probeable()
      reads this, buckets, storage, storage.data
    {
      && storage.Valid()
      && (buckets.Length > 0 ==> IsPow2(buckets.Length))
      && SlotsInRange(buckets[..], |storage.Slots|)
    }

    /** The probe loop of a lookup. */
    method FindInternal(key: Bytes, hash: nat) returns (r: Option<nat>)
      requires Probeable() && hash == config.hash(key)
      ensures r == FindBucket(config, buckets[..], storage.Slots, key)
    {
      if buckets.Length == 0 {
        return None;
      }
      var m := buckets.Length;
      MaskedHome(hash, m);
      var idx := BitAnd(hash, m - 1);
      var origIdx := idx;
      ghost var d := 0;
      while true
        invariant d < m && origIdx == Home(hash, m) && idx == At(origIdx, d, m)
        invariant FindStop(config, buckets[..], storage.Slots, key, 0)
               == FindStop(config, buckets[..], storage.Slots, key, d)
        decreases m - d
      {
        var bucket := buckets[idx];
        assert buckets[..][idx] == bucket;
        if bucket.hash == EMPTY {
          return None;
        }
        if BucketMatches(bucket, key, hash) {
          return Some(idx);
        }
        NextProbe(origIdx, d, m);
        idx := BitAnd(idx + 1, m - 1);
        d := d + 1;
        if idx == origIdx {
          return None;
        }
      }
    }

    /** The bucket array after an insertion that ended at `r`. */
    ghost function Written(b: seq<Bucket>, r: Option<nat>, hash: nat, slot: nat): seq<Bucket>
      requires r.Some? ==> r.value < |b|
    {
      if r.Some? && !Live(b[r.value]) then b[r.value := Bucket(hash, slot)] else b
    }

    /** The probe loop of an insertion, as coded: it ends at the first empty, tombstone or matching bucket. */
    method PutInternal(dest: array<Bucket>, key: Bytes, hash: nat) returns (r: Option<nat>)
      requires storage.Valid() && dest as object != storage.data as object
      requires IsPow2(dest.Length) && SlotsInRange(dest[..], |storage.Slots|) && hash == config.hash(key)
      modifies dest
      ensures r == PutBucket(config, AsCoded, old(dest[..]), storage.Slots, key)
      ensures r.Some? ==> r.value < dest.Length
      ensures dest[..] == Written(old(dest[..]), r, hash, storage.count)
    {
      var m := dest.Length;
      MaskedHome(hash, m);
      var idx := BitAnd(hash, m - 1);
      var origIdx := idx;
      ghost var d := 0;
      ghost var b := dest[..];
      while true
        invariant d < m && origIdx == Home(hash, m) && idx == At(origIdx, d, m)
        invariant dest[..] == b
        invariant PutStop(config, b, storage.Slots, key, 0) == PutStop(config, b, storage.Slots, key, d)
        decreases m - d
      {
        var bucket := dest[idx];
        assert b[idx] == bucket;
        if bucket.hash == EMPTY || bucket.hash == TOMBSTONE {
          dest[idx] := Bucket(hash, storage.count);
          return Some(idx);
        }
        if BucketMatches(bucket, key, hash) {
          return Some(idx);
        }
        NextProbe(origIdx, d, m);
        idx := BitAnd(idx + 1, m - 1);
        d := d + 1;
        if idx == origIdx {
          return None;
        }
      }
    }

    /** The repaired probe loop: it remembers the first free bucket and keeps looking for a match
        until an empty bucket or the wrap. */
    method ScanRepaired(dest: array<Bucket>, key: Bytes, hash: nat) returns (r: Option<nat>)
      requires storage.Valid() && IsPow2(dest.Length)
      requires SlotsInRange(dest[..], |storage.Slots|) && hash == config.hash(key)
      ensures r == PutBucket(config, Repaired, dest[..], storage.Slots, key)
      ensures r.Some? ==> r.value < dest.Length
    {
      var m := dest.Length;
      MaskedHome(hash, m);
      var idx := BitAnd(hash, m - 1);
      var origIdx := idx;
      var free: Option<nat> := None;
      ghost var d := 0;
      ghost var b := dest[..];
      while true
        invariant d < m && origIdx == Home(hash, m) && idx == At(origIdx, d, m)
        invariant free.Some? ==> free.value < m && !Live(b[free.value])
        invariant ScanFrom(config, b, storage.Slots, key, 0, None) == ScanFrom(config, b, storage.Slots, key, d, free)
        decreases m - d
      {
        var bucket := dest[idx];
        assert b[idx] == bucket;
        if bucket.hash == EMPTY {
          return if free.Some? then free else Some(idx);
        }
        if bucket.hash == TOMBSTONE {
          if free == None {
            free := Some(idx);
          }
        } else if BucketMatches(bucket, key, hash) {
          return Some(idx);
        }
        NextProbe(origIdx, d, m);
        idx := BitAnd(idx + 1, m - 1);
        d := d + 1;
        if idx == origIdx {
          return free;
        }
      }
    }

    method PutInternalRepaired(dest: array<Bucket>, key: Bytes, hash: nat) returns (r: Option<nat>)
      requires storage.Valid() && dest as object != storage.data as object
      requires IsPow2(dest.Length) && SlotsInRange(dest[..], |storage.Slots|) && hash == config.hash(key)
      modifies dest
      ensures r == PutBucket(config, Repaired, old(dest[..]), storage.Slots, key)
      ensures r.Some? ==> r.value < dest.Length
      ensures dest[..] == Written(old(dest[..]), r, hash, storage.count)
    {
      r := ScanRepaired(dest, key, hash);
      if r.Some? {
        var bucket := dest[r.value];
        if bucket.hash == EMPTY || bucket.hash == TOMBSTONE {
          dest[r.value] := Bucket(hash, storage.count);
        }
      }
    }

    method PutEither(v: Variant, dest: array<Bucket>, key: Bytes, hash: nat) returns (r: Option<nat>)
      requires storage.Valid() && dest as object != storage.data as object
      requires IsPow2(dest.Length) && SlotsInRange(dest[..], |storage.Slots|) && hash == config.hash(key)
      modifies dest
      ensures r == PutBucket(config, v, old(dest[..]), storage.Slots, key)
      ensures r.Some? ==> r.value < dest.Length
      ensures dest[..] == Written(old(dest[..]), r, hash, storage.count)
    {
      if v == AsCoded {
        r := PutInternal(dest, key, hash);
      } else {
        r := PutInternalRepaired(dest, key, hash);
      }
    }

    /** One step of a rehash: document `i` goes into the new buckets at its unchanged slot. */
    method Reinsert(newBuckets: array<Bucket>, i: nat) returns (ok: bool)
      requires storage.Valid() && i < storage.count && i < newBuckets.Length && IsPow2(newBuckets.Length)
      requires newBuckets as object != storage.data as object
      requires Rehash(config, storage.Slots, i, newBuckets.Length) == Some(newBuckets[..])
      modifies newBuckets, this`Reinserted
      ensures Reinserted == old(Reinserted) + 1
      ensures Rehash(config, storage.Slots, i + 1, newBuckets.Length) == if ok then Some(newBuckets[..]) else None
    {
      var elemKey := config.key(storage.At(i));
      var elemKeyHash := config.hash(elemKey);
      ghost var before := newBuckets[..];
      RehashOneMore(config, storage.Slots, i, before);
      var r := PutInternal(newBuckets, elemKey, elemKeyHash);
      Reinserted := Reinserted + 1;
      if r == None {
        return false;
      }
      assert DistinctKeys(config, storage.Slots, i + 1) && AllUsable(config, storage.Slots, i + 1) ==>
          newBuckets[..][r.value].slot == storage.count;
      newBuckets[r.value] := newBuckets[r.value].(slot := i);
      assert newBuckets[..] == before[r.value := Bucket(elemKeyHash, i)];
      return true;
    }

    method BlankBuckets(count: nat) returns (blank: array<Bucket>)
      ensures fresh(blank) && blank[..] == seq(count, _ => Bucket(EMPTY, 0))
    {
      blank := new Bucket[count](_ => Bucket(EMPTY, 0));
      assert blank[..] == seq(count, _ => Bucket(EMPTY, 0));
    }

    /** Indexes every stored document again over `newCount` buckets. */
    method Rebuild(newCount: nat) returns (ok: bool, newBuckets: array<Bucket>)
      requires storage.Valid() && IsPow2(newCount) && storage.count < newCount
      modifies this`Reinserted
      ensures fresh(newBuckets) && (ok ==> Reinserted == old(Reinserted) + storage.count)
      ensures Rehash(config, storage.Slots, storage.count, newCount) == if ok then Some(newBuckets[..]) else None
    {
      ghost var slots := storage.Slots;
      newBuckets := BlankBuckets(newCount);
      for i := 0 to storage.count
        invariant storage.Slots == slots && Reinserted == old(Reinserted) + i
        invariant Rehash(config, slots, i, newCount) == Some(newBuckets[..])
      {
        ok := Reinsert(newBuckets, i);
        if !ok {
          RehashFails(config, slots, i + 1, storage.count, newCount);
          return;
        }
      }
      ok := true;
    }

    /** The growth step of a put: rehash into twice as many buckets when the load is due. Its
        failure branch returns before anything changed; `GrowSucceeds` shows that it is never taken. */
    method GrowIfDue() returns (ok: bool)
      requires Intact()
      modifies this`buckets, this`Repr, this`Reinserted
      ensures Intact() && fresh(Repr - old(Repr)) && storage.data == old(storage.data)
      ensures ok ==> Reinserted == old(Reinserted) + if NeedsGrowth(old(State())) then storage.count else 0
      ensures match Grow(config, old(State()))
              case Some(t) => ok && State() == t
              case None => !ok && State() == old(State())
    {
      if storage.count + 1 < LoadLimit(buckets.Length) {
        return true;
      }
      GrownCountOk(State());
      GrowSucceeds(config, State());
      var newCount := buckets.Length * 2;
      if newCount == 0 {
        newCount := FIRST_BUCKET_COUNT;
      }
      ghost var t := State();
      var rebuilt, newBuckets := Rebuild(newCount);
      if !rebuilt {
        return false;
      }
      buckets, Repr := newBuckets, Repr + {newBuckets};
      assert Grow(config, t) == Some(State());
      return true;
    }

    /** Files a document in the bucket that a probe loop has chosen and written: its slot says
        whether it is a new document's. */
    method Store(j: nat, doc: Bytes) returns (slot: nat)
      requires Shape() && |doc| == storage.docSize && j < buckets.Length
      requires buckets[j].slot < |storage.Slots| || buckets[j].slot == storage.count
      modifies Repr
      ensures Shape() && fresh(Repr - old(Repr)) && slot == old(buckets[j].slot) && Reinserted == old(Reinserted)
      ensures State() == Table(old(buckets[..]), WriteAt(old(storage.Slots), slot, doc),
                               if slot == old(storage.count) then old(storage.count) + 1 else old(storage.count))
    {
      if buckets[j].slot == storage.count {
        slot := storage.Put(doc);
        Repr := Repr + {storage.data};
      } else {
        slot := buckets[j].slot;
        storage.Overwrite(slot, doc);
      }
    }

    /** The part of a put that follows the growth step, with either probe loop. */
    method Place(v: Variant, doc: Bytes) returns (slot: Option<nat>)
      requires Intact() && buckets.Length > 0 && |doc| == storage.docSize
      modifies Repr
      ensures Shape() && fresh(Repr - old(Repr)) && Reinserted == old(Reinserted)
      ensures (State(), slot) == Index.Place(config, v, old(State()), doc)
    {
      ghost var before := State();
      var key := config.key(doc);
      var hash := config.hash(key);
      var r := PutEither(v, buckets, key, hash);
      if r == None {
        return None;
      }
      PlaceIs(config, v, before, doc, r.value, buckets[..]);
      assert buckets[..][r.value] == buckets[r.value];
      var s := Store(r.value, doc);
      return Some(s);
    }

    /** A put with either probe loop: grow if due, then place the document. It never fails. */
    method PutWith(v: Variant, doc: Bytes) returns (slot: Option<nat>)
      requires Intact() && DocOk(schema, doc)
      modifies Repr
      ensures Intact() && fresh(Repr - old(Repr))
      ensures (State(), slot) == Index.Put(config, v, old(State()), doc)
      ensures slot.Some?
      ensures Reinserted == old(Reinserted) + IndexRuns.ReinsertedBy(old(State()), IndexRuns.PutOp(doc))
    {
      PutBounded(config, v, State(), doc);
      PutDocsOk(config, v, schema, State(), doc);
      var ok := GrowIfDue();
      if !ok {
        return None;
      }
      slot := Place(v, doc);
    }

    /** Stores a document under its key, as coded. It never fails. A safe put keeps a sound collection
        sound and its map gains the document; any other put leaves a table that is no map. */
    method Put(doc: Bytes) returns (slot: Option<nat>)
      requires Intact() && DocOk(schema, doc)
      modifies Repr
      ensures Intact() && fresh(Repr - old(Repr))
      ensures (State(), slot) == Index.Put(config, AsCoded, old(State()), doc)
      ensures slot.Some?
      ensures Reinserted == old(Reinserted) + IndexRuns.ReinsertedBy(old(State()), IndexRuns.PutOp(doc))
      ensures old(Valid()) ==> (Valid() <==> PutIsSafe(config, AsCoded, old(State()), config.key(doc)))
      ensures old(Valid()) && Valid() ==> Map() == old(Map())[config.key(doc) := doc]
    {
      ghost var t, sound := State(), Valid();
      slot := PutWith(AsCoded, doc);
      if sound {
        PutKeepsTableExactlyWhenSafe(config, AsCoded, t, doc);
        if PutIsSafe(config, AsCoded, t, config.key(doc)) {
          PutCorrect(config, AsCoded, t, doc);
        }
      }
    }

    /** The same with the repaired probe loop: for every key whose hash is not reserved the map gains
        the document. */
    method PutRepaired(doc: Bytes) returns (slot: Option<nat>)
      requires Intact() && DocOk(schema, doc)
      modifies Repr
      ensures Intact() && fresh(Repr - old(Repr))
      ensures (State(), slot) == Index.Put(config, Repaired, old(State()), doc)
      ensures slot.Some?
      ensures Reinserted == old(Reinserted) + IndexRuns.ReinsertedBy(old(State()), IndexRuns.PutOp(doc))
      ensures old(Valid()) ==> (Valid() <==> Usable(config, config.key(doc)))
      ensures old(Valid()) && Valid() ==> Map() == old(Map())[config.key(doc) := doc]
    {
      ghost var t, sound := State(), Valid();
      slot := PutWith(Repaired, doc);
      if sound {
        PutKeepsTableExactlyWhenSafe(config, Repaired, t, doc);
        if Usable(config, config.key(doc)) {
          PutCorrect(config, Repaired, t, doc);
        }
      }
    }

    /** `count()`: the number of keys. */
    function Count(): (n: nat)
      requires Valid()
      reads this, Repr
      ensures n == |Map()|
    {
      IndexRuns.CountIsMapSize(config, State());
      storage.count
    }

    method Find(key: Bytes) returns (doc: Option<Bytes>)
      requires Intact() && KeyOk(schema, key)
      ensures doc == Index.Find(config, State(), key)
      ensures Valid() ==> doc == if key in Map() then Some(Map()[key]) else None
    {
      if Valid() {
        FindIsLookup(config, State(), key);
      }
      var hash := config.hash(key);
      var found := FindInternal(key, hash);
      if found == None {
        return None;
      }
      assert buckets[..][found.value] == buckets[found.value];
      return Some(storage.At(buckets[found.value].slot));
    }

    /** Points the moved document's bucket `moved` at the freed slot, removes the document of
        bucket `i` from the storage and leaves a tombstone. */
    method Evict(i: nat, moved: nat)
      requires Shape() && i < buckets.Length && moved < buckets.Length
      requires buckets[i].slot < storage.count && (buckets[i].slot == storage.count - 1 ==> moved == i)
      modifies Repr
      ensures Shape() && Repr == old(Repr) && Reinserted == old(Reinserted)
      ensures old(State().buckets[i] == buckets[i]) && State() == Evicted(old(State()), i, moved)
    {
      ghost var t := State();
      ghost var b := t.buckets[moved := t.buckets[moved].(slot := buckets[i].slot)];
      if buckets[i].slot != storage.count - 1 {
        buckets[moved] := buckets[moved].(slot := buckets[i].slot);
      }
      assert buckets[..] == b && b[i].slot == t.buckets[i].slot;
      storage.Remove(buckets[i].slot);
      assert buckets[..] == b;
      buckets[i] := buckets[i].(hash := TOMBSTONE);
      assert buckets[..] == b[i := b[i].(hash := TOMBSTONE)];
    }

    /** The bucket of the document in the last slot. */
    method FindLast() returns (r: Option<nat>)
      requires Probeable() && storage.count > 0
      ensures r == FindBucket(config, buckets[..], storage.Slots, config.key(storage.Slots[storage.count - 1]))
    {
      var lastKey := config.key(storage.At(storage.count - 1));
      r := FindInternal(lastKey, config.hash(lastKey));
    }

    /** The bucket to redirect when bucket `i` of table `t` is evicted: its own when its document is the last. */
    method FindSuccessor(i: nat, ghost t: Table) returns (moved: nat)
      requires Shape() && Probeable() && t == State()
      requires i < |t.buckets| && 0 < t.count && LastLocatable(config, t)
      ensures moved == Successor(config, t, i)
    {
      assert buckets[i] == t.buckets[i];
      moved := i;
      if buckets[i].slot != storage.count - 1 {
        assert t.slots == storage.Slots && t.buckets == buckets[..];
        var lastFound := FindLast();
        moved := lastFound.value;
      }
    }

    /** Finds the key's bucket and evicts it, looking up the last document's bucket if they differ. */
    method RemoveEntry(key: Bytes)
      requires Shape() && Probeable() && Locatable(config, State(), key)
      modifies Repr
      ensures Shape() && Repr == old(Repr) && Reinserted == old(Reinserted)
      ensures State() == Index.Remove(config, old(State()), key)
    {
      ghost var t := State();
      var found := FindInternal(key, config.hash(key));
      if found == None {
        return;
      }
      var moved := FindSuccessor(found.value, t);
      assert t.buckets[found.value] == buckets[found.value];
      Evict(found.value, moved);
    }

    /** Removes the document of a key, if any: the last document moves into its slot, that
        document's bucket is redirected, and the key's bucket becomes a tombstone. */
    method Remove(key: Bytes)
      requires Valid() && KeyOk(schema, key)
      modifies Repr
      ensures Valid() && Repr == old(Repr) && Reinserted == old(Reinserted)
      ensures State() == Index.Remove(config, old(State()), key)
      ensures Map() == old(Map()) - {key}
    {
      RemoveCorrect(config, State(), key);
      RemoveDocsOk(config, schema, State(), key);
      KeysLocatable(config, State(), key);
      RemoveEntry(key);
    }
  }
}

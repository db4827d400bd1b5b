/** Every reachable table is a finite map: lookups, insertion, removal and rehashing. */
module HashIndexLaws {
  import opened Wrappers
  import opened ByteStrings
  import opened Bits
  import opened HashIndex

  /** A lookup succeeds exactly for the keys of the indexed documents, at that document's bucket. */
  lemma FindCorrect(c: Config, b: seq<Bucket>, slots: seq<Bytes>, n: nat, k: Bytes)
    requires n <= |slots| && Indexed(c, b, slots, n) && NoTombstoneKeys(c, slots)
    ensures match FindBucket(c, b, slots, k)
            case Some(i) => Live(b[i]) && b[i].slot < n && c.key(slots[b[i].slot]) == k
            case None => forall s | 0 <= s < n :: c.key(slots[s]) != k
  {
    if b != [] {
      var e := FindStop(c, b, slots, k, 0);
      if e < |b| {
        assert BucketOk(c, b, slots, n, At(Home(c.hash(k), |b|), e, |b|));
      }
    }
    forall s | 0 <= s < n && c.key(slots[s]) == k
      ensures FindBucket(c, b, slots, k).Some?
    {
      IndexedIsFound(c, b, slots, n, s);
    }
  }

  lemma IndexedIsFound(c: Config, b: seq<Bucket>, slots: seq<Bytes>, n: nat, s: nat)
    requires s < n <= |slots| && Indexed(c, b, slots, n)
    ensures FindBucket(c, b, slots, c.key(slots[s])).Some?
  {
    var m, k := |b|, c.key(slots[s]);
    assert Occupied(b, s);
    var i :| Holds(b, i, s);
    var home := Home(c.hash(k), m);
    var e := FindStop(c, b, slots, k, 0);
    assert BucketOk(c, b, slots, n, i);
    var d := Dist(home, i, m);
    AtDist(home, i, m);
    assert Matches(c, b[At(home, d, m)], slots, k);
    assert e <= d;
    if e < d {
      assert b[At(home, e, m)].hash != EMPTY;
    }
  }

  lemma SameKeySameSlot(c: Config, slots: seq<Bytes>, n: nat, s: nat, t: nat)
    requires n <= |slots| && DistinctKeys(c, slots, n) && s < n && t < n
    requires c.key(slots[s]) == c.key(slots[t])
    ensures s == t
  {
  }

  /** The bucket found is the only live bucket of that slot. */
  lemma FindHolder(c: Config, b: seq<Bucket>, slots: seq<Bytes>, n: nat, s: nat)
    requires s < n <= |slots| && Indexed(c, b, slots, n) && NoTombstoneKeys(c, slots)
    ensures var r := FindBucket(c, b, slots, c.key(slots[s]));
            r.Some? && Holds(b, r.value, s)
  {
    FindCorrect(c, b, slots, n, c.key(slots[s]));
    var i := FindBucket(c, b, slots, c.key(slots[s])).value;
    SameKeySameSlot(c, slots, n, b[i].slot, s);
  }

  /** A key whose hash is the empty marker is never found, in any table. */
  lemma ZeroHashNeverFound(c: Config, t: Table, k: Bytes)
    requires c.hash(k) == EMPTY
    ensures Find(c, t, k) == None
  {
  }

  lemma {:induction false} ScanFromFinds(c: Config, b: seq<Bucket>, slots: seq<Bytes>, k: Bytes, d: nat,
        free: Option<nat>)
    requires d <= |b| && b != [] && c.hash(k) != TOMBSTONE && (free.Some? ==> free.value < |b| && !Live(b[free.value]))
    requires var e := FindStop(c, b, slots, k, d); e < |b| && b[At(Home(c.hash(k), |b|), e, |b|)].hash != EMPTY
    ensures ScanFrom(c, b, slots, k, d, free) == Some(At(Home(c.hash(k), |b|), FindStop(c, b, slots, k, d), |b|))
    decreases |b| - d
  {
    var i := At(Home(c.hash(k), |b|), d, |b|);
    if b[i].hash == TOMBSTONE {
      ScanFromFinds(c, b, slots, k, d + 1, if free.Some? then free else Some(i));
    } else if !Matches(c, b[i], slots, k) {
      ScanFromFinds(c, b, slots, k, d + 1, free);
    }
  }

  lemma {:induction false} ScanFromFrees(c: Config, b: seq<Bucket>, slots: seq<Bytes>, k: Bytes, d: nat,
        free: Option<nat>)
    requires d <= |b| && b != [] && c.hash(k) != TOMBSTONE && (free.Some? ==> free.value < |b| && !Live(b[free.value]))
    requires var e := FindStop(c, b, slots, k, d); e < |b| ==> b[At(Home(c.hash(k), |b|), e, |b|)].hash == EMPTY
    ensures var p := PutStop(c, b, slots, k, d);
            ScanFrom(c, b, slots, k, d, free) ==
              if free.Some? then free else if p < |b| then Some(At(Home(c.hash(k), |b|), p, |b|)) else None
    decreases |b| - d
  {
    if d < |b| {
      var i := At(Home(c.hash(k), |b|), d, |b|);
      if b[i].hash == TOMBSTONE {
        ScanFromFrees(c, b, slots, k, d + 1, if free.Some? then free else Some(i));
      } else if b[i].hash != EMPTY {
        ScanFromFrees(c, b, slots, k, d + 1, free);
      }
    }
  }

  /** The repaired probe loop returns the key's bucket if it has one, else the first free bucket,
      which is where the coded loop stops. */
  lemma RepairedPutBucket(c: Config, b: seq<Bucket>, slots: seq<Bytes>, k: Bytes)
    requires b != [] && c.hash(k) != TOMBSTONE
    ensures PutBucket(c, Repaired, b, slots, k) ==
              if FindBucket(c, b, slots, k).Some? then FindBucket(c, b, slots, k)
              else PutBucket(c, AsCoded, b, slots, k)
  {
    var e := FindStop(c, b, slots, k, 0);
    if e < |b| && b[At(Home(c.hash(k), |b|), e, |b|)].hash != EMPTY {
      ScanFromFinds(c, b, slots, k, 0, None);
    } else {
      ScanFromFrees(c, b, slots, k, 0, None);
    }
  }

  // Room: with fewer live buckets than buckets, an insertion meets a free one.

  lemma {:induction false} LiveCountWrite(b: seq<Bucket>, j: nat, x: Bucket)
    requires j < |b|
    ensures LiveCount(b[j := x]) == LiveCount(b) - (if Live(b[j]) then 1 else 0) + (if Live(x) then 1 else 0)
  {
    if j == 0 {
      assert b[0 := x][1..] == b[1..];
    } else {
      assert b[j := x][1..] == b[1..][j - 1 := x];
      LiveCountWrite(b[1..], j - 1, x);
    }
  }

  lemma {:induction false} AllLiveCount(b: seq<Bucket>)
    requires forall i | 0 <= i < |b| :: Live(b[i])
    ensures LiveCount(b) == |b|
  {
    if b != [] {
      assert Live(b[0]);
      AllLiveCount(b[1..]);
    }
  }

  lemma {:induction false} NoneLiveCount(b: seq<Bucket>)
    requires forall i | 0 <= i < |b| :: !Live(b[i])
    ensures LiveCount(b) == 0
  {
    if b != [] {
      assert !Live(b[0]);
      NoneLiveCount(b[1..]);
    }
  }

  /** An insertion never wraps round while some bucket is not live, whatever the table holds. */
  lemma PutStopExists(c: Config, b: seq<Bucket>, slots: seq<Bytes>, k: Bytes)
    requires LiveCount(b) < |b|
    ensures PutStop(c, b, slots, k, 0) < |b|
  {
    var m := |b|;
    var home := Home(c.hash(k), m);
    if PutStop(c, b, slots, k, 0) == m {
      forall i | 0 <= i < m
        ensures Live(b[i])
      {
        AtDist(home, i, m);
        assert Live(b[At(home, Dist(home, i, m), m)]);
      }
      AllLiveCount(b);
    }
  }

  lemma {:induction false} ScanFromEnds(c: Config, b: seq<Bucket>, slots: seq<Bytes>, k: Bytes, d: nat,
        free: Option<nat>)
    requires d <= |b| && b != [] && (free.Some? ==> free.value < |b| && !Live(b[free.value]))
    requires free.Some? || PutStop(c, b, slots, k, d) < |b|
    ensures ScanFrom(c, b, slots, k, d, free).Some?
    decreases |b| - d
  {
    if d < |b| {
      var i := At(Home(c.hash(k), |b|), d, |b|);
      if b[i].hash == TOMBSTONE {
        ScanFromEnds(c, b, slots, k, d + 1, if free.Some? then free else Some(i));
      } else if b[i].hash != EMPTY && !Matches(c, b[i], slots, k) {
        ScanFromEnds(c, b, slots, k, d + 1, free);
      }
    }
  }

  lemma PutBucketExists(c: Config, v: Variant, b: seq<Bucket>, slots: seq<Bytes>, k: Bytes)
    requires LiveCount(b) < |b|
    ensures PutBucket(c, v, b, slots, k).Some?
  {
    PutStopExists(c, b, slots, k);
    if v.Repaired? {
      ScanFromEnds(c, b, slots, k, 0, None);
    }
  }

  // Growth, in any table

  ghost predicate Rebuilt(b: Option<seq<Bucket>>, n: nat) {
    b.Some? && LiveCount(b.value) <= n && SlotsInRange(b.value, n)
  }

  lemma RebuildStep(c: Config, slots: seq<Bytes>, n: nat, m: nat)
    requires n < |slots| && n < m && Rebuilt(Rehash(c, slots, n, m), n)
    ensures Rebuilt(Rehash(c, slots, n + 1, m), n + 1)
  {
    var b, k := Rehash(c, slots, n, m).value, c.key(slots[n]);
    PutBucketExists(c, AsCoded, b, slots, k);
    LiveCountWrite(b, PutBucket(c, AsCoded, b, slots, k).value, Bucket(c.hash(k), n));
  }

  /** A rehash into more buckets than documents never fails, not even when keys are stored twice. */
  lemma {:induction false} RehashSucceeds(c: Config, slots: seq<Bytes>, n: nat, m: nat)
    requires n <= |slots| && n < m
    ensures Rebuilt(Rehash(c, slots, n, m), n)
  {
    if n == 0 {
      NoneLiveCount(Rehash(c, slots, 0, m).value);
    } else {
      RehashSucceeds(c, slots, n - 1, m);
      RebuildStep(c, slots, n - 1, m);
    }
  }

  lemma GrownCountOk(t: Table)
    requires Bounded(t)
    ensures var m := GrownCount(|t.buckets|);
            IsPow2(m) && m >= FIRST_BUCKET_COUNT && t.count + 2 <= LoadLimit(m) && t.count < m
  {
    var m := |t.buckets|;
    if m == 0 {
      assert Pow2(5) == 32;
    } else {
      var k: nat :| m == Pow2(k);
      assert Pow2(k + 1) == 2 * m;
    }
  }

  /** The limit is the bucket count divided by 1.4, truncated. */
  lemma LoadLimitTruncates(m: nat)
    ensures LoadLimit(m) == (m as real / 1.4).Floor
  {
    var l, r := 5 * m / 7, 5 * m % 7;
    assert 5 * m == 7 * l + r;
    assert m as real / 1.4 == l as real + r as real / 7.0;
  }

  /** A table grows exactly when it has no buckets yet or one more document would reach the limit: from
      nothing to 32 buckets, from then on to twice as many. It never shrinks. */
  lemma GrowsExactlyAtLimit(c: Config, t: Table)
    requires Bounded(t)
    ensures var limit := (|t.buckets| as real / 1.4).Floor;
            && (NeedsGrowth(t) <==> t.buckets == [] || t.count == limit - 1)
            && Grow(c, t).Some?
            && |Grow(c, t).value.buckets| ==
                 (if t.buckets == [] then 32 else if t.count == limit - 1 then 2 * |t.buckets| else |t.buckets|)
  {
    LoadLimitTruncates(|t.buckets|);
    GrowSucceeds(c, t);
  }

  /** Growing, when it is due, never fails and leaves room for one more document. */
  lemma GrowSucceeds(c: Config, t: Table)
    requires Bounded(t)
    ensures var r := Grow(c, t);
            && r.Some? && Bounded(r.value)
            && t.count + 2 <= LoadLimit(|r.value.buckets|)
            && (Roomy(t) ==> Roomy(r.value))
            && (!NeedsGrowth(t) ==> r.value == t)
            && |r.value.buckets| == if NeedsGrowth(t) then GrownCount(|t.buckets|) else |t.buckets|
  {
    if NeedsGrowth(t) {
      GrownCountOk(t);
      RehashSucceeds(c, t.slots, t.count, GrownCount(|t.buckets|));
    }
  }

  /** Where an insertion ends at a free bucket, a new document is filed. */
  lemma PlaceFiles(c: Config, v: Variant, g: Table, doc: Bytes, j: nat)
    requires g.buckets != [] && g.count <= |g.slots|
    requires PutBucket(c, v, g.buckets, g.slots, c.key(doc)) == Some(j) && !Live(g.buckets[j])
    ensures Place(c, v, g, doc) ==
              (Table(g.buckets[j := Bucket(c.hash(c.key(doc)), g.count)], WriteAt(g.slots, g.count, doc), g.count + 1),
               Some(g.count))
    ensures Place(c, v, g, doc).0.Docs() == g.Docs() + [doc]
  {
  }

  lemma PlaceFilesBounded(c: Config, v: Variant, g: Table, doc: Bytes, j: nat)
    requires Bounded(g) && g.buckets != [] && g.count + 2 <= LoadLimit(|g.buckets|)
    requires PutBucket(c, v, g.buckets, g.slots, c.key(doc)) == Some(j) && !Live(g.buckets[j])
    ensures var t' := Place(c, v, g, doc).0; Bounded(t') && (Roomy(g) ==> Roomy(t'))
  {
    PlaceFiles(c, v, g, doc, j);
    LiveCountWrite(g.buckets, j, Bucket(c.hash(c.key(doc)), g.count));
  }

  /** Filing a document in a table with room for it keeps the bounds and succeeds if a bucket is left. */
  lemma PlaceBounded(c: Config, v: Variant, g: Table, doc: Bytes)
    requires Bounded(g) && g.buckets != [] && g.count + 2 <= LoadLimit(|g.buckets|)
    ensures var (t', slot) := Place(c, v, g, doc);
            && Bounded(t') && |t'.buckets| == |g.buckets| && g.count <= t'.count <= g.count + 1
            && (Roomy(g) ==> Roomy(t') && slot.Some?)
  {
    var k := c.key(doc);
    if Roomy(g) {
      PutBucketExists(c, v, g.buckets, g.slots, k);
    }
    var r := PutBucket(c, v, g.buckets, g.slots, k);
    if r.Some? && !Live(g.buckets[r.value]) {
      PlaceFilesBounded(c, v, g, doc, r.value);
    }
  }

  /** A put into any table, sound or not, keeps the bounds. With no more live buckets than documents
      it never fails, and leaves no more than that. */
  lemma PutBounded(c: Config, v: Variant, t: Table, doc: Bytes)
    requires Bounded(t)
    ensures var (t', slot) := Put(c, v, t, doc);
            && Bounded(t') && t.count <= t'.count <= t.count + 1
            && |t'.buckets| == (if NeedsGrowth(t) then GrownCount(|t.buckets|) else |t.buckets|)
            && (Roomy(t) ==> Roomy(t') && slot.Some?)
  {
    GrowSucceeds(c, t);
    PlaceBounded(c, v, Grow(c, t).value, doc);
  }

  lemma {:induction false} FullCount(b: seq<Bucket>)
    ensures LiveCount(b) <= |b|
    ensures LiveCount(b) == |b| <==> forall i | 0 <= i < |b| :: Live(b[i])
  {
    if b != [] {
      FullCount(b[1..]);
      assert forall i | 0 < i < |b| :: b[i] == b[1..][i - 1];
    }
  }

  lemma {:induction false} FullStops(c: Config, b: seq<Bucket>, slots: seq<Bytes>, k: Bytes, d: nat)
    requires d <= |b| && b != [] && forall i | 0 <= i < |b| :: Live(b[i])
    ensures PutStop(c, b, slots, k, d) == FindStop(c, b, slots, k, d)
    ensures ScanFrom(c, b, slots, k, d, None) == None <==> FindStop(c, b, slots, k, d) == |b|
    decreases |b| - d
  {
    if d < |b| {
      FullStops(c, b, slots, k, d + 1);
    }
  }

  /** A put into any table fails exactly when it does not grow the table, every bucket is live and the
      key is not found. */
  lemma PutFailsExactlyWhenFull(c: Config, v: Variant, t: Table, doc: Bytes)
    requires Bounded(t)
    ensures Put(c, v, t, doc).1 == None <==>
              && !NeedsGrowth(t)
              && LiveCount(t.buckets) == |t.buckets|
              && FindBucket(c, t.buckets, t.slots, c.key(doc)) == None
  {
    var k := c.key(doc);
    FullCount(t.buckets);
    if NeedsGrowth(t) {
      GrownCountOk(t);
      RehashSucceeds(c, t.slots, t.count, GrownCount(|t.buckets|));
      PutBucketExists(c, v, Grow(c, t).value.buckets, t.slots, k);
    } else if LiveCount(t.buckets) < |t.buckets| {
      PutBucketExists(c, v, t.buckets, t.slots, k);
    } else {
      FullStops(c, t.buckets, t.slots, k, 0);
    }
  }

  lemma EvictedBounded(t: Table, i: nat, moved: nat)
    requires Bounded(t) && t.count > 0 && i < |t.buckets| && t.buckets[i].hash != EMPTY && moved < |t.buckets|
    ensures var t' := Evicted(t, i, moved);
            && Bounded(t') && t'.count == t.count - 1 && |t'.buckets| == |t.buckets|
            && (Live(t.buckets[i]) && Roomy(t) ==> Roomy(t'))
  {
    var x := t.buckets[moved].(slot := t.buckets[i].slot);
    var b := t.buckets[moved := x];
    LiveCountWrite(t.buckets, moved, x);
    LiveCountWrite(b, i, b[i].(hash := TOMBSTONE));
  }

  /** A removal from any table keeps the bounds; unless its key's hash is the tombstone mark it
      gives up a live bucket for the document it takes. */
  lemma RemoveBounded(c: Config, t: Table, k: Bytes)
    requires Bounded(t)
    ensures var t' := Remove(c, t, k);
            && Bounded(t') && t'.count <= t.count && |t'.buckets| == |t.buckets|
            && (c.hash(k) != TOMBSTONE && Roomy(t) ==> Roomy(t'))
  {
    var found := FindBucket(c, t.buckets, t.slots, k);
    if found.Some? && t.count > 0 {
      assert t.buckets[found.value].hash != EMPTY;
      EvictedBounded(t, found.value, Successor(c, t, found.value));
    }
  }

  // Insertion into a sound index

  /** Writing a new document's entry over a bucket that is not live, which an insertion can reach
      without passing an empty bucket, indexes one document more. */
  lemma InsertIndexes(c: Config, b: seq<Bucket>, slots: seq<Bytes>, n: nat, e: nat)
    requires n < |slots| && e < |b| && Indexed(c, b, slots, n) && Usable(c, c.key(slots[n]))
    requires forall s | 0 <= s < n :: c.key(slots[s]) != c.key(slots[n])
    requires var home := Home(c.hash(c.key(slots[n])), |b|);
             && !Live(b[At(home, e, |b|)])
             && forall d | 0 <= d < e :: b[At(home, d, |b|)].hash != EMPTY
    ensures var h := c.hash(c.key(slots[n]));
            Indexed(c, b[At(Home(h, |b|), e, |b|) := Bucket(h, n)], slots, n + 1)
  {
    var m, h := |b|, c.hash(c.key(slots[n]));
    var home := Home(h, m);
    var j := At(home, e, m);
    var b' := b[j := Bucket(h, n)];
    var next := n + 1;
    forall i | 0 <= i < m
      ensures BucketOk(c, b', slots, next, i)
    {
      assert BucketOk(c, b, slots, n, i);
      if Live(b'[i]) {
        var home' := Home(b'[i].hash, m);
        forall d | 0 <= d < Dist(home', i, m)
          ensures b'[At(home', d, m)].hash != EMPTY
        {
          if i != j {
            assert b[At(home', d, m)].hash != EMPTY;
          }
        }
      }
    }
    forall s | 0 <= s < n + 1
      ensures Occupied(b', s)
    {
      if s < n {
        assert Occupied(b, s);
        var i :| Holds(b, i, s);
        assert Holds(b', i, s);
      } else {
        assert Holds(b', j, s);
      }
    }
    forall i, i' | 0 <= i < i' < m && Live(b'[i]) && Live(b'[i'])
      ensures b'[i].slot != b'[i'].slot
    {
      assert BucketOk(c, b, slots, n, i) && BucketOk(c, b, slots, n, i');
    }
  }

  ghost predicate NoTombstones(b: seq<Bucket>) {
    forall i | 0 <= i < |b| :: b[i].hash != TOMBSTONE
  }

  /** An index depends only on the documents it indexes. */
  lemma IndexedFrame(c: Config, b: seq<Bucket>, slots: seq<Bytes>, slots': seq<Bytes>, n: nat)
    requires n <= |slots| && n <= |slots'| && slots[..n] == slots'[..n] && Indexed(c, b, slots, n)
    ensures Indexed(c, b, slots', n)
  {
    assert forall s | 0 <= s < n :: slots'[s] == slots'[..n][s] == slots[..n][s] == slots[s];
    forall i | 0 <= i < |b|
      ensures BucketOk(c, b, slots', n, i)
    {
      assert BucketOk(c, b, slots, n, i);
    }
  }

  lemma OverwriteIndexed(c: Config, b: seq<Bucket>, slots: seq<Bytes>, n: nat, s: nat, doc: Bytes)
    requires s < n <= |slots| && c.key(slots[s]) == c.key(doc) && Indexed(c, b, slots, n)
    ensures Indexed(c, b, slots[s := doc], n)
  {
    var slots' := slots[s := doc];
    assert forall t | 0 <= t < n :: c.key(slots'[t]) == c.key(slots[t]);
    forall i | 0 <= i < |b|
      ensures BucketOk(c, b, slots', n, i)
    {
      assert BucketOk(c, b, slots, n, i);
    }
  }

  /** Where an insertion of a key of no indexed document ends, it ends at a bucket that is not live. */
  lemma PutStopFresh(c: Config, b: seq<Bucket>, slots: seq<Bytes>, n: nat, k: Bytes)
    requires n <= |slots| && LiveCount(b) < |b| && Indexed(c, b, slots, n)
    requires forall s | 0 <= s < n :: c.key(slots[s]) != k
    ensures var e := PutStop(c, b, slots, k, 0);
            e < |b| && !Live(b[At(Home(c.hash(k), |b|), e, |b|)])
  {
    PutStopExists(c, b, slots, k);
    var e := PutStop(c, b, slots, k, 0);
    assert BucketOk(c, b, slots, n, At(Home(c.hash(k), |b|), e, |b|));
  }

  // Rehash of distinct documents

  ghost predicate Rehashed(c: Config, slots: seq<Bytes>, n: nat, m: nat)
    requires n <= |slots| && m > 0
  {
    var r := Rehash(c, slots, n, m);
    r.Some? && Indexed(c, r.value, slots, n) && NoTombstones(r.value)
  }

  ghost predicate AllUsable(c: Config, slots: seq<Bytes>, n: nat)
    requires n <= |slots|
  {
    forall s | 0 <= s < n :: Usable(c, c.key(slots[s]))
  }

  lemma RehashStep(c: Config, slots: seq<Bytes>, n: nat, b: seq<Bucket>)
    requires n < |slots| && LiveCount(b) < |b| && DistinctKeys(c, slots, n + 1) && Usable(c, c.key(slots[n]))
    requires Indexed(c, b, slots, n) && NoTombstones(b)
    ensures var k := c.key(slots[n]);
            var j := PutBucket(c, AsCoded, b, slots, k);
            && j.Some? && !Live(b[j.value])
            && Indexed(c, b[j.value := Bucket(c.hash(k), n)], slots, n + 1)
            && NoTombstones(b[j.value := Bucket(c.hash(k), n)])
  {
    var k := c.key(slots[n]);
    PutStopFresh(c, b, slots, n, k);
    InsertIndexes(c, b, slots, n, PutStop(c, b, slots, k, 0));
  }

  lemma RehashNext(c: Config, slots: seq<Bytes>, n: nat, m: nat)
    requires n < |slots| && n < m && DistinctKeys(c, slots, n + 1) && Usable(c, c.key(slots[n]))
    requires Rehashed(c, slots, n, m)
    ensures Rehashed(c, slots, n + 1, m)
  {
    RehashSucceeds(c, slots, n, m);
    RehashStep(c, slots, n, Rehash(c, slots, n, m).value);
  }

  /** Rehashing distinct documents into a larger table never meets a duplicate and indexes each
      document at its unchanged slot. */
  lemma {:induction false} RehashIndexes(c: Config, slots: seq<Bytes>, n: nat, m: nat)
    requires n <= |slots| && n < m && DistinctKeys(c, slots, n) && AllUsable(c, slots, n)
    ensures Rehashed(c, slots, n, m)
  {
    if n > 0 {
      RehashIndexes(c, slots, n - 1, m);
      RehashNext(c, slots, n - 1, m);
    }
  }

  // The map a table stands for

  ghost predicate Represents(c: Config, docs: seq<Bytes>, m: map<Bytes, Bytes>) {
    && (forall s | 0 <= s < |docs| :: c.key(docs[s]) in m && m[c.key(docs[s])] == docs[s])
    && (forall k | k in m :: HasKey(c, docs, k))
  }

  lemma ModelRepresents(c: Config, docs: seq<Bytes>)
    requires DistinctKeys(c, docs, |docs|)
    ensures Represents(c, docs, Model(c, docs))
  {
    forall s | 0 <= s < |docs|
      ensures c.key(docs[s]) in Model(c, docs) && DocOf(c, docs, c.key(docs[s])) == docs[s]
    {
      assert HasKey(c, docs, c.key(docs[s]));
    }
  }

  lemma RepresentsModel(c: Config, docs: seq<Bytes>, m: map<Bytes, Bytes>)
    requires DistinctKeys(c, docs, |docs|) && Represents(c, docs, m)
    ensures m == Model(c, docs)
  {
    var m' := Model(c, docs);
    forall k | k in m
      ensures k in m' && m'[k] == m[k]
    {
      assert HasKey(c, docs, k);
    }
    ModelRepresents(c, docs);
  }

  lemma ModelAppend(c: Config, docs: seq<Bytes>, doc: Bytes)
    requires DistinctKeys(c, docs, |docs|) && !HasKey(c, docs, c.key(doc))
    ensures var docs' := docs + [doc];
            && DistinctKeys(c, docs', |docs'|)
            && Model(c, docs') == Model(c, docs)[c.key(doc) := doc]
            && c.key(doc) !in Model(c, docs)
  {
    var docs' := docs + [doc];
    var m := Model(c, docs);
    ModelRepresents(c, docs);
    assert forall s | 0 <= s < |docs'| :: docs'[s] == if s < |docs| then docs[s] else doc;
    assert forall s | 0 <= s < |docs| :: c.key(docs[s]) != c.key(doc);
    forall k | k in m[c.key(doc) := doc]
      ensures HasKey(c, docs', k)
    {
      if k == c.key(doc) {
        assert docs'[|docs|] == doc;
      } else {
        assert HasKey(c, docs, k);
        var s :| 0 <= s < |docs| && c.key(docs[s]) == k;
        assert c.key(docs'[s]) == k;
      }
    }
    RepresentsModel(c, docs', m[c.key(doc) := doc]);
  }

  lemma ModelOverwrite(c: Config, docs: seq<Bytes>, s: nat, doc: Bytes)
    requires DistinctKeys(c, docs, |docs|) && s < |docs| && c.key(docs[s]) == c.key(doc)
    ensures var docs' := docs[s := doc];
            && DistinctKeys(c, docs', |docs'|)
            && Model(c, docs') == Model(c, docs)[c.key(doc) := doc]
  {
    var docs' := docs[s := doc];
    var m := Model(c, docs);
    ModelRepresents(c, docs);
    assert forall t | 0 <= t < |docs| :: c.key(docs'[t]) == c.key(docs[t]);
    forall k | k in m[c.key(doc) := doc]
      ensures HasKey(c, docs', k)
    {
      assert HasKey(c, docs, k);
      var t :| 0 <= t < |docs| && c.key(docs[t]) == k;
      assert c.key(docs'[t]) == k;
    }
    RepresentsModel(c, docs', m[c.key(doc) := doc]);
  }

  /** Filling the freed slot with the last document forgets exactly the removed key. */
  lemma ModelSwapRemove(c: Config, docs: seq<Bytes>, s: nat)
    requires DistinctKeys(c, docs, |docs|) && s < |docs|
    ensures var last := |docs| - 1;
            var docs' := docs[s := docs[last]][..last];
            && DistinctKeys(c, docs', last)
            && Model(c, docs') == Model(c, docs) - {c.key(docs[s])}
  {
    var last := |docs| - 1;
    var docs' := docs[s := docs[last]][..last];
    var m := Model(c, docs) - {c.key(docs[s])};
    ModelRepresents(c, docs);
    assert forall t | 0 <= t < last :: docs'[t] == if t == s then docs[last] else docs[t];
    forall k | k in m
      ensures HasKey(c, docs', k)
    {
      assert HasKey(c, docs, k);
      var t :| 0 <= t < |docs| && c.key(docs[t]) == k;
      var t' := if t == last then s else t;
      assert c.key(docs'[t']) == k;
    }
    RepresentsModel(c, docs', m);
  }

  lemma {:induction false} ModelSize(c: Config, docs: seq<Bytes>)
    requires DistinctKeys(c, docs, |docs|)
    ensures |Model(c, docs)| == |docs|
  {
    if docs == [] {
      RepresentsModel(c, docs, map[]);
    } else {
      var last := |docs| - 1;
      var prefix := docs[..last];
      ModelSize(c, prefix);
      ModelAppend(c, prefix, docs[last]);
      assert prefix + [docs[last]] == docs;
    }
  }

  // Put

  lemma IndexedUsable(c: Config, b: seq<Bucket>, slots: seq<Bytes>, n: nat)
    requires n <= |slots| && Indexed(c, b, slots, n)
    ensures AllUsable(c, slots, n)
  {
    forall s | 0 <= s < n
      ensures Usable(c, c.key(slots[s]))
    {
      assert Occupied(b, s);
      var i :| Holds(b, i, s);
      assert BucketOk(c, b, slots, n, i);
    }
  }

  /** Growing a sound table, when it is due, leaves a sound table of the same documents, and no
      tombstones. */
  lemma GrowOk(c: Config, t: Table)
    requires TableOk(c, t)
    ensures var r := Grow(c, t);
            && r.Some? && TableOk(c, r.value)
            && t.count + 2 <= LoadLimit(|r.value.buckets|)
            && (NeedsGrowth(t) ==> NoTombstones(r.value.buckets))
            && (!NeedsGrowth(t) ==> r.value == t)
  {
    GrowSucceeds(c, t);
    if NeedsGrowth(t) {
      GrownCountOk(t);
      IndexedUsable(c, t.buckets, t.slots, t.count);
      RehashIndexes(c, t.slots, t.count, GrownCount(|t.buckets|));
    }
  }

  /** Where a put ends: at the key's bucket when it has one, else at a bucket that is not live and
      is reached without passing an empty one. */
  lemma PutBucketCorrect(c: Config, v: Variant, t: Table, k: Bytes)
    requires TableOk(c, t) && LiveCount(t.buckets) < |t.buckets| && c.hash(k) != TOMBSTONE
    requires v.Repaired? || FindBucket(c, t.buckets, t.slots, k) == None || NoTombstonePrecedes(c, t, k)
    ensures var j, found := PutBucket(c, v, t.buckets, t.slots, k), FindBucket(c, t.buckets, t.slots, k);
            && j.Some?
            && (found.Some? ==> j == found)
            && (found.None? ==>
                  && !Live(t.buckets[j.value])
                  && var e := PutStop(c, t.buckets, t.slots, k, 0);
                     e < |t.buckets| && j.value == At(Home(c.hash(k), |t.buckets|), e, |t.buckets|))
  {
    FindCorrect(c, t.buckets, t.slots, t.count, k);
    RepairedPutBucket(c, t.buckets, t.slots, k);
    if FindBucket(c, t.buckets, t.slots, k).Some? {
      var e, p := FindStop(c, t.buckets, t.slots, k, 0), PutStop(c, t.buckets, t.slots, k, 0);
      if v.AsCoded? {
        assert p == e;
      }
    } else {
      PutStopFresh(c, t.buckets, t.slots, t.count, k);
    }
  }

  lemma PlaceOverwrites(c: Config, v: Variant, g: Table, doc: Bytes, j: nat)
    requires TableOk(c, g) && g.buckets != []
    requires PutBucket(c, v, g.buckets, g.slots, c.key(doc)) == Some(j) && Live(g.buckets[j])
    ensures var (t', slot) := Place(c, v, g, doc);
            && t'.count == g.count <= |t'.slots| && Indexed(c, t'.buckets, t'.slots, t'.count)
            && slot.Some? && slot.value < t'.count && t'.Docs()[slot.value] == doc
            && Model(c, t'.Docs()) == Model(c, g.Docs())[c.key(doc) := doc]
  {
    var s := g.buckets[j].slot;
    assert BucketOk(c, g.buckets, g.slots, g.count, j);
    OverwriteIndexed(c, g.buckets, g.slots, g.count, s, doc);
    assert g.slots[s := doc][..g.count] == g.Docs()[s := doc];
    ModelOverwrite(c, g.Docs(), s, doc);
  }

  lemma AppendSlot(slots: seq<Bytes>, n: nat, doc: Bytes)
    requires n <= |slots|
    ensures var slots' := WriteAt(slots, n, doc);
            && n < |slots'| && slots'[n] == doc
            && slots'[..n] == slots[..n] && slots'[..n + 1] == slots[..n] + [doc]
  {
  }

  lemma AppendIndexes(c: Config, b: seq<Bucket>, slots: seq<Bytes>, n: nat, doc: Bytes, e: nat)
    requires n <= |slots| && Indexed(c, b, slots, n)
    requires Usable(c, c.key(doc)) && !HasKey(c, slots[..n], c.key(doc))
    requires e == PutStop(c, b, slots, c.key(doc), 0) < |b| && !Live(b[At(Home(c.hash(c.key(doc)), |b|), e, |b|)])
    ensures var h, slots' := c.hash(c.key(doc)), WriteAt(slots, n, doc);
            n < |slots'| && Indexed(c, b[At(Home(h, |b|), e, |b|) := Bucket(h, n)], slots', n + 1)
  {
    var slots' := WriteAt(slots, n, doc);
    AppendSlot(slots, n, doc);
    forall s | 0 <= s < n
      ensures c.key(slots'[s]) != c.key(doc)
    {
      assert slots'[s] == slots[..n][s];
    }
    IndexedFrame(c, b, slots, slots', n);
    InsertIndexes(c, b, slots', n, e);
  }

  lemma DocsDistinct(c: Config, slots: seq<Bytes>, n: nat)
    requires n <= |slots| && DistinctKeys(c, slots, n)
    ensures DistinctKeys(c, slots[..n], n)
  {
  }

  lemma PlaceAppends(c: Config, v: Variant, g: Table, doc: Bytes, e: nat)
    requires g.count <= |g.slots| && Indexed(c, g.buckets, g.slots, g.count)
    requires Usable(c, c.key(doc)) && !HasKey(c, g.Docs(), c.key(doc))
    requires e == PutStop(c, g.buckets, g.slots, c.key(doc), 0) < |g.buckets|
    requires var j := At(Home(c.hash(c.key(doc)), |g.buckets|), e, |g.buckets|);
             !Live(g.buckets[j]) && PutBucket(c, v, g.buckets, g.slots, c.key(doc)) == Some(j)
    ensures var (t', slot) := Place(c, v, g, doc);
            && slot == Some(g.count) && t'.Docs() == g.Docs() + [doc] && |g.Docs()| == g.count < t'.count
            && t'.count <= |t'.slots| && Indexed(c, t'.buckets, t'.slots, t'.count)
            && Model(c, t'.Docs()) == Model(c, g.Docs())[c.key(doc) := doc]
  {
    PlaceFiles(c, v, g, doc, At(Home(c.hash(c.key(doc)), |g.buckets|), e, |g.buckets|));
    DocsDistinct(c, g.slots, g.count);
    ModelAppend(c, g.Docs(), doc);
    AppendIndexes(c, g.buckets, g.slots, g.count, doc, e);
  }

  lemma NoDocument(c: Config, slots: seq<Bytes>, n: nat, k: Bytes)
    requires n <= |slots| && forall s | 0 <= s < n :: c.key(slots[s]) != k
    ensures !HasKey(c, slots[..n], k)
  {
  }

  lemma PlaceKeys(c: Config, v: Variant, g: Table, doc: Bytes)
    requires g.buckets != [] && NoTombstoneKeys(c, g.slots) && c.hash(c.key(doc)) != TOMBSTONE
    ensures NoTombstoneKeys(c, Place(c, v, g, doc).0.slots)
  {
  }

  lemma PlaceIndexed(c: Config, v: Variant, g: Table, doc: Bytes)
    requires TableOk(c, g) && LiveCount(g.buckets) < |g.buckets| && Usable(c, c.key(doc))
    requires || v.Repaired?
             || FindBucket(c, g.buckets, g.slots, c.key(doc)) == None
             || NoTombstonePrecedes(c, g, c.key(doc))
    ensures var (t', slot) := Place(c, v, g, doc);
            && t'.count <= |t'.slots| && Indexed(c, t'.buckets, t'.slots, t'.count)
            && slot.Some? && slot.value < t'.count && t'.Docs()[slot.value] == doc
            && Model(c, t'.Docs()) == Model(c, g.Docs())[c.key(doc) := doc]
  {
    var k := c.key(doc);
    PutBucketCorrect(c, v, g, k);
    FindCorrect(c, g.buckets, g.slots, g.count, k);
    if FindBucket(c, g.buckets, g.slots, k).Some? {
      PlaceOverwrites(c, v, g, doc, PutBucket(c, v, g.buckets, g.slots, k).value);
    } else {
      NoDocument(c, g.slots, g.count, k);
      PlaceAppends(c, v, g, doc, PutStop(c, g.buckets, g.slots, k, 0));
    }
  }

  lemma PlaceCorrect(c: Config, v: Variant, g: Table, doc: Bytes)
    requires TableOk(c, g) && g.buckets != [] && g.count + 2 <= LoadLimit(|g.buckets|) && Usable(c, c.key(doc))
    requires || v.Repaired?
             || FindBucket(c, g.buckets, g.slots, c.key(doc)) == None
             || NoTombstonePrecedes(c, g, c.key(doc))
    ensures var (t', slot) := Place(c, v, g, doc);
            && TableOk(c, t')
            && slot.Some? && slot.value < t'.count && t'.Docs()[slot.value] == doc
            && Model(c, t'.Docs()) == Model(c, g.Docs())[c.key(doc) := doc]
  {
    PlaceBounded(c, v, g, doc);
    PlaceKeys(c, v, g, doc);
    PlaceIndexed(c, v, g, doc);
  }

  /** Growing drops all tombstones, so a put into a grown table meets none. */
  lemma SafeAfterGrowth(c: Config, t: Table, k: Bytes)
    requires TableOk(c, t) && PutIsSafe(c, AsCoded, t, k) && Grow(c, t).Some?
    ensures var g := Grow(c, t).value; FindBucket(c, g.buckets, g.slots, k) == None || NoTombstonePrecedes(c, g, k)
  {
    GrowOk(c, t);
  }

  /** A safe put never fails, stores the document, keeps the table sound and updates the map. */
  lemma PutCorrect(c: Config, v: Variant, t: Table, doc: Bytes)
    requires TableOk(c, t) && PutIsSafe(c, v, t, c.key(doc))
    ensures var (t', slot) := Put(c, v, t, doc);
            && TableOk(c, t')
            && slot.Some? && slot.value < t'.count && t'.Docs()[slot.value] == doc
            && Model(c, t'.Docs()) == Model(c, t.Docs())[c.key(doc) := doc]
  {
    GrowOk(c, t);
    if v.AsCoded? {
      SafeAfterGrowth(c, t, c.key(doc));
    }
    PlaceCorrect(c, v, Grow(c, t).value, doc);
  }

  /** An as-coded put that meets a tombstone before its key's bucket stores the key a second time. */
  lemma PutBehindTombstone(c: Config, t: Table, doc: Bytes)
    requires TableOk(c, t) && Usable(c, c.key(doc)) && !PutIsSafe(c, AsCoded, t, c.key(doc))
    ensures var t' := Put(c, AsCoded, t, doc).0;
            && t'.Docs() == t.Docs() + [doc] && t'.count == t.count + 1
            && c.key(doc) in Model(c, t.Docs())
            && !DistinctKeys(c, t'.slots, t'.count)
  {
    var k := c.key(doc);
    var m := |t.buckets|;
    var home := Home(c.hash(k), m);
    FindCorrect(c, t.buckets, t.slots, t.count, k);
    var e := FindStop(c, t.buckets, t.slots, k, 0);
    var d :| 0 <= d < e && t.buckets[At(home, d, m)].hash == TOMBSTONE;
    var p := PutStop(c, t.buckets, t.slots, k, 0);
    assert p <= d;
    PlaceFiles(c, AsCoded, t, doc, At(home, p, m));
    var s := t.buckets[FindBucket(c, t.buckets, t.slots, k).value].slot;
    var slots' := WriteAt(t.slots, t.count, doc);
    assert t.Docs()[s] == t.slots[s];
    assert c.key(slots'[s]) == k == c.key(slots'[t.count]);
  }

  /** A put of a key with a reserved hash stores a document that no live bucket points to. */
  lemma PutUnusable(c: Config, v: Variant, t: Table, doc: Bytes)
    requires TableOk(c, t) && !Usable(c, c.key(doc))
    ensures var t' := Put(c, v, t, doc).0;
            && t'.Docs() == t.Docs() + [doc] && t'.count == t.count + 1
            && !Occupied(t'.buckets, t.count)
  {
    GrowOk(c, t);
    var g := Grow(c, t).value;
    PutBucketExists(c, v, g.buckets, g.slots, c.key(doc));
    var j := PutBucket(c, v, g.buckets, g.slots, c.key(doc)).value;
    PlaceFiles(c, v, g, doc, j);
    var b := Put(c, v, t, doc).0.buckets;
    forall i | 0 <= i < |b|
      ensures !Holds(b, i, t.count)
    {
      if i != j {
        assert BucketOk(c, g.buckets, g.slots, g.count, i);
      }
    }
  }

  /** Exactly the safe puts keep the table a map, and for a usable key exactly those do what the
      repaired put does. */
  lemma PutKeepsTableExactlyWhenSafe(c: Config, v: Variant, t: Table, doc: Bytes)
    requires TableOk(c, t)
    ensures TableOk(c, Put(c, v, t, doc).0) <==> PutIsSafe(c, v, t, c.key(doc))
    ensures Usable(c, c.key(doc)) ==>
              (Put(c, AsCoded, t, doc) == Put(c, Repaired, t, doc) <==> PutIsSafe(c, AsCoded, t, c.key(doc)))
  {
    var k := c.key(doc);
    if !Usable(c, k) {
      PutUnusable(c, v, t, doc);
      assert !Occupied(Put(c, v, t, doc).0.buckets, t.count);
    } else {
      PutCorrect(c, Repaired, t, doc);
      if PutIsSafe(c, AsCoded, t, k) {
        PutCorrect(c, AsCoded, t, doc);
        SafePutsAgree(c, t, doc);
      } else {
        PutBehindTombstone(c, t, doc);
      }
    }
  }

  lemma SafePutsAgree(c: Config, t: Table, doc: Bytes)
    requires TableOk(c, t) && PutIsSafe(c, AsCoded, t, c.key(doc))
    ensures Put(c, AsCoded, t, doc) == Put(c, Repaired, t, doc)
  {
    GrowOk(c, t);
    var g := Grow(c, t).value;
    SafeAfterGrowth(c, t, c.key(doc));
    PutBucketCorrect(c, AsCoded, g, c.key(doc));
    PutBucketCorrect(c, Repaired, g, c.key(doc));
  }

  // Remove

  /** What a removal of bucket `i` changes, given the bucket `j` of the last document. */
  ghost predicate Removal(t: Table, i: nat, j: nat, t': Table)
    requires t.count <= |t.slots|
  {
    && i < |t.buckets| && Live(t.buckets[i]) && t.buckets[i].slot < t.count
    && Holds(t.buckets, j, t.count - 1)
    && |t'.buckets| == |t.buckets| && t'.count == t.count - 1 && |t'.slots| == |t.slots|
    && t'.buckets[i].hash == TOMBSTONE
    && (j != i ==> t'.buckets[j] == t.buckets[j].(slot := t.buckets[i].slot))
    && (forall x | 0 <= x < |t.buckets| && x != i && x != j :: t'.buckets[x] == t.buckets[x])
    && (forall u | 0 <= u < t'.count :: t'.slots[u] == t.slots[if u == t.buckets[i].slot then t.count - 1 else u])
  }

  lemma RemovalBucketOk(c: Config, t: Table, i: nat, j: nat, t': Table, x: nat)
    requires t.count <= |t.slots| && Indexed(c, t.buckets, t.slots, t.count) && Removal(t, i, j, t') && x < |t.buckets|
    ensures BucketOk(c, t'.buckets, t'.slots, t'.count, x)
  {
    assert BucketOk(c, t.buckets, t.slots, t.count, x);
    if Live(t'.buckets[x]) {
      assert t.buckets[x].slot != t.buckets[i].slot;
      RemoveKeepsPaths(t.buckets, t'.buckets, i, x);
    }
  }

  lemma RemovalOccupied(c: Config, t: Table, i: nat, j: nat, t': Table, u: nat)
    requires t.count <= |t.slots| && Indexed(c, t.buckets, t.slots, t.count) && Removal(t, i, j, t') && u < t'.count
    ensures Occupied(t'.buckets, u)
  {
    if u == t.buckets[i].slot {
      assert Holds(t'.buckets, j, u);
    } else {
      assert Occupied(t.buckets, u);
      var x :| Holds(t.buckets, x, u);
      assert Holds(t'.buckets, x, u);
    }
  }

  /** Redirecting the moved document's bucket and leaving a tombstone keeps the bijection, the
      stored hashes and every probe path. */
  lemma RemovalIndexed(c: Config, t: Table, i: nat, j: nat, t': Table)
    requires t.count <= |t.slots| && Indexed(c, t.buckets, t.slots, t.count) && Removal(t, i, j, t')
    requires DistinctKeys(c, t'.slots, t'.count)
    ensures Indexed(c, t'.buckets, t'.slots, t'.count)
  {
    var b', slots', n' := t'.buckets, t'.slots, t'.count;
    forall x | 0 <= x < |b'|
      ensures BucketOk(c, b', slots', n', x)
    {
      RemovalBucketOk(c, t, i, j, t', x);
    }
    forall u | 0 <= u < n'
      ensures Occupied(b', u)
    {
      RemovalOccupied(c, t, i, j, t', u);
    }
  }

  lemma EvictedDocs(c: Config, t: Table, i: nat, j: nat)
    requires 0 < t.count <= |t.slots| && DistinctKeys(c, t.slots, t.count)
    requires i < |t.buckets| && t.buckets[i].slot < t.count && j < |t.buckets|
    ensures var t' := Evicted(t, i, j);
            && DistinctKeys(c, t'.slots, t'.count)
            && Model(c, t'.Docs()) == Model(c, t.Docs()) - {c.key(t.slots[t.buckets[i].slot])}
  {
    var s, last := t.buckets[i].slot, t.count - 1;
    var t' := Evicted(t, i, j);
    ModelSwapRemove(c, t.Docs(), s);
    assert t'.Docs() == t.Docs()[s := t.Docs()[last]][..last];
    assert forall u | 0 <= u < last :: t'.slots[u] == t'.Docs()[u];
  }

  lemma EvictedOk(c: Config, t: Table, i: nat, j: nat)
    requires TableOk(c, t) && i < |t.buckets| && Live(t.buckets[i]) && t.buckets[i].slot < t.count
    requires Holds(t.buckets, j, t.count - 1)
    ensures var t' := Evicted(t, i, j);
            && TableOk(c, t')
            && Model(c, t'.Docs()) == Model(c, t.Docs()) - {c.key(t.slots[t.buckets[i].slot])}
  {
    EvictedBounded(t, i, j);
    EvictedDocs(c, t, i, j);
    RemovalIndexed(c, t, i, j, Evicted(t, i, j));
  }

  lemma RemoveKeepsPaths(b: seq<Bucket>, b': seq<Bucket>, i: nat, x: nat)
    requires |b'| == |b| && i < |b| && x < |b| && x != i && b'[i].hash == TOMBSTONE
    requires forall y | 0 <= y < |b| :: y != i ==> b'[y].hash == b[y].hash
    requires Reachable(b, x)
    ensures Reachable(b', x)
  {
    var m := |b|;
    var home := Home(b[x].hash, m);
    forall d | 0 <= d < Dist(home, x, m)
      ensures b'[At(home, d, m)].hash != EMPTY
    {
      assert b[At(home, d, m)].hash != EMPTY;
    }
  }

  /** The buckets that a removal reads and writes: the key's own, and the moved document's. */
  lemma RemoveUnfolds(c: Config, t: Table, k: Bytes, i: nat)
    requires TableOk(c, t) && FindBucket(c, t.buckets, t.slots, k) == Some(i)
    ensures && t.count > 0 && Live(t.buckets[i])
            && t.buckets[i].slot < t.count && c.key(t.slots[t.buckets[i].slot]) == k
            && FindBucket(c, t.buckets, t.slots, c.key(t.slots[t.count - 1])).Some?
            && Holds(t.buckets, Successor(c, t, i), t.count - 1)
  {
    FindCorrect(c, t.buckets, t.slots, t.count, k);
    FindHolder(c, t.buckets, t.slots, t.count, t.count - 1);
  }

  /** A removal forgets exactly its key and keeps the table sound. */
  lemma RemoveCorrect(c: Config, t: Table, k: Bytes)
    requires TableOk(c, t)
    ensures var t' := Remove(c, t, k);
            && TableOk(c, t')
            && Model(c, t'.Docs()) == Model(c, t.Docs()) - {k}
  {
    FindCorrect(c, t.buckets, t.slots, t.count, k);
    var found := FindBucket(c, t.buckets, t.slots, k);
    if found.Some? {
      RemoveUnfolds(c, t, k, found.value);
      EvictedOk(c, t, found.value, Successor(c, t, found.value));
    } else {
      NoDocument(c, t.slots, t.count, k);
    }
  }

  lemma FindIsLookup(c: Config, t: Table, k: Bytes)
    requires TableOk(c, t)
    ensures var m := Model(c, t.Docs());
            Find(c, t, k) == if k in m then Some(m[k]) else None
  {
    FindCorrect(c, t.buckets, t.slots, t.count, k);
    var found := FindBucket(c, t.buckets, t.slots, k);
    if found.Some? {
      assert t.Docs()[t.buckets[found.value].slot] == t.slots[t.buckets[found.value].slot];
      ModelRepresents(c, t.Docs());
    } else {
      NoDocument(c, t.slots, t.count, k);
    }
  }
}

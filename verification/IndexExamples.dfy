/** Runs in which the index, as coded, is no finite map: an overwrite behind a tombstone, and keys
    whose hash is one of the two reserved values. */
module IndexExamples {
  import opened Wrappers
  import opened ByteStrings
  import opened HashIndex
  import opened HashIndexLaws
  import opened IndexRuns

  const M := FIRST_BUCKET_COUNT

  function Blank(): (b: seq<Bucket>)
    ensures |b| == M
  {
    seq(M, _ => Bucket(EMPTY, 0))
  }

  lemma {:induction false} RunAppend(c: Config, v: Variant, t: Table, a: seq<Op>, b: seq<Op>)
    ensures var (t', outs) := Run(c, v, t, a);
            Run(c, v, t, a + b) == (Run(c, v, t', b).0, outs + Run(c, v, t', b).1)
    decreases |a|
  {
    if a == [] {
      assert a + b == b && [] + Run(c, v, t, b).1 == Run(c, v, t, b).1;
    } else {
      assert (a + b)[1..] == a[1..] + b;
      var (t1, out) := Apply(c, v, t, a[0]);
      RunAppend(c, v, t1, a[1..], b);
      var (t', outs) := Run(c, v, t1, a[1..]);
      assert [out] + (outs + Run(c, v, t', b).1) == [out] + outs + Run(c, v, t', b).1;
    }
  }

  lemma RunOne(c: Config, v: Variant, t: Table, op: Op)
    ensures Run(c, v, t, [op]) == (Apply(c, v, t, op).0, [Apply(c, v, t, op).1])
  {
    var (t', out) := Apply(c, v, t, op);
    assert [op][1..] == [] && [out] + [] == [out];
  }

  /** The operations lead from table to table. */
  predicate Leads(c: Config, ts: seq<Table>, ops: seq<Op>) {
    && |ts| == |ops| + 1
    && forall i | 0 <= i < |ops| :: ts[i + 1] == Apply(c, AsCoded, ts[i], ops[i]).0
  }

  lemma {:induction false} LeadsTo(c: Config, ts: seq<Table>, ops: seq<Op>)
    requires Leads(c, ts, ops)
    ensures Run(c, AsCoded, ts[0], ops).0 == ts[|ops|]
    decreases |ops|
  {
    if ops != [] {
      assert forall i | 0 <= i < |ops| - 1 :: ts[1..][i + 1] == ts[i + 2] && ops[1..][i] == ops[i + 1];
      LeadsTo(c, ts[1..], ops[1..]);
    }
  }

  // 1. A removed key comes back.

  /** Documents of one collection, the second and third under the same key, whose hash shares its
      home with that of the first one's key. */
  predicate Clash(c: Config, x: Bytes, a: Bytes, a': Bytes) {
    && |x| == |a| == |a'|
    && c.key(a) == c.key(a') != c.key(x)
    && Usable(c, c.key(x)) && Usable(c, c.key(a))
    && Home(c.hash(c.key(x)), M) == Home(c.hash(c.key(a)), M)
  }

  function ClashingOps(c: Config, x: Bytes, a: Bytes, a': Bytes): seq<Op> {
    [PutOp(x), PutOp(a), RemoveOp(c.key(x)), PutOp(a'), RemoveOp(c.key(a))]
  }

  /** A bucket array with entries at `home` and the bucket after it only. */
  function TwoBuckets(home: nat, first: Bucket, second: Bucket): (b: seq<Bucket>)
    requires home < M
    ensures |b| == M && b[home] == first && b[At(home, 1, M)] == second
  {
    Blank()[home := first][At(home, 1, M) := second]
  }

  lemma OverwriteBoth(home: nat, a: Bucket, b: Bucket, a': Bucket, b': Bucket)
    requires home < M
    ensures TwoBuckets(home, a, b)[home := a'] == TwoBuckets(home, a', b)
    ensures TwoBuckets(home, a, b)[At(home, 1, M) := b'] == TwoBuckets(home, a, b')
    ensures TwoBuckets(home, a, Bucket(EMPTY, 0)) == Blank()[home := a]
  {
  }

  lemma FirstPut(c: Config, x: Bytes)
    ensures var h := c.hash(c.key(x));
            Put(c, AsCoded, EMPTY_TABLE, x).0
            == Table(TwoBuckets(Home(h, M), Bucket(h, 0), Bucket(EMPTY, 0)), [x], 1)
  {
    var h := c.hash(c.key(x));
    assert PutStop(c, Blank(), [], c.key(x), 0) == 0;
    OverwriteBoth(Home(h, M), Bucket(EMPTY, 0), Bucket(EMPTY, 0), Bucket(h, 0), Bucket(EMPTY, 0));
  }

  lemma SecondPut(c: Config, x: Bytes, a: Bytes)
    requires Clash(c, x, a, a)
    ensures var hx, h := c.hash(c.key(x)), c.hash(c.key(a));
            Put(c, AsCoded, Table(TwoBuckets(Home(h, M), Bucket(hx, 0), Bucket(EMPTY, 0)), [x], 1), a).0
            == Table(TwoBuckets(Home(h, M), Bucket(hx, 0), Bucket(h, 1)), [x, a], 2)
  {
    var hx, h := c.hash(c.key(x)), c.hash(c.key(a));
    var b := TwoBuckets(Home(h, M), Bucket(hx, 0), Bucket(EMPTY, 0));
    assert At(Home(h, M), 0, M) == Home(h, M);
    assert PutStop(c, b, [x], c.key(a), 1) == 1;
    OverwriteBoth(Home(h, M), Bucket(hx, 0), Bucket(EMPTY, 0), Bucket(hx, 0), Bucket(h, 1));
  }

  lemma FirstRemoved(c: Config, x: Bytes, a: Bytes)
    requires Clash(c, x, a, a)
    ensures var hx, h := c.hash(c.key(x)), c.hash(c.key(a));
            Remove(c, Table(TwoBuckets(Home(h, M), Bucket(hx, 0), Bucket(h, 1)), [x, a], 2), c.key(x))
            == Table(TwoBuckets(Home(h, M), Bucket(TOMBSTONE, 0), Bucket(h, 0)), [a, a], 1)
  {
    var hx, h := c.hash(c.key(x)), c.hash(c.key(a));
    var home := Home(h, M);
    var t := Table(TwoBuckets(home, Bucket(hx, 0), Bucket(h, 1)), [x, a], 2);
    assert At(home, 0, M) == home;
    assert FindBucket(c, t.buckets, t.slots, c.key(x)) == Some(home);
    assert FindStop(c, t.buckets, t.slots, c.key(a), 1) == 1;
    assert FindBucket(c, t.buckets, t.slots, c.key(a)) == Some(At(home, 1, M));
    OverwriteBoth(home, Bucket(hx, 0), Bucket(h, 1), Bucket(hx, 0), Bucket(h, 0));
    OverwriteBoth(home, Bucket(hx, 0), Bucket(h, 0), Bucket(TOMBSTONE, 0), Bucket(h, 0));
  }

  lemma StoredTwice(c: Config, a: Bytes, a': Bytes)
    requires c.key(a) == c.key(a') && Usable(c, c.key(a))
    ensures var h := c.hash(c.key(a));
            Put(c, AsCoded, Table(TwoBuckets(Home(h, M), Bucket(TOMBSTONE, 0), Bucket(h, 0)), [a, a], 1), a').0
            == Table(TwoBuckets(Home(h, M), Bucket(h, 1), Bucket(h, 0)), [a, a'], 2)
  {
    var h := c.hash(c.key(a));
    var b := TwoBuckets(Home(h, M), Bucket(TOMBSTONE, 0), Bucket(h, 0));
    assert At(Home(h, M), 0, M) == Home(h, M);
    assert PutStop(c, b, [a, a], c.key(a), 0) == 0;
    OverwriteBoth(Home(h, M), Bucket(TOMBSTONE, 0), Bucket(h, 0), Bucket(h, 1), Bucket(h, 0));
  }

  lemma OneCopyRemoved(c: Config, a: Bytes, a': Bytes)
    requires c.key(a) == c.key(a') && Usable(c, c.key(a))
    ensures var h := c.hash(c.key(a));
            var t := Remove(c, Table(TwoBuckets(Home(h, M), Bucket(h, 1), Bucket(h, 0)), [a, a'], 2), c.key(a));
            Find(c, t, c.key(a)) == Some(a)
  {
    var h, k := c.hash(c.key(a)), c.key(a);
    var home := Home(h, M);
    var t := Table(TwoBuckets(home, Bucket(h, 1), Bucket(h, 0)), [a, a'], 2);
    assert At(home, 0, M) == home;
    assert FindBucket(c, t.buckets, t.slots, k) == Some(home);
    OverwriteBoth(home, Bucket(h, 1), Bucket(h, 0), Bucket(h, 1), Bucket(h, 0));
    OverwriteBoth(home, Bucket(h, 1), Bucket(h, 0), Bucket(TOMBSTONE, 1), Bucket(h, 0));
    var b := TwoBuckets(home, Bucket(TOMBSTONE, 1), Bucket(h, 0));
    assert Remove(c, t, k) == Table(b, [a, a'], 1);
    assert FindStop(c, b, [a, a'], k, 1) == 1;
    assert FindBucket(c, b, [a, a'], k) == Some(At(home, 1, M));
  }

  lemma ClashingMap(c: Config, x: Bytes, a: Bytes, a': Bytes)
    requires c.key(a) == c.key(a')
    ensures c.key(a) !in RunOnMap(c, map[], ClashingOps(c, x, a, a')).0
  {
    var ops := ClashingOps(c, x, a, a');
    RunOnMapSnoc(c, map[], ops[..4], ops[4]);
    assert ops == ops[..4] + [ops[4]];
  }

  lemma ClashingRun(c: Config, x: Bytes, a: Bytes, a': Bytes)
    requires Clash(c, x, a, a')
    ensures var h := c.hash(c.key(a));
            Run(c, AsCoded, EMPTY_TABLE, ClashingOps(c, x, a, a')).0
            == Remove(c, Table(TwoBuckets(Home(h, M), Bucket(h, 1), Bucket(h, 0)), [a, a'], 2), c.key(a))
  {
    var hx, h := c.hash(c.key(x)), c.hash(c.key(a));
    var home, none := Home(h, M), Bucket(EMPTY, 0);
    var t1 := Table(TwoBuckets(home, Bucket(hx, 0), none), [x], 1);
    var t2 := Table(TwoBuckets(home, Bucket(hx, 0), Bucket(h, 1)), [x, a], 2);
    var t3 := Table(TwoBuckets(home, Bucket(TOMBSTONE, 0), Bucket(h, 0)), [a, a], 1);
    var t4 := Table(TwoBuckets(home, Bucket(h, 1), Bucket(h, 0)), [a, a'], 2);
    assert t1 == Put(c, AsCoded, EMPTY_TABLE, x).0 by { FirstPut(c, x); }
    assert t2 == Put(c, AsCoded, t1, a).0 by { SecondPut(c, x, a); }
    assert t3 == Remove(c, t2, c.key(x)) by { FirstRemoved(c, x, a); }
    assert t4 == Put(c, AsCoded, t3, a').0 by { StoredTwice(c, a, a'); }
    FiveSteps(c, ClashingOps(c, x, a, a'), EMPTY_TABLE, t1, t2, t3, t4);
  }

  lemma FiveSteps(c: Config, ops: seq<Op>, t0: Table, t1: Table, t2: Table, t3: Table, t4: Table)
    requires |ops| == 5
    requires t1 == Apply(c, AsCoded, t0, ops[0]).0 && t2 == Apply(c, AsCoded, t1, ops[1]).0
    requires t3 == Apply(c, AsCoded, t2, ops[2]).0 && t4 == Apply(c, AsCoded, t3, ops[3]).0
    ensures Run(c, AsCoded, t0, ops).0 == Apply(c, AsCoded, t4, ops[4]).0
  {
    LeadsTo(c, [t0, t1, t2, t3, t4, Apply(c, AsCoded, t4, ops[4]).0], ops);
  }

  /** Two keys share a home. Overwriting the second after removing the first stores it twice, and
      removing it afterwards brings the overwritten document back. */
  lemma RemovedKeyComesBack(c: Config, x: Bytes, a: Bytes, a': Bytes)
    requires Clash(c, x, a, a')
    ensures var ops := ClashingOps(c, x, a, a');
            && Find(c, Run(c, AsCoded, EMPTY_TABLE, ops).0, c.key(a)) == Some(a)
            && LastPut(c, ops, c.key(a)) == None
            && c.key(a) !in RunOnMap(c, map[], ops).0
  {
    ClashingRun(c, x, a, a');
    OneCopyRemoved(c, a, a');
    ClashingMap(c, x, a, a');
  }

  /** Documents of a 32-bit key and one more byte, and the identity as the hash. */
  const IDENTITY := Config((d: Bytes) => if |d| < 4 then d else d[..4], (k: Bytes) => if |k| < 4 then 1 else U32At(k))

  /** Keys 1 and 33 are an instance. */
  lemma KeysOneAndThirtyThreeClash()
    ensures Clash(IDENTITY, [1, 0, 0, 0, 7], [33, 0, 0, 0, 8], [33, 0, 0, 0, 9])
  {
    assert IDENTITY.key([1, 0, 0, 0, 7]) == [1, 0, 0, 0];
    assert IDENTITY.key([33, 0, 0, 0, 8]) == [33, 0, 0, 0] == IDENTITY.key([33, 0, 0, 0, 9]);
  }

  // 2. A key whose hash is zero is lost.

  /** Whatever came before, a document put under a key whose hash is zero is not found. */
  lemma ZeroHashLost(c: Config, v: Variant, ops: seq<Op>, doc: Bytes)
    requires c.hash(c.key(doc)) == 0
    ensures var ops' := ops + [PutOp(doc)];
            Find(c, Run(c, v, EMPTY_TABLE, ops').0, c.key(doc)) == None && LastPut(c, ops', c.key(doc)) == Some(doc)
  {
    ZeroHashNeverFound(c, Run(c, v, EMPTY_TABLE, ops + [PutOp(doc)]).0, c.key(doc));
    assert (ops + [PutOp(doc)])[|ops|] == PutOp(doc);
  }

  /** Key 0 under the identity is an instance. */
  lemma KeyZeroIsLost()
    ensures IDENTITY.hash(IDENTITY.key([0, 0, 0, 0, 7])) == 0
  {
    assert IDENTITY.key([0, 0, 0, 0, 7]) == [0, 0, 0, 0];
  }

  // 3. Removing a key whose hash is the tombstone mark takes other documents with it, until a put fails.

  /** One-byte documents that are their own keys; 255 has the hash that marks tombstones, and all
      others share a home. */
  const MARKED := Config((d: Bytes) => d, (k: Bytes) => if k == [255] then 0xFFFF_FFFF_FFFF_FFFF else 32)

  function Cycle(x: byte): seq<Op> {
    [PutOp([x]), PutOp([255]), RemoveOp([255]), RemoveOp([255])]
  }

  function Cycles(n: nat): seq<Op>
    requires n <= 31
  {
    if n == 0 then [] else Cycles(n - 1) + Cycle(n - 1)
  }

  /** `n` live buckets that all point at slot 1, and `mark` in the last bucket. */
  function Filled(n: nat, mark: Bucket): (b: seq<Bucket>)
    requires n <= 31
    ensures |b| == M
  {
    seq(M, i => if i < n then Bucket(32, 1) else if i == 31 then mark else Bucket(EMPTY, 0))
  }

  const MARK := Bucket(TOMBSTONE, 1)

  function AfterCycles(n: nat): Table
    requires n <= 31
  {
    if n == 0 then EMPTY_TABLE else Table(Filled(n, MARK), [[n - 1], [n - 1]], 0)
  }

  lemma {:induction false} PutWalks(b: seq<Bucket>, slots: seq<Bytes>, x: byte, n: nat, d: nat)
    requires |b| == M && d <= n <= M && x != 255 && (|slots| > 1 ==> slots[1] != [x])
    requires forall i | 0 <= i < n :: b[i].hash == 32 && !Matches(MARKED, b[i], slots, [x])
    requires n < M ==> !Live(b[n])
    ensures PutStop(MARKED, b, slots, [x], d) == n
    decreases n - d
  {
    if d < n {
      PutWalks(b, slots, x, n, d + 1);
    }
  }

  lemma {:induction false} FindWalks(b: seq<Bucket>, slots: seq<Bytes>, x: byte, n: nat, d: nat)
    requires |b| == M && d <= n < M && x != 255 && |slots| > 1 && slots[0] == [x] && slots[1] != [x]
    requires (forall i | 0 <= i < n :: b[i] == Bucket(32, 1)) && b[n] == Bucket(32, 0)
    ensures FindStop(MARKED, b, slots, [x], d) == n
    decreases n - d
  {
    if d < n {
      FindWalks(b, slots, x, n, d + 1);
    }
  }

  lemma PutNext(n: nat)
    requires n < 31
    ensures var t := Put(MARKED, AsCoded, AfterCycles(n), [n]).0;
            && t.buckets == Filled(n, if n == 0 then Bucket(EMPTY, 0) else MARK)[n := Bucket(32, 0)]
            && t.slots == (if n == 0 then [[n]] else [[n], [n - 1]]) && t.count == 1
  {
    if n == 0 {
      assert Rehash(MARKED, [], 0, M) == Some(Blank());
      assert Filled(0, Bucket(EMPTY, 0)) == Blank();
      PutWalks(Blank(), [], 0, 0, 0);
    } else {
      PutWalks(Filled(n, MARK), AfterCycles(n).slots, n, n, 0);
    }
  }

  lemma PutMarked(n: nat)
    requires n < 31
    ensures var t := Put(MARKED, AsCoded, AfterCycles(n), [n]).0;
            Put(MARKED, AsCoded, t, [255]).0 == Table(Filled(n, MARK)[n := Bucket(32, 0)], [[n], [255]], 2)
  {
    PutNext(n);
    var t := Put(MARKED, AsCoded, AfterCycles(n), [n]).0;
    assert Home(TOMBSTONE, M) == 31 == At(31, 0, M);
    assert PutStop(MARKED, t.buckets, t.slots, [255], 0) == 0;
    assert t.buckets[31 := MARK] == Filled(n, MARK)[n := Bucket(32, 0)];
  }

  lemma RemoveMarked(n: nat)
    requires n < 31
    ensures var b := Filled(n, MARK)[n := Bucket(32, 0)];
            var t := Remove(MARKED, Table(b, [[n], [255]], 2), [255]);
            && t == Table(b, [[n], [255]], 1)
            && Remove(MARKED, t, [255]) == AfterCycles(n + 1)
  {
    var b := Filled(n, MARK)[n := Bucket(32, 0)];
    var slots: seq<Bytes> := [[n], [255]];
    assert Home(TOMBSTONE, M) == 31 == At(31, 0, M);
    assert FindBucket(MARKED, b, slots, [255]) == Some(31);
    assert b[31 := b[31]] == b;
    FindWalks(b, slots, n, n, 0);
    assert FindBucket(MARKED, b, slots, [n]) == Some(n);
    assert b[n := Bucket(32, 1)][31 := MARK] == Filled(n + 1, MARK);
  }

  lemma FourSteps(c: Config, ops: seq<Op>, t0: Table, t1: Table, t2: Table, t3: Table)
    requires |ops| == 4
    requires t1 == Apply(c, AsCoded, t0, ops[0]).0 && t2 == Apply(c, AsCoded, t1, ops[1]).0
    requires t3 == Apply(c, AsCoded, t2, ops[2]).0
    ensures Run(c, AsCoded, t0, ops).0 == Apply(c, AsCoded, t3, ops[3]).0
  {
    LeadsTo(c, [t0, t1, t2, t3, Apply(c, AsCoded, t3, ops[3]).0], ops);
  }

  lemma CycleGoes(c: Config, x: byte, t: Table, t1: Table, t2: Table, t3: Table)
    requires t1 == Put(c, AsCoded, t, [x]).0 && t2 == Put(c, AsCoded, t1, [255]).0 && t3 == Remove(c, t2, [255])
    ensures Run(c, AsCoded, t, Cycle(x)).0 == Remove(c, t3, [255])
  {
    FourSteps(c, Cycle(x), t, t1, t2, t3);
  }

  lemma CycleRuns(n: nat)
    requires n < 31
    ensures Run(MARKED, AsCoded, AfterCycles(n), Cycle(n)).0 == AfterCycles(n + 1)
  {
    var t1 := Put(MARKED, AsCoded, AfterCycles(n), [n]).0;
    var t2 := Put(MARKED, AsCoded, t1, [255]).0;
    var t3 := Remove(MARKED, t2, [255]);
    PutMarked(n);
    RemoveMarked(n);
    CycleGoes(MARKED, n, AfterCycles(n), t1, t2, t3);
  }

  lemma {:induction false} CyclesRun(n: nat)
    requires n <= 31
    ensures Run(MARKED, AsCoded, EMPTY_TABLE, Cycles(n)).0 == AfterCycles(n)
  {
    if n > 0 {
      CyclesRun(n - 1);
      CycleRuns(n - 1);
      RunAppend(MARKED, AsCoded, EMPTY_TABLE, Cycles(n - 1), Cycle(n - 1));
    }
  }

  lemma RunLast(c: Config, t: Table, ops: seq<Op>, op: Op)
    ensures var t' := Run(c, AsCoded, t, ops).0;
            && Run(c, AsCoded, t, ops + [op]).0 == Apply(c, AsCoded, t', op).0
            && Apply(c, AsCoded, t', op).1 in Run(c, AsCoded, t, ops + [op]).1
  {
    RunAppend(c, AsCoded, t, ops, [op]);
    RunOne(c, AsCoded, Run(c, AsCoded, t, ops).0, op);
  }

  const FULL := Table(Filled(31, MARK)[31 := Bucket(32, 0)], [[31], [30]], 1)

  lemma LastPutFills()
    ensures Put(MARKED, AsCoded, AfterCycles(31), [31]).0 == FULL
  {
    var t := AfterCycles(31);
    PutWalks(t.buckets, t.slots, 31, 31, 0);
    assert PutBucket(MARKED, AsCoded, t.buckets, t.slots, [31]) == Some(31) && !NeedsGrowth(t);
    assert WriteAt(t.slots, 0, [31]) == FULL.slots;
  }

  lemma FullPutFails()
    ensures Put(MARKED, AsCoded, FULL, [32]).1 == None
  {
    PutWalks(FULL.buckets, FULL.slots, 32, M, 0);
  }

  /** 31 rounds of storing a document, storing the marked key and removing it twice leave a full table
      that counts no document; the second put after that fails. */
  lemma PutCanFail()
    ensures Stored(false) in Run(MARKED, AsCoded, EMPTY_TABLE, Cycles(31) + [PutOp([31])] + [PutOp([32])]).1
  {
    CyclesRun(31);
    LastPutFills();
    FullPutFails();
    var ops := Cycles(31) + [PutOp([31])];
    RunLast(MARKED, EMPTY_TABLE, Cycles(31), PutOp([31]));
    RunLast(MARKED, EMPTY_TABLE, ops, PutOp([32]));
  }
}

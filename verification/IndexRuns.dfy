/** Whole runs of put, find and remove on one table: they refine a finite map, and rehashing is paid for by the puts. */
module IndexRuns {
  import opened Wrappers
  import opened ByteStrings
  import opened HashIndex
  import opened HashIndexLaws

  datatype Op = PutOp(doc: Bytes) | FindOp(key: Bytes) | RemoveOp(key: Bytes)

  datatype Out = Stored(ok: bool) | Looked(doc: Option<Bytes>) | Removed

  function Apply(c: Config, v: Variant, t: Table, op: Op): (Table, Out) {
    match op
    case PutOp(doc) => var (t', slot) := Put(c, v, t, doc); (t', Stored(slot.Some?))
    case FindOp(k) => (t, Looked(Find(c, t, k)))
    case RemoveOp(k) => (Remove(c, t, k), Removed)
  }

  function ApplyToMap(c: Config, m: map<Bytes, Bytes>, op: Op): (map<Bytes, Bytes>, Out) {
    match op
    case PutOp(doc) => (m[c.key(doc) := doc], Stored(true))
    case FindOp(k) => (m, Looked(if k in m then Some(m[k]) else None))
    case RemoveOp(k) => (m - {k}, Removed)
  }

  function Run(c: Config, v: Variant, t: Table, ops: seq<Op>): (Table, seq<Out>)
    decreases |ops|
  {
    if ops == [] then (t, [])
    else
      var (t1, out) := Apply(c, v, t, ops[0]);
      var (t2, outs) := Run(c, v, t1, ops[1..]);
      (t2, [out] + outs)
  }

  function RunOnMap(c: Config, m: map<Bytes, Bytes>, ops: seq<Op>): (map<Bytes, Bytes>, seq<Out>)
    decreases |ops|
  {
    if ops == [] then (m, [])
    else
      var (m1, out) := ApplyToMap(c, m, ops[0]);
      var (m2, outs) := RunOnMap(c, m1, ops[1..]);
      (m2, [out] + outs)
  }

  /** Every put of a run is safe in the table it finds. */
  predicate SafeRun(c: Config, v: Variant, t: Table, ops: seq<Op>)
    decreases |ops|
  {
    ops != [] ==>
      && (ops[0].PutOp? ==> PutIsSafe(c, v, t, c.key(ops[0].doc)))
      && SafeRun(c, v, Apply(c, v, t, ops[0]).0, ops[1..])
  }

  /** No put of a run has a key whose hash is reserved. */
  predicate UsableKeys(c: Config, ops: seq<Op>) {
    forall i | 0 <= i < |ops| :: ops[i].PutOp? ==> Usable(c, c.key(ops[i].doc))
  }

  /** With the repaired scan a run is safe whatever the tables it goes through. */
  lemma {:induction false} RepairedRunsAreSafe(c: Config, t: Table, ops: seq<Op>)
    ensures SafeRun(c, Repaired, t, ops) <==> UsableKeys(c, ops)
    decreases |ops|
  {
    if ops != [] {
      RepairedRunsAreSafe(c, Apply(c, Repaired, t, ops[0]).0, ops[1..]);
      assert UsableKeys(c, ops) <==> UsableKeys(c, ops[..1]) && UsableKeys(c, ops[1..]) by {
        assert forall i | 0 < i < |ops| :: ops[i] == ops[1..][i - 1];
      }
    }
  }

  /** Every table of a run, from the first to the last, is sound. */
  ghost predicate SoundThroughout(c: Config, v: Variant, t: Table, ops: seq<Op>)
    decreases |ops|
  {
    && TableOk(c, t)
    && (ops == [] || SoundThroughout(c, v, Apply(c, v, t, ops[0]).0, ops[1..]))
  }

  lemma EmptyTableOk(c: Config)
    ensures TableOk(c, EMPTY_TABLE) && Model(c, []) == map[] && EMPTY_TABLE.Docs() == []
  {
    RepresentsModel(c, [], map[]);
  }

  lemma StepRefines(c: Config, v: Variant, t: Table, op: Op)
    requires TableOk(c, t) && (op.PutOp? ==> PutIsSafe(c, v, t, c.key(op.doc)))
    ensures var (t', out) := Apply(c, v, t, op);
            TableOk(c, t') && (Model(c, t'.Docs()), out) == ApplyToMap(c, Model(c, t.Docs()), op)
  {
    match op
    case PutOp(doc) => PutCorrect(c, v, t, doc);
    case FindOp(k) => FindIsLookup(c, t, k);
    case RemoveOp(k) => RemoveCorrect(c, t, k);
  }

  lemma CountIsMapSize(c: Config, t: Table)
    requires TableOk(c, t)
    ensures t.count == |Model(c, t.Docs())|
  {
    assert forall s | 0 <= s < t.count :: t.Docs()[s] == t.slots[s];
    ModelSize(c, t.Docs());
  }

  /** Over every safe run, the table answers as the finite map does: each lookup returns the document
      last put and not removed, no put fails, and the count is the map's size. With the repaired
      scan every run of usable keys is safe. */
  lemma {:induction false} RunRefinesMap(c: Config, v: Variant, t: Table, ops: seq<Op>)
    requires TableOk(c, t) && SafeRun(c, v, t, ops)
    ensures var (t', outs) := Run(c, v, t, ops);
            && TableOk(c, t')
            && (Model(c, t'.Docs()), outs) == RunOnMap(c, Model(c, t.Docs()), ops)
            && t'.count == |Model(c, t'.Docs())|
    decreases |ops|
  {
    if ops == [] {
      CountIsMapSize(c, t);
    } else {
      StepRefines(c, v, t, ops[0]);
      RunRefinesMap(c, v, Apply(c, v, t, ops[0]).0, ops[1..]);
    }
  }

  /** The document last put under `k` and not removed since, read off the operations alone. */
  function LastPut(c: Config, ops: seq<Op>, k: Bytes): Option<Bytes>
    decreases |ops|
  {
    if ops == [] then None
    else
      var earlier, op := ops[..|ops| - 1], ops[|ops| - 1];
      if op.PutOp? && c.key(op.doc) == k then Some(op.doc)
      else if op == RemoveOp(k) then None
      else LastPut(c, earlier, k)
  }

  lemma {:induction false} RunOnMapSnoc(c: Config, m: map<Bytes, Bytes>, ops: seq<Op>, op: Op)
    ensures RunOnMap(c, m, ops + [op]).0 == ApplyToMap(c, RunOnMap(c, m, ops).0, op).0
    decreases |ops|
  {
    if ops == [] {
      assert [op][1..] == [];
    } else {
      assert (ops + [op])[1..] == ops[1..] + [op];
      RunOnMapSnoc(c, ApplyToMap(c, m, ops[0]).0, ops[1..], op);
    }
  }

  lemma {:induction false} MapHoldsLastPut(c: Config, ops: seq<Op>, k: Bytes)
    ensures var m := RunOnMap(c, map[], ops).0;
            LastPut(c, ops, k) == if k in m then Some(m[k]) else None
    decreases |ops|
  {
    if ops != [] {
      var earlier, op := ops[..|ops| - 1], ops[|ops| - 1];
      assert ops == earlier + [op];
      RunOnMapSnoc(c, map[], earlier, op);
      MapHoldsLastPut(c, earlier, k);
    }
  }

  /** After any safe run on an empty table, a lookup returns exactly the document last put under its key
      and not removed since. */
  lemma FindReturnsLastPut(c: Config, v: Variant, ops: seq<Op>, k: Bytes)
    requires SafeRun(c, v, EMPTY_TABLE, ops)
    ensures Find(c, Run(c, v, EMPTY_TABLE, ops).0, k) == LastPut(c, ops, k)
  {
    EmptyTableOk(c);
    RunRefinesMap(c, v, EMPTY_TABLE, ops);
    FindIsLookup(c, Run(c, v, EMPTY_TABLE, ops).0, k);
    MapHoldsLastPut(c, ops, k);
  }

  /** A run never leaves the sound tables exactly when all its puts are safe. */
  lemma {:induction false} SoundExactlyWhenSafe(c: Config, v: Variant, t: Table, ops: seq<Op>)
    requires TableOk(c, t)
    ensures SoundThroughout(c, v, t, ops) <==> SafeRun(c, v, t, ops)
    decreases |ops|
  {
    if ops != [] {
      var t' := Apply(c, v, t, ops[0]).0;
      if ops[0].PutOp? {
        PutKeepsTableExactlyWhenSafe(c, v, t, ops[0].doc);
      } else {
        StepRefines(c, v, t, ops[0]);
      }
      if TableOk(c, t') {
        SoundExactlyWhenSafe(c, v, t', ops[1..]);
      }
    }
  }

  /** After each operation of a run, `count()` is the size of the finite map. */
  predicate CountsAgree(c: Config, t: Table, m: map<Bytes, Bytes>, ops: seq<Op>)
    decreases |ops|
  {
    && t.count == |m|
    && (ops == [] || CountsAgree(c, Apply(c, AsCoded, t, ops[0]).0, ApplyToMap(c, m, ops[0]).0, ops[1..]))
  }

  lemma UnsafePutMiscounts(c: Config, t: Table, doc: Bytes)
    requires TableOk(c, t) && Usable(c, c.key(doc)) && !PutIsSafe(c, AsCoded, t, c.key(doc))
    ensures Put(c, AsCoded, t, doc).0.count != |Model(c, t.Docs())[c.key(doc) := doc]|
  {
    PutBehindTombstone(c, t, doc);
    CountIsMapSize(c, t);
  }

  /** What a caller can see: over every as-coded run of usable keys, the count is right after each
      operation exactly when every put is safe. */
  lemma {:induction false} CountsAgreeExactlyWhenSafe(c: Config, t: Table, ops: seq<Op>)
    requires TableOk(c, t) && UsableKeys(c, ops)
    ensures CountsAgree(c, t, Model(c, t.Docs()), ops) <==> SafeRun(c, AsCoded, t, ops)
    decreases |ops|
  {
    CountIsMapSize(c, t);
    if ops != [] {
      if ops[0].PutOp? && !PutIsSafe(c, AsCoded, t, c.key(ops[0].doc)) {
        UnsafePutMiscounts(c, t, ops[0].doc);
      } else {
        StepRefines(c, AsCoded, t, ops[0]);
        assert forall i | 0 <= i < |ops[1..]| :: ops[1..][i] == ops[i + 1];
        CountsAgreeExactlyWhenSafe(c, Apply(c, AsCoded, t, ops[0]).0, ops[1..]);
      }
    }
  }

  // Every run, sound or not

  /** No removal asks for a key that a tombstone could be taken for. */
  predicate NoTombstoneRemoved(c: Config, ops: seq<Op>) {
    forall i | 0 <= i < |ops| :: ops[i].RemoveOp? ==> c.hash(ops[i].key) != TOMBSTONE
  }

  lemma StepBounded(c: Config, v: Variant, t: Table, op: Op)
    requires Bounded(t)
    ensures var (t', out) := Apply(c, v, t, op);
            && Bounded(t')
            && (Roomy(t) && (op.RemoveOp? ==> c.hash(op.key) != TOMBSTONE) ==> Roomy(t') && out != Stored(false))
  {
    match op
    case PutOp(doc) => PutBounded(c, v, t, doc);
    case FindOp(k) =>
    case RemoveOp(k) => RemoveBounded(c, t, k);
  }

  /** No put of any run fails, and no growth does, not even after puts that stored a key twice or
      lost a document: live buckets never outnumber the documents. */
  lemma {:induction false} PutsNeverFail(c: Config, v: Variant, t: Table, ops: seq<Op>)
    requires Bounded(t) && Roomy(t) && NoTombstoneRemoved(c, ops)
    ensures var (t', outs) := Run(c, v, t, ops);
            && Bounded(t') && Roomy(t') && Grow(c, t').Some?
            && Stored(false) !in outs
    decreases |ops|
  {
    if ops == [] {
      GrowSucceeds(c, t);
    } else {
      StepBounded(c, v, t, ops[0]);
      assert forall i | 0 <= i < |ops[1..]| :: ops[1..][i] == ops[i + 1];
      PutsNeverFail(c, v, Apply(c, v, t, ops[0]).0, ops[1..]);
    }
  }

  lemma PutsNeverFailFromEmpty(c: Config, v: Variant, ops: seq<Op>)
    requires NoTombstoneRemoved(c, ops)
    ensures Stored(false) !in Run(c, v, EMPTY_TABLE, ops).1
  {
    PutsNeverFail(c, v, EMPTY_TABLE, ops);
  }

  // The cost of rehashing

  function PutsOf(op: Op): nat {
    if op.PutOp? then 1 else 0
  }

  function ReinsertedBy(t: Table, op: Op): nat {
    if op.PutOp? && NeedsGrowth(t) then t.count else 0
  }

  function Puts(ops: seq<Op>): nat {
    if ops == [] then 0 else PutsOf(ops[0]) + Puts(ops[1..])
  }

  /** How many documents all rehashes of a run insert again. */
  function Reinserted(c: Config, v: Variant, t: Table, ops: seq<Op>): nat
    decreases |ops|
  {
    if ops == [] then 0
    else
      ReinsertedBy(t, ops[0]) + Reinserted(c, v, Apply(c, v, t, ops[0]).0, ops[1..])
  }

  /** After `n` puts that reinserted `r` documents. */
  predicate Paid(t: Table, n: nat, r: nat) {
    var m := |t.buckets|;
    && t.count <= n
    && (m == 0 ==> r == 0)
    && (m > 0 ==> 7 * r <= 5 * (m - FIRST_BUCKET_COUNT))
    && (m > FIRST_BUCKET_COUNT ==> 14 * n >= 5 * m - 12)
  }

  lemma StepPays(c: Config, v: Variant, t: Table, op: Op, n: nat, r: nat)
    requires Bounded(t) && Paid(t, n, r)
    ensures var t' := Apply(c, v, t, op).0; Bounded(t') && Paid(t', n + PutsOf(op), r + ReinsertedBy(t, op))
  {
    match op
    case PutOp(doc) => PutBounded(c, v, t, doc);
    case FindOp(k) =>
    case RemoveOp(k) => RemoveBounded(c, t, k);
  }

  lemma {:induction false} RunPays(c: Config, v: Variant, t: Table, ops: seq<Op>, n: nat, r: nat)
    requires Bounded(t) && Paid(t, n, r)
    ensures Paid(Run(c, v, t, ops).0, n + Puts(ops), r + Reinserted(c, v, t, ops))
    decreases |ops|
  {
    if ops != [] {
      StepPays(c, v, t, ops[0], n, r);
      RunPays(c, v, Apply(c, v, t, ops[0]).0, ops[1..], n + PutsOf(ops[0]), r + ReinsertedBy(t, ops[0]));
    }
  }

  /** In any run with at least one put, all rehashes together insert fewer documents again than
      twice the number of puts. */
  lemma GrowthIsAmortised(c: Config, v: Variant, ops: seq<Op>)
    requires Puts(ops) >= 1
    ensures Reinserted(c, v, EMPTY_TABLE, ops) < 2 * Puts(ops)
  {
    RunPays(c, v, EMPTY_TABLE, ops, 0, 0);
  }
}

/** The hash index as a function of its buckets and documents (db/collection.cpp): which bucket a
    lookup or an insertion ends at, and what put and remove leave behind. */
module HashIndex {
  import opened Wrappers
  import opened ByteStrings
  import opened Bits

  const EMPTY: nat := 0
  const TOMBSTONE: nat := 0xFFFF_FFFF_FFFF_FFFF
  const FIRST_BUCKET_COUNT: nat := 32

  /** `m_key_buffer_fn` and `m_hash_fn`: any functions. */
  datatype Config = Config(key: Bytes -> Bytes, hash: Bytes -> nat)

  /** The key's hash is neither of the two values that mark a bucket as empty or removed. */
  predicate Usable(c: Config, k: Bytes) {
    c.hash(k) != EMPTY && c.hash(k) != TOMBSTONE
  }

  datatype Bucket = Bucket(hash: nat, slot: nat)

  /** `slots` are all document slots ever written: the first `count` hold the documents, the others
      what removals left behind. */
  datatype Table = Table(buckets: seq<Bucket>, slots: seq<Bytes>, count: nat) {
    function Docs(): seq<Bytes> {
      if count <= |slots| then slots[..count] else slots
    }
  }

  const EMPTY_TABLE := Table([], [], 0)

  predicate Live(b: Bucket) {
    b.hash != EMPTY && b.hash != TOMBSTONE
  }

  // Probe paths: `At(home, d, m)` is the bucket visited after `d` steps, `Dist` its inverse.

  function Home(hash: nat, m: nat): (i: nat)
    requires m > 0
    ensures i < m
  {
    hash % m
  }

  function At(home: nat, d: nat, m: nat): (i: nat)
    requires home < m && d < m
    ensures i < m && Dist(home, i, m) == d
  {
    if home + d < m then home + d else home + d - m
  }

  function Dist(home: nat, i: nat, m: nat): (d: nat)
    requires home < m && i < m
    ensures d < m
  {
    if home <= i then i - home else i + m - home
  }

  lemma AtDist(home: nat, i: nat, m: nat)
    requires home < m && i < m
    ensures At(home, Dist(home, i, m), m) == i
  {
  }

  predicate Matches(c: Config, b: Bucket, slots: seq<Bytes>, k: Bytes) {
    b.hash == c.hash(k) && b.slot < |slots| && c.key(slots[b.slot]) == k
  }

  /** How far a lookup of `k` walks from distance `d`: to the first empty or matching bucket, or
      all the way round. */
  function FindStop(c: Config, b: seq<Bucket>, slots: seq<Bytes>, k: Bytes, d: nat): (e: nat)
    requires d <= |b|
    ensures d <= e <= |b|
    ensures forall x | d <= x < e ::
              var p := b[At(Home(c.hash(k), |b|), x, |b|)]; p.hash != EMPTY && !Matches(c, p, slots, k)
    ensures e < |b| ==> var p := b[At(Home(c.hash(k), |b|), e, |b|)]; p.hash == EMPTY || Matches(c, p, slots, k)
    decreases |b| - d
  {
    if d == |b| then d
    else
      var p := b[At(Home(c.hash(k), |b|), d, |b|)];
      if p.hash == EMPTY || Matches(c, p, slots, k) then d else FindStop(c, b, slots, k, d + 1)
  }

  /** How far an insertion of `k` walks from distance `d`: to the first empty, tombstone or matching bucket. */
  function PutStop(c: Config, b: seq<Bucket>, slots: seq<Bytes>, k: Bytes, d: nat): (e: nat)
    requires d <= |b|
    ensures d <= e <= |b|
    ensures forall x | d <= x < e :: var p := b[At(Home(c.hash(k), |b|), x, |b|)]; Live(p) && !Matches(c, p, slots, k)
    ensures e < |b| ==> var p := b[At(Home(c.hash(k), |b|), e, |b|)]; !Live(p) || Matches(c, p, slots, k)
    decreases |b| - d
  {
    if d == |b| then d
    else
      var p := b[At(Home(c.hash(k), |b|), d, |b|)];
      if !Live(p) || Matches(c, p, slots, k) then d else PutStop(c, b, slots, k, d + 1)
  }

  /** The bucket `find_internal` returns. */
  function FindBucket(c: Config, b: seq<Bucket>, slots: seq<Bytes>, k: Bytes): (r: Option<nat>)
    ensures r.Some? ==> r.value < |b| && Matches(c, b[r.value], slots, k)
  {
    if b == [] then None
    else
      var i := FindStop(c, b, slots, k, 0);
      if i == |b| || b[At(Home(c.hash(k), |b|), i, |b|)].hash == EMPTY then None
      else Some(At(Home(c.hash(k), |b|), i, |b|))
  }

  /** The bucket `put_internal` returns: as coded, the first free or matching bucket; repaired, the
      matching bucket if there is one, else the first free bucket passed. */
  function PutBucket(c: Config, v: Variant, b: seq<Bucket>, slots: seq<Bytes>, k: Bytes): (r: Option<nat>)
    requires b != []
    ensures r.Some? ==> r.value < |b| && (!Live(b[r.value]) || Matches(c, b[r.value], slots, k))
  {
    match v
    case AsCoded =>
      var e := PutStop(c, b, slots, k, 0);
      if e == |b| then None else Some(At(Home(c.hash(k), |b|), e, |b|))
    case Repaired => ScanFrom(c, b, slots, k, 0, None)
  }

  /** The repaired probe loop from distance `d` on, having passed the free bucket `free`. */
  function ScanFrom(c: Config, b: seq<Bucket>, slots: seq<Bytes>, k: Bytes, d: nat, free: Option<nat>): (r: Option<nat>)
    requires d <= |b| && (free.Some? ==> free.value < |b| && !Live(b[free.value]))
    ensures r.Some? ==> r.value < |b| && (!Live(b[r.value]) || Matches(c, b[r.value], slots, k))
    decreases |b| - d
  {
    if d == |b| then free
    else
      var i := At(Home(c.hash(k), |b|), d, |b|);
      if b[i].hash == EMPTY then (if free.Some? then free else Some(i))
      else if b[i].hash == TOMBSTONE then ScanFrom(c, b, slots, k, d + 1, if free.Some? then free else Some(i))
      else if Matches(c, b[i], slots, k) then Some(i)
      else ScanFrom(c, b, slots, k, d + 1, free)
  }

  /** The index of the first `n` slots built from scratch over `m` buckets. A document whose key is
      indexed already takes over its bucket, where the source asserts that there is none. */
  function Rehash(c: Config, slots: seq<Bytes>, n: nat, m: nat): (r: Option<seq<Bucket>>)
    requires n <= |slots| && m > 0
    ensures r.Some? ==> |r.value| == m
  {
    if n == 0 then Some(seq(m, _ => Bucket(EMPTY, 0)))
    else
      var prev := Rehash(c, slots, n - 1, m);
      if prev == None then None
      else
        var j := PutBucket(c, AsCoded, prev.value, slots, c.key(slots[n - 1]));
        if j == None then None
        else Some(prev.value[j.value := Bucket(c.hash(c.key(slots[n - 1])), n - 1)])
  }

  /** `size / 1.4`, truncated. */
  function LoadLimit(m: nat): nat {
    5 * m / 7
  }

  predicate NeedsGrowth(t: Table) {
    t.count + 1 >= LoadLimit(|t.buckets|)
  }

  function GrownCount(m: nat): nat {
    if m == 0 then FIRST_BUCKET_COUNT else 2 * m
  }

  function Grow(c: Config, t: Table): (r: Option<Table>)
    ensures r.Some? ==> r.value.buckets != [] && r.value.slots == t.slots && r.value.count == t.count
  {
    if !NeedsGrowth(t) then Some(t)
    else if t.count > |t.slots| then None
    else
      var b := Rehash(c, t.slots, t.count, GrownCount(|t.buckets|));
      if b == None then None else Some(t.(buckets := b.value))
  }

  /** Stores a document in a table with room, and returns its slot unless no bucket is left. The
      slot of the returned bucket decides: the next free slot is a new document's. */
  function Place(c: Config, v: Variant, g: Table, doc: Bytes): (Table, Option<nat>)
    requires g.buckets != []
  {
    var k := c.key(doc);
    match PutBucket(c, v, g.buckets, g.slots, k)
    case None => (g, None)
    case Some(j) =>
      var b := if Live(g.buckets[j]) then g.buckets else g.buckets[j := Bucket(c.hash(k), g.count)];
      var s := b[j].slot;
      (Table(b, WriteAt(g.slots, s, doc), if s == g.count then g.count + 1 else g.count), Some(s))
  }

  /** The table after a put, and the slot of the stored document unless the put failed. */
  function Put(c: Config, v: Variant, t: Table, doc: Bytes): (Table, Option<nat>)
  {
    match Grow(c, t)
    case None => (t, None)
    case Some(g) => Place(c, v, g, doc)
  }

  function Find(c: Config, t: Table, k: Bytes): Option<Bytes> {
    match FindBucket(c, t.buckets, t.slots, k)
    case None => None
    case Some(i) => Some(t.slots[t.buckets[i].slot])
  }

  /** The table after redirecting bucket `moved` to the slot of bucket `i`, moving the last document
      into that slot and leaving a tombstone in bucket `i`. */
  function Evicted(t: Table, i: nat, moved: nat): Table
    requires i < |t.buckets| && moved < |t.buckets| && t.buckets[i].slot < |t.slots| && 0 < t.count <= |t.slots|
  {
    var s, last := t.buckets[i].slot, t.count - 1;
    var b := t.buckets[moved := t.buckets[moved].(slot := s)];
    Table(b[i := b[i].(hash := TOMBSTONE)], t.slots[s := t.slots[last]], last)
  }

  /** The bucket that a removal of bucket `i` redirects: its own when its document is the last. Where
      the source asserts that the last document is found, a failure redirects nothing. */
  function Successor(c: Config, t: Table, i: nat): (moved: nat)
    requires i < |t.buckets| && 0 < t.count <= |t.slots|
    ensures moved < |t.buckets|
  {
    if t.buckets[i].slot == t.count - 1 then i
    else
      match FindBucket(c, t.buckets, t.slots, c.key(t.slots[t.count - 1]))
      case Some(j) => j
      case None => i
  }

  /** Removal moves the last document into the freed slot and redirects its bucket. With nothing
      stored there is nothing to remove. */
  function Remove(c: Config, t: Table, k: Bytes): Table
  {
    match FindBucket(c, t.buckets, t.slots, k)
    case None => t
    case Some(i) => if 0 < t.count <= |t.slots| then Evicted(t, i, Successor(c, t, i)) else t
  }

  // What holds in every table that operations can produce

  predicate SlotsInRange(b: seq<Bucket>, n: nat) {
    forall i | 0 <= i < |b| && b[i].hash != EMPTY :: b[i].slot < n
  }

  ghost predicate Bounded(t: Table) {
    && t.count <= |t.slots|
    && SlotsInRange(t.buckets, |t.slots|)
    && (t.buckets == [] ==> t.count == 0)
    && (t.buckets != [] ==>
          && IsPow2(|t.buckets|) && |t.buckets| >= FIRST_BUCKET_COUNT
          && t.count + 1 <= LoadLimit(|t.buckets|))
  }

  function LiveCount(b: seq<Bucket>): nat {
    if b == [] then 0 else (if Live(b[0]) then 1 else 0) + LiveCount(b[1..])
  }

  /** No more live buckets than documents: what leaves an insertion a free bucket. */
  predicate Roomy(t: Table) {
    LiveCount(t.buckets) <= t.count
  }

  // What makes a table a finite map

  /** No lookup starting at the home of bucket `i` stops before it. */
  ghost predicate Reachable(b: seq<Bucket>, i: nat)
    requires i < |b|
  {
    var m := |b|;
    var home := Home(b[i].hash, m);
    forall d | 0 <= d < Dist(home, i, m) :: b[At(home, d, m)].hash != EMPTY
  }

  ghost predicate BucketOk(c: Config, b: seq<Bucket>, slots: seq<Bytes>, n: nat, i: nat)
    requires n <= |slots| && i < |b|
  {
    Live(b[i]) ==>
      && b[i].slot < n
      && b[i].hash == c.hash(c.key(slots[b[i].slot]))
      && Reachable(b, i)
  }

  predicate Holds(b: seq<Bucket>, i: nat, s: nat) {
    i < |b| && Live(b[i]) && b[i].slot == s
  }

  ghost predicate Occupied(b: seq<Bucket>, s: nat) {
    exists i :: Holds(b, i, s)
  }

  ghost predicate DistinctKeys(c: Config, slots: seq<Bytes>, n: nat)
    requires n <= |slots|
  {
    forall s, t | 0 <= s < t < n :: c.key(slots[s]) != c.key(slots[t])
  }

  /** The buckets index exactly the first `n` documents: live buckets and slots are in bijection. */
  ghost predicate Indexed(c: Config, b: seq<Bucket>, slots: seq<Bytes>, n: nat)
    requires n <= |slots|
  {
    && (forall i | 0 <= i < |b| :: BucketOk(c, b, slots, n, i))
    && (forall i, j | 0 <= i < j < |b| && Live(b[i]) && Live(b[j]) :: b[i].slot != b[j].slot)
    && (forall s | 0 <= s < n :: Occupied(b, s))
    && DistinctKeys(c, slots, n)
  }

  /** No slot, in use or left behind, holds a key that a tombstone could be taken for. */
  ghost predicate NoTombstoneKeys(c: Config, slots: seq<Bytes>) {
    forall s | 0 <= s < |slots| :: c.hash(c.key(slots[s])) != TOMBSTONE
  }

  ghost predicate TableOk(c: Config, t: Table) {
    && Bounded(t) && Roomy(t)
    && Indexed(c, t.buckets, t.slots, t.count)
    && NoTombstoneKeys(c, t.slots)
  }

  ghost predicate HasKey(c: Config, docs: seq<Bytes>, k: Bytes) {
    exists s :: 0 <= s < |docs| && c.key(docs[s]) == k
  }

  ghost function DocOf(c: Config, docs: seq<Bytes>, k: Bytes): (doc: Bytes)
    requires HasKey(c, docs, k)
    ensures c.key(doc) == k && doc in docs
  {
    var s :| 0 <= s < |docs| && c.key(docs[s]) == k;
    docs[s]
  }

  /** The finite map that documents with distinct keys stand for. */
  ghost function Model(c: Config, docs: seq<Bytes>): (m: map<Bytes, Bytes>)
    ensures forall k :: k in m <==> HasKey(c, docs, k)
  {
    var keys := set s | 0 <= s < |docs| :: c.key(docs[s]);
    map k | k in keys :: DocOf(c, docs, k)
  }

  predicate NoTombstonePrecedes(c: Config, t: Table, k: Bytes) {
    forall d | 0 <= d < FindStop(c, t.buckets, t.slots, k, 0) ::
      t.buckets[At(Home(c.hash(k), |t.buckets|), d, |t.buckets|)].hash != TOMBSTONE
  }

  /** What a caller can check before a put: the key's hash is not reserved and, as coded, the put
      grows the table (which drops all tombstones), the key is absent, or no tombstone precedes its
      bucket on its probe path. */
  predicate PutIsSafe(c: Config, v: Variant, t: Table, k: Bytes) {
    && Usable(c, k)
    && (v.AsCoded? ==>
          || NeedsGrowth(t)
          || FindBucket(c, t.buckets, t.slots, k) == None
          || NoTombstonePrecedes(c, t, k))
  }
}

/** Schemas, and the record layout computed from them (db/schema.hpp, db/schema.cpp). */
module Schemas {
  import opened ByteStrings
  import opened Wrappers
  import opened Bits

  datatype PrimitiveType =
    | Bool | UInt8 | UInt16 | UInt32 | UInt64
    | Int8 | Int16 | Int32 | Int64 | Float32 | Float64

  datatype FieldType =
    | Primitive(kind: PrimitiveType)
    | String(capacity: nat)
    | Aggregate(fields: seq<Field>)

  datatype Field = Field(name: Bytes, fieldType: FieldType)

  datatype Schema = Schema(fields: seq<Field>, keyFieldIndex: nat)

  /** `sizeof` of the implementation type; it is also its `alignof`. */
  function Width(kind: PrimitiveType): (w: nat)
    ensures w in {1, 2, 4, 8}
  {
    match kind
    case Bool | UInt8 | Int8 => 1
    case UInt16 | Int16 => 2
    case UInt32 | Int32 | Float32 => 4
    case UInt64 | Int64 | Float64 => 8
  }

  /** `sizeof(StringHeader)` */
  const STRING_HEADER: nat := 4

  function Max(a: nat, b: nat): nat { if a < b then b else a }

  function Alignment(t: FieldType): nat
    decreases t
  {
    match t
    case Primitive(kind) => Width(kind)
    case String(_) => STRING_HEADER
    case Aggregate(fields) => MaxAlignment(fields, |fields|)
  }

  /** The largest alignment among the first `n` fields. */
  function MaxAlignment(fields: seq<Field>, n: nat): nat
    requires n <= |fields|
    decreases fields, n
  {
    if n == 0 then 0 else Max(MaxAlignment(fields, n - 1), Alignment(fields[n - 1].fieldType))
  }

  /** The next multiple of `a`. */
  function AlignUp(offset: nat, a: nat): nat
    requires a > 0
  {
    (offset + a - 1) / a * a
  }

  /** Padding in front of a field of alignment `a`: `offset += offset % a; offset &= ~(a - 1)`. */
  function Pad(v: Variant, offset: nat, a: nat): nat
    requires a > 0
  {
    match v
    case AsCoded => BitAndNot(offset + offset % a, a - 1)
    case Repaired => AlignUp(offset, a)
  }

  /** The source asserts that no aggregate, at any depth, is empty. */
  predicate NonEmpty(t: FieldType)
    decreases t
  {
    t.Aggregate? ==> NonEmptyFields(t.fields)
  }

  predicate NonEmptyFields(fields: seq<Field>)
    decreases fields, |fields| + 1
  {
    fields != [] && forall i | 0 <= i < |fields| :: NonEmpty(fields[i].fieldType)
  }

  function Size(v: Variant, t: FieldType): nat
    requires NonEmpty(t)
    decreases t
  {
    match t
    case Primitive(kind) => Width(kind)
    case String(capacity) => STRING_HEADER + capacity
    case Aggregate(fields) => End(v, fields, |fields|)
  }

  /** Where the first `n` fields end: the running offset before padding for field `n`. */
  function End(v: Variant, fields: seq<Field>, n: nat): nat
    requires NonEmptyFields(fields) && n <= |fields|
    decreases fields, n, 0
  {
    if n == 0 then 0 else Offset(v, fields, n - 1) + Size(v, fields[n - 1].fieldType)
  }

  function Offset(v: Variant, fields: seq<Field>, i: nat): nat
    requires NonEmptyFields(fields) && i < |fields|
    decreases fields, i, 1
  {
    AlignmentIsSmallPower(fields[i].fieldType);
    Pad(v, End(v, fields, i), Alignment(fields[i].fieldType))
  }

  lemma {:induction false} AlignmentIsSmallPower(t: FieldType)
    requires NonEmpty(t)
    ensures Alignment(t) in {1, 2, 4, 8}
    decreases t
  {
    if t.Aggregate? {
      MaxAlignmentIsSmallPower(t.fields, |t.fields|);
    }
  }

  lemma {:induction false} MaxAlignmentIsSmallPower(fields: seq<Field>, n: nat)
    requires NonEmptyFields(fields) && n <= |fields|
    ensures n > 0 ==> MaxAlignment(fields, n) in {1, 2, 4, 8}
    ensures n == 0 ==> MaxAlignment(fields, n) == 0
    ensures forall i | 0 <= i < n :: Alignment(fields[i].fieldType) <= MaxAlignment(fields, n)
    ensures n > 0 ==> exists i :: 0 <= i < n && Alignment(fields[i].fieldType) == MaxAlignment(fields, n)
    decreases fields, n
  {
    if n > 0 {
      AlignmentIsSmallPower(fields[n - 1].fieldType);
      MaxAlignmentIsSmallPower(fields, n - 1);
    }
  }

  // The computations, as the sources run them.

  method ComputeAlignment(t: FieldType) returns (a: nat)
    requires NonEmpty(t)
    ensures a == Alignment(t)
    decreases t, 1
  {
    match t
    case Primitive(kind) => a := Width(kind);
    case String(_) => a := STRING_HEADER;
    case Aggregate(fields) => a := ComputeAggregateAlignment(fields);
  }

  method ComputeAggregateAlignment(fields: seq<Field>) returns (maxAlign: nat)
    requires NonEmptyFields(fields)
    ensures maxAlign == MaxAlignment(fields, |fields|)
    decreases fields, 0
  {
    maxAlign := 0;
    for i := 0 to |fields|
      invariant maxAlign == MaxAlignment(fields, i)
    {
      var a := ComputeAlignment(fields[i].fieldType);
      maxAlign := Max(maxAlign, a);
    }
  }

  method ComputeSize(t: FieldType) returns (s: nat)
    requires NonEmpty(t)
    ensures s == Size(AsCoded, t)
    decreases t, 1
  {
    match t
    case Primitive(kind) => s := Width(kind);
    case String(capacity) => s := STRING_HEADER + capacity;
    case Aggregate(fields) => s := ComputeAggregateSize(fields);
  }

  method ComputeAggregateSize(fields: seq<Field>) returns (s: nat)
    requires NonEmptyFields(fields)
    ensures s == Size(AsCoded, Aggregate(fields))
    decreases fields, 1
  {
    var last := ComputeOffset(fields, |fields| - 1);
    var s' := ComputeSize(fields[|fields| - 1].fieldType);
    s := last + s';
  }

  method PadOffset(offset: nat, a: nat) returns (padded: nat)
    requires a > 0
    ensures padded == Pad(AsCoded, offset, a)
  {
    padded := offset + offset % a;
    padded := BitAndNot(padded, a - 1);
  }

  method ComputeOffset(fields: seq<Field>, fieldIndex: nat) returns (offset: nat)
    requires NonEmptyFields(fields) && fieldIndex < |fields|
    ensures offset == Offset(AsCoded, fields, fieldIndex)
    decreases fields, 0
  {
    offset := 0;
    var i := 0;
    while i <= fieldIndex
      invariant 0 <= i <= fieldIndex
      invariant offset == End(AsCoded, fields, i)
    {
      AlignmentIsSmallPower(fields[i].fieldType);
      var a := ComputeAlignment(fields[i].fieldType);
      offset := PadOffset(offset, a);
      assert offset == Offset(AsCoded, fields, i);
      if i == fieldIndex {
        break;
      }
      var s := ComputeSize(fields[i].fieldType);
      offset := offset + s;
      i := i + 1;
    }
  }
}

/** What the layout guarantees, for the coded padding and for a true align-up. */
module LayoutLaws {
  import opened Schemas
  import opened ByteStrings
  import opened Wrappers
  import opened Bits

  /** The only case in which the coded padding moves backwards. */
  predicate RoundsDown(offset: nat, a: nat)
    requires a > 0
  {
    0 < 2 * (offset % a) < a
  }

  lemma DoubledRemainder(offset: nat, a: nat)
    requires a > 0
    ensures var r := offset % a;
            (offset + r) % a == if 2 * r < a then 2 * r else 2 * r - a
  {
    var q, r := offset / a, offset % a;
    assert offset == q * a + r && (q + 1) * a == q * a + a;
    if 2 * r < a {
      ModUnique(offset + r, a, q, 2 * r);
    } else {
      ModUnique(offset + r, a, q + 1, 2 * r - a);
    }
  }

  /** The coded padding rounds to the nearest multiple, where align-up takes the next one. */
  lemma CodedPaddingValue(offset: nat, a: nat)
    requires IsPow2(a)
    ensures var r := offset % a;
            Pad(AsCoded, offset, a) == if 2 * r < a then offset - r else offset - r + a
  {
    ClearMask(offset + offset % a, a);
    DoubledRemainder(offset, a);
  }

  lemma MultipleOf(offset: nat, a: nat)
    requires a > 0
    ensures (offset - offset % a) % a == 0 && (offset - offset % a + a) % a == 0
    ensures AlignUp(offset, a) == if offset % a == 0 then offset else offset - offset % a + a
  {
    var q, r := offset / a, offset % a;
    assert offset == q * a + r && (q + 1) * a == q * a + a;
    ModUnique(q * a, a, q, 0);
    ModUnique((q + 1) * a, a, q + 1, 0);
    if r == 0 {
      ModUnique(offset + a - 1, a, q, a - 1);
    } else {
      ModUnique(offset + a - 1, a, q + 1, r - 1);
    }
  }

  /** The coded padding always lands on a multiple of the alignment, and is the next multiple
      exactly when it does not round down. */
  lemma CodedPadding(offset: nat, a: nat)
    requires IsPow2(a)
    ensures var p := Pad(AsCoded, offset, a);
            && p % a == 0
            && (p == AlignUp(offset, a) <==> !RoundsDown(offset, a))
            && (p >= offset <==> !RoundsDown(offset, a))
            && 2 * offset < 2 * p + a && 2 * p <= 2 * offset + a
  {
    CodedPaddingValue(offset, a);
    MultipleOf(offset, a);
  }

  lemma SmallPowers(a: nat)
    requires a in {1, 2, 4, 8}
    ensures IsPow2(a)
  {
    assert Pow2(0) == 1 && Pow2(1) == 2 && Pow2(2) == 4 && Pow2(3) == 8;
  }

  /** Every field starts at a multiple of its alignment: as coded the one nearest to the end of its
      predecessor, less than half an alignment before it and at most half behind it; with a true
      align-up the next one. */
  lemma FieldStart(v: Variant, fields: seq<Field>, i: nat)
    requires NonEmptyFields(fields) && i < |fields|
    ensures var a := Alignment(fields[i].fieldType); var e := End(v, fields, i); var o := Offset(v, fields, i);
            && a in {1, 2, 4, 8}
            && o % a == 0
            && 2 * e < 2 * o + a
            && (if v.AsCoded? then 2 * o <= 2 * e + a else e <= o < e + a)
            && (o >= e <==> v.Repaired? || !RoundsDown(e, a))
  {
    var a := Alignment(fields[i].fieldType);
    AlignmentIsSmallPower(fields[i].fieldType);
    SmallPowers(a);
    CodedPadding(End(v, fields, i), a);
    MultipleOf(End(v, fields, i), a);
  }

  /** No type is smaller than its alignment: what keeps rounding down from losing ground. */
  lemma {:induction false} SizeAtLeastAlignment(v: Variant, t: FieldType)
    requires NonEmpty(t)
    ensures Size(v, t) >= Alignment(t) >= 1
    decreases t, 1
  {
    AlignmentIsSmallPower(t);
    if t.Aggregate? {
      var n := |t.fields|;
      MaxAlignmentIsSmallPower(t.fields, n);
      var i :| 0 <= i < n && Alignment(t.fields[i].fieldType) == Alignment(t);
      SizeAtLeastAlignment(v, t.fields[i].fieldType);
      EndsGrow(v, t.fields, i + 1, n);
    }
  }

  /** Field ends strictly increase although starts may step back. */
  lemma {:induction false} EndsGrow(v: Variant, fields: seq<Field>, i: nat, j: nat)
    requires NonEmptyFields(fields) && i <= j <= |fields|
    ensures End(v, fields, i) + (j - i) <= End(v, fields, j)
    decreases fields, j
  {
    if i < j {
      EndsGrow(v, fields, i, j - 1);
      FieldStart(v, fields, j - 1);
      SizeAtLeastAlignment(v, fields[j - 1].fieldType);
    }
  }

  /** Layout in bounds, as coded as well as repaired. */
  lemma FieldInBounds(v: Variant, fields: seq<Field>, i: nat)
    requires NonEmptyFields(fields) && i < |fields|
    ensures Offset(v, fields, i) + Size(v, fields[i].fieldType) <= Size(v, Aggregate(fields))
  {
    EndsGrow(v, fields, i + 1, |fields|);
  }

  /** The starts of the fields from `i` on, in a single pass with a running offset. */
  function FieldStarts(v: Variant, fields: seq<Field>, i: nat, running: nat): seq<nat>
    requires NonEmptyFields(fields) && i <= |fields|
    decreases |fields| - i
  {
    if i == |fields| then []
    else
      AlignmentIsSmallPower(fields[i].fieldType);
      var start := Pad(v, running, Alignment(fields[i].fieldType));
      [start] + FieldStarts(v, fields, i + 1, start + Size(v, fields[i].fieldType))
  }

  lemma NextStart(v: Variant, fields: seq<Field>, i: nat)
    requires NonEmptyFields(fields) && i < |fields|
    ensures FieldStarts(v, fields, i, End(v, fields, i)) ==
              [Offset(v, fields, i)] + FieldStarts(v, fields, i + 1, End(v, fields, i + 1))
  {
  }

  /** One pass finds the offset that the computation from scratch finds for each field. */
  lemma {:induction false} SinglePassAgrees(v: Variant, fields: seq<Field>, i: nat, d: nat)
    requires NonEmptyFields(fields) && i + d < |fields|
    ensures var starts := FieldStarts(v, fields, i, End(v, fields, i));
            d < |starts| && starts[d] == Offset(v, fields, i + d)
    decreases d
  {
    NextStart(v, fields, i);
    if d > 0 {
      SinglePassAgrees(v, fields, i + 1, d - 1);
    }
  }

  /** Size and alignment of every primitive type. */
  lemma PrimitiveSizes(v: Variant)
    ensures Size(v, Primitive(Bool)) == 1 == Alignment(Primitive(Bool))
    ensures Size(v, Primitive(UInt8)) == 1 == Alignment(Primitive(UInt8))
    ensures Size(v, Primitive(UInt16)) == 2 == Alignment(Primitive(UInt16))
    ensures Size(v, Primitive(UInt32)) == 4 == Alignment(Primitive(UInt32))
    ensures Size(v, Primitive(UInt64)) == 8 == Alignment(Primitive(UInt64))
    ensures Size(v, Primitive(Int8)) == 1 == Alignment(Primitive(Int8))
    ensures Size(v, Primitive(Int16)) == 2 == Alignment(Primitive(Int16))
    ensures Size(v, Primitive(Int32)) == 4 == Alignment(Primitive(Int32))
    ensures Size(v, Primitive(Int64)) == 8 == Alignment(Primitive(Int64))
    ensures Size(v, Primitive(Float32)) == 4 == Alignment(Primitive(Float32))
    ensures Size(v, Primitive(Float64)) == 8 == Alignment(Primitive(Float64))
  {
  }

  function Mixed(a: Bytes, b: Bytes, c: Bytes): (fields: seq<Field>)
    ensures NonEmptyFields(fields)
  {
    [Field(a, Primitive(UInt64)), Field(b, String(3)), Field(c, Primitive(Int64))]
  }

  lemma MixedStart(a: Bytes, b: Bytes, c: Bytes)
    ensures var fields := Mixed(a, b, c);
            Offset(AsCoded, fields, 0) == 0 && Offset(AsCoded, fields, 1) == 8 && End(AsCoded, fields, 2) == 15
  {
    var fields := Mixed(a, b, c);
    SmallPowers(8);
    SmallPowers(4);
    CodedPaddingValue(0, 8);
    CodedPaddingValue(8, 4);
    assert Offset(AsCoded, fields, 0) == Pad(AsCoded, 0, 8) == 0;
    assert End(AsCoded, fields, 1) == 8;
    assert Offset(AsCoded, fields, 1) == Pad(AsCoded, 8, 4) == 8;
  }

  /** A 64-bit integer, a string of up to three characters and a signed 64-bit integer start at 0, 8 and
      16 and take 24 bytes. */
  lemma MixedRecord(a: Bytes, b: Bytes, c: Bytes)
    ensures var fields := Mixed(a, b, c);
            && Offset(AsCoded, fields, 0) == 0 && Offset(AsCoded, fields, 1) == 8 && Offset(AsCoded, fields, 2) == 16
            && Size(AsCoded, Aggregate(fields)) == 24 && Alignment(Aggregate(fields)) == 8
  {
    var fields := Mixed(a, b, c);
    MixedStart(a, b, c);
    SmallPowers(8);
    CodedPaddingValue(15, 8);
    assert Offset(AsCoded, fields, 2) == Pad(AsCoded, 15, 8) == 16;
    MaxAlignmentIsSmallPower(fields, 3);
    assert End(AsCoded, fields, 3) == 16 + Size(AsCoded, fields[2].fieldType) == 24;
    assert Size(AsCoded, Aggregate(fields)) == End(AsCoded, fields, 3);
    assert Alignment(fields[0].fieldType) == 8;
  }

  // Disjointness of the fields of one aggregate

  /** The byte ranges of fields `i` and `j` have no byte in common. */
  ghost predicate Apart(v: Variant, fields: seq<Field>, i: nat, j: nat)
    requires NonEmptyFields(fields) && i < |fields| && j < |fields|
  {
    || End(v, fields, i + 1) <= Offset(v, fields, j)
    || End(v, fields, j + 1) <= Offset(v, fields, i)
  }

  ghost predicate FieldsDisjoint(v: Variant, fields: seq<Field>)
    requires NonEmptyFields(fields)
  {
    forall i, j | 0 <= i < j < |fields| :: Apart(v, fields, i, j)
  }

  predicate NotRoundedDown(fields: seq<Field>, i: nat)
    requires NonEmptyFields(fields) && i < |fields|
  {
    var a := Alignment(fields[i].fieldType);
    a > 0 && !RoundsDown(End(AsCoded, fields, i), a)
  }

  predicate NeverRoundsDown(fields: seq<Field>)
    requires NonEmptyFields(fields)
  {
    forall i | 0 <= i < |fields| :: NotRoundedDown(fields, i)
  }

  lemma RoundingDownOverlaps(fields: seq<Field>, i: nat)
    requires NonEmptyFields(fields) && i < |fields|
    requires Offset(AsCoded, fields, i) < End(AsCoded, fields, i)
    ensures i > 0 && !Apart(AsCoded, fields, i - 1, i)
  {
    FieldStart(AsCoded, fields, i);
    SizeAtLeastAlignment(AsCoded, fields[i].fieldType);
    SizeAtLeastAlignment(AsCoded, fields[i - 1].fieldType);
  }

  /** A field starts no earlier than its predecessor ends unless its padding rounds down. */
  lemma StartsAfterEnd(v: Variant, fields: seq<Field>, i: nat)
    requires NonEmptyFields(fields) && i < |fields|
    ensures Offset(v, fields, i) >= End(v, fields, i) <==> v.Repaired? || NotRoundedDown(fields, i)
  {
    FieldStart(v, fields, i);
  }

  lemma InOrderFieldsDisjoint(v: Variant, fields: seq<Field>)
    requires NonEmptyFields(fields)
    requires forall i | 0 <= i < |fields| :: Offset(v, fields, i) >= End(v, fields, i)
    ensures FieldsDisjoint(v, fields)
  {
    forall i, j | 0 <= i < j < |fields|
      ensures Apart(v, fields, i, j)
    {
      EndsGrow(v, fields, i + 1, j);
      assert Offset(v, fields, j) >= End(v, fields, j);
    }
  }

  /** The coded layout keeps the fields of an aggregate apart exactly when no field is padded
      backwards; a true align-up always does. */
  lemma DisjointExactlyWhenNeverRoundedDown(v: Variant, fields: seq<Field>)
    requires NonEmptyFields(fields)
    ensures FieldsDisjoint(v, fields) <==> v.Repaired? || NeverRoundsDown(fields)
  {
    forall i | 0 <= i < |fields|
      ensures Offset(v, fields, i) >= End(v, fields, i) <==> v.Repaired? || NotRoundedDown(fields, i)
    {
      StartsAfterEnd(v, fields, i);
    }
    if v.Repaired? || NeverRoundsDown(fields) {
      InOrderFieldsDisjoint(v, fields);
    } else {
      var i :| 0 <= i < |fields| && !NotRoundedDown(fields, i);
      RoundingDownOverlaps(fields, i);
    }
  }

  // Leaves: the primitive and string fields reached through any depth of aggregates

  datatype Leaf = Leaf(offset: nat, size: nat, alignment: nat) {
    function End(): nat { offset + size }
  }

  /** All leaves of a value of type `t` placed at absolute offset `at`, in declaration order. */
  ghost function Leaves(v: Variant, t: FieldType, at: nat): seq<Leaf>
    requires NonEmpty(t)
    decreases t
  {
    if t.Aggregate? then FieldLeaves(v, t.fields, |t.fields|, at) else [Leaf(at, Size(v, t), Alignment(t))]
  }

  ghost function FieldLeaves(v: Variant, fields: seq<Field>, n: nat, at: nat): seq<Leaf>
    requires NonEmptyFields(fields) && n <= |fields|
    decreases fields, n
  {
    if n == 0 then
      []
    else
      FieldLeaves(v, fields, n - 1, at) + Leaves(v, fields[n - 1].fieldType, at + Offset(v, fields, n - 1))
  }

  /** At every depth, each field starts no earlier than its predecessor ends. */
  predicate CleanlyPadded(v: Variant, t: FieldType)
    requires NonEmpty(t)
    decreases t
  {
    t.Aggregate? ==>
      && NonEmptyFields(t.fields)
      && forall i | 0 <= i < |t.fields| :: FieldCleanlyPadded(v, t.fields, i)
  }

  predicate FieldCleanlyPadded(v: Variant, fields: seq<Field>, i: nat)
    requires NonEmptyFields(fields) && i < |fields|
    decreases fields, i
  {
    End(v, fields, i) <= Offset(v, fields, i) && CleanlyPadded(v, fields[i].fieldType)
  }

  /** At every depth, each field meets the condition on the remainder of its running offset. */
  predicate NeverRoundsDownAtAnyDepth(t: FieldType)
    requires NonEmpty(t)
    decreases t
  {
    t.Aggregate? ==>
      && NonEmptyFields(t.fields)
      && NeverRoundsDown(t.fields)
      && forall i | 0 <= i < |t.fields| :: NeverRoundsDownAtAnyDepth(t.fields[i].fieldType)
  }

  ghost predicate Within(leaves: seq<Leaf>, lo: nat, hi: nat) {
    forall p | 0 <= p < |leaves| :: lo <= leaves[p].offset && leaves[p].End() <= hi
  }

  ghost predicate AllAligned(leaves: seq<Leaf>) {
    forall p | 0 <= p < |leaves| :: leaves[p].alignment > 0 && leaves[p].offset % leaves[p].alignment == 0
  }

  ghost predicate InOrder(leaves: seq<Leaf>) {
    forall p, q | 0 <= p < q < |leaves| :: leaves[p].End() <= leaves[q].offset
  }

  /** Every leaf, at any depth, lies inside its record. */
  lemma {:induction false} LeavesInBounds(v: Variant, t: FieldType, at: nat)
    requires NonEmpty(t)
    ensures Within(Leaves(v, t, at), at, at + Size(v, t))
    decreases t, 0
  {
    if t.Aggregate? {
      FieldLeavesInBounds(v, t.fields, |t.fields|, at);
    }
  }

  lemma WithinAppend(a: seq<Leaf>, b: seq<Leaf>, lo: nat, end: nat, start: nat, hi: nat)
    requires Within(a, lo, end) && Within(b, start, hi) && lo <= start && end <= hi
    ensures Within(a + b, lo, hi)
  {
  }

  lemma {:induction false} FieldLeavesInBounds(v: Variant, fields: seq<Field>, n: nat, at: nat)
    requires NonEmptyFields(fields) && n <= |fields|
    ensures Within(FieldLeaves(v, fields, n, at), at, at + End(v, fields, n))
    decreases fields, n
  {
    if n > 0 {
      var o := Offset(v, fields, n - 1);
      FieldLeavesInBounds(v, fields, n - 1, at);
      LeavesInBounds(v, fields[n - 1].fieldType, at + o);
      EndsGrow(v, fields, n - 1, n);
      WithinAppend(FieldLeaves(v, fields, n - 1, at), Leaves(v, fields[n - 1].fieldType, at + o),
                   at, at + End(v, fields, n - 1), at + o, at + End(v, fields, n));
    }
  }

  lemma EightToFour(x: nat)
    requires x % 8 == 0
    ensures x % 4 == 0
  {
    ModUnique(x, 4, 2 * (x / 8), 0);
  }

  lemma FourToTwo(x: nat)
    requires x % 4 == 0
    ensures x % 2 == 0
  {
    ModUnique(x, 2, 2 * (x / 4), 0);
  }

  lemma DividesDown(x: nat, outer: nat, inner: nat)
    requires inner in {1, 2, 4, 8} && outer in {1, 2, 4, 8} && inner <= outer && x % outer == 0
    ensures x % inner == 0
  {
    if outer == 8 {
      EightToFour(x);
    }
    if outer >= 4 {
      FourToTwo(x);
    }
    if inner == 1 {
      assert x % 1 == 0;
    }
  }

  lemma SumDivides(x: nat, y: nat, a: nat)
    requires a > 0 && x % a == 0 && y % a == 0
    ensures (x + y) % a == 0
  {
    var q, q' := x / a, y / a;
    assert x == q * a && y == q' * a && (q + q') * a == q * a + q' * a;
    ModUnique(x + y, a, q + q', 0);
  }

  lemma AlignmentsCompose(at: nat, outer: nat, offset: nat, inner: nat)
    requires inner in {1, 2, 4, 8} && outer in {1, 2, 4, 8} && inner <= outer
    requires at % outer == 0 && offset % inner == 0
    ensures (at + offset) % inner == 0
  {
    DividesDown(at, outer, inner);
    SumDivides(at, offset, inner);
  }

  /** In a record placed at a multiple of its alignment every leaf, at any depth, sits at a
      multiple of its own. */
  lemma {:induction false} LeavesAligned(v: Variant, t: FieldType, at: nat)
    requires NonEmpty(t) && Alignment(t) > 0 && at % Alignment(t) == 0
    ensures AllAligned(Leaves(v, t, at))
    decreases t, 0
  {
    if t.Aggregate? {
      FieldLeavesAligned(v, t.fields, |t.fields|, at);
    }
  }

  lemma {:induction false} FieldLeavesAligned(v: Variant, fields: seq<Field>, n: nat, at: nat)
    requires NonEmptyFields(fields) && n <= |fields|
    requires var a := Alignment(Aggregate(fields)); a > 0 && at % a == 0
    ensures AllAligned(FieldLeaves(v, fields, n, at))
    decreases fields, n
  {
    if n > 0 {
      FieldLeavesAligned(v, fields, n - 1, at);
      FieldAligned(v, fields, n - 1, at);
      LeavesAligned(v, fields[n - 1].fieldType, at + Offset(v, fields, n - 1));
    }
  }

  lemma OffsetAligned(v: Variant, fields: seq<Field>, i: nat)
    requires NonEmptyFields(fields) && i < |fields|
    ensures var a := Alignment(fields[i].fieldType); a in {1, 2, 4, 8} && Offset(v, fields, i) % a == 0
  {
    FieldStart(v, fields, i);
  }

  lemma FieldAligned(v: Variant, fields: seq<Field>, i: nat, at: nat)
    requires NonEmptyFields(fields) && i < |fields|
    requires var a := Alignment(Aggregate(fields)); a > 0 && at % a == 0
    ensures var a := Alignment(fields[i].fieldType); a > 0 && (at + Offset(v, fields, i)) % a == 0
  {
    OffsetAligned(v, fields, i);
    AlignmentIsSmallPower(Aggregate(fields));
    MaxAlignmentIsSmallPower(fields, |fields|);
    AlignmentsCompose(at, Alignment(Aggregate(fields)), Offset(v, fields, i), Alignment(fields[i].fieldType));
  }

  /** With no padding backwards, the byte ranges of all leaves at any depth are in declaration
      order and pairwise disjoint. */
  lemma {:induction false} LeavesDisjoint(v: Variant, t: FieldType, at: nat)
    requires NonEmpty(t) && CleanlyPadded(v, t)
    ensures InOrder(Leaves(v, t, at))
    decreases t, 0
  {
    if t.Aggregate? {
      FieldLeavesDisjoint(v, t.fields, |t.fields|, at);
    }
  }

  lemma InOrderAppend(a: seq<Leaf>, b: seq<Leaf>, lo: nat, end: nat, start: nat, hi: nat)
    requires Within(a, lo, end) && Within(b, start, hi) && end <= start
    requires InOrder(a) && InOrder(b)
    ensures InOrder(a + b)
  {
  }

  lemma OneMoreField(v: Variant, fields: seq<Field>, n: nat, at: nat)
    requires NonEmptyFields(fields) && 0 < n <= |fields| && End(v, fields, n - 1) <= Offset(v, fields, n - 1)
    requires InOrder(FieldLeaves(v, fields, n - 1, at))
    requires InOrder(Leaves(v, fields[n - 1].fieldType, at + Offset(v, fields, n - 1)))
    ensures InOrder(FieldLeaves(v, fields, n, at))
  {
    var t, o := fields[n - 1].fieldType, Offset(v, fields, n - 1);
    FieldLeavesInBounds(v, fields, n - 1, at);
    LeavesInBounds(v, t, at + o);
    InOrderAppend(FieldLeaves(v, fields, n - 1, at), Leaves(v, t, at + o),
                  at, at + End(v, fields, n - 1), at + o, at + o + Size(v, t));
  }

  lemma {:induction false} FieldLeavesDisjoint(v: Variant, fields: seq<Field>, n: nat, at: nat)
    requires NonEmptyFields(fields) && n <= |fields|
    requires forall i | 0 <= i < n :: FieldCleanlyPadded(v, fields, i)
    ensures InOrder(FieldLeaves(v, fields, n, at))
    decreases fields, n
  {
    if n > 0 {
      assert FieldCleanlyPadded(v, fields, n - 1);
      FieldLeavesDisjoint(v, fields, n - 1, at);
      LeavesDisjoint(v, fields[n - 1].fieldType, at + Offset(v, fields, n - 1));
      OneMoreField(v, fields, n, at);
    }
  }

  /** A true align-up needs no condition; the coded padding needs exactly the remainder condition. */
  lemma {:induction false} CleanExactlyWhenNeverRoundedDown(v: Variant, t: FieldType)
    requires NonEmpty(t)
    ensures CleanlyPadded(v, t) <==> v.Repaired? || NeverRoundsDownAtAnyDepth(t)
    decreases t
  {
    if t.Aggregate? {
      forall i | 0 <= i < |t.fields|
        ensures FieldCleanlyPadded(v, t.fields, i) <==>
                  v.Repaired? || (NotRoundedDown(t.fields, i) && NeverRoundsDownAtAnyDepth(t.fields[i].fieldType))
      {
        CleanExactlyWhenNeverRoundedDown(v, t.fields[i].fieldType);
        StartsAfterEnd(v, t.fields, i);
      }
    }
  }

  // The other direction: a field padded backwards makes two leaves overlap.

  predicate NoOverlap(a: Leaf, b: Leaf) {
    a.End() <= b.offset || b.End() <= a.offset
  }

  ghost predicate AllApart(leaves: seq<Leaf>) {
    forall p, q | 0 <= p < q < |leaves| :: NoOverlap(leaves[p], leaves[q])
  }

  ghost predicate Covered(leaves: seq<Leaf>, x: nat) {
    exists p :: 0 <= p < |leaves| && leaves[p].offset <= x < leaves[p].End()
  }

  lemma CoveredAppend(a: seq<Leaf>, b: seq<Leaf>, x: nat)
    ensures Covered(a, x) || Covered(b, x) ==> Covered(a + b, x)
  {
    if p :| 0 <= p < |a| && a[p].offset <= x < a[p].End() {
      assert (a + b)[p] == a[p];
    } else if p :| 0 <= p < |b| && b[p].offset <= x < b[p].End() {
      assert (a + b)[|a| + p] == b[p];
    }
  }

  lemma ClashAppend(a: seq<Leaf>, b: seq<Leaf>)
    ensures AllApart(a + b) ==> AllApart(a) && AllApart(b)
  {
    if AllApart(a + b) {
      forall p, q | 0 <= p < q < |a|
        ensures NoOverlap(a[p], a[q])
      {
        assert (a + b)[p] == a[p] && (a + b)[q] == a[q];
      }
      forall p, q | 0 <= p < q < |b|
        ensures NoOverlap(b[p], b[q])
      {
        assert (a + b)[|a| + p] == b[p] && (a + b)[|a| + q] == b[q];
      }
    }
  }

  /** A multiple of four within three bytes of the end of a value lies in one of its leaves: padding
      never leaves a gap there. */
  lemma {:induction false} TailCovered(v: Variant, t: FieldType, at: nat, x: nat)
    requires NonEmpty(t) && Alignment(t) > 0 && at % Alignment(t) == 0
    requires x % 4 == 0 && at <= x < at + Size(v, t) <= x + 3
    ensures Covered(Leaves(v, t, at), x)
    decreases t, 0
  {
    if t.Aggregate? {
      FieldsTailCovered(v, t.fields, |t.fields|, at, x);
    } else {
      assert Leaves(v, t, at)[0].offset <= x < Leaves(v, t, at)[0].End();
    }
  }

  lemma UnalignedFieldsTouch(v: Variant, fields: seq<Field>, i: nat)
    requires NonEmptyFields(fields) && i < |fields| && Alignment(fields[i].fieldType) == 1
    ensures Offset(v, fields, i) == End(v, fields, i)
  {
    SmallPowers(1);
    CodedPaddingValue(End(v, fields, i), 1);
    MultipleOf(End(v, fields, i), 1);
  }

  /** An aligned start beyond a multiple of four is two beyond it, unless the alignment is one. */
  lemma NextEvenStart(start: nat, a: nat, x: nat)
    requires a in {1, 2, 4, 8} && start % a == 0 && x % 4 == 0 && x < start
    ensures a == 1 || start >= x + 2
  {
    var half, quarter := start / 2, x / 4;
    if a == 2 {
      assert half > 2 * quarter;
    } else if a == 4 {
      assert start / 4 > quarter;
    } else if a == 8 {
      assert start / 8 * 2 > quarter;
    }
  }

  lemma {:induction false} FieldsTailCovered(v: Variant, fields: seq<Field>, n: nat, at: nat, x: nat)
    requires NonEmptyFields(fields) && n <= |fields|
    requires var a := Alignment(Aggregate(fields)); a > 0 && at % a == 0
    requires x % 4 == 0 && at <= x < at + End(v, fields, n) <= x + 3
    ensures Covered(FieldLeaves(v, fields, n, at), x)
    decreases fields, n
  {
    var t, o := fields[n - 1].fieldType, at + Offset(v, fields, n - 1);
    FieldAligned(v, fields, n - 1, at);
    AlignmentIsSmallPower(t);
    SizeAtLeastAlignment(v, t);
    if x >= o {
      TailCovered(v, t, o, x);
    } else {
      NextEvenStart(o, Alignment(t), x);
      UnalignedFieldsTouch(v, fields, n - 1);
      FieldsTailCovered(v, fields, n - 1, at, x);
    }
    CoveredAppend(FieldLeaves(v, fields, n - 1, at), Leaves(v, t, o), x);
  }

  /** Every value starts with a leaf. */
  lemma {:induction false} FirstLeaf(v: Variant, t: FieldType, at: nat)
    requires NonEmpty(t)
    ensures Leaves(v, t, at) != [] && Leaves(v, t, at)[0].offset == at < Leaves(v, t, at)[0].End()
    decreases t, 0
  {
    if t.Aggregate? {
      FieldsFirstLeaf(v, t.fields, |t.fields|, at);
    } else {
      SizeAtLeastAlignment(v, t);
    }
  }

  lemma {:induction false} FieldsFirstLeaf(v: Variant, fields: seq<Field>, n: nat, at: nat)
    requires NonEmptyFields(fields) && 0 < n <= |fields|
    ensures var leaves := FieldLeaves(v, fields, n, at); leaves != [] && leaves[0].offset == at < leaves[0].End()
    decreases fields, n
  {
    if n == 1 {
      FieldStart(v, fields, 0);
      StartOfFirst(v, fields);
      FirstLeaf(v, fields[0].fieldType, at);
      assert FieldLeaves(v, fields, 1, at) == [] + Leaves(v, fields[0].fieldType, at);
    } else {
      FieldsFirstLeaf(v, fields, n - 1, at);
    }
  }

  lemma StartOfFirst(v: Variant, fields: seq<Field>)
    requires NonEmptyFields(fields)
    ensures Offset(v, fields, 0) == 0
  {
    var a := Alignment(fields[0].fieldType);
    AlignmentIsSmallPower(fields[0].fieldType);
    SmallPowers(a);
    CodedPaddingValue(0, a);
    MultipleOf(0, a);
  }

  lemma SharedByte(before: seq<Leaf>, own: seq<Leaf>, x: nat)
    requires Covered(before, x) && own != [] && own[0].offset == x < own[0].End()
    ensures !AllApart(before + own)
  {
    var p :| 0 <= p < |before| && before[p].offset <= x < before[p].End();
    assert !NoOverlap((before + own)[p], (before + own)[|before|]);
  }

  /** A step back is to a multiple of four, at most three bytes back. */
  lemma StepBack(x: nat, end: nat, a: nat)
    requires a in {1, 2, 4, 8} && x % a == 0 && x < end && 2 * end < 2 * x + a
    ensures x % 4 == 0 && end <= x + 3
  {
    if a == 8 {
      assert x % 8 == 0;
    } else {
      assert a == 4;
    }
  }

  lemma BackwardsOverlaps(fields: seq<Field>, i: nat, at: nat)
    requires NonEmptyFields(fields) && i < |fields| && Offset(AsCoded, fields, i) < End(AsCoded, fields, i)
    requires var a := Alignment(Aggregate(fields)); a > 0 && at % a == 0
    ensures !AllApart(FieldLeaves(AsCoded, fields, i + 1, at))
  {
    var x := at + Offset(AsCoded, fields, i);
    FieldStart(AsCoded, fields, i);
    FieldAligned(AsCoded, fields, i, at);
    StepBack(x, at + End(AsCoded, fields, i), Alignment(fields[i].fieldType));
    FieldsTailCovered(AsCoded, fields, i, at, x);
    FirstLeaf(AsCoded, fields[i].fieldType, x);
    SharedByte(FieldLeaves(AsCoded, fields, i, at), Leaves(AsCoded, fields[i].fieldType, x), x);
  }

  lemma {:induction false} OverlapSpreads(v: Variant, fields: seq<Field>, i: nat, n: nat, at: nat)
    requires NonEmptyFields(fields) && i <= n <= |fields| && !AllApart(FieldLeaves(v, fields, i, at))
    ensures !AllApart(FieldLeaves(v, fields, n, at))
    decreases n
  {
    if i < n {
      OverlapSpreads(v, fields, i, n - 1, at);
      ClashAppend(FieldLeaves(v, fields, n - 1, at), Leaves(v, fields[n - 1].fieldType, at + Offset(v, fields, n - 1)));
    }
  }

  lemma OverlapInField(v: Variant, fields: seq<Field>, i: nat, at: nat)
    requires NonEmptyFields(fields) && i < |fields|
    requires !AllApart(Leaves(v, fields[i].fieldType, at + Offset(v, fields, i)))
    ensures !AllApart(FieldLeaves(v, fields, i + 1, at))
  {
    ClashAppend(FieldLeaves(v, fields, i, at), Leaves(v, fields[i].fieldType, at + Offset(v, fields, i)));
  }

  lemma {:induction false} ApartOnlyWhenClean(v: Variant, t: FieldType, at: nat)
    requires NonEmpty(t) && Alignment(t) > 0 && at % Alignment(t) == 0 && !CleanlyPadded(v, t)
    ensures !AllApart(Leaves(v, t, at))
    decreases t
  {
    var i :| 0 <= i < |t.fields| && !FieldCleanlyPadded(v, t.fields, i);
    var sub, o := t.fields[i].fieldType, Offset(v, t.fields, i);
    if End(v, t.fields, i) <= o {
      FieldAligned(v, t.fields, i, at);
      ApartOnlyWhenClean(v, sub, at + o);
      OverlapInField(v, t.fields, i, at);
    } else {
      StartsAfterEnd(v, t.fields, i);
      BackwardsOverlaps(t.fields, i, at);
    }
    OverlapSpreads(v, t.fields, i + 1, |t.fields|, at);
  }

  /** No two leaves of a record, at any depth, share a byte exactly when no field at any depth is
      padded backwards; a true align-up needs no condition. */
  lemma LeavesDisjointExactlyWhenNeverRoundedDown(v: Variant, t: FieldType, at: nat)
    requires NonEmpty(t) && Alignment(t) > 0 && at % Alignment(t) == 0
    ensures AllApart(Leaves(v, t, at)) <==> v.Repaired? || NeverRoundsDownAtAnyDepth(t)
  {
    CleanExactlyWhenNeverRoundedDown(v, t);
    if CleanlyPadded(v, t) {
      LeavesDisjoint(v, t, at);
    } else {
      ApartOnlyWhenClean(v, t, at);
    }
  }

  /** Three bytes followed by a 64-bit integer: the coded layout puts the integer back at offset 0. */
  lemma CodedLayoutCanOverlap(name: Bytes)
    ensures var u8, u64 := Field(name, Primitive(UInt8)), Field(name, Primitive(UInt64));
            var fields := [u8, u8, u8, u64];
            NonEmptyFields(fields) && Offset(AsCoded, fields, 0) == 0 == Offset(AsCoded, fields, 3)
  {
    var u8, u64 := Field(name, Primitive(UInt8)), Field(name, Primitive(UInt64));
    var fields := [u8, u8, u8, u64];
    assert NonEmpty(u8.fieldType) && NonEmpty(u64.fieldType);
    SmallPowers(1);
    SmallPowers(8);
    for i := 0 to 3
      invariant End(AsCoded, fields, i) == i
      invariant i > 0 ==> Offset(AsCoded, fields, 0) == 0
    {
      assert fields[i] == u8;
      CodedPaddingValue(i, 1);
    }
    CodedPaddingValue(3, 8);
  }
}

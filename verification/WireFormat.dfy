/** The wire format byte by byte: what a client in another language has to send and will receive
    (protocol/messages.hpp, db/schema.hpp). */
module WireFormat {
  import opened ByteStrings
  import opened Schemas
  import opened Protocol
  import opened ProtocolLaws

  // Strings

  /** A string is its length, least significant byte first, and its characters. */
  lemma StringWire(a: byte, b: byte, c: byte, d: byte, s: Bytes, rest: Bytes)
    requires |s| == a as int + 256 * b as int + 65536 * c as int + 16777216 * d as int
    ensures ReadString([a, b, c, d] + s + rest) == Ok(s, rest)
    ensures WriteString(s) == [a, b, c, d] + s
  {
    LittleEndian(a, b, c, d, []);
    ReadStringWrite(s, rest);
  }

  // Field types

  lemma TaggedField(name: Bytes, t: FieldType, tag: byte, rest: Bytes)
    requires FieldInRange(Field(name, t)) && TypeTag(t) == tag
    ensures ReadField(WriteString(name) + [tag] + WriteType(t) + rest) == Ok(Field(name, t), rest)
  {
    ReadFieldWrite(Field(name, t), rest);
  }

  /** The type byte of a field: 0 to 10 for the primitives. */
  lemma PrimitiveFieldWire(name: Bytes, kind: PrimitiveType, rest: Bytes)
    requires |name| < TWO_TO_32
    ensures var tag: byte :=
              match kind
              case Bool => 0
              case UInt8 => 1
              case UInt16 => 2
              case UInt32 => 3
              case UInt64 => 4
              case Int8 => 5
              case Int16 => 6
              case Int32 => 7
              case Int64 => 8
              case Float32 => 9
              case Float64 => 10;
            ReadField(WriteString(name) + [tag] + rest) == Ok(Field(name, Primitive(kind)), rest)
  {
    var tag := PrimitiveTag(kind);
    TaggedField(name, Primitive(kind), tag, rest);
    assert WriteString(name) + [tag] + [] == WriteString(name) + [tag];
  }

  /** 11 for a string, followed by its capacity; 12 for an aggregate, followed by its fields; any
      other byte is invalid. */
  lemma CompoundFieldWire(name: Bytes, capacity: nat, fields: seq<Field>, tag: byte, rest: Bytes)
    requires |name| < TWO_TO_32 && capacity < TWO_TO_32 && FieldsInRange(fields) && tag > 12
    ensures ReadField(WriteString(name) + [11] + U32(capacity) + rest) == Ok(Field(name, String(capacity)), rest)
    ensures ReadField(WriteString(name) + [12] + WriteAggregate(fields) + rest)
         == Ok(Field(name, Aggregate(fields)), rest)
    ensures ReadField(WriteString(name) + [tag] + rest) == Parse.Invalid
  {
    TaggedField(name, String(capacity), 11, rest);
    TaggedField(name, Aggregate(fields), 12, rest);
    ReadStringWrite(name, [tag] + rest);
    ConcatAssoc(WriteString(name), [tag], rest);
    assert ([tag] + rest)[1..] == rest;
  }

  // Aggregates and schemas

  lemma {:induction false} WriteFieldsSnoc(fields: seq<Field>, f: Field)
    ensures WriteFields(fields + [f]) == WriteFields(fields) + WriteField(f)
  {
    if fields == [] {
      assert [f][1..] == [];
      assert WriteField(f) + [] == [] + WriteField(f);
    } else {
      assert (fields + [f])[1..] == fields[1..] + [f];
      WriteFieldsSnoc(fields[1..], f);
      ConcatAssoc(WriteField(fields[0]), WriteFields(fields[1..]), WriteField(f));
    }
  }

  /** An aggregate is its field count and its fields, first to last. */
  lemma AggregateWire(fields: seq<Field>, f: Field, rest: Bytes)
    requires FieldsInRange(fields + [f])
    ensures ReadAggregate([0, 0, 0, 0] + rest) == Ok([], rest)
    ensures ReadAggregate(U32(|fields| + 1) + WriteFields(fields) + WriteField(f) + rest) == Ok(fields + [f], rest)
  {
    LittleEndian(0, 0, 0, 0, []);
    ReadAggregateWrite([], rest);
    assert U32(0) + [] == [0, 0, 0, 0];
    WriteFieldsSnoc(fields, f);
    ConcatAssoc(U32(|fields| + 1), WriteFields(fields), WriteField(f));
    ReadAggregateWrite(fields + [f], rest);
  }

  /** A schema is its aggregate and the index of its key field, which has to be that of a field. */
  lemma SchemaWire(fields: seq<Field>, key: nat, rest: Bytes)
    requires FieldsInRange(fields) && key < TWO_TO_32
    ensures ReadSchema(WriteAggregate(fields) + U32(key) + rest) ==
              if key < |fields| then Ok(Schema(fields, key), rest) else Parse.Invalid
  {
    ConcatAssoc(WriteAggregate(fields), U32(key), rest);
    ReadAggregateWrite(fields, U32(key) + rest);
    ReadU32Write(key, rest);
  }

  // Commands

  lemma TaggedCommand(cmd: Command, tag: byte, args: Bytes, rest: Bytes)
    requires CommandInRange(cmd) && CommandTag(cmd) == tag && WriteCommandArgs(cmd) == args
    ensures ReadCommand([tag] + args + rest) == Ok(cmd, rest) && WriteCommand(cmd) == [tag] + args
  {
    ReadCommandWrite(cmd, rest);
  }

  /** The first byte of each command, and what follows it. */
  lemma CommandWire(a: Bytes, b: Bytes, schema: Schema, rest: Bytes)
    requires |a| < TWO_TO_32 && |b| < TWO_TO_32 && SchemaInRange(schema)
    ensures ReadCommand([1] + (WriteString(a) + WriteSchema(schema)) + rest) == Ok(RegisterSchema(a, schema), rest)
    ensures ReadCommand([2] + (WriteString(a) + WriteString(b)) + rest) == Ok(CreateCollection(a, b), rest)
    ensures ReadCommand([3] + WriteString(a) + rest) == Ok(GetSchema(a), rest)
    ensures ReadCommand([4] + WriteString(a) + rest) == Ok(GetCollectionSchema(a), rest)
    ensures ReadCommand([5] + (WriteString(a) + WriteString(b)) + rest) == Ok(Get(a, b), rest)
    ensures ReadCommand([6] + (WriteString(a) + WriteString(b)) + rest) == Ok(Put(a, b), rest)
    ensures ReadCommand([7] + (WriteString(a) + WriteString(b)) + rest) == Ok(Delete(a, b), rest)
  {
    TaggedCommand(RegisterSchema(a, schema), 1, WriteString(a) + WriteSchema(schema), rest);
    TaggedCommand(CreateCollection(a, b), 2, WriteString(a) + WriteString(b), rest);
    TaggedCommand(GetSchema(a), 3, WriteString(a), rest);
    TaggedCommand(GetCollectionSchema(a), 4, WriteString(a), rest);
    TaggedCommand(Get(a, b), 5, WriteString(a) + WriteString(b), rest);
    TaggedCommand(Put(a, b), 6, WriteString(a) + WriteString(b), rest);
    TaggedCommand(Delete(a, b), 7, WriteString(a) + WriteString(b), rest);
  }

  /** No other first byte begins a command or a response. */
  lemma OtherBytesInvalid(tag: byte, rest: Bytes)
    requires tag == 0 || tag > 7
    ensures ReadCommand([tag] + rest) == Parse.Invalid && ReadResponse([tag] + rest) == Parse.Invalid
  {
    assert ([tag] + rest)[0] == tag;
  }

  // Responses

  lemma TaggedResponse(res: Response, tag: byte, args: Bytes, rest: Bytes)
    requires ResponseInRange(res) && ResponseTag(res) == tag && WriteResponseArgs(res) == args
    ensures ReadResponse([tag] + args + rest) == Ok(res, rest) && WriteResponse(res) == [tag] + args
  {
    ReadResponseWrite(res, rest);
  }

  /** The first byte of each response, and what follows it. */
  lemma ResponseWire(value: Bytes, schema: Schema, rest: Bytes)
    requires |value| < TWO_TO_32 && SchemaInRange(schema)
    ensures WriteResponse(Success) == [1] && WriteResponse(Failed) == [2]
    ensures WriteResponse(InvalidCommand) == [3] && WriteResponse(NotFound) == [4]
    ensures WriteResponse(Found(value)) == [5] + WriteString(value)
    ensures WriteResponse(StringValue(value)) == [6] + WriteString(value)
    ensures WriteResponse(SchemaValue(schema)) == [7] + WriteSchema(schema)
    ensures ReadResponse([1] + rest) == Ok(Success, rest) && ReadResponse([2] + rest) == Ok(Failed, rest)
    ensures ReadResponse([3] + rest) == Ok(InvalidCommand, rest) && ReadResponse([4] + rest) == Ok(NotFound, rest)
    ensures ReadResponse([5] + WriteString(value) + rest) == Ok(Found(value), rest)
    ensures ReadResponse([6] + WriteString(value) + rest) == Ok(StringValue(value), rest)
    ensures ReadResponse([7] + WriteSchema(schema) + rest) == Ok(SchemaValue(schema), rest)
  {
    TaggedResponse(Success, 1, [], rest);
    TaggedResponse(Failed, 2, [], rest);
    TaggedResponse(InvalidCommand, 3, [], rest);
    TaggedResponse(NotFound, 4, [], rest);
    assert forall tag: byte :: [tag] + [] == [tag];
    TaggedResponse(Found(value), 5, WriteString(value), rest);
    TaggedResponse(StringValue(value), 6, WriteString(value), rest);
    TaggedResponse(SchemaValue(schema), 7, WriteSchema(schema), rest);
  }

  // One whole message

  /** Registers `u` with a 64-character string `id` as its key and a 64-bit unsigned integer `n`. */
  function ExampleBytes(): Bytes {
    [1] + [1, 0, 0, 0, 117]
    + ([2, 0, 0, 0] + ([2, 0, 0, 0, 105, 100] + [11] + [64, 0, 0, 0]) + ([1, 0, 0, 0, 110] + [4]) + [0, 0, 0, 0])
  }

  function ExampleSchema(): Schema {
    Schema([Field([105, 100], String(64)), Field([110], Primitive(UInt64))], 0)
  }

  lemma ExampleFields()
    ensures WriteField(ExampleSchema().fields[0]) == [2, 0, 0, 0, 105, 100] + [11] + [64, 0, 0, 0]
    ensures WriteField(ExampleSchema().fields[1]) == [1, 0, 0, 0, 110] + [4]
  {
    StringWire(2, 0, 0, 0, [105, 100], []);
    StringWire(1, 0, 0, 0, [110], []);
    LittleEndian(64, 0, 0, 0, []);
    assert [2, 0, 0, 0] + [105, 100] == [2, 0, 0, 0, 105, 100] && [1, 0, 0, 0] + [110] == [1, 0, 0, 0, 110];
    assert [1, 0, 0, 0, 110] + [4] + [] == [1, 0, 0, 0, 110] + [4];
  }

  lemma ExampleSchemaWire()
    ensures WriteSchema(ExampleSchema()) ==
              [2, 0, 0, 0] + ([2, 0, 0, 0, 105, 100] + [11] + [64, 0, 0, 0]) + ([1, 0, 0, 0, 110] + [4]) + [0, 0, 0, 0]
  {
    var first, second := ExampleSchema().fields[0], ExampleSchema().fields[1];
    ExampleFields();
    LittleEndian(2, 0, 0, 0, []);
    LittleEndian(0, 0, 0, 0, []);
    WriteFieldsSnoc([first], second);
    WriteFieldsSnoc([], first);
    assert [] + [first] == [first] && [first] + [second] == ExampleSchema().fields;
    assert [] + WriteField(first) == WriteField(first);
    ConcatAssoc([2, 0, 0, 0], WriteField(first), WriteField(second));
  }

  lemma ExampleMessage(rest: Bytes)
    ensures ReadCommand(ExampleBytes() + rest) == Ok(RegisterSchema([117], ExampleSchema()), rest)
  {
    ExampleSchemaWire();
    StringWire(1, 0, 0, 0, [117], []);
    assert [1, 0, 0, 0] + [117] == [1, 0, 0, 0, 117];
    CommandWire([117], [], ExampleSchema(), rest);
    ConcatAssoc([1], [1, 0, 0, 0, 117], WriteSchema(ExampleSchema()));
  }
}

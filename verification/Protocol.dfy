/** The wire format as a pair of functions: what a message is written as, and what a buffer is
    read as (protocol/binary_protocol.cpp, core/serialize.*, protocol/messages.hpp). */
module Protocol {
  import opened ByteStrings
  import opened Schemas

  datatype Command =
    | RegisterSchema(name: Bytes, schema: Schema)
    | CreateCollection(name: Bytes, schemaName: Bytes)
    | GetSchema(name: Bytes)
    | GetCollectionSchema(name: Bytes)
    | Get(name: Bytes, key: Bytes)
    | Put(name: Bytes, value: Bytes)
    | Delete(name: Bytes, key: Bytes)

  datatype Response =
    | Success
    | Failed
    | InvalidCommand
    | NotFound
    | Found(value: Bytes)
    | StringValue(value: Bytes)
    | SchemaValue(schema: Schema)

  // Tags: the alternative's index in its variant. Index 0 of both message variants is the empty state.

  function PrimitiveTag(kind: PrimitiveType): byte {
    match kind
    case Bool => 0 case UInt8 => 1 case UInt16 => 2 case UInt32 => 3 case UInt64 => 4
    case Int8 => 5 case Int16 => 6 case Int32 => 7 case Int64 => 8
    case Float32 => 9 case Float64 => 10
  }

  function PrimitiveOfTag(tag: byte): PrimitiveType
    requires tag <= 10
  {
    [Bool, UInt8, UInt16, UInt32, UInt64, Int8, Int16, Int32, Int64, Float32, Float64][tag]
  }

  const STRING_TAG: byte := 11
  const AGGREGATE_TAG: byte := 12

  function TypeTag(t: FieldType): byte {
    match t
    case Primitive(kind) => PrimitiveTag(kind)
    case String(_) => STRING_TAG
    case Aggregate(_) => AGGREGATE_TAG
  }

  function CommandTag(cmd: Command): byte {
    match cmd
    case RegisterSchema(_, _) => 1
    case CreateCollection(_, _) => 2
    case GetSchema(_) => 3
    case GetCollectionSchema(_) => 4
    case Get(_, _) => 5
    case Put(_, _) => 6
    case Delete(_, _) => 7
  }

  function ResponseTag(res: Response): byte {
    match res
    case Success => 1
    case Failed => 2
    case InvalidCommand => 3
    case NotFound => 4
    case Found(_) => 5
    case StringValue(_) => 6
    case SchemaValue(_) => 7
  }

  // Writing

  function WriteString(s: Bytes): Bytes {
    U32(|s|) + s
  }

  function WriteType(t: FieldType): Bytes
    decreases t, 0
  {
    match t
    case Primitive(_) => []
    case String(capacity) => U32(capacity)
    case Aggregate(fields) => WriteAggregate(fields)
  }

  function WriteField(f: Field): Bytes
    decreases f, 0
  {
    WriteString(f.name) + [TypeTag(f.fieldType)] + WriteType(f.fieldType)
  }

  function WriteFields(fields: seq<Field>): Bytes
    decreases fields, 0
  {
    if fields == [] then [] else WriteField(fields[0]) + WriteFields(fields[1..])
  }

  function WriteAggregate(fields: seq<Field>): Bytes
    decreases fields, 1
  {
    U32(|fields|) + WriteFields(fields)
  }

  function WriteSchema(schema: Schema): Bytes {
    WriteAggregate(schema.fields) + U32(schema.keyFieldIndex)
  }

  function WriteCommandArgs(cmd: Command): Bytes {
    match cmd
    case RegisterSchema(name, schema) => WriteString(name) + WriteSchema(schema)
    case CreateCollection(name, schemaName) => WriteString(name) + WriteString(schemaName)
    case GetSchema(name) => WriteString(name)
    case GetCollectionSchema(name) => WriteString(name)
    case Get(name, key) => WriteString(name) + WriteString(key)
    case Put(name, value) => WriteString(name) + WriteString(value)
    case Delete(name, key) => WriteString(name) + WriteString(key)
  }

  function WriteCommand(cmd: Command): Bytes {
    [CommandTag(cmd)] + WriteCommandArgs(cmd)
  }

  function WriteResponseArgs(res: Response): Bytes {
    match res
    case Found(value) => WriteString(value)
    case StringValue(value) => WriteString(value)
    case SchemaValue(schema) => WriteSchema(schema)
    case _ => []
  }

  function WriteResponse(res: Response): Bytes {
    [ResponseTag(res)] + WriteResponseArgs(res)
  }

  // Reading: on success, the value and the bytes that the cursor is left at

  datatype Parse<+T> = Ok(value: T, rest: Bytes) | Incomplete | Invalid {
    predicate IsFailure() { !Ok? }
    function PropagateFailure<U>(): Parse<U>
      requires IsFailure()
    {
      if Incomplete? then Parse.Incomplete else Parse.Invalid
    }
    function Extract(): (T, Bytes)
      requires Ok?
    {
      (value, rest)
    }
  }

  function ReadByte(bs: Bytes): Parse<byte> {
    if |bs| < 1 then Incomplete else Ok(bs[0], bs[1..])
  }

  function ReadU32(bs: Bytes): Parse<nat> {
    if |bs| < 4 then Incomplete else Ok(U32At(bs), bs[4..])
  }

  function ReadString(bs: Bytes): Parse<Bytes> {
    var (len, bs) :- ReadU32(bs);
    if |bs| < len then Incomplete else Ok(bs[..len], bs[len..])
  }

  /** The part of a field's type that follows its tag. */
  function ReadType(tag: byte, bs: Bytes): (p: Parse<FieldType>)
    ensures p.Ok? ==> |p.rest| <= |bs|
    decreases |bs|, 1
  {
    if tag <= 10 then
      Ok(Primitive(PrimitiveOfTag(tag)), bs)
    else if tag == STRING_TAG then
      var (capacity, bs) :- ReadU32(bs);
      Ok(String(capacity), bs)
    else if tag == AGGREGATE_TAG then
      var (fields, bs) :- ReadAggregate(bs);
      Ok(Aggregate(fields), bs)
    else
      Invalid
  }

  function ReadField(bs: Bytes): (p: Parse<Field>)
    ensures p.Ok? ==> |p.rest| < |bs|
    decreases |bs|, 0
  {
    var (name, bs) :- ReadString(bs);
    var (tag, bs) :- ReadByte(bs);
    var (t, bs) :- ReadType(tag, bs);
    Ok(Field(name, t), bs)
  }

  function ReadFields(count: nat, bs: Bytes): (p: Parse<seq<Field>>)
    ensures p.Ok? ==> |p.rest| <= |bs| && |p.value| == count
    decreases |bs|, count + 1
  {
    if count == 0 then
      Ok([], bs)
    else
      var (f, bs) :- ReadField(bs);
      var (fields, bs) :- ReadFields(count - 1, bs);
      Ok([f] + fields, bs)
  }

  function ReadAggregate(bs: Bytes): (p: Parse<seq<Field>>)
    ensures p.Ok? ==> |p.rest| < |bs|
    decreases |bs|, 0
  {
    var (count, bs) :- ReadU32(bs);
    ReadFields(count, bs)
  }

  function ReadSchema(bs: Bytes): Parse<Schema> {
    var (fields, bs) :- ReadAggregate(bs);
    var (key, bs) :- ReadU32(bs);
    if key >= |fields| then Invalid else Ok(Schema(fields, key), bs)
  }

  function ReadTwoStrings(bs: Bytes): Parse<(Bytes, Bytes)> {
    var (first, bs) :- ReadString(bs);
    var (second, bs) :- ReadString(bs);
    Ok((first, second), bs)
  }

  /** The commands that consist of two strings, and those that consist of one. */
  function TwoStringCommand(tag: byte, a: Bytes, b: Bytes): Command {
    if tag == 2 then CreateCollection(a, b)
    else if tag == 5 then Get(a, b)
    else if tag == 6 then Put(a, b)
    else Delete(a, b)
  }

  function NameCommand(tag: byte, name: Bytes): Command {
    if tag == 3 then GetSchema(name) else GetCollectionSchema(name)
  }

  function ReadCommandArgs(tag: byte, bs: Bytes): (p: Parse<Command>)
    ensures p.Ok? ==> |p.rest| <= |bs|
  {
    if tag == 1 then
      var (name, bs) :- ReadString(bs);
      var (schema, bs) :- ReadSchema(bs);
      Ok(RegisterSchema(name, schema), bs)
    else if tag == 3 || tag == 4 then
      var (name, bs) :- ReadString(bs);
      Ok(NameCommand(tag, name), bs)
    else if tag == 2 || 5 <= tag <= 7 then
      var (args, bs) :- ReadTwoStrings(bs);
      Ok(TwoStringCommand(tag, args.0, args.1), bs)
    else
      Invalid
  }

  function ReadCommand(bs: Bytes): (p: Parse<Command>)
    ensures p.Ok? ==> |p.rest| < |bs|
  {
    var (tag, bs) :- ReadByte(bs);
    ReadCommandArgs(tag, bs)
  }

  function ReadResponseArgs(tag: byte, bs: Bytes): (p: Parse<Response>)
    ensures p.Ok? ==> |p.rest| <= |bs|
  {
    if tag == 1 then Ok(Success, bs)
    else if tag == 2 then Ok(Failed, bs)
    else if tag == 3 then Ok(InvalidCommand, bs)
    else if tag == 4 then Ok(NotFound, bs)
    else if tag == 5 then
      var (value, bs) :- ReadString(bs);
      Ok(Found(value), bs)
    else if tag == 6 then
      var (value, bs) :- ReadString(bs);
      Ok(StringValue(value), bs)
    else if tag == 7 then
      var (schema, bs) :- ReadSchema(bs);
      Ok(SchemaValue(schema), bs)
    else
      Invalid
  }

  function ReadResponse(bs: Bytes): (p: Parse<Response>)
    ensures p.Ok? ==> |p.rest| < |bs|
  {
    var (tag, bs) :- ReadByte(bs);
    ReadResponseArgs(tag, bs)
  }

  // The messages that survive the 32-bit length fields

  predicate TypeInRange(t: FieldType)
    decreases t
  {
    match t
    case Primitive(_) => true
    case String(capacity) => capacity < TWO_TO_32
    case Aggregate(fields) => FieldsInRange(fields)
  }

  predicate FieldsInRange(fields: seq<Field>)
    decreases fields, |fields|
  {
    |fields| < TWO_TO_32 && forall i | 0 <= i < |fields| :: FieldInRange(fields[i])
  }

  predicate FieldInRange(f: Field)
    decreases f
  {
    |f.name| < TWO_TO_32 && TypeInRange(f.fieldType)
  }

  predicate SchemaInRange(schema: Schema) {
    FieldsInRange(schema.fields) && schema.keyFieldIndex < |schema.fields|
  }

  predicate CommandInRange(cmd: Command) {
    match cmd
    case RegisterSchema(name, schema) => |name| < TWO_TO_32 && SchemaInRange(schema)
    case CreateCollection(name, schemaName) => |name| < TWO_TO_32 && |schemaName| < TWO_TO_32
    case GetSchema(name) => |name| < TWO_TO_32
    case GetCollectionSchema(name) => |name| < TWO_TO_32
    case Get(name, key) => |name| < TWO_TO_32 && |key| < TWO_TO_32
    case Put(name, value) => |name| < TWO_TO_32 && |value| < TWO_TO_32
    case Delete(name, key) => |name| < TWO_TO_32 && |key| < TWO_TO_32
  }

  predicate ResponseInRange(res: Response) {
    match res
    case Found(value) => |value| < TWO_TO_32
    case StringValue(value) => |value| < TWO_TO_32
    case SchemaValue(schema) => SchemaInRange(schema)
    case _ => true
  }
}

/** The readers and writers as the sources run them: a cursor that moves, loops that push fields
    back, and a sink that grows. Each is proved to compute the functions of `Protocol`. */
module Codec {
  import opened Wrappers
  import opened ByteStrings
  import opened Schemas
  import opened P = Protocol

  datatype ReadResult = SUCCESS | INCOMPLETE | INVALID

  /** A view of `len` bytes of a buffer, starting at `data`. */
  class Span {
    const buffer: Bytes
    var data: nat
    var len: nat

    constructor (buffer: Bytes, data: nat, len: nat)
      requires data + len <= |buffer|
      ensures Valid() && this.buffer == buffer && this.data == data && this.len == len
    {
      this.buffer, this.data, this.len := buffer, data, len;
    }

    constructor Copy(from: Span)
      requires from.Valid()
      ensures Valid() && buffer == from.buffer && data == from.data && len == from.len
    {
      buffer, data, len := from.buffer, from.data, from.len;
    }

    ghost predicate Valid()
      reads this
    {
      data + len <= |buffer|
    }

    function Bytes(): (bs: Bytes)
      requires Valid()
      reads this
      ensures |bs| == len
    {
      buffer[data..data + len]
    }

    method RemovePrefix(count: nat)
      requires Valid() && count <= len
      modifies this
      ensures Valid() && data == old(data) + count
      ensures Bytes() == old(Bytes())[count..]
    {
      data := data + count;
      len := len - count;
    }

    /** `*this = other`, for views of one buffer. */
    method Assign(other: Span)
      requires other.Valid() && other.buffer == buffer
      modifies this
      ensures Valid() && data == other.data && Bytes() == other.Bytes()
    {
      data, len := other.data, other.len;
    }
  }

  /** Where a cursor stands after a primitive read: past the value, or where it was. */
  method TakeByte(c: Span) returns (r: Option<byte>)
    requires c.Valid()
    modifies c
    ensures c.Valid()
    ensures match P.ReadByte(old(c.Bytes()))
            case Ok(v, rest) => r == Some(v) && c.Bytes() == rest
            case _ => r == None && c.Bytes() == old(c.Bytes())
    ensures c.data + c.len == old(c.data + c.len)
  {
    if c.len < 1 {
      return None;
    }
    var v := c.Bytes()[0];
    c.RemovePrefix(1);
    return Some(v);
  }

  method TakeU32(c: Span) returns (r: Option<nat>)
    requires c.Valid()
    modifies c
    ensures c.Valid()
    ensures match P.ReadU32(old(c.Bytes()))
            case Ok(v, rest) => r == Some(v) && c.Bytes() == rest
            case _ => r == None && c.Bytes() == old(c.Bytes())
    ensures c.data + c.len == old(c.data + c.len)
  {
    if c.len < 4 {
      return None;
    }
    var v := U32At(c.Bytes());
    c.RemovePrefix(4);
    return Some(v);
  }

  /** A string whose body has not arrived leaves the cursor past its length prefix. */
  method TakeString(c: Span) returns (r: Option<Bytes>)
    requires c.Valid()
    modifies c
    ensures c.Valid()
    ensures match P.ReadString(old(c.Bytes()))
            case Ok(v, rest) => r == Some(v) && c.Bytes() == rest
            case _ => r == None && c.Bytes() == if old(c.len) < 4 then old(c.Bytes()) else old(c.Bytes())[4..]
    ensures c.data + c.len == old(c.data + c.len)
  {
    if c.len < 4 {
      return None;
    }
    var len := TakeU32(c);
    if len == None {
      return None;
    }
    if c.len < len.value {
      return None;
    }
    var s := c.Bytes()[..len.value];
    c.RemovePrefix(len.value);
    return Some(s);
  }

  /** What a reader promises its caller: the verdict, the value if any, and a cursor that moves
      only on success. */
  ghost predicate Delivers<T>(p: Parse<T>, res: ReadResult, out: Option<T>, before: Bytes, after: Bytes) {
    match p
    case Ok(v, rest) => res == SUCCESS && out == Some(v) && after == rest
    case Incomplete => res == INCOMPLETE && out == None && after == before
    case Invalid => res == INVALID && out == None && after == before
  }

  ghost function Prepend(agg: seq<Field>, p: Parse<seq<Field>>): Parse<seq<Field>> {
    match p
    case Ok(fields, rest) => Ok(agg + fields, rest)
    case _ => p
  }

  lemma PrependNothing(p: Parse<seq<Field>>)
    ensures Prepend([], p) == p
  {
    if p.Ok? {
      assert [] + p.value == p.value;
    }
  }

  lemma ReadFieldsFirst(count: nat, bs: Bytes)
    requires count > 0
    ensures match P.ReadField(bs)
            case Ok(_, _) => true
            case Incomplete => P.ReadFields(count, bs) == Parse.Incomplete
            case Invalid => P.ReadFields(count, bs) == Parse.Invalid
  {
  }

  lemma PrependStep(agg: seq<Field>, count: nat, bs: Bytes)
    requires count > 0 && P.ReadField(bs).Ok?
    ensures var f := P.ReadField(bs);
            Prepend(agg, P.ReadFields(count, bs)) == Prepend(agg + [f.value], P.ReadFields(count - 1, f.rest))
  {
    var f := P.ReadField(bs);
    var tail := P.ReadFields(count - 1, f.rest);
    if tail.Ok? {
      assert agg + ([f.value] + tail.value) == agg + [f.value] + tail.value;
    }
  }

  /** The verdict and value of a step of a reader on its working copy `c`, which may be left
      anywhere when the step fails. */
  ghost predicate Steps<T>(p: Parse<T>, res: ReadResult, out: Option<T>, after: Bytes) {
    match p
    case Ok(v, rest) => res == SUCCESS && out == Some(v) && after == rest
    case Incomplete => res == INCOMPLETE && out == None
    case Invalid => res == INVALID && out == None
  }

  lemma ReadFieldSteps(bs: Bytes)
    requires P.ReadString(bs).Ok? && P.ReadByte(P.ReadString(bs).rest).Ok?
    ensures var name, tag := P.ReadString(bs), P.ReadByte(P.ReadString(bs).rest);
            P.ReadField(bs) ==
              match P.ReadType(tag.value, tag.rest)
              case Ok(t, rest) => Ok(Field(name.value, t), rest)
              case Incomplete => Parse.Incomplete
              case Invalid => Parse.Invalid
  {
  }

  /** One iteration of the field loop. */
  method ReadField(c: Span) returns (res: ReadResult, out: Option<Field>)
    requires c.Valid()
    modifies c
    ensures c.Valid() && c.data + c.len == old(c.data + c.len)
    ensures Steps(P.ReadField(old(c.Bytes())), res, out, c.Bytes())
    decreases c.len, 0
  {
    ghost var bs := c.Bytes();
    var name := TakeString(c);
    var typeIndex := TakeByte(c);
    if name == None || typeIndex == None {
      return INCOMPLETE, None;
    }
    ReadFieldSteps(bs);
    if typeIndex.value <= 10 {
      return SUCCESS, Some(Field(name.value, Primitive(PrimitiveOfTag(typeIndex.value))));
    } else if typeIndex.value == STRING_TAG {
      var capacity := TakeU32(c);
      if capacity == None {
        return INCOMPLETE, None;
      }
      return SUCCESS, Some(Field(name.value, String(capacity.value)));
    } else if typeIndex.value == AGGREGATE_TAG {
      var nestedRes, nested := ReadAggregate(c);
      if nestedRes != SUCCESS {
        return nestedRes, None;
      }
      return SUCCESS, Some(Field(name.value, Aggregate(nested.value)));
    } else {
      return INVALID, None;
    }
  }

  /** The field loop, on the working copy. */
  method ReadFields(fieldCount: nat, c: Span) returns (res: ReadResult, out: Option<seq<Field>>)
    requires c.Valid()
    modifies c
    ensures c.Valid() && c.data + c.len == old(c.data + c.len)
    ensures Steps(P.ReadFields(fieldCount, old(c.Bytes())), res, out, c.Bytes())
    decreases c.len, 1
  {
    ghost var goal := P.ReadFields(fieldCount, c.Bytes());
    var agg: seq<Field> := [];
    PrependNothing(goal);
    var i := 0;
    while i < fieldCount
      invariant i <= fieldCount
      invariant c.Valid() && c.len <= old(c.len) && c.data + c.len == old(c.data + c.len)
      invariant goal == Prepend(agg, P.ReadFields(fieldCount - i, c.Bytes()))
    {
      ghost var bs := c.Bytes();
      ReadFieldsFirst(fieldCount - i, bs);
      var fieldRes, field := ReadField(c);
      if fieldRes != SUCCESS {
        return fieldRes, None;
      }
      PrependStep(agg, fieldCount - i, bs);
      agg := agg + [field.value];
      i := i + 1;
    }
    assert agg + [] == agg;
    return SUCCESS, Some(agg);
  }

  method ReadAggregate(cursor: Span) returns (res: ReadResult, out: Option<seq<Field>>)
    requires cursor.Valid()
    modifies cursor
    ensures cursor.Valid() && cursor.data + cursor.len == old(cursor.data + cursor.len)
    ensures Delivers(P.ReadAggregate(old(cursor.Bytes())), res, out, old(cursor.Bytes()), cursor.Bytes())
    decreases cursor.len, 0
  {
    var c := new Span.Copy(cursor);
    var fieldCount := TakeU32(c);
    if fieldCount == None {
      return INCOMPLETE, None;
    }
    res, out := ReadFields(fieldCount.value, c);
    if res == SUCCESS {
      cursor.Assign(c);
    }
  }

  method ReadSchema(cursor: Span) returns (res: ReadResult, out: Option<Schema>)
    requires cursor.Valid()
    modifies cursor
    ensures cursor.Valid() && cursor.data + cursor.len == old(cursor.data + cursor.len)
    ensures Delivers(P.ReadSchema(old(cursor.Bytes())), res, out, old(cursor.Bytes()), cursor.Bytes())
  {
    var c := new Span.Copy(cursor);
    var aggRes, fields := ReadAggregate(c);
    if aggRes != SUCCESS {
      return aggRes, None;
    }
    var keyFieldIndex := TakeU32(c);
    if keyFieldIndex == None {
      return INCOMPLETE, None;
    }
    if keyFieldIndex.value >= |fields.value| {
      return INVALID, None;
    }
    cursor.Assign(c);
    return SUCCESS, Some(Schema(fields.value, keyFieldIndex.value));
  }

  method TakeTwoStrings(c: Span) returns (r: Option<(Bytes, Bytes)>)
    requires c.Valid()
    modifies c
    ensures c.Valid() && c.data + c.len == old(c.data + c.len)
    ensures match P.ReadTwoStrings(old(c.Bytes()))
            case Ok(v, rest) => r == Some(v) && c.Bytes() == rest
            case Incomplete => r == None
            case Invalid => false
  {
    var first := TakeString(c);
    var second := TakeString(c);
    if first == None || second == None {
      return None;
    }
    return Some((first.value, second.value));
  }

  /** The cases of the switch on the command's type. */
  method ReadCommandArgs(tag: byte, c: Span) returns (res: ReadResult, out: Option<Command>)
    requires c.Valid()
    modifies c
    ensures c.Valid() && c.data + c.len == old(c.data + c.len)
    ensures Steps(P.ReadCommandArgs(tag, old(c.Bytes())), res, out, c.Bytes())
  {
    if tag == 1 {
      var name := TakeString(c);
      if name == None {
        return INCOMPLETE, None;
      }
      var schemaRes, schema := ReadSchema(c);
      if schemaRes != SUCCESS {
        return schemaRes, None;
      }
      return SUCCESS, Some(RegisterSchema(name.value, schema.value));
    } else if tag == 3 || tag == 4 {
      var name := TakeString(c);
      if name == None {
        return INCOMPLETE, None;
      }
      return SUCCESS, Some(NameCommand(tag, name.value));
    } else if tag == 2 || 5 <= tag <= 7 {
      var args := TakeTwoStrings(c);
      if args == None {
        return INCOMPLETE, None;
      }
      return SUCCESS, Some(TwoStringCommand(tag, args.value.0, args.value.1));
    } else {
      return INVALID, None;
    }
  }

  method ReadCommand(cursor: Span) returns (res: ReadResult, out: Option<Command>)
    requires cursor.Valid()
    modifies cursor
    ensures cursor.Valid() && cursor.data + cursor.len == old(cursor.data + cursor.len)
    ensures Delivers(P.ReadCommand(old(cursor.Bytes())), res, out, old(cursor.Bytes()), cursor.Bytes())
  {
    var c := new Span.Copy(cursor);
    var tag := TakeByte(c);
    if tag == None {
      return INCOMPLETE, None;
    }
    assert P.ReadCommand(cursor.Bytes()) == P.ReadCommandArgs(tag.value, c.Bytes());
    res, out := ReadCommandArgs(tag.value, c);
    if res == SUCCESS {
      cursor.Assign(c);
    }
  }

  /** The cases of the switch on the response's type. */
  method ReadResponseArgs(tag: byte, c: Span) returns (res: ReadResult, out: Option<Response>)
    requires c.Valid()
    modifies c
    ensures c.Valid() && c.data + c.len == old(c.data + c.len)
    ensures Steps(P.ReadResponseArgs(tag, old(c.Bytes())), res, out, c.Bytes())
  {
    if 1 <= tag <= 4 {
      var value := if tag == 1 then Success
                   else if tag == 2 then Failed
                   else if tag == 3 then InvalidCommand
                   else NotFound;
      return SUCCESS, Some(value);
    } else if tag == 5 || tag == 6 {
      var value := TakeString(c);
      if value == None {
        return INCOMPLETE, None;
      }
      return SUCCESS, Some(if tag == 5 then Found(value.value) else StringValue(value.value));
    } else if tag == 7 {
      var schemaRes, schema := ReadSchema(c);
      if schemaRes != SUCCESS {
        return schemaRes, None;
      }
      return SUCCESS, Some(SchemaValue(schema.value));
    } else {
      return INVALID, None;
    }
  }

  method ReadResponse(cursor: Span) returns (res: ReadResult, out: Option<Response>)
    requires cursor.Valid()
    modifies cursor
    ensures cursor.Valid() && cursor.data + cursor.len == old(cursor.data + cursor.len)
    ensures Delivers(P.ReadResponse(old(cursor.Bytes())), res, out, old(cursor.Bytes()), cursor.Bytes())
  {
    var c := new Span.Copy(cursor);
    var tag := TakeByte(c);
    if tag == None {
      return INCOMPLETE, None;
    }
    assert P.ReadResponse(cursor.Bytes()) == P.ReadResponseArgs(tag.value, c.Bytes());
    res, out := ReadResponseArgs(tag.value, c);
    if res == SUCCESS {
      cursor.Assign(c);
    }
  }

  /** The growing buffer behind a `write_fn`. */
  class Sink {
    var bytes: Bytes

    constructor ()
      ensures bytes == []
    {
      bytes := [];
    }

    method Emit(bs: Bytes)
      modifies this
      ensures bytes == old(bytes) + bs
    {
      bytes := bytes + bs;
    }
  }

  method WriteAggregate(w: Sink, agg: seq<Field>)
    modifies w
    ensures w.bytes == old(w.bytes) + P.WriteAggregate(agg)
    decreases agg
  {
    w.Emit(U32(|agg|));
    ghost var start := w.bytes;
    var i := 0;
    while i < |agg|
      invariant i <= |agg|
      invariant w.bytes + P.WriteFields(agg[i..]) == start + P.WriteFields(agg)
    {
      var field := agg[i];
      ghost var before, tail := w.bytes, P.WriteFields(agg[i + 1..]);
      w.Emit(P.WriteString(field.name));
      w.Emit([TypeTag(field.fieldType)]);
      match field.fieldType {
        case Primitive(_) =>
        case String(capacity) => w.Emit(U32(capacity));
        case Aggregate(fields) => WriteAggregate(w, fields);
      }
      assert w.bytes == before + P.WriteField(field);
      assert agg[i..][1..] == agg[i + 1..];
      ConcatAssoc(before, P.WriteField(field), tail);
      i := i + 1;
    }
    assert w.bytes == start + P.WriteFields(agg);
  }

  method WriteSchema(w: Sink, schema: Schema)
    modifies w
    ensures w.bytes == old(w.bytes) + P.WriteSchema(schema)
  {
    WriteAggregate(w, schema.fields);
    w.Emit(U32(schema.keyFieldIndex));
  }

  method WriteTwoStrings(w: Sink, a: Bytes, b: Bytes)
    modifies w
    ensures w.bytes == old(w.bytes) + (P.WriteString(a) + P.WriteString(b))
  {
    w.Emit(P.WriteString(a));
    w.Emit(P.WriteString(b));
    ConcatAssoc(old(w.bytes), P.WriteString(a), P.WriteString(b));
  }

  method WriteCommand(w: Sink, cmd: Command)
    modifies w
    ensures w.bytes == old(w.bytes) + P.WriteCommand(cmd)
  {
    w.Emit([CommandTag(cmd)]);
    ghost var tagged := w.bytes;
    match cmd {
      case RegisterSchema(name, schema) =>
        w.Emit(P.WriteString(name));
        WriteSchema(w, schema);
        ConcatAssoc(tagged, P.WriteString(name), P.WriteSchema(schema));
      case CreateCollection(name, schemaName) => WriteTwoStrings(w, name, schemaName);
      case GetSchema(name) => w.Emit(P.WriteString(name));
      case GetCollectionSchema(name) => w.Emit(P.WriteString(name));
      case Get(name, key) => WriteTwoStrings(w, name, key);
      case Put(name, value) => WriteTwoStrings(w, name, value);
      case Delete(name, key) => WriteTwoStrings(w, name, key);
    }
    assert w.bytes == tagged + P.WriteCommandArgs(cmd);
    ConcatAssoc(old(w.bytes), [CommandTag(cmd)], P.WriteCommandArgs(cmd));
  }

  method WriteResponse(w: Sink, res: Response)
    modifies w
    ensures w.bytes == old(w.bytes) + P.WriteResponse(res)
  {
    w.Emit([ResponseTag(res)]);
    ghost var tagged := w.bytes;
    match res {
      case Found(value) => w.Emit(P.WriteString(value));
      case StringValue(value) => w.Emit(P.WriteString(value));
      case SchemaValue(schema) => WriteSchema(w, schema);
      case _ => assert tagged + [] == tagged;
    }
    assert w.bytes == tagged + P.WriteResponseArgs(res);
    ConcatAssoc(old(w.bytes), [ResponseTag(res)], P.WriteResponseArgs(res));
  }
}

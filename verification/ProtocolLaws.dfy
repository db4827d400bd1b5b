/** Reading and writing are inverse, and reading is insensitive to how much has arrived. */
module ProtocolLaws {
  import opened ByteStrings
  import opened Schemas
  import opened Protocol

  // 1. Verdicts other than INCOMPLETE are stable under appending bytes.

  ghost predicate Extends<T>(p: Parse<T>, q: Parse<T>, ext: Bytes) {
    match p
    case Ok(v, rest) => q == Ok(v, rest + ext)
    case Invalid => q == Parse.Invalid
    case Incomplete => true
  }

  lemma ReadByteExtends(bs: Bytes, ext: Bytes)
    ensures Extends(ReadByte(bs), ReadByte(bs + ext), ext)
  {
    if |bs| >= 1 {
      assert (bs + ext)[1..] == bs[1..] + ext;
    }
  }

  lemma ReadU32Extends(bs: Bytes, ext: Bytes)
    ensures Extends(ReadU32(bs), ReadU32(bs + ext), ext)
  {
    if |bs| >= 4 {
      assert (bs + ext)[4..] == bs[4..] + ext;
    }
  }

  lemma ReadStringExtends(bs: Bytes, ext: Bytes)
    ensures Extends(ReadString(bs), ReadString(bs + ext), ext)
  {
    ReadU32Extends(bs, ext);
    if ReadString(bs).Ok? {
      var len, rest := ReadU32(bs).value, ReadU32(bs).rest;
      assert (rest + ext)[..len] == rest[..len];
      assert (rest + ext)[len..] == rest[len..] + ext;
    }
  }

  lemma {:induction false} ReadTypeExtends(tag: byte, bs: Bytes, ext: Bytes)
    ensures Extends(ReadType(tag, bs), ReadType(tag, bs + ext), ext)
    decreases |bs|, 1
  {
    if tag == STRING_TAG {
      ReadU32Extends(bs, ext);
    } else if tag == AGGREGATE_TAG {
      ReadAggregateExtends(bs, ext);
    }
  }

  lemma {:induction false} ReadFieldExtends(bs: Bytes, ext: Bytes)
    ensures Extends(ReadField(bs), ReadField(bs + ext), ext)
    decreases |bs|, 0
  {
    ReadStringExtends(bs, ext);
    var name := ReadString(bs);
    if name.Ok? {
      ReadByteExtends(name.rest, ext);
      var tag := ReadByte(name.rest);
      if tag.Ok? {
        ReadTypeExtends(tag.value, tag.rest, ext);
      }
    }
  }

  lemma {:induction false} ReadFieldsExtends(count: nat, bs: Bytes, ext: Bytes)
    ensures Extends(ReadFields(count, bs), ReadFields(count, bs + ext), ext)
    decreases |bs|, count + 1
  {
    if count > 0 {
      ReadFieldExtends(bs, ext);
      var f := ReadField(bs);
      if f.Ok? {
        ReadFieldsExtends(count - 1, f.rest, ext);
      }
    }
  }

  lemma {:induction false} ReadAggregateExtends(bs: Bytes, ext: Bytes)
    ensures Extends(ReadAggregate(bs), ReadAggregate(bs + ext), ext)
    decreases |bs|, 0
  {
    ReadU32Extends(bs, ext);
    var count := ReadU32(bs);
    if count.Ok? {
      ReadFieldsExtends(count.value, count.rest, ext);
    }
  }

  lemma ReadSchemaExtends(bs: Bytes, ext: Bytes)
    ensures Extends(ReadSchema(bs), ReadSchema(bs + ext), ext)
  {
    ReadAggregateExtends(bs, ext);
    var fields := ReadAggregate(bs);
    if fields.Ok? {
      ReadU32Extends(fields.rest, ext);
    }
  }

  lemma ReadTwoStringsExtends(bs: Bytes, ext: Bytes)
    ensures Extends(ReadTwoStrings(bs), ReadTwoStrings(bs + ext), ext)
  {
    ReadStringExtends(bs, ext);
    if ReadString(bs).Ok? {
      ReadStringExtends(ReadString(bs).rest, ext);
    }
  }

  lemma ReadCommandArgsExtends(tag: byte, bs: Bytes, ext: Bytes)
    ensures Extends(ReadCommandArgs(tag, bs), ReadCommandArgs(tag, bs + ext), ext)
  {
    if tag == 1 {
      ReadStringExtends(bs, ext);
      if ReadString(bs).Ok? {
        ReadSchemaExtends(ReadString(bs).rest, ext);
      }
    } else if tag == 3 || tag == 4 {
      ReadStringExtends(bs, ext);
    } else {
      ReadTwoStringsExtends(bs, ext);
    }
  }

  /** A command that was read, or rejected, stays so whatever arrives after it. */
  lemma ReadCommandExtends(bs: Bytes, ext: Bytes)
    ensures Extends(ReadCommand(bs), ReadCommand(bs + ext), ext)
  {
    ReadByteExtends(bs, ext);
    if bs != [] {
      ReadCommandArgsExtends(bs[0], bs[1..], ext);
    }
  }

  lemma ReadResponseArgsExtends(tag: byte, bs: Bytes, ext: Bytes)
    ensures Extends(ReadResponseArgs(tag, bs), ReadResponseArgs(tag, bs + ext), ext)
  {
    if tag == 7 {
      ReadSchemaExtends(bs, ext);
    } else {
      ReadStringExtends(bs, ext);
    }
  }

  lemma ReadResponseExtends(bs: Bytes, ext: Bytes)
    ensures Extends(ReadResponse(bs), ReadResponse(bs + ext), ext)
  {
    ReadByteExtends(bs, ext);
    if bs != [] {
      ReadResponseArgsExtends(bs[0], bs[1..], ext);
    }
  }

  // 2. Canonicity: whatever is read is what its value is written as.

  lemma ReadU32Canonical(bs: Bytes)
    ensures ReadU32(bs).Ok? ==> bs == U32(ReadU32(bs).value) + ReadU32(bs).rest
  {
    if |bs| >= 4 {
      U32U32At(bs);
      assert bs == bs[..4] + bs[4..];
    }
  }

  lemma ReadStringCanonical(bs: Bytes)
    ensures var p := ReadString(bs);
            p.Ok? ==> |p.value| < TWO_TO_32 && bs == WriteString(p.value) + p.rest
  {
    ReadU32Canonical(bs);
    var len := ReadU32(bs);
    if ReadString(bs).Ok? {
      assert len.rest == len.rest[..len.value] + len.rest[len.value..];
    }
  }

  lemma {:induction false} ReadTypeCanonical(tag: byte, bs: Bytes)
    ensures var p := ReadType(tag, bs);
            p.Ok? ==> TypeInRange(p.value) && TypeTag(p.value) == tag && bs == WriteType(p.value) + p.rest
    decreases |bs|, 1
  {
    if tag == STRING_TAG {
      ReadU32Canonical(bs);
    } else if tag == AGGREGATE_TAG {
      ReadAggregateCanonical(bs);
    }
  }

  lemma {:induction false} ReadFieldCanonical(bs: Bytes)
    ensures var p := ReadField(bs);
            p.Ok? ==> FieldInRange(p.value) && bs == WriteField(p.value) + p.rest
    decreases |bs|, 0
  {
    ReadStringCanonical(bs);
    var name := ReadString(bs);
    if name.Ok? {
      var tag := ReadByte(name.rest);
      if tag.Ok? {
        assert name.rest == [tag.value] + tag.rest;
        ReadTypeCanonical(tag.value, tag.rest);
        var t := ReadType(tag.value, tag.rest);
        if t.Ok? {
          var s, w := WriteString(name.value), WriteType(t.value);
          ConcatAssoc([tag.value], w, t.rest);
          ConcatAssoc(s, [tag.value] + w, t.rest);
          ConcatAssoc(s, [tag.value], w);
        }
      }
    }
  }

  lemma {:induction false} ReadFieldsCanonical(count: nat, bs: Bytes)
    ensures var p := ReadFields(count, bs);
            p.Ok? ==> (forall i | 0 <= i < count :: FieldInRange(p.value[i])) && bs == WriteFields(p.value) + p.rest
    decreases |bs|, count + 1
  {
    if count == 0 {
      assert bs == [] + bs;
    } else {
      ReadFieldCanonical(bs);
      var f := ReadField(bs);
      if f.Ok? {
        ReadFieldsCanonical(count - 1, f.rest);
        var tail := ReadFields(count - 1, f.rest);
        if tail.Ok? {
          FieldsCons(f.value, tail.value, tail.rest);
        }
      }
    }
  }

  lemma FieldsCons(f: Field, fields: seq<Field>, rest: Bytes)
    ensures WriteFields([f] + fields) + rest == WriteField(f) + (WriteFields(fields) + rest)
    ensures FieldInRange(f) && (forall i | 0 <= i < |fields| :: FieldInRange(fields[i])) ==>
              forall i | 0 <= i < |[f] + fields| :: FieldInRange(([f] + fields)[i])
  {
    assert ([f] + fields)[1..] == fields;
    ConcatAssoc(WriteField(f), WriteFields(fields), rest);
  }

  lemma {:induction false} ReadAggregateCanonical(bs: Bytes)
    ensures var p := ReadAggregate(bs);
            p.Ok? ==> FieldsInRange(p.value) && bs == WriteAggregate(p.value) + p.rest
    decreases |bs|, 0
  {
    ReadU32Canonical(bs);
    var count := ReadU32(bs);
    if count.Ok? {
      ReadFieldsCanonical(count.value, count.rest);
    }
  }

  lemma ReadSchemaCanonical(bs: Bytes)
    ensures var p := ReadSchema(bs);
            p.Ok? ==> SchemaInRange(p.value) && bs == WriteSchema(p.value) + p.rest
  {
    ReadAggregateCanonical(bs);
    if ReadAggregate(bs).Ok? {
      ReadU32Canonical(ReadAggregate(bs).rest);
    }
  }

  lemma ReadTwoStringsCanonical(bs: Bytes)
    ensures var p := ReadTwoStrings(bs);
            p.Ok? ==>
              && |p.value.0| < TWO_TO_32 && |p.value.1| < TWO_TO_32
              && bs == WriteString(p.value.0) + WriteString(p.value.1) + p.rest
  {
    ReadStringCanonical(bs);
    if ReadString(bs).Ok? {
      ReadStringCanonical(ReadString(bs).rest);
    }
  }

  lemma RegisterSchemaCanonical(bs: Bytes)
    ensures var p := ReadCommandArgs(1, bs);
            p.Ok? ==> CommandInRange(p.value) && bs == WriteCommandArgs(p.value) + p.rest
  {
    ReadStringCanonical(bs);
    var name := ReadString(bs);
    if name.Ok? {
      ReadSchemaCanonical(name.rest);
      var schema := ReadSchema(name.rest);
      if schema.Ok? {
        ConcatAssoc(WriteString(name.value), WriteSchema(schema.value), schema.rest);
      }
    }
  }

  lemma TwoStringCommandCanonical(tag: byte, bs: Bytes)
    requires tag == 2 || 5 <= tag <= 7
    ensures var p := ReadCommandArgs(tag, bs);
            p.Ok? ==>
              && CommandInRange(p.value) && CommandTag(p.value) == tag
              && bs == WriteCommandArgs(p.value) + p.rest
  {
    ReadTwoStringsCanonical(bs);
  }

  lemma ReadCommandArgsCanonical(tag: byte, bs: Bytes)
    ensures var p := ReadCommandArgs(tag, bs);
            p.Ok? ==>
              && CommandInRange(p.value) && CommandTag(p.value) == tag
              && bs == WriteCommandArgs(p.value) + p.rest
  {
    if tag == 1 {
      RegisterSchemaCanonical(bs);
    } else if tag == 3 || tag == 4 {
      ReadStringCanonical(bs);
    } else if tag == 2 || 5 <= tag <= 7 {
      TwoStringCommandCanonical(tag, bs);
    }
  }

  /** No two byte strings are read as the same command. */
  lemma ReadCommandCanonical(bs: Bytes)
    ensures var p := ReadCommand(bs);
            p.Ok? ==> CommandInRange(p.value) && bs == WriteCommand(p.value) + p.rest
  {
    var p := ReadCommand(bs);
    if p.Ok? {
      ReadCommandArgsCanonical(bs[0], bs[1..]);
      ConcatAssoc([bs[0]], WriteCommandArgs(p.value), p.rest);
      assert bs == [bs[0]] + bs[1..];
    }
  }

  lemma ReadResponseArgsCanonical(tag: byte, bs: Bytes)
    ensures var p := ReadResponseArgs(tag, bs);
            p.Ok? ==>
              && ResponseInRange(p.value) && ResponseTag(p.value) == tag
              && bs == WriteResponseArgs(p.value) + p.rest
  {
    if tag == 7 {
      ReadSchemaCanonical(bs);
    } else if tag == 5 || tag == 6 {
      ReadStringCanonical(bs);
    } else if ReadResponseArgs(tag, bs).Ok? {
      assert bs == [] + bs;
    }
  }

  lemma ReadResponseCanonical(bs: Bytes)
    ensures var p := ReadResponse(bs);
            p.Ok? ==> ResponseInRange(p.value) && bs == WriteResponse(p.value) + p.rest
  {
    var p := ReadResponse(bs);
    if p.Ok? {
      ReadResponseArgsCanonical(bs[0], bs[1..]);
      ConcatAssoc([bs[0]], WriteResponseArgs(p.value), p.rest);
      assert bs == [bs[0]] + bs[1..];
    }
  }

  // 3. Round trip with arbitrary trailing bytes.

  lemma ReadU32Write(n: nat, rest: Bytes)
    requires n < TWO_TO_32
    ensures ReadU32(U32(n) + rest) == Ok(n, rest)
  {
    U32AtU32(n, rest);
  }

  lemma ReadStringWrite(s: Bytes, rest: Bytes)
    requires |s| < TWO_TO_32
    ensures ReadString(WriteString(s) + rest) == Ok(s, rest)
  {
    ConcatAssoc(U32(|s|), s, rest);
    ReadU32Write(|s|, s + rest);
  }

  lemma {:induction false} ReadTypeWrite(t: FieldType, rest: Bytes)
    requires TypeInRange(t)
    ensures ReadType(TypeTag(t), WriteType(t) + rest) == Ok(t, rest)
    decreases t, 0
  {
    match t
    case Primitive(_) => assert WriteType(t) + rest == rest;
    case String(capacity) => ReadU32Write(capacity, rest);
    case Aggregate(fields) => ReadAggregateWrite(fields, rest);
  }

  lemma {:induction false} ReadFieldWrite(f: Field, rest: Bytes)
    requires FieldInRange(f)
    ensures ReadField(WriteField(f) + rest) == Ok(f, rest)
    decreases f, 0
  {
    var tag, typed := [TypeTag(f.fieldType)], WriteType(f.fieldType);
    ConcatAssoc(WriteString(f.name) + tag, typed, rest);
    ConcatAssoc(WriteString(f.name), tag, typed + rest);
    ReadStringWrite(f.name, tag + (typed + rest));
    ReadTypeWrite(f.fieldType, rest);
  }

  lemma {:induction false} ReadFieldsWrite(fields: seq<Field>, rest: Bytes)
    requires forall i | 0 <= i < |fields| :: FieldInRange(fields[i])
    ensures ReadFields(|fields|, WriteFields(fields) + rest) == Ok(fields, rest)
    decreases fields, 0
  {
    if fields == [] {
      assert WriteFields(fields) + rest == rest;
    } else {
      ConcatAssoc(WriteField(fields[0]), WriteFields(fields[1..]), rest);
      ReadFieldWrite(fields[0], WriteFields(fields[1..]) + rest);
      ReadFieldsWrite(fields[1..], rest);
      assert fields == [fields[0]] + fields[1..];
    }
  }

  lemma {:induction false} ReadAggregateWrite(fields: seq<Field>, rest: Bytes)
    requires FieldsInRange(fields)
    ensures ReadAggregate(WriteAggregate(fields) + rest) == Ok(fields, rest)
    decreases fields, 1
  {
    ConcatAssoc(U32(|fields|), WriteFields(fields), rest);
    ReadU32Write(|fields|, WriteFields(fields) + rest);
    ReadFieldsWrite(fields, rest);
  }

  lemma ReadSchemaWrite(schema: Schema, rest: Bytes)
    requires SchemaInRange(schema)
    ensures ReadSchema(WriteSchema(schema) + rest) == Ok(schema, rest)
  {
    ConcatAssoc(WriteAggregate(schema.fields), U32(schema.keyFieldIndex), rest);
    ReadAggregateWrite(schema.fields, U32(schema.keyFieldIndex) + rest);
    ReadU32Write(schema.keyFieldIndex, rest);
  }

  lemma ReadTwoStringsWrite(a: Bytes, b: Bytes, rest: Bytes)
    requires |a| < TWO_TO_32 && |b| < TWO_TO_32
    ensures ReadTwoStrings(WriteString(a) + WriteString(b) + rest) == Ok((a, b), rest)
  {
    ConcatAssoc(WriteString(a), WriteString(b), rest);
    ReadStringWrite(a, WriteString(b) + rest);
    ReadStringWrite(b, rest);
  }

  lemma RegisterSchemaWrite(name: Bytes, schema: Schema, rest: Bytes)
    requires |name| < TWO_TO_32 && SchemaInRange(schema)
    ensures ReadCommandArgs(1, WriteString(name) + WriteSchema(schema) + rest) == Ok(RegisterSchema(name, schema), rest)
  {
    ConcatAssoc(WriteString(name), WriteSchema(schema), rest);
    ReadStringWrite(name, WriteSchema(schema) + rest);
    ReadSchemaWrite(schema, rest);
  }

  lemma TwoStringCommandWrite(tag: byte, a: Bytes, b: Bytes, rest: Bytes)
    requires (tag == 2 || 5 <= tag <= 7) && |a| < TWO_TO_32 && |b| < TWO_TO_32
    ensures ReadCommandArgs(tag, WriteString(a) + WriteString(b) + rest) == Ok(TwoStringCommand(tag, a, b), rest)
  {
    ReadTwoStringsWrite(a, b, rest);
  }

  lemma ReadCommandArgsWrite(cmd: Command, rest: Bytes)
    requires CommandInRange(cmd)
    ensures ReadCommandArgs(CommandTag(cmd), WriteCommandArgs(cmd) + rest) == Ok(cmd, rest)
  {
    match cmd {
      case RegisterSchema(name, schema) => RegisterSchemaWrite(name, schema, rest);
      case GetSchema(name) => ReadStringWrite(name, rest);
      case GetCollectionSchema(name) => ReadStringWrite(name, rest);
      case CreateCollection(a, b) => TwoStringCommandWrite(2, a, b, rest);
      case Get(a, b) => TwoStringCommandWrite(5, a, b, rest);
      case Put(a, b) => TwoStringCommandWrite(6, a, b, rest);
      case Delete(a, b) => TwoStringCommandWrite(7, a, b, rest);
    }
  }

  lemma ReadCommandWrite(cmd: Command, rest: Bytes)
    requires CommandInRange(cmd)
    ensures ReadCommand(WriteCommand(cmd) + rest) == Ok(cmd, rest)
  {
    var bs := WriteCommand(cmd) + rest;
    assert bs[0] == CommandTag(cmd) && bs[1..] == WriteCommandArgs(cmd) + rest;
    ReadCommandArgsWrite(cmd, rest);
  }

  lemma ReadResponseWrite(res: Response, rest: Bytes)
    requires ResponseInRange(res)
    ensures ReadResponse(WriteResponse(res) + rest) == Ok(res, rest)
  {
    var bs := WriteResponse(res) + rest;
    assert bs[0] == ResponseTag(res) && bs[1..] == WriteResponseArgs(res) + rest;
    match res {
      case Found(value) => ReadStringWrite(value, rest);
      case StringValue(value) => ReadStringWrite(value, rest);
      case SchemaValue(schema) => ReadSchemaWrite(schema, rest);
      case _ => assert [] + rest == rest;
    }
  }

  // 4. Consequences.

  /** A command or response comes back from its own bytes, whatever follows them, exactly when its
      lengths and counts fit their 32-bit fields and its schema's key index is valid. */
  lemma CommandRoundTrip(cmd: Command, rest: Bytes)
    ensures ReadCommand(WriteCommand(cmd) + rest) == Ok(cmd, rest) <==> CommandInRange(cmd)
  {
    if CommandInRange(cmd) {
      ReadCommandWrite(cmd, rest);
    } else {
      ReadCommandCanonical(WriteCommand(cmd) + rest);
    }
  }

  lemma ResponseRoundTrip(res: Response, rest: Bytes)
    ensures ReadResponse(WriteResponse(res) + rest) == Ok(res, rest) <==> ResponseInRange(res)
  {
    if ResponseInRange(res) {
      ReadResponseWrite(res, rest);
    } else {
      ReadResponseCanonical(WriteResponse(res) + rest);
    }
  }

  /** Every strict prefix of an encoding asks for more bytes: it is neither accepted nor rejected. */
  lemma CommandPrefixIncomplete(cmd: Command, prefix: Bytes)
    requires CommandInRange(cmd) && prefix < WriteCommand(cmd)
    ensures ReadCommand(prefix) == Parse.Incomplete
  {
    var whole := WriteCommand(cmd);
    var ext := whole[|prefix|..];
    assert prefix + ext == whole == whole + [];
    ReadCommandWrite(cmd, []);
    ReadCommandExtends(prefix, ext);
  }

  lemma ResponsePrefixIncomplete(res: Response, prefix: Bytes)
    requires ResponseInRange(res) && prefix < WriteResponse(res)
    ensures ReadResponse(prefix) == Parse.Incomplete
  {
    var whole := WriteResponse(res);
    var ext := whole[|prefix|..];
    assert prefix + ext == whole == whole + [];
    ReadResponseWrite(res, []);
    ReadResponseExtends(prefix, ext);
  }

  /** Reads one response after another until the buffer is used up or one does not read. */
  ghost function ReadResponses(bs: Bytes): (seq<Response>, Bytes)
    decreases |bs|
  {
    var p := ReadResponse(bs);
    if p.Ok? then
      var (more, rest) := ReadResponses(p.rest);
      ([p.value] + more, rest)
    else
      ([], bs)
  }

  function WriteResponses(rs: seq<Response>): Bytes {
    if rs == [] then [] else WriteResponse(rs[0]) + WriteResponses(rs[1..])
  }

  function WriteCommands(cmds: seq<Command>): Bytes {
    if cmds == [] then [] else WriteCommand(cmds[0]) + WriteCommands(cmds[1..])
  }

  /** A stream of responses is self-delimiting. */
  lemma {:induction false} ResponsesRoundTrip(rs: seq<Response>)
    requires forall i | 0 <= i < |rs| :: ResponseInRange(rs[i])
    ensures ReadResponses(WriteResponses(rs)) == (rs, [])
  {
    if rs == [] {
      assert ReadResponse([]).Incomplete?;
    } else {
      var tail := WriteResponses(rs[1..]);
      ReadResponseWrite(rs[0], tail);
      ResponsesRoundTrip(rs[1..]);
      assert ReadResponses(WriteResponse(rs[0]) + tail) == ([rs[0]] + rs[1..], []);
      assert [rs[0]] + rs[1..] == rs;
    }
  }
}

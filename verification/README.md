# Boutique: a verified model

Boutique is a small in-memory document database with its own binary protocol. This project models its
core in Dafny and proves what the parts promise, and what they promise together.

| file | part of the system |
|---|---|
| `Foundations.dfy` | bytes, 32-bit integers in little-endian order, bit masks |
| `Schema.dfy` | schemas; alignment, size and offset of record fields, and the laws of the layout |
| `Protocol.dfy`, `ProtocolLaws.dfy` | the wire format as a pair of functions, and their laws |
| `WireFormat.dfy` | the wire format byte by byte |
| `Codec.dfy` | the incremental readers with their cursor, and the writers with their sink |
| `HashIndex.dfy`, `HashIndexLaws.dfy`, `IndexRuns.dfy` | the open-addressed index with tombstones, growth and swap-removal; one operation; whole runs |
| `IndexExamples.dfy` | runs in which the index, as coded, is no map |
| `Storage.dfy`, `Collection.dfy`, `Database.dfy` | the same on the heap: byte buffer, bucket array, registries |
| `DatabaseModel.dfy` | what a command does to the tables, and to the maps they stand for |
| `DocumentLaws.dfy` | under which bytes a document is filed, and what a command lets later ones see |
| `Session.dfy`, `Clients.dfy`, `Service.dfy` | framing of one byte stream, of many interleaved ones, and the server end to end |
| `ClientHandler.dfy` | the stream buffer and the receive callback over the heap database |
| `EventLoop.dfy`, `EventLoopLaws.dfy` | the one-shot operation queues, for every readiness and every callback |
| `EventLoopRuns.dfy` | what an iteration leaves to the last field, and when a run stops |
| `Transfer.dfy` | receiving and sending whole buffers through partial results |

Code that the sources run step by step is a method or a class here (buckets and documents are arrays that
are probed and written in place); each is proved equal to a function of its old state, and the laws are
proved about those functions.

## What the code does differently from what it says

Four promises do not hold of the code as it is written. The model keeps the code (`AsCoded`), gives a
concrete input that breaks the promise, and proves for all inputs exactly when the code does keep it. Where
there is an evident repair it is modelled beside the code (`Repaired`) and proved without a condition.

* **A put can store a key twice.** The insertion loop takes the first tombstone before it looks for the key
  further on (`db/collection.cpp:166-171`), although the growth step relies on there never being duplicates
  (`db/collection.cpp:75-76`). A put of a key whose hash is not reserved keeps the table a map if and only if it
  grows the table, its key is absent, or no tombstone precedes the key's bucket
  (`PutKeepsTableExactlyWhenSafe`, over runs `SoundExactlyWhenSafe`, and in what a caller can count
  `CountsAgreeExactlyWhenSafe`). For any two keys with the same home a removed key can come back
  (`RemovedKeyComesBack`; with the identity as the hash, keys 1 and 33 are such keys). The repaired loop
  remembers the tombstone and keeps looking.
* **Padding can move a field backwards.** `offset += offset % a; offset &= ~(a - 1)` (`db/schema.cpp:62-63`)
  rounds to the nearest multiple rather than up. Alignment and bounds hold anyway. Fields, and leaves at any
  depth, are disjoint if and only if no remainder `r` has `0 < 2r < a`
  (`DisjointExactlyWhenNeverRoundedDown`, `LeavesDisjointExactlyWhenNeverRoundedDown`); `CodedLayoutCanOverlap` is an
  input where they overlap.
* **A key whose hash is zero is stored but never found**, in any table, because zero marks an empty bucket
  (`ZeroHashLost`; with the identity as the hash, key 0 is such a key). All ones marks a tombstone. Whatever the
  hash function does elsewhere, a put keeps the table a map only if its own key's hash is neither value
  (`PutKeepsTableExactlyWhenSafe`). Removing a key whose hash is all ones can take other documents with it,
  until a put fails (`PutCanFail`); in every run that removes no such key no put fails (`PutsNeverFail`), and
  in any table a put fails exactly when it is full and lacks the key (`PutFailsExactlyWhenFull`).
* **Responses can depend on how the bytes were split**, but only in how often an invalid command is
  reported: once for each later chunk. Two bytes sent together are answered once and sent apart twice
  (`SplitCanRepeat`); the condition is read off the bytes alone (`ResponsesIndependentExactly`).

## Conventions

* Sizes, counts and offsets are unbounded naturals; the 32-bit length, count and capacity fields of the wire
  format are modelled with their truncation.
* Pointers into the document buffer are slot numbers; a pointer to a bucket is its index.
* The hash is an arbitrary function of key type and key bytes. `size / 1.4` is the integer `5 * size / 7`.
* A table keeps the slots that removals leave behind, because a bucket of a table that is no map can still
  point at them. Assertions in the growth step and in a removal are taken as compiled out; they are proved to
  hold in every sound table.
* `select`, sockets and timers are oracles: any set of ready descriptors, any number of bytes moved, any
  finite list of operations submitted by a callback.
* Preconditions are what the sources assert or leave unchecked: a document has exactly its schema's size and
  a string key within its capacity, a primitive lookup key has its type's size, no aggregate is empty, and
  the key field is not an aggregate. A chunk is not empty: receiving nothing closes the connection.

## Model

| member | source | states |
|---|---|---|
| `Bits.AndMask` | db/collection.cpp:160 | masking with a power of two minus one is the remainder, so the home bucket is the hash modulo the table size |
| `Bits.MaskedStep` | db/collection.cpp:183-184 | the masked probe step is the next bucket, or bucket zero after the last |
| `Bits.ClearMask` | db/schema.cpp:63 | clearing the low bits rounds down to a multiple of the power of two |
| `Bits.BitByBit` | db/schema.cpp:63 | both mask operations work bit by bit |
| `ByteStrings.U32AtU32` | core/serialize.hpp:49-52 | reading back a written 32-bit field gives the number modulo 2^32, whatever follows it |
| `ByteStrings.U32U32At` | core/serialize.hpp:27-41 | writing a number that was read reproduces its four bytes |
| `ByteStrings.LittleEndian` | core/serialize.hpp:27-52 | four bytes are read and written least significant first |
| `Schemas.MaxAlignmentIsSmallPower` | db/schema.cpp:20-30 | an aggregate's alignment is the maximum of its fields' alignments, attained by one of them, and 1, 2, 4 or 8 |
| `Schemas.ComputeAlignment` | db/schema.cpp:11-18 | computes the recursive alignment of a field type |
| `Schemas.ComputeAggregateAlignment` | db/schema.cpp:20-30 | the loop over the fields finds the maximum alignment |
| `Schemas.ComputeSize` | db/schema.cpp:34-41 | computes the size of a field type |
| `Schemas.ComputeAggregateSize` | db/schema.cpp:43-45 | the last field's offset plus its size is where the running offset over all fields ends |
| `Schemas.ComputeOffset` | db/schema.cpp:49-73 | the padding loop computes the recursively defined start of the field, as coded |
| `LayoutLaws.CodedPaddingValue` | db/schema.cpp:62-63 | the coded padding rounds to the nearest multiple of a power of two |
| `LayoutLaws.CodedPadding` | db/schema.cpp:61-63 | it always lands on the nearest multiple, and on the next one exactly when the remainder does not satisfy 0 < 2r < a |
| `LayoutLaws.FieldStart` | db/schema.cpp:55-70 | every field starts at the multiple of its alignment nearest to the end of its predecessor, and not before that end exactly when padding does not round down |
| `LayoutLaws.SizeAtLeastAlignment` | db/schema.cpp:34-45 | no type is smaller than its alignment, by mutual induction over nested aggregates |
| `LayoutLaws.EndsGrow` | db/schema.cpp:55-70 | field ends strictly increase even where a start steps back |
| `LayoutLaws.FieldInBounds` | db/schema.cpp:43-73 | every field of every nested schema ends within its aggregate, as coded and repaired |
| `LayoutLaws.SinglePassAgrees` | db/schema.cpp:49-73 | one pass with a running offset finds the same start for every field as the computation from scratch |
| `LayoutLaws.PrimitiveSizes` | db/schema.hpp:46-99 | the size and alignment in bytes of each of the eleven primitive types |
| `LayoutLaws.MixedRecord` | db/test_main.cpp:24-28 | a 64-bit integer, a string of capacity 3 and a signed 64-bit integer start at 0, 8 and 16 and take 24 bytes, aligned to 8 |
| `LayoutLaws.DisjointExactlyWhenNeverRoundedDown` | db/schema.cpp:55-70 | the fields of an aggregate are disjoint if and only if no field's padding rounds down; always with a true align-up |
| `LayoutLaws.LeavesInBounds` | cli/main.cpp:78-104 | every leaf reached through any depth of aggregates lies inside its record |
| `LayoutLaws.LeavesAligned` | cli/main.cpp:78-104 | every leaf at any depth sits at an absolute offset divisible by its own alignment |
| `LayoutLaws.LeavesDisjoint` | db/schema.cpp:49-73 | without backwards padding the leaves' byte ranges are disjoint and in declaration order |
| `LayoutLaws.CleanExactlyWhenNeverRoundedDown` | db/schema.cpp:58-63 | every field at every depth starts no earlier than its predecessor ends if and only if every remainder meets the condition |
| `LayoutLaws.TailCovered` | db/schema.cpp:58-63 | a multiple of four in the last three bytes of a value always lies in a leaf: padding leaves no gap there |
| `LayoutLaws.LeavesDisjointExactlyWhenNeverRoundedDown` | db/schema.cpp:49-73 | no two leaves at any depth share a byte if and only if no field at any depth is padded backwards |
| `LayoutLaws.CodedLayoutCanOverlap` | db/schema.cpp:62-63 | three bytes and a 64-bit integer: the integer is placed at offset 0 again |
| `ProtocolLaws.ReadStringExtends` | core/serialize.cpp:20-41 | a string that was read is read the same with more bytes behind it |
| `ProtocolLaws.ReadFieldsExtends` | protocol/binary_protocol.cpp:30-115 | verdicts of the field loop other than INCOMPLETE are stable under appending bytes, through any nesting |
| `ProtocolLaws.ReadSchemaExtends` | protocol/binary_protocol.cpp:125-154 | the same for schemas, including the rejection of a bad key index |
| `ProtocolLaws.ReadCommandExtends` | protocol/binary_protocol.cpp:185-283 | a command that was read or rejected stays so, with the same bytes consumed, whatever arrives after it |
| `ProtocolLaws.ReadResponseExtends` | protocol/binary_protocol.cpp:285-349 | the same for responses |
| `ProtocolLaws.ReadStringCanonical` | core/serialize.cpp:20-41 | a string that was read, written again, is the bytes consumed |
| `ProtocolLaws.ReadFieldsCanonical` | protocol/binary_protocol.cpp:30-115 | the fields that were read, written again, are the bytes consumed |
| `ProtocolLaws.ReadAggregateCanonical` | protocol/binary_protocol.cpp:15-121 | the same with the count in front; what was read fits its 32-bit fields |
| `ProtocolLaws.ReadSchemaCanonical` | protocol/binary_protocol.cpp:125-179 | the same for schemas; the key index is valid |
| `ProtocolLaws.ReadCommandCanonical` | protocol/binary_protocol.cpp:185-384 | whenever a command is read from any bytes, writing it reproduces exactly the bytes consumed |
| `ProtocolLaws.ReadResponseCanonical` | protocol/binary_protocol.cpp:285-399 | the same for responses |
| `ProtocolLaws.ReadFieldWrite` | protocol/binary_protocol.cpp:161-171 | a field of any nesting comes back from its encoding |
| `ProtocolLaws.ReadAggregateWrite` | protocol/binary_protocol.cpp:15-172 | so does an aggregate, whatever bytes follow |
| `ProtocolLaws.ReadSchemaWrite` | protocol/binary_protocol.cpp:125-179 | so does a schema with a valid key index |
| `ProtocolLaws.ReadCommandWrite` | protocol/binary_protocol.cpp:351-384 | so does every command, with the cursor exactly at what follows |
| `ProtocolLaws.ReadResponseWrite` | protocol/binary_protocol.cpp:386-399 | so does every response |
| `ProtocolLaws.CommandRoundTrip` | protocol/binary_protocol.cpp:185-384 | reading the encoding gives the command back, whatever follows it, if and only if its lengths and counts fit 32 bits and its key index is valid |
| `ProtocolLaws.ResponseRoundTrip` | protocol/binary_protocol.cpp:285-399 | the same for responses |
| `ProtocolLaws.CommandPrefixIncomplete` | protocol/binary_protocol.cpp:185-283 | every strict prefix of a command's encoding is INCOMPLETE |
| `ProtocolLaws.ResponsePrefixIncomplete` | protocol/binary_protocol.cpp:285-349 | every strict prefix of a response's encoding is INCOMPLETE |
| `ProtocolLaws.ResponsesRoundTrip` | protocol/binary_protocol.cpp:285-399 | a stream of responses is self-delimiting: it reads as exactly those responses |
| `WireFormat.StringWire` | core/serialize.cpp:20-56 | a string on the wire is its length, least significant byte first, and its characters |
| `WireFormat.PrimitiveFieldWire` | protocol/binary_protocol.cpp:45-88 | the type bytes 0 to 10 of a field, each with the primitive type it means |
| `WireFormat.CompoundFieldWire` | protocol/binary_protocol.cpp:90-114 | type byte 11 is a string followed by its capacity, 12 an aggregate followed by its fields, and any other is INVALID |
| `WireFormat.AggregateWire` | protocol/binary_protocol.cpp:15-172 | an aggregate on the wire is its field count and its fields, first to last |
| `WireFormat.SchemaWire` | protocol/binary_protocol.cpp:125-179 | a schema on the wire is its aggregate and its key index, INVALID unless it is the index of a field |
| `WireFormat.CommandWire` | protocol/messages.hpp:45-47 | the first byte of each of the seven commands and the order of what follows |
| `WireFormat.ResponseWire` | protocol/messages.hpp:69-71 | the first byte of each of the seven responses and what follows |
| `WireFormat.OtherBytesInvalid` | protocol/binary_protocol.cpp:277-278 | no other first byte begins a command or a response |
| `WireFormat.ExampleMessage` | protocol/binary_protocol.cpp:185-211 | one whole registration, byte for byte |
| `Codec.Span.RemovePrefix` | core/span.hpp:26-30 | the view loses exactly its first bytes |
| `Codec.TakeU32` | core/serialize.hpp:27-41 | a fixed-width read advances the cursor on success and leaves it alone otherwise |
| `Codec.TakeString` | core/serialize.cpp:20-41 | a string read; when the body has not arrived the cursor is left past the length prefix |
| `Codec.ReadField` | protocol/binary_protocol.cpp:31-114 | one round of the field loop on the working copy reaches the verdict and value of the wire format, though a failed name does not stop the tag from being read |
| `Codec.ReadFields` | protocol/binary_protocol.cpp:30-115 | the loop that pushes fields back delivers the field list of the wire format or its first failing verdict |
| `Codec.ReadAggregate` | protocol/binary_protocol.cpp:15-121 | verdict and value of the wire format; the caller's cursor moves only on SUCCESS |
| `Codec.ReadSchema` | protocol/binary_protocol.cpp:125-154 | the same for schemas |
| `Codec.ReadCommand` | protocol/binary_protocol.cpp:185-283 | the same for commands |
| `Codec.ReadResponse` | protocol/binary_protocol.cpp:285-349 | the same for responses |
| `Codec.WriteAggregate` | protocol/binary_protocol.cpp:156-172 | the recursive writer appends exactly the encoding and changes nothing before it |
| `Codec.WriteSchema` | protocol/binary_protocol.cpp:174-179 | the same for schemas |
| `Codec.WriteCommand` | protocol/binary_protocol.cpp:351-384 | the same for commands |
| `Codec.WriteResponse` | protocol/binary_protocol.cpp:386-399 | the same for responses |
| `HashIndex.FindStop` | db/collection.cpp:201-223 | a lookup stops at the first empty or matching bucket on the cyclic path, or visits every bucket |
| `HashIndex.PutStop` | db/collection.cpp:163-190 | an insertion stops at the first empty, tombstone or matching bucket, or visits every bucket |
| `HashIndexLaws.FindCorrect` | db/collection.cpp:193-224 | in a sound index a lookup succeeds exactly for the keys of the indexed documents, at a live bucket of that document, also when no empty bucket is left |
| `HashIndexLaws.FindHolder` | db/collection.cpp:121-128 | the lookup of the last document's key finds the one live bucket of its slot, so the assertion there holds |
| `HashIndexLaws.ZeroHashNeverFound` | db/collection.cpp:204-206 | a key whose hash is the empty marker is never found, in any table |
| `HashIndexLaws.PutStopExists` | db/collection.cpp:186-189 | an insertion never wraps round while some bucket is not live, whatever the table holds |
| `HashIndexLaws.InsertIndexes` | db/collection.cpp:166-171 | writing the new entry where an insertion stops keeps every probe path and the bijection of live buckets and slots |
| `HashIndexLaws.RehashStep` | db/collection.cpp:69-84 | one round of a rehash meets a free bucket, never a duplicate, and indexes one document more |
| `HashIndexLaws.RehashIndexes` | db/collection.cpp:66-87 | rehashing distinct documents meets no duplicate and indexes each at its unchanged slot in a table without tombstones |
| `HashIndexLaws.RehashSucceeds` | db/collection.cpp:69-84 | a rehash into more buckets than documents never fails, not even when keys are stored twice, and leaves no more live buckets than documents |
| `HashIndexLaws.GrowSucceeds` | db/collection.cpp:59-88 | growth of any table that operations can produce never fails; bucket counts are powers of two from 32; room is left for another document |
| `HashIndexLaws.LoadLimitTruncates` | db/collection.cpp:59 | the limit is the bucket count divided by 1.4, truncated |
| `HashIndexLaws.GrowsExactlyAtLimit` | db/collection.cpp:59-64 | a table grows exactly when it has no buckets or its count is one below the limit, to 32 buckets or twice as many |
| `HashIndexLaws.PutBounded` | db/collection.cpp:58-106 | a put into any such table, sound or not, keeps its bounds; while live buckets do not outnumber documents it never fails and keeps it so |
| `HashIndexLaws.PutFailsExactlyWhenFull` | db/collection.cpp:158-191 | a put into any such table returns null if and only if it does not grow the table, every bucket is live and its key is not found |
| `HashIndexLaws.RemoveBounded` | db/collection.cpp:108-136 | so does a removal, unless its key's hash is the tombstone mark |
| `HashIndexLaws.GrowOk` | db/collection.cpp:59-88 | growing a sound table leaves a sound table of the same documents without tombstones |
| `HashIndexLaws.RepairedPutBucket` | db/collection.cpp:163-190 | the repaired probe loop returns the key's bucket if there is one, else the bucket the coded loop stops at |
| `HashIndexLaws.PutCorrect` | db/collection.cpp:58-106 | a safe put never fails, stores the document at the returned slot, keeps the table sound and updates the map at exactly its key |
| `HashIndexLaws.PutBehindTombstone` | db/collection.cpp:166-171 | an as-coded put of a usable key that meets a tombstone before the key's bucket appends a second document under it |
| `HashIndexLaws.PutUnusable` | db/collection.cpp:166-171 | a put of a key with a reserved hash stores a document that no live bucket points to |
| `HashIndexLaws.PutKeepsTableExactlyWhenSafe` | db/collection.cpp:58-106 | for any hash function, a put keeps a sound table sound if and only if its key's hash is not reserved and, as coded, no tombstone misleads it; exactly then it agrees with the repaired put |
| `HashIndexLaws.ModelSwapRemove` | db/storage.cpp:32-43 | filling the freed slot with the last document forgets exactly the removed key |
| `HashIndexLaws.RemovalIndexed` | db/collection.cpp:117-135 | redirecting the moved document's bucket and leaving a tombstone keeps bijection, stored hashes and every probe path |
| `HashIndexLaws.RemoveCorrect` | db/collection.cpp:108-136 | a removal keeps the table sound and forgets exactly its key; an absent key changes nothing in the map |
| `HashIndexLaws.FindIsLookup` | db/collection.cpp:140-150 | a lookup returns exactly what the finite map holds |
| `IndexRuns.StepRefines` | db/collection.cpp:58-150 | each operation on a sound table does what it does on the finite map |
| `IndexRuns.RunRefinesMap` | db/collection.cpp:58-156 | over every run of safe puts the table answers as the finite map does and its count is the map's size |
| `IndexRuns.RepairedRunsAreSafe` | db/collection.cpp:163-190 | with the repaired scan a run is safe if and only if no put has a key with a reserved hash |
| `IndexRuns.FindReturnsLastPut` | db/collection.cpp:58-150 | after any run of safe puts a lookup returns the document last put under its key and not removed since, read off the operations alone |
| `IndexRuns.SoundExactlyWhenSafe` | db/collection.cpp:58-136 | a run never leaves the sound tables if and only if every put is safe in the table it finds |
| `IndexRuns.CountsAgreeExactlyWhenSafe` | db/collection.cpp:156 | over every as-coded run of keys without reserved hashes, the count is the finite map's size after each operation if and only if every put is safe |
| `IndexRuns.PutsNeverFail` | db/collection.cpp:59-64 | in every run that removes no key whose hash is the tombstone mark, safe or not, no put returns null and no growth fails |
| `IndexRuns.PutsNeverFailFromEmpty` | db/collection.cpp:186-189 | the same from an empty collection |
| `IndexExamples.ZeroHashLost` | db/collection.cpp:166-206 | whatever came before, a document put under a key whose hash is zero is not found |
| `IndexExamples.PutCanFail` | db/collection.cpp:186-189 | removing a key whose hash is all ones, twice in each of 31 rounds, leaves a full table that counts nothing; then a put fails |
| `IndexExamples.RemovedKeyComesBack` | db/collection.cpp:158-191 | for any hash and any two keys with the same home, put, put, remove, overwrite and remove leave the removed key with its old document |
| `IndexExamples.KeysOneAndThirtyThreeClash` | db/collection.cpp:160 | under an identity hash, keys 1 and 33 of documents of one size are such keys |
| `IndexRuns.RunPays` | db/collection.cpp:59-64 | the potential that bounds the documents reinserted so far by the puts so far is kept by every run, safe or not |
| `IndexRuns.GrowthIsAmortised` | db/collection.cpp:59-87 | in every run with a put, safe or not, all rehashes together reinsert fewer documents than twice the number of puts |
| `DocumentStorage.WriteSlot` | db/storage.cpp:26 | writing one slot of the packed buffer replaces or appends that document and leaves every other as it was |
| `DocumentStorage.Storage.Resize` | db/storage.cpp:20 | growing the buffer keeps every slot |
| `DocumentStorage.Storage.Reserve` | db/storage.cpp:19-21 | the growth loop takes no step while there is room and one step otherwise: to 16 documents, then to twice the size |
| `DocumentStorage.Storage.Put` | db/storage.cpp:18-30 | the document becomes the last, every other slot is unchanged, and the buffer grows only when it has to |
| `DocumentStorage.Storage.Overwrite` | db/collection.cpp:98-100 | overwriting a slot changes that document only |
| `DocumentStorage.Storage.At` | db/storage.cpp:47-49 | the bytes at an index are the document stored there |
| `DocumentStorage.Storage.Remove` | db/storage.cpp:32-43 | the last document moves into the freed slot; every other slot stays |
| `Collections.Collection.constructor` | db/collection.cpp:17-56 | a new collection is sound and stands for the empty map |
| `Collections.Collection.FindInternal` | db/collection.cpp:193-224 | the masked probe loop terminates after at most one round and finds the bucket that the index defines |
| `Collections.Collection.PutInternal` | db/collection.cpp:158-191 | the insertion loop ends at the first free or matching bucket, writes the entry there if it was free, and changes no other bucket |
| `Collections.Collection.PutInternalRepaired` | db/collection.cpp:158-191 | the repaired loop writes only the bucket of the key or the first free bucket |
| `Collections.Collection.Reinsert` | db/collection.cpp:70-84 | one round of the rehash loop, in place in the new buckets |
| `Collections.Collection.Rebuild` | db/collection.cpp:66-87 | the rehash loop builds exactly the rehashed index and inserts each document again once |
| `Collections.Collection.GrowIfDue` | db/collection.cpp:59-88 | the growth step leaves an intact collection with the same documents |
| `Collections.Collection.Place` | db/collection.cpp:90-106 | the rest of a put, in place, leaves the table and returns the slot that the index defines |
| `Collections.Collection.Put` | db/collection.cpp:58-106 | it never fails, sound collection or not; a sound one stays sound if and only if the put was safe, and then its map has gained exactly this document |
| `Collections.Collection.PutRepaired` | db/collection.cpp:58-106 | with the repaired loop a sound collection stays sound and gains exactly this document if and only if the key's hash is not reserved |
| `Collections.Collection.Count` | db/collection.cpp:156 | the count is the number of keys in the map |
| `Collections.Collection.Find` | db/collection.cpp:140-150 | returns what the index defines, and in a sound collection the document that the map holds under the key |
| `Collections.Collection.Evict` | db/collection.cpp:130-135 | redirects one bucket, removes one document and leaves one tombstone; nothing else changes |
| `Collections.Collection.FindSuccessor` | db/collection.cpp:117-128 | finds the bucket that has to be redirected |
| `Collections.Collection.Remove` | db/collection.cpp:108-136 | the map loses exactly this key and the collection stays sound |
| `DatabaseModel.KeyOffset` | db/collection.cpp:17-20 | the cached key offset leaves the whole key inside the document |
| `DocumentLaws.StringRoom` | db/schema.cpp:34-41 | a string field has room for exactly the encodings of strings within its capacity, and alignment 4 |
| `DocumentLaws.FiledUnderItsKey` | db/collection.cpp:21-55 | a document of its schema's size is filed under a key if and only if it carries it where the layout puts the key field: a string as it is encoded, within its capacity, or a primitive's bytes |
| `DocumentLaws.StringKeyOf` | db/collection.cpp:23-30 | a document put together around an encoded string key is filed under the characters |
| `DocumentLaws.PrimitiveKeyOf` | db/collection.cpp:43-47 | a document put together around a primitive key is filed under its bytes |
| `DocumentLaws.ThreeCharacters` | db/collection.cpp:23-30 | the seven bytes 3, 0, 0, 0, a, b, c are filed under a, b, c |
| `DocumentLaws.RepairedPutAdmissible` | db/collection.cpp:11 | with the repaired scan a put is admissible if and only if the hash of the key it carries is neither zero nor all ones |
| `DocumentLaws.PutThenGet` | server/client_handler.cpp:120-155 | after an admissible put a lookup of the key the document carries finds it |
| `DocumentLaws.PutKeepsOthers` | server/client_handler.cpp:120-155 | and other keys of the collection answer as before |
| `DocumentLaws.DeleteThenGet` | server/client_handler.cpp:156-167 | after a deletion a lookup of its key finds nothing |
| `DocumentLaws.DeleteKeepsOthers` | server/client_handler.cpp:156-167 | and other keys of the collection answer as before |
| `DocumentLaws.OtherCollections` | server/client_handler.cpp:138-167 | a put or deletion leaves the answers of other collections alone |
| `DocumentLaws.RegisterThenGet` | server/client_handler.cpp:84-109 | a registered schema is answered until another takes its name; other names and collections are untouched |
| `DocumentLaws.UnknownNames` | server/client_handler.cpp:91-167 | every command on an unknown name is answered NotFound and changes nothing |
| `DatabaseModel.PutRefines` | server/client_handler.cpp:138-155 | an admissible put answers and changes the database as on the finite map |
| `DatabaseModel.DeleteRefines` | server/client_handler.cpp:156-167 | so does a deletion |
| `DatabaseModel.GetRefines` | server/client_handler.cpp:120-137 | so does a lookup, which changes nothing and whose answer fits the wire format |
| `DatabaseModel.CreateRefines` | server/client_handler.cpp:91-103 | so does the creation of a collection |
| `DatabaseModel.ExecRefines` | server/client_handler.cpp:82-169 | every admissible command keeps the database sound, acts and answers as on the abstract database, and its answer survives the wire |
| `Databases.Database.RegisterSchema` | db/database.cpp:7-10 | only the schema registry changes, at this name; no collection does |
| `Databases.Database.CreateCollection` | db/database.cpp:12-15 | the name stands for an empty collection with this schema, replacing any other; the other collections are untouched |
| `Databases.Database.FindSchema` | db/database.cpp:17-24 | returns the registered schema or nothing |
| `Databases.Database.FindCollection` | db/database.cpp:26-33 | returns the collection that owns its part of the heap, or nothing |
| `Databases.Database.PutInto` | server/client_handler.cpp:148 | a put through the returned pointer never fails and changes only that collection |
| `Databases.Database.RemoveFrom` | server/client_handler.cpp:164 | a removal through the returned pointer changes only that collection |
| `Sessions.DrainThenFeed` | server/client_handler.cpp:42-82 | draining more bytes at once is draining what came first and feeding the rest, except that an invalid command met before is not reported again |
| `Sessions.StuckFeedAll` | server/client_handler.cpp:75-78 | after the first invalid command no later non-empty chunk executes anything, and each yields exactly one InvalidCommand response |
| `Sessions.FirstInvalidMeans` | server/client_handler.cpp:42-53 | the chunk that completes an invalid command is the first whose bytes, with all before them, hold one |
| `Sessions.SplitIrrelevant` | server/client_handler.cpp:42-171 | any split of the bytes gives the same commands, final state and unread tail as one-shot decoding, and the same responses up to repeated InvalidCommands |
| `Sessions.ResponsesIndependentExactly` | server/client_handler.cpp:36-82 | the whole session is independent of the split if and only if no chunk follows the one whose bytes complete an invalid command |
| `Sessions.SplitCanRepeat` | server/client_handler.cpp:75-78 | the bytes 255 and 0 get one InvalidCommand together and two apart |
| `Sessions.ChunkedCommandsExecute` | server/client_handler.cpp:36-172 | the encodings of any commands, split anyhow, execute exactly those commands in order and leave nothing unread |
| `Sessions.DrainIsPeel` | server/client_handler.cpp:48-172 | the loop executes exactly the commands the unread bytes hold, whatever they do to the database |
| `Sessions.PeelExtends` | server/client_handler.cpp:42-53 | peeling what has arrived and then the rest is peeling it all |
| `Clients.ClientsAreSerialised` | server/server.cpp:16-32 | however the chunks of several clients interleave, the server executes one merge of their commands, to which each client contributes exactly what its own bytes hold, in order |
| `Clients.LogAppend` | server/client_handler.cpp:36-176 | what earlier arrivals complete is executed before anything that later arrivals complete |
| `Service.RunRefines` | server/client_handler.cpp:82-169 | any sequence of admissible commands is answered one for one and in order as by the abstract database |
| `Service.NeverFailed` | server/client_handler.cpp:148-154 | no sequence of commands, admissible or not, is ever answered Failed if no deletion's key has the tombstone hash |
| `Service.EndToEnd` | server/client_handler.cpp:36-176 | from an empty server, whatever way a client's bytes are split, the bytes sent back read as exactly the abstract database's responses |
| `Service.ManyClientsRefine` | server/server.cpp:16-32 | whatever bytes any number of clients send, split and interleaved in any way, the server answers as the abstract database executing one merge of their commands |
| `Service.SchemaFrozen` | db/collection.hpp:33-35 | no sequence of commands other than its re-creation changes the schema of an existing collection |
| `Service.RecreationEmpties` | db/database.cpp:12-15 | creating a collection again empties it and takes the schema registered now; others keep their documents |
| `ClientHandlers.StreamBuf.Append` | core/streambuf.cpp:7-10 | the unread bytes gain the new ones at the end |
| `ClientHandlers.StreamBuf.Consume` | core/streambuf.cpp:12-22 | the unread bytes lose exactly that many from the front, also when the buffer is emptied |
| `ClientHandlers.StreamBuf.Size` | core/streambuf.cpp:25 | the number of unread bytes |
| `ClientHandlers.StreamBuf.Empty` | core/streambuf.cpp:27 | true exactly when there are no unread bytes, although it tests the total size |
| `ClientHandlers.ClientHandler.WriteAndSend` | server/client_handler.cpp:55-73 | what was handed over for sending stays the encoding of all responses, in order |
| `ClientHandlers.ClientHandler.Execute` | server/client_handler.cpp:82-169 | each command's effect on the heap is its effect on the tables |
| `ClientHandlers.ClientHandler.ConsumeUpTo` | server/client_handler.cpp:171 | consuming up to the cursor makes the command buffer a view of exactly the unread bytes again |
| `ClientHandlers.ClientHandler.HandleNext` | server/client_handler.cpp:48-172 | one round of the loop keeps the result of draining the session and uses up bytes |
| `ClientHandlers.ClientHandler.HandleCommands` | server/client_handler.cpp:44-172 | the loop drains the session |
| `ClientHandlers.ClientHandler.RecvHandler` | server/client_handler.cpp:36-176 | a non-empty chunk feeds the session and queues the next receive; an empty one closes the connection and changes nothing else |
| `EventLoop.IOContext.Async` | io/context.cpp:12-58 | a new operation on the descriptor joins the end of the queue of its kind, not complete; the other three queues stay |
| `EventLoop.IOContext.Fire` | io/context.cpp:124-155 | the loop over a copied queue runs the callbacks of the ready operations, in order, and marks them |
| `EventLoop.IOContext.Iteration` | io/context.cpp:76-182 | one turn of the loop is the step of the model |
| `EventLoop.IOContext.Run` | io/context.cpp:62-183 | clears the stop flag and turns until stopped, as `EventLoopRuns.RunStopsExactly` says |
| `EventLoopLaws.FireConserves` | io/context.cpp:124-155 | a pass loses no operation and runs none twice, whatever its callbacks submit |
| `EventLoopLaws.FireKeeps` | io/context.cpp:158-168 | after the completed ones are erased, exactly the operations that were not ready are left, in order |
| `EventLoopLaws.IterationMeans` | io/context.cpp:74-182 | an iteration runs exactly the queued and ready operations; survivors keep their order ahead of the newly submitted ones |
| `EventLoopLaws.NewOperationsWait` | io/context.cpp:74-84 | an operation submitted by a callback never fires in that same iteration |
| `EventLoopLaws.CompletesExactlyWhenReady` | io/context.cpp:124-156 | a queued operation completes in an iteration if and only if its descriptor is ready |
| `EventLoopLaws.SubmittedOnceCompletedOnce` | io/context.cpp:12-183 | over every history, including stopping and running again, each submitted operation is pending exactly once or was completed exactly once, and queues stay in submission order |
| `EventLoopRuns.SubmitGrowsOneQueue` | io/context.cpp:12-58 | a submission adds one operation with its descriptor to the queue of its kind and to no other |
| `EventLoopRuns.SubmittedCompletesWhenReady` | io/context.cpp:90-156 | it completes in the next iteration if and only if its descriptor is writable, for a send, or readable, for the other three kinds |
| `EventLoopRuns.IterationExactly` | io/context.cpp:74-182 | each queue becomes what was not ready followed by exactly what the callbacks that ran submitted, in order; the loop is stopped if and only if it was or one of them stops it |
| `EventLoopRuns.TurnRunsUntilStopped` | io/context.cpp:65 | turning executes the iterations up to and including the first that leaves the loop stopped, and none after it |
| `EventLoopRuns.RunStopsExactly` | io/context.cpp:60-65 | a run clears the flag, goes on from the same queues and executes exactly those iterations, one at least, all if none stops it |
| `EventLoopRuns.StopBeforeRun` | io/context.cpp:60-63 | a stop asked for before a run is forgotten by it |
| `Transfers.TransferMoves` | io/helpers.cpp:14-60 | over every run, bytes moved plus bytes left is the original length, the amount moved is what was offered in all up to what was asked and supplied, and the callback fires exactly once, exactly when all is moved |
| `Transfers.PositiveResultsComplete` | io/helpers.cpp:18-34 | with positive results the transfer completes within as many steps as it has bytes |
| `Transfers.Handler.Call` | io/helpers.cpp:18-34 | the handler advances by the result and either reports the original length or queues itself for the rest |
| `Transfers.RecvAll` | io/helpers.cpp:72-78 | the buffer holds an in-order prefix of what arrived, the rest of it is untouched, and no byte of the stream is lost |
| `Transfers.SendAll` | io/helpers.cpp:80-86 | what went out is an in-order prefix of the buffer |

## Left out

- HashIndexLaws.PutCorrect: it needs the safety condition, which is proved to be exact; the promise without it is false.
- IndexRuns.PutsNeverFail: it excludes removals of keys whose hash is all ones, after which the promise is false; the exact condition on the table is PutFailsExactlyWhenFull.
- HashIndex.Remove: in a table that is no map, a removal can fail to find the last document's bucket and the source then dereferences null (or aborts on its assertion); there the model redirects nothing, so statements over all runs cover the source's runs up to that point.
- Clients.ClientsAreSerialised: treats each receive callback as one step, as the single-threaded loop does; the server's client list and its clean-up of closed clients are not modelled.
- EventLoop.IOContext.Run: the loop runs for as long as a finite schedule of readiness lasts; that `select` eventually reports anything is not stated.
- ClientHandlers.ClientHandler.WriteAndSend: responses are appended to the bytes handed over for sending; the order of bytes when several partial sends overlap on one socket is not modelled (the code says it does not handle this).
- Transfers.RecvAll: the event loop is represented by the list of byte counts that the socket chooses, with one transfer in flight for the socket.
- Schemas.ComputeSize: sizes are unbounded, so a schema whose size overflows the machine word is not modelled.
- Codec.ReadAggregate: memory exhaustion by reserving a huge field count, and the depth of the call stack, are not modelled; empty nested aggregates are accepted here, as in the code, and excluded where the layout asserts against them.
- The empty alternative of the two message variants, which the writers assert against.
- Real hash functions, the values of floating-point fields, pointer lifetimes, physical alignment of the buffer.
- `Storage::clear`, `Span` beyond its cursor step, and the null-terminated strings, which the protocol does not use.
- Sockets, timers, `select`, logging, time tracking, and the command-line client except for its walk over the leaves of a record.
- The benchmarks and the template helpers.

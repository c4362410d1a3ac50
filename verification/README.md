# pocket-db in Dafny

pocket-db is a document store in one file. Everything persistent is an append-only log of
CRC-sealed records; everything in memory is rebuilt by replaying it. This project models that
store from the bytes of a record up to the answer of a query, and proves how the layers fit
together. `dafny verify dfyconfig.toml` checks all of it.

## How the model is built

| layer | files | what they hold |
|---|---|---|
| bytes | `Octets`, `Bytes`, `Notation`, `Crc32`, `U29`, `Payloads`, `Records`, `FileFormat` | CRC-32 as a loop over a table and as a bit-serial register, U29, padding, the record frame; and the whole log as it must read, byte by byte |
| log | `LogScan`, `FileStorage` | what reading a file from front to back means; the storage class and its streaming reader over a file that may be overwritten behind it |
| state | `Documents`, `Operations`, `DatabaseState`, `Replay` | documents, operations, collections with their indexes, staged transactions |
| calls | `Calls`, `CallMeaning`, `LiveReplay`, `UniqueConstraint`, `Runs`, `Scenarios`, `OpenTail`, `StoredIds`, `LocalCalls` | every write call as the records it appends and the state it leaves, and as what it does to each document; runs of calls; crashes; a few runs as input of counterexamples |
| compaction | `Compaction`, `LogCompaction`, `CompactedRuns`, `InvisibleCompaction`, `CompactionLoop`, `Resumption`, `Interruption` | which records stay, what opening the compacted file gives, the loop that overwrites the file it reads, and what it leaves when it is stopped |
| live objects | `Backing`, `Indexes`, `IndexManager`, `Collections`, `Database` | the classes whose methods change fields and file, each proved against the layers above; a collection owns its index objects, and queries and constraints ask those |
| queries | `Queries`, `Meaning`, `Compiling`, `Scanning`, `Planner`, `Finding` | queries as compiled, what they mean as they are written, index answers, the choice of candidates |
| cursors | `Sorting`, `Ranking`, `Snapshots`, `Cursor`, `Cache`, `CacheRuns`, `CacheTransparency` | the order of results; reading candidates from cache, range or file; the recency list behind the cache |
| encoders | `Doubles`, `Numbers`, `WriteBuffer`, `BsonGrammar`, `Bson`, `Amf3Grammar`, `Amf3`, `Amf3Weights`, `Encoders`, `Examples` | doubles as bits, the growing buffer, both grammars, both binary encoders and decoders, the counterexamples with documents written out |

Code that changes things step by step is modelled by classes and loops: a method's `ensures` ties
the new file and the new memory to a function of the old ones, and the theorems are about those
functions. What such a function computes is said a second time without it: what a call does to each document
(`CallMeaning`), what a query means (`Meaning`), how results are ordered (`Ranking`), how the cache's list
changes (`Cache.Follows`), which bytes a record and a document are (`FileFormat`, `BsonGrammar`, `Amf3Grammar`).
The function is proved to mean exactly that. So `PocketCollection.InsertMany` is proved to leave the file
and the memory that `Calls.Perform` says, and crash atomicity is proved about runs of `Perform`. `PocketDatabase.Compact`
is proved to leave `CompactedFile`, and that reopening gives the same database is proved about
`CompactedFile`.

Each index is an object with buckets, values by document and, for numbers, the sorted values. The
collection's `Valid` says that they are linked and hold exactly what the state says, so every
method that keeps `Valid` keeps them linked, through calls, replay and compaction.

A world is *synced* (`Runs.Synced`) when opening its file gives exactly its memory, nothing has
to be recovered, no transaction is open, the indexes mirror the documents and unique constraints
hold. The main results say that every call and every compaction keeps a world synced, and what a
crash, a cut or a damaged byte makes of it.

The log layer takes the document encoder as a pair of functions and asks of a document only that,
if it encodes, it decodes to itself. A single write whose document does not encode throws and leaves
everything alone. Two calls are left out of the results about runs, because for them, exactly, they are false
(`Runs.CallSyncedExactly`): a batch that stops halfway for such a document, and an index that memory accepts
under a name too long to be written. Both are decided in `OpenTail`. `Encoders` discharges that for BSON (BSON 1.1 specification) and
for AMF3 (sections 1.3.1, 3.6, 3.11 and 3.12 of the AMF 3 specification).

## Main results

- `Runs.CrashAtomicity`: the file of any run of calls, cut at any byte the run has written, opens as the
  state after a prefix of the calls, in step with its file again exactly if the cut is not inside a transaction
  (`Runs.LivesSynced`: so crash may follow crash).
- `CompactedRuns.ActionsSynced`: after every call and every compaction of every run, opening the file gives
  the memory, offsets and index contents included; `InvisibleCompaction.CompactionIsInvisible`: and the
  compactions cannot be told from the documents, the outcomes or the records appended.
- `LogCompaction.CompactedOpens`, `SpaceAccounting`, `CompactionIdempotent`: what compaction keeps, saves
  and leaves; `Database.PocketDatabase.Compact`: that the loop which overwrites the file under its own
  reader does exactly that.
- `Interruption.InterruptedTorn` and `InterruptedOpens`, with `Resumption.ResumedRebuild`: what opening finds when
  compaction was stopped between two records.
- `Storage.ReadOperations`, `LogScan.ScanCut`, `LogScan.ScanDamaged`: streaming replay for any chunk size,
  torn tails at any byte, and damage that is never read as data.
- `UniqueConstraint.RefusedExactly`, `BatchRefusedExactly` and `Runs.CallKeepsUnique`: writes are refused
  exactly when they must be, and no run breaks a unique index.
- `CallMeaning.UpdateManyMeans`, `InsertManyMeans` and their like: when each call throws, and what it makes of
  every document.
- `Compiling.CompileExact`, `Planner.PlannedFindExact`, `Finding.FoundAsWritten`: a query keeps its meaning
  from the form it is written in to the documents found, or exactly why it does not;
  `Planner.TypedQueryComplete`: nothing is missed by a query that is typed throughout, however nested;
  `Finding.UpdateMany` and `DeleteMany`: and exactly those documents are changed.
- `Ranking.SortMeans`, `Cursors.PocketCursor.WhatRemains`: what a cursor returns, in which order, between skip and limit;
  `Cursors.PocketCursor.Next`, `ToArray`, `Count`: results do not depend on how documents are read;
  `CacheTransparency.CacheIsTransparent`, `CurrentReadsTransparent`: nor on the cache, over runs of calls,
  reads and compactions.
- `CacheRuns.OrderedByUse`, `LeastRecentGoes`: over every run of the cache, what is evicted was used longest ago.
- `FileFormat.OperationExact`, `LogExact`, `Bson.EncodedExactly`, `Amf3.EncodedExactly`: the bytes of the log and of
  documents are exactly those of their formats.
- `Bson.BsonRoundTrip`, `Amf3Weights.Amf3Exact`, `Crc32.TableLoopIsBitSerial`, `Crc32.BurstChangesCrc`,
  `Payloads.LegacyIndexRoundTrip`: the formats.

## What the code does not guarantee

Each line names the lemma that shows it and, where there is one, the exact condition. Counterexamples
about the log are files that calls have written, starting from an empty database.

- **A crash during compaction can lose documents.** docs/compact.md:120-136 says that no data is lost.
  Behind a copy shorter than the record it overwrites stands the middle of that record, and its
  payload bytes are read as a length. Opening then cuts off everything from there on, and of the live
  documents exactly those already read stay (`Interruption.InterruptedTorn`), or the file no longer opens
  (`Interruption.InterruptedCorrupt`). A long document replaced by a short one, and another behind it:
  stopped before the last record, the file opens without that last document
  (`Interruption.InterruptionLosesDocument`, and with two AMF3 documents written out
  `Examples.LongThenShortLosesDocument`).
- **Stopped at a record boundary, compaction can leave a file that no longer opens**: inside a
  transaction, when a collection declared earlier is dropped behind the boundary, or when an index
  operation behind it is blocked, because the index is not there or documents of different times
  collide under it. It opens if and only if none of this is so, and then holds every document, index
  and collection (`Interruption.InterruptedOpens`).
- **An index created again with another type breaks compaction.** Both index records are kept, and
  the compacted file cannot be opened (`Scenarios.RecreatedIndexBreaks`). It can be opened if and
  only if every kept index record agrees with the index as it is (`LogCompaction.CompactedOpens`).
- **A transaction left open at the end of the log swallows what follows.** Opening drops it from
  memory and leaves it in the file; later single records join it, and a later batch makes the next
  opening throw (`OpenTail.AppendBehind`). Memory and file agree after a call if and only if no
  transaction was open or the call appends nothing, the overlong index below excepted
  (`OpenTail.LiveEqualsReplayExactly`, `OpenTail.SilentExactly`). docs/adr/0005-transaction-envelope.md says that a live process and a reopened one
  never disagree.
- **A batch can leave such a transaction behind without a crash.** A document that cannot be encoded
  throws after `txnb` was appended (`Runs.ThrowsHalfway`, an if and only if, and
  `OpenTail.HalfwayLeavesOpen`). An insert made after it succeeds and is gone when the file is opened
  (`OpenTail.LaterInsertLost`, and for a text that AMF3 cannot store `Examples.LongTextHappens`).
- **An index can be in memory and not in the file.** `createIndex` changes the memory first, and throws when the
  field name does not fit its length prefix. The same call again succeeds, and the index, with its constraint if it is
  unique, is gone when the file is opened (`OpenTail.OverlongIndexLost`, `OpenTail.OverlongHappens`). This and the
  batch above are the only calls that put file and memory out of step (`Runs.CallSyncedExactly`).
- **Candidates from an index can miss matches.** A comparison with plus or minus infinity on a number
  index finds nothing (`Planner.InfinityMissed`), and an operand of another type than the index's
  finds nothing (`Planner.OtherTypeMissed`). `Planner.PlannedFindExact` says exactly when nothing is
  missed, `Planner.TypedQueryComplete` gives a condition on the query's operands and the stored values.
- **Two documents cannot exchange unique values in one batch**: `updateMany` checks every new value against
  the values before the batch (`UniqueConstraint.ExchangeRefused`, exactly when in
  `UniqueConstraint.BatchRefusedExactly`).
- **A superseded version can be served after a compaction**, if it is cached under the offset the newer
  version moves to (`CacheTransparency.SupersededVersionServed`, `Examples.LettersServed`). Every read
  of a live document gives that document if and only if this is not so
  (`CacheTransparency.ServesCurrentExactly`), and the cache is true for the compacted file
  if and only if this is not so (`CacheTransparency.TrueAfterExactly`). It cannot be so when cursors read
  current versions only (`CacheTransparency.CurrentReadsTransparent`).
- **BSON loses keys with a zero byte** (`Bson.BsonRoundTrip`, an if and only if).
- **AMF3 stops at an empty key**: an object comes back with the members before it, and what stands behind
  the key is read as if it followed the object (`Amf3.EmptyKeyStops`, `Amf3.Amf3EmptyKey`). No document with an
  empty key comes back, whatever is read there (`Amf3Weights.Amf3Exact`, an if and only if). The headers of
  strings and arrays are wrong from 2^28 on (`Amf3.HeaderExact`, an if and only if).
- **Three one-byte field names collide in the two index layouts**: 0x00, 0x01, and 0x80, which is
  no UTF-8 text (`Payloads.LegacyIndexRoundTrip`, an if and only if).

## Model

| member | source | states |
|---|---|---|
| Crc32.TableLoopIsBitSerial | src/storage/crc32.ts:3-27 | For every byte string the table-driven register equals the bit-serial CRC-32 of section 8 of RFC 1952 |
| Crc32.ComputeCrc32 | src/storage/crc32.ts:3-11 | The loop over the bytes returns the bit-serial CRC, which is defined without any table |
| Crc32.CreateCrc32Table | src/storage/crc32.ts:13-27 | The filled table is the one whose entries shift each byte through the polynomial |
| Crc32.CheckValue | src/storage/crc32.ts:3-27 | The digits 1 to 9 have the checksum 0xcbf43926, the check value of this CRC: polynomial, first register and final complement are its own |
| Crc32.BurstChangesCrc | src/storage/crc32.ts:3-11 | Replacing at most four consecutive bytes by different ones, anywhere in any string, changes the CRC |
| Crc32.BurstChangesChecksum | src/storage/operation-record.ts:15-30 | The same for the four stored checksum bytes |
| U29.RoundTrip | src/storage/u29.ts:8-66 | Decoding a U29 wherever it stands returns the value and consumes exactly the bytes of its encoding, for all 29-bit values |
| U29.DecodeU29Loop | src/storage/u29.ts:38-66 | The decoding loop, errors included, computes the recursive definition of the format |
| U29.LayoutExact | src/storage/u29.ts:8-36 | For every value there is exactly one U29 layout, said byte by byte: seven bits a byte behind high bits, eight in a fourth byte, as short as can be; it is what is written, and above 29 bits there is none |
| U29.ReadExactly | src/storage/u29.ts:38-66 | What is read of a value, and how far, are exactly the bytes that denote it, short as can be or not |
| Records.EncodeOperationRecord | src/storage/operation-record.ts:15-30 | The buffer filled piece by piece is identifier, length, payload and CRC; exactly the impossible records are refused |
| Records.ReadBack | src/storage/operation-record.ts:66-93 | A record is read back from any buffer that holds its encoding, whatever surrounds it |
| FileFormat.RecordExact | src/storage/operation-record.ts:15-30 | A record is written as exactly these bytes: four of identifier, the length with its highest byte first, the payload, and the bit-serial CRC-32 of all three |
| FileFormat.ReadExact | src/storage/operation-record.ts:66-93 | Reading at an offset gives a record if and only if its bytes stand there |
| Records.DecodeRejectsBurst | src/storage/operation-record.ts:32-48 | A change confined to four consecutive covered bytes, or any change of the stored checksum, makes decoding fail |
| Records.ReadWindow | src/storage/file-storage.ts:273-322 | Reading a record from a window onto the file is reading it from the file |
| Payloads.EncodeFramed | src/storage/document-operation.ts:31-53 | The padded payload is fixed bytes, U29 length, body and zeros to a multiple of four; refused exactly above 29 bits |
| Payloads.FramedRoundTrip | src/storage/document-operation.ts:55-81 | Reading a framed body after the fixed bytes returns the body |
| Payloads.PutRoundTrip | src/storage/document-operation.ts:31-81 | A put payload decodes to the collection id, document id and document bytes it was made of |
| Payloads.CurrentIndexRoundTrip | src/storage/index-operation.ts:25-49 | The current index layout decodes to the definition it encodes, for every field |
| Payloads.LegacyIndexRoundTrip | src/storage/index-operation.ts:95-177 | A payload of the layout before 0.1.4 decodes to what it meant if and only if its field is none of the one-byte strings 0x00, 0x01, 0x80 |
| Operations.OperationRoundTrip | src/storage/operation-record.ts:15-48 | Every operation that can be encoded is decoded from its record unchanged, given that its document can be stored |
| Operations.IdentifiersDiffer | src/storage/constants.ts:27-35 | The nine identifiers tell the nine operations apart, so each branch of the dispatch is taken by one operation only |
| FileFormat.FramedExact | src/storage/document-operation.ts:31-53 | A framed payload is exactly the fixed fields, the U29 length, the body and fewer than four zeros up to a multiple of four; there is none for a body beyond 29 bits |
| FileFormat.IdentifierExact | src/storage/document-id.ts:18-27 | A document identifier is written as the twelve bytes whose 24 lower-case hexadecimal digits it is, and nothing else is one |
| FileFormat.OperationExact | src/storage/constants.ts:21-36 | The bytes of an operation in the log, from its four letters to its checksum, are exactly those the format has for it, and it is refused if and only if there are none |
| FileFormat.DecodeExact | src/api/database.ts:291-366 | A record of any bytes is read as an operation if and only if its four letters and its payload are of that operation: lengths, zeros behind the body, and of the two index layouts the current one first |
| Database.UnknownKept | src/api/database.ts:185-186 | A record with any other four letters makes loading throw, and compaction keeps it |
| Database.HoleIgnored | src/api/database.ts:361-363 | A hole changes nothing when it is loaded, and compaction drops it |
| LogScan.ScanEncoded | src/storage/file-storage.ts:268-323 | Reading where records were written one after the other yields exactly them at their true offsets, then goes on with what follows |
| LogScan.ScanCut | src/storage/file-storage.ts:268-336 | A log cut at any byte yields exactly the wholly present records; a torn tail is reported unless the cut is a record boundary |
| LogScan.WholeRecordsExact | src/storage/file-storage.ts:268-336 | The number of records found is the largest whose encodings fit in the bytes that are left |
| LogScan.ScanTruncated | src/storage/file-storage.ts:332-336 | After truncation to the end of the last whole record a second pass finds the same records and nothing to recover |
| LogScan.ScanAppendCut | src/storage/file-storage.ts:148-160 | An append to a clean log cut at any byte adds exactly the records that arrived whole |
| LogScan.ScanDamaged | src/storage/file-storage.ts:296-318 | Up to four damaged bytes outside the length field are never read as data: earlier records are unchanged, then the reading fails hard, or reports a torn tail when the damaged record is the last |
| LogScan.RecordsOrdered | src/storage/file-storage.ts:268-323 | Records of any file do not overlap and come in increasing offsets |
| LogScan.RecordsReadable | src/storage/file-storage.ts:162-178 | Every record the log yields can be read again at its offset |
| FileFormat.LogExact | src/storage/file-storage.ts:268-323 | A log is read to its end without a complaint if and only if it is records one behind the other from the twelfth byte on, and then exactly these are read |
| FileFormat.StopExact | src/storage/file-storage.ts:268-323 | Where no record stands, the log counts as torn if the file ends before or with what the length field announces, and as corrupt otherwise |
| Storage.FileStorage.AppendOperation | src/storage/file-storage.ts:148-160 | Appends exactly the encoded record, returns the old end as its offset, and leaves the file alone when it refuses |
| Storage.FileStorage.ReadOperationAtOffset | src/storage/file-storage.ts:162-178 | Header, payload and checksum read one by one give the outcome of decoding the file at the offset |
| Storage.FileStorage.ReadBulkRange | src/storage/file-storage.ts:211-228 | One buffer from the lowest offset to the end of the record at the highest, in which every covered record reads as in the file |
| Storage.FileStorage.WriteRawAt | src/storage/file-storage.ts:184-186 | Overwrites exactly the bytes at the offset |
| Storage.FileStorage.TruncateTo | src/storage/file-storage.ts:188-191 | Keeps exactly the first bytes |
| Storage.FileStorage.RecoverTornTail | src/storage/file-storage.ts:332-336 | Truncates, and records the exact number of discarded bytes |
| Storage.OperationReader.Fill | src/storage/file-storage.ts:273-286 | The window grows chunk by chunk until the requested bytes are there, and fails exactly when the file ends before |
| Storage.OperationReader.Next | src/storage/file-storage.ts:273-323 | Each step is decided by the original file alone: no chunk size, and no write to bytes already passed, can show; a torn tail is cut off |
| Storage.ReadOperations | src/storage/file-storage.ts:268-336 | For every chunk size the whole pass yields the records of the file, truncates a torn tail with the exact byte count, and a second pass recovers nothing |
| DatabaseState.ApplyMirrors | src/api/database.ts:294-366 | Every operation leads from indexes that hold exactly the documents of their type, at current offsets, to such indexes |
| DatabaseState.RefileKeeps | src/api/collection.ts:756-781 | Filing every document again changes nothing in such indexes |
| DatabaseState.CreateIndexMirrors | src/api/collection.ts:718-740 | A created index holds exactly the existing documents of its type, and the other indexes stay |
| Replay.ReplaySplits | src/api/database.ts:259-292 | Replaying a log is replaying its front and then, from what that gives, its back |
| Replay.ReplayStages | src/api/database.ts:262-291 | Inside a transaction records are only staged; the state does not change |
| Replay.OpenedFile | src/storage/file-storage.ts:268-323 | Opening keeps a prefix of the file, and reports a recovery if and only if something was cut off |
| LiveReplay.CallReplays | src/api/database.ts:259-292 | Replaying any prefix of the records a call appends gives the state before the call, or, if the prefix is all of it, the state the call left in memory; if and only if the call is no index creation that memory accepts and whose record cannot be written |
| LiveReplay.BatchApplies | src/api/collection.ts:200-202 | Applying the staged records at the commit does what the live collection did for the batch |
| LiveReplay.OpenBatchReplays | src/api/database.ts:259-292 | As long as the commit is missing, replay sees the old state |
| UniqueConstraint.BatchKeepsUnique | src/indexes/index-manager.ts:89-125 | A batch that passed the check keeps every unique index free of duplicates, also if it names an id twice |
| UniqueConstraint.RefusedExactly | src/indexes/index-manager.ts:60-75 | A single write is refused if and only if it would leave two documents with one value under a unique index |
| UniqueConstraint.BatchRefusedExactly | src/indexes/index-manager.ts:89-125 | A batch is refused if and only if it would break the constraint or takes over a value another document holds before it |
| UniqueConstraint.ExchangeRefused | src/indexes/index-manager.ts:89-125 | Two documents cannot exchange their values under a unique index in one batch: each value is still held by the other document when the batch is checked |
| UniqueConstraint.CreateRefusedExactly | src/api/collection.ts:718-740 | A new unique index is refused if and only if the documents already break its constraint |
| UniqueConstraint.CreateKeepsUnique | src/api/collection.ts:718-740 | A unique index comes into being only over documents without duplicates |
| Runs.EmptySynced | src/storage/file-storage.ts:85-142 | A file of a header alone opens as the empty database, in step with it |
| Runs.CallKeepsUnique | src/api/collection.ts:153-337 | No call leaves two documents with one value under a unique index |
| Runs.CallKeepsNames | src/api/database.ts:92-111 | Names and collection ids stay in bijection over every call |
| Runs.ReplaySound | src/api/database.ts:259-366 | In every state any log leads to, each index mirrors its documents and ids are well formed |
| Runs.ThrowsHalfway | src/api/collection.ts:192-198 | A call that throws has appended something if and only if it is a batch that passed its checks and holds a document that cannot be encoded |
| Runs.CallSynced | src/api/collection.ts:153-524 | A reasonable call keeps file and memory in step, and changes neither if it throws, be it for a check or for a document that cannot be encoded |
| Runs.CallSyncedExactly | src/api/collection.ts:153-524 | Under new ids and faithful documents a call keeps file and memory in step if and only if it is no batch that stops halfway and no index creation that memory accepts under a name too long to be written |
| Runs.RunSynced | src/api/database.ts:92-111 | After every call of every run, rejected ones included, opening the file gives collections, documents with offsets, index definitions and index contents as they are in memory, and unique constraints hold |
| Runs.CrashAtomicity | src/api/database.ts:259-292 | The file of any run, cut at any byte the run has written, opens, and holds the state after a prefix of the calls: the last one whose bytes are all there. A batch is wholly visible or absent. The reopened database is in step with its file again if and only if the cut is not inside a transaction; otherwise that transaction is open at the end of the log |
| Runs.LivesSynced | src/api/database.ts:259-292 | After any number of runs, each cut short outside a transaction and reopened, the next one starts in step with its file |
| Runs.WholeBatch | src/api/collection.ts:192-198 | A batch reaches its commit exactly when every document can be encoded |
| OpenTail.LiveEqualsReplayExactly | src/api/database.ts:259-292 | After any call, opening gives the state in memory if and only if no transaction was open at the end of the log or the call appends nothing, and the call is no index creation under a name too long to be written |
| OpenTail.SilentExactly | src/api/collection.ts:153-524 | A call appends nothing if and only if a check refuses it, its one record cannot be encoded, or it has nothing to do: decided from the state before the call |
| OpenTail.HalfwayLeavesOpen | src/api/collection.ts:192-198 | A batch that stops halfway changes no memory and leaves its transaction open at the end of the log |
| OpenTail.LaterInsertLost | src/api/collection.ts:192-198 | Counterexample on a file that calls have written: a batch stops halfway, a later insert succeeds, and opening the file gives the collection without it |
| OpenTail.OverlongIndexLost | src/api/collection.ts:500-515 | An index whose field name is longer than 29 bits can count: the call throws, the index is in memory and filled, asking for it again succeeds and does nothing, and the file opens without it |
| OpenTail.OverlongHappens | src/storage/index-operation.ts:25-49 | Such a call exists in a collection that has just been opened, for either type, unique or not |
| Examples.LongTextHappens | src/storage/document-operation.ts:31-53 | Its hypotheses are met with AMF3 by a text beyond the 29-bit length prefix |
| OpenTail.AppendBehind | src/api/database.ts:262-291 | Behind an open transaction one record is swallowed by it, and records that begin with a transaction, whole or stopped halfway, make the next opening throw |
| OpenTail.CallShaped | src/api/collection.ts:153-524 | A call that does not throw appends nothing, one record or one transaction, and one record means that the memory changed |
| LocalCalls.CallsAreLocal | src/api/collection.ts:52-77 | A call on one collection reads and changes no other; its records and outcome are those it has in a database of that collection alone |
| StoredIds.CallKeepsIds | src/api/collection.ts:605-645 | Every document a call writes carries the id it is filed under |
| StoredIds.RunKeepsIds | src/api/collection.ts:605-699 | So does every document after every run of calls and compactions |
| CallMeaning.StoredWritten | src/api/collection.ts:629-645 | What is stored is the given document with its id: every other property as given, none added |
| CallMeaning.WrittenAgrees | src/api/collection.ts:629-645 | So looking up a property finds the id under _id and otherwise what the given document has |
| CallMeaning.FreeIsNotTaken | src/indexes/index-manager.ts:60-75 | A single document is refused if and only if another document has the same string or finite number in a field with a unique index of that type |
| CallMeaning.BatchFreeIsNotTaken | src/indexes/index-manager.ts:89-125 | A batch is refused if and only if one of its documents clashes with another document of the collection, or two of the batch clash with each other |
| CallMeaning.InsertOneMeans | src/api/collection.ts:153-172 | The insert throws if and only if the id is no free identifier, a unique value is taken, or the document cannot be encoded; otherwise exactly one document is added, as given and under that id, and nothing else in the database changes |
| CallMeaning.InsertManyMeans | src/api/collection.ts:174-211 | The same for a batch: it throws if and only if an id is bad or named twice or the documents cannot all be written; otherwise every document is added under its id |
| CallMeaning.ReplaceOneMeans | src/api/collection.ts:217-250 | Throws if and only if the document is missing or the new one cannot be written; otherwise this one is replaced and no other |
| CallMeaning.UpdateOneMeans | src/api/collection.ts:256-283 | A missing document changes nothing; it throws if and only if the update does or its result cannot be written; otherwise this document becomes what the update makes of it |
| CallMeaning.UpdateManyMeans | src/api/collection.ts:285-337 | Throws if and only if the update throws on one of the given documents that are there, or the results cannot be written; otherwise every one of them, not only the first, becomes what the update makes of it, and every other document is the same entry as before |
| CallMeaning.DeleteOneMeans | src/api/collection.ts:417-434 | Never throws; exactly this document is gone, if it was there |
| CallMeaning.DeleteManyMeans | src/api/collection.ts:436-468 | Never throws; exactly the given documents are gone |
| CallMeaning.MirrorsMeans | src/indexes/index-manager.ts:137-153 | Mirrored indexes hold, for each field, exactly the documents with a value of the index’s type, each once under that value at its current offset |
| CallMeaning.CreationMeans | src/api/collection.ts:718-740 | Creating an index is refused if and only if the name is empty, another definition exists, or two documents share a value under a unique one |
| CallMeaning.MakeIndexMeans | src/api/collection.ts:500-524 | The call throws if and only if the creation is refused or a new index has a name too long to be written; unless it is refused, the index is defined and holds exactly the documents with a value of its type, also in the second case |
| CallMeaning.RemoveIndexMeans | src/api/collection.ts:483-498 | Throws if and only if there is no such index or its name is too long to be written; otherwise this definition is gone and nothing else |
| CallMeaning.DropMeans | src/api/collection.ts:470-481 | Never throws in a collection that is there; it is gone with its name, and nothing else |
| CallMeaning.OpenCollectionMeans | src/api/database.ts:92-111 | A known name changes nothing; an unknown one adds one empty collection under the new id, unless its record cannot be written |
| Compaction.KeptRebuild | src/api/database.ts:154-187 | Replaying only the operations that are kept gives the same collections, documents, index definitions and index contents at the moved offsets |
| Compaction.CompactionExact | src/api/database.ts:154-187 | Replaying the kept operations throws or rebuilds the state, and it rebuilds if and only if the kept index records agree with the indexes as they are |
| Scenarios.RecreatedIndexBreaks | src/api/database.ts:171-175 | Counterexample on a file that calls have written: an index created, dropped and created again with another type; file and memory are in step, and the compacted file cannot be opened |
| Compaction.OpsTraced | src/api/database.ts:294-366 | Every collection, document and index of a state comes from its own operation in the log |
| Compaction.KeptNeeded | src/api/database.ts:154-187 | Nothing is kept in vain: without a kept document or collection record, no other operations of the log, in whatever order, rebuild the state |
| LogCompaction.CompactedOpens | src/api/database.ts:113-147 | The compacted file opens if and only if the kept index records agree, and then with exactly the state, offsets included, that compaction left in memory |
| LogCompaction.CompactionSynced | src/api/database.ts:113-147 | After compaction file and memory are in step again, and the file can be compacted again |
| LogCompaction.SpaceAccounting | src/api/database.ts:198-220 | Header, live and dead bytes add up to the file size, and compaction shrinks the file by exactly the dead bytes |
| LogCompaction.CompactionIdempotent | src/api/database.ts:113-147 | The compacted file has no dead record, and compacting it again changes no byte |
| LogCompaction.KeptStamps | src/api/database.ts:154-187 | The operations of the kept records are the kept operations, staging markers left out |
| LogCompaction.SyncedOps | src/api/database.ts:259-292 | The operations of a file in step with memory, commit markers dropped, build that memory |
| CompactedRuns.ActionsSynced | src/api/database.ts:113-147 | After every call and every compaction of every run, opening the file gives the state in memory |
| InvisibleCompaction.SameCall | src/api/collection.ts:153-524 | In states that differ in file offsets only, every call has the same outcome, appends the same records and leads to states that differ in offsets only |
| InvisibleCompaction.CompactionIsInvisible | src/api/database.ts:113-147 | A run with compactions anywhere in between holds the same documents and definitions as the run of its calls alone |
| CompactionLoop.WriteHeadBehind | src/api/database.ts:117-138 | The write position never passes the record about to be read |
| CompactionLoop.LivenessStable | src/api/database.ts:180-182 | Liveness tested against offsets that are already changing equals liveness against the initial ones |
| CompactionLoop.MemoryStep | src/api/database.ts:117-138 | One turn of the loop changes exactly the offset of the document whose current record is moved |
| CompactionLoop.CompactedBacks | src/api/collection.ts:572-597 | In the compacted file every document stands where compaction put it |
| CompactionLoop.RefreshedIsRelocated | src/api/collection.ts:572-597 | Emptying the indexes and filing every document again gives the contents at the new offsets |
| CompactionLoop.SyncedCompactible | src/api/database.ts:113-147 | Every database in step with its file meets what the loop needs |
| Database.FileStep | src/api/database.ts:126-134 | Each raw copy reads the record’s original bytes, puts them where they belong, and leaves everything not yet read as it was |
| Database.PocketDatabase.MoveOne | src/api/database.ts:119-138 | One record: tested against the memory as it is, copied if it has to move, its offset corrected; file and memory are then those of one more record |
| Database.PocketDatabase.MoveRecords | src/api/database.ts:117-140 | The loop under the streaming reader turns the file into the kept records and the offsets into the moved ones |
| Database.PocketDatabase.Compact | src/api/database.ts:113-147 | In place, over the mutable file: the file becomes header and kept records, the memory the relocated state with refreshed indexes |
| Database.PocketDatabase.ShouldKeepOperation | src/api/database.ts:154-187 | Answers for each record whether it is live in the state the memory holds |
| Database.PocketDatabase.RefreshOne | src/api/collection.ts:572-597 | Rereads every document of a collection from the compacted file into its indexes |
| Database.PocketDatabase.ComputeStorageStats | src/api/database.ts:198-257 | One scan tallies live and dead records of the file, and of each live collection those that belong to it, and changes nothing |
| Database.OwnerMeans | src/api/database.ts:226-257 | A record belongs to a collection if and only if it is one of the six operations that name one and the first four bytes of its payload are the id |
| Database.StatisticsMean | src/api/database.ts:189-220 | The numbers of a collection count its own records in their order, those of them that compaction would leave out, and the bytes of both |
| Database.PocketDatabase.LoadCollections | src/api/database.ts:259-292 | The memory becomes what the file means, a torn tail is cut off, and exactly the damaged or contradictory logs are refused |
| Database.PocketDatabase.ApplyOperation | src/api/database.ts:294-366 | One record changes the memory as replay defines it, or is refused exactly when replay throws |
| Database.PocketDatabase.LoadOperation | src/api/database.ts:262-291 | A marker opens or closes the staging, other records are staged or applied; errors exactly as replay |
| Database.PocketDatabase.OpenCollection | src/api/database.ts:92-111 | Returns an existing collection without a trace, or appends one declaration and registers it |
| Database.PocketDatabase.DropCollection | src/api/database.ts:368-390 | Drops a live collection: the file gets its record, and the database forgets id and name, as the call’s effect says |
| Database.PocketDatabase.RegisterCollection | src/api/database.ts:368-391 | Adds one empty collection under its id and name and leaves the others alone |
| Interruption.InterruptedScan | src/api/database.ts:117-140 | If compaction stops between two records, opening reads the copied records and then whatever stands in the old file at the write position |
| Interruption.InterruptedAtBoundary | src/api/database.ts:117-140 | If the write position is a record boundary of the old log, every record from there on is still read |
| Interruption.TornBehindShorter | src/api/database.ts:121-138 | Behind a dropped record overwritten by a shorter one, the rest of its payload is no whole record when what reads as a length is too long |
| Interruption.InterruptedTorn | src/api/database.ts:121-138 | If what stands at the write position is no whole record, the file opens and holds exactly the live documents whose records compaction has read; all others are gone |
| Interruption.InterruptedCorrupt | src/api/database.ts:121-138 | If what is read from the write position on meets an undecodable record with more bytes behind it, the file no longer opens |
| Interruption.InterruptionLosesDocument | docs/compact.md:120-136 | Counterexample on a file that calls have written: a long version replaced by a short one, and another document behind it. Stopped before the last record, the file opens without that document |
| Examples.LongThenShortLosesDocument | docs/compact.md:120-136 | The same with two AMF3 documents written out: a thousand letters, replaced by nothing but the id |
| Interruption.InterruptedOpens | src/api/database.ts:113-147 | Stopped where the write position meets a record boundary of the old log, the file opens if and only if the boundary is outside a transaction, no collection declared before it is dropped behind it, and no index operation behind it is blocked; then it holds every collection, document and index of the memory. Where no index of an older collection is dropped behind the boundary, none is blocked |
| Resumption.ResumedRebuild | src/api/database.ts:259-366 | Replaying the end of a log over the kept operations of a longer front throws if and only if an operation is blocked: it drops an index of an older collection that is not there, or creates a unique one over documents of different times that collide. Otherwise it gives the final state, each document at its moved or its old offset |
| Resumption.NothingBlocked | src/api/database.ts:349-359 | No operation is blocked if the end drops no index of an older collection |
| Resumption.DroppedThrows | src/api/database.ts:337-347 | And it throws if the end drops a collection declared before it |
| Backing.SyncedBacked | src/api/collection.ts:709-716 | In every reachable state each document is the record at its offset, and records do not overlap |
| Backing.BackedGrows | src/storage/file-storage.ts:148-160 | Appending leaves every document readable at its offset |
| Collections.PocketCollection.InsertOne | src/api/collection.ts:153-172 | File, memory and outcome are those of the call: id checked or created, constraints checked, record appended, memory changed; on error nothing |
| Collections.PocketCollection.InsertMany | src/api/collection.ts:174-211 | All ids and constraints checked before the transaction is appended; the memory changes after its commit only |
| Collections.PocketCollection.ReplaceOne | src/api/collection.ts:217-250 | Checks with the document itself excluded, appends, then replaces |
| Collections.PocketCollection.UpdateOne | src/api/collection.ts:256-283 | Reads the document at its offset, updates it, and replaces it; a missing document changes nothing |
| Collections.PocketCollection.UpdateMany | src/api/collection.ts:297-337 | File, memory and outcome are those of the call on these ids, read, updated, checked and appended one by one; `CallMeaning.UpdateManyMeans` says what that makes of each document |
| Collections.PocketCollection.DeleteOne | src/api/collection.ts:417-434 | Appends one deletion and removes the document from the primary and every secondary index, if it exists |
| Collections.PocketCollection.DeleteMany | src/api/collection.ts:443-468 | Deletes those of the given ids that exist, in one transaction, none if none exists |
| Collections.PocketCollection.Drop | src/api/collection.ts:470-481 | Appends the drop, then forgets documents and indexes; a second drop is refused |
| Collections.PocketCollection.CreateIndex | src/api/collection.ts:500-524 | Creates in memory first and appends only for a field and type that had no index; throws with the index in memory if the record cannot be written |
| Collections.PocketCollection.CreateIndexInMemory | src/api/collection.ts:718-740 | Succeeds or leaves no trace, a conflict under a new unique index included |
| Collections.PocketCollection.DropIndex | src/api/collection.ts:483-498 | Refuses an unknown field; otherwise appends, then forgets the index |
| Collections.PocketCollection.AppendTransaction | src/api/collection.ts:192-198 | Begin, operations, commit; stops at the first operation that cannot be encoded, with the earlier ones in the file |
| Collections.PocketCollection.RebuildIndex | src/api/collection.ts:756-781 | One range read files every document of the collection in every index |
| Collections.PocketCollection.RefreshIndexesAfterCompaction | src/api/collection.ts:572-597 | Empties the indexes and files every document again from the file |
| Collections.PocketCollection.CreateDocumentId | src/api/collection.ts:605-627 | The given id checked for form and freshness, or the fresh one |
| Collections.PocketCollection.ApplyPutDocument | src/api/collection.ts:709-716 | Sets the primary offset and files the document anew in every index |
| Collections.PocketCollection.DeletePrimaryIndexEntry | src/api/collection.ts:538-542 | Removes the document from the primary and every secondary index |
| Collections.AssertUniqueBatchIds | src/api/collection.ts:805-815 | Accepts exactly the batches that name no id twice |
| Manager.IndexManager.AssertUnique | src/indexes/index-manager.ts:60-75 | Asks each unique index object for an owner, and throws exactly when another document holds a value of this one |
| Manager.IndexManager.FindDuplicate | src/indexes/index-manager.ts:133-135 | The index object reports a duplicate if and only if two documents share a value |
| Manager.IndexManager.Scan | src/indexes/index-manager.ts:203-217 | What the index object on the field answers: each document filed under an admitted value, once |
| Manager.IndexManager.AssertUniqueBatch | src/indexes/index-manager.ts:89-125 | Throws exactly when a document collides with one outside the batch or earlier in it |
| Manager.IndexManager.CreateIndex | src/indexes/index-manager.ts:22-47 | A known field must agree in type and uniqueness; an unknown one gets a new, empty index object of that type |
| Manager.IndexManager.UpdateDocument | src/indexes/index-manager.ts:143-147 | Files the document anew in every index object; each keeps its buckets, values by id and sorted values linked |
| Manager.IndexManager.RemoveDocument | src/indexes/index-manager.ts:149-153 | Removes the document from every index object |
| Indexes.StringIndex.Add | src/indexes/string-index.ts:13-29 | Files a document with a string value in its bucket, keeping buckets non-empty and inverse to the values by id |
| Indexes.StringIndex.Remove | src/indexes/string-index.ts:31-46 | Removes the document and its bucket with it when it was the last |
| Indexes.StringIndex.FindOwner | src/indexes/string-index.ts:58-78 | Some other document holds the value, if and only if one does |
| Indexes.StringIndex.Scan | src/indexes/string-index.ts:90-111 | Each document filed under a value the predicate names, exactly once |
| Indexes.NumberIndex.File | src/indexes/number-index.ts:14-31 | Value, bucket and sorted list stay linked: the sorted values are exactly the bucket keys, strictly increasing |
| Indexes.NumberIndex.Remove | src/indexes/number-index.ts:33-49 | An emptied bucket disappears from the map and from the sorted list |
| Indexes.InsertSorted | src/indexes/number-index.ts:220-235 | Binary search keeps the list strictly increasing and adds exactly the new value |
| Indexes.NumberIndex.ValuesInRange | src/indexes/number-index.ts:117-126 | Exactly the indexed values within all four bounds, in order |
| Indexes.NumberIndex.Scan | src/indexes/number-index.ts:94-115 | Each document filed under an admitted value, exactly once |
| Indexes.NumberIndex.FindDuplicate | src/indexes/number-index.ts:84-92 | Some value with two documents is reported if and only if there is one |
| Compiling.CompileExact | src/search/compile-query.ts:45-92 | A query as written compiles if and only if all its parts are acceptable, and then a document satisfies the compiled query exactly when it satisfies the query as written, which is said without the evaluator: of equal values, ordered values, types and tests |
| Compiling.ConditionExact | src/search/compile-query.ts:98-184 | The same for the condition of a field: a pattern, an operator expression or a value |
| Compiling.OperatorExact | src/search/compile-query.ts:109-181 | The same for each of the thirteen operators, with $options consumed by $regex and nested $not |
| Compiling.TypesExact | src/search/compile-query.ts:206-227 | Type names compile exactly when each is known, to the set of types they name |
| Compiling.EqualityMeans | src/search/evaluate-query.ts:91-105 | Two values are equal if and only if they are the same null, boolean, string or number but NaN, both missing, or two arrays or two objects of the same JSON text |
| Compiling.ComparisonMeans | src/search/evaluate-query.ts:79-89 | The sign of a comparison is that of the numbers’ order or of the collation of two strings; between kinds, with NaN, and of an infinity with itself there is none |
| Compiling.TypeMeans | src/search/compile-query.ts:206-227 | A type name, or its alias, names the type of a value exactly when it should |
| Compiling.RegexMeans | src/search/compile-query.ts:242-278 | The test that is built is the one of the pattern alone, or of the source with the options, which are among i, m, s and u |
| Compiling.LookupMeans | src/search/compile-query.ts:98-108 | The value of an operator is what the condition gives first under that key, or nothing |
| Compiling.EntriesMean | src/search/compile-query.ts:45-60 | What the query lists are its properties, its positions in decimal, or its units |
| Meaning.OperandReads | src/search/compile-query.ts:109-140 | The operand of a comparison is missing exactly when none is written, and otherwise the value as written: undefined is null in an array and no property of an object, a pattern an object without properties |
| Compiling.CompileQueryLoop | src/search/compile-query.ts:45-74 | The loop that pushes predicates, those of a conjunction one by one, computes the recursive definition |
| Compiling.CompileFieldOperatorsLoop | src/search/compile-query.ts:98-184 | The loop over operators computes the recursive definition |
| Queries.FieldPredicatesHold | src/indexes/index-manager.ts:220-233 | A document that satisfies a query satisfies every predicate flattened out of its conjunctions |
| Queries.FieldPredicatesExact | src/indexes/index-manager.ts:220-233 | Exactly the field predicates under conjunctions at any depth are offered to the indexes, none below a disjunction |
| Scanning.CollectStringEqualityValues | src/indexes/string-index.ts:113-140 | The loop collects the strings to look up, nothing for another operator, and no strings for another type |
| Scanning.NumberPredicateRange | src/indexes/number-index.ts:137-218 | The loop narrows bounds and values operator by operator, with the early exits of the source |
| Scanning.AnsweredExactly | src/indexes/string-index.ts:113-140 | An index answers exactly the predicates whose operators it can use, up to the first that asks for a value it cannot hold |
| Scanning.StringsExact | src/indexes/string-index.ts:113-140 | A string is looked up if and only if some operator names it and none asks for anything but a string |
| Scanning.RangeSound | src/indexes/number-index.ts:137-218 | A finite number that all operators accept lies in the computed range, if none compares with infinity |
| Scanning.RangeExact | src/indexes/number-index.ts:137-218 | With at most one equality the range holds exactly the finite numbers the operators accept |
| Scanning.NumbersExact | src/indexes/number-index.ts:137-218 | With any number of equalities: the range holds exactly the finite numbers that every comparison and the last equality accept, and none once an operand is of another type |
| Scanning.InfinityAdmitsNothing | src/indexes/number-index.ts:164-170 | A comparison with plus or minus infinity makes the range empty |
| Scanning.SelectionSound | src/indexes/number-index.ts:94-115 | An indexed document that satisfies the predicate is selected if and only if the index was not asked to compare with infinity |
| Scanning.TypedSelection | src/indexes/string-index.ts:113-140 | With operands of the index’s type only values of that type satisfy a predicate the index answers |
| Planner.ScanPrimary | src/indexes/primary-index.ts:44-59 | Looks up each named id, a repeated one repeatedly, and answers only equality on the id |
| Planner.LookedExactly | src/indexes/primary-index.ts:44-59 | The candidates are the named ids that are stored, in the order in which they are named and as often, with their offsets |
| Planner.Plan | src/indexes/index-manager.ts:177-201 | The plan is an answer of an index to a predicate of the query, none smaller, or all documents when no index answers |
| Planner.PlannedFindExact | src/indexes/index-manager.ts:177-233 | Candidates filtered by the query are the matches of a full scan if and only if the chosen index has filed every match and was not asked to compare with infinity; they are never more |
| Planner.PlannedFindComplete | src/indexes/index-manager.ts:177-233 | They are the matches whenever operands have the index’s type and no infinity is stored or compared with |
| Planner.TypedQueryComplete | src/indexes/index-manager.ts:177-233 | They are the matches for every query, however nested, whose predicates on indexed fields begin with an operand of the index’s type and compare with no infinity, if none is stored |
| Planner.InfinityMissed | src/indexes/number-index.ts:164-170 | Counterexample: $gt minus infinity on a number index finds nothing although every number matches |
| Planner.OtherTypeMissed | src/indexes/string-index.ts:121-133 | Counterexample: equality with a number on a string index misses the document that holds it |
| Finding.Find | src/api/collection.ts:339-357 | The cursor reads live documents only, each once unless the ids were named, and those that remain satisfy the query as it is written: equal values for equality, the order of numbers and strings for comparisons; they are all that do if and only if the plan missed nothing, and for every typed query |
| Finding.FoundAsWritten | src/api/collection.ts:339-357 | What is found are the live documents that satisfy the query as it was written, said of the values in it alone (`Meaning`), if and only if the plan missed nothing; and always for a typed query, however nested |
| Finding.FindIds | src/api/collection.ts:296-301 | The ids of the documents a query finds: all satisfy it as it was written, and they are all that do if and only if the plan missed nothing, and for every typed query |
| Finding.UpdateMany | src/api/collection.ts:285-337 | The query is found and all found documents updated in one transaction: when nothing throws, exactly the documents that satisfy the query as written have become what the update makes of them and all others are as before, if the plan missed nothing or the query is typed; it throws exactly as `CallMeaning.UpdateManyMeans` says |
| Finding.DeleteMany | src/api/collection.ts:436-468 | The same for deleting: exactly the documents that satisfy the query as written are gone, under the same conditions, and it never throws once the query compiles |
| Cursors.PocketCursor.Next | src/api/cursor.ts:80-126 | Returns the first document that remains, in whatever way it is read, and nothing exactly when none remains |
| Cursors.PocketCursor.ReadCandidateDocument | src/api/cursor.ts:331-359 | Cache, range read and single read all give the version the snapshot holds; a cached version is taken without reading anything and becomes the most recent, any other is put into the cache |
| Cursors.PocketCursor.ResolveBulkRange | src/api/cursor.ts:294-310 | At most one range read; never below the threshold, deferred behind a limit |
| Cursors.PocketCursor.ReadNext | src/api/cursor.ts:92-110 | At most 256 single reads, then the whole range at once |
| Cursors.PocketCursor.ApplyMatchAllSkipFastPath | src/api/cursor.ts:204-209 | Skipping without reading leaves what remains unchanged |
| Cursors.PocketCursor.Count | src/api/cursor.ts:148-164 | The number of matches of the snapshot, whatever skip and limit say, and the iteration stays where it was |
| Cursors.PocketCursor.NextSorted | src/api/cursor.ts:218-243 | Returns the first remaining document and leaves the rest, of the matches as `Ranking.SortMeans` orders them, after skip and within limit |
| Cursors.PocketCursor.FillSortedBuffer | src/api/cursor.ts:218-263 | The buffer becomes exactly the matching documents in the order of the sort fields, increasing where ascending and decreasing where not, level ones in the order they stood; what remains is the same |
| Cursors.PocketCursor.ToArray | src/api/cursor.ts:128-136 | Everything that remains, in order, and nothing remains after it |
| Cursors.PocketCursor.KeptByAppend | docs/adr/0004-cursor-snapshot-semantics.md:36-43 | A cursor survives every append: what it will return was settled when it was made |
| Cursors.WindowFastForward | src/api/cursor.ts:204-209 | Dropping the skipped documents at once equals skipping them one by one when all match |
| Snapshots.SnapshotTaken | src/api/cursor.ts:72-78 | Candidates of live documents are a snapshot of exactly these documents |
| Snapshots.HitIsRead | src/api/cursor.ts:331-338 | A cache hit is the document a read at that offset gives |
| Sorting.DocumentsTransitive | src/search/sort.ts:56-141 | The comparison is transitive for any number of fields and any directions, on sortable values |
| Sorting.DocumentsMirror | src/search/sort.ts:56-141 | Swapping two documents swaps the sign of the comparison |
| Sorting.SortInOrder | src/api/cursor.ts:218-223 | The sorted matches are in order by the comparison, whose meaning is `Ranking.ComparisonMeans` |
| Sorting.SortStable | src/api/cursor.ts:218-223 | Documents that compare equal keep their order |
| Ranking.ValuesMean | src/search/sort.ts:79-141 | The comparison of two values is this order: missing, null and NaN first and level, then false, true, the numbers by size, the texts in their order |
| Ranking.ComparisonMeans | src/search/sort.ts:56-77 | The comparison of two documents is decided by the first field on which they are not level: the smaller value leads if it is ascending, the greater if it is descending |
| Ranking.SortMeans | src/api/cursor.ts:218-223 | The sorted documents are the given ones, each once, and of any two the one that leads stands first; documents level on every field keep their order |
| Cursors.MatchesMean | src/api/cursor.ts:245-263 | The matches are exactly the documents that satisfy the query, each as often as it stands, in the order in which they stand |
| Cursors.WindowMeans | src/api/cursor.ts:80-126 | What is returned is the part of the result behind the skipped documents, as long as the limit allows |
| Cursors.PocketCursor.WhatRemains | src/api/cursor.ts:80-136 | A cursor that has not started will return the matching documents of its snapshot, in the order asked for, first field by first field in its direction, the part asked for |
| Cache.TrimIsShortest | src/api/document-cache.ts:275-283 | Eviction removes the shortest least recently used prefix that makes room: one entry fewer would not |
| Cache.OperationsBounded | src/api/document-cache.ts:169-245 | After every operation ids are distinct and the sizes add up to at most the budget |
| CacheRuns.OrderedByUse | src/api/document-cache.ts:169-221 | Over every run of gets, puts, removals and resizings each document is there once, and the list is ordered by the time of its last use |
| CacheRuns.LeastRecentGoes | src/api/document-cache.ts:268-283 | A document that is evicted was last used before every document that stays: none is dropped while one used longer ago is kept |
| Cache.DocumentCache.Get | src/api/document-cache.ts:169-183 | A hit needs the same id and offset; the entry then moves to the end of the recency list and all others keep their order, a miss changes nothing |
| Cache.DocumentCache.Set | src/api/document-cache.ts:202-221 | The old entry of the id is taken out, the shortest prefix that makes room goes, and the new entry stands last; one over budget is not kept |
| Cache.DocumentCache.EvictToFit | src/api/document-cache.ts:275-283 | The loop drops the oldest entries exactly as far as needed, and the byte counter stays the sum of the sizes |
| Cache.DocumentCache.SetMaxBytes | src/api/document-cache.ts:151-154 | A smaller budget evicts the shortest prefix that fits it; an invalid one is refused unchanged |
| Cache.DocumentCache.Invalidate | src/api/document-cache.ts:229-239 | Removes exactly the entry of the id |
| CacheTransparency.CacheIsTransparent | src/api/cursor.ts:331-359 | Over every run of calls, cursor reads of any version in the log, compactions, resizes and switching on and off, each read gives the same document or failure with the cache as without, if no compaction shadows a cached version |
| CacheTransparency.ReadThroughIsRead | src/api/cursor.ts:331-359 | A read through a true cache is a read of the file, and leaves the cache true |
| CacheTransparency.ReadFollows | src/api/cursor.ts:331-359 | A cached version is returned from the cache and becomes the most recent, any other read is put into it, and without a cache the file is read |
| CacheTransparency.ObserveFollows | src/api/collection.ts:538-553 | Every document that is written is cached as it is written, one that is deleted is forgotten, a drop forgets all |
| CacheTransparency.SupersededVersionServed | src/api/cursor.ts:352-355 | Counterexample on a file that calls have written, with an empty cache: a superseded version read by an older cursor is served by a find after the compaction, because the newer one moved to its old offset |
| CacheTransparency.TrueAfterExactly | src/api/database.ts:113-147 | A cache is true for the compacted file if and only if no other version of a live document is cached under the offset its current version moves to |
| CacheTransparency.ServesCurrentExactly | src/api/database.ts:113-147 | Every read of a live document after a compaction gives that document if and only if the same condition holds |
| CacheTransparency.CurrentReadsTransparent | src/api/collection.ts:709-716 | If cursors read current versions only, the cache stays invisible over any number of compactions, with no condition on the cache |
| CacheTransparency.CallKeepsTrue | src/api/collection.ts:538-553 | Every call leaves the cache true for the longer file |
| Examples.LettersServed | src/api/cursor.ts:352-355 | The same counterexample with two AMF3 documents written out |
| Buffers.WriteBuffer.Grow | src/storage/encoding/write-buffer.ts:28-38 | Doubling until the bytes fit keeps everything written |
| Buffers.WriteBuffer.PatchInt32LE | src/storage/encoding/write-buffer.ts:55-57 | Overwrites exactly the four bytes at the position, refused exactly outside 32 bits |
| Buffers.WriteBuffer.WriteU29 | src/storage/encoding/write-buffer.ts:101-121 | The inline writer appends the U29 encoding, and above 29 bits that of the low 29 bits in four bytes |
| Buffers.WriteBuffer.WriteInt32LE | src/storage/encoding/write-buffer.ts:45-49 | Appends two’s complement in little-endian order, refused exactly outside 32 bits |
| Doubles.IntegerRoundTrip | src/storage/encoding/bson-encoder.ts:54-69 | A double that is a safe integer is the double of that integer |
| Doubles.IntegerRecognised | src/storage/encoding/bson-encoder.ts:54-69 | Every safe integer is recognised from the bits of its double |
| Numbers.SafeIntegerExact | src/storage/encoding/bson-encoder.ts:54-69 | A number is recognised as a safe integer if and only if its exponent, less 1023, and its fraction of 52 bits have that value |
| Numbers.KeysOrdered | src/indexes/number-index.ts:220-235 | The keys by which the model orders numbers order the integers as integers |
| Numbers.IntegersExact | src/storage/encoding/write-buffer.ts:45-49 | Four and eight bytes hold an integer in two’s complement, the lowest byte first, in exactly one way |
| Numbers.DoubleExact | src/storage/encoding/write-buffer.ts:65-79 | Eight bytes hold the 64 bits of a double in exactly one way, in either order |
| Numbers.DoubleRead | src/storage/encoding/bson-encoder.ts:150-160 | Any eight bytes are read as the number whose bits they are; all bits beyond infinity as NaN |
| Buffers.InlineLow | src/storage/encoding/write-buffer.ts:101-121 | Beyond 29 bits the inline writer takes four bytes, which hold the number without its higher bits |
| Bson.DecimalExact | src/storage/encoding/bson-encoder.ts:81-90 | The key of an array element is its position in decimal digits without leading zeros |
| Bson.EncodedExactly | src/storage/encoding/bson-encoder.ts:54-117 | A document is written as exactly the bytes the BSON 1.1 grammar has for it: type bytes 01, 02, 03, 04, 08, 0a, 10 and 12, keys ending in zero, and the layout of each type; it is refused if and only if these are 2^31 bytes or more |
| Bson.GrammarRead | src/storage/encoding/bson-encoder.ts:140-250 | Whatever bytes of that grammar denote a document are read as that document, if and only if no key holds a zero byte |
| Bson.BooleanRead | src/storage/encoding/bson-encoder.ts:159-166 | Outside the grammar: any byte but zero is read as true, and so is a missing one |
| Bson.DoubleBytesRead | src/storage/encoding/bson-encoder.ts:168-171 | Eight bytes of a double are read as the number they denote, whatever they are |
| Bson.Int32BytesRead | src/storage/encoding/bson-encoder.ts:173-176 | Four bytes of an integer are read as that integer |
| Bson.PlacedAt | src/storage/encoding/bson-encoder.ts:199-209 | Assigning an element beyond the end leaves empty places between, assigning within replaces one |
| Bson.Encode | src/storage/encoding/bson-encoder.ts:236-244 | The buffer holds the document in the BSON 1.1 grammar, the frames patched in place with the sizes they turn out to have; it throws exactly when no 2^31 - 1 bytes suffice |
| Bson.WriteObject | src/storage/encoding/bson-encoder.ts:111-117 | Placeholder, body, terminator, and the size patched in equal a frame whose size counts all of it, despite buffer growth |
| Bson.WriteArray | src/storage/encoding/bson-encoder.ts:81-90 | Items under their decimal indexes, framed the same way |
| Bson.CloseFrame | src/storage/encoding/bson-encoder.ts:111-117 | The patched size is the byte length of the frame |
| Bson.ValueDecodes | src/storage/encoding/bson-encoder.ts:140-217 | Every value is read back from its bytes wherever they stand, and reading stops at their end |
| Bson.ReassembleList | src/storage/encoding/bson-encoder.ts:199-209 | Arrays are rebuilt from their decimal keys |
| Bson.DecodedZeroFree | src/storage/encoding/bson-encoder.ts:130-134 | Whatever the bytes, no decoded key holds a zero byte |
| Bson.BsonRoundTrip | src/storage/encoding/bson-encoder.ts:235-250 | A document the encoder accepts comes back unchanged if and only if no key at any depth holds a zero byte |
| Bson.DecodeDocumentAt | src/storage/encoding/bson-encoder.ts:140-217 | The decoding loop computes the recursive definition, for any bytes |
| Bson.ReassembleLoop | src/storage/encoding/bson-encoder.ts:199-209 | Assignments by index, one by one, compute the recursive definition |
| Amf3.Encode | src/storage/encoding/amf3-encoder.ts:329-333 | The buffer holds the document in the AMF 3 grammar, if its lengths fit |
| Amf3.EncodedExactly | src/storage/encoding/amf3-encoder.ts:52-145 | A document whose lengths fit is written as exactly the bytes the AMF 3 grammar has for it: markers 01 to 06, 09 and 0a, U29 headers, 29-bit integers in two’s complement, doubles with the highest byte first, dense arrays, dynamic objects without a class name |
| Amf3.StringRead | src/storage/encoding/amf3-encoder.ts:61-76 | A text is read as long as its header says or as far as the buffer goes, and reading goes on behind its announced end in both cases |
| Amf3.HeadersRead | src/storage/encoding/amf3-encoder.ts:206-270 | Nothing is read from a reference, from traits by reference or from an object that writes itself |
| Amf3.HeaderExact | src/storage/encoding/amf3-encoder.ts:52-72 | The length in a string header is read back if and only if it is below 2^28, for lengths below 2^30 |
| Amf3.ValueDecodes | src/storage/encoding/amf3-encoder.ts:161-300 | Every value is read back from its bytes wherever they stand, and reading stops at their end |
| Amf3.Amf3RoundTrip | src/storage/encoding/amf3-encoder.ts:328-345 | A document whose lengths fit and that has no empty key at any depth comes back unchanged, all its bytes consumed |
| Amf3.EmptyKeyStops | src/storage/encoding/amf3-encoder.ts:287-297 | At an empty key, at any depth, reading an object stops: what comes back are the members before it, and reading goes on right behind the key |
| Amf3.Amf3EmptyKey | src/storage/encoding/amf3-encoder.ts:328-345 | With no empty key below the top level, what comes back is the document up to its first empty key |
| Amf3Weights.Amf3Exact | src/storage/encoding/amf3-encoder.ts:328-345 | A document whose lengths fit comes back if and only if no key is empty, at any depth, although bytes behind an empty key are read out of step and may look like the members that were lost |
| Amf3Weights.ValueHeavier | src/storage/encoding/amf3-encoder.ts:161-300 | No bytes that read as a value weigh less than what the encoder writes for it, with 0x00, 0x01 and 0x0b counted once and all others twice |
| Amf3Weights.UnnamedStrays | src/storage/encoding/amf3-encoder.ts:161-300 | Where a value with an empty key stands, another value is read, or more is read for it than was written |
| Amf3.DynamicKeysNamed | src/storage/encoding/amf3-encoder.ts:287-297 | Whatever the bytes, the dynamic part of an object never adds an empty key |
| Amf3.SealedEmptyKey | src/storage/encoding/amf3-encoder.ts:271-285 | But a sealed member may have one: five bytes that decode to an object with an empty key |
| Amf3.DecodeArrayAt | src/storage/encoding/amf3-encoder.ts:206-238 | The loop over the associative and the dense part computes the recursive definition |
| Amf3.DecodeObjectAt | src/storage/encoding/amf3-encoder.ts:240-300 | The three loops, over sealed names, sealed values and dynamic members, compute the recursive definition, errors included |
| Encoders.BsonStores | src/storage/encoding/bson-encoder.ts:235-250 | What the log layer asks of a document holds for BSON if and only if it encodes and has no zero byte in a key |
| Encoders.Amf3Stores | src/storage/encoding/amf3-encoder.ts:328-345 | And for AMF3 if and only if it encodes and no key is empty, at any depth |
| Encoders.BsonReasonable | src/storage/encoding/index.ts:27-40 | The hypothesis of the results about runs, in terms of BSON documents alone: what encodes has no zero byte in a key, no batch stops halfway and no index name is too long to be written |
| Encoders.Amf3Reasonable | src/storage/encoding/index.ts:27-40 | And in terms of AMF3 documents: what encodes has no empty key at any depth |

## Left out

Contracts that say less than the source does:

- Cursors.PocketCursor.Sort: only when no matching document holds an array or an object in a sort field; when the library's sort would compare two such values, and so throw, depends on its algorithm. Sorting again after sorted iteration began is not modelled.
- LogScan.ScanDamaged: bytes of a length field are excluded; a damaged length in the middle of the log can look like a torn tail.
- Database.PocketDatabase.Compact: needs a log without damage in which every record decodes and every document in memory stands; `CompactionLoop.SyncedCompactible` shows that every synced database has one.
- Database.PocketDatabase.ComputeStorageStats: the same.
- Runs.CrashAtomicity: starts from a log with no open transaction and no torn tail, and cuts at or after the bytes that were there; what the run calls new ids is new, documents that encode decode to themselves, and no call is one of the two that `Runs.CallSyncedExactly` names.
- LogCompaction.CompactedOpens: assumes that no collection id is drawn again after a drop; ids are four random bytes.
- CacheTransparency.CacheIsTransparent: calls drive the cache through the records they append, so what is cached is the document as it decodes; `PocketCollection` does not hold the cache object, `PocketCursor` and `DocumentCache` do.
- Snapshots.HitIsRead: assumes a cache whose entries hold the versions at their offsets, as between compactions; across one see `CacheTransparency.TrueAfterExactly`.
- Amf3.Amf3RoundTrip: lengths from 2^28 on, where the header is wrong, are not part of it, and reference markers are refused as in the source.
- Amf3.Amf3EmptyKey: what a document with an empty key in a nested object decodes to is not given, only that it is not the document (`Amf3Weights.Amf3Exact`).
- Amf3Weights.Amf3Exact: strings are their UTF-8 bytes, so bytes read out of step that are no UTF-8 text stay what they are; the source reads them as replacement characters.
- LogCompaction.SpaceAccounting: only for logs whose records all decode; on others the source throws.
- Interruption.InterruptedTorn: when the write position is inside a record of the old log and what stands there happens to be whole records with right checksums, nothing is said beyond `Interruption.InterruptedScan`.
- Interruption.InterruptedScan: the copy of one record is one step; a crash inside it is not modelled.
- Bson.DecodeDocumentAt: bytes outside the grammar, with a size that is negative or beyond the buffer or with an integer that no double holds, fail to decode; the source reads what there is of them.
- Bson.BsonRoundTrip: a double is its bits with minus zero read as zero and one NaN, so the sign of zero, which the encoder drops, cannot be seen.
- Collections.PocketCollection.UpdateOne: the operators of an update are an arbitrary function that may throw and keeps the id; update-document.ts is not part of this model, and an update without operators, which returns before anything else, is no call.

Not modelled:

- File descriptors, partial reads and writes, `fsync`, the validation of the file header, the lock file: the file is a growable sequence of bytes.
- The JSON encoder, and the text `JSON.stringify` gives: equality of arrays and objects is that of an abstract text.
- `localeCompare`, the order of UTF-16 units in sorting, and regular expressions: abstract functions; strings are their UTF-8 bytes.
- Random ids and clocks: parameters, new where the source draws them.
- The order of integer-like property names, `__proto__`, and sharing of nested objects: documents are sequences of fields and immutable.
- The iteration order of maps after reopening or compacting: states are compared as maps.
- `distinct`, `findOne`, `countDocuments` and option parsing: each is a few lines over `find`.
- Collection statistics apart from the storage tallies; cache statistics apart from hits, misses and evictions.
- Error texts: that a call throws is modelled, what it says is not.
- Closing a database or a collection while a cursor is open; docs/adr/0004-cursor-snapshot-semantics.md leaves compaction under open cursors to the caller, and so does this model.

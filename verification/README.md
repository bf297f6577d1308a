# OceanBase log proxy client: frame decoder and database-type lookup

This project is a Dafny model of two pieces of the OceanBase log proxy
client. Both are modelled as pure functions over immutable datatypes, and
their properties are proved.

1. **`ClientHandler`**, the Netty inbound handler of a v2 connection.
   - On `channelActive` it writes the handshake request: the magic string
     `xi53g]q` and a 7-byte frame header, followed by the serialized
     `ClientHandshakeRequest`.
   - On `channelRead` it appends every inbound chunk to a cumulative buffer.
     It then runs a five-state decoder until `poolFlag` is off, the buffer
     runs dry, the next header or body is incomplete, or a handler throws. The states are
     PB_HEAD, CLIENT_HANDSHAKE_RESPONSE, RECORD, ERROR_RESPONSE and STATUS.
   - A header is a big-endian short version, a byte type and an int body
     length. It is checked in order: version, then type, then length.
   - A DATA body is a `RecordData` protobuf. It may be LZ4-compressed. Its
     record stream is cut into entries of `8 + len` bytes, where `len` is a
     little-endian int. Each entry the log-record deserializer accepts is
     put on the record queue.
   - An exception that escapes `channelRead` reaches `exceptionCaught`:
     - a `LogProxyClientException` is reported to the stream, which is
       stopped if the exception asks for it;
     - anything else asks the stream to reconnect.
   - An idle event, or a closed channel, also asks for a reconnect.
2. **`DbTypeEnum`**: the database types, their categories and their
   aliases.
   - A static block builds a table from each lower-cased alias to its
     constant, and asserts that no alias is declared twice.
   - `fromAlias` looks up the lower-cased argument.
   - `valueOfIgnoreCase` tries the alias first, then the upper-cased
     constant name. It returns null when neither matches.

## Modules

| file | module | contents |
|---|---|---|
| common.dfy | `Common` | `Option` (Java's nullable reference) and sequence helpers |
| bytes.dfy | `Bytes` | Java signed reads, truncating writes, byte round trips |
| protocol.dfy | `Protocol` | header parsing and encoding, `checkHeader`, error codes and faults |
| handshake.dfy | `Handshake` | `generateConnectRequest` |
| records.dfy | `Records` | `parseData` and `parseRecord` |
| decoder.dfy | `FrameDecoder` | the five states, one loop turn, and the `channelRead` loop |
| chunking.dfy | `Chunking` | independence of the decoded result from how bytes are chunked |
| lifecycle.dfy | `Lifecycle` | `channelActive`, `channelRead`, `channelInactive`, `exceptionCaught`, `resetState` |
| dbtype.dfy | `DbTypes` | `DbTypeEnum` and `DbCategoryEnum` |

The remote protocol tables (`ProtocolVersion`, `HeaderType`, `CompressType`)
are not part of this model. The `CompressType.LZ4` code is the `lz4` field
of `BatchEnv`. The `ProtocolVersion` and `HeaderType` codes enter as a
`Codes` value:
- the set of known versions;
- the V2 code;
- a map from each known type code to its kind;
- the HANDSHAKE_REQUEST_CLIENT code.

The foreign collaborators enter as function-typed fields of the `Env` and
`BatchEnv` parameters:
- the protobuf parsers;
- the LZ4 decompressor;
- `LogMessage.parse`.

The cumulative buffer is the sequence of unread bytes. Each loop turn either
consumes a whole header or body, or consumes nothing.

## Model

| member | source | states |
|---|---|---|
| Protocol.HeaderRoundTrip | oblogclient-logproxy/src/main/java/com/oceanbase/clogproxy/client/connection/ClientHandler.java:189-192 | The header reads (`readShort`, `readByte`, `readInt`) recover every representable header the server writes, whatever bytes follow it |
| Protocol.ParseHeader | oblogclient-logproxy/src/main/java/com/oceanbase/clogproxy/client/connection/ClientHandler.java:189-192 | `readShort`, `readByte`, `readInt` give a Java short, byte and int, so every header read is representable. `Protocol.HeaderRoundTrip` shows these reads undo the server's writes |
| Protocol.CheckHeader | oblogclient-logproxy/src/main/java/com/oceanbase/clogproxy/client/connection/ClientHandler.java:273-288 | The header is accepted iff version, type and length all pass. The error is E_PROTOCOL iff the version is unsupported; E_HEADER_TYPE iff the version passes and the type is unknown; E_LEN iff both pass and the length is not positive. No header error stops the stream |
| Handshake.GenerateConnectRequest | oblogclient-logproxy/src/main/java/com/oceanbase/clogproxy/client/connection/ClientHandler.java:407-432 | A version below V2 goes to the legacy handler. Otherwise the request is 7 + 2 + 1 + 4 bytes longer than the body, starts with the magic string, and ends with the body |
| Handshake.ConnectRequestIsFrame | oblogclient-logproxy/src/main/java/com/oceanbase/clogproxy/client/connection/ClientHandler.java:422-431 | After the magic string, the request parses as a frame header carrying V2, HANDSHAKE_REQUEST_CLIENT and the body length, followed by the body unchanged |
| Records.MakeEntry | oblogclient-logproxy/src/main/java/com/oceanbase/clogproxy/client/connection/ClientHandler.java:331-339 | An entry built from 4 reserved bytes and a payload has a little-endian length field that matches its size, and returns the payload after the 8-byte prefix |
| Records.SplitRecords | oblogclient-logproxy/src/main/java/com/oceanbase/clogproxy/client/connection/ClientHandler.java:328-367 | Every entry put on the queue is well formed and accepted by the deserializer. The batch ends without error, with a JVM runtime error, or with E_PARSE, and E_PARSE only when `ignoreUnknownRecordType` is off |
| Records.SplitDeliversEveryEntry | oblogclient-logproxy/src/main/java/com/oceanbase/clogproxy/client/connection/ClientHandler.java:328-367 | Concatenated well-formed entries that all parse are delivered as exactly those entries, byte for byte, in order |
| Records.SplitSkipsRejected | oblogclient-logproxy/src/main/java/com/oceanbase/clogproxy/client/connection/ClientHandler.java:340-348 | With `ignoreUnknownRecordType`, splitting well-formed entries never fails and delivers exactly the accepted entries, in order |
| Records.SplitStopsAtFirstRejected | oblogclient-logproxy/src/main/java/com/oceanbase/clogproxy/client/connection/ClientHandler.java:340-349 | Without `ignoreUnknownRecordType`, the first rejected entry ends the batch with E_PARSE, after every entry before it was delivered |
| Records.SplitLoop | oblogclient-logproxy/src/main/java/com/oceanbase/clogproxy/client/connection/ClientHandler.java:328-367 | Whatever the turn budget, every entry the loop puts on the queue is accepted by the deserializer. A batch ends without error, with a JVM runtime error, or with E_PARSE, and E_PARSE only when `ignoreUnknownRecordType` is off |
| Records.AsWrittenOnEntries | oblogclient-logproxy/src/main/java/com/oceanbase/clogproxy/client/connection/ClientHandler.java:328-367 | On a Java-sized stream of well-formed entries, the loop as written and the loop that rejects negative lengths give the same result for every turn budget. With `Records.GuardedLoopEnds`, the splitting lemmas about `SplitRecords` hold for the code as written |
| Records.NegativeEightNeverEnds | oblogclient-logproxy/src/main/java/com/oceanbase/clogproxy/client/connection/ClientHandler.java:337-346 | A length field of -8 gives an empty entry and an offset step of 0. If that entry is skipped or accepted, the loop as written has not ended after any number of turns |
| Records.GuardedLoopEnds | oblogclient-logproxy/src/main/java/com/oceanbase/clogproxy/client/connection/ClientHandler.java:328-367 | With negative lengths rejected, the loop over a Java array ends within one turn per 8 bytes plus one, and gives exactly `SplitRecords`'s result |
| Records.ParseData | oblogclient-logproxy/src/main/java/com/oceanbase/clogproxy/client/connection/ClientHandler.java:291-319 | A body that is not a valid `RecordData` gives E_PARSE. E_LEN occurs iff the batch is LZ4 and the decompressor's count differs from `compressedLen`, and then nothing is delivered. No batch error stops the stream. Every delivered entry is well formed and accepted |
| Records.UncompressedBatchIsSplitAsIs | oblogclient-logproxy/src/main/java/com/oceanbase/clogproxy/client/connection/ClientHandler.java:313-315 | An uncompressed batch of accepted entries is delivered as exactly those entries |
| Records.Lz4BatchIsSplitAfterDecompression | oblogclient-logproxy/src/main/java/com/oceanbase/clogproxy/client/connection/ClientHandler.java:300-312 | An LZ4 batch whose count matches is delivered as exactly the entries in the decompressed bytes |
| FrameDecoder.Step | oblogclient-logproxy/src/main/java/com/oceanbase/clogproxy/client/connection/ClientHandler.java:158-174 | One loop turn never touches `poolFlag` and only drops a prefix of the buffer. It either shortens the buffer or completes a body back to PB_HEAD. It lacks bytes exactly when the header or body is incomplete |
| FrameDecoder.Drain | oblogclient-logproxy/src/main/java/com/oceanbase/clogproxy/client/connection/ClientHandler.java:152-175 | The loop ends with `poolFlag` unchanged and a suffix of its buffer unread. Without an exception it ends only where the loop condition fails |
| FrameDecoder.HeaderStep | oblogclient-logproxy/src/main/java/com/oceanbase/clogproxy/client/connection/ClientHandler.java:188-208 | `handleHeader` lacks bytes iff fewer than 7 are buffered. Otherwise it drops exactly 7 bytes and stores the length. It throws iff the header is not acceptable, with the error `checkHeader` picks and no state change. Its contract reaches the loop through `FrameDecoder.Step` |
| FrameDecoder.BodyStep | oblogclient-logproxy/src/main/java/com/oceanbase/clogproxy/client/connection/ClientHandler.java:211-264 | A body handler lacks bytes iff fewer than `dataLength` are buffered. On success it drops exactly `dataLength` bytes and returns to PB_HEAD, which an ERROR_RESPONSE body never does. Its contract reaches the loop through `FrameDecoder.Step` and the lemmas |
| FrameDecoder.Feed | oblogclient-logproxy/src/main/java/com/oceanbase/clogproxy/client/connection/ClientHandler.java:133-175 | A chunk is appended to the unread bytes and the loop runs. What is left unread is a suffix of old bytes plus chunk |
| FrameDecoder.DrainKeepsConsistent | oblogclient-logproxy/src/main/java/com/oceanbase/clogproxy/client/connection/ClientHandler.java:188-208 | Outside PB_HEAD the pending body length is positive, and the loop keeps it so |
| FrameDecoder.ShortHeaderConsumesNothing | oblogclient-logproxy/src/main/java/com/oceanbase/clogproxy/client/connection/ClientHandler.java:188-189 | With fewer than 7 bytes in PB_HEAD, nothing is read, nothing happens, and the state stays PB_HEAD |
| FrameDecoder.HeaderStepReadsSevenBytes | oblogclient-logproxy/src/main/java/com/oceanbase/clogproxy/client/connection/ClientHandler.java:188-204 | A full header consumes exactly 7 bytes and sets `dataLength` either way. An invalid one throws the error `checkHeader` picks; a valid one moves to the state of its type |
| FrameDecoder.NextStateByType | oblogclient-logproxy/src/main/java/com/oceanbase/clogproxy/client/connection/ClientHandler.java:195-204 | Each body-carrying type leads to its own state, in both directions. The other known types stay in PB_HEAD |
| FrameDecoder.NextState | oblogclient-logproxy/src/main/java/com/oceanbase/clogproxy/client/connection/ClientHandler.java:195-204 | A header leaves the decoder in PB_HEAD iff its type has no body handler (HANDSHAKE_REQUEST_CLIENT or another known type) |
| FrameDecoder.BodyStepAllOrNothing | oblogclient-logproxy/src/main/java/com/oceanbase/clogproxy/client/connection/ClientHandler.java:211-264 | A body handler either lacks bytes or reads exactly `dataLength` bytes. On success it returns to PB_HEAD |
| FrameDecoder.ErrorBodyAlwaysThrows | oblogclient-logproxy/src/main/java/com/oceanbase/clogproxy/client/connection/ClientHandler.java:228-241 | A complete ERROR_RESPONSE body always throws. The error is NO_AUTH with the stop flag iff the body parses |
| FrameDecoder.RecordBodyDelivers | oblogclient-logproxy/src/main/java/com/oceanbase/clogproxy/client/connection/ClientHandler.java:257-264 | A RECORD body delivers the batch's entries. It returns to PB_HEAD iff the batch has no error; otherwise it throws the batch's error after the earlier entries |
| Chunking.DrainAppend | oblogclient-logproxy/src/main/java/com/oceanbase/clogproxy/client/connection/ClientHandler.java:152-175 | Bytes already buffered behind those the loop reads extend its run: it continues from where it stopped, or throws the same way |
| Chunking.FeedAppend | oblogclient-logproxy/src/main/java/com/oceanbase/clogproxy/client/connection/ClientHandler.java:133-175 | Feeding `a + b` equals feeding `a`, then feeding `b` to what is left, unless `a` already throws |
| Chunking.ChunkingInvariance | oblogclient-logproxy/src/main/java/com/oceanbase/clogproxy/client/connection/ClientHandler.java:133-185 | Feeding a stream in any chunking gives the same events, the same error and the same decoder state as feeding it whole. Without an error the results are identical, leftover bytes included |
| Chunking.HeaderThenPartialBody | oblogclient-logproxy/src/main/java/com/oceanbase/clogproxy/client/connection/ClientHandler.java:188-204 | A DATA header followed by part of its body moves to RECORD and waits, with the partial body unread and nothing delivered |
| Chunking.FrameSplitInsideBody | oblogclient-logproxy/src/main/java/com/oceanbase/clogproxy/client/connection/ClientHandler.java:257-264 | A frame whose body arrives in two pieces ends exactly as if it had arrived whole |
| Lifecycle.ResetState | oblogclient-logproxy/src/main/java/com/oceanbase/clogproxy/client/connection/ClientHandler.java:124-130 | A v2 reset returns to PB_HEAD and changes nothing else |
| Lifecycle.Classify | oblogclient-logproxy/src/main/java/com/oceanbase/clogproxy/client/connection/ClientHandler.java:463-472 | With a stream: a reconnect iff the throwable is not a `LogProxyClientException`; a report iff it is one, with its code and stop flag. Without a stream: nothing |
| Lifecycle.ExceptionCaught | oblogclient-logproxy/src/main/java/com/oceanbase/clogproxy/client/connection/ClientHandler.java:451-473 | `poolFlag` is cleared and the state reset to PB_HEAD, with the buffer kept. The reaction is the classification of the throwable |
| Lifecycle.ChannelInactive | oblogclient-logproxy/src/main/java/com/oceanbase/clogproxy/client/connection/ClientHandler.java:435-448 | `poolFlag` is cleared and a stream, if there is one, is asked to reconnect |
| Lifecycle.ChannelActive | oblogclient-logproxy/src/main/java/com/oceanbase/clogproxy/client/connection/ClientHandler.java:384-399 | `poolFlag` is set and the request written is the connect request for the connection's version |
| Lifecycle.ChannelRead | oblogclient-logproxy/src/main/java/com/oceanbase/clogproxy/client/connection/ClientHandler.java:133-150 | An idle event, or a non-client exception from decoding, asks for a reconnect; a `LogProxyClientException` is reported with its code. Other messages change nothing. Once `poolFlag` is off, chunks are only buffered |
| Lifecycle.DrainStopsOnlyOnRefusal | oblogclient-logproxy/src/main/java/com/oceanbase/clogproxy/client/connection/ClientHandler.java:234-237 | Of the client exceptions the decoder throws, exactly the NO_AUTH refusal asks to stop the stream |
| Lifecycle.StopOnlyOnRefusal | oblogclient-logproxy/src/main/java/com/oceanbase/clogproxy/client/connection/ClientHandler.java:463-468 | After a chunk, the stream is told to stop exactly when the reported error is NO_AUTH |
| Lifecycle.RefusalFrameStopsStream | oblogclient-logproxy/src/main/java/com/oceanbase/clogproxy/client/connection/ClientHandler.java:228-241 | An ERROR_RESPONSE frame arriving whole on a fresh connection reports NO_AUTH with stop and delivers nothing. The handler is left inactive in PB_HEAD with nothing unread |
| DbTypes.Category | common/src/main/java/com/oceanbase/oms/logmessage/enums/DbTypeEnum.java:17-28 | OB_05, OB_MYSQL and OB_ORACLE are relational; UNKNOWN has no category |
| DbTypes.PutAllAssertions | common/src/main/java/com/oceanbase/oms/logmessage/enums/DbTypeEnum.java:59-66 | Every assertion of the table-building loop holds iff no key is put twice and none was present before |
| DbTypes.PutAll | common/src/main/java/com/oceanbase/oms/logmessage/enums/DbTypeEnum.java:57-66 | The `put` loop's table has exactly the keys it had plus those it visits, the last pair's key maps to that pair's value, and a failed assertion stays failed |
| DbTypes.PutAllLastPutWins | common/src/main/java/com/oceanbase/oms/logmessage/enums/DbTypeEnum.java:57-66 | Each `put` overwrites: a visited key ends with the value of its last `put`, and a key the loop never visits keeps its value |
| DbTypes.AliasEnumMapWellDefined | common/src/main/java/com/oceanbase/oms/logmessage/enums/DbTypeEnum.java:15-66 | The declared aliases are pairwise distinct once lower-cased. So the static block's assertions hold, and the table maps exactly the declared aliases, each to the constant that declares it |
| DbTypes.AliasEnumMap | common/src/main/java/com/oceanbase/oms/logmessage/enums/DbTypeEnum.java:57-66 | The table built by the static block maps every declared alias to the constant declaring it, and holds no other key |
| DbTypes.FromAlias | common/src/main/java/com/oceanbase/oms/logmessage/enums/DbTypeEnum.java:41-43 | Returns `t` iff the argument is, ignoring case, an alias of `t`. Never returns UNKNOWN |
| DbTypes.FromAliasIgnoresCase | common/src/main/java/com/oceanbase/oms/logmessage/enums/DbTypeEnum.java:41-43 | `fromAlias(s)` equals `fromAlias(lower(s))` and `fromAlias(upper(s))` |
| DbTypes.EveryAliasFound | common/src/main/java/com/oceanbase/oms/logmessage/enums/DbTypeEnum.java:41-48 | Every declared alias, in any letter case, leads to its constant through both `fromAlias` and `valueOfIgnoreCase` |
| DbTypes.ValueOf | common/src/main/java/com/oceanbase/oms/logmessage/enums/DbTypeEnum.java:50-53 | Returns the constant whose name is exactly the argument, or null (the thrown `IllegalArgumentException` is caught) |
| DbTypes.ValueOfIgnoreCase | common/src/main/java/com/oceanbase/oms/logmessage/enums/DbTypeEnum.java:45-55 | An alias match wins. Otherwise the result is `t` iff `t`'s name is the upper-cased argument, and null when no name matches |
| DbTypes.EveryNameFound | common/src/main/java/com/oceanbase/oms/logmessage/enums/DbTypeEnum.java:45-55 | Every constant is found by its own name in any letter case, because no name is also an alias |
| DbTypes.UnknownOnlyByName | common/src/main/java/com/oceanbase/oms/logmessage/enums/DbTypeEnum.java:28-34 | UNKNOWN has no alias, so `valueOfIgnoreCase` returns it exactly for the spellings of "UNKNOWN" |

## Notes on the code

- **The LZ4 check.** `parseData` (oblogclient-logproxy/src/main/java/com/oceanbase/clogproxy/client/connection/ClientHandler.java:302-303)
  compares the value `LZ4FastDecompressor.decompress` returns with
  `compressedLen`. That value is the number of compressed source bytes read.
  Only the error message prints `rawLen`. The model follows the code
  (`Records.Lz4CountMismatch`).
- **Undecodable handshake, status and error bodies.** These throw the
  protobuf library's `InvalidProtocolBufferException`, not a
  `LogProxyClientException`. So `exceptionCaught` asks for a reconnect,
  rather than reporting an error code.

## Left out

- The legacy (pre-V2) protocol is delegated to `ClientHandlerV01`, which is not part of this model. Where the code delegates, the model only records it (`LegacyRequest`) or assumes a v2 connection.
- Netty buffer management is not modelled: cumulation, `release`, `numReads` and `discardSomeReadBytes`. None of it changes which bytes are unread.
- The protobuf parsers, the LZ4 decompressor and `LogMessage.parse` are foreign. They are parameters that may fail. The parsed protobuf messages carry no further data.
- `BatchEnv.decompress` returns the destination array, but the model does not tie its length to `rawLen`. It admits decompressors that Java's fixed `rawLen`-byte destination rules out, and every property holds for those too.
- Putting records on the blocking queue becomes appending them to the events. Blocking, and the retry on `InterruptedException`, are not modelled.
- Logging, error messages, `NetworkUtil`, socket `disconnect`/`close`, and the reading of the stream, config and params from the channel are not modelled.
- The content of the client handshake protobuf is a parameter (`body`).
- Records.SplitRecords: rejects every negative entry length as a JVM runtime error, which is the corrected loop. As written, the Java code fails only at -9 and below (`NegativeArraySizeException`). It takes -7 to -1 as short entries of 1 to 7 bytes, and at -8 the offset does not move (see Findings). `Records.SplitLoop` with the guard off models the loop as written, and `Records.AsWrittenOnEntries` shows that it agrees with the corrected loop on streams of well-formed entries.
- `LogProxyClientException`'s class is not part of this model. Its constructors without a stop flag are assumed to leave `needStop` false.
- The handler is taken to serve one connection from `channelActive` on. `Initial` is a fresh handler with `poolFlag` set.
- Java null strings are not modelled: every string argument is a Dafny string.
- `toLowerCase`/`toUpperCase` are ASCII case mappings; locale and Unicode case rules are left out.
- The static block walks each constant's alias `HashSet` in an unspecified order; the model walks the aliases in declaration order. Because the lower-cased aliases are distinct (`DbTypes.AliasEnumMapWellDefined`), the table and the assertions come out the same in any order.
- Java assertions are usually disabled at run time. Either way, the model proves that the static block's assertions hold, so both settings behave the same.

## Findings

| source | as written | input that shows it | evidently intended | confidence | as-written member | corrected member |
|---|---|---|---|---|---|---|
| oblogclient-logproxy/src/main/java/com/oceanbase/clogproxy/client/connection/ClientHandler.java:328-367 | `offset += (8 + dataLength)` with no check that `dataLength` is not negative | a record stream whose length field (bytes 4 to 7, least significant first) is -8, i.e. `F8 FF FF FF`, with `ignoreUnknownRecordType` set or an empty `LogMessage` accepted: the entry is empty, the offset does not move, and the loop never ends | a negative length is rejected, so every turn moves at least 8 bytes and the loop ends | high; not executed | Records.SplitLoop, Records.NegativeEightNeverEnds | Records.SplitRecords, Records.GuardedLoopEnds |

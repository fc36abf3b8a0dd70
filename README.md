# canal-demo consumer, modelled in Dafny

`AppMain` is a change-data-capture consumer. It pulls batches of binlog
entries from a Canal server and projects each changed row into Redis, keyed
by the row's `id` column. A delete removes the key. An insert, an update or
any other event kind sets the key to a JSON object of the row's after image.
After processing a batch it acks the batch id, or rolls the batch back if
processing threw.

This project models that core in Dafny and proves its rules:

- `wrappers.dfy` (`Wrappers`): `Option`, `Result`.
- `canal_protocol.dfy` (`CanalProtocol`): the Canal values the consumer reads.
  These are `Entry`, `EntryType`, `RowChange`, `EventType`, `Column` and `Message`.
  `CanalEntry.RowData` is named `RowImage` here. `RowChange.parseFrom` is a
  `Decoder` parameter, a function from bytes to `Option<RowChange>`.
- `projection.dfy` (`Projection`): `row2Key` and `row2Value`, and the
  exceptions processing can throw.
- `jedis.dfy` (`Redis`): the store as a map from key to document, the `del`
  and `set` commands, the `Jedis` class that holds the store, and
  last-write-wins and idempotence lemmas.
- `plans.dfy` (`Plans`): a run of `processEntries` as a value. A `Plan` holds
  the store commands issued, in order, and whether the run completed or threw.
  `Chain` runs steps in order until the first one that throws.
- `consumer.dfy` (`Consumer`): `processEntries` as imperative methods over a
  `Jedis` object. Each method is proved equal to `EntriesPlan`, and the
  lemmas are about that plan.
- `main_loop.dfy` (`MainLoop`): the `main` method. A `Connector` class records
  every call made on the Canal connector. `HandleMessage` is the body of the
  `while (true)` loop. `RunConsumer` is the whole session.

## Behaviour of the code worth knowing

- An idle pull is acked. A pull is idle when its id is -1 or it has no
  entries. The code sleeps and then calls `ack(batchId)`, because line 43
  follows the `if`/`else`. So even the no-data id -1 is acked.
- Duplicate column names in an after image make the whole batch throw.
  `Collectors.toMap` is called without a merge function, so it does not keep
  the last value.
- A failing batch keeps the writes it already made for earlier rows and
  entries. Nothing undoes them before `rollback(batchId)`.
  `FailedBatchKeepsEarlierWrites` states this.
- A store write cannot fail in this model (see Left out).

## Model

| member | source | states |
|---|---|---|
| `Projection.RowToKey` | src/main/java/com/houge/canal/AppMain.java:101-105 | succeeds exactly when some column's name equals the key column exactly; the result is the value of such a column; otherwise the "key column not found" error |
| `Projection.RowToValue` | src/main/java/com/houge/canal/AppMain.java:106-110 | fails exactly when two columns share a name, reporting a name that occurs twice; otherwise the document's key set is exactly the set of column names and each column's name maps to that column's value |
| `Projection.DuplicatesOfAppend` | src/main/java/com/houge/canal/AppMain.java:108 | collecting one more column meets a duplicate exactly when its name was already collected or an earlier pair clashed |
| `Consumer.RowCommand` | src/main/java/com/houge/canal/AppMain.java:74-90 | a delete yields `del` of the before image's `id` value and fails exactly when the before image has no `id`; every other event kind yields `set` of the after image's `id` value to the after image's projection, failing exactly when `id` is missing or a name is duplicated, with the missing key reported first |
| `Consumer.RowsInOrder` | src/main/java/com/houge/canal/AppMain.java:74-91 | the rows of one entry issue one command each, in row order, up to the first row that throws; that row issues nothing and its error is the entry's |
| `Consumer.ApplyRow` | src/main/java/com/houge/canal/AppMain.java:75-90 | one row: the store changes by exactly that row's command and the call completes, or the store is unchanged and the row's error is raised |
| `Consumer.ApplyRows` | src/main/java/com/houge/canal/AppMain.java:74-91 | the inner loop leaves the store as the rows' commands applied in order, and completes or throws as the rows' plan says |
| `Consumer.ProcessEntries` | src/main/java/com/houge/canal/AppMain.java:53-93 | the store afterwards is the old store with the batch plan's commands applied in order; the outcome is the plan's completion or its first error |
| `Consumer.SkipMarker` | src/main/java/com/houge/canal/AppMain.java:55-58 | a transaction begin or end entry anywhere in the list changes neither the commands issued nor the outcome |
| `Consumer.OnlyMarkers` | src/main/java/com/houge/canal/AppMain.java:54-58 | a list of markers only issues no command and completes, whatever the decoder returns |
| `Consumer.EntriesInOrder` | src/main/java/com/houge/canal/AppMain.java:54-92 | the commands of `xs + ys` are those of `xs` followed by those of `ys`; when `xs` throws, `ys` is never processed |
| `Consumer.FailedBatchKeepsEarlierWrites` | src/main/java/com/houge/canal/AppMain.java:60-91 | a failed batch has a first failing entry: all earlier entries completed, their writes and those of the failing entry's earlier rows remain in the store, and the batch's error is that entry's |
| `Consumer.PartialThenFull` | src/main/java/com/houge/canal/AppMain.java:75-88 | processing a prefix of the entries, then all of them, leaves the store as processing all of them once |
| `Consumer.DeleteEventRemovesKeys` | src/main/java/com/houge/canal/AppMain.java:75-77 | after a completed delete entry, the `id` key of every row's before image is absent from the store |
| `Consumer.SetEventWritesLastImage` | src/main/java/com/houge/canal/AppMain.java:78-88 | after a completed insert, update or other non-delete entry, a row's `id` key holds that row's projection when no later row has the same key |
| `Plans.ChainAppend` | src/main/java/com/houge/canal/AppMain.java:54-92 | running `xs + ys` is running `xs` and then, only if `xs` completed, `ys` |
| `Plans.FailureIsFinal` | src/main/java/com/houge/canal/AppMain.java:61-66 | once a prefix has thrown, the elements after it do nothing and do not change the outcome |
| `Plans.FirstFailure` | src/main/java/com/houge/canal/AppMain.java:53-92 | a run that threw has a first failing element; everything before it completed, and nothing after it was run |
| `Plans.SingleCommandChain` | src/main/java/com/houge/canal/AppMain.java:74-91 | for steps that issue exactly one command or throw first, the `j`-th command issued comes from the `j`-th element, and a failure comes from the element right after the issued ones |
| `Redis.ExecAllAt` | src/main/java/com/houge/canal/AppMain.java:77-88 | after a sequence of `del`/`set` calls a key holds what the last call on it left, or its old value if no call touched it |
| `Redis.LastCommandIs` | src/main/java/com/houge/canal/AppMain.java:77-88 | the last call on a key is the call at index `j` when no later call has that key |
| `Redis.Absorbed` | src/main/java/com/houge/canal/AppMain.java:77-88 | calls on keys that a later sequence touches again leave no trace after that sequence |
| `Redis.ExecAllIdempotent` | src/main/java/com/houge/canal/AppMain.java:77-88 | issuing the same calls twice leaves the store as issuing them once |
| `Redis.PrefixThenWhole` | src/main/java/com/houge/canal/AppMain.java:77-88 | a prefix of the calls followed by all of them equals all of them alone |
| `Redis.Jedis.Del` | src/main/java/com/houge/canal/AppMain.java:77 | `del` removes exactly that key |
| `Redis.Jedis.Set` | src/main/java/com/houge/canal/AppMain.java:80-81 | `set` maps the key to the document and changes nothing else |
| `MainLoop.HandleMessage` | src/main/java/com/houge/canal/AppMain.java:34-46 | one pull, then exactly one `ack` or `rollback` of the pulled id, as `Verdict` decides; the store is processed only for a non-idle message |
| `MainLoop.RunConsumer` | src/main/java/com/houge/canal/AppMain.java:24-51 | the connector sees `connect`, `subscribe(".*\\..*")`, `rollback()`, then one pull and one answer per message, then `disconnect` last; the store is every message's effect applied in order |
| `MainLoop.LoopCallsAt` | src/main/java/com/houge/canal/AppMain.java:33-47 | the `i`-th message's pull is followed by `ack` of its id exactly when it was idle or processing completed, and by `rollback` of its id exactly when processing threw |
| `MainLoop.MarkersOnlyMessage` | src/main/java/com/houge/canal/AppMain.java:41-58 | a message of transaction markers only is acked and leaves the store unchanged |
| `MainLoop.RedeliveryIdempotent` | src/main/java/com/houge/canal/AppMain.java:41-45 | handling the same message twice, as after a rollback and redelivery, leaves the store as handling it once, whether it completed or threw |
| `MainLoop.RepeatedDelivery` | src/main/java/com/houge/canal/AppMain.java:33-47 | any positive number of deliveries of one message leaves the store as a single delivery |
| `Consumer.EntryPlan` | src/main/java/com/houge/canal/AppMain.java:55-91 | a transaction begin or end entry issues nothing and is not decoded; a payload that does not decode throws the parse error wrapping the entry, before any store call; otherwise the rows issue one command each, in row order, up to the first row that throws, whose error ends the entry |
| `Consumer.EntriesPlan` | src/main/java/com/houge/canal/AppMain.java:53-92 | processing the entries completes exactly when every entry completes; a failed pass carries the error of one of its entries |
| `Plans.Chain` | src/main/java/com/houge/canal/AppMain.java:54 | a run over a list completes exactly when every element's step completes; a failed run carries the error of one of its elements |
| `Plans.ChainPrefix` | src/main/java/com/houge/canal/AppMain.java:54-92 | the commands issued for a prefix of the list are a prefix of those issued for the whole list |
| `Redis.ExecAllUntouched` | src/main/java/com/houge/canal/AppMain.java:77-88 | a key that no `del`/`set` names keeps its old value |
| `MainLoop.Verdict` | src/main/java/com/houge/canal/AppMain.java:38-46 | the answer to a message is `ack` or `rollback` of its own id; it is `ack` exactly when the message is idle or processing completed |
| `MainLoop.MessageEffect` | src/main/java/com/houge/canal/AppMain.java:38-42 | an idle message leaves the store unchanged; any message leaves unchanged every key its commands do not name |
| `MainLoop.Connector.Connect` | src/main/java/com/houge/canal/AppMain.java:30 | records `connect` after the calls made so far |
| `MainLoop.Connector.Subscribe` | src/main/java/com/houge/canal/AppMain.java:31 | records `subscribe` with the given filter |
| `MainLoop.Connector.Rollback` | src/main/java/com/houge/canal/AppMain.java:32 | records the argument-less `rollback()` to the last acked position |
| `MainLoop.Connector.Ack` | src/main/java/com/houge/canal/AppMain.java:43 | records `ack` of the given batch id |
| `MainLoop.Connector.RollbackBatch` | src/main/java/com/houge/canal/AppMain.java:45 | records `rollback` of the given batch id |
| `MainLoop.Connector.Disconnect` | src/main/java/com/houge/canal/AppMain.java:49 | records `disconnect` |
| `MainLoop.Connector.GetWithoutAck` | src/main/java/com/houge/canal/AppMain.java:34 | the pull returns the next message the server holds and records the pull with the batch size |

## Left out

- Networking: `CanalConnectors.newSingleConnector` and the Jedis connection are not modelled, and neither are host names, ports or credentials. The server is a `Connector` whose `inbox` is the script of messages its pulls return. Its cursor, which moves on ack and rollback, is not modelled.
- `while (true)` termination: the modelled loop ends when the script of messages runs out. In the source the loop has no normal exit, but an exception from a call outside the inner `try` ends it. That covers `getWithoutAck` (line 34) and `rollback(batchId)` (line 45, inside the `catch`). Such an exception leaves the loop, runs `disconnect` in the `finally` (lines 48-50) and ends `main`. These exit paths are not modelled.
- `RowChange.parseFrom`: the protobuf format is not visible. The decoder is a parameter.
- fastjson rendering: the JSON text and its field order are not modelled. A value is the name-to-value map given to `JSONObject`.
- UTF-8 `getBytes`: keys and values are strings and documents, compared as such, so the encoding is taken as injective. It is not injective in Java. `getBytes(UTF_8)` replaces an unpaired surrogate with `?`, so an `id` of `"\uD800"` and an `id` of `"?"` become the same Redis key. A Dafny `string` cannot hold an unpaired surrogate, so this collapse is not modelled.
- Printing: `printColumn`, the binlog header line and the `Column.updated` flag are only displayed. The header and flag are kept in the data but never read.
- `Thread.sleep(1000)`: the timing is not modelled, and neither is the `InterruptedException` it could throw, which would lead to a rollback.
- Failing calls to Redis or to the connector are not modelled. In the source, a `del` or `set` that throws (line 41), and likewise a throwing `ack` (line 43), leads to `rollback(batchId)`; after a throwing `ack` that batch gets both calls. A throwing `connect`, `subscribe`, `rollback()`, `getWithoutAck` or `rollback(batchId)` ends `main` through the `finally` instead.
- Resource release: the `Jedis` close from try-with-resources is not modelled. Only the final `disconnect` is.
- Projection.RowToKey: `findAny` on a sequential stream may return any column named `id`. The model returns the first one, and its contract promises only some column named `id`.

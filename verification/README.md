# Stash, verified

Stash is a Redis-like server. This project models its storage engine, wire protocol,
persistence and multi-client protocols in Dafny and proves what each is for.

| part | files | main results |
|---|---|---|
| sorted sets | `Order`, `SkipRows`, `SkipList`, `ZSetSpec`, `SortedSet`, `CompactZSet`, `ZSetValue` | a skip list with spans, a compact table and the upgrade between them all refine one map listed in (score, member) order, over any run of batches |
| RESP | `Decimal`, `Resp`, `Decode`, `Grammar`, `Feed`, `StreamGrammar`, `ConnMachine` | exact round trips; an incremental decoder that is stable under extension and accepts, waits for and refuses exactly what a grammar says; exactly when the cuts of the input make no difference; a connection over any run |
| append-only file | `AofLoader`, `FileGrammar`, `Replay`, `Snapshot`, `AofRewrite`, `Recovery`, `Persistence` | a torn log replays exactly its whole commands; any run of a store, its snapshot, the rewritten log and the load into a new store together give back what was live |
| memory | `Keyspace`, `Measure`, `Eviction`, `Payloads`, `Changes`, `StoreSpec`, `Store` | shards, counters, the running total and the shape of every value over any run; exactly when eviction can fail, and when a refused write costs keys |
| small collections | `CompactHash`, `HashValue`, `IntSet`, `SetValue`, `Streams`, `Bitmap`, `HyperLogLog` | arena and slice encodings refine plain maps and sets, and take the room the store accounts for; stream order; bits; registers and their union |
| transactions | `WatchSpec`, `Transactions` | WATCH, MULTI and EXEC over every interleaving, against a server that only looks at what has happened |
| replication | `Replication` | offsets, acknowledgements and WAIT |
| geo | `Morton`, `GeoCells`, `GeoRanges`, `GeoRadius` | Morton codes, the cell cover and the ranges of GEORADIUS |
| snapshots | `RdbFormat`, `Rdb`, `RdbGrammar`, `Resync` | the RDB writer and loader, and exactly what the loader accepts; strings carried from store to store |

`Splices`, `Sorting`, `Sets`, `Options` and `Arithmetic` hold shared definitions.

Conventions. Objects the source changes in place are classes whose methods state the
new abstract value; a lock-protected region or a whole command is one step. Clock
readings, random levels, the order a map is visited in, hashes, sockets and the distance
test are parameters or left to choice, so every claim holds for all of them. The texts of
floating-point scores are a parameter too, and the claims about a rewritten log are for
the scores that are read off their texts (`Replaying.Printable`), as all finite 64-bit
floats are. What eviction can do is said over all samples of as many different keys as
it is configured to draw: with the hash seed, the start of the sample and the order within
a shard left to chance, any of them may come up. Scores and coordinates are exact reals.
Go integers are mathematical integers, with wrap-around written out where it can happen:
the need hint of the decoder, stream sequence numbers, 32-bit lengths, and durations in
nanoseconds. A clock reading is so far from the greatest 64-bit number, some 292 years of
milliseconds, that every duration can be added to it.

What the proofs found where the code does not do what its comments or callers expect;
each has a counterexample or the exact condition:

- Eviction uses the empty key for "no candidate" (`internal/storage/memory.go:259`). If
  the empty key is stored, eviction may give up although the test before it passed, and a
  write that is refused may have cost live keys, which are not reported.
  `StoreSpec.EmptyKeyBlocks` has such a write; `StoreSpec.MayGiveUpExactly`,
  `StoreSpec.MayLoseExactly` and `StoreSpec.RefusedExactly` say exactly when.
- A write reads the clock twice. If the value it lengthens expires in between, the
  running total falls short by that value's size (`Stores.TotalFallsShort`, and exactly
  when in `Stores.Store.Set` and `Stores.Store.Write`).
- A rewrite writes a collection as one command of any size, which the parser refuses
  beyond 1048576 elements or 512 MiB in one of them: the rewritten file loads exactly
  when every command is within those limits (`AofRewrite.RewriteAndLoad`).
- A null array at the deepest level is refused, although it holds no further level
  (`Decoder.NullArrayTooDeep`).
- Where a frame passes the read limit, the events queued may depend on how the input was
  cut. `Feeding.ChunkingExactly` says exactly when they do not.
- A replica's offset starts at 0 whenever it joins, the master's does not start over: a
  replica that joined late and has everything is not counted by WAIT for the latest
  write (`Replicating.LateJoinerNotCounted`).
- A rewritten SET carries a relative time to live, so a replay moves the deadline by the
  time in between, and a time to live beyond 292 years wraps around
  (`Replaying.DurationExactly`). Where it wraps, the nanoseconds need not be whole
  milliseconds: the model rounds the duration down, the source its sum with the clock, so
  the two deadlines may then be one millisecond apart.
- An automatic stream ID behind the greatest sequence number wraps around and breaks the
  order (`Streams.AutoIdWraps`, and exactly when in `Streams.StreamValue.Add`).
- EXEC is not all or nothing when its context ends while the queue runs
  (`Transactions.Sessions.Exec`).
- The RDB writer and loader and the rewrite of the append-only file
  (`internal/aof/rewrite.go:47`) treat a string as expired at its deadline, the store only
  after it (`Rdb.DeadlineMillisecond`, `Persistence.RewriteMillisecond`).

A rewrite also drops the deadlines of collections. That is harmless because no
collection ever has one: `Stores.Run` shows it of every run, from what `Changes.MakeSound`
shows of each command.

## Model

| member | source | states |
|---|---|---|
| `Order.LexTransitive` | internal/storage/zset.go:267-273 | Go string order is transitive |
| `Order.LexTrichotomy` | internal/storage/zset.go:267-273 | of two byte strings exactly one is less, unless they are equal |
| `Order.EntryTransitive` | internal/storage/zset.go:267-273 | the (score, member) order is transitive |
| `Order.EntryTrichotomy` | internal/storage/zset.go:267-273 | the (score, member) order is total on distinct entries |
| `Order.LexExactly` | internal/storage/zset.go:267-273 | the first byte that differs decides, and a string comes before those it begins |
| `Order.EntryExactly` | internal/storage/zset.go:267-273 | the lower score comes first, and the lower member among equal scores |
| `Order.AscendingUnique` | internal/storage/zset.go:267-273 | a set of entries has only one ascending listing |
| `Order.InRangeIsSlice` | internal/storage/zset.go:214-224 | filtering a sorted listing by a score interval gives one contiguous slice |
| `SkipRows.JoinTallOk` | internal/storage/zset.go:145-151 | a level with a node linked in stays a correct level: next tall node and span, rank by rank |
| `SkipRows.JoinShortOk` | internal/storage/zset.go:153-155 | a level a short node passes under stays correct with the one span over it widened |
| `SkipRows.JoinOk` | internal/storage/zset.go:113-170 | linking a node of any height in keeps every level, and every span equal to the rank distance |
| `SkipRows.JoinTop` | internal/storage/zset.go:134-142 | the level count stays the greatest height in use |
| `SkipRows.OpenOk` | internal/storage/zset.go:134-142 | levels opened for a tall node start with a header span over the whole list |
| `SkipRows.LeaveRowOk` | internal/storage/zset.go:192-200 | a level with a node taken out stays correct, whether or not the node reached it |
| `SkipRows.LeaveOk` | internal/storage/zset.go:192-212 | taking a node out keeps every level and every span |
| `SkipRows.ShrinkOk` | internal/storage/zset.go:208-210 | giving up empty top levels keeps the grid valid |
| `SkipLists.Search` | internal/storage/zset.go:119-132 | the descent finds on each level the last node below the target, and its rank |
| `SkipLists.SkipList.constructor` | internal/storage/zset.go:60-63 | an empty list is valid |
| `SkipLists.SkipList.Insert` | internal/storage/zset.go:113-170 | for any height the list stays valid (sorted level 0, exact higher levels, exact spans, backward mirror) and its entries gain the new one in its place |
| `SkipLists.SkipList.Delete` | internal/storage/zset.go:172-190 | removes exactly the entry asked for, reports whether it was there, and keeps the list valid |
| `SkipLists.SkipList.DeleteNode` | internal/storage/zset.go:192-212 | unlinking a node on all its levels keeps the list valid with its entry gone |
| `SkipLists.SkipList.Forward` | internal/storage/zset.go:104-108 | following level 0 from a node visits the listing in order |
| `SkipLists.SkipList.GetByRank` | internal/storage/zset.go:239-257 | returns the node at the one-based rank, or none when there is no such rank |
| `SkipLists.SkipList.FirstInScoreRange` | internal/storage/zset.go:228-237 | returns the first node not below the lower bound |
| `ZSetSpec.ListingUnique` | internal/storage/collection_value.go:226-243 | a map of scores has only one listing in (score, member) order, so all encodings answer alike |
| `SortedSets.SortedSet.constructor` | internal/storage/zset.go:40-45 | an empty set |
| `SortedSets.SortedSet.Add` | internal/storage/zset.go:69-81 | sets the score in the map the set stands for, keeps index and skip list in step, and reports a new member |
| `SortedSets.SortedSet.Score` | internal/storage/zset.go:83-86 | the score in the map, or none |
| `SortedSets.SortedSet.Len` | internal/storage/zset.go:65-67 | the number of members |
| `SortedSets.SortedSet.RangeByRank` | internal/storage/zset.go:88-111 | equals the slice of the listing between the two ranks |
| `SortedSets.SortedSet.RangeByScore` | internal/storage/zset.go:214-224 | equals the filter of the whole listing by the score range |
| `SortedSets.SortedSet.Clone` | internal/storage/zset.go:47-58 | an independent set with the same scores |
| `CompactZSets.SortSlices` | internal/storage/compact_zset.go:112-122 | the table in (score, member) order, which lists the set |
| `CompactZSets.CompactZSet.Add` | internal/storage/compact_zset.go:52-69 | sets the score in the map the table stands for and reports a new member, in any arena layout; the arena holds the members and no more |
| `CompactZSets.CompactZSet.Score` | internal/storage/compact_zset.go:71-78 | the score in the map, or none |
| `CompactZSets.CompactZSet.RangeByRank` | internal/storage/compact_zset.go:80-93 | equals the slice of the one listing |
| `CompactZSets.CompactZSet.RangeByScore` | internal/storage/compact_zset.go:95-110 | equals the filter of the one listing |
| `CompactZSets.CompactZSet.Clone` | internal/storage/compact_zset.go:34-43 | an independent table with the same scores |
| `ZSetValues.CanAdd` | internal/storage/collection_value.go:585-606 | holds exactly when the batch leaves at most 8 members of at most 64 bytes |
| `ZSetValues.ZSetValue.Add` | internal/storage/collection_value.go:174-203 | applies a batch to the map, counts the new members, is compact exactly while the set stays small, and is accounted for as the store says |
| `ZSetValues.ZSetValue.Upgrade` | internal/storage/collection_value.go:617-629 | the same map in the general encoding |
| `ZSetValues.ZSetValue.Clone` | internal/storage/collection_value.go:264-281 | an independent value of the same map and encoding |
| `ZSetValues.ZSetValue.Score` | internal/storage/collection_value.go:205-224 | the score in the map, in either encoding |
| `ZSetValues.ZSetValue.Len` | internal/storage/collection_value.go:155-172 | the number of members, in either encoding |
| `ZSetValues.ZSetValue.RangeByRank` | internal/storage/collection_value.go:226-243 | the slice of the one listing, in either encoding |
| `ZSetValues.ZSetValue.RangeByScore` | internal/storage/collection_value.go:245-262 | the filter of the one listing, in either encoding |
| `ZSetValues.ForEntries` | internal/storage/collection_value.go:548-567 | the value a first ZADD creates stands for the map the batch describes |
| `ZSetValues.ZAdd` | internal/storage/store.go:473-515 | while memory is accounted for the batch goes to a copy and the stored value is untouched |
| `ZSetValues.Run` | internal/storage/collection_value.go:174-281 | any run of batches, compact, upgraded midway or cloned, gives the counts and the map of a plain sorted map |
| `Decimal.ParseIntMeaning` | internal/protocol/parser.go:242-286 | accepts exactly the numerals of 64-bit integers, with their value |
| `Decimal.ParseIntBytes` | internal/protocol/parser.go:242-286 | the digit loop computes that |
| `Decimal.ParseFormat` | internal/protocol/writer.go:266-270 | printing and parsing an integer is the identity |
| `Decimal.FormatCanonical` | internal/protocol/writer.go:266-270 | the print of an integer is its shortest numeral |
| `Decimal.FormatInjective` | internal/protocol/writer.go:266-270 | different integers print differently |
| `Resp.AppendEncoded` | internal/protocol/writer.go:186-234 | appends the wire form and nothing else |
| `Resp.EncodedLen` | internal/protocol/writer.go:64-103 | the length of the wire form, without building it |
| `Decoder.LineExactly` | internal/protocol/decode.go:188-200 | a line is found exactly where a text without line feeds is followed by CRLF; none is reported exactly when there is no line feed |
| `Decoder.DecodeStable` | internal/protocol/decode.go:58-200 | a value or a permanent error is final under extension, and a buffer shorter than the reported need stays incomplete with the same need, through any nesting |
| `Decoder.RoundTrip` | internal/protocol/decode.go:58-200 | decoding an encoded value followed by any bytes gives the normalised value and its exact length |
| `Decoder.PrefixIncomplete` | internal/protocol/decode.go:58-200 | every proper prefix of an encoded value is incomplete |
| `Decoder.RoundTripExactly` | internal/protocol/decode.go:58-113 | the round trip holds for exactly the values with no line feed in a line, at most 128 array levels, and no null array at the 128th |
| `Decoder.NullArrayTooDeep` | internal/protocol/decode.go:144-155 | a null array inside 128 arrays is a permanent error, inside 127 it is decoded |
| `Decoder.DecodedIsEncodable` | internal/protocol/decode.go:58-200 | every decoded value could have been sent |
| `Decoder.DecodeValue` | internal/protocol/decode.go:58-113 | the recursive decoder computes the specified result, which `Grammar` characterises |
| `Decoder.DecodeArray` | internal/protocol/decode.go:144-184 | the element loop computes the specified result |
| `Grammar.FrameExactly` | internal/protocol/decode.go:58-200 | the decoder finds a value exactly where the grammar of the wire has one, and as long as there |
| `Grammar.WaitExactly` | internal/protocol/decode.go:58-200 | it waits exactly for a beginning whose line, bulk string or element is not complete, with the length the headers tell as its hint |
| `Grammar.RefusalExactly` | internal/protocol/decode.go:58-200 | it refuses exactly what is neither, and then no more bytes will make it a value |
| `Feeding.ParseResumes` | internal/server/conn_machine.go:138-174 | reading may stop anywhere and go on with the rest |
| `Feeding.FeedAllIs` | internal/server/conn_machine.go:138-184 | after any chunks the reader is where parsing their concatenation leads, or has stopped at the first end of a chunk whose unfinished frame was too large |
| `Feeding.ChunkingIrrelevant` | internal/server/conn_machine.go:138-184 | for a stream whose frames fit, every cut into chunks queues the same requests and at most one final error |
| `Feeding.ChunkingExactly` | internal/server/conn_machine.go:138-184 | every cut gives what the stream fed whole gives exactly when the stream fits, or ends in a frame that is too large from the moment it first is |
| `Feeding.UnlimitedExactly` | internal/server/conn_machine.go:138-184 | every cut gives the reading without a limit exactly when the stream fits |
| `Feeding.AlwaysTooLarge` | internal/server/conn_machine.go:138-184 | a stream that does not fit and is noticed the same way however it is cut |
| `Feeding.PipelineArrives` | internal/server/conn_machine.go:138-174 | encoded requests sent in a row come out as sent, however the bytes are cut |
| `StreamGrammar.StreamExactly` | internal/server/conn_machine.go:138-174 | a stream of values on the wire is that many requests, and what is behind them is waited with or one protocol error |
| `StreamGrammar.StreamParts` | internal/server/conn_machine.go:138-174 | every stream is made up so |
| `ConnMachines.Drain` | internal/server/conn_machine.go:148-166 | the decoding loop with its resume hint finds the same requests as decoding from the start |
| `ConnMachines.ConnMachine.constructor` | internal/server/conn_machine.go:91-97 | a new machine is active and owes nothing |
| `ConnMachines.ConnMachine.Feed` | internal/server/conn_machine.go:138-174 | queues the events of the reading so far extended by the new bytes; refuses input unless active |
| `ConnMachines.ConnMachine.EnterProtocolError` | internal/server/conn_machine.go:178-184 | the error is queued behind all requests and the machine stops reading |
| `ConnMachines.ConnMachine.ProcessNext` | internal/server/conn_machine.go:210-240 | the oldest event is answered behind everything produced before; the write limit and fatal runners close the machine |
| `ConnMachines.ConnMachine.AnswerTo` | internal/server/conn_machine.go:221-231 | a protocol error is answered by one error reply, a request by what the runner returns |
| `ConnMachines.ConnMachine.Flush` | internal/server/conn_machine.go:248-270 | accepted bytes followed by pending bytes are all output in order; state only moves forward |
| `ConnMachines.ConnMachine.BufferEncoded` | internal/server/conn_machine.go:280-294 | a push joins the output in order unless it would pass the limit |
| `ConnMachines.ConnMachine.Close` | internal/server/conn_machine.go:298-313 | drops buffers and ends in the closed state |
| `ConnMachines.ConnMachine.CompactWriteBuf` | internal/server/conn_machine.go:338-345 | dropping the flushed prefix changes no pending byte |
| `ConnMachines.AnswersInOrder` | internal/server/conn_machine.go:210-240 | the replies in the output are one for each event handled, in the order of the events |
| `ConnMachines.ConnMachine.ErrorAnsweredLast` | internal/server/conn_machine.go:178-240 | the reply to the protocol error stands behind the replies to every request before it, in order, and no reply follows it |
| `ConnMachines.Run` | internal/server/conn_machine.go:138-313 | over any run of feeding, processing, flushing, pushing and closing: all that arrives is taken until the machine stops reading; the events queued are those of the bytes taken, however cut; each reply is the answer to its event; what the peer has got is a prefix of the output |
| `AofLoader.ParseStable` | internal/protocol/parser.go:47-162 | a value read, or a refusal, does not depend on later bytes |
| `AofLoader.ReadBack` | internal/protocol/parser.go:47-215 | parsing an encoded value gives it back with its exact length |
| `AofLoader.PrefixEnds` | internal/protocol/parser.go:47-215 | a value cut short reads as the end of the file, never as a value or a refusal |
| `AofLoader.ParseValue` | internal/protocol/parser.go:47-162 | the recursive parser computes the specified result |
| `AofLoader.LoadFile` | internal/aof/loader.go:34-71 | the replay loop computes the specified replay, for any executor with a state |
| `AofLoader.PrefixLoads` | internal/aof/loader.go:34-71 | loading any prefix of a log replays exactly the commands wholly in it, in order, and leaves what they leave, if the executor accepts them |
| `AofLoader.ElementRefused` | internal/protocol/parser.go:124-162 | an array is refused for its first element that is |
| `AofLoader.WholeIsLargest` | internal/aof/loader.go:34-57 | the number replayed is the largest whose encodings fit the prefix |
| `FileGrammar.ReadExactly` | internal/protocol/parser.go:47-162 | the parser reads a value exactly where the grammar has one within its limits |
| `FileGrammar.EndExactly` | internal/protocol/parser.go:47-215 | it sees the end of the file exactly where a value is cut short, and tells a payload that is torn |
| `FileGrammar.ParserRefusalExactly` | internal/protocol/parser.go:47-215 | it refuses exactly what is neither, for good |
| `FileGrammar.TornExactly` | internal/aof/loader.go:59-71 | a refusal counts as a torn tail exactly when only a line end is wrong, however deep |
| `FileGrammar.LoadExactly` | internal/aof/loader.go:34-71 | the values on the wire are replayed in order, and what is behind them decides: cut short or without its line end the file has loaded, anything else is an error |
| `Replaying.SpanExactly` | internal/storage/store.go:1127-1132 | whole milliseconds survive their way through nanoseconds exactly when these fit 64 bits |
| `Replaying.DurationExactly` | internal/storage/store.go:1127-1132 | so a relative time to live does |
| `Replaying.ExpiryMeans` | internal/storage/store.go:1114-1141 | EX is so many seconds from now and PX so many milliseconds exactly where these fit, PXAT a moment |
| `Replaying.ExpiryRefuses` | internal/storage/store.go:1114-1141 | every other option is refused |
| `Replaying.LongLifeWraps` | internal/storage/store.go:1131-1132 | a time to live of 10^13 milliseconds comes out changed |
| `Replaying.FrameCarries` | internal/aof/rewrite.go:125-138 | the frame of a command gives the command back, also after parsing |
| `AofRewrite.FieldsBack` | internal/aof/rewrite.go:80-83 | HSET of the flattened fields rebuilds the map |
| `AofRewrite.ScoresBack` | internal/aof/rewrite.go:105-108 | ZADD of the flattened entries rebuilds the scores, if each is read off its text |
| `AofRewrite.ScoresTaken` | internal/command/commands.go:673-695 | a ZADD takes each score as its text is read, and is refused if one cannot be |
| `AofRewrite.ScoresBackExactly` | internal/aof/rewrite.go:105-108 | the scores of different members come back exactly when each is read off its text |
| `AofRewrite.RecordsReplay` | internal/aof/rewrite.go:109-119 | one XADD for each record rebuilds the stream, IDs and all |
| `AofRewrite.EntryReplays` | internal/aof/rewrite.go:44-123 | the commands of one entry rebuild its value on a store without the key, for all six kinds, if its scores are read off their texts |
| `AofRewrite.SameFields` | internal/aof/rewrite.go:73-77 | sorting the fields does not change the hash |
| `AofRewrite.GenerateRewrite` | internal/aof/rewrite.go:15-42 | the commands of all entries in key order |
| `AofRewrite.RewriteRestores` | internal/aof/rewrite.go:15-123 | running the commands on an empty store succeeds and gives exactly the keyspace, if its scores are read off their texts, each string as far from its deadline as at the rewrite |
| `AofRewrite.FramesRun` | internal/aof/loader.go:34-57 | replaying the parsed frames one after the other is running the commands |
| `AofRewrite.FrameRefused` | internal/protocol/parser.go:93-162 | a command with too many elements or too long a bulk string is refused when it is read |
| `AofRewrite.FileRefused` | internal/aof/loader.go:34-57 | a file with such a command cannot be loaded, whatever the executor |
| `AofRewrite.RewriteAndLoad` | internal/aof/rewrite.go:15-123 | the commands written for any snapshot entries: the file loads exactly when each of them is within the parser limits, and then gives the entries back; for entries with different keys, members in collections and scores that are read off their texts |
| `Snapshots.SnapshotAll` | internal/storage/store.go:768-852 | every live key once, with the value its encoding stands for and its deadline |
| `Snapshots.PicturesWell` | internal/storage/store.go:768-852 | entries of a keyspace that a run can reach have members, no deadline on collections, and streams in order |
| `Recovery.HashReplayed` | internal/storage/collection_value.go:43-72 | HSET on logical values is `HSet` on stored ones, whatever the encoding |
| `Recovery.MembersReplayed` | internal/storage/collection_value.go:302-336 | SADD likewise |
| `Recovery.ScoresReplayed` | internal/storage/collection_value.go:174-203 | ZADD likewise, for arguments that read as the batch |
| `Recovery.RecordReplayed` | internal/storage/store.go:593-634 | XADD likewise, under a given or an automatic ID |
| `Recovery.PushReplayed` | internal/storage/store.go:1012-1064 | RPUSH likewise |
| `Recovery.SetShown` | internal/storage/store.go:126-132 | SET replaces whatever is there, out of date or not |
| `Recovery.HandleSet` | internal/command/commands.go:488-515 | SET with its options on a store does to what the store holds what SET on logical values does, or both refuse |
| `Recovery.HandlePush` | internal/command/list.go:28-41 | RPUSH likewise |
| `Recovery.HandleHash` | internal/command/hashset.go:11-28 | HSET likewise |
| `Recovery.HandleMembers` | internal/command/hashset.go:100-113 | SADD likewise |
| `Recovery.HandleScores` | internal/command/commands.go:673-695 | ZADD likewise, refused if a score cannot be read |
| `Recovery.HandleRecord` | internal/command/commands.go:723-732 | XADD likewise |
| `Recovery.Perform` | internal/server/aof.go:61-64 | any request of a log: a store without a memory limit is left holding what the logical keyspace holds, in every encoding, or both refuse |
| `Recovery.LoadOnto` | internal/aof/loader.go:34-71 | loading any file onto a store ends as on logical values and leaves what those say |
| `Persistence.RewriteMillisecond` | internal/aof/rewrite.go:47-49 | a rewrite drops a string the store holds as live exactly in the millisecond of its deadline |
| `Persistence.PictureRecovered` | internal/aof/rewrite.go:15-123 | what replaying a snapshot restores is what was live when it was taken |
| `Persistence.RewriteAfterRun` | internal/aof/rewrite.go:15-123 | any run of the store from empty, its snapshot rewritten, the file loaded: the same live keys, values and times to live, if the scores are read off their texts and no automatic stream ID wrapped around |
| `Persistence.Restart` | internal/server/aof.go:17-90 | the same with the file loaded into a new store by its own commands: the new store holds what was live in the old one |
| `Measuring.Measure` | internal/storage/memory.go:81-168 | the loops compute the accounted size of every kind and encoding |
| `Keyspace.StringSize` | internal/storage/memory.go:81-168 | a string counts its key, its bytes and its deadline |
| `Keyspace.EmptySize` | internal/storage/memory.go:81-168 | an empty collection of any kind counts 32 more than its key |
| `Keyspace.ItemSize` | internal/storage/memory.go:81-168 | one more list item adds 16 and its length |
| `Keyspace.FieldSize` | internal/storage/memory.go:81-168 | one more field adds 24 and both lengths, a new value of a field the difference, in either encoding |
| `Keyspace.SlackSize` | internal/storage/memory.go:81-168 | bytes out of use in an arena count too |
| `Keyspace.MemberSize` | internal/storage/memory.go:81-168 | one more member of a set adds 16 and its length |
| `Keyspace.IntegerSize` | internal/storage/memory.go:81-168 | one more of a set of integers adds 8 |
| `Keyspace.ScoreSize` | internal/storage/memory.go:81-168 | one more member of a sorted set adds 24 and its length, a new score nothing |
| `Keyspace.RecordSize` | internal/storage/memory.go:81-168 | one more record adds 32, its ID as text and its fields and values |
| `Payloads.KindMeans` | internal/storage/stats.go:3-12 | the kind a value is counted under |
| `Eviction.PassStalest` | internal/storage/memory.go:279-292 | a pass ends with the stalest candidate it saw |
| `Eviction.PickableExactly` | internal/storage/memory.go:275-345 | which keys a search can come up with, over all samples of n different keys: those for which enough keys to fill a sample are no staler candidates |
| `Eviction.PickExactly` | internal/storage/memory.go:275-345 | the search never gives up, for all such samples and all scan orders, exactly when a non-empty candidate is strictly staler than the empty key |
| `StoreSpec.MayGiveUpExactly` | internal/storage/memory.go:255-273 | some run of searches gives up above the target exactly when dropping all that is in reach is not enough |
| `StoreSpec.MayLoseExactly` | internal/storage/memory.go:234-273 | some run passes the test, drops keys and then gives up exactly when the test passes, dropping all that is in reach is not enough, and something is in reach or a key can be hit on whose size does not do |
| `StoreSpec.EmptyKeyBlocks` | internal/storage/memory.go:248-260 | a write to three keys, the empty one second stalest: the test passes and the write is refused with the stalest key gone, for every sample size |
| `StoreSpec.ReachAll` | internal/storage/memory.go:275-311 | without the empty key everything evictable is in reach |
| `StoreSpec.FreedBounds` | internal/storage/memory.go:234-273 | room is found if what is in reach is enough, and only if what is evictable is |
| `StoreSpec.FreedExactly` | internal/storage/memory.go:234-273 | where all that is evictable is in reach, room is found exactly when there is enough, and a refusal drops nothing |
| `StoreSpec.WrittenStores` | internal/storage/memory.go:170-182 | a write that goes through stores its value, is never evicted itself, and touches no other key but those it reports and those expired |
| `StoreSpec.RefusedKeeps` | internal/storage/memory.go:170-182 | a refused write leaves every unexpired key and value as it was, unless eviction may lose keys; it is as it was exactly when nothing was dropped |
| `StoreSpec.RefusedExactly` | internal/storage/memory.go:170-182 | no refusal of a write costs a live key exactly when eviction may not lose keys for it |
| `StoreSpec.PushThenPop` | internal/storage/store.go:381-445 | popping as many values as were pushed gives them back last first and restores the list |
| `StoreSpec.PoppedFromLeft` | internal/storage/store.go:381-445 | a pop from the left takes the first values and leaves the others |
| `StoreSpec.PoppedFromRight` | internal/storage/store.go:381-445 | one from the right takes the last ones, nearest first |
| `StoreSpec.PopAnswers` | internal/storage/store.go:381-445 | a pop is answered exactly for a live list with values; it takes as many as asked for or all, and leaves the rest or no key |
| `Stores.Store.constructor` | internal/storage/shard.go:17-28 | an empty store is valid |
| `Stores.Store.SetKey` | internal/storage/stats.go:37-48 | stores the value in its home shard; the per-kind counters stay the numbers of keys |
| `Stores.Store.RemoveKey` | internal/storage/stats.go:50-60 | removes the key; the counters stay right |
| `Stores.Store.Recount` | internal/storage/stats.go:71-83 | the counters are the numbers of keys of each kind |
| `Stores.Store.DeleteKey` | internal/storage/memory.go:391-406 | removes the key and takes exactly its size from the running total |
| `Stores.Store.DeleteKeyWithSize` | internal/storage/memory.go:358-371 | removes the key and takes the given size from the total |
| `Stores.Store.Recalculate` | internal/storage/memory.go:215-232 | drops exactly the expired keys, lists each of them once, and makes the total exact |
| `Stores.Store.TotalEvictable` | internal/storage/memory.go:313-325 | the sum of the sizes of the unprotected keys |
| `Stores.Store.SampleKeys` | internal/storage/memory.go:327-345 | different stored keys, as many as asked for, or all of them if they are fewer |
| `Stores.Store.FindStalest` | internal/storage/memory.go:275-311 | the pick of the specification for some sample of that size and some scan order |
| `Stores.Store.EvictUntil` | internal/storage/memory.go:255-273 | drops unprotected keys one by one, each when at least a sample of the keys left is protected or was accessed no earlier, and none after the target is met; fails only with nothing left in reach, and after dropping something only where keys may be lost |
| `StoreSpec.StalestOfFew` | internal/storage/memory.go:275-312 | where a sample covers everything, only the stalest unprotected key can be dropped |
| `StoreSpec.LeftIsLater` | internal/storage/memory.go:255-273 | then nothing unprotected that is left was accessed earlier than anything dropped |
| `StoreSpec.WriteTakesStalest` | internal/storage/memory.go:255-273 | so a write takes the stalest first |
| `Stores.Store.EnsureMemory` | internal/storage/memory.go:234-253 | sweeps, then makes room for the growth or refuses, protected keys kept |
| `Stores.Store.PrepareExisting` | internal/storage/memory.go:347-356 | the live value under the key; an expired one is reclaimed and accounted for |
| `Stores.Store.Commit` | internal/storage/memory.go:170-182 | the whole new keyspace and the exact error of the total; a growing write that goes through ends within the limit |
| `Stores.Store.Set` | internal/storage/store.go:126-132 | one write with its two clock readings; a total that was exact stays so exactly when the write does not lengthen, and go through with, a value that expires between the readings |
| `Stores.Store.WriteKey` | internal/storage/shard.go:140-163 | any write that makes its value from the one it finds: the new keyspace, the refusal, and the exact error of the total |
| `Stores.Store.Write` | internal/storage/store.go:224-262 | INCR, SETBIT, HSET, SADD, ZADD, XADD and PFADD: arguments refused before the key is looked at, then the value each of them makes; INCR ends with one more than it found; when the total stays exact |
| `Changes.IncrMakes` | internal/storage/store.go:224-262 | INCR makes 1 of nothing and one more of a number, whose deadline stays; it refuses exactly what is no string, no number or the greatest one |
| `StoreSpec.IncrRaises` | internal/storage/store.go:224-262 | on the keyspace: the number goes up by one, or stays if there is no room |
| `Stores.CountUp` | internal/storage/store.go:224-262 | so many INCRs of a key that was not there: it reads as the number of those that found room |
| `Stores.TotalFallsShort` | internal/storage/memory.go:170-182 | two writes on a new store after which the total is short by the size of a value that was live at the first reading and swept at the second |
| `Stores.Store.Read` | internal/storage/shard.go:44-71 | the live value, touched if it could be served; an expired one dropped if it still is at the second reading, the total in step |
| `Stores.Store.Push` | internal/storage/store.go:1012-1064 | the list with the values pushed one after the other, or the refusal that applies |
| `Stores.Store.PopN` | internal/storage/store.go:381-445 | what popping one after the other takes and leaves; the key goes with the last value; the total stays in step |
| `Stores.Store.Take` | internal/storage/hash.go:78-121 | HDEL and SREM: what is left in the encoding there is, the count, the key gone when empty, the total in step |
| `Stores.Store.Delete` | internal/storage/store.go:164-177 | removes the key and reports whether it was live |
| `Stores.Store.DeleteMany` | internal/storage/store.go:179-219 | removes the keys and reports those that were live, each once; the running total stays as right as it was |
| `Stores.Store.EvictExpired` | internal/storage/eviction.go:64-106 | drops exactly the expired keys of the sample, each once, the total in step |
| `Stores.Store.ReplaceWith` | internal/storage/store.go:742-766 | takes over the other store, every key in its own home shard, counters and total recomputed |
| `Stores.Store.ConfigureMaxMemory` | internal/storage/memory.go:20-41 | sets the limit and the sample size; turning accounting on makes the total exact |
| `Stores.Store.EnforceMaxMemory` | internal/storage/memory.go:63-79 | evicts down to the limit or fails as the specification says |
| `Changes.MakeSound` | internal/storage/store.go:593-634 | INCR, SETBIT, HSET, SADD, ZADD, XADD and PFADD leave collections with members and no deadline, and streams in order unless an automatic ID wraps around |
| `Changes.WrapBreaks` | internal/storage/stream.go:129-142 | where it wraps around, the stream is out of order |
| `Stores.Run` | internal/storage/memory.go:170-406 | over any run of operations at any clock readings shards and counters stay right, the total never exceeds the truth and equals it when no write sees the clock move; collections have members and no deadline and streams are in order, unless an automatic stream ID wraps around; what the store holds goes from step to step as each operation says |
| `CompactHashes.PairsShrink` | internal/storage/compact_hash.go:64-66 | writing a shorter value over a longer one changes no other field or value in the arena |
| `CompactHashes.CompactHash.Get` | internal/storage/compact_hash.go:49-59 | the value in the map the arena stands for |
| `CompactHashes.CompactHash.Set` | internal/storage/compact_hash.go:61-85 | sets the field in the map and reports a new field, on every branch; how many bytes of the arena are then out of use |
| `CompactHashes.CompactHash.Del` | internal/storage/compact_hash.go:87-99 | removes the field from the map; no byte of the arena is out of use after it |
| `CompactHashes.CompactHash.Refill` | internal/storage/compact_hash.go:112-124 | the rebuilt arena holds exactly the given pairs and is exactly as long as they are |
| `CompactHashes.CompactHash.All` | internal/storage/compact_hash.go:101-110 | the pairs of the map, each once |
| `HashValues.HashValue.CanSet` | internal/storage/collection_value.go:502-522 | holds exactly when the pairs are short and the hash stays within 8 fields |
| `HashValues.HashValue.ForPairs` | internal/storage/collection_value.go:473-500 | a new hash is compact exactly when small, with no byte out of use |
| `HashValues.HashValue.Set` | internal/storage/collection_value.go:43-72 | sets the fields in the map, counts the new ones, is compact exactly while small, and is accounted for as the store says |
| `HashValues.HashValue.Del` | internal/storage/collection_value.go:74-105 | removes the fields and counts them; what is left is accounted for as the store says |
| `HashValues.HashValue.Upgrade` | internal/storage/collection_value.go:524-536 | the same map in the general encoding |
| `HashValues.HashValue.Get` | internal/storage/collection_value.go:22-41 | the value in the map, in either encoding |
| `HashValues.Run` | internal/storage/collection_value.go:43-105 | any run of HSET and HDEL gives the fields and counts of a plain map |
| `IntSets.CompactUnique` | internal/storage/intset.go:158-171 | in place: each value once, in order |
| `IntSets.MemberIsText` | internal/storage/intset.go:149-156 | a member counts as an integer exactly when it is the printed form of one |
| `IntSets.Merge` | internal/storage/intset.go:60-84 | the union in order, and how many are new |
| `IntSets.IntSet.AddMany` | internal/storage/intset.go:44-85 | the union of members and the count of new ones, or nothing if one is not a printed integer |
| `IntSets.IntSet.Contains` | internal/storage/intset.go:87-97 | membership |
| `IntSets.IntSet.Remove` | internal/storage/intset.go:99-113 | removes the member and reports it |
| `SetValues.SetValue.ForMembers` | internal/storage/collection_value.go:440-448 | a new set is compact exactly when its members are at most 512 printed integers |
| `SetValues.SetValue.Add` | internal/storage/collection_value.go:302-336 | the union, the count, integers kept compact exactly up to 512, accounted for as the store says |
| `SetValues.SetValue.Remove` | internal/storage/collection_value.go:358-390 | the difference and the count, accounted for as the store says |
| `SetValues.SetValue.Contains` | internal/storage/collection_value.go:338-356 | membership, in either encoding |
| `SetValues.SetValue.Len` | internal/storage/collection_value.go:283-300 | the number of members, in either encoding |
| `SetValues.Run` | internal/storage/collection_value.go:302-390 | any run of SADD and SREM gives the members and counts of a plain set |
| `Payloads.AddedMembers` | internal/storage/collection_value.go:302-336 | adding members to a stored set of either encoding, or to none, gives the union |
| `Payloads.LostMembers` | internal/storage/collection_value.go:358-390 | removing members from a stored set of either encoding gives the difference |
| `Bitmaps.BitSet` | internal/storage/bitmap.go:26-116 | SETBIT sets the bit at its offset and no other, and lengthens the string no more than it has to |
| `Bitmaps.ByteOfBits` | internal/storage/bitmap.go:26-116 | the bits of a byte are those of its number, the first the heaviest |
| `HyperLogLogs.RankExactly` | internal/storage/hyperloglog.go:148-159 | the rank is one more than the leading zeros among the 50 bits below the index, from 1 to 51 |
| `HyperLogLogs.UpdatedAt` | internal/storage/hyperloglog.go:130-140 | a register ends at the highest rank of the elements that count in it, or where it was |
| `HyperLogLogs.SameElements` | internal/storage/hyperloglog.go:130-140 | the registers depend only on which elements were added, not on their order or number |
| `HyperLogLogs.MergedIsUnion` | internal/storage/hyperloglog.go:90-104 | merging two values gives the registers of one that all the elements were added to |
| `HyperLogLogs.AddedParses` | internal/storage/hyperloglog.go:43-73 | PFADD leaves a valid value of the same length |
| `HyperLogLogs.Update` | internal/storage/hyperloglog.go:130-140 | the loop updates the registers in place and reports exactly whether one grew |
| `HyperLogLogs.MergeInto` | internal/storage/hyperloglog.go:90-104 | folds the registers of a valid value in by maximum, and refuses any other |
| `HyperLogLogs.PfCount` | internal/storage/hyperloglog.go:77-86 | several keys count as one key with all their elements would, whatever the estimator; refused exactly if one of them is no such value |
| `StoreSpec.PfAddInPlace` | internal/storage/hyperloglog.go:57-71 | PFADD on a value that is there goes through without making room |
| `Streams.IdRoundTrip` | internal/storage/stream.go:145-206 | the text of an ID reads back exactly when neither part is negative |
| `Streams.AdmittedInOrder` | internal/storage/stream.go:78-142 | entries in order stay so exactly when the new ID is no automatic one that wraps around |
| `Streams.NextAutoIdLeast` | internal/storage/stream.go:129-142 | an automatic ID is the least one behind the last entry that is not before the clock, unless it wraps around |
| `Streams.ParseIdExactly` | internal/storage/stream.go:166-182 | an ID is accepted exactly if it is two numerals with one dash between them |
| `Streams.AutoIdWraps` | internal/storage/stream.go:78-142 | two additions to a new stream that leave it out of order |
| `Streams.StreamValue.Add` | internal/storage/stream.go:78-142 | refuses exactly malformed and non-increasing IDs; entries stay in order exactly unless an automatic ID wraps around |
| `Streams.StreamValue.EntriesAfter` | internal/storage/stream.go:104-127 | the binary search ends where the entries pass the ID, and gives exactly the entries behind it if they are in order |
| `WatchSpec.WatchesMore` | internal/server/watch_registry.go:17-64 | what one more event does to who watches what |
| `WatchSpec.BrokenMore` | internal/server/watch_registry.go:67-90 | a watch is broken exactly by a touch of a key watched at that moment |
| `Transactions.WatchRegistry.Watch` | internal/server/watch_registry.go:17-39 | adds the non-empty keys; registry and key sets stay inverse |
| `Transactions.WatchRegistry.UnwatchAll` | internal/server/watch_registry.go:42-64 | empties the client; registry and key sets stay inverse, no empty group is left |
| `Transactions.WatchRegistry.Touch` | internal/server/watch_registry.go:67-104 | flags exactly the clients that watch one of the keys |
| `Transactions.Sessions.Watch` | internal/command/commands.go:50-66 | WATCH, refused inside a transaction |
| `Transactions.Sessions.Multi` | internal/command/commands.go:117-134 | MULTI, refused inside a transaction without harm to it |
| `Transactions.Sessions.Submit` | internal/command/types.go:226-238 | a command is queued, spoils the transaction, or runs |
| `Transactions.Sessions.Exec` | internal/command/commands.go:136-186 | runs its whole queue in order, or none of it if a command was refused or a key watched was touched since; a context that ends midway leaves exactly the commands before that point; the watches are given up, and each command run breaks exactly the watches on the keys it touched |
| `Transactions.Sessions.Discard` | internal/command/commands.go:396-412 | DISCARD gives up the queue and the watches |
| `Transactions.Sessions.Disconnect` | internal/server/client_state.go:149-164 | the end of a session leaves no trace in the registry |
| `Transactions.Sessions.Touch` | internal/server/aof.go:195-200 | expired keys flag their watchers like a deletion |
| `Transactions.Sessions.Take` | internal/command/commands.go:50-186 | one whole command of any client does and answers what the plain account of what has happened says |
| `Transactions.Run` | internal/command/commands.go:50-186 | over every interleaving the registry is the inverse of the key sets, each flag says whether a kept watch was touched, and every reply, command run and watch broken is that of a server that only looks at what has happened |
| `Replicating.NormalLength` | internal/server/replication.go:545-550 | what a replica counts for a frame is what the master counted |
| `Replicating.InStepBounds` | internal/server/replication.go:135-191 | acknowledged, processed and sent bytes, in this order |
| `Replicating.CountedHasApplied` | internal/server/replication.go:210-219 | a replica counted for the first n frames has applied all of them it was sent |
| `Replicating.CaughtUpCounted` | internal/command/commands.go:292-296 | a replica that has everything is counted exactly when no more bytes went before it joined than since |
| `Replicating.LateJoinerNotCounted` | internal/command/commands.go:292-296 | for the latest write: exactly when it joined at the start |
| `Replicating.LateJoiner` | internal/command/commands.go:292-296 | the shortest case: one frame before it joined, everything applied, not counted |
| `Replicating.Replication.Register` | internal/server/replication.go:168-174 | a replica registered has acknowledged nothing; on a new link it owes nothing |
| `Replicating.Replication.Remove` | internal/server/replication.go:222-232 | the replica is no longer counted |
| `Replicating.Replication.Propagate` | internal/server/replication.go:300-343 | the offset advances by the bytes sent; every replica gets the frames or is dropped |
| `Replicating.Replication.SendAll` | internal/server/replication.go:381-408 | the frames join every link but those that fail |
| `Replicating.Replication.Receive` | internal/server/replication.go:533-577 | the replica counts the frame, and answers GETACK with its offset |
| `Replicating.Replication.ReadAck` | internal/command/commands.go:238-251 | an acknowledgement read in order is recorded: it is greater than any before |
| `Replicating.HeardAll` | internal/command/commands.go:238-251 | with nothing under way, what is recorded of a replica is what it had applied at the last request it answered |
| `Replicating.Replication.AnsweredIsCounted` | internal/command/commands.go:299-332 | WAIT then counts a replica that joined at the start for every write up to that request |
| `Replicating.OneReplicaCounted` | internal/command/commands.go:299-332 | a write, a request and its answer: the one replica is counted |
| `Replicating.Replication.CountAtOrAbove` | internal/server/replication.go:210-219 | the number of replicas at or above the offset |
| `Replicating.Replication.Wait` | internal/command/commands.go:299-332 | every replica counted has applied all it was sent up to the write |
| `Replicating.Run` | internal/server/replication.go:135-343 | over any run, acknowledged, processed and sent stay in order for every replica |
| `Morton.InterleaveInverse` | internal/command/geo.go:324-352 | deinterleaving undoes interleaving of 32-bit words |
| `Morton.DeinterleaveInverse` | internal/command/geo.go:324-352 | interleaving undoes deinterleaving of any 64-bit word |
| `Morton.InterleaveWeaves` | internal/command/geo.go:324-342 | the mask-and-shift code is the number whose digits alternate |
| `Morton.DeinterleaveUnweaves` | internal/command/geo.go:330-352 | the halves are every second digit |
| `Morton.WeavePrefix` | internal/command/geo.go:229-232 | leading digits of a code are the code of the leading digits |
| `Morton.WeaveFits` | internal/command/geo.go:135-149 | a code fits n digit pairs exactly when both halves fit n digits |
| `GeoCells.CentreUnits` | internal/command/geo.go:310-320 | a decoded position is the middle of its finest cell |
| `GeoCells.AxisNear` | internal/command/geo.go:176-184 | a position at most a cell away, around the axis, lies in the same or a neighbouring cell, the upper end included |
| `GeoRanges.CellSpanIs` | internal/command/geo.go:203-209 | the codes of a cell are one interval of scores |
| `GeoRanges.Block` | internal/command/geo.go:196-211 | the intervals of the centre cell and its neighbours, wrapped in longitude, cut at the poles, hit exactly their codes |
| `GeoRanges.Merge` | internal/command/geo.go:215-225 | merged intervals are separate, ascending and hit the same codes |
| `GeoRadius.DecodeEncode` | internal/command/geo.go:292-320 | decoding and encoding a 52-bit code is the identity |
| `GeoRadius.EncodeWord` | internal/command/geo.go:292-332 | a code is what the mask-and-shift interleaving of the two axis words gives |
| `GeoRadius.DecodeWord` | internal/command/geo.go:310-320 | a position is that of the two words the code is taken apart into |
| `GeoRadius.EncodeFits` | internal/command/geo.go:292-298 | a position encodes to 52 bits exactly when it is not at the upper end of an axis |
| `GeoRadius.CellCoords` | internal/command/geo.go:233-246 | cell indexes taken from the code are those of the position, clamped |
| `GeoRadius.ChooseStep` | internal/command/geo.go:137-140 | the deepest step whose cells cover the box, but at least 1 |
| `GeoRadius.BoxInBlock` | internal/command/geo.go:176-226 | a member in the bounding box lies in the block, at every step including 1 |
| `GeoRadius.RadiusRanges` | internal/command/geo.go:135-149 | the ranges are ascending and disjoint and contain every member in the bounding box, whatever its score |
| `GeoRadius.ScanLosesNone` | internal/storage/store.go:569-588 | scanning ascending ranges and filtering equals filtering everything |
| `GeoRadius.Query` | internal/command/geo.go:84-124 | the answer is that of a full scan, in order |
| `RdbFormat.LengthRoundTrip` | internal/rdb/snapshot.go:178-190 | a length is read back, modulo 32 bits, in all three forms |
| `RdbFormat.StringRoundTrip` | internal/rdb/loader.go:324-404 | a string is read back exactly when it is at most 512 MiB long |
| `Rdb.EntryBack` | internal/rdb/loader.go:156-285 | an entry is read back with its deadline, if it has one |
| `Rdb.SnapshotBack` | internal/rdb/snapshot.go:64-102 | reading a snapshot gives the entries its writer kept |
| `Rdb.BuildSnapshot` | internal/rdb/snapshot.go:64-102 | the sorted entries in wire form, and the counts of written and skipped |
| `Rdb.Loader.TakeLength` | internal/rdb/loader.go:296-322 | reading byte by byte gives the length the format means, in all four forms |
| `Rdb.Loader.TakeString` | internal/rdb/loader.go:324-404 | and the string, in all its encodings |
| `Rdb.Loader.ProcessMarker` | internal/rdb/loader.go:156-285 | one marker read from the stream: what goes into the store, is skipped, counted or refused is what the format says |
| `Rdb.Loader.Load` | internal/rdb/loader.go:121-142 | into a store without a memory limit the loop puts what the payload holds, up to its end or the first error; with a limit it may also stop for want of room |
| `Rdb.DeadlineMillisecond` | internal/rdb/snapshot.go:83-86 | snapshot and store differ on a key exactly in the millisecond of its deadline |
| `Rdb.SnapshotLoads` | internal/rdb/loader.go:121-285 | a snapshot loaded into an empty store gives the entries that outlive writing and loading, same bytes, same deadlines, nothing else |
| `RdbGrammar.TextExactly` | internal/rdb/loader.go:296-404 | the loader reads a string exactly where the format has one: plain, the text of a small number, or compressed |
| `RdbGrammar.PayloadExactly` | internal/rdb/loader.go:121-285 | it accepts a payload exactly if the format does, with the entries in order and deadlines in seconds or milliseconds |
| `Resync.SnapshotStrings` | internal/storage/store.go:679-714 | every live string once, with its bytes and deadline |
| `Resync.SaveAndLoad` | internal/server/server.go:397-412 | the live strings of any store, written to a snapshot and loaded into a new store: those that outlive it are there, and nothing else |
| `Resync.FullResync` | internal/server/replication.go:595-620 | a replica ends with the live strings of its master, or as it was if the snapshot cannot be loaded |

## Left out

- Goroutines, locks, the event loop, sockets, files and contexts: each locked region or whole command is one step, so nothing is said about deadlocks, torn interleavings inside a command, or durability of writes to disk.
- Equality of the live store with a replay of the live log: automatic stream IDs are logged verbatim and blocking pops are not logged.
- Float rounding and the text of floats: scores are reals, and that a score is read off its text is asked of each score that occurs, where a log is rewritten.
- LZF decompression: a parameter of the RDB loader, which the snapshot writer never needs.
- Blocking commands, pub/sub, MONITOR, AUTH, SLOWLOG, INFO, configuration and error texts: easy members or plumbing.
- The hash of HyperLogLog elements and the estimator: elements are given by their hashes, and the count is some function of the registers.
- Command names in lower case: a log is replayed for the names the source writes in it.
- WAIT's waiting: timeouts and wake-ups are not modelled, only what a count means when it is taken.
- The order in which hashes and sets are listed: fields and members of a stored value are a map and a set; a snapshot lists them in some order, which does not matter by `AofRewrite.SameFields`.
- GeoRadius.Query: takes the bounding box and the distance test as given, because their trigonometry is not modelled, and asks that the test lets nothing through outside the box.
- SkipLists.SkipList.Insert: asks that the entry is not there yet, because a second link to the same entry would not be in order; `SortedSets.SortedSet.Add` removes a member's old entry first.
- Replicating.Replication.Register: a dropped connection is closed, so an identifier that was dropped comes back on a new link.
- Rdb.SnapshotLoads: for strings up to 512 MiB; the loader refuses longer ones.
- Recovery.LoadOnto: says what is left for a store without a memory limit, as the source sets the limit after loading.
- AofRewrite.RewriteAndLoad: for commands whose lengths fit 64 bits, as lengths in the source do.

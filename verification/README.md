# mq-store: a verified model of the Redis hot database

`mq-store` is the persistence layer of a blockchain indexer. It stores every
block's application writes in Redis, records the last finalized head under
two keys, and keeps the list of not-yet-final ("hot") blocks under a third,
so that the indexer can resume after a restart or a reorganisation. Two
classes make up its core:

- `Store` (`mq-store/src/store.ts`) is the handle a block callback writes
  through. Writes (`hSet`, `set`, `del`, `rPush`, `exec`) are buffered in
  memory. Reads (`get`, `lRange`) go straight onto the Redis `MULTI`
  transaction. `flush` replays the buffer onto the transaction in order.
  `flush` is public, so a callback may call it too.
- `RedisDatabase` (`mq-store/src/database.ts`) has one startup read and
  three commit protocols:
  - `connect` decodes `lastProcessedBlock`, `lastProcessedHash` and the
    `topBlocks` list of `height:hash` entries.
  - `transact`, `transactHot` and `transactHot2` each build one transaction:
    what the callback's calls put on it, then a final flush, then the
    bookkeeping commands. One `EXEC` then applies the whole transaction.

The model is functional. The files are:

- `redis.dfy` (module `Redis`) replaces the Redis server with a key space
  `map<string, Value>`, where `Value = Str | Hash | List`. A transaction is
  a sequence of `Cmd`, and `EXEC` is a fold of `Apply` over it.
- `buffer.dfy` (module `Buffer`) is the `Store`. It is a record of the
  buffered writes and the transaction's queue. A callback is the sequence of
  `Call`s it makes on the store, and `Run` performs those calls in order.
- `database.dfy` (module `Database`) holds the entry encoding, `connect`,
  and the three protocols. The per-block callback of `transactHot` is a
  function from a block to calls. The range callback of `transactHot2` is a
  function from `(start, end)` to calls.
- `text.dfy` (module `Text`) holds decimal text, which is what `toString()`
  and `parseInt` produce and read, and the search for `':'` done by `split`.
- `results.dfy` holds `Option` and `Result`.
- `scenarios.dfy` derives the flows of `mq-store/src/test/database.test.ts`
  from the general lemmas.

The main results are these:

- `Flush` replays the buffer first-in first-out.
- A commit queues the callback's reads in call order and its writes in call
  order. A read sees exactly the writes flushed before it: without a flush
  of the callback's own, no write of the same commit; after such a flush,
  the writes called before that flush.
- The last write to a key wins.
- `EXEC` discards the whole transaction when Redis rejected a command while
  queueing it (an HSET without fields, an RPUSH without values). Then the
  key space, and so what `connect` reads, is unchanged.
- An entry round-trips exactly when its hash has no `':'`.
- After a committed `transact`, `connect` reads the new head, and the hot
  list grows by that head when the commit is on top.
- After a committed `transactHot` or `transactHot2`, `connect` reads the
  finalized head and exactly the new blocks, whatever the key space held
  before.

## Model

| member | source | states |
|---|---|---|
| Buffer.Perform | mq-store/src/store.ts:11-48 | a write call appends exactly its command to the end of the buffer and leaves the transaction alone; a read call appends exactly its command to the transaction and leaves the buffer alone; a flush call moves the whole buffer, in order, onto the transaction |
| Buffer.CmdOf | mq-store/src/store.ts:11-41 | the calls that go to the transaction (`get`, `lRange`) are exactly those whose command is a read |
| Buffer.Flush | mq-store/src/store.ts:43-48 | afterwards the buffer is empty and the transaction is the old transaction followed by the buffered commands in queue order (an empty buffer adds nothing) |
| Buffer.WriteFlushesLast | mq-store/src/store.ts:11-48 | a buffered write does not touch the transaction, and a later flush puts it after everything flushed before it |
| Buffer.ReadPrecedesBuffered | mq-store/src/store.ts:23-37 | a read leaves the buffer alone and sits on the transaction ahead of every write buffered at that time |
| Buffer.Reads | mq-store/src/store.ts:23-37 | every command it collects is a read |
| Buffer.Writes | mq-store/src/store.ts:11-41 | no command it collects is a read |
| Buffer.RunFlushFree | mq-store/src/store.ts:11-41 | without flushes of the callback's own, performing calls in order buffers exactly their writes and queues exactly their reads, each in call order |
| Buffer.RunFilters | mq-store/src/store.ts:11-48 | whatever the calls, flushes included, the reads reach the transaction in call order, and the writes on the transaction followed by those still buffered are the calls' writes in call order |
| Buffer.RunShift | mq-store/src/store.ts:23-48 | commands already on the transaction do not change what later calls add after them |
| Buffer.RunConcat | mq-store/src/store.ts:11-48 | performing a + b is performing a, then b |
| Buffer.Flushed | mq-store/src/database.ts:37-40 | the queue a fresh store hands its transaction after the callback and the final flush holds exactly the callback's reads and exactly its writes, each in call order; without flushes of the callback's own, all reads come first and then all writes |
| Buffer.FlushedSplit | mq-store/src/store.ts:43-48 | a flush the callback makes cuts the queue in two: what was called before it, then what was called after it |
| Buffer.FlushedLeadingReads | mq-store/src/database.ts:37-40 | the reads made before the callback's first flush open the queue |
| Buffer.ReadIsolation | mq-store/src/store.ts:23-37 | a read made before the callback's first flush replies as on the state before the commit, whatever is queued after it |
| Buffer.ReadSeesFlushedWrites | mq-store/src/store.ts:23-48 | a read made after a flush of the callback's own, and before its next flush, replies as on the state the writes called before that flush leave, and sees no write called after it |
| Buffer.CommitEffect | mq-store/src/database.ts:37-46 | a flushed commit followed by later commands has the effect of its writes alone, then the later commands |
| Buffer.FlushedQueueable | mq-store/src/store.ts:43-48 | the flushed queue is accepted while queueing exactly when every write of the callback is |
| Buffer.WritesFrame | mq-store/src/store.ts:11-41 | a key no call touches keeps its value through the calls' writes |
| Buffer.BufferedLastSetWins | mq-store/src/store.ts:43-46 | after `set k v` and calls that leave k alone, k holds v, whatever came before and whatever the callback flushed |
| Redis.StringAt | mq-store/src/database.ts:20-21 | GET reads an unset key as none, a string as itself, and fails on any other kind of value |
| Redis.RangeAt | mq-store/src/database.ts:22 | LRANGE reads an unset key as empty, fails exactly on a non-list, and reads range 0..-1 of a list as the whole list |
| Redis.Slice | mq-store/src/database.ts:22 | the range is no longer than the list, and 0..-1 is the whole list |
| Redis.HashSet | mq-store/src/store.ts:11-17 | HSET of fields stores exactly them on an unset key and merges them into a hash; it fails with WRONGTYPE on a string or a list; it changes no other key, and a failed HSET changes nothing |
| Redis.ListPush | mq-store/src/database.ts:44 | RPUSH of values onto an unset key or a list appends exactly them; it fails with WRONGTYPE on a string or a hash; it changes no other key, and a failed RPUSH changes nothing |
| Redis.Apply | mq-store/src/database.ts:46 | reads and failed commands leave the key space as it was |
| Redis.ApplyFrame | mq-store/src/database.ts:46 | a command changes only the key it names (raw commands aside) |
| Redis.Exec | mq-store/src/database.ts:46 | EXEC gives one reply per queued command |
| Redis.ExecConcat | mq-store/src/database.ts:46 | running a + b is running a and then b on its result, with replies concatenated |
| Redis.ExecReplyAt | mq-store/src/database.ts:46 | the i-th reply is the reply of the i-th command on the state the commands before it left |
| Redis.ExecFrame | mq-store/src/database.ts:46 | commands that avoid a key leave it as it was |
| Redis.ExecReadsKeepState | mq-store/src/database.ts:46 | reads alone leave the key space as it was |
| Redis.ExecAfterReads | mq-store/src/database.ts:46 | leading reads do not change what the rest of the transaction does |
| Redis.ExecSkipsReads | mq-store/src/database.ts:46 | the key space a transaction leaves is the one its writes alone leave, wherever its reads sit |
| Redis.LeadingReadReply | mq-store/src/database.ts:46 | each read in a leading run of reads replies as on the starting state |
| Redis.NoRollback | mq-store/src/database.ts:46 | a command that fails at run time with WRONGTYPE gets an error reply, and the commands after it take effect as if it had not been queued |
| Redis.Commit | mq-store/src/database.ts:46 | EXEC aborts, applying nothing, exactly when some queued command was rejected while queueing (HSET without fields, RPUSH without values); otherwise it gives one reply per command |
| Redis.QueueableWrites | mq-store/src/database.ts:46 | reads are never rejected while queueing, so a transaction is accepted exactly when its writes are |
| Redis.AllQueueableConcat | mq-store/src/database.ts:46 | a + b is accepted exactly when a and b both are |
| Redis.PushOne | mq-store/src/database.ts:44 | RPUSH of one entry onto an unset key or a list appends exactly that entry |
| Redis.PushEach | mq-store/src/database.ts:62-64 | one push per entry, and no push touches any other key |
| Redis.PushEachBuilds | mq-store/src/database.ts:61-64 | pushing the entries one by one onto an unset key builds exactly the list of them (the key stays unset when there are none) |
| Redis.LastSetWins | mq-store/src/store.ts:19-20 | after SET k v, commands that avoid k leave k holding v |
| Redis.LastDelWins | mq-store/src/store.ts:27-28 | after DEL k, commands that avoid k leave k unset |
| Text.NatToString | mq-store/src/database.ts:41 | the text is decimal digits, one digit exactly below 10 |
| Text.IntToString | mq-store/src/database.ts:41 | the text is non-empty and has no ':' |
| Text.ParseInt | mq-store/src/database.ts:26-30 | only text of an optional '-' and then digits parses; empty text and text with a ':' do not; a negative result comes only from a leading '-' |
| Text.DigitsValueOfNatToString | mq-store/src/database.ts:26 | reading back the digits of n gives n |
| Text.ParseIntOfIntToString | mq-store/src/database.ts:26 | `parseInt` of `n.toString()` is n, negative numbers included |
| Text.IndexOf | mq-store/src/database.ts:25 | finds the first occurrence of the character, and none exactly when it does not occur |
| Database.Encode | mq-store/src/database.ts:44 | the entry is the height's decimal text, then its first ':', then the hash |
| Database.BeforeColon | mq-store/src/database.ts:25 | the hash part `split(':')` keeps is a prefix of the text with no ':', ends at the text's first ':' when there is one, and is the whole text exactly when there is none |
| Database.Decode | mq-store/src/database.ts:24-27 | an entry without ':' does not decode; otherwise the height is the text before the first ':' and the hash is the text after it up to the next ':', so it has no ':' |
| Database.DecodeEncode | mq-store/src/database.ts:24-27 | decoding an entry written as `${height}:${hash}` gives the height back and the hash cut at its first ':' |
| Database.DecodeEncodeRoundTrip | mq-store/src/database.ts:24-27 | decoding an encoded block gives the block back exactly when its hash has no ':' |
| Database.EncodeAll | mq-store/src/database.ts:62-64 | one entry per block |
| Database.DecodeAll | mq-store/src/database.ts:24-27 | decoding the list succeeds exactly when every entry decodes, and then keeps length, order and each entry's value |
| Database.DecodeAllEncodeAll | mq-store/src/database.ts:24-27 | the entries written for blocks whose hashes have no ':' decode to those blocks |
| Database.DecodeAllPush | mq-store/src/database.ts:24-27 | appending the entry of a block whose hash has no ':' appends that block to the decoded list |
| Database.HeightOf | mq-store/src/database.ts:30 | an unset or empty head height reads as -1, a height written by `toString()` reads as itself, and the read fails exactly on other non-decimal text |
| Database.HashOf | mq-store/src/database.ts:31 | the hash reads as the stored text when that is non-empty, and as `0x` when it is unset or empty |
| Database.Connect | mq-store/src/database.ts:18-34 | a key space without the three keys reads as height -1, hash `0x` and no hot blocks; otherwise the hot blocks are the stored entries decoded, in order, with the same length |
| Database.ConnectOfHead | mq-store/src/database.ts:29-33 | a stored head and a decodable hot list read back as that head and those blocks |
| Database.ConnectAfterBookkeeping | mq-store/src/database.ts:18-34 | a key space holding a head, and the hot list read before grown by that head when on top, reads back as exactly that |
| Database.HeadCmdsEffect | mq-store/src/database.ts:41-42 | the two SETs store the head's height text and hash and change nothing else |
| Database.FinalBookkeeping | mq-store/src/database.ts:41-45 | the bookkeeping of `transact` is writes only, each accepted while queueing |
| Database.HotBookkeeping | mq-store/src/database.ts:58-64 | the bookkeeping of the hot protocols is writes only, each accepted while queueing |
| Database.CommitQueue | mq-store/src/database.ts:37-46 | a commit queue's reads are the callback's, its writes are the callback's then the bookkeeping, and it is accepted exactly when the callback's writes are |
| Database.TransactCommands | mq-store/src/database.ts:36-46 | `transact` queues the callback's reads and writes, each in call order (all reads first unless the callback flushed), then the head SETs and, when on top, the RPUSH; it is accepted exactly when the callback's writes are |
| Database.Transact | mq-store/src/database.ts:36-47 | when a write of the callback is rejected while queueing, the key space is unchanged; otherwise it is what the callback's writes and then the bookkeeping leave |
| Database.TransactEffect | mq-store/src/database.ts:41-45 | after a committed `transact` the head keys hold nextHead; when on top the hot list is the one the callback left plus the encoded nextHead, otherwise it is unchanged; every other key is as the callback's writes left it |
| Database.TransactThenConnect | mq-store/src/database.ts:36-47 | after `transact` on a readable key space, `connect` reads nextHead and the hot blocks read before, plus nextHead when on top; after an aborted `transact` it reads what it read before |
| Database.TransactReadIsolation | mq-store/src/database.ts:37-40 | a read the callback makes before any flush of its own replies, in the committed transaction, as on the state before the commit |
| Database.TopPushesEffect | mq-store/src/database.ts:62-64 | pushing the encoded blocks onto an unset list rebuilds it as exactly those entries |
| Database.HotCommitEffect | mq-store/src/database.ts:57-64 | after a hot commit's writes, the head keys hold the head, the hot list is exactly the encoded blocks whatever it held before, and every other key is as the callbacks' writes left it |
| Database.HotCommitThenConnect | mq-store/src/database.ts:57-66 | after a hot commit's writes, `connect` reads the head and exactly the blocks |
| Database.RunPerBlock | mq-store/src/database.ts:53-55 | calling the callback for each block in order leaves the store as one run of the per-block calls concatenated in block order |
| Database.TransactHotCommands | mq-store/src/database.ts:49-65 | `transactHot` queues the reads and the writes of every block's calls, blocks in order, then the head SETs, DEL and one RPUSH per block; it is accepted exactly when the callbacks' writes are |
| Database.TransactHot | mq-store/src/database.ts:49-67 | when a write of the callbacks is rejected while queueing, the key space is unchanged; otherwise it is what the callbacks' writes and then the bookkeeping leave |
| Database.TransactHotEffect | mq-store/src/database.ts:57-66 | after a committed `transactHot`, the head keys hold finalizedHead, the hot list is exactly the encoded newBlocks, and every other key is as the callbacks' writes left it |
| Database.TransactHotThenConnect | mq-store/src/database.ts:49-67 | after a committed `transactHot`, `connect` reads finalizedHead and exactly newBlocks, whatever the key space held before; after an aborted one, what it read before |
| Database.TransactHot2Commands | mq-store/src/database.ts:73-85 | `transactHot2` calls the callback once on (0, number of new blocks), then queues the same bookkeeping as `transactHot` |
| Database.TransactHot2 | mq-store/src/database.ts:69-87 | when a write of the callback is rejected while queueing, the key space is unchanged; otherwise it is what the callback's writes and then the bookkeeping leave |
| Database.TransactHot2Effect | mq-store/src/database.ts:76-87 | after a committed `transactHot2`, the head keys hold finalizedHead, the hot list is exactly the encoded newBlocks, and every other key is as the callback's writes left it |
| Database.TransactHot2ThenConnect | mq-store/src/database.ts:76-87 | after a committed `transactHot2`, `connect` reads finalizedHead and exactly newBlocks; after an aborted one, what it read before |
| Database.TransactHot2Frame | mq-store/src/database.ts:76-85 | `transactHot2` changes no key besides the three bookkeeping keys and the keys its callback writes, whether it commits or aborts |
| Database.TransactHot2AgreesWithTransactHot | mq-store/src/database.ts:76-85 | when the range callback makes the calls the per-block callback makes block by block, both protocols queue the same commands and leave the same key space |
| Scenarios.InitialConnect | mq-store/src/test/database.test.ts:24-27 | an empty key space connects as height -1, hash `0x`, no hot blocks |
| Scenarios.CommitOnTop | mq-store/src/database.ts:36-47 | an on-top commit whose callback's writes are accepted and leave the hot list and key k alone grows the hot list by nextHead and keeps k |
| Scenarios.WriteTransfer | mq-store/src/test/database.test.ts:36-43 | the callback writing a non-empty transfer is accepted, writes exactly one HSET, and touches no other key |
| Scenarios.FirstTransact | mq-store/src/test/database.test.ts:32-43 | the first commit of the flow stores transfer 1, leaves transfer 2 unset, and reads back as head 10 with one hot block |
| Scenarios.SecondTransact | mq-store/src/test/database.test.ts:45-56 | the second commit reads back as head 20 with both hot blocks, keeps transfer 1 and stores transfer 2 |
| Scenarios.TransactFlow | mq-store/src/test/database.test.ts:29-85 | two commits on top read back as head 20 / `0x20` with hot blocks 10 and 20, and both transfers are stored |
| Scenarios.TransactFlowWithTransfers | mq-store/src/test/database.test.ts:29-85 | the same with the transfers the tests write |
| Scenarios.FirstTransactHot | mq-store/src/test/database.test.ts:90-96 | the hot commit of block 0 with a callback that does nothing reads back as head 0 / `0` with that block hot, and no transfer is stored |
| Scenarios.SwitchCalls | mq-store/src/test/database.test.ts:106-125 | over blocks 1..3 the callback that switches on the height writes transfer 1 and then transfer 2, and nothing else |
| Scenarios.SecondTransactHot | mq-store/src/test/database.test.ts:98-154 | the hot commit of blocks 1..3 on finalized head 0 reads back as exactly that head and those blocks, and stores both transfers |
| Scenarios.TransactHotFlow | mq-store/src/test/database.test.ts:87-154 | the two hot commits of the test, in order, read back as head 0 / `0` with hot blocks 1..3, and both transfers are stored |

## Left out

- The Redis client, `createClient`, `client.connect()`, `disconnect`/`quit` and `RedisDatabaseOptions` are left out. They are network and lifecycle plumbing.
- Promises and `await` are left out. Every `await` is one sequential step, and a callback is the sequence of store calls it makes. This is faithful because a read on a `MULTI` transaction returns the transaction builder, not a value. So within a commit a callback cannot branch on what it reads.
- Reads are modelled as queued commands with replies. `Store.get` and `Store.lRange` return the builder; the model keeps each read's reply in `EXEC`'s reply list and does not follow it further.
- `exec(command, ...args)` and the dispatch by name in `flush` are modelled by `Redis.Raw`. Its effect on the key space is the parameter `raw`, which the model does not interpret. The frame lemmas therefore assume raw commands may touch any key.
- Redis.Commit: the only commands rejected while queueing are an HSET without fields and an RPUSH without values. A raw command is always accepted, although Redis would reject an unknown command name or a wrong number of arguments while queueing too.
- Redis replies are simplified. Integer replies (the counts HSET and RPUSH return) become `Done`. Of the run-time errors only WRONGTYPE is modelled.
- Database.Transact, Database.TransactHot, Database.TransactHot2: a callback that throws (`mq-store/src/database.ts` lines 39, 54 and 76) never reaches `EXEC`, so the key space is unchanged. The model has no exceptions, and its callbacks always finish.
- Database.Transact, Database.TransactHot, Database.TransactHot2: a flush that meets a command name the client does not have throws (`mq-store/src/store.ts` lines 39-45), again before `EXEC`, leaving the key space unchanged. The model's `Redis.Raw` accepts every name.
- A commit is atomic when it is abandoned before `EXEC` (the two cases above) or rejected while queueing (`Redis.Commit`). It is not atomic when a command fails while `EXEC` runs. A caller might expect a failed commit to leave nothing observable. The code relies on `MULTI`/`EXEC`, which runs every other command when one fails at run time. The model follows the code, and `Redis.NoRollback` states it. Crash atomicity (none or all of a commit is durable) belongs to the Redis server and is not modelled.
- `Database.Connect`, `Database.HeightOf` and `Database.Decode` report `Malformed` where JavaScript would go on. Those cases are stored text that is not canonical decimal and an entry without a `':'`. In JavaScript, `parseInt` yields `NaN` or reads a numeric prefix, and `split` leaves the hash `undefined`. Only the text `toString()` writes is read as the JavaScript code reads it.
- `Database.Connect`: a read that meets the wrong kind of value becomes the error `WrongTypeAt`. In the code the promise rejects.
- Heights are unbounded integers. JavaScript numbers lose precision above 2^53, and that is not modelled.
- `prevHead` and `baseHead` are carried in the info records but are not read, because the code does not read them either.
- `transact` with `isOnTop` appends to `topBlocks` without bound, and the model keeps that behaviour. Nothing in the code prunes the list.
- Concurrent commits and interleaved stores are not modelled. The code assumes a single writer that runs commits one after another.
- The individual store operations `Buffer.HSet`, `Buffer.Set`, `Buffer.Del`, `Buffer.RPush`, `Buffer.Exec`, `Buffer.Get` and `Buffer.LRange` carry no contract of their own. `Buffer.Perform` states what each one does to the buffer and to the transaction.

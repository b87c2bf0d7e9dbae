# InMemDB, verified

A Dafny model of InMemDB, a key-value server with key expiry, an append-only file, a chained hash table,
a worker pool and a line protocol. `dafny verify dfyconfig.toml` checks everything.

The heap code (entries and bucket arrays, the file being scanned, the command buffer, the receive buffer, the
task queue) is written as methods on arrays and linked objects, each proved equal to a function on values.
What the program promises is then proved about those functions, and about a state machine of the whole server.

| file | models |
|---|---|
| `Store.dfy` | timed values, log records, what a replay means, durability and exactness of recovery |
| `Text.dfy` | C strings, decimal numbers, the `fscanf`/`strtoll` conversions in use |
| `Aof.dfy` | the text format of the append-only file, its scanner, round trip and torn files |
| `Chains.dfy`, `Growth.dfy` | the hash table as a value; resizing; total resize work over a run |
| `HashTables.dfy` | the hash table on the heap, with in-place relinking |
| `Persistence.dfy` | appending, loading and rewriting the file |
| `Tokenizer.dfy` | the in-place tokenizer |
| `Commands.dfy`, `Engine.dfy` | what a command means; `command_execute` on the heap; the read-lock classifier |
| `Behaviour.dfy` | every form of a command line, and the replies and effects of every command, spelled out |
| `Framing.dfy`, `TaskQueues.dfy` | the receive buffer; the linked task queue |
| `ServerModel.dfy` | the server as steps of N workers, clock ticks, submissions, wake-ups, crashes and restarts |
| `ServerQueue.dfy`, `ServerJobs.dfy`, `ServerEffects.dfy` | its invariants |
| `ServerTheorems.dfy`, `ServerProgress.dfy` | what holds in every reachable state |

Functions that both a method and a theorem rely on (decoding, execution, numbers, record formats, the receive guard, the hash)
are tied down a second time without reference to their bodies: `Behaviour.dfy`, `Text.DecimalText`, `Text.DecimalValue`,
`Aof.RecordFormat`, `Framing.OverflowForgets`, `Framing.SentLines`, `Chains.HashIsPolynomial`.

Conventions. A byte is a `char`; a C string is a `string`. A run of clock readings is a function from the number
of the reading to the time; the clock never goes back. File operations and the allocation inside a resize succeed or fail as
parameters say. The load-factor test is the integer test `4 * count > 3 * size`, which is what the comparison of
doubles decides for table sizes that are powers of two. An append writes a whole record or nothing.

Where the code and its documentation differ, the model follows the code: a key that expired while the server was
down is not always discarded by recovery (README.md:193), because a skipped SET leaves an older unexpired value of
the key in place; and DEL of an expired key answers 0 and removes nothing (README.md:191).
`Store.ExpiredKeyCanComeBack` is a concrete log, and `Store.RecoveryExact` and `ServerTheorems.RecoveryIsExact` say exactly when
recovery gives the live entries and nothing else.

## Model

| member | source | states |
|---|---|---|
| Store.ReplayExact | src/persistence.c:135-411 | the loaded entry of a key is what the last record of that key that was not an expired SET when read says, and there is none if no such record exists; every record may be read at a different time |
| Store.ReplayAgreesWithLastWrites | src/persistence.c:319-331 | a load agrees on a key with "last write wins, then drop what has expired" if and only if it is not the case that the key's last record is an expired SET and an earlier unexpired SET has no DEL after it |
| Store.ExpiredKeyCanComeBack | src/persistence.c:319-331 | a two-record log whose expired last write brings the older value back |
| Store.DurableLoad | src/persistence.c:118-423 | from the durability invariant, every entry still live when a load ends is rebuilt with its value and expiry |
| Store.LoadIsDurable | src/persistence.c:118-423 | a table built by a load is again durable in the log it came from, so the invariant survives any number of restarts |
| Store.LoadCovers | src/persistence.c:118-423 | a key that a load does not restore has no unexpired SET left in the log since its last DEL |
| Store.CompactionExact | src/persistence.c:440-497 | replaying a compacted log at any later time gives exactly the entries live then, whatever their order |
| Store.RecoveryExact | src/persistence.c:319-331 | under the durability invariants a load gives exactly the live entries if and only if no key that the table holds expired has an older unexpired SET, with no DEL since, in the log |
| Text.ScanPrinted | src/persistence.c:44-66 | scanning a printed integer gives it back, after any white space and before any non-digit; Text.DecimalText and Text.DecimalValue say which text that is |
| Text.DecimalText | src/persistence.c:44-66 | numbers are printed in base ten: a single digit as its character, the last digit of a longer one appended to the rest, a minus sign before a negative one |
| Text.DecimalValue | src/command.c:158-190 | digits are read in base ten, the first the most significant |
| Text.ScanWhole | src/command.c:158-190 | a conversion that consumes the whole text succeeds with n if and only if the text is white space, an optional sign and digits of n |
| Aof.RecordFormat | src/persistence.c:44-104 | the bytes of a SET record with and without expiry, and of a DEL record |
| Aof.ScanRecordPrinted | src/persistence.c:135-411 | the scanner reads back any printed record, whatever its key and value contain and whatever follows it |
| Aof.RoundTrip | src/persistence.c:22-116 | scanning the printed bytes of any log gives the log and reports success |
| Aof.ScanRecordTorn | src/persistence.c:143-411 | every proper non-empty prefix of a record is malformed; only a DEL without its newline is applied |
| Aof.TornLog | src/persistence.c:135-422 | loading any prefix of a log succeeds if and only if the cut is on a record boundary, and applies the whole records before the cut (and a DEL that lost just its newline, before failing) |
| Chains.PutRepresents | src/hash_table.c:96-199 | set keeps keys unique and in their hash buckets, and is map update; the number of entries grows only for a new key |
| Chains.HashIsPolynomial | src/hash_table.c:60-76 | the hash of a key is the polynomial in 31 with its bytes as coefficients, the first byte the highest, modulo 2 to the 64 |
| Chains.HashKey | src/hash_table.c:60-76 | the loop over the bytes, wrapping at every step, computes that hash |
| Chains.RemoveRepresents | src/hash_table.c:259-316 | delete is map removal, keeps the structure, and the number of entries falls only for a key that was there |
| Chains.RehashRepresents | src/hash_table.c:318-376 | resizing to any size of at least 1 keeps the key map and puts every entry in its new hash bucket |
| Chains.RehashPermutes | src/hash_table.c:342-368 | resizing keeps the multiset of entries and their number: each is relinked once |
| Chains.RelinkReverses | src/hash_table.c:342-368 | each new chain is the reversal of the entries that belong in it, in the order visited |
| Chains.DoublingSplitsChains | src/hash_table.c:205-211 | when the table doubles, new chains j and j + size are the reversed filters of old chain j alone |
| Chains.InsertRepresents | src/hash_table.c:96-214 | set with growth is map update, also when the resize cannot allocate |
| Growth.ResizeWork | src/hash_table.c:199-211 | after any sequence of sets and deletes from 8 buckets the table refines the map, is at most three quarters full, and all resizes together have relinked 3/4 size - 6 + log2(size/8) entries, at most 3 per new key |
| Growth.TwoIsNotEnough | src/hash_table.c:199-211 | inserting fresh keys, at most 2 relinks per key holds up to the 1536th and fails at the 1537th, with 3075 relinks |
| HashTables.PushEntry | src/hash_table.c:192-197 | linking an entry at the front of its chain extends that chain and no other |
| HashTables.UnlinkFirst | src/hash_table.c:284-292 | unlinking the head of a chain removes it from that chain and no other |
| HashTables.UnlinkLater | src/hash_table.c:294-302 | unlinking a later entry through its predecessor removes it from that chain and no other |
| HashTables.MoveEntry | src/hash_table.c:353-366 | one relinking step: the entry is in its new chain, and all unvisited old chains are still intact |
| HashTables.RelinkAll | src/hash_table.c:342-368 | the two loops relink every entry exactly once, into acyclic disjoint chains equal to the rehashed table |
| HashTables.HashTable.constructor | src/hash_table.c:7-31 | a new table is empty |
| HashTables.HashTable.FindEntry | src/command.c:130-152 | finds the entry of a key, or none exactly when the map does not have it |
| HashTables.HashTable.GetLive | src/hash_table.c:216-257 | the value of a key that is live now, else none |
| HashTables.HashTable.Ttl | src/hash_table.c:378-424 | -2 for a key that is not live, -1 for one that never expires, else the positive number of seconds left |
| HashTables.HashTable.SetWithExpiry | src/hash_table.c:96-214 | the table becomes the map update, the chains those of Chains.Insert, and exactly count entries are relinked when it grows |
| HashTables.HashTable.ChangeExpiry | src/command.c:391-433 | only the expiry of the given key changes |
| HashTables.HashTable.Delete | src/hash_table.c:259-316 | the key is removed and count falls exactly when it was there |
| HashTables.HashTable.Resize | src/hash_table.c:318-376 | in-place relinking yields the rehashed table with the same map and count, relinking count entries; on failure nothing changes |
| Persistence.LogFile.AppendSetExpiry | src/persistence.c:22-80 | appends exactly one printed SET record, or nothing |
| Persistence.LogFile.AppendDel | src/persistence.c:82-116 | appends exactly one printed DEL record, or nothing |
| Persistence.Input.ReadSet | src/persistence.c:143-317 | reads one SET record from the unread input, or fails exactly when the scanner does |
| Persistence.LoadRecord | src/persistence.c:135-418 | one turn of the loader consumes one record and applies it unless it has expired |
| Persistence.Load | src/persistence.c:118-423 | the loaded table is the replay of the scanned records onto the given table, and the result says whether the whole file was well formed; resizes on the way may fail |
| Persistence.Recover | src/main.c:9-28 | start-up builds exactly the replay of the file from an empty table of 8 buckets |
| Persistence.RewriteCompacts | src/persistence.c:440-497 | the records of a rewrite are the live entries, once each, for any bucket count and chain order |
| Persistence.Rewrite | src/persistence.c:425-515 | replaces the file by the printed live entries in chain order, or fails and leaves it alone |
| Persistence.RewriteThenLoad | src/persistence.c:425-515 | loading the bytes of a rewrite at any later time succeeds and gives exactly the entries live then |
| Tokenizer.ParseCommand | src/command.c:40-121 | fails exactly on an unclosed quote or too many arguments; else the NUL-terminated strings at argv in the buffer are the tokens of the original text, apart from each other, and only delimiters were overwritten |
| Tokenizer.TokensNulFree | src/command.c:40-121 | every argument of a C string is a C string |
| Tokenizer.ThirdTokenFits | src/command.c:40-121 | a third argument is shorter than the text by at least the first argument and three more characters |
| Tokenizer.QuotedRoundTrip | src/command.c:63-97 | quoting quote-free arguments and joining them with spaces parses back to them |
| Tokenizer.WordsRoundTrip | src/command.c:49-116 | words separated by any white space are the arguments, and more words than fit are an error |
| Tokenizer.QuotedTooMany | src/command.c:49-60 | more quoted arguments than fit are an error |
| Tokenizer.UnclosedQuote | src/command.c:63-97 | a quote that is not closed is an error, whatever comes before it |
| Commands.QuotedCommands | src/command.c:243-313 | every quote-free key and value can be sent, in any case of SET, GET and EX, and decodes to exactly that command |
| Commands.ReadLockSound | src/worker_pool.c:64-97 | for every text that the classifier accepts, decoding it gives a request that cannot change anything |
| Commands.ReadOnlyKeeps | src/command.c:448-598 | such a request leaves the table and the file as they were |
| Commands.ExecuteSafe | src/command.c:252-738 | every command keeps: the file loads, live entries are durable in it, absent keys have nothing in it, and stored values are bounded |
| Commands.RestartSafe | src/persistence.c:118-423 | a restart rebuilds every entry still live and re-establishes that invariant |
| Commands.DecodeBounded | src/command.c:252-313 | a command line of at most 1022 characters sets values of at most 1016 |
| Commands.GetReplyWhole | src/command.c:491-496 | a bounded value and its newline fit the response buffer uncut |
| Commands.Unobservable | src/command.c:252-675 | each command on the table with lazily expired entries has the reply, and leaves the live entries, of the store that drops every key at the instant it expires, although TTL reads the clock twice |
| Behaviour.CommandForms | src/command.c:448-754 | for a name in any case and up to four quote-free arguments: GET, TTL and DEL with one argument, PING and EXIT with none decode to that command, any other count to the argument error, any other name to the unknown-command error |
| Behaviour.SetForms | src/command.c:252-313 | SET with two arguments, with EX in any case and a numeral of a positive number, and the answers for a wrong count, another option, and a text that is no such numeral |
| Behaviour.InvalidForms | src/command.c:203-235 | a blank line is answered with nothing; more than five arguments or an unclosed quote make the line invalid |
| Behaviour.UnquotedForms | src/command.c:40-121 | words separated by any white space mean the same as the quoted arguments |
| Behaviour.ReadLockExact | src/worker_pool.c:64-97 | the read lock is taken if and only if the text is white space, then GET or TTL in any case, then its end or white space |
| Behaviour.SetEffect | src/command.c:335-442 | after a SET with n seconds read at t1 the stored and logged expiry is t1 + n, or none without EX, other keys are as before, and the key is live exactly before t1 + n; a failed append changes nothing |
| Behaviour.TtlEffect | src/command.c:505-598 | whatever happens between its two readings, TTL answers for the second one: -2 for a key gone by then, -1 for one that stays, else the seconds left in decimal |
| Behaviour.DelEffect | src/command.c:604-675 | DEL removes and logs a live key and no other; a missing or expired one answers 0 and changes nothing |
| Behaviour.SetThenRead | src/command.c:252-598 | from the text of a SET with EX n to the text of later replies: GET gives the value before t1 + n and (nil) from then on, TTL the seconds left and then -2 |
| Behaviour.ExitEffect | src/command.c:704-738 | after BYE the file loads, lists the entries found live, once each, and at every later time replays to exactly the live entries; a failure changes nothing |
| Engine.UpperArgument | src/command.c:243-246 | upper-cases one argument where it stands and leaves the others intact |
| Engine.DecodeInPlace | src/command.c:203-313 | tokenizing and upper-casing in place decodes the original text; Behaviour.CommandForms, SetForms, InvalidForms and UnquotedForms say to what |
| Engine.ExecuteSet | src/command.c:330-442 | logging, storing with expiry 0 and writing the expiry together are one SET with expiry now plus the seconds given, and a failed append changes nothing |
| Engine.ExecuteTtl | src/command.c:505-598 | the reply to TTL from its two clock readings |
| Engine.ExecuteDel | src/command.c:604-675 | a missing or expired key answers 0 and changes nothing; a live one is logged and removed |
| Engine.CommandExecute | src/command.c:203-754 | the heap table, the file, the reply and the return code are those of Commands.Execute on the decoded text; the code is 1 exactly for an EXIT that succeeds, and then the file is the printed live entries and the table as before |
| Framing.LinesConcat | src/server.c:467-553 | cutting a stream in two gives the same lines and the same leftover |
| Framing.ChunkingDoesNotMatter | src/server.c:429-553 | for any cut into receives none of which overflows, the submitted commands and the buffer are the lines and leftover of the whole stream |
| Framing.OverflowForgets | src/server.c:432-451 | after a receive that overflows, whatever came before, receives that fit are framed as if they were the first; the commands already submitted stand |
| Framing.SentLines | src/server.c:467-553 | lines sent with or without a carriage return, and then an unfinished one, are submitted without their line ends, and the unfinished one stays |
| Framing.LeftoverUnfinished | src/server.c:467-553 | between receives the buffer of a NUL-free stream holds no newline |
| Framing.CommandsFit | src/server.c:432-451 | in every run of receives, overflowing or not, each command is a C string of at most 1022 characters without newline |
| Framing.ClientBuffer.FindNewline | src/server.c:469-477 | strchr finds the first newline before any NUL |
| Framing.ClientBuffer.TakeLine | src/server.c:479-552 | copies the line without its carriage return and moves the rest of the buffer to the front |
| Framing.ClientBuffer.TakeLines | src/server.c:467-553 | the inner loop ends and submits exactly the complete lines of the buffer |
| Framing.ClientBuffer.ReceiveChunk | src/server.c:429-553 | one receive in the in-place buffer is Framing.Receive; it is rejected exactly when pending and new bytes reach 1024, and then nothing is submitted and the buffer is empty |
| TaskQueues.TaskQueue.Submit | src/worker_pool.c:548-592 | appends the (possibly cut) command at the tail, or refuses once shutdown has begun |
| TaskQueues.TaskQueue.Pop | src/worker_pool.c:14-33 | unlinks the oldest task and keeps head and tail well formed |
| ServerQueue.WakeStep | src/worker_pool.c:112-163 | every step keeps: enough workers are awake for the queued tasks, none sleeps after shutdown begins, none leaves before the queue is empty for good |
| ServerQueue.LockStep | src/worker_pool.c:187-272 | every step keeps the read-write lock exclusive, with only classified texts under the read lock |
| ServerJobs.JobStep | src/worker_pool.c:154-333 | every step keeps: FIFO popping, one effect per popped command, one reply per effect |
| ServerJobs.OrderStep | src/worker_pool.c:187-272 | every step keeps: conflicting commands take effect in the order in which they got the lock |
| ServerEffects.CommitMatches | src/command.c:252-738 | the sub-steps of a command, up to the one that decides its reply, add up to Commands.Execute |
| ServerEffects.DbStep | src/command.c:335-433 | every step keeps: the database is the sequential one plus what the one writer in progress has already done |
| ServerEffects.CrashSafe | src/command.c:330-442 | at every moment, in the middle of a command too, the file on disk can be loaded and is durable for the sequential table, with the command in progress once it has been logged |
| ServerEffects.SafeStep | src/command.c:330-433 | every step, restarts included, keeps the durability invariant and the size bounds |
| ServerEffects.RepliesOfReference | src/command.c:252-675 | over any sequential execution every reply is that of the store in which expired keys are gone |
| ServerTheorems.Durability | src/persistence.c:118-423 | in every reachable state, whatever commands are half done, a load at any later time succeeds and rebuilds every entry still live then of the sequential table (with the command in progress once logged); with no write in progress that is the real table |
| ServerTheorems.RecoveryIsExact | src/persistence.c:319-331 | in every reachable state with no write in progress, recovery gives exactly the live entries if and only if no expired key has an older unexpired SET in the file |
| ServerTheorems.ExitIsExact | src/persistence.c:425-515 | in every reachable state, the step that commits an EXIT either answers BYE and leaves a file that at every later time loads to exactly the live entries, or answers an error and changes nothing |
| ServerTheorems.WriteAhead | src/command.c:330-433 | in every reachable state, a step that changes the table finds its one record already at the end of the file, changes only the key of that record, and when it commits leaves what the record says |
| ServerTheorems.Linearizable | src/worker_pool.c:187-272 | every reply sent is the reply in one sequential execution and of the eager-expiry reference; conflicting commands are ordered as they got the lock; the quiet database is the sequential one |
| ServerTheorems.RealTime | src/worker_pool.c:278-299 | a command whose reply was sent before another was accepted takes effect before it |
| ServerTheorems.TasksConserved | src/worker_pool.c:117-158 | accepted tasks are the popped ones followed by the queue; none takes effect twice; at least min(queue, N) workers are awake; nobody sleeps after shutdown or leaves a task behind |
| ServerTheorems.Drained | src/worker_pool.c:639-691 | once all workers are joined the queue is empty and every accepted command took effect once and was answered once |
| ServerTheorems.SizesBounded | src/worker_pool.c:548-557 | submitted commands are queued uncut, stored values are bounded, every GET is answered with the whole value |
| ServerProgress.NoDeadlock | src/worker_pool.c:112-334 | unless all workers are asleep or gone, and then the queue is empty, some worker can take a step |
| ServerProgress.ShutdownEnds | src/worker_pool.c:660-670 | after shutdown begins the workers take a bounded number of further steps, so the joins finish |

## Left out

- Sockets, `select`, `accept`, partial sends, printing, the local command loop, and failures to create threads or pipes.
- The client slot table, the notification pipe and the routing of replies to connections: descriptors are reused, so "the right client" is not guaranteed by the code.
- The order of pipelined commands of one client: two workers may finish them in either order.
- Durability across an operating-system crash, and partial bytes left by a failed `fprintf` or `fclose`.
- Overflow of times, lengths and table sizes, and saturation of `strtoll`: numbers are unbounded; only the 64-bit hash and the wrap of a negative scanned length are modelled.
- Allocation failure, except the one in a resize.
- Nothing is proved about how `hash_key` spreads keys.
- `free` and the destruction of tables: unreachable objects are simply dropped.
- Aof.RoundTrip: keys and values without NUL, as C strings are; a log with NUL bytes inside a field is scanned as the code does, but not read back as written.
- Framing.ChunkingDoesNotMatter: only for cuts in which no receive overflows, the guard of the code; an overflowing receive drops the buffer and the chunk.
- ServerModel: each critical section under the queue mutex is one step, and its queue is a sequence; the linked queue of those sections is `TaskQueues.TaskQueue`.
- ServerModel: its table is a map and its file the bytes; the heap table and the buffers refine them through `Engine.CommandExecute` and `Persistence.Recover`, not inside the machine.
- ServerModel: a blank command line, which the worker answers with nothing, counts as answered with the empty reply.
- ServerModel: an EXIT rewrite is one step with a range of clock readings, since it holds the write lock and replaces the file by a rename.

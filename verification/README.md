# LCAP, modelled and proved in Dafny

LCAP reads Lustre changelog records on the server side, one reader per MDT, and hands them out in
batches to competing clients. This project models the reader, the proxy client, the broker's
routing, the wire forms and the intrusive list, and proves what they promise together: an
at-least-once queue with out-of-order acknowledgement and in-order trimming, which clears nothing
upstream before an application has received it.

`dafny verify dfyconfig.toml` checks everything.

## How it is organised

| file | contents |
|---|---|
| `Records.dfy`, `Wire.dfy`, `WireBuffers.dfy` | records, clock readings, message layouts, the packers (on values, and in place in buffers) and the round trips |
| `IntrusiveList.dfy` | the doubly linked list on the heap, proved to be a sequence, of nodes and of the records that embed them |
| `ReaderModel.dfy` | the reader as a state machine on values: one function per handler |
| `ChangelogReaders.dfy` | the reader as it runs: classes for buckets, clients and the reader, cursors that are references, loops; every method proved against the function of `ReaderModel` |
| `ReaderInvariant.dfy` | the invariant of the reader and its preservation by every step |
| `ReaderRuns.dfy`, `Drain.dfy` | what the invariant means over whole runs |
| `Answers.dfy` | what every message is answered, and what it leaves alone |
| `Intakes.dfy` | when an intake stops and with which code, what fills a bucket, and the main loop as a run |
| `ClientModel.dfy`, `Clients.dfy` | the proxy client's batch cursor, as functions and as a class over a reallocated array |
| `Exchange.dfy`, `Systems.dfy` | upstream, reader and any number of clients with messages in flight; end-to-end safety and its exact condition |
| `OversizedBatches.dfy` | a run that violates that condition and loses a record |
| `Routing.dfy` | client, broker, reader, broker, client, frame by frame |
| `StatementOrder.dfy`, `Scenarios.dfy` | four places where the literal statements do not keep what the design says: exactly when, and short runs that get there |

The main results are `Systems.ChangelogServed`, `Systems.AcknowledgedIffFits`,
`Drain.DrainsInExactlyThatManyRounds`, `ReaderInvariant.RunInv`, `ReaderRuns.NoGap`,
`ReaderRuns.ClearsAreExact`, `Intakes.MainLoopIsRun`, `Answers.RefusedExactly`, `ReaderRuns.OrderedDelivery`, `ReaderRuns.RewindTiming`,
`ChangelogReaders.ChangelogReader.MainLoop`, `Routing.OneReplyPerRequest` and
`StatementOrder.LiteralRewindShares`.

## Where the design is followed rather than the literal statements

In four places `src/lcapd/reader.c` does not do what its own header comment (lines 34-69) and
`share/doc/proto.rst` describe. The model follows the description; `StatementOrder` models the
literal statements as well and proves exactly when they keep the property at stake, and `Scenarios`
reaches each failing case from the initial state.

1. Lines 697-717: the cleanup cursor is set to the bucket that is then freed, and the loop continues
   through the freed node. The model saves the successor (the unused `next` of line 670) and moves
   the cursor only after the upstream clear succeeded.
2. Lines 401-411 against 654-656: a bucket belongs to a client "until ack or timeout", but a rewind
   leaves the old owner's `cs_bucket` in place. The model revokes the ownership of every rewound
   bucket. Without that, two clients own the same bucket as soon as the cursor passes one that
   somebody owned at the rewind, the head or a later one.
3. Lines 418 and 647-652: the delivery cursor becomes NULL before the replacement bucket is appended,
   and an empty open bucket can be sent, which the client rejects. The model moves the cursor to the
   new open bucket and answers end of stream for an empty one.
4. Lines 686-689: a CLEAR with nothing to clear is not answered, although exchanges are synchronous.
   The model answers it with code 0.

Two literal facts are kept: `cs_start` is stored and never used, and CLEAR ignores `pr_index` and
acknowledges the whole bucket.

One promise holds only under a condition. The client drops a batch larger than its reception buffer
(8 MiB), and a later CLEAR acknowledges it unread. In every reachable state an acknowledged batch was
handed out exactly if the message that carried it fits (`Systems.AcknowledgedIffFits`), and nothing
is lost exactly if all trimmed batches fit (`Systems.NothingLostIffFits`, `Systems.ChangelogServed`).
The reader knows the size before it sends (`lrb_size`). A configuration in which a full batch of the
longest records fits loses nothing (`Systems.NothingLost`); `OversizedBatches.RecordLost` is a run
that does lose a record.

## Assumptions

Batch size and bucket count are at least 1 and their product is an `int`. Allocations and sends
succeed. Upstream sessions are finite sequences of records followed by a non-zero code; record
indices are natural numbers without wrap-around. What the upstream yields and answers, the clock, and
who sends what when are parameters: the results hold for every choice. The size of a record is
determined by a fixed-size header; every such layout is covered (`Wire.Layout`). Integers on the wire
are little endian.

## Model

| member | source | states |
|---|---|---|
| ReaderInvariant.RunInv | src/lcapd/reader.c:34-69 | in every reachable state, whatever the messages, upstream, answers and clock: the list is never empty, only its tail may be empty, bucket numbers are consecutive, ready or owned buckets lie strictly before the delivery cursor, owners are exclusive, counters are exact, clears match the trimmed batches, deadlines match the current round |
| ReaderInvariant.StepInv | src/lcapd/reader.c:779-810 | every message and every intake keeps that invariant |
| ReaderInvariant.DequeueInv | src/lcapd/reader.c:618-659 | a DEQUEUE, rewinding or not, keeps it |
| ReaderInvariant.ClearInv | src/lcapd/reader.c:664-720 | a CLEAR keeps it whether the upstream accepts every clear or fails at any point of the loop |
| ReaderInvariant.RewindFacts | src/lcapd/reader.c:403-411 | a rewind makes no batch move or change, leaves nothing ready and nobody owning anything |
| ReaderInvariant.AcknowledgeFacts | src/lcapd/reader.c:691-695 | an acknowledgement makes exactly the client's bucket ready, a bucket that was outstanding |
| ReaderInvariant.StoreFacts | src/lcapd/reader.c:453-478 | storing appends the record to what was accepted and changes no closed batch |
| ReaderInvariant.PullKeeps | src/lcapd/reader.c:865-883 | whatever storing one admissible record keeps, reading a session keeps |
| ReaderRuns.StepGrows | src/lcapd/reader.c:37-43 | no step forgets an accepted record, changes a closed batch or takes back an upstream clear |
| ReaderRuns.NoDuplicates | src/lcapd/reader.c:869-879 | trimmed records followed by cached ones are the accepted ones, strictly increasing and below `re_srec`, for any upstream output |
| ReaderRuns.NoGap | src/lcapd/reader.c:855-889 | if sessions yield stretches of the log that start no later than asked, the accepted records are exactly the log below `re_srec`, across ends of stream and full-cache pauses |
| ReaderRuns.ClearsAreExact | src/lcapd/reader.c:56-58 | over a run, successful upstream clears strictly increase, stay below `re_srec`, and the last one separates exactly trimmed from cached records |
| ReaderRuns.ClearIsMaximal | src/lcapd/reader.c:691-719 | after a CLEAR without upstream error the head is not ready and the client is told; after an error the failing bucket is still at the head, ready, and all later ones follow it |
| ReaderRuns.CleanupShape | src/lcapd/reader.c:697-717 | the clearing loop drops only ready buckets, from the head, never the delivery cursor or the open bucket |
| ReaderRuns.OrderedDelivery | src/lcapd/reader.c:401-419 | between rewinds deliveries are of consecutive buckets up to the cursor, a bucket always carries the same records, no two clients own the same bucket |
| ReaderRuns.DequeueServes | src/lcapd/reader.c:637-658 | a valid DEQUEUE rewinds exactly when the head expired, un-readies and revokes exactly the sent buckets, serves the head or the next bucket with its exact records, and is end of stream exactly when that bucket is empty |
| ReaderRuns.RewindTiming | src/lcapd/reader.c:568-572 | while buckets are outstanding the head was sent in the current round; it expires only strictly more than 10 s after that, and has expired at 11 s, although only whole seconds are compared |
| ReaderRuns.Conservation | src/lcapd/reader.c:172-177 | `re_rec_cnt` is the number of cached records and within the cap, `rs_rec_read` counts cached and trimmed ones, the list has at most one bucket more than records |
| ReaderRuns.IntakeBound | src/lcapd/reader.c:881-882 | one intake stores at most one batch |
| ReaderRuns.IntakeLosesNothing | src/lcapd/reader.c:850-890 | however a session is cut into intakes, accepted records followed by what the session still offers do not change; an intake leaves something of it only after a whole batch or with batch size times bucket count records cached; a session is closed exactly by the codes 1, -EAGAIN and -EPROTO |
| ReaderRuns.OneReply | src/lcapd/reader.c:799-809 | every message, well formed or not, is answered exactly once and to its sender |
| ReaderRuns.LookupIsLive | src/lcapd/reader.c:487-506 | over any run, lookup finds a client exactly if it has sent START and no FINI since |
| ReaderRuns.OthersUndisturbed | src/lcapd/reader.c:534-556 | START and FINI change nothing for other clients, and a START from a present client changes nothing |
| ReaderRuns.MainLoopReachable | src/lcapd/reader.c:902-926 | the main loop, which reads and then serves what is waiting until an intake fails, never leaves the states the results above are about |
| Answers.MalformedRefused | src/lcapd/reader.c:788-797 | what is too short, of an unknown operation, or of an operation no client sends is answered with its code and changes nothing else |
| Answers.StrangerRefused | src/lcapd/reader.c:680-684 | a DEQUEUE, CLEAR or FINI of a client the reader does not know is answered -EPROTO and changes nothing else |
| Answers.PresentAnswered | src/lcapd/reader.c:534-538 | a START of a present client is answered -EALREADY, a DEQUEUE of one that holds a bucket -EPROTO, a CLEAR of one that holds nothing 0, and nothing else changes |
| Answers.NewcomerWelcomed | src/lcapd/reader.c:540-558 | a new client goes to the end of the list with the start record of its message, holds nothing and is answered 0 |
| Answers.LeaverReleased | src/lcapd/reader.c:743-746 | a client that leaves is taken off the list, from where it was, and answered 0; nothing else changes |
| Answers.ClearAnswered | src/lcapd/reader.c:697-719 | a ready head remains exactly if the upstream refused a clear; then all before it were granted and the client gets the upstream's own code, otherwise 0 |
| Answers.RefusedExactly | src/lcapd/reader.c:526-741 | over any run, -EALREADY goes exactly to a START of a client that is in, -EPROTO to a DEQUEUE exactly of a client that is out or holds a bucket, and to a FINI exactly of one that is out |
| Intakes.IntakeOutcome | src/lcapd/reader.c:841-893 | state and code of an intake: nothing with batch size times bucket count records cached; the code of a failed opening; else the session read to its end, with its code, or stopped with 0 after a whole batch or by a full cache |
| Intakes.IntakeProgress | src/lcapd/reader.c:850-882 | with room in the cache and a session, an intake accepts nothing exactly if the session offers nothing new |
| Intakes.BatchesAreWhole | src/lcapd/reader.c:461-466 | over any run, a bucket is closed only by holding a whole batch or by having been sent |
| Intakes.MainLoopIsRun | src/lcapd/reader.c:914-926 | the main loop is the run of every pass's intake followed by its messages in order, and ends with the first intake that fails, whose code it returns, before looking at the messages of that pass |
| Drain.RoundDrainsOne | src/lcapd/reader.c:618-720 | one DEQUEUE and CLEAR of an unhindered client trims exactly the head |
| Drain.DrainsInExactlyThatManyRounds | src/lcapd/reader.c:393-420 | one client alone empties the cache in exactly as many rounds as there are non-empty buckets, is sent each batch it trims, leaves one empty open bucket and the last clear at `re_srec` - 1, and is then told end of stream |
| ChangelogReaders.ChangelogReader.constructor | src/lcapd/reader.c:233-252 | one empty bucket that all three cursors designate: the initial state of every run |
| ChangelogReaders.RecBucket.MaxIndex | src/lcapd/reader.c:442-448 | the index of the last record of the bucket, -1 for an empty one |
| ChangelogReaders.ChangelogReader.BucketAdd | src/lcapd/reader.c:132-150 | a fresh empty bucket with the next index becomes the tail and the open bucket |
| ChangelogReaders.ChangelogReader.ClientGet | src/lcapd/reader.c:487-506 | the loop finds the client of that identity, or null exactly when there is none |
| ChangelogReaders.ChangelogReader.RecStore | src/lcapd/reader.c:453-478 | the in-place insertion is the model's |
| ChangelogReaders.ChangelogReader.PullLoop | src/lcapd/reader.c:865-883 | the reading loop is the model's recursion on the session |
| ChangelogReaders.ChangelogReader.Enqueue | src/lcapd/reader.c:841-893 | intake, with its session handling and return code, is the model's |
| ChangelogReaders.ChangelogReader.RewindLoop | src/lcapd/reader.c:404-410 | the loop un-readies exactly the buckets before the cursor and takes them from their clients |
| ChangelogReaders.ChangelogReader.BucketGet | src/lcapd/reader.c:393-420 | the bucket to serve, null exactly when it is empty, and the cursor left on its successor |
| ChangelogReaders.ChangelogReader.EnqueueRec | src/lcapd/reader.c:577-612 | sends exactly the packed bucket and starts its deadline |
| ChangelogReaders.ChangelogReader.HandleStart | src/lcapd/reader.c:522-566 | the in-place handler is the model's |
| ChangelogReaders.ChangelogReader.HandleDequeue | src/lcapd/reader.c:618-659 | the in-place handler is the model's |
| ChangelogReaders.ChangelogReader.ClearHead | src/lcapd/reader.c:703-716 | emits the clear of exactly the head's highest index before the head is dropped; when the upstream refuses, nothing changes and its code is returned |
| ChangelogReaders.ChangelogReader.CleanupLoop | src/lcapd/reader.c:697-717 | the loop clears upstream and drops exactly the ready prefix, up to the first failure; the indices it emits are those of the model |
| ChangelogReaders.ChangelogReader.HandleClear | src/lcapd/reader.c:664-720 | the in-place handler is the model's |
| ChangelogReaders.ChangelogReader.HandleFini | src/lcapd/reader.c:726-747 | the in-place handler is the model's |
| ChangelogReaders.ChangelogReader.Dispatch | src/lcapd/reader.c:779-810 | opcode and length checks, dispatch and error replies are the model's |
| ChangelogReaders.ChangelogReader.Turn | src/lcapd/reader.c:779-893 | one message or one intake, references, loops and emitted clears included, steps exactly as the state machine and keeps its invariant |
| ChangelogReaders.ChangelogReader.ServeAll | src/lcapd/reader.c:815-836 | every waiting message is dispatched, in order |
| ChangelogReaders.ChangelogReader.MainLoop | src/lcapd/reader.c:902-926 | pass after pass, intake before requests, until an intake fails: state and return code are the model's main loop |
| ChangelogReaders.NextAt | src/lcapd/reader.c:380-386 | the successor of a bucket in the list, null for the last one |
| Clients.ProxyClient.constructor | src/client/px_client.c:66-97 | an empty cache with the default number of slots |
| Clients.ProxyClient.CacheGrow | src/client/px_client.c:56-64 | reallocation to any size, smaller included, keeps what fits |
| Clients.ProxyClient.FillRecords | src/client/px_client.c:362-367 | the walk fills exactly the records of the message, within the slots |
| Clients.ProxyClient.DequeueRecords | src/client/px_client.c:298-385 | every kind of reply: batch accepted whole with the cursor at 0, or code returned and cache untouched; the cursor stays within the batch and the batch within the slots even when growing shrinks them |
| Clients.ProxyClient.Recv | src/client/px_client.c:387-401 | hands out the cached records one by one and asks for more exactly when none is left |
| Clients.ProxyClient.Free | src/client/px_client.c:404-415 | the buffer is released only with the last record of the batch |
| Clients.ProxyClient.Clear | src/client/px_client.c:417-452 | a request is sent exactly when the whole batch was handed out |
| ClientModel.ReceiveInBounds | src/client/px_client.c:393-399 | a receive reads within the batch exactly when records are left or the reply is neither misleading (ACK 0, ENQUEUE of none) nor corrupt |
| ClientModel.BatchDecodes | src/client/px_client.c:344-373 | an ENQUEUE of a non-empty batch is decoded to that batch exactly when it fits the reception buffer |
| ClientModel.AckDecodes | src/client/px_client.c:195-208 | an ACK is decoded to its code |
| ClientModel.EmptyBatchRefused | src/client/px_client.c:350-354 | an ENQUEUE of no record is refused |
| ClientModel.ReceiveCached | src/client/px_client.c:399-400 | records that are cached are returned one after the other without looking at any reply |
| ClientModel.ReceiveAck | src/client/px_client.c:393-397 | a code in reply, end of stream or error, is what receive returns, the cache unchanged |
| ClientModel.ReceiveBatch | src/client/px_client.c:362-400 | a batch in reply is cached and its first record returned exactly if it fits, otherwise -EOVERFLOW is returned |
| ClientModel.ReceiveOdd | src/client/px_client.c:318-378 | replies too long, too short or of another operation are reported with their codes, the cache unchanged |
| ClientModel.AckCodeOdd | src/client/px_client.c:195-208 | a code is read only from a message of the length of an ACK, and any such message holds one |
| Exchange.DequeueExchange | src/lcapd/reader.c:637-658 | what a DEQUEUE can do to sender, others, batches and acknowledgements, and its reply |
| Exchange.ClearExchange | src/lcapd/reader.c:680-719 | whatever the upstream answers, the sender holds nothing afterwards and only the batch it held can have become acknowledged |
| Exchange.StartExchange | src/lcapd/reader.c:540-558 | a new client is known and holds nothing; nobody else notices |
| Exchange.FiniExchange | src/lcapd/reader.c:743-746 | the client is forgotten, its bucket stays unacknowledged; nobody else notices |
| Systems.RunsInv | src/client/px_client.c:387-428 | in every reachable state of the whole system, what the reader believes a client to be processing is what is on its way to that client or, if it fits, what it has cached; every acknowledged batch that fits was handed out, and only records of batches that fit ever are |
| Systems.AcknowledgedIffFits | src/client/px_client.c:178-183 | over every run, an acknowledged batch was handed entirely to one client exactly if the message that carried it fits the reception buffer; otherwise no record of it was handed to anybody |
| Systems.NothingLostIffFits | src/lcapd/reader.c:691-717 | over every run, every accepted record at or below the last upstream clear was returned by receive to some client, exactly if all trimmed batches fit; and likewise every trimmed batch was handed to one client |
| Systems.NothingLost | src/lcapd/reader.c:34-69 | where a full batch of the longest records fits, nothing is ever lost |
| Systems.ChangelogServed | src/lcapd/reader.c:845-890 | with an upstream that yields what it is asked for, every record of the changelog up to the last upstream clear was returned to some client, exactly if all trimmed batches fit |
| Systems.AcknowledgedByItsReceiver | src/client/px_client.c:427-428 | a request that newly acknowledges a batch is a CLEAR, whose sender was handed that whole batch exactly if it fits |
| Systems.StreamsAreBatches | src/client/px_client.c:362-401 | what receive returned, followed by what is cached, is the concatenation of batches the reader closed, each record once; no reply of the reader makes the client read out of bounds |
| Systems.ReceiveReturns | src/client/px_client.c:387-401 | in every reachable state, the reply to a DEQUEUE makes receive return the first record of a closed batch that fits, -EOVERFLOW for one that does not, or the reader's code 1 or -EPROTO, and the client is idle again |
| OversizedBatches.RecordLost | src/client/px_client.c:317-322 | a run in which one record too long for the buffer is cleared upstream although it was returned to nobody |
| OversizedBatches.LongRecord | src/client/px_client.c:297 | such a configuration and such a record exist |
| Wire.BatchRoundTrip | src/lcapd/reader.c:586-602 | walking the packed batch for `pr_count` steps recovers the records and ends on its last byte, for every self-describing record layout |
| Wire.WalkPayload | src/client/px_client.c:291-295 | each record is found where the previous one ends |
| Wire.AckRoundTrip | src/lcapd/rpc_utils.c:63-73 | a 32-bit return code survives, sign included |
| Wire.ClearRoundTrip | src/client/px_client.c:130-146 | both getters return the packed strings and both terminators lie within the announced length |
| Wire.CStringIs | src/include/lcap_idl.h:154-162 | reading up to the first NUL recovers a NUL-free string |
| Wire.StartRecord | src/client/px_client.c:112-121 | the start record is packed where the reader looks for it |
| Wire.ClearIndex | src/client/px_client.c:136-137 | CLEAR carries the record index it was given, modulo 64 bits |
| Wire.StartFields | src/client/px_client.c:115-119 | START carries the flags, and the MDT name up to the width of its field, terminated exactly if it is shorter |
| Wire.PackedLengths | src/include/lcap_idl.h:109-131 | every packed message has the length its receiver requires, strings and records apart |
| Wire.Reserved | src/include/lcap_idl.h:63-66 | the reserved word of every packed message is zero |
| Wire.ReplyOps | src/include/lcap_idl.h:43-60 | replies carry the opcode the dispatchers read |
| WireBuffers.PackEnqueue | src/lcapd/reader.c:586-602 | with `lrb_size` the sum of the record lengths, the buffer is filled exactly and never overrun |
| WireBuffers.PackClear | src/client/px_client.c:430-438 | the zero-filled buffer holds both strings with their terminators |
| WireBuffers.StringLength | src/include/lcap_idl.h:159-162 | the distance to the first NUL |
| IntrusiveList.List.Append | src/include/queue.h:40-56 | appends to the sequence |
| IntrusiveList.List.Remove | src/include/queue.h:58-74 | removes that member, keeps the order of the others, resets its links |
| IntrusiveList.List.PopHead | src/include/queue.h:76-96 | removes and returns the head, null exactly on the empty list |
| IntrusiveList.List.InsertBefore | src/include/queue.h:98-111 | inserts just before that member |
| IntrusiveList.List.Empty | src/include/queue.h:113-117 | terminates with the list empty and every node unlinked |
| IntrusiveList.List.Foreach | src/include/queue.h:121-124 | visits the node and all later ones, once each, in order |
| IntrusiveList.AppendEntry | src/include/queue.h:40-56 | appending the node embedded in a record appends the record to those of the list |
| IntrusiveList.RemoveEntry | src/include/queue.h:58-74 | removing it removes that record and leaves the others in order, which is what the reader does to its sequence of clients |
| IntrusiveList.NextEntry | src/include/queue.h:119 | the link of a record leads to the record that follows it, or is null for the last, which is how the reader finds the next bucket |
| Routing.Request.Add | src/lcapnet/lcap_net.c:69-95 | one frame: delimiter, sender, destination or piece of the body |
| Routing.ReceiveOnce | src/lcapnet/lcap_net.c:116-145 | the frame loop is that step repeated |
| Routing.ParseEnvelope | src/lcapnet/lcap_net.c:69-95 | sender, destination and exact body, however the body is split and delimiters lie between the pieces |
| Routing.Socket.PeerRpcSend | src/lcapd/rpc_utils.c:26-61 | the frames emitted, in order |
| Routing.RequestArrives | src/lcapd/broker.c:84-100 | a well-formed request reaches the reader it names with its sender and exact body |
| Routing.ReplyArrives | src/lcapd/broker.c:102-107 | a reply comes back to the client it is addressed to, body unchanged |
| Routing.OneReplyPerRequest | src/lcapd/broker.c:156-185 | broker, handler and dispatcher together send one reply per request, to its sender: the broker's refusal or the reader's own reply |
| Routing.SignalAnswer | src/lcapd/broker.c:109-130 | a recorded SIGNAL is answered by nothing; one too short or that cannot be recorded is answered its code, to its sender |
| Routing.BodylessIgnored | src/lcapnet/lcap_net.c:147-151 | a message without a body goes nowhere and is not answered |
| StatementOrder.LiteralCleanupCursor | src/lcapd/reader.c:697-717 | the literal cleanup cursor is in the list exactly when nothing was trimmed |
| StatementOrder.LiteralCleanupStopsShort | src/lcapd/reader.c:697-717 | with a willing upstream the literal loop leaves a ready bucket at the head, and differs from the design, exactly when the first two buckets are ready |
| StatementOrder.LiteralRewindShares | src/lcapd/reader.c:401-411 | without revocation, after any joins and deliveries of the following round, ownership is exclusive exactly as long as the cursor has passed no bucket that somebody owned at the rewind |
| StatementOrder.LiteralRewindSafe | src/lcapd/reader.c:401-411 | the whole round is safe, whoever joins and asks, exactly when nobody owned anything at the rewind |
| StatementOrder.LiteralStepAgrees | src/lcapd/reader.c:401-419 | with the literal cursor a step differs from the design exactly when the cursor is lost, the head has not expired and a free client asks for a bucket that waits |
| StatementOrder.LiteralCursorLost | src/lcapd/reader.c:418-419 | the literal cursor is lost exactly by serving the open bucket |
| StatementOrder.LiteralCursorStaysLost | src/lcapd/reader.c:413-416 | from then on, over any messages and intakes, nothing is delivered as long as no DEQUEUE finds the head expired |
| StatementOrder.LiteralEmptyRejected | src/lcapd/reader.c:647-658 | a bucket sent unlooked-at is accepted by the client exactly when it is not empty |
| StatementOrder.LiteralEmptyClosed | src/lcapd/reader.c:647-658 | sending the bucket at the cursor keeps the list well formed exactly when that bucket is not empty |
| StatementOrder.LiteralEmptyCleared | src/lcapd/reader.c:442-448 | the head, once acknowledged, is cleared upstream with a record index exactly when it is not empty, and otherwise with -1 |
| StatementOrder.LiteralClearSilent | src/lcapd/reader.c:686-689 | a CLEAR is answered exactly when it is not a valid one from a client holding nothing |
| Scenarios.CleanupStopsShort | src/lcapd/reader.c:697-717 | a run after which the literal cleanup leaves a ready head and a cursor on a freed bucket, with an upstream that accepts everything |
| Scenarios.HeadShared | src/lcapd/reader.c:401-411 | a run after which an expired head still with its owner is given to a second client |
| Scenarios.SecondShared | src/lcapd/reader.c:401-411 | a run after which nobody owns the head, yet the second delivery of the round gives a bucket to a second owner |
| Scenarios.BucketStarved | src/lcapd/reader.c:413-419 | a run of the literal reader after which a client is told end of stream while a bucket with a record waits |
| Scenarios.EmptyCleared | src/lcapd/reader.c:647-658 | a client that asks before anything is read is sent an empty bucket, and its CLEAR has the upstream clear up to -1 |
| Scenarios.ClearUnanswered | src/lcapd/reader.c:686-689 | a client that joins and clears at once is never answered |

## Left out

- ZeroMQ sockets, polling, receive flags and thread start-up: a socket is the sequence of frames it carries.
- Lustre's own functions: a session is a finite sequence of records and an end code, a clear succeeds or fails.
- Out-of-memory and send-failure paths, statistics timing, shutdown on signals.
- The broker's table of reader identities: no routing decision reads it; only the outcome of recording a signal enters.
- Configuration, logging, the command-line tool, dynamic modules and the direct (NULL channel) client.
- The lists inside `ChangelogReader` are sequences of references; `IntrusiveList.AppendEntry`, `RemoveEntry` and `NextEntry` show that the linked list does to the records what these sequences do. The record slots of a bucket are a sequence bounded by the batch size.
- ChangelogReaders.ChangelogReader.MainLoop: what each pass reads upstream and which messages it finds waiting are parameters; polling delays, a failing poll and termination by signal are not modelled.
- Clients.ProxyClient.DequeueRecords: after a walk that leaves the buffer, which the client does not check for, nothing is promised of the cached records.
- Wrap-around of record indices and of the bucket counter: unbounded here.

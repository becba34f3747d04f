# Verification model of a file-tree tool, a distributed key/value store and their tables

The repository holds a parallel file-tree tool (`pftool-new-test`), a distributed key/value store
(`mdhimMods`), the hash table and the log library the store uses. This project models the parts whose
correctness spans many functions or many interleavings, and proves what those parts are for.
`dafny verify dfyconfig.toml` checks all of it.

**The manager/worker framework** is a step relation over the manager, its queues and status table, the
worker processes and a pair of FIFO channels for each worker. MPI's non-overtaking order (section 3.5 of
MPI-3.1) is the only thing assumed of the transport.

- `Pwt`: the protocol, its invariant, and exact termination detection.
- `PwtConservation`: an additive meter that every step conserves, so that a finished job has done exactly
  what its starting items owe.
- `PwtCausality`: messages are handled in an order that follows from what programs tell before they submit.
- `PwtProgress`: runs are bounded and no reachable state is stuck.
- `PwtOutcome`: any two finished runs from the same items have done the same, and no unfinished one more.
- `Scheduler`: the linked work queues and the scheduler's loops, tied to the functions of `Pwt`.

**The applications on top of it.** `TreeWalk`, `TreeWalkOutcome` and `TreeWalkLoss` give the batching loops
of the tree walk, prove that a finished walk has visited every node exactly once, and say exactly which nodes it
misses when directories cannot be opened. `FchunkTable` is the chained chunk table with its resize, as heap
objects. `Compare` and `CompareOutcome` give the chunked compare and prove the verdicts of a whole run right.

**The hash table.** `UtHash` (with `Bits`, `UtHashChains`, `UtHashSort`, `StableSort`) has one set of elements
in two linked structures. Add, find, delete, replace, bucket doubling, the in-place mergesort and the deleting
iteration are methods on the linked nodes; together they refine an insertion-ordered map. As long as the buckets may
be doubled the chains stay balanced: every one is below its raised threshold, and a bucket holds less than twenty elements
on average.

**The store.** `Partitioner` and `KeySlices` route keys through slices to servers; `RangeServer` is one server's
handlers; `Mdhim` is the client's bulk operations over all servers, which behave as one map; `SliceStats` is
about the statistics of the slices and the slice they choose for a cursor operation; `StatFlush` gathers
statistics into every rank's table and `CursorRouting` follows a cursor request through the flushed table to
the server that holds the key; `Messages` packs and unpacks; `WorkQueue` is a server's work list.

**The log.** `MlogRing` is the circular message buffer; `MlogMasks` prints and parses facility masks.

Where the code and what one would expect of it differ, the code is modelled and the exact condition proved:

- A directory that cannot be opened ends its work item at once, and paths still in the buffer are dropped
  (`pftool-new-test/src/apps/treewalk.c:338-343`), so readable nodes are lost too
  (`TreeWalkLoss.ReadableNodesAreLost` gives a tree). A node is visited once for each start above it if and only if no
  item on the way meets an unreadable directory before the batch that leads to the node is full or sent, and never
  otherwise (`TreeWalkLoss.WalkVisits`).
- In append mode a bulk put works out every new value before it writes any, so a repeated key keeps only its
  last value. It equals the single puts if and only if no value but an empty one comes before another of the same key
  (`RangeServer.AppendingBulkPutIsPuts`).
- The numbers by which string keys are counted do not tell apart two texts of which one adds zeros at the end
  (`KeySlices.TiesAreZeros`), but the store does. So a request for the next or the previous key can be sent to a slice
  without it (`SliceStats.TiedKeysAreMissed`); `SliceStats.NextSliceIsRight` and `SliceStats.PrevSliceIsRight` say
  exactly when it is not.
- A new key repeated in one bulk put is counted twice in the statistics, a put of an empty value under a new key is
  counted although the key stays absent, one over a present key, without appending, makes it absent, and a delete leaves the statistics
  alone. A bulk put keeps exact statistics exact if and only if no new key is repeated in it and every key of it is
  present afterwards (`SliceStats.BulkPutStatsExact`), deletes if and only if no key deleted was present
  (`SliceStats.DeletesStatsExact`). Nothing makes up for an earlier miscount: after any run of requests the statistics
  are exact if and only if every single request kept them exact (`SliceStats.StatsExactIffKept`); the least that
  always holds is in `SliceStats.StatsBoundOverRuns`.
- A flush adds to a rank's table and takes nothing out, so the table is exact afterwards if and only if it had no entry
  for a slice that holds no key any more (`CursorRouting.FlushMakesExact`).
- Loading written statistics restores the table if and only if the database had no slice the table lacks
  (`SliceStats.WrittenStatsLoad`).
- "No next slice" and "no previous slice" are slice 0, whether or not slice 0 holds such a key
  (`SliceStats.NoNextIsZero`, `SliceStats.NoPrevIsZero`).
- A bulk get is announced with four bytes per record more than it packs (`Messages.PackedSize`).
- A mask that has both a level and debug bits loses the debug bits when printed and parsed: text restores a
  mask if and only if it is one or the other alone (`MlogMasks.KeptExactly`, `MlogMasks.MasksRoundTrip`). A facility
  without a name is printed under its number, which the parser does not understand: the text restores a table from all
  masks before if and only if every facility has a name and none is printed under a name that means an earlier one
  (`MlogMasks.RoundTripNeedsNames`).
- The printer counts the NUL it writes; given that length, the parser drops the last entry
  (`MlogMasks.CountedNulLosesLast`).

## Model

| member | source | states |
|---|---|---|
| Pwt.HighestQueue | pftool-new-test/src/pwt/scheduler.c:298-302 | the queue work is taken from is the highest one that is not empty, and there is none only when all are empty |
| Pwt.FirstIdle | pftool-new-test/src/pwt/scheduler.c:351-358 | the process chosen is the lowest idle one |
| Pwt.CountActiveZero | pftool-new-test/src/pwt/scheduler.c:400-407 | no active process is counted if and only if none is marked active |
| Pwt.DoneMeansOthersIdle | pftool-new-test/src/pwt/scheduler.c:187-201 | with the manager's own slot always active, at most one active slot means every worker is idle, and conversely |
| Pwt.AssignsInOrder | pftool-new-test/src/pwt/scheduler.c:289-312 | an assign step takes the front item of the highest queue that has any and gives it to the lowest idle process |
| Pwt.AnswersRequests | pftool-new-test/src/pwt/scheduler.c:243-273 | a request is denied exactly when its queue has a maximum and has reached it; only an accepted one makes the manager wait for the work |
| Pwt.CollectsBehind | pftool-new-test/src/pwt/scheduler.c:262-268 | the granted work goes behind everything in the queue that was asked for |
| Pwt.WorkerReceived | pftool-new-test/src/pwt/scheduler.c:243-273 | taking the first message of a worker's channel keeps what may be in flight to and from it, for a request, a told message and a done message, accepted or denied |
| Pwt.WorkerCollected | pftool-new-test/src/pwt/scheduler.c:262-268 | taking in the granted work item keeps it too |
| Pwt.InvOneWorker | pftool-new-test/src/pwt/worker.c:30-136 | so does every step of a worker: receiving work, acting, reading an acknowledgement, sending granted work, reporting done |
| Pwt.InvReceive | pftool-new-test/src/pwt/manager.c:77-85 | the manager never meets ungranted work, and handling any message keeps the protocol invariant |
| Pwt.InvNext | pftool-new-test/src/pwt/manager.c:54-90 | every step of every process keeps the protocol invariant |
| Pwt.InvRun | pftool-new-test/src/pwt/manager.c:41-90 | the protocol invariant holds in every state of every run |
| Pwt.TerminationDetection | pftool-new-test/src/pwt/scheduler.c:187-201 | in every reachable state before the end, the test that ends the job holds if and only if no work item is queued, in a channel, or being executed |
| Pwt.IdleMeansNothingInFlight | pftool-new-test/src/pwt/scheduler.c:400-407 | in every reachable state a worker marked idle has nothing in flight in either direction |
| Pwt.GrantedWorkComesNext | pftool-new-test/src/pwt/scheduler.c:262-268 | while the manager waits for granted work, the next message from that worker is that work, and nobody else holds a grant |
| PwtConservation.ConserveReceive | pftool-new-test/src/pwt/manager.c:77-85 | what is still owed plus what has been done is unchanged by the manager handling any message |
| PwtConservation.ConserveOneWorker | pftool-new-test/src/pwt/worker.c:30-136 | a worker's step moves exactly what it owes into its channel or the log |
| PwtConservation.ConserveNext | pftool-new-test/src/pwt/manager.c:54-90 | every step of every process conserves owed plus done |
| PwtConservation.Conservation | pftool-new-test/src/pwt/manager.c:41-90 | in every state of every run, owed plus done is what the starting items owed |
| PwtConservation.FinishedMeansAllDone | pftool-new-test/src/pwt/manager.c:54-90 | when the manager has left its loop, exactly what the starting items owed has been done: nothing lost, nothing done twice |
| PwtCausality.OrderedNext | pftool-new-test/src/pwt/worker.c:78-136 | every step keeps the ordering of what is queued, in flight and handled |
| PwtCausality.HandledRespectsOrder | pftool-new-test/src/pwt/worker.c:78-136 | in every reachable state, a message whose cause was told before its work was submitted has been handled after that cause, over any interleaving |
| PwtProgress.CostOneWorker | pftool-new-test/src/pwt/worker.c:30-136 | a worker's step uses up at least one unit of what its program and channels are worth |
| PwtProgress.NoDenialsNext | pftool-new-test/src/pwt/scheduler.c:253-258 | with unlimited queues no request is ever denied |
| PwtProgress.CostNext | pftool-new-test/src/pwt/manager.c:54-90 | every step of every process uses up at least one unit |
| PwtProgress.RunsAreBounded | pftool-new-test/src/pwt/manager.c:54-90 | with unlimited queues no interleaving takes more steps than the starting items are worth |
| PwtProgress.NoDeadlock | pftool-new-test/src/pwt/manager.c:54-90 | a reachable state has no next step if and only if the manager has left its loop and every worker has stopped |
| PwtOutcome.FinishedRunDoes | pftool-new-test/src/pwt/manager.c:41-90 | what a finished run has done is the sum of what its starting items and everything derived from them do, a function of the items alone |
| PwtOutcome.OutcomeIsDetermined | pftool-new-test/src/pwt/manager.c:41-90 | any two finished runs of the same programs from the same items have had the same effects and handled the same messages, as often, whatever the interleaving, the number of processes and the queues' maxima |
| PwtOutcome.NeverTooMuch | pftool-new-test/src/pwt/manager.c:41-90 | at no point of any run has more been done than the starting items owe |
| Scheduler.WorkQ.Add | pftool-new-test/src/pwt/workq.c:55-68 | the linked queue's contents grow by the item at the end |
| Scheduler.WorkQ.Remove | pftool-new-test/src/pwt/workq.c:80-97 | the first item leaves the linked queue, or nothing when it is empty |
| Scheduler.WorkQ.Full | pftool-new-test/src/pwt/workq.c:122-124 | full exactly when a maximum is set and reached |
| Scheduler.Scheduler.constructor | pftool-new-test/src/pwt/scheduler.c:31-53 | at least one empty queue, and only the calling rank active |
| Scheduler.Scheduler.CanAssignWork | pftool-new-test/src/pwt/scheduler.c:159-173 | work can be assigned if and only if some queue has an item and some process is idle, as in the step relation |
| Scheduler.Scheduler.WorkDone | pftool-new-test/src/pwt/scheduler.c:187-201 | the job is done if and only if every queue is empty and no two processes are active, as in the step relation |
| Scheduler.Scheduler.AddWork | pftool-new-test/src/pwt/scheduler.c:215-229 | an item that carries no request is appended to its queue, or to the highest one when its index is too large, and nothing else changes |
| Scheduler.Scheduler.AckWork | pftool-new-test/src/pwt/scheduler.c:243-273 | a request is accepted exactly when its queue has no maximum or has not reached it; the work then received goes to the queue of the request |
| Scheduler.Scheduler.GetWork | pftool-new-test/src/pwt/scheduler.c:289-312 | the first item of the highest queue that has one goes to the lowest idle process, which becomes active; without either nothing changes |
| TreeWalk.TreewalkStatpath | pftool-new-test/src/apps/treewalk.c:383-446 | the loop sends and does exactly the program of a stat item, batch by batch |
| TreeWalk.TreewalkReaddir | pftool-new-test/src/apps/treewalk.c:308-371 | the nested loops send and do exactly the program of a read item, up to a directory that cannot be opened |
| TreeWalk.Children | pftool-new-test/src/apps/treewalk.c:346 | the names that are followed are those that are neither "." nor "..", whatever else they begin with |
| TreeWalk.ChildrenOfForest | pftool-new-test/src/apps/treewalk.c:345-354 | what a directory of a forest lists, apart from "." and "..", is its children, each once |
| TreeWalk.WalkSubmits | pftool-new-test/src/apps/treewalk.c:153-205 | the walk sends itself one to fifty paths at a time, to the lowest queue |
| TreeWalk.StatRunOwes | pftool-new-test/src/apps/treewalk.c:410-440 | batching directories in buffers of fifty loses and duplicates nothing |
| TreeWalk.ReadRunOwes | pftool-new-test/src/apps/treewalk.c:335-365 | batching paths in buffers of fifty loses and duplicates nothing |
| TreeWalk.BatchingIsFaithful | pftool-new-test/src/apps/treewalk.c:308-446 | every work item owes exactly what its program does, submits and reports |
| TreeWalk.ReachedOnce | pftool-new-test/src/apps/treewalk.c:335-361 | in a finite tree a node is reached once from every node at or above it, and from no other |
| TreeWalk.StartsOwe | pftool-new-test/src/apps/treewalk.c:80-91 | several starts each contribute every node at or below them |
| TreeWalk.WalkCounts | pftool-new-test/src/apps/treewalk.c:308-446 | in a finished run anything counted about one node is what the node contributes, once for each start above it |
| TreeWalk.WalkIsExact | pftool-new-test/src/apps/treewalk.c:308-446 | when the manager has left its loop, over any interleaving and number of workers, every node has been stat-ed, every directory read and every other node processed exactly once for each start at or above it, and nothing else has |
| TreeWalkOutcome.WalkIsPriced | pftool-new-test/src/apps/treewalk.c:308-446 | every work item of a finite tree is worth more than what its program does and submits |
| TreeWalkOutcome.WalkEnds | pftool-new-test/src/pwt/manager.c:54-90 | no walk goes on for ever, and a walk that cannot go on has left the manager's loop |
| TreeWalkOutcome.WalkCountsAtMost | pftool-new-test/src/apps/treewalk.c:308-446 | at no point of a walk has more been counted about one node than the node contributes in all |
| TreeWalkOutcome.UnreadableNeverListed | pftool-new-test/src/apps/treewalk.c:338-343 | a directory that cannot be opened is never reported as read |
| TreeWalkOutcome.WalkIsCompleteIffReadable | pftool-new-test/src/apps/treewalk.c:308-446 | a finished walk from one start is complete and exact if and only if every directory could be opened; which nodes are missing otherwise is said by TreeWalkLoss |
| TreeWalkLoss.ReadRunDoes | pftool-new-test/src/apps/treewalk.c:335-365 | reading a list of directories reports those before the first that cannot be opened, and sends on their names in batches of fifty, the last incomplete one only if all could be opened |
| TreeWalkLoss.SentAreFirst | pftool-new-test/src/apps/treewalk.c:338-365 | the batches sent are the first of those that would be sent if every directory opened: all of them, or those full before the first that does not |
| TreeWalkLoss.BatchAt | pftool-new-test/src/apps/pathinfo.c:72-75 | batch c of a list holds the paths from position 50 c on, fifty or as many as there are |
| TreeWalkLoss.BatchVisits | pftool-new-test/src/apps/treewalk.c:308-446 | a batch and everything it leads to account for an event once if it is due at or below the batch and nothing on the way is lost, and never otherwise |
| TreeWalkLoss.WalkVisits | pftool-new-test/src/apps/treewalk.c:308-446 | for any tree, any unreadable directories, any starts and any finished run: every event due at a node has happened once for each start above it from which no item on the way meets an unreadable directory before the node's batch is sent, and nothing else has happened |
| TreeWalkLoss.WalksAgree | pftool-new-test/src/apps/treewalk.c:308-446 | any two finished walks from the same starts have done the same, with any numbers of workers and any queues |
| TreeWalkLoss.ReadableNodesAreLost | pftool-new-test/src/apps/treewalk.c:338-343 | in a tree with an unreadable directory between two readable ones, no finished walk stats the file of the first or reads the second |
| FchunkTable.FchunkTbl.Insert | pftool-new-test/src/apps/fchunktbl.c:86-109 | the table's map gains or changes the binding, for any hash function |
| FchunkTable.FchunkTbl.Remove | pftool-new-test/src/apps/fchunktbl.c:121-141 | the table's map loses the binding, and the result says whether there was one |
| FchunkTable.FchunkTbl.Get | pftool-new-test/src/apps/fchunktbl.c:155-167 | the value bound to the key, or -1 |
| FchunkTable.FchunkTbl.Update | pftool-new-test/src/apps/fchunktbl.c:180-193 | only an existing binding is changed, and the result says so |
| FchunkTable.FchunkTbl.MoveChain | pftool-new-test/src/apps/fchunktbl.c:199-208 | while nodes move between the two tables during iteration, the two together hold every binding exactly once |
| FchunkTable.FchunkTbl.Resize | pftool-new-test/src/apps/fchunktbl.c:195-215 | a resize to any positive size keeps every binding |
| FchunkTable.PlacedRemove | pftool-new-test/src/apps/fchunktbl.c:121-141 | cutting a node out of its chain keeps every other key in its bucket, once |
| FchunkTable.SlotIsRemainder | pftool-new-test/src/apps/fchunktbl.c:88 | the bucket of a key is its hash modulo the size |
| Compare.ChunksTile | pftool-new-test/src/apps/cmp.c:447-482 | the chunks of a file follow one another from byte 0 to its end without a gap or an overlap |
| Compare.ChunkInFile | pftool-new-test/src/apps/cmp.c:447-482 | no chunk reaches beyond the file |
| Compare.ChunksAreEven | pftool-new-test/src/apps/cmp.c:447-482 | all chunks have the length of the file divided by their number, rounded down, and the last one what is left as well |
| Compare.ChunkMatches | pftool-new-test/src/apps/cmp.c:494-585 | a chunk matches if and only if the sizes agree and every byte in its range does, or with metadata only the times |
| Compare.CompareLoop | pftool-new-test/src/apps/cmp.c:536-560 | the buffered loop finds a match exactly when all bytes of the range are equal, for any buffer size |
| Compare.ChunksDecide | pftool-new-test/src/apps/cmp.c:494-585 | all chunks of a file match if and only if the files are equal |
| Compare.WholeDecides | pftool-new-test/src/apps/cmp.c:494-585 | an unchunked compare matches if and only if the files do |
| Compare.CmpProcessFile | pftool-new-test/src/apps/cmp.c:346-397 | a large file has its chunk count told and then each chunk submitted in order, any other one is submitted whole, all to queue 1; an unstatable destination submits nothing |
| Compare.CmpManager.AddChunkFile | pftool-new-test/src/apps/cmp.c:233-246 | the count is entered in the chunk table |
| Compare.CmpManager.WorkDone | pftool-new-test/src/apps/cmp.c:179-221 | the first mismatch of a chunked file, and the last of its matches, take its entry out of the real chunk table and print the verdict; other results only count down |
| CompareOutcome.ChunkedReplay | pftool-new-test/src/apps/cmp.c:179-246 | after any messages in which the count precedes the results, whatever else is interleaved, the table entry and the output of a chunked file are those that its counted results call for |
| CompareOutcome.UnchunkedReplay | pftool-new-test/src/apps/cmp.c:179-221 | an unchunked file gets one verdict for each result, in their order, and never an entry |
| CompareOutcome.CompareRespectsOrder | pftool-new-test/src/apps/cmp.c:346-397 | the compare programs tell a file's count before they submit its chunks |
| CompareOutcome.HeardAbout | pftool-new-test/src/apps/cmp.c:346-397 | the manager hears about a file exactly what its processing calls for |
| CompareOutcome.HeardAtMost | pftool-new-test/src/apps/cmp.c:346-397 | in no reachable state has the manager heard more about a file than its processing calls for |
| CompareOutcome.NoStrays | pftool-new-test/src/apps/cmp.c:346-397 | in every reachable state the manager has heard nothing unexpected about any path |
| CompareOutcome.ResultsFollowCount | pftool-new-test/src/apps/cmp.c:382-393 | in every reachable state the count of a file has been handled before any of its chunk results |
| CompareOutcome.TrafficSoFar | pftool-new-test/src/apps/cmp.c:179-246 | in every reachable state the manager has heard at most one count about a chunked file, at most one result per chunk, and the count before the results |
| CompareOutcome.TrafficOfRun | pftool-new-test/src/apps/cmp.c:179-246 | by the end the manager has heard one count and one result per chunk, and a mismatch if and only if the files differ |
| CompareOutcome.VerdictAtEveryMoment | pftool-new-test/src/apps/cmp.c:179-221 | in every reachable state of any run, finished or not, the table and the output of a chunked file are as they should be, and a mismatch has been heard of only if the files differ |
| CompareOutcome.VerdictsAreRight | pftool-new-test/src/apps/cmp.c:179-246 | at the end exactly one right verdict per file has been printed, equal to byte equality, nothing about anything else, and no table entry is left |
| CompareOutcome.EveryCompareEndsRight | pftool-new-test/src/apps/cmp.c:494-585 | with unlimited queues every compare run ends, and ends with the right verdicts |
| Bits.MaskAndShift | mdhimMods/src/uthash/uthash.h:665-671 | mask and shift by a power of two split a number into remainder and quotient |
| Bits.WiderMask | mdhimMods/src/uthash/uthash.h:199-202 | one more bit in the mask keeps the bucket number or adds the old bucket count |
| Bits.CeilShiftIsCeiling | mdhimMods/src/uthash/uthash.h:683-685 | the shift-and-mask form is the ceiling of items over buckets |
| Bits.CeilShiftRoundsUp | mdhimMods/src/uthash/uthash.h:683-685 | it is the least number that times the buckets is at least the items |
| UtHashChains.SlotDoubles | mdhimMods/src/uthash/uthash.h:694-695 | an element of old bucket i goes to bucket i or to i plus the old count |
| UtHashChains.SlotIsRemainder | mdhimMods/src/uthash/uthash.h:199-202 | the bucket of a hash value is its remainder by the number of buckets |
| UtHashChains.ExcessPush | mdhimMods/src/uthash/uthash.h:695-696 | an element pushed counts as non-ideal exactly when its chain then is longer than ideal |
| UtHashChains.RaisedThreshold | mdhimMods/src/uthash/uthash.h:695-699 | a chain longer than ideal has its threshold raised to the next multiple of the ideal length, no other has |
| UtHashChains.BalancedLoad | mdhimMods/src/uthash/uthash.h:625-627 | as long as no chain has outgrown its threshold, a table holds less than twenty elements a bucket |
| UtHashChains.DoublingBalances | mdhimMods/src/uthash/uthash.h:683-699 | after a doubling with at most that load every chain is below its raised threshold, but for chains of ten when ten is the ideal length |
| UtHashChains.SentAll | mdhimMods/src/uthash/uthash.h:688-709 | after the doubling loops every element has been sent, and the new chains are those the hash values call for |
| UtHashChains.CountsAgree | mdhimMods/src/uthash/uthash.h:291-319 | the chain lengths add up to the number of elements in application order |
| UtHashChains.ModelWithout | mdhimMods/src/uthash/uthash.h:216-249 | cutting one element out of the order takes its key out of the map and keeps the others |
| UtHash.PushFront | mdhimMods/src/uthash/uthash.h:618-629 | linking an element in at the head of its chain keeps both links of every chain, heads and counts |
| UtHash.DelInBkt | mdhimMods/src/uthash/uthash.h:632-642 | taking an element out of its chain does too |
| UtHash.Table.Find | mdhimMods/src/uthash/uthash.h:604-615 | the walk along one chain finds an element with the key if and only if the table has one |
| UtHash.Table.ExpandBuckets | mdhimMods/src/uthash/uthash.h:673-719 | doubling keeps every element, moves each to bucket i or i+n at the front, rounds the ideal length up, raises the threshold of every chain longer than that to its next multiple and of no other, sums the excesses, and decides further expansion |
| UtHash.Table.AddToBkt | mdhimMods/src/uthash/uthash.h:618-629 | the element is pushed on its chain, and the buckets are doubled exactly when the chain has reached its threshold and expansion is allowed; then the ideal length is at most ten and every chain below its threshold, but for chains of ten when ten is ideal |
| UtHash.Table.Add | mdhimMods/src/uthash/uthash.h:174-197 | both structures gain the element, last in application order, with a new table for the first one |
| UtHash.Table.Delete | mdhimMods/src/uthash/uthash.h:216-249 | both structures lose the element, the order of the others stays, and the last one takes the table with it |
| UtHash.Table.Integrity | mdhimMods/src/uthash/uthash.h:285-335 | what the debug build's integrity check walks over and adds up always agrees, every element being in the bucket that its hash modulo the buckets names |
| UtHash.Table.Lookup | mdhimMods/src/uthash/uthash.h:95-106 | a find answers as the insertion-ordered map does |
| UtHash.Table.AddFresh | mdhimMods/src/uthash/uthash.h:174-197 | adding under a fresh key extends the map, also across a doubling |
| UtHash.Table.Remove | mdhimMods/src/uthash/uthash.h:216-249 | deleting takes the key out of the map |
| UtHash.Table.Replace | mdhimMods/src/uthash/uthash.h:164-172 | whatever had the key is handed back, and the map binds the key to the new element, which comes last |
| UtHash.Table.DeleteAll | mdhimMods/src/uthash/uthash.h:870-872 | iterating with the successor saved while deleting visits every element once, in order, and empties the table |
| StableSort.PassDoublesRuns | mdhimMods/src/uthash/uthash.h:740-789 | a pass turns sorted runs of k elements into sorted runs of 2k |
| StableSort.PassKeepsTies | mdhimMods/src/uthash/uthash.h:761-767 | a pass keeps the order of elements that compare equal |
| StableSort.SortIsStable | mdhimMods/src/uthash/uthash.h:726-803 | the passes permute for any comparison, and sort stably for any total preorder |
| UtHashSort.MergeRuns | mdhimMods/src/uthash/uthash.h:754-788 | one merge relinks two runs in place into their merge, with previous links mirroring next links |
| UtHashSort.SortPass | mdhimMods/src/uthash/uthash.h:738-791 | one pass over the list is the pass on its sequence, and it needed at most one merge exactly when the list was short enough |
| UtHashSort.SortList | mdhimMods/src/uthash/uthash.h:726-803 | the sort terminates and relinks the list, both ways, into the sorted sequence |
| UtHash.Table.Sort | mdhimMods/src/uthash/uthash.h:726-803 | the application order becomes its stable sort, head, tail and both links right, and every bucket chain is unchanged |
| Partitioner.GetNumRangeServers | mdhimMods/src/partitioner.c:252-278 | the loop over the ranks finds one server in a small communicator, otherwise the last rank divided by the factor, and one more |
| Partitioner.ServersAreNumbered | mdhimMods/src/partitioner.c:288-327 | the ranks that are range servers and the numbers from one to the number of servers are in bijection |
| Partitioner.GetRangesrvs | mdhimMods/src/messages.c:2123-2158 | the list has one entry for every rank that reports a number, in rank order, and the master is the last of them |
| Partitioner.GetRangeServerBySlice | mdhimMods/src/partitioner.c:450-476 | the walk finds a server with the slice's number if and only if the list has one |
| Partitioner.RoutingIsTotal | mdhimMods/src/partitioner.c:450-476 | every slice has exactly one server in the list, the rank with its number |
| Partitioner.SliceGoesTo | mdhimMods/src/partitioner.c:450-476 | slice s goes to the rank that is the factor times s modulo the servers, or to the last rank of a small communicator |
| Partitioner.ConsecutiveSlicesSpread | mdhimMods/src/partitioner.c:457-462 | any run of as many consecutive slices as servers reaches distinct servers |
| KeySlices.BuildAlphabet | mdhimMods/src/partitioner.c:128-164 | the table numbers 0-9, A-Z, a-z from 0 to 61 and holds nothing else |
| KeySlices.ValidKeys | mdhimMods/src/partitioner.c:176-223 | an integer key is valid if and only if it is below 2147483647 slices of the slice size; a string key if and only if it has at most 262144 characters, all digits or letters but for one final NUL |
| KeySlices.VerifyKey | mdhimMods/src/partitioner.c:176-223 | the check returns 0 for such keys and -1 for all others |
| KeySlices.GetStrNum | mdhimMods/src/partitioner.c:56-75 | the loop computes the base-64 number of the characters before a final NUL |
| KeySlices.StrNumIsBase64 | mdhimMods/src/partitioner.c:56-75 | that number is the base-64 integer of the text divided by 64 to its length |
| KeySlices.StrNumRange | mdhimMods/src/partitioner.c:56-75 | the number of a valid string is in [0, 1) |
| KeySlices.StrNumMonotone | mdhimMods/src/partitioner.c:56-75 | lexicographic order of valid strings carries over to their numbers |
| KeySlices.TiesAreZeros | mdhimMods/src/partitioner.c:56-75 | two valid strings in lexicographic order have one number if and only if the greater one only adds zeros at its end |
| KeySlices.LexTotal | mdhimMods/src/ds_leveldb.c:116-148 | the order is total and antisymmetric |
| KeySlices.LexTransitive | mdhimMods/src/ds_leveldb.c:116-148 | and transitive |
| KeySlices.CmpStringCompare | mdhimMods/src/ds_leveldb.c:116-148 | the store's comparison of NUL-terminated keys is that lexicographic order |
| KeySlices.LexMeans | mdhimMods/src/ds_leveldb.c:116-148 | one text is before another if and only if it is a prefix or has the smaller character where they first differ |
| KeySlices.SliceInRange | mdhimMods/src/partitioner.c:340-440 | a valid key has a slice from 0 to the maximum, any other is an error |
| KeySlices.SliceOfInt | mdhimMods/src/partitioner.c:372-436 | an integer key is in slice s if and only if it is at least s slice sizes and less than s + 1 |
| KeySlices.SliceOfString | mdhimMods/src/partitioner.c:408-436 | a string key is in slice s if and only if its number, scaled by the 64-bit product of slices and slice size and cut, is |
| KeySlices.SliceOfText | mdhimMods/src/partitioner.c:408-436 | when that product fits 64 bits, a string key is in slice s if and only if its number times 2147483647 is from s up to s + 1 |
| KeySlices.SlicingKeepsOrder | mdhimMods/src/partitioner.c:340-440 | slicing keeps the order of integer and of string keys, also when the 64-bit product of slices and slice size wraps |
| RangeServer.Server.Put | mdhimMods/src/range_server.c:534-629 | the key gets the value, or has it appended to what it had, and no other key changes; the statistics change only for a key that was not there |
| RangeServer.Server.BulkPut | mdhimMods/src/range_server.c:641-766 | the three loops write a batch worked out beforehand and update the statistics for the keys that were new |
| RangeServer.Server.UpdateAllStats | mdhimMods/src/range_server.c:158-250 | the entry of the key's slice takes the key's number into its bounds and counts one more, or starts with it; no other entry changes |
| RangeServer.Server.BulkDelete | mdhimMods/src/range_server.c:816-853 | the keys leave the store, the statistics stay |
| RangeServer.PutsPerKey | mdhimMods/src/range_server.c:534-629 | after single puts in order a key's value is the last one, or all of them appended to the old |
| RangeServer.BulkPerKey | mdhimMods/src/range_server.c:669-718 | after a bulk put a key's value is worked out from its last record and the value before the batch |
| RangeServer.BulkPutIsPuts | mdhimMods/src/range_server.c:641-766 | without appending a bulk put equals the same puts in order |
| RangeServer.AppendingBulkPutIsPuts | mdhimMods/src/range_server.c:682-700 | with appending it does, for any values, if and only if no value but an empty one comes before another of the same key |
| SliceStats.UpdateKeepsExact | mdhimMods/src/range_server.c:158-250 | counting in a key that was not there keeps the least and greatest number and the count of every slice exact |
| SliceStats.BulkPutStatsExact | mdhimMods/src/range_server.c:641-766 | after a bulk put of any values exact statistics are exact again if and only if no new key was repeated in it and every key of it is present afterwards |
| SliceStats.DeletesStatsExact | mdhimMods/src/range_server.c:816-853 | after a bulk delete they are if and only if no key in it was present |
| SliceStats.DeleteStatsExact | mdhimMods/src/range_server.c:777-805 | after a delete they are if and only if its key was absent |
| SliceStats.StatsExactIffKept | mdhimMods/src/range_server.c:534-853 | over any run of any requests, empty values, repeats and deletes included, the statistics are exact at the end if and only if every request kept them exact; no miscount is ever made up for |
| SliceStats.StatsGoStale | mdhimMods/src/range_server.c:534-805 | a key put and then deleted leaves the statistics inexact, and so does one put of an empty value under a new key |
| SliceStats.StatsExactOverRuns | mdhimMods/src/range_server.c:534-766 | over any run of single puts and bulk puts without empty values and repeated keys, a slice has an entry if and only if it holds a key, and minimum, maximum and count are right |
| SliceStats.StatsBoundOverRuns | mdhimMods/src/range_server.c:534-853 | over any run at all, deletes and repeats included, every key present is within its slice's bounds and no slice holds more keys than are counted; when more holds is said by StatsExactIffKept |
| SliceStats.GetNextSliceStat | mdhimMods/src/partitioner.c:503-523 | the loop finds the least slice above, if there is one |
| SliceStats.GetPrevSliceStat | mdhimMods/src/partitioner.c:525-545 | the loop finds the greatest slice below, if there is one |
| SliceStats.GetLastSliceStat | mdhimMods/src/partitioner.c:547-567 | the loop finds the greatest slice |
| SliceStats.GetFirstSliceStat | mdhimMods/src/partitioner.c:569-589 | the loop finds the least slice |
| SliceStats.GetSliceFromStat | mdhimMods/src/partitioner.c:647-702 | the slice chosen is the current one, the neighbouring or the end one, or 0, as the branches say |
| SliceStats.NumbersFollowKeys | mdhimMods/src/partitioner.c:56-75 | the numbers of keys follow the store's order; two keys in order share one, and then a slice, if and only if the second adds zeros to the text of the first |
| SliceStats.NextSliceIsRight | mdhimMods/src/partitioner.c:662-669 | with exact statistics the slice chosen holds the key right behind in the store's order if and only if that key has a greater number, or the key's own slice holds a greater number, or it is slice 0 with no later one |
| SliceStats.PrevSliceIsRight | mdhimMods/src/partitioner.c:671-679 | the mirror image for the key right before in the store's order |
| SliceStats.EndSlicesAreRight | mdhimMods/src/partitioner.c:681-688 | the slices chosen for the first and last key hold the least and the greatest key of all in the store's order |
| SliceStats.NoNextIsZero | mdhimMods/src/partitioner.c:696-701 | the slice chosen holds a greater key if and only if some key has a greater number, or some key is greater and the key's own slice is 0; with no greater key it is 0 |
| SliceStats.NoPrevIsZero | mdhimMods/src/partitioner.c:671-701 | the mirror image: the slice chosen holds a smaller key if and only if some key has a smaller number, or some key is smaller and the key's own slice is 0; with no smaller key it is 0 |
| SliceStats.TiedKeysAreMissed | mdhimMods/src/partitioner.c:591-702 | with only the text a0 stored, a request for the key after a is sent to slice 0, which does not hold it; and with only a stored, one for the key before a0 |
| SliceStats.WriteStats | mdhimMods/src/range_server.c:341-386 | every entry goes to the database and the table is left empty |
| SliceStats.LoadStats | mdhimMods/src/range_server.c:259-332 | reading record after record from the first on fills the table with all of them |
| SliceStats.WrittenStatsLoad | mdhimMods/src/range_server.c:259-386 | loading what was written restores the table if and only if the database had no other slice |
| Mdhim.Cluster.GetRangeServer | mdhimMods/src/partitioner.c:487-501 | a valid key is routed to the rank that its slice modulo the servers and the factor give, any other to none |
| Mdhim.Cluster.Put | mdhimMods/src/mdhim.c:264-310 | a put is accepted if and only if its key is an integer below 2147483647 slices or a legal text; then the one map of all stores gets the value or has it appended, otherwise nothing changes; all servers' statistics are exact afterwards if and only if they were and the new value is not empty |
| Mdhim.Cluster.Delete | mdhimMods/src/mdhim.c:695-736 | the union of all stores loses the key, or the delete is refused; all servers' statistics are exact afterwards if and only if they were and the key was absent |
| Mdhim.Cluster.Get | mdhimMods/src/mdhim.c:439-498 | a get with equality returns the one map's value |
| Mdhim.Cluster.Distribute | mdhimMods/src/mdhim.c:353-391 | one pass puts every record with a valid key, in order, into the message of its server, the own one apart |
| Mdhim.Cluster.BulkPut | mdhimMods/src/mdhim.c:323-427 | whichever rank sends it, the union of all stores changes as by one bulk put of all valid records; too many records change nothing; all servers' statistics are exact afterwards if and only if they were, no new key was repeated and every key is present afterwards |
| Mdhim.Cluster.BulkDelete | mdhimMods/src/mdhim.c:747-842 | the union of all stores loses exactly the keys named; all servers' statistics are exact afterwards if and only if they were and none of the keys was present |
| Mdhim.Cluster.BulkGet | mdhimMods/src/mdhim.c:509-599 | asking the servers one by one returns the own server's answer before those of the others, from each server that has keys, each with the one map's values in the order of its keys; too many keys are refused |
| Mdhim.Cluster.BulkGetAnswersAll | mdhimMods/src/mdhim.c:534-599 | whichever rank asks, every server with keys answers exactly once and no other does, its own server first and then the others in rank order, and every valid key is answered with the one map's value |
| Mdhim.BulkPutPartitioned | mdhimMods/src/mdhim.c:349-427 | bulk puts at the servers, each of its own records, make one bulk put to the union |
| Mdhim.BulkPutOf | mdhimMods/src/mdhim.c:349-427 | after a bulk put a key has the value of its last record, on top of what was there before the batch when appending; a key without a record stays as it was |
| Mdhim.BulkPutCounted | mdhimMods/src/range_server.c:641-766 | a bulk put, split among the servers, leaves the statistics of all exact if and only if they were and it counts right in the union |
| Mdhim.BulkDeleteCounted | mdhimMods/src/range_server.c:816-853 | and a bulk delete if and only if they were and no key of it was in the union |
| Mdhim.CountedRunKeepsKeys | mdhimMods/src/mdhim.c:264-842 | a run of calls that each keep exact statistics exact makes no key absent |
| Mdhim.BulkCallsAreSingleCalls | mdhimMods/src/mdhim.c:264-842 | without appending, any run of put, bulk put, delete and bulk delete calls leaves the map as the same single calls in order do |
| StatFlush.Displacements | mdhimMods/src/messages.c:2402-2408 | displacements and counts tile the gathered buffer with no gap and no overlap |
| StatFlush.Gatherv | mdhimMods/src/messages.c:2463-2470 | the gathered buffer is the servers' buffers end to end |
| StatFlush.PackedTables | mdhimMods/src/messages.c:2414-2448 | packing table by table is packing everything |
| StatFlush.UnpackStats | mdhimMods/src/messages.c:2506-2550 | unpacking by fixed-size records enters every entry in order |
| StatFlush.GetStatFlush | mdhimMods/src/messages.c:2333-2562 | afterwards a rank's table has, for each slice held anywhere, its owner's entry, and for any other slice what it had |
| CursorRouting.FlushMakesExact | mdhimMods/src/messages.c:2333-2562 | flushing every server's exact statistics into any table gives exact statistics about all keys if and only if the table had no entry for a slice without keys |
| CursorRouting.EveryFlushIsExact | mdhimMods/src/messages.c:2506-2550 | of any number of flushes into one table, empty at first, while no key goes, every one finds a fit table and makes it exact |
| CursorRouting.ServingHasOneOwner | mdhimMods/src/partitioner.c:450-476 | routing gives every slice one owner |
| CursorRouting.NextGoesToItsServer | mdhimMods/src/partitioner.c:714-783 | after any flush into a fit table a request for the next key reaches the server that holds the key right behind if and only if that key has a greater number or the table keeps the request at the key's own server: by a greater number in its slice, or by the next entry, or by slice 0 when there is none |
| CursorRouting.PrevGoesToItsServer | mdhimMods/src/partitioner.c:714-783 | the mirror image for the previous key |
| CursorRouting.GetRangeServerFromStats | mdhimMods/src/partitioner.c:714-783 | no server without statistics, with an invalid key, or without a key where one is needed; otherwise the rank that serves the slice chosen |
| CursorRouting.ClusterServes | mdhimMods/src/range_server.c:534-766 | the servers of a cluster whose calls kept the statistics exact, when they flush, serve the cluster's map |
| CursorRouting.NextReachesItsKey | mdhimMods/src/partitioner.c:714-783 | end to end from client calls and any flush: a request for the next key reaches the server whose store holds it, unless the next key only adds zeros to the text asked about and the table sends the request to another server, and then it does not |
| CursorRouting.PrevReachesItsKey | mdhimMods/src/partitioner.c:714-783 | the mirror image for the previous key |
| CursorRouting.EndReachesItsKey | mdhimMods/src/partitioner.c:714-783 | a request for the first or last key reaches the server whose store holds it |
| Messages.IntRoundTrip | mdhimMods/src/messages.c:807-816 | a 32-bit integer survives packing and unpacking |
| Messages.PackedSize | mdhimMods/src/messages.c:1111-1116 | packing ends at the precomputed size, four bytes per record below it for a bulk get |
| Messages.PackMessage | mdhimMods/src/messages.c:704-829 | a message over 2147483647 bytes is refused; any other fills its buffer with its bytes, the number of its kind first, and records its size, for all eight kinds |
| Messages.KindsAreTold | mdhimMods/src/messages.h:9-27 | the first four bytes of a message are the number of its kind, 1 to 6, 9 or 10, and so tell the kinds apart |
| Messages.Layout | mdhimMods/src/messages.c:704-829 | behind the structure come the key and value of a single record as they are, or every key and value of a bulk with its length before it |
| Messages.UnpackAs | mdhimMods/src/messages.c:850-1018 | the unpacker of a kind reads back fields, lengths, bytes and order of any packed message of that kind |
| Messages.ReceiveRangesrvWork | mdhimMods/src/messages.c:306-343 | a server reads the number of the kind and chooses the unpacker: every request comes out as it was packed, a reply is nothing, and a message without a size is an error |
| Messages.ReceiveClientResponse | mdhimMods/src/messages.c:482-502 | a client does the same with replies |
| Messages.RoundTrip | mdhimMods/src/messages.c:1040-1300 | a message within the size limit, and only such a one, survives the trip without the receiver being told its kind: a request to a server, a reply to a client |
| WorkQueue.Queue.AddWork | mdhimMods/src/range_server.c:396-419 | new work waits behind all there is, both links right; what was added is what was taken and then what waits |
| WorkQueue.Queue.GetWork | mdhimMods/src/range_server.c:429-449 | the oldest work is taken, cut loose from the list, and the same still holds |
| WorkQueue.TakenInOrder | mdhimMods/src/range_server.c:396-449 | after any run of the two methods on a queue, work has been taken in the order it was added, none twice, and the rest still waits |
| MlogRing.MessageBuffer.Log | mdhimMods/src/Mlog/mlog.c:636-671 | whatever the length of the message, the buffer then holds the newest bytes ever logged |
| MlogRing.WindowMoves | mdhimMods/src/Mlog/mlog.c:636-671 | writing around the end of the buffer moves its window on to the last bytes of the longer history |
| MlogRing.MessageBuffer.DmesgMbuf | mdhimMods/src/Mlog/mlog.c:197-217 | the two pieces end to end are the last bytes ever logged, as many as fit or were logged |
| MlogRing.MessageBuffer.MbCopy | mdhimMods/src/Mlog/mlog.c:1335-1393 | the copy is the wanted number of bytes, or all there are, ending the given number of bytes before the newest |
| MlogMasks.Str2Pri | mdhimMods/src/Mlog/mlog.c:742-780 | the parser's quirks and table searches compute the meaning of a text |
| MlogMasks.Words | mdhimMods/src/Mlog/mlog.c:265-272 | the nine words and their masks |
| MlogMasks.DebugNames | mdhimMods/src/Mlog/mlog.c:268-272 | a debug name lists the streams whose bits are set, stream 0 being the highest |
| MlogMasks.SameTextMeans | mdhimMods/src/Mlog/mlog.c:754-774 | names are compared up to the case of letters |
| MlogMasks.CaseIgnored | mdhimMods/src/Mlog/mlog.c:742-780 | case does not matter to what a text means, but for a first D, which is padded only as a capital |
| MlogMasks.PriorityRoundTrip | mdhimMods/src/Mlog/mlog.c:280-290 | the printed name of a mask means its level, or its debug bits when it has no level |
| MlogMasks.KeptExactly | mdhimMods/src/Mlog/mlog.c:280-290 | that is the whole mask if and only if it is a level alone or debug bits alone |
| MlogMasks.Output.Put | mdhimMods/src/Mlog/mlog.c:391-417 | every byte is counted, skipped or copied so that the output is a window of the text |
| MlogMasks.GetMasks | mdhimMods/src/Mlog/mlog.c:1225-1272 | the output is the window of the full text that discard and length name, and the result its length, or the text's when only probing |
| MlogMasks.PartAt | mdhimMods/src/Mlog/mlog.c:391-417 | the window byte by byte: as many bytes as fit or are left, from the first not discarded on |
| MlogMasks.DigitsSpell | mdhimMods/src/Mlog/mlog.c:1249-1251 | a facility without a name is printed as its decimal number |
| MlogMasks.PrintedTable | mdhimMods/src/Mlog/mlog.c:1241-1272 | commas between the entries and a newline behind them |
| MlogMasks.PrintedEntries | mdhimMods/src/Mlog/mlog.c:1245-1265 | a facility is printed under its long name, else its short one, else its number, with the name of its mask |
| MlogMasks.SetMasks | mdhimMods/src/Mlog/mlog.c:1113-1220 | the parser's loops apply the text entry by entry, to the facility named or to all |
| MlogMasks.SetEntry | mdhimMods/src/Mlog/mlog.c:1147-1218 | an entry is applied; one without an equals sign gives every facility of the array the mask it means |
| MlogMasks.SetEvery | mdhimMods/src/Mlog/mlog.c:1214-1217 | every facility of the array has the mask afterwards, under its old names |
| MlogMasks.EntryForAll | mdhimMods/src/Mlog/mlog.c:1155-1217 | an entry that names no facility gives all of them the mask it means, or is ignored when it means none |
| MlogMasks.WarnForAll | mdhimMods/src/Mlog/mlog.c:1108-1112 | the text WARN sets every facility to 0x300000 |
| MlogMasks.SkippedBlanks | mdhimMods/src/Mlog/mlog.c:1126-1129 | blanks and tabs before the text are skipped, and nothing else |
| MlogMasks.TrimEnd | mdhimMods/src/Mlog/mlog.c:1164-1171 | newlines, blanks and tabs behind the last priority are dropped, and nothing else |
| MlogMasks.FindFacility | mdhimMods/src/Mlog/mlog.c:1188-1203 | the facility meant is the first with the name |
| MlogMasks.EntryRoundTrip | mdhimMods/src/Mlog/mlog.c:1130-1218 | a printed entry, last or not, sets the facility that its name means, and no other, to what is kept of the mask; with a NUL counted behind it, it is not understood |
| MlogMasks.MasksRoundTrip | mdhimMods/src/Mlog/mlog.c:1113-1272 | text printed from a table restores, from any masks before, what is kept of every mask; the whole table if and only if every mask is a level alone or debug bits alone |
| MlogMasks.RoundTripNeedsNames | mdhimMods/src/Mlog/mlog.c:1178-1218 | it does so from all masks before that the log can hold if and only if every facility has a name and no printed name means an earlier facility |
| MlogMasks.TextStaysLoggable | mdhimMods/src/Mlog/mlog.c:1095-1218 | whatever the text, masks set from it have no bits but the priority bits |
| MlogMasks.CountedNulLosesLast | mdhimMods/src/Mlog/mlog.c:1113-1272 | with the length the printer returns, NUL included, every mask but the last is restored and the last stays as it was |

## Left out

- The 100-probe bail-out of an idle worker (`pftool-new-test/src/pwt/worker.c:40-42`), a debugging aid after which a worker stops listening.
- Failing `lstat`, `closedir` and read calls, which abort the job or leave a compare matched; a failing `opendir` is modelled.
- Performance statistics, back-off times, time stamps, and printed text other than verdicts.
- Liveness with bounded work queues: all workers can be denied together. The invariant, termination detection, conservation and the order of messages are proved for bounded queues too; only the bounds on run length need unlimited ones.
- Paths are sequences of names, and files byte sequences: no path length limit, no links, no concurrent change of the tree.
- Two starting paths one of which lies under the other are walked twice, as in the code; the verdicts of a compare are proved for one start.
- The Bloom filter option, `HASH_SELECT`, the bit-level hash functions and the wrap-around of the 32-bit counters of the hash table: the hash function is any function to the naturals, and the number of buckets may double without end.
- One hash table has one set of handles: an element in two tables at once is not modelled, and a comparison is a function of the elements.
- Allocation failures and freed memory.
- LevelDB and RocksDB themselves: a store is a finite map, and a batch of writes is applied in order. Reading past a key the store does not have skips a record (`mdhimMods/src/ds_leveldb.c:455-461`), so the cursor theorems end at the server that is asked.
- Float, double and byte keys, rounding of `long double` (exact reals here), and string keys that differ only in a final NUL.
- Errors of the database and of MPI calls; the collectives are taken as their results, and the transport as FIFO channels.
- In `Messages` a structure is its integer fields, kind, rank and size first and the lengths last; the pointers and the padding inside the packed structures carry nothing and are left out of its size. Messages without records (close, commit and the plain reply) are not modelled.
- StatFlush.GetStatFlush: a packed record is one cell for each of its four fields rather than their bytes, because only the common record size matters for the displacements.
- Locks, condition variables and threads of the range server and the log: operations are atomic.
- The log's output to files, terminals, syslog and UDP, message formatting and truncation, and the second copy of the log under `src/Mlog`.
- MlogMasks.MasksRoundTrip: asks that names hold no comma or equals sign and the first no leading blank, which the syntax of the text has no way to carry; what else it asks is shown to be needed.
- In `Messages` the lengths of a key and its value, and twice the number of records, add up to a C int: a sum that overflows before it is widened is undefined in C and not modelled.

# A verified model of the exchange's matching core

This project models the matching server of the exchange in Dafny and proves what it is built to do. It covers four parts, and follows the code's own shape: classes where the code updates objects in place, loops where the code has loops, and value-level functions as the specification those classes are proved against.

- **The order book of one symbol.** `SkipList.dfy` is the pointer skip list, for every outcome of its random heights. `Orders.dfy`, `Sorting.dfy`, `PriceIndex.dfy`, `Walk.dfy` and `OrderBook.dfy` are the book: two flat lists, two skip lists of prices and one shared level map. `Matching.dfy` is the specification, greedy matching over the flat opposite list; every book operation is proved equal to it. `Terms.dfy` states what a submission and a cancellation do in prices, quantities, IDs and statuses alone, and shows that this leaves exactly one outcome, the specification's; `MatchingLaws.dfy`, `Priority.dfy`, `Conservation.dfy` and `Batch.dfy` say what else it guarantees.
- **The log, snapshots and recovery.** `Framing.dfy` and `WalReads.dfy` are the byte format and the two ways the code reads it back, `TornTails.dfy` what they make of a torn record; `Wal.dfy` is the log object. `Recovery.dfy` shows that replay cannot depend on the stamps that are not logged, `Sessions.dfy` is the log-then-execute protocol as a state machine, `Losses.dfy` what a command that was logged and never executed does to it, `Snapshots.dfy` the snapshot and what a replay past its LSN delivers. `Engine.dfy` is the recovery procedure and `Symbols.dfy` the live side, both over real books and logs.
- **The actors.** `Actors.dfy` is the per-symbol queue pair, its select loop, the callers that log a command and then try to send it, and the reply channels, as a step relation; `Isolation.dfy` is all symbols over the shared ID counter, and `LogOrder.dfy` compares the order of logging with that of execution.
- **Two smaller machines.** `RateLimiter.dfy` is the Redis limiter, `Outbox.dfy` the outbox worker.

## Assumptions

- Prices and quantities are integers (ticks). Index keys come from `InexactFloat64` (internal/matching/book/orderbook.go:299), taken to be injective on the prices used. Decimal strings are taken to survive a round trip.
- A limit order's price is not 0: the descending walk runs on to the skip list's header, whose key is 0 (internal/matching/book/skiplist.go:101, 243-245). Submitted quantities are positive.
- The IDs of resting orders are distinct. The gateway sends none (internal/gateway/router/router.go:231-238), so this is a precondition on whoever calls the engine (`Fresh`).
- The clock increases from command to command. `sort.Slice` is used only through its contract, which leaves no choice once timestamps differ.
- A read of the log before the end of the file fills its buffer (internal/matching/wal/wal.go:394, 417, 567, 581 do not ask for a full read). LSNs and record lengths fit their fields.
- Payloads are opaque bytes with a codec whose decoding undoes its encoding.
- `Symbols` and `Engine` take commands one at a time and snapshots with none in flight; a command may be given up after it was logged. `LogOrder` says exactly when several callers at once keep the log in the order of execution.
- The limiter uses one time for the key and the score, and no request ID twice; each scope has one policy with a positive window.
- The outbox has one worker, and crashes happen only while a handler runs.

## What turned out false

- *A snapshot loses nothing.* A snapshot taken at LSN E truncates everything up to E, which is the whole log, and the counter restarts at 0 (internal/matching/wal/wal.go:597-624; docs/interview/03-wal-snapshot-recovery.md:705-706 says it becomes the truncation LSN). Recovery then skips the first E entries logged since: all of them are found exactly when E is 0 or nothing was logged (`Symbols.Symbol.RecoverAfterSnapshot`, `Snapshots.SnapshotLosesAnOrder`).
- *A snapshot is the whole book.* `Take` asks for depth 0, which means 10 (internal/matching/snapshot/snapshot.go:42, internal/matching/book/orderbook.go:416-421): a snapshot restores the book exactly when neither side has more than 10 orders (`Snapshots.RestoreOfTake`).
- *A torn tail is ignored.* The scan at opening ignores it (`Framing.ScanFrames`). Replay and truncation ignore it exactly when nothing is left of the record, or when the tear lies behind the first length byte but not behind the header and what is there of the length is not 0 (`TornTails.Vanishes`, `TornTails.TornIsRead`). A record torn anywhere else, in its LSN, its type or its payload, is read as complete, with zeros for what is missing; replay delivers it exactly when its LSN as far as written passes and those bytes decode (`Wals.Haunts`, `Wals.TornIsDelivered`), and truncation makes it permanent. Nor is the tail cut off when the log is reopened, so what is logged next is found again exactly when nothing was left of the torn record (`TornTails.NextIsFound`, `Symbols.Symbol.FirstLoggedIsFound`); where the merged record ends inside a later one, what is read from there depends on payload bytes.
- *What is synced is safe.* Truncation empties the file before it rewrites it (internal/matching/wal/wal.go:591-612): a crash in between keeps all the records it was to keep exactly when all their bytes are already there, and can keep none (`Wals.Wal.CrashInTruncate`).
- *The log has the order of execution.* A caller logs its command and then tries to send it, under no lock, and may give up first (internal/matching/engine/engine.go:427-433, 566-574). So the select can take a cancellation before the order it was to cancel (`LogOrder.RacingCancelDiverges`), one caller can send before another that logged earlier (`LogOrder.OvertakenLosesPriority`), and a single caller can leave an order in the log that is never executed (`LogOrder.GivenUpIsReplayed`); recovery then rebuilds a different book. The log is sure to agree at every moment of a run exactly when no caller gives up a logged command, and each command enters its queue while the other queue is empty and every command logged earlier has been sent, or is the same (`LogOrder.LogAgreesIffOrderly`); then recovery rebuilds the live book (`LogOrder.OrderlyLogIsBook`).
- *What is logged was executed.* Even with one command at a time a logged command can be given up. Replay stays right, at every moment since the last snapshot, exactly when no command was lost that would have changed the book: a limit order always would, a market or IOC order when it matches anything, a FOK order when it can be filled, a cancellation when its order rests (`Losses.ExecuteHarmless`, `Sessions.ServeAllCoherent`, `Symbols.Symbol.RecoverAfterLoss`).
- *The limiter is a sliding window* (README.md:41, openspec/changes/archive/2026-06-21-distributed-rate-limit/design.md). It is a fixed-window counter, because the key already names a window and nothing ever expires within it (`RateLimits.RedisRateLimiter.NothingExpires`). A sliding window's bound holds of exactly the stretches inside one window (`RateLimits.SlidesWithinOneWindow`); twice the maximum is the bound for any stretch of one window's length (`RateLimits.TwiceTheMaximum`).
- *A rejected FOK leaves no mark.* It leaves none on the book, but its own fields keep what matching wrote (`OrderBooks.OrderBook.Reject`, internal/matching/book/orderbook.go:259-269): all that was matchable, so nothing exactly when nothing was (`Priority.RejectedKeepsFill`, `Priority.RejectedFokIsMarked`).

## Model

| member | source | states |
|---|---|---|
| `SkipLists.SkipList.Insert` | internal/matching/book/skiplist.go:63-109 | exactly one key is added, unless it was there; the node returned holds it; every pointer of the new chain is right, for any height |
| `SkipLists.SkipList.Delete` | internal/matching/book/skiplist.go:156-194 | exactly one key is removed, true iff it was there, and the chain is relinked around it |
| `SkipLists.SkipList.Search` | internal/matching/book/skiplist.go:113-128 | the node holding the key, nil iff there is none |
| `SkipLists.SkipList.Seek` | internal/matching/book/skiplist.go:132-152 | the lower bound, or else the last node; its key equals the one sought iff that is present |
| `SkipLists.SkipList.SeekFirst` | internal/matching/book/skiplist.go:211-215 | the smallest key's node |
| `SkipLists.SkipList.SeekLast` | internal/matching/book/skiplist.go:218-232 | the largest key's node |
| `SkipLists.SkipList.LevelIsSublist` | internal/matching/book/skiplist.go:63-109 | following one level visits exactly the nodes taller than it, in key order |
| `SkipLists.SkipList.BackwardInverts` | internal/matching/book/skiplist.go:235-245 | back pointers invert the links of level 0, header included |
| `SkipLists.SplicedTarget` | internal/matching/book/skiplist.go:92-100 | where each old pointer leads once a node of any height stands in the chain |
| `SkipLists.SkipList.UnsplicedPath` | internal/matching/book/skiplist.go:173-192 | a linked chain is any one of its nodes threaded through the others |
| `Walk.MatchNext` | internal/matching/book/orderbook.go:165-195 | one more trade, at the maker's price, between the two users, within the limit, for the smaller remainder; the walk stays in step with the specification and the FOK journal complete |
| `Walk.MatchLevel` | internal/matching/book/orderbook.go:152-199 | sorting and matching one price level is the specification over that stretch of the flat list |
| `Walk.WalkAsks` | internal/matching/book/orderbook.go:149-203 | the walk over the asks is greedy matching over the whole flat list, with all three exits |
| `Walk.WalkBids` | internal/matching/book/orderbook.go:204-256 | the same for the bids, through the header sentinel |
| `Walk.GreedySkip` | internal/matching/book/orderbook.go:158-172 | orders the walk skips change nothing in the specification |
| `Walk.Rollback` | internal/matching/book/orderbook.go:258-266 | undoing the journal restores every order of the list |
| `OrderBooks.OrderBook.AddOrder` | internal/matching/book/orderbook.go:135-295 | index, level map and lists stay in agreement; book, order, trades and verdict are those of `Submit`, and `Settles` says in prices, quantities, IDs and statuses what they are |
| `OrderBooks.OrderBook.Match` | internal/matching/book/orderbook.go:148-256 | only the opposite side's orders and the taker change, as `Greedy` says |
| `OrderBooks.OrderBook.Reject` | internal/matching/book/orderbook.go:258-269 | the book is as before the call; the taker is rejected |
| `OrderBooks.OrderBook.AddToBook` | internal/matching/book/orderbook.go:298-351 | the order enters its flat list before the first worse price, and its level and key |
| `OrderBooks.OrderBook.NewLevel` | internal/matching/book/orderbook.go:309-323 | a level is only ever created under a key neither index has, so none is overwritten |
| `OrderBooks.OrderBook.CleanupOrders` | internal/matching/book/orderbook.go:364-413 | exactly the active orders stay, in order, and the index follows |
| `OrderBooks.OrderBook.RemoveFromLevel` | internal/matching/book/orderbook.go:354-361 | the order leaves its level; level and key go iff it was alone |
| `OrderBooks.OrderBook.CancelOrder` | internal/matching/book/orderbook.go:456-505 | true iff an order of that ID rests; it is marked and gone, and all others stay as they are |
| `OrderBooks.OrderBook.GetBestBid` | internal/matching/book/orderbook.go:508-519 | the price of the first order of the flat list, 0 if none |
| `OrderBooks.OrderBook.GetBestAsk` | internal/matching/book/orderbook.go:522-533 | the price of the first order of the flat list, 0 if none |
| `OrderBooks.OrderBook.ListsAreLevels` | internal/matching/book/orderbook.go:106-115 | keys are exactly the live level prices, and each flat list is its levels joined in priority order |
| `OrderBooks.OrderBook.PriceIsNew` | internal/matching/book/orderbook.go:300-323 | what cannot match rests at a price the other index does not hold: the uncrossed book keeps the shared map sound |
| `OrderBooks.OrderBook.BatchAddOrders` | internal/matching/book/orderbook.go:566-625 | the restored book holds exactly the given orders, in priority, fully indexed |
| `Batch.BatchIsOneByOne` | internal/matching/book/orderbook.go:557-625 | sorting once gives the book that resting the orders one by one in time order gives |
| `Sorting.SortedIsUnique` | internal/matching/book/orderbook.go:155-157 | with distinct keys an unstable sort has one result |
| `MatchingLaws.SubmitWf` | internal/matching/book/orderbook.go:135-295 | a submission keeps the book uncrossed, in priority, live and with distinct IDs |
| `MatchingLaws.CancelWf` | internal/matching/book/orderbook.go:456-505 | so does a cancellation |
| `MatchingLaws.Restable` | internal/matching/book/orderbook.go:288-292 | what is left of a limit order is live and matches nothing that stayed |
| `Terms.SubmitIsTheOne` | internal/matching/book/orderbook.go:135-351 | trades, both sides of the book, the order's fields and the verdict, in prices, quantities, IDs and statuses alone: the one outcome these terms allow is that of `Submit` |
| `Terms.GreedyIsFair` | internal/matching/book/orderbook.go:149-256 | a buyer pays no more than its price and a seller takes no less, each trade is at the resting price between the right users, and matching stops only at an order strictly beyond the limit |
| `Terms.FairIsUnique` | internal/matching/book/orderbook.go:149-256 | these terms leave one list of trades |
| `Terms.GreedyRemains` | internal/matching/book/orderbook.go:180-195 | the makers traded with are gone, but the last if something of it is left, and the others are untouched |
| `Terms.CancelWithdraws` | internal/matching/book/orderbook.go:456-505 | a cancellation is true iff the ID rests, and leaves exactly the others, in order |
| `Terms.WfIsSorted` | internal/matching/book/orderbook.go:106-115 | asks ascend, bids descend, older orders come first at one price, and the best bid is below the best ask |
| `Priority.GreedyIsPriceTime` | internal/matching/book/orderbook.go:149-256 | trades take a prefix of the priority order, each maker whole but the last, at its price, not beyond the limit, and stop only when they must |
| `Priority.GreedyFills` | internal/matching/book/orderbook.go:180-195 | the taker gets the smaller of its remainder and what is resting within its limit |
| `Priority.FillOrKill` | internal/matching/book/orderbook.go:139-146 | FOK succeeds iff enough is resting within its limit, and then trades all of it; otherwise no trade and no change |
| `Priority.RejectedKeepsFill` | internal/matching/book/orderbook.go:258-269 | a rejected order's own fill is all that was matchable, so 0 iff nothing was |
| `Priority.RejectedFokIsMarked` | internal/matching/book/orderbook.go:258-269 | a rejected order that says 3 are filled, beside a book that is as it was |
| `Priority.OtherTypes` | internal/matching/book/orderbook.go:274-292 | market and IOC never rest and record the unfilled rest; limit rests exactly its remainder |
| `Priority.CancelExact` | internal/matching/book/orderbook.go:456-505 | true iff the ID rests, and exactly that order is gone |
| `Priority.RestThenCancel` | internal/matching/book/orderbook.go:298-351 | resting an unmatched fresh order and cancelling it restores the book |
| `Conservation.RunBalanced` | internal/matching/book/orderbook.go:50-58 | over every run, filled + remaining = quantity, each fill is the sum of the order's trades, and buy fills equal sell fills |
| `Conservation.PlaceBalanced` | internal/matching/book/orderbook.go:180-194 | one submission keeps all of that |
| `Framing.GetPut` | internal/matching/wal/wal.go:285-289 | big-endian reading undoes writing |
| `Framing.FrameLayout` | internal/matching/wal/wal.go:285-289 | which byte of a record holds what |
| `Framing.ScanStops` | internal/matching/wal/wal.go:227-241 | scanning stops at an unknown type and before a record that is not all there |
| `Framing.ScanFrames` | internal/matching/wal/wal.go:204-246 | scanning any framed records and any proper prefix of one more yields exactly the records, and stops at their end |
| `Framing.ReadLastLsn` | internal/matching/wal/wal.go:204-246 | the loop computes that scan's last LSN, 0 if it finds none, and terminates |
| `Framing.CrashKeepsPrefix` | internal/matching/wal/wal.go:291-322 | any prefix that includes the synced bytes scans to a prefix of the records that includes the synced ones |
| `WalReads.LooseFrames` | internal/matching/wal/wal.go:391-425 | on complete records the plain reads yield the records |
| `TornTails.TornIsRead` | internal/matching/wal/wal.go:391-425 | what the plain reads make of a record torn after any n bytes: nothing exactly when `Vanishes` holds, else one record with zeros for what is missing |
| `TornTails.TornIsKept` | internal/matching/wal/wal.go:565-589 | truncation keeps that record, whole, exactly when it exists and its LSN as far as written passes the bound |
| `Wals.TornIsDelivered` | internal/matching/wal/wal.go:391-470 | replay delivers it exactly when `Haunts` holds: it exists, its LSN passes, and the zero-filled payload decodes |
| `TornTails.NextIsFound` | internal/matching/wal/wal.go:129-170 | a record appended behind a torn one is read again, by the scan and by replay, iff nothing is left of the torn one |
| `TornTails.AppendBehindTear` | internal/matching/wal/wal.go:204-246 | what the scan finds behind a tear at any byte: nothing more, or the merged record and then what begins where it ends; if that is a boundary, all later ones |
| `TornTails.LooseBehindTear` | internal/matching/wal/wal.go:391-425 | what replay and truncation read there: the merged record, padded if it reaches past the end (none when nothing of its payload is there), and then what begins where it ends; if that is a boundary, all later ones |
| `TornTails.LaterIsFound` | internal/matching/wal/wal.go:204-246 | which of the appended records the scan finds: none the merged record reaches into; when it ends where the i-th begins, exactly the i-th and later |
| `TornTails.LaterIsRead` | internal/matching/wal/wal.go:391-425 | the same for the plain reads |
| `Wals.Wal.Append` | internal/matching/wal/wal.go:249-331 | the record joins the file under the next LSN; exactly when each mode asks for it everything is synced, and otherwise nothing is |
| `Wals.Wal.constructor` | internal/matching/wal/wal.go:129-170 | opening a log, torn or whole, sets the counter to the last complete record's LSN, leaves the tail in place and keeps every invariant |
| `Wals.Wal.Close` | internal/matching/wal/wal.go:339-377 | the log stays as it is, synced unless syncing is off |
| `Wals.Wal.Replay` | internal/matching/wal/wal.go:380-470 | delivers, in order, exactly the records past the LSN among those the reads yield whose type is unknown or whose payload decodes |
| `Wals.Wal.Truncate` | internal/matching/wal/wal.go:549-624 | keeps exactly what the plain reads find past the LSN, all synced; of a whole log its records, byte for byte; the counter is the last one kept, or 0 |
| `Wals.Wal.ReplayAfterTruncate` | internal/matching/wal/wal.go:380-412 | replaying past an LSN delivers the same just before and just after truncating there |
| `Wals.Wal.CrashLoss` | internal/matching/wal/wal.go:189-201 | at most N - 1 acknowledged records of a whole log are lost syncing every N, none syncing always, and syncing by time only such as were appended less than one interval after the last sync; what survives is a prefix |
| `Wals.Wal.CrashInTruncate` | internal/matching/wal/wal.go:591-612 | a crash inside a truncation keeps all of its records iff all of its bytes were written, whatever the sync mode |
| `Recovery.TradesAreNoOps` | internal/matching/engine/engine.go:938-940 | trade entries may stand anywhere in the log |
| `Recovery.SubmitNatural` | internal/matching/book/orderbook.go:135-295 | renaming IDs and timestamps commutes with a submission: book, taker, trades and verdict |
| `Recovery.ExecuteStamps` | internal/matching/engine/actor.go:58-111 | executing a command puts no stamp on the book but its own |
| `Recovery.ReplaysAlike` | internal/matching/engine/engine.go:897-954 | the same commands under two clocks give books equal up to an order-preserving renaming, and are executable under both or neither |
| `Recovery.ReplaySplit` | internal/matching/engine/engine.go:897-954 | replaying a log is replaying its first part and then the rest under the clock as it then stands |
| `Losses.ExecuteHarmless` | internal/matching/engine/engine.go:427-433 | executing a command leaves the book as it is, exactly or up to stamps, iff it is a FOK order with too little to match, a market or IOC order with nothing, or cancels an ID that does not rest |
| `Losses.SubmitTrace` | internal/matching/book/orderbook.go:135-295 | an order that is none of these changes the resting orders themselves, beyond their stamps |
| `Sessions.ServeCoherent` | internal/matching/engine/engine.go:445-596 | every request keeps the book the log replayed, except a lost command that would have changed the book, which breaks it |
| `Sessions.ServeAllCoherent` | internal/matching/engine/engine.go:445-596 | over every run, the book was at every moment since the last snapshot the log replayed on the book at that snapshot, iff no command was lost that would have changed it |
| `Sessions.LossIsReplayed` | internal/matching/engine/engine.go:859-954 | once a command is lost, replay gives the live orders iff it was harmless |
| `Sessions.ReplayIsLive` | internal/matching/engine/engine.go:859-954 | replaying the log, trades anywhere in it, gives the live book up to later stamps, in every run that lost nothing that matters |
| `Sessions.ReplayFromEmpty` | internal/matching/engine/engine.go:897-954 | without a snapshot the empty book and the whole log are enough |
| `Snapshots.RestoreOfTake` | internal/matching/snapshot/snapshot.go:41-105 | restoring gives the 10 best orders of each side, so the whole book iff there are no more |
| `Snapshots.EleventhOrderIsLost` | internal/matching/snapshot/snapshot.go:42 | a well-formed book with 11 orders on a side comes back with 10 |
| `Snapshots.SnapshotRecovers` | internal/matching/engine/engine.go:859-954 | when every later LSN exceeds the snapshot's, recovery finds exactly what came after it, can execute it, and rebuilds the live book |
| `Snapshots.SnapshotSkips` | internal/matching/wal/wal.go:597-624 | after the counter restarted, replay misses exactly the first E entries |
| `Snapshots.SnapshotLosesAnOrder` | test/integration/wal_snapshot_sync_test.go:403-466 | the test's run, through snapshot, log bytes and replay: three orders rest, two are recovered |
| `Engine.HandleCommand` | internal/matching/engine/actor.go:58-94 | the book, trades and order are what the terms of an order with the command's own fields leave |
| `Engine.Restore` | internal/matching/snapshot/snapshot.go:220-245 | the empty book becomes the saved one |
| `Engine.ExecuteLog` | internal/matching/engine/engine.go:897-943 | the replay loop computes `Replay` |
| `Engine.Recover` | internal/matching/engine/engine.go:859-954 | a new book: the snapshot, then every entry the log delivers past its LSN |
| `Symbols.Symbol.SubmitOrder` | internal/matching/engine/engine.go:446-534 | logged, then executed: one step of the session, on a real book and log |
| `Symbols.Symbol.CancelOrder` | internal/matching/engine/engine.go:537-596 | refused and unlogged without an actor, else logged and executed |
| `Symbols.Symbol.LoseCommand` | internal/matching/engine/engine.go:427-433 | logged and not executed; the log stays replayable iff the command was harmless |
| `Symbols.Symbol.TakeSnapshot` | internal/matching/engine/engine.go:982-1021 | the snapshot is the book's top at the counter's LSN; a whole log is emptied and the counter restarts; of a torn one what the plain reads find past the LSN stays |
| `Symbols.Symbol.RunIsReplayable` | internal/matching/engine/engine.go:445-596 | after a run without a snapshot, the book is the whole log replayed, and always was, iff the run lost no command that matters |
| `Symbols.Symbol.RecoverIsLive` | internal/matching/engine/engine.go:859-954 | from the first m records of a whole log, recovery can run and gives the live book after those m entries |
| `Symbols.Symbol.RecoverAfterLoss` | internal/matching/engine/engine.go:859-954 | recovery executes the command lost last, and gives the live orders iff that was harmless |
| `Symbols.Symbol.Restarted` | internal/matching/engine/engine.go:859-954 | what a restart, with or without a snapshot, makes of a log, torn or whole, is live: its base the snapshot, its book what the log's reads past it replay to; of a whole log exactly the entries numbered after the snapshot, so runs, crashes between records and restarts compose |
| `Symbols.Symbol.FirstLoggedIsFound` | internal/matching/wal/wal.go:129-170 | after a restart, what is logged first is read again iff no record was torn: behind a torn one restarts do not compose |
| `Symbols.Symbol.CrashRecovers` | internal/matching/wal/wal.go:291-322 | after a crash at any byte that keeps what was synced at most N - 1 entries are lost, or, syncing by time, those logged within one interval of the last sync, and recovery finds exactly the others iff the torn record does not haunt it; then it rebuilds the live book after them |
| `Symbols.Symbol.TornDelivers` | internal/matching/wal/wal.go:391-470 | behind whole records, n bytes of one more add one entry to what recovery finds iff `Haunts` holds |
| `Symbols.Symbol.RecoverAfterSnapshot` | internal/matching/engine/engine.go:982-1021 | after a snapshot, or a restart from one, recovery finds exactly what is numbered past its LSN: all that was logged since, iff the LSN lies within what the restart skipped or nothing was logged |
| `Symbols.Symbol.RecoverFrom` | internal/matching/engine/engine.go:859-954 | then recovery from any snapshot that restores to the base can run and rebuilds the live book, so restarts from a snapshot compose |
| `Symbols.Symbol.SnapshotThenRecover` | internal/matching/engine/engine.go:859-954 | in particular from the snapshot just taken, with at most 10 orders a side |
| `Symbols.Symbol.SnapshotBeforeTruncation` | internal/matching/engine/engine.go:1003-1018 | if a crash came between saving and truncating, recovery skips exactly what the snapshot holds and rebuilds the live book |
| `Actors.ActorIsSound` | internal/matching/engine/actor.go:39-120 | whatever callers log, send or give up, each queue runs in the order it was entered, each command is executed and answered on the book the earlier ones left, and no answer is dropped; and, if the orders are fresh, a cancellation is answered true iff its order rested, and an order with what the terms of its submission leave |
| `Actors.ExecutesWhatWasIssued` | internal/matching/engine/engine.go:446-459 | whatever waits or ran was issued by some caller, with its channel, and orders carry the ID they were issued under |
| `Actors.QueuesAreBounded` | internal/matching/engine/engine.go:385-391 | no queue holds more than 1000 commands |
| `Actors.SendsUnlessFull` | internal/matching/engine/engine.go:427-433 | a send goes through iff its queue holds fewer than 1000, and, for an order, the actor runs |
| `Isolation.EveryActorIsSound` | internal/matching/engine/engine.go:375-443 | so it is for every symbol of the whole system |
| `Isolation.SymbolsAreIsolated` | internal/matching/engine/engine.go:446-487 | however all symbols' steps interleave over the shared ID counter, each symbol's book, queues, answers and log are those of its own steps alone, up to an order-preserving renaming of IDs |
| `Isolation.StepRenamed` | internal/matching/engine/actor.go:39-120 | one step of an actor commutes with renaming IDs |
| `LogOrder.AgreesIffFollows` | internal/matching/engine/actor.go:39-56 | however the select drains the queues the log is what was executed and what is yet to be sent, iff the log now is what was executed, then what is queued, in one queue only, then what is yet to be sent |
| `LogOrder.StepFollows` | internal/matching/engine/engine.go:427-433 | the step law: logging, opening, taking and receiving keep the log in step, giving up never does, and sending does iff the other queue is empty and everything logged earlier and unsent is the same command |
| `LogOrder.LogAgreesIffOrderly` | internal/matching/engine/engine.go:461-579 | at every moment of a run the log is sure to agree with execution, iff no logged command was given up and each entered its queue in that way |
| `LogOrder.OrderlyLogIsBook` | internal/matching/engine/engine.go:461-579 | in such runs the book is always what the part of the log that was executed replays to, and the whole log once nothing is pending |
| `LogOrder.RacingCancelDiverges` | internal/matching/engine/actor.go:39-56 | a cancellation taken before the order it follows: the order rests live and not after recovery |
| `LogOrder.GivenUpIsReplayed` | internal/matching/engine/engine.go:427-433 | one caller, one order, given up: it rests after recovery and not live |
| `LogOrder.OvertakenLosesPriority` | internal/matching/engine/engine.go:461-487 | two orders logged in one order and sent in the other: their time priority differs after recovery |
| `RateLimits.RedisRateLimiter.Check` | internal/gateway/middleware/ratelimit_redis.go:64-145 | the script decides as a counter of the current fixed window does |
| `RateLimits.RedisRateLimiter.NothingExpires` | internal/gateway/middleware/ratelimit_redis.go:72-85 | within its own window a key loses nothing, to the script or to its time to live |
| `RateLimits.TwiceTheMaximum` | internal/gateway/middleware/ratelimit_redis.go:147-155 | any stretch of one window's length admits at most twice the maximum |
| `RateLimits.SlidesWithinOneWindow` | internal/gateway/middleware/ratelimit_redis.go:64-90 | a stretch can exceed the maximum iff it crosses a window boundary, and then reaches twice it |
| `RateLimits.WindowIs` | internal/gateway/middleware/ratelimit_redis.go:152-155 | a window starts at a multiple of its length and contains the time |
| `RateLimits.RetryIsNextWindow` | internal/gateway/middleware/ratelimit_redis.go:157-162 | RetryAfter is in 1..window, leads to the next window, and nothing less does |
| `RateLimits.RedisRateLimiter.RetryFindsRoom` | internal/gateway/middleware/ratelimit_redis.go:157-162 | whoever waits that long finds the counter at exactly what was admitted meanwhile in the next window: nothing older counts |
| `RateLimits.RedisRateLimiter.AdmitsAtMostTwice` | internal/gateway/middleware/ratelimit_redis.go:112-145 | the bound, for the history of any scope and identity |
| `Outbox.CalculateNextRetry` | internal/order/outbox/outbox.go:224-245 | within a quarter of min(base * 2^k, 5 min), with no overflow on the way |
| `Outbox.BackoffDoubles` | internal/order/outbox/outbox.go:226-236 | the backoff starts at the base delay, doubles, and is never more than 5 minutes |
| `Outbox.Worker.ProcessEntry` | internal/order/outbox/outbox.go:369-432 | the entry's next state in every case; a dead letter iff this was the maxRetries-th failure |
| `Outbox.Worker.RecoverStaleProcessing` | internal/order/outbox/outbox.go:347-367 | a pending or processing entry older than the timeout becomes pending iff fewer than 100 such are older, and nothing else changes |
| `Outbox.CrashedIsRetried` | internal/order/outbox/outbox.go:324-367 | over a run of polls far enough apart and not cut short, an entry a crash left processing is attempted again within maxRetries * (older entries) / 100 + 1 polls, whatever its handler and the others' do |
| `Outbox.PollSpends` | internal/order/outbox/outbox.go:324-345 | every poll uses up a failure, or all, of each older entry in its batch |
| `Outbox.Worker.GetPendingReady` | internal/order/outbox/outbox.go:161-172 | only pending entries whose retry time is unset or past, oldest first; one that is left out has 100 older ones before it |
| `Outbox.Worker.ProcessEntries` | internal/order/outbox/outbox.go:324-345 | which entries a poll attempts; each attempt settles its entry or uses up a failure, a crash leaves one processing, stopping leaves the rest, and nothing else changes but what was stale; settled entries never. Over all polls a handler is called at most max(1, maxRetries) times, and once more for every crash that hit its entry; no handler is called before its entry's retry is due, and a failure puts that off by the backoff |

## Left out

- Trade IDs, the trades' own timestamps and their symbol; `GetOrderByID`, `GetSpread`, `GetTotalOrders`.
- The order book's lock, which `AddOrder` and `CancelOrder` do not take, and with it readers that run beside the actor.
- Concurrent appenders of one log, which take the LSN before the lock (internal/matching/wal/wal.go:259, 291), and snapshots taken while commands are in flight.
- `OrderBooks.OrderBook.AddOrder`: asks for an ID that does not rest, a later timestamp and a limit price other than 0, which the code accepts otherwise, because removal is by ID, ties leave the sort's result open, and the header's key is 0.
- `OrderBooks.OrderBook.BatchAddOrders`: for an empty book, which is how recovery calls it.
- `Engine.Recover`: asks that the log it replays be executable in the sense of `AddOrder`; a log a snapshot made it skip a part of need not be, when an ID is used again.
- `WalReads.LooseFrames`: reads that return less than asked for before the end of the file are not modelled.
- `Wals.Wal.Replay`: likewise.
- `Wals.Wal.Truncate`: likewise; and a log opened with a torn tail need not satisfy the invariant afterwards, when what the reads found is out of order or of an unknown type.
- `Wals.Wal.constructor`: a file with records behind an earlier tear is not opened as one; `TornTails.AppendBehindTear` and `TornTails.LooseBehindTear` say what would be read from it.
- `TornTails.AppendBehindTear`: when the merged record ends inside a later one, what is read from there depends on payload bytes, and is only named, not computed; likewise `TornTails.LooseBehindTear`.
- `Symbols.Symbol.Restarted`: asks, like `Engine.Recover`, that what it replays be executable.
- `Symbols.Symbol.SubmitOrder`: does not model a failed append, because the command is then answered with an error and goes no further.
- `Symbols.Symbol.TakeSnapshot`: does not model a failed save or truncation.
- Actors: taking an ID from the counter and logging the command are one step, handlers do not panic, and the engine is not stopped.
- A log that cannot be opened, for which the engine executes commands unlogged (internal/matching/engine/engine.go:462-463).
- Trade entries in `LogOrder`, which replay ignores wherever they stand (`Recovery.TradesAreNoOps`).
- Real files: creation, rename, directory syncs, the `.latest` link and the mapping between symbols and file names. A file is a byte sequence with a count of records known to be synced.
- Errors of the file system while replaying or truncating, other than reading to the end.
- The probability distribution of skip-list heights, and complexity.
- The iterator of the skip list (internal/matching/book/skiplist.go:247-265), which no one uses.
- Each limiter policy's choice of scope and identity, the circuit breaker around the limiter, and two policies that share scope, identity and window start under one key.
- `RateLimits.RedisRateLimiter.Check`: takes one time for the key and the score, where the code reads the clock twice.
- Outbox success callbacks, which create a new entry when they fail (internal/order/outbox/outbox.go:447-475), database errors, and the per-entry `MaxRetries` field, which the worker does not read.
- Saga status transitions, balance arithmetic of the order and user services, cursors, the worker pool, gateways, metrics and configuration.

# Attesta: verified models of its derived structures

Attesta indexes a shielded pool's on-chain events and serves Merkle paths,
root history, encrypted notes and a credential mailbox from them. Everything
it serves is derived from a simple ground truth, an append-only event log and
insert-only tables, and has to agree with that truth under concurrency,
crashes and replays. This project models those derived structures and proves
the agreement. Verify it with `dafny verify dfyconfig.toml`.

- **Merkle tree** (`Merkle.dfy`, `MerkleTree.dfy`). The cached incremental
  tree and the naive rebuild are both proved equal to one specification, the
  roots of padded windows of leaves. The hash is an arbitrary function; binding
  results hand out an explicit pair of colliding inputs instead of assuming
  that there are none. The code checks no capacity and neither does the model:
  every invariant holds at every size, and what an append does to the root past
  2^depth leaves is stated exactly.
- **Pool tree and root history** (`PoolTree.dfy`, `TreeHistory.dfy`,
  `RootLookup.dfy`). A replica's in-memory mirror of the `commitments` table,
  its top-up over gaps and corrupt rows, and the `tree_roots` history that any
  number of replicas write while they crash, restart and lose batches. On top
  of it, `at_ledger`, `at_leaf_count` and the disclosure report check.
- **Note relay** (`NoteTable.dfy`, `NoteRelay.dfy`, `NoteFanout.dfy`,
  `NoteStream.dfy`, `NoteReconnect.dfy`). One cursor query, the fan-out, the bounded broadcast ring and
  a resumable stream, as a state machine over every interleaving; the fan-out's
  drain loop and the stream's closure are classes proved to be its steps. Streams do not influence
  one another, so one arbitrary stream is followed.
- **Limits** (`TokenBucket.dfy`, `SseSlots.dfy`). The bucket map is proved equal
  to a specification that only looks at the log of all calls. The slot
  accounting is a state machine over its atomic steps.
- **Ingest** (`IngestSpec.dfy`, `Ingest.dfy`, `ChainTree.dfy`). The indexer's pass
  with a failure possible before every statement, against folds over the event
  log; and, end to end, the served root as the root of the chain's commitments.
- **Mailbox and paging** (`Mailbox.dfy`, `Retention.dfy`, `Paging.dfy`). Quota,
  claims and sweeper interleaved statement by statement; the cursor pages and
  the clients that walk them.

Every SQL statement is one atomic step. Clocks, randomness, crashes and the
scheduler are arbitrary choices of the model.

Assumptions: one writer makes note rows visible in id order; the database clock
and the ledgers of the event log do not run backwards; an RPC page is a run of
the log, and a non-empty page carries a cursor.

Where the code and its own words disagree, the model follows the code:

- The ingest header (`crates/attesta-indexer/src/ingest.rs:1-3`) calls every
  replay safe. First-wins and last-wins tables do converge, but notes
  (lines 188-200) and totals (lines 233-255) have no conflict guard. A good pass
  leaves exact notes if and only if they were exact and the log holds no note
  between the persisted position and the furthest event worked on, and likewise
  for the totals (`PollOnce`, `TotalStaysExactIff`); so a run without failures
  keeps everything exact (`Poll`). `ReplayDuplicates` is a replay that does not.
- A resumed note stream is described as having no gaps
  (`crates/attesta-api/src/routes/notes.rs:84-89`). A stream that subscribes
  before the fan-out has read its starting id (line 211) can miss notes without
  a `resync`; `EarlyStreamIsExactIffWindowEmpty` says exactly when it does, and
  `StartupWindowLosesNote` is a run in which it does.
- Root history is described as one row per leaf (`migrations/0002_tree_roots.sql:1-5`).
  The tree grows before the history is inserted, so a lost batch can leave a
  hole (`LostBatchMakesHole`). `RecordIsExact` says which rows are on record after
  any run, and `SyncRecordsExactly` which ones a sync adds: those beyond the
  replica's own mirror. A hole is filled by any replica whose mirror is still
  short of it, in particular by a fresh one (`FreshSyncHeals`), and not by the
  replica that lost it until it restarts. Historical lookups answer over holes
  with the nearest smaller size on record (`AtLedgerIsExact`).
- A report verifies later (`crates/attesta-disclosure/src/main.rs:152-157`)
  if the size its ledger asks for is on record and no further leaf, other than
  the empty one, lands within capacity at the report's own ledger; otherwise it
  need not. `ReportVerifiesIff` is exact for every answer; `LedgerContinued` is a
  report that a further leaf fails, `HoleMisleadsReport` one that fails although
  nothing followed it, because a replica serves its live root over a size whose
  history row it has lost (`LostBatchHidesServedSize` is a run to such a state).
- The time of a call is taken before the bucket lock, so `now` can run backwards
  (`crates/attesta-api/src/limits.rs:63-91`). The map stays what the calls
  prescribe if and only if every call comes in good time: not before the last
  call in its bucket and, if it has no bucket, when the address is full again
  (`CallIsExactIff`, `RunIsExactIff`); every decision is then right. Calls that
  are neither before their address's previous call nor before a cleanup that has
  dropped its bucket since are in good time (`ServedRunIsLawful`). The rate is
  violated by calls of one address out of order (`BackwardClockRefillsTwice`),
  and also by calls in order for each address, when another address's later time
  makes the cleanup drop a bucket too early (`CleanupForgetsTooEarly`).
- The global stream cap (`crates/attesta-api/src/limits.rs:116-127`) is checked
  before it is taken. It is overshot by up to the number of concurrent
  acquirers less one, and that bound is attained (`GlobalBoundIsTight`). The
  hourly delivery quota has the same shape and the same bound, also attained
  (`HourlyBoundIsTight`).

## Model

| member | source | states |
|---|---|---|
| Halving.WidthIsCeiling | crates/attesta-core/src/merkle.rs:53-61 | a level d above n leaves has exactly ceil(n / 2^d) populated nodes |
| Halving.WidthAfterAppend | crates/attesta-core/src/merkle.rs:91-108 | the ancestor of an appended leaf is the last node of its level, pushed or overwritten |
| MerkleSpec.BeyondWidthIsZero | crates/attesta-core/src/merkle.rs:53-60 | the nodes that are never materialized are roots of empty subtrees |
| MerkleSpec.AppendLocality | crates/attesta-core/src/merkle.rs:87-110 | an append changes no window other than those above the new leaf |
| MerkleSpec.AppendPastCapacityKeepsRoot | crates/attesta-core/src/merkle.rs:101-125 | from 2^depth leaves on, appends no longer reach the root |
| MerkleSpec.AppendChangesRootIffRoom | crates/attesta-core/src/merkle.rs:256-296 | a non-empty leaf changes the root if and only if the tree had room, or the two trees exhibit a hash collision |
| MerkleSpec.GrowthChangesRoot | crates/attesta-core/src/merkle.rs:256-296 | growing by any number of leaves, the first not the empty leaf, changes the root or yields a collision |
| MerkleSpec.PathLeadsToRoot | crates/attesta-core/src/merkle.rs:127-146 | a served path leads from its leaf to the root of the window above it and its direction bits spell the leaf's index |
| MerkleSpec.PathBinding | crates/attesta-core/src/merkle.rs:148-160 | whatever path is accepted, the leaf is the tree's own padded leaf at the spelled position, or the path and the tree contain two different hash inputs with one output |
| MerkleSpec.RootBinding | crates/attesta-core/src/merkle.rs:120-125 | trees with one root agree on every padded leaf below it, or exhibit a collision |
| MerkleSpec.SameLeavesSameRoot | crates/attesta-core/src/merkle.rs:53-60 | trees that agree on every padded leaf within capacity have one root |
| MerkleTrees.NodeOrIsSubtreeRoot | crates/attesta-core/src/merkle.rs:95-98 | a cached node, or the empty default beyond the populated region, is the root of its padded window |
| MerkleTrees.ParentLevelRepaired | crates/attesta-core/src/merkle.rs:92-108 | writing one ancestor makes the whole next level correct again |
| MerkleTrees.MerkleTree.constructor | crates/attesta-core/src/merkle.rs:64-76 | the new tree is valid and empty |
| MerkleTrees.MerkleTree.FromLeaves | crates/attesta-core/src/merkle.rs:78-84 | building from leaves gives a valid tree over exactly them |
| MerkleTrees.MerkleTree.Append | crates/attesta-core/src/merkle.rs:86-110 | at every size: every cached level is the row of window roots of the old leaves plus the new one, and the old length is returned |
| MerkleTrees.MerkleTree.GetRoot | crates/attesta-core/src/merkle.rs:120-125 | the cached root is the root of the padded tree over the leaves, empty and over-full trees included |
| MerkleTrees.MerkleTree.GetPath | crates/attesta-core/src/merkle.rs:127-146 | no path if and only if there is no such leaf; otherwise the specified path |
| MerkleTrees.MerkleTree.VerifyPath | crates/attesta-core/src/merkle.rs:148-160 | accepts if and only if the path leads from the leaf to the given root |
| MerkleTrees.NaiveRoot | crates/attesta-core/src/merkle.rs:173-199 | the level-by-level rebuild computes the root of the padded tree, for any leaves and any height above 0 |
| MerkleTrees.AppendThenCompare | crates/attesta-core/src/merkle.rs:207-216 | cached tree and rebuild agree after every append to any tree |
| Commitments.TopUpReachesGap | crates/attesta-api/src/routes/tree.rs:191-228 | a top-up only appends, stays a mirror of the table, and ends exactly before the first missing leaf or at a corrupt row |
| Commitments.TopUpFromScratch | crates/attesta-api/src/routes/tree.rs:191-228 | topping up any older mirror gives the tree built from scratch now, gaps filled later included |
| Commitments.MirrorsAgree | crates/attesta-api/src/state.rs:44-51 | of two mirrors of one table the smaller is a prefix of the larger |
| Commitments.RootRowIsUnique | migrations/0002_tree_roots.sql:1-14 | a table justifies at most one history row per leaf count |
| Commitments.RootRowSurvivesGrowth | migrations/0002_tree_roots.sql:1-5 | a history row once true stays true under any later inserts |
| PoolTrees.PoolTree.constructor | crates/attesta-api/src/state.rs:53-61 | a new mirror is valid, empty and anchored at ledger 0 |
| PoolTrees.PoolTree.AbsorbRow | crates/attesta-api/src/routes/tree.rs:217-227 | one row grows tree, index map and anchor together and yields a true history row |
| PoolTrees.PoolTree.Absorb | crates/attesta-api/src/routes/tree.rs:191-228 | for any query answer the mirror ends where the specified top-up ends, fails exactly at a corrupt row, and the pending batch has one true row per new leaf |
| PoolTrees.PoolTree.LookupPath | crates/attesta-api/src/routes/tree.rs:57-90 | 404 if and only if the commitment is no leaf; otherwise its position, the current root, and a path that verifies against it for every leaf within capacity |
| PoolTrees.PoolTree.IndexIsExactInverse | crates/attesta-api/src/state.rs:44-51 | under the table's unique commitments the index map is the exact inverse of the leaf list |
| PoolTrees.PoolTree.PathVerifiesIffWithinCapacity | crates/attesta-api/src/routes/tree.rs:62-89 | given unique commitments, a served path verifies against the root if and only if its leaf is within capacity, or a collision is exhibited |
| TreeHistory.RunKeepsInv | crates/attesta-api/src/routes/tree.rs:183-247 | all history invariants hold after any actions of any replicas and the indexer |
| TreeHistory.HistoryNeverLies | crates/attesta-api/src/routes/tree.rs:230-247 | in every run each row (n, root, ledger) is the root of the first n table leaves and leaf n-1's ledger, and every replica mirrors the table |
| TreeHistory.RunOnlyAdds | migrations/0002_tree_roots.sql:1-14 | no run changes or removes a recorded row |
| TreeHistory.ReplicasAgree | crates/attesta-api/src/routes/tree.rs:230-247 | mirrors of different replicas are prefixes of each other, and pending and recorded rows for one leaf count are equal |
| TreeHistory.RowsNotLostAreRecorded | crates/attesta-api/src/routes/tree.rs:183-247 | every row up to a replica's size that it has not pending and did not lose itself is on record |
| TreeHistory.RecordIsExact | crates/attesta-api/src/routes/tree.rs:183-247 | after any run since a replica restarted, a row is on record if and only if it was before, another replica inserted it, or the replica grew through its size and neither lost it nor has it pending |
| TreeHistory.FreshSyncHeals | crates/attesta-api/src/routes/tree.rs:183-247 | from any reachable state a restart and one successful sync, interleaved with anything, put rows 1..len of the gap-free prefix on record with their true values |
| TreeHistory.HealedHistoryAnswersExactly | crates/attesta-api/src/routes/tree.rs:119-167 | after such a sync, whatever arrived meanwhile, every ledger with no more leaves than the sync saw is answered with exactly its leaves; later ones with at least what the sync saw |
| TreeHistory.SyncRecordsExactly | crates/attesta-api/src/routes/tree.rs:191-247 | a sync interleaved with anything adds exactly the rows beyond the replica's mirror up to the gap-free prefix it queried, and none if it meets a corrupt row |
| TreeHistory.SyncAlone | crates/attesta-api/src/routes/tree.rs:191-247 | left alone, a sync changes the record by exactly those rows, so a hole below the mirror stays |
| TreeHistory.LostBatchMakesHole | crates/attesta-api/src/routes/tree.rs:220-247 | a lost batch leaves the mirror ahead of the history |
| TreeHistory.LostBatchHidesServedSize | crates/attesta-api/src/routes/tree.rs:191-247 | a run after which a replica serves two leaves while the history holds the row of one |
| TreeHistory.AbsorbedRowsAreGrownRows | crates/attesta-api/src/routes/tree.rs:223-227 | the batch the cached tree hands over is the batch of the replica model |
| RootLookup.CountedLeavesAreAPrefix | crates/attesta-api/src/routes/tree.rs:134-143 | in ledger order the leaves observed by a ledger are the first ones |
| RootLookup.AtLedgerIsExact | crates/attesta-api/src/routes/tree.rs:134-143 | over any truthful history, at_ledger=L answers with the largest recorded size among the c leaves of ledger at most L and its true root; with c itself if and only if c is on record |
| RootLookup.AtLeafCountIsExact | crates/attesta-api/src/routes/tree.rs:144-154 | over any truthful history, at_leaf_count=c answers with the largest recorded size up to c; with c, or all leaves if there are fewer, if and only if that is on record |
| RootLookup.AnchorIsLastLedger | crates/attesta-api/src/routes/tree.rs:222 | the running maximum of ledgers is the newest leaf's ledger |
| RootLookup.ReportIsAnswered | crates/attesta-disclosure/src/main.rs:142-166 | a report's ledger asks for its own leaves plus exactly those that landed later at that ledger, and is answered with that size if and only if it is on record |
| RootLookup.SameRootIff | crates/attesta-api/src/routes/tree.rs:230-233 | two sizes of one table have one root if and only if only empty leaves came within capacity between them, or a collision is exhibited |
| RootLookup.ReportVerifiesIff | crates/attesta-disclosure/src/main.rs:142-181 | holes included: the roots match if and only if only empty leaves came within capacity between the two sizes, or a collision is exhibited; when the asked size is on record these are the later leaves at the report's ledger, and without any the report always verifies |
| RootLookup.LedgerContinued | crates/attesta-disclosure/src/main.rs:142-181 | a report over the first of two leaves at one ledger no longer verifies, or a collision is exhibited |
| RootLookup.HoleMisleadsReport | crates/attesta-disclosure/src/main.rs:142-181 | a report over a size missing from the history fails although no leaf followed it, or a collision is exhibited |
| NoteTable.PickMeaning | crates/attesta-api/src/routes/notes.rs:130-139 | the cursor query's rows are exactly the rows with an id past the cursor and, if pools are named, a pool among them; ids increasing |
| NoteTable.LimitedAnswer | crates/attesta-api/src/routes/notes.rs:143-144 | a limited answer is the complete answer over a first part of the table, over all of it when below the limit |
| NoteTable.NextPage | crates/attesta-api/src/routes/notes.rs:57-63 | asking again from the last id of an answer yields exactly what that answer left out |
| StreamEvents.NoResyncIsExact | crates/attesta-api/src/routes/notes.rs:83-89 | events that account for the due notes without a resync are exactly those notes |
| StreamEvents.EmittedInOrder | crates/attesta-api/src/routes/notes.rs:159-164 | emitted ids strictly increase |
| StreamEvents.MissingMeansResync | crates/attesta-api/src/routes/notes.rs:172-175 | a due note that is missing has a resync between its neighbours |
| NoteStream.StreamKeepsPromise | crates/attesta-api/src/routes/notes.rs:124-178 | in every state of the relay what a stream was sent accounts for every due note, in order, and names only stored notes past the cursor whose pool is one of those asked for |
| NoteStream.LiveStream.OnReceived | crates/attesta-api/src/routes/notes.rs:155-176 | in any reachable state the closure performs the relay's receive step, and what the client got accounts for every due note, ids increasing, each new note stored, past the cursor and from a pool asked for |
| NoteRelay.RunKeepsInv | crates/attesta-api/src/routes/notes.rs:124-276 | all relay invariants hold after any interleaving of writer, fan-out and stream |
| NoteRelay.ReplayIsExplained | crates/attesta-api/src/routes/notes.rs:128-151 | the replay accounts for everything stored past the cursor, with a resync when it overflows |
| NoteRelay.ReplayResyncsIff | crates/attesta-api/src/routes/notes.rs:128-151 | the replay is the first 5,000 matching notes, with a resync if and only if there are at least 5,000 |
| NoteRelay.ReceiveResyncsIff | crates/attesta-api/src/routes/notes.rs:155-176 | a received item is a resync if and only if more than 1,024 broadcast notes are unread, and then the latest 1,024 come next; else it is told exactly if new and from a pool asked for |
| NoteRelay.ResyncFreeIffKeepsUp | crates/attesta-api/src/routes/notes.rs:143-175 | a run shows no resync if and only if no replay met 5,000 pending notes and no receive more than 1,024 unread ones |
| NoteRelay.StreamIsAsAsked | crates/attesta-api/src/routes/notes.rs:110-154 | a stream serves the pools and resumes at the cursor of its own request |
| NoteRelay.FanoutStartsAtNewest | crates/attesta-api/src/routes/notes.rs:210-214 | the fan-out starts at the greatest stored id, so only later notes are broadcast; at 0 if its query fails |
| NoteRelay.LagIsExplained | crates/attesta-api/src/routes/notes.rs:172-175 | when the ring overran the stream, the resync stands for exactly what is skipped |
| NoteRelay.OverlapKeepsLive | crates/attesta-api/src/routes/notes.rs:159-164 | a row received after it was replayed is neither repeated nor lost |
| NoteRelay.NewRowKeepsLive | crates/attesta-api/src/routes/notes.rs:164-170 | a new row is emitted exactly if it matches |
| NoteRelay.StreamNeverSkipsSilently | crates/attesta-api/src/routes/notes.rs:124-178 | lag and overflow allowed: emitted notes are stored, matching and increasing, and every missing due note has a resync in its place |
| NoteRelay.ResyncFreeStreamIsExact | crates/attesta-api/src/routes/notes.rs:83-178 | in every run a resync-free resumed stream has emitted a prefix of the matching notes past its cursor, each once; caught up, all of them |
| NoteRelay.KeepingUpIsExact | crates/attesta-api/src/routes/notes.rs:83-178 | a resumed stream that keeps up in that sense has emitted a prefix of the matching notes past its cursor, each once; caught up, all of them |
| NoteReconnect.ReconnectingIsLossless | crates/attesta-api/src/routes/notes.rs:76-90 | over any number of connections, each resumed at the last id the client got and free of resyncs, while the table grows, the client gets a first part of the matching notes past its first cursor, in order, each once; all once caught up |
| NoteRelay.EarlyStreamIsExactIffWindowEmpty | crates/attesta-api/src/routes/notes.rs:203-214 | a caught-up resumed stream is complete if and only if no matching note fell between its replay and the fan-out's starting id; none can when it subscribed after the fan-out read that id |
| NoteRelay.StartupWindowLosesNote | crates/attesta-api/src/routes/notes.rs:203-214 | a run in which a caught-up resumed stream misses a stored note without a resync |
| NoteFanout.Fanout.SendPage | crates/attesta-api/src/routes/notes.rs:262-265 | a page is sent in order by the relay's send steps and the cursor ends at its last id |
| NoteFanout.Fanout.DrainPage | crates/attesta-api/src/routes/notes.rs:251-268 | one query and its sends are relay steps; a full page moves on, a short one has sent all that was visible |
| NoteFanout.Fanout.DrainNewNotes | crates/attesta-api/src/routes/notes.rs:249-276 | while the table grows between queries, what was sent is always the rows from the start up to some point, in order, each once; all that its last query could see unless a query failed; then exactly the rest stays due; the drain is a run of the relay |
| NotePaging.PageIsExact | crates/attesta-api/src/routes/notes.rs:39-64 | a page is the first up to 500 rows past the cursor and of the pool asked for, in id order, with a next cursor, its last id, if and only if there are at least 500 |
| NotePaging.PageInGrowingTable | crates/attesta-api/src/routes/notes.rs:44-61 | a full page read earlier is a first part of what any later table holds past the same cursor |
| NotePaging.FullPage | crates/attesta-disclosure/src/main.rs:108-113 | a full page keeps collected notes and rest together the matching table, and shortens the rest |
| NotePaging.CollectNotes | crates/attesta-disclosure/src/main.rs:98-116 | the loop ends and has collected exactly the notes whose pool is the tool's, of the table as its last read saw it, in id order, each once, whatever was inserted between reads |
| MailboxPaging.PageInOrder | crates/attesta-api/src/routes/issuer.rs:225-237 | a page holds only unclaimed rows of the hint past the cursor, in sequence order |
| MailboxPaging.PageComplete | crates/attesta-api/src/routes/issuer.rs:225-237 | a due row is on the page unless the page is full and ends before it |
| MailboxPaging.DeliveriesPage | crates/attesta-api/src/routes/issuer.rs:219-247 | a page holds at most 200 rows and is full before it leaves out an unclaimed row of the mailbox past the cursor |
| MailboxPaging.WalkMissesNothing | crates/attesta-api/src/routes/issuer.rs:219-247 | no row that stayed due in every snapshot so far lies unread behind the cursor |
| MailboxPaging.CollectDeliveries | crates/attesta-api/src/routes/issuer.rs:219-247 | against arbitrary claims, sweeps and inserts between pages: nothing twice, only unclaimed rows of the mailbox, and every row that stays there unclaimed throughout is collected |
| CallLog.LevelIsMinimumOverWindows | crates/attesta-api/src/limits.rs:81-91 | the constant-size bucket holds x tokens if and only if x more admissions fit every window of the whole history |
| CallLog.OwnCallShiftsWindows | crates/attesta-api/src/limits.rs:81-88 | one more call shifts every window by its cost and the refill since |
| CallLog.RefillIsProduct | crates/attesta-api/src/limits.rs:81-83 | the refill is rate times elapsed time |
| TokenBuckets.EvictionKeepsMeaning | crates/attesta-api/src/limits.rs:65-75 | dropping full buckets changes no address's tokens at any later time |
| TokenBuckets.CallMeetsSpecification | crates/attesta-api/src/limits.rs:57-92 | cleanup, refill and decision together follow the log specification and stay equal to it |
| TokenBuckets.RetryIsOneSecond | crates/attesta-api/src/limits.rs:90 | a refusal's Retry-After (section 10.2.3 of RFC 9110) is always exactly one second |
| TokenBuckets.IpBuckets.constructor | crates/attesta-api/src/limits.rs:43-51 | a burst below the rate is raised to it; no call has been logged |
| TokenBuckets.IpBuckets.TryAcquire | crates/attesta-api/src/limits.rs:57-92 | admitted if and only if one more call fits every window that starts at an earlier call of the address; the whole new map; tokens stay within 0 and burst |
| TokenBuckets.CallIsExactIff | crates/attesta-api/src/limits.rs:63-91 | one call, cleanup included, leaves exactly the buckets the log prescribes if and only if it comes in good time, and then its decision meets the specification |
| TokenBuckets.RunIsExactIff | crates/attesta-api/src/limits.rs:57-92 | a run keeps exactly the prescribed buckets throughout if and only if every call comes in good time; then every decision meets the specification |
| TokenBuckets.ServedRunIsLawful | crates/attesta-api/src/limits.rs:57-92 | every decision meets the specification when no call is before its address's previous call nor before a cleanup that has dropped its bucket since |
| TokenBuckets.InTimeIsTimely | crates/attesta-api/src/limits.rs:57-92 | runs in the order of their times are such runs, whatever is cleaned up |
| TokenBuckets.LawfulLogIsUnique | crates/attesta-api/src/limits.rs:57-92 | the specification determines every decision |
| TokenBuckets.EvictionIsUnobservable | crates/attesta-api/src/limits.rs:65-75 | timely runs with any two cleanup thresholds get the same answer on every call |
| TokenBuckets.OwnCallsDecide | crates/attesta-api/src/limits.rs:77-80 | the specification judges an address by its own calls alone |
| TokenBuckets.AddressesAreIndependent | crates/attesta-api/src/limits.rs:63-92 | in every timely run over any addresses each address gets exactly the answers it would get alone, cleanup included |
| TokenBuckets.AdmissionsAreBounded | crates/attesta-api/src/limits.rs:3-6 | admissions of an address in any span are at most burst plus rate times the span |
| TokenBuckets.RetryAfterASecondSucceeds | crates/attesta-api/src/limits.rs:57-58 | retrying a second after a refusal, without own calls between, is admitted |
| TokenBuckets.RefillsOnceIffClockForward | crates/attesta-api/src/limits.rs:81-88 | a call that finds its bucket leaves one that counts every stretch of time once if and only if it is not earlier than the bucket's last call |
| TokenBuckets.BackwardClockRefillsTwice | crates/attesta-api/src/limits.rs:81-88 | a run of the service from its start, with a clock that runs backwards, that violates the specification |
| TokenBuckets.CleanupForgetsTooEarly | crates/attesta-api/src/limits.rs:65-88 | at every threshold, a run in order for each address in which another address's cleanup makes a call violate the specification |
| SlotProtocol.RunKeepsInv | crates/attesta-api/src/limits.rs:115-158 | the slot invariants hold after any interleaving of atomic steps |
| SlotProtocol.SlotsAreAccounted | crates/attesta-api/src/limits.rs:115-158 | per-address counts are exact and capped, the map has no zero entries, the global count is the held slots and at most cap - 1 + concurrent acquirers |
| SlotProtocol.SlotIsRefusedIff | crates/attesta-api/src/limits.rs:115-126 | in every reachable state the check refuses if and only if the global cap is held, and the map if and only if the address has its own cap of connections |
| SlotProtocol.NothingLingers | crates/attesta-api/src/limits.rs:146-158 | once all slots are dropped the map is empty and the count 0 |
| SlotProtocol.GlobalBoundIsTight | crates/attesta-api/src/limits.rs:115-133 | for every caps and concurrency, any addresses that respect the per-address cap attain the bound in some run |
| Slots.SseSlots.constructor | crates/attesta-api/src/limits.rs:106-113 | no slot is held and no count kept |
| Slots.SseSlots.TryAcquire | crates/attesta-api/src/limits.rs:115-133 | with one caller at a time a slot is granted if and only if neither cap is reached |
| Slots.SseSlots.Drop | crates/attesta-api/src/limits.rs:146-158 | a drop releases exactly one slot, everywhere |
| IngestSpec.WalkVisitsAll | crates/attesta-indexer/src/ingest.rs:88-139 | a crashing, resuming indexer has worked on exactly the events before its furthest position |
| IngestSpec.OfferAbsorbs | crates/attesta-indexer/src/ingest.rs:155-165 | an offered event conflicts ever after, and a conflicting offer changes nothing, with two unique keys |
| IngestSpec.VisitedIsAbsorbed | crates/attesta-indexer/src/ingest.rs:155-182 | everything offered once stays absorbed |
| IngestSpec.ReofferingIsNoop | crates/attesta-indexer/src/ingest.rs:155-182 | offering already offered events again, in any order, changes nothing |
| IngestSpec.FirstWinsConverges | crates/attesta-indexer/src/ingest.rs:155-182 | at every moment, with any crashes, commitments, nullifiers and registered_ledger are those of one crash-free pass up to the furthest event |
| IngestSpec.CommitmentHasOrigin | crates/attesta-indexer/src/ingest.rs:155-165 | a commitment row has the commitment, the leaf index and the ledger of one event that was worked on |
| IngestSpec.NullifierIsFirstSpend | crates/attesta-indexer/src/ingest.rs:171-182 | a nullifier is recorded if and only if an event spent it, with the ledger of the first that did |
| IngestSpec.RegistrationIsFirst | crates/attesta-indexer/src/ingest.rs:212-228 | an issuer is registered if and only if an event was about it, with the ledger of the first that was |
| IngestSpec.LastFoldShows | crates/attesta-indexer/src/ingest.rs:212-228 | an issuer shows a record not older than any up to the present position |
| IngestSpec.LastWinsConverges | crates/attesta-indexer/src/ingest.rs:212-228 | back at its furthest position, the issuers table is that of one crash-free pass |
| IngestSpec.NotesSurplus | crates/attesta-indexer/src/ingest.rs:183-200 | the notes exceed those of a crash-free pass by exactly the notes stored again |
| IngestSpec.NotesAreExactIffStoredOnce | crates/attesta-indexer/src/ingest.rs:183-200 | the notes are those of a crash-free pass if and only if no note event was worked on twice |
| IngestSpec.TotalCountsEveryBooking | crates/attesta-indexer/src/ingest.rs:233-255 | a total is the sum of amount times the number of times it was booked |
| IngestSpec.TotalIsExactIffBookedOnce | crates/attesta-indexer/src/ingest.rs:233-255 | a total is never too low, and right if and only if no positive amount was booked twice |
| IngestSpec.PassAdds | crates/attesta-indexer/src/ingest.rs:183-204 | a pass adds to notes and totals exactly what the log holds between its ends |
| IngestSpec.LogHolds | crates/attesta-indexer/src/ingest.rs:167-204 | what a stretch of the log holds is its notes, the sum of its deposits that name amount and asset, and the sum of its withdrawals |
| IngestSpec.PassKeepsNotesIff | crates/attesta-indexer/src/ingest.rs:88-139 | a pass that ends at or past the furthest event leaves exact notes if and only if they were exact and the log holds none in the part it repeats |
| IngestSpec.PassMovesSurplus | crates/attesta-indexer/src/ingest.rs:88-139 | such a pass moves a total off by exactly the amounts in the part it repeats |
| IngestSpec.ReplayDuplicates | crates/attesta-indexer/src/ingest.rs:188-204 | one note and one deposit worked on twice are stored and booked twice |
| Ingest.Chain.GetEvents | crates/attesta-indexer/src/rpc.rs:85-103 | a page is the next run of visible events from the cursor or start ledger, empty only at the end |
| Ingest.Indexer.constructor | crates/attesta-indexer/src/ingest.rs:80-86 | an indexer without a cursor row starts at the beginning of the log |
| Ingest.Indexer.StoreEvent | crates/attesta-indexer/src/ingest.rs:141-231 | what each kind of event writes, column by column: a withdrawal only raises total_out, a deposit with both fields only total_in besides its commitment, and so on; wherever it dies nothing else has changed, and unless it fails the event is complete |
| Ingest.Indexer.HandleEvent | crates/attesta-indexer/src/ingest.rs:93-107 | an event is settled only when stored completely or undecodable, and the tables stay equal to the folds |
| Ingest.Indexer.HandleNext | crates/attesta-indexer/src/ingest.rs:93-107 | one event moves position and ledger on together, or leaves the persisted ones safe |
| Ingest.Indexer.HandlePage | crates/attesta-indexer/src/ingest.rs:93-107 | a page works on its events in order, each once; it leaves position and ledger safe to persist, a failure leaves the old ones safe |
| Ingest.Indexer.Fetch | crates/attesta-indexer/src/ingest.rs:89-91 | while ledgers close, a page is the next run of visible events and the pass stays safe |
| Ingest.Indexer.Persist | crates/attesta-indexer/src/ingest.rs:123-133 | the cursor row becomes exactly the given one, and resuming from it is safe |
| Ingest.Indexer.SyncPage | crates/attesta-indexer/src/ingest.rs:88-138 | a round advances or has reached the end; the cursor row moves forward or not at all |
| Ingest.Indexer.SyncContract | crates/attesta-indexer/src/ingest.rs:75-139 | wherever it ends, a pass has worked on exactly the events from the persisted position up to some point, in order, each once; the persisted cursor never passes an unsettled event, nothing moves back; a good pass ends at the last visible event and leaves the crash-free first-wins and last-wins tables; it terminates |
| Ingest.Indexer.PollOnce | crates/attesta-indexer/src/ingest.rs:14-37 | a turn adds to notes and totals the notes, deposits and withdrawals of the events it worked on; after a good one, and it is good unless it fails, the notes are exact if and only if they were and the log holds none in the repeated part; each total is off by what it was off before plus what was booked again, so with non-negative amounts it is exact if and only if it was and the repeated part moves nothing |
| Ingest.Indexer.Poll | crates/attesta-indexer/src/ingest.rs:14-37 | without failures all tables are the log's: the notes are its notes, total_in the sum of its deposits, total_out that of its withdrawals, the others one crash-free pass |
| Ingest.Indexer.TotalStaysExactIff | crates/attesta-indexer/src/ingest.rs:167-204 | with non-negative amounts a total is never too low, and its surplus plus what a resumed pass would book again is 0 if and only if it is exact and the log moves nothing on that side between the persisted position and the furthest settled event |
| Ingest.Indexer.ResumeFromLedger | crates/attesta-indexer/src/ingest.rs:109-113 | after an empty page without cursor, resuming from the ledger skips and repeats nothing |
| Ingest.Indexer.FirstWinsAlwaysConverged | crates/attesta-indexer/src/ingest.rs:1-3 | in mid-pass and after any crash the first-wins tables are those of a crash-free pass |
| Ingest.Indexer.NotesExactIffStoredOnce | crates/attesta-indexer/src/ingest.rs:183-200 | the indexer's notes table is exact if and only if no note was stored twice |
| Ingest.Indexer.TotalsExactIffBookedOnce | crates/attesta-indexer/src/ingest.rs:167-204 | once all is settled, total_in is the sum of deposits and total_out that of withdrawals if and only if none was booked twice |
| ChainTree.IndexedTableIsChain | crates/attesta-indexer/src/ingest.rs:155-165 | events that number their commitments 0, 1, 2, ... without repeats fill the table with exactly the chain's leaves, each with the ledger of its event |
| ChainTree.TopUpIsChain | crates/attesta-api/src/routes/tree.rs:191-228 | a top-up of that table takes all the chain's leaves in the chain's order |
| ChainTree.ServeRoot | crates/attesta-api/src/routes/tree.rs:119-131 | after any passes and crashes up to the visible end, a replica that tops up serves the root of the chain's commitments and meets no corrupt row |
| Mailbox.SweepDeletesExactly | crates/attesta-api/src/retention.rs:68-85 | a sweep deletes of the rows it selects exactly the claimed ones claimed and the unclaimed ones delivered more than the configured days ago |
| Mailbox.ExpiredIsOld | crates/attesta-api/src/retention.rs:68-85 | whatever a sweep may delete was created over a day before |
| Mailbox.SweepingDoesNotHideQuota | crates/attesta-api/src/routes/issuer.rs:95-103 | counting the swept table counts every delivery ever made in the last hour |
| Mailbox.RunKeepsQuota | crates/attesta-api/src/routes/issuer.rs:92-125 | the quota invariant holds after any interleaving of deliveries, claims, sweeps and clock ticks |
| Mailbox.EveryHourKeepsTheQuota | crates/attesta-api/src/routes/issuer.rs:92-125 | every half-open hour holds at most quota - 1 + concurrent deliveries of an issuer; at most the quota when handled one after another |
| Mailbox.CountAdmitsIff | crates/attesta-api/src/routes/issuer.rs:92-112 | in every reachable state a delivery is admitted if and only if there is no quota or fewer than quota deliveries of the issuer were ever made in the last 3600 seconds |
| Mailbox.DeliveryIsRecorded | crates/attesta-api/src/routes/issuer.rs:114-129 | an admitted delivery is stored with its issuer, its hash and the present time, unclaimed; nothing else changes |
| Mailbox.HourlyBoundIsTight | crates/attesta-api/src/routes/issuer.rs:92-125 | for every quota and concurrency some run puts quota - 1 + concurrent deliveries into one hour |
| Mailbox.ClaimsAreSound | crates/attesta-api/src/routes/issuer.rs:157-193 | each delivery gets at most one 204, only for a token that hashes to the stored hash, and a present row is claimed if and only if it was given |
| Mailbox.ClaimIsAnswered | crates/attesta-api/src/routes/issuer.rs:147-179 | 400 if and only if the token's length is not 1 to 128, 404 iff there is no row, 409 iff it is claimed, 403 iff the token does not hash to the stored hash; otherwise the claim goes on to its update |
| Mailbox.RightfulClaimWinsIff | crates/attesta-api/src/routes/issuer.rs:157-193 | a claim that read an unclaimed row with the right token gets 204 if and only if the row is there and unclaimed at its update, else 409; claimed_at is the time of that update |
| Mailbox.RightfulClaimSucceeds | crates/attesta-api/src/routes/issuer.rs:157-193 | so it succeeds if no other claim and no sweep of the row comes before |
| Mailbox.NoHashNeverClaimed | crates/attesta-api/src/routes/issuer.rs:174-179 | a delivery without a stored hash is never claimed |
| Mailbox.ClaimedAtIsFinal | crates/attesta-api/src/routes/issuer.rs:181-193 | claimed_at is set at most once and never changes while the row lives |
| Retention.PickSome | crates/attesta-api/src/retention.rs:98-102 | a limited selection is as many candidates as there are up to the limit |
| Retention.Deliveries.DeleteBatch | crates/attesta-api/src/retention.rs:98-112 | one batch drops only matching rows and counts them; a short one leaves no match |
| Retention.Deliveries.SweepKind | crates/attesta-api/src/retention.rs:96-124 | the loop ends, drops only matching rows, and unless a statement fails leaves exactly the others |
| Retention.Deliveries.RunCycle | crates/attesta-api/src/retention.rs:43-94 | without the lock nothing happens; with it no row changes, a row is dropped only past its own window of days, and unless a statement fails none that was past it when the cycle began is left |

## Left out

- Concrete hashing: SHA-256 and its planned successor; `Hasher` is any two-argument function.
- HTTP routing, JSON, configuration, metrics, health probes, the stats cache and the mapping of errors to status codes, except the statuses of a claim.
- Decoding of chain events, hex and base64: a raw event carries the answer its decoding gives.
- A JSON failure of a single note event in `crates/attesta-api/src/routes/notes.rs:190-196`, which would drop that note.
- LISTEN/NOTIFY: a notification only wakes the fan-out, which drains at arbitrary times here.
- The retention lock's mutual exclusion: sweeps interleave freely in `Mailbox`.
- Integer widths, NUMERIC limits and floating-point rounding: integers are unbounded, tokens and times are reals, database times are whole seconds.
- Several pools, contracts and deployments at once: every table is one pool's or one contract's slice; issuer events are taken from one contract.
- The `asset` column of `pool_totals` and the timestamp and transaction columns, which no result depends on.
- The mutual exclusion of `at_ledger` and `at_leaf_count`, and a corrupt root in the history (no modelled writer makes one).
- Signature checks and note decryption, which the program leaves for later.
- Delivery validation before the quota (sizes, base64, active issuer).
- MerkleTrees.NaiveRoot: height 0 is excluded because the rebuild takes the first node of the last level without a check; the program's height is 32.
- Ingest.Indexer.SyncContract: the log is finite, since a pass over a chain that grows forever need not end.
- NoteRelay.ResyncFreeStreamIsExact: speaks of resumed streams; a stream without a cursor starts wherever the broadcast stands when it subscribes, and `NoteRelay.StreamNeverSkipsSilently` still covers it.

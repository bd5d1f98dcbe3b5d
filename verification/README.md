# Models of Bitcoin Core 0.14.0 components and of a chameleon hash

Several small state machines and codecs of the Bitcoin 0.14.0 tree, and the chameleon hash kept beside
it, as Dafny models with proofs. Each of them keeps redundant structures that have to agree, or has an
inverse, so the main results speak about whole runs, whole round trips or every input.

`dafny verify dfyconfig.toml` checks everything.

## What is here

- **Address manager** (`AddrBook`, `AddrSteps`, `AddrRuns`, `AddrHistory`, `AddrManager`). The state is one value,
  every operation a function on it with a proof that all five indexes, reference counts and counters
  keep agreeing; the class carries out these functions in place. `AddrHistory` tells what is remembered
  about an address from the calls alone. `AddrCheck` proves that the debug
  routine returns 0 exactly when what it tests holds, and that this is the case after every run.
  `AddrDisk` and `AddrStore` save a manager and load it again, `AddrLoad` says what loading makes of any
  stream; `AddrWitness` holds surprising inputs.
- **Coin caches** (`CoinsModel`, `CoinsViews`). A stack of write-back caches over a database refines a
  stack of plain maps; the flags DIRTY and FRESH mean what they promise after every operation.
- **Check queue** (`CheckQueue`). A master and any number of workers as a state machine over locked
  regions and batches, with any interleaving, spurious wake-ups included.
- **Partial merkle trees** (`PartialMerkle`, `MerkleBlock`), **message framing** (`NetFraming`,
  `NetPeers`), **compact blocks** (`CompactBlock`), **block templates** (`BlockTemplate`,
  `BlockAssembler`), **rolling bloom filter** (`RollingBloom`), **cuckoo cache** (`Cuckoo`,
  `CuckooTable`), **big integers, compact targets and block work** (`ArithWords`, `ArithUint`,
  `CompactTarget`), **block index and chain** (`SkipHeights`, `BlockChain`), **Base58** (`Base58`) and the
  **chameleon hash** (`Chameleon`). `Numbers`, `Bits` and `Options` are shared.

Conventions. Where the source updates state in place there is a class or a method with loops, proved
against a function on the whole state; the properties are proved about that function. Clocks, random
draws, socket results and hash functions are parameters; which of two mempool transactions is considered
first is left open, and every order is covered. Hashes are arbitrary functions, injective on pairs only for merkle trees. What
is asked of hash functions, header formats and keys is shown to be met by concrete ones.

## Where the code differs from what one might expect

- `Add_` answers true for every routable unknown address, also when the address is not remembered
  because its cell is taken. Exact condition: `AddrRuns.AddRemembers`; an input: `AddrWitness.AddForgets`.
- `Good_` with a time that is not positive, and `Attempt_` with a negative one, leave a record that
  `Check_` rejects. Exact conditions: `AddrRuns.GoodTimes` and `AddrRuns.StatisticsKeep`; inputs:
  `AddrWitness.TimesSpoilt`.
- `Check_` does not notice stray entries of the address index, ids beyond the counter, or that the
  address of the record with id 0 is not indexed. `AddrCheck.ValidIffChecked` separates what it tests
  from what it does not; inputs: `AddrWitness.StrayEntryUnnoticed`, `AddrWitness.CounterUnnoticed` and
  `AddrWitness.MissingEntryUnnoticed`.
- `Attempt_` counts a failure once between successes of anyone, as long as time goes on
  (`AddrHistory.FailuresAreRounds`); with a success in the very second of a counted attempt, the next
  one is not counted (`AddrHistory.SameSecond`).
- `ModifyNewCoins` marks an entry FRESH on the caller's word. `CoinsViews.ViewStack.ModifyNewCoins`
  says exactly when the flags stay right; an input: `CoinsViews.FreshOnTrust`.
- `Flush` passes on a best block that was never set and so blanks the one its parent had. Exact
  condition: `CoinsModel.FlushedBest` and, over runs, `CoinsViews.FlushMovesBest`; an input:
  `CoinsModel.BestBlockBlanked`.
- `ExtractMatches` clears the list of matches but not the list of positions, to which it appends;
  `PartialMerkle.Sound` and `MerkleBlock.PartialMerkleTree.ExtractMatches` state this for every list.
- Slot numbers of compact blocks are kept in 16 bits although blocks of up to 100,000 transactions are
  admitted. Exact condition: `CompactBlock.SlotNumbersFit`; an input: `CompactBlock.SlotNumberLost`.
  What is found for a later slot is put 65,536 slots too low (`CompactBlock.Misplaced`).
- With all 65,536 slot numbers prefilled and a short id besides, the 16-bit offset wraps and the search
  for an empty slot does not end. Exact condition: `CompactBlock.SearchEndless`; an input:
  `CompactBlock.SearchEndlessAt`. The model answers `Endless` there.
- The counter of transactions from the extra pool is lowered even when the slot had been filled from
  the mempool, so it can pass below zero. `CompactBlock.PartialBlock.InitData` gives its value and the
  exact condition; an input: `CompactBlock.ExtraCountBelowZero`.
- Multiplying a big integer by itself in place yields zero, because the operand is read after it has
  been cleared; `ArithUint.BaseUint.Multiply` states this for every number.
- The comment in the cuckoo cache says that the first displaced slot is the first of the eight; the
  code takes the second (`Cuckoo.VictimFirst`).
- A modified mempool entry that failed earlier and is entered again starts from figures that include
  ancestors already in the block. `BlockTemplate.FreshExcess` says by how much, an input is
  `BlockAssembler.FreshTooLarge`, where a transaction is given up that would fit, and
  `BlockTemplate.FreshCovers` shows that the limits still hold.
- With a weight limit of 4000 or less asked for (or a size limit of 1000 or less) the reserve for the
  coinbase alone reaches the smallest permitted limit, and no transaction can enter;
  `BlockAssembler.CreateTemplate` has the exact conditions.
- A message of 4 GiB or more would be announced with a truncated size (`NetFraming.SizeAnnounced`).

## Model

| member | source | states |
|---|---|---|
| `AddrSteps.NewBookValid` | bitcoin-0.14.0/src/addrman.h:451-475 | a newly constructed manager satisfies the whole invariant |
| `AddrSteps.SwapKeepsIndex` | bitcoin-0.14.0/src/addrman.cpp:93-111 | swapping two places keeps ids and the random order inverse to each other and permutes the order |
| `AddrSteps.ForgetKeeps` | bitcoin-0.14.0/src/addrman.cpp:113-125 | forgetting an unreferenced record keeps all five indexes in agreement and removes exactly that record |
| `AddrSteps.ClearNewKeeps` | bitcoin-0.14.0/src/addrman.cpp:127-140 | emptying a cell keeps every index in agreement; a record whose last reference goes is forgotten |
| `AddrSteps.ClearNewEffect` | bitcoin-0.14.0/src/addrman.cpp:127-140 | afterwards that cell is empty, all others are as before, and only its record can disappear |
| `AddrSteps.ReleaseAllDone` | bitcoin-0.14.0/src/addrman.cpp:144-154 | after the walk over all buckets the record has no references left and no cell names it |
| `AddrSteps.EvictKeeps` | bitcoin-0.14.0/src/addrman.cpp:160-182 | moving the occupant of a tried cell back to the new table keeps every index in agreement |
| `AddrSteps.EvictMoves` | bitcoin-0.14.0/src/addrman.cpp:160-182 | eviction changes only placement and forgets at most one record, a new one with a single reference |
| `AddrSteps.EvictHome` | bitcoin-0.14.0/src/addrman.cpp:160-182 | the evicted record stands in one cell of the new table, in the bucket of its address and its own first source |
| `AddrSteps.MakeTriedKeeps` | bitcoin-0.14.0/src/addrman.cpp:142-188 | moving a record to the tried table keeps the whole structure and both counters exact; the record ends up tried |
| `AddrSteps.MakeTriedMoves` | bitcoin-0.14.0/src/addrman.cpp:142-188 | the move changes nobody's contents and forgets at most one other record |
| `AddrRuns.GoodKeeps` | bitcoin-0.14.0/src/addrman.cpp:190-240 | Good_ keeps every index; afterwards a known address is tried, so its search for a bucket always finds one |
| `AddrRuns.GoodTimes` | bitcoin-0.14.0/src/addrman.cpp:190-240 | Good_ keeps the recorded times in order if and only if the time is positive or the address is unknown |
| `AddrRuns.GoodLoses` | bitcoin-0.14.0/src/addrman.cpp:190-240 | Good_ forgets at most one record, a new one with one reference, never the one it is about |
| `AddrRuns.StatisticsKeep` | bitcoin-0.14.0/src/addrman.cpp:315-519 | Attempt_, Connected_ and SetServices_ keep every index; Attempt_ keeps the times in order iff its time is not negative or the address is unknown |
| `AddrRuns.CreateKeeps` | bitcoin-0.14.0/src/addrman.cpp:81-91 | a created record enters all indexes under a fresh id |
| `AddrRuns.PlaceKeeps` | bitcoin-0.14.0/src/addrman.cpp:291-311 | the placement at the end of Add_ leaves every record tried or referenced, at most eight times |
| `AddrRuns.AddKeeps` | bitcoin-0.14.0/src/addrman.cpp:242-313 | Add_ keeps every index and reports true exactly for a routable address that was unknown |
| `AddrRuns.AddTimes` | bitcoin-0.14.0/src/addrman.cpp:242-313 | Add_ keeps the recorded times in order, for any time and penalty |
| `AddrRuns.AddRemembers` | bitcoin-0.14.0/src/addrman.cpp:242-313 | an address reported as new is remembered if and only if its cell is free or its occupant may be displaced |
| `AddrRuns.AddRefers` | bitcoin-0.14.0/src/addrman.cpp:256-311 | a repeated announcement earns a reference, in the cell its announcer leads to, exactly if it is newer than what is on record, the record is new and below eight references, the draw is zero, and the cell is empty or held by a terrible record; otherwise no cell changes |
| `AddrRuns.DoublingsIs` | bitcoin-0.14.0/src/addrman.cpp:277-282 | the odds against another reference are two to the number of references |
| `AddrRuns.GetAddrKeeps` | bitcoin-0.14.0/src/addrman.cpp:462-481 | GetAddr_ only reorders; its reply lists, in the new order, the addresses that are not terrible in a prefix of the order, never more than the limit |
| `AddrRuns.RandomSize` | bitcoin-0.14.0/src/addrman.cpp:390-391 | the random order has exactly one place per record |
| `AddrRuns.StepKeeps` | bitcoin-0.14.0/src/addrman.cpp:81-519 | every operation keeps the structure, and with positive times the recorded times as well |
| `AddrRuns.RunKeeps` | bitcoin-0.14.0/src/addrman.cpp:81-519 | every run of operations with positive times keeps the whole invariant |
| `AddrHistory.StatisticsHeard` | bitcoin-0.14.0/src/addrman.cpp:315-519 | Attempt_, Connected_ and SetServices_ change the record they are about as the call says, and no other record, field or index |
| `AddrHistory.StepHeard` | bitcoin-0.14.0/src/addrman.cpp:190-519 | every call changes what is remembered about each record as its own history says; a record that was not there is entered by an announcement, under an id never used before |
| `AddrHistory.RunHeard` | bitcoin-0.14.0/src/addrman.cpp:190-519 | over any run, whoever is remembered at both ends was remembered all along, and what is remembered is what the calls in between say; ids are not given twice |
| `AddrHistory.RunTold` | bitcoin-0.14.0/src/addrman.cpp:190-519 | after any run from a new manager, every record was entered by one announcement and is what that and the later calls say |
| `AddrHistory.LastTry` | bitcoin-0.14.0/src/addrman.cpp:206-208 | the last try is the time of the latest attempt or success, if there was any |
| `AddrHistory.LastSuccess` | bitcoin-0.14.0/src/addrman.cpp:206-208 | the last success is the time of the latest success |
| `AddrHistory.OpenMeans` | bitcoin-0.14.0/src/addrman.cpp:329-334 | a round is open if since the latest counted attempt somebody had a success |
| `AddrHistory.FailuresAreRounds` | bitcoin-0.14.0/src/addrman.cpp:329-334 | if time goes on, the failures counted are the rounds between successes of anyone, since the address itself last had one, in which a counted attempt reached it |
| `AddrHistory.SameSecond` | bitcoin-0.14.0/src/addrman.cpp:329-334 | with a success in the second of a counted attempt, two rounds are counted as one |
| `AddrHistory.ServicesHeard` | bitcoin-0.14.0/src/addrman.cpp:503-520 | a service is listed exactly if it was set or announced and not reset since, or was there and never reset |
| `AddrHistory.TimesHeard` | bitcoin-0.14.0/src/addrman.cpp:256-264 | the time on record never goes back, is that of some report, is never older than any report allows, and stays if no report is due |
| `AddrBook.TriedBucketsPerGroup` | bitcoin-0.14.0/src/addrman.cpp:12-17 | the tried addresses of one group occupy at most 8 of the 256 tried buckets |
| `AddrBook.NewBucketsPerSourceGroup` | bitcoin-0.14.0/src/addrman.cpp:19-25 | the announcements of one group of sources reach at most 64 of the 1024 new buckets |
| `AddrBook.FillCellRefs` | bitcoin-0.14.0/src/addrman.cpp:27-31 | filling a record's cell of a bucket raises its number of referring buckets by one and nobody else's |
| `AddrBook.DecentIff` | bitcoin-0.14.0/src/addrman.cpp:33-51 | not terrible exactly if tried within the last minute, or seen within thirty days and not over ten minutes ahead, without three failures and no success ever, or ten failures and none in a week |
| `AddrManager.AddrMan.constructor` | bitcoin-0.14.0/src/addrman.h:451-475 | a new manager is empty and valid |
| `AddrManager.AddrMan.Find` | bitcoin-0.14.0/src/addrman.cpp:68-79 | finds a record exactly when some record has the address |
| `AddrManager.AddrMan.SwapRandom` | bitcoin-0.14.0/src/addrman.cpp:93-111 | the in-place swap is the swap of the state as a whole |
| `AddrManager.AddrMan.Delete` | bitcoin-0.14.0/src/addrman.cpp:113-125 | carries out Forget on the whole state; the record is neither tried nor referenced, as the source asserts |
| `AddrManager.AddrMan.ClearNew` | bitcoin-0.14.0/src/addrman.cpp:127-140 | carries out ClearNew on the whole state; the count lowered is positive and a record deleted has no reference left, as the source asserts |
| `AddrManager.AddrMan.MakeTried` | bitcoin-0.14.0/src/addrman.cpp:142-188 | carries out MakeTried on the whole state, asserts included |
| `AddrManager.AddrMan.Good` | bitcoin-0.14.0/src/addrman.cpp:190-240 | carries out Good on the whole state; the branch for a record found in no bucket is unreachable |
| `AddrManager.AddrMan.Add` | bitcoin-0.14.0/src/addrman.cpp:242-313 | carries out Add on the whole state and returns its answer |
| `AddrManager.AddrMan.Attempt` | bitcoin-0.14.0/src/addrman.cpp:315-335 | carries out Attempt on the whole state |
| `AddrManager.AddrMan.Connected` | bitcoin-0.14.0/src/addrman.cpp:483-501 | carries out Connected on the whole state |
| `AddrManager.AddrMan.SetServices` | bitcoin-0.14.0/src/addrman.cpp:503-519 | carries out SetServices on the whole state |
| `AddrManager.AddrMan.GetAddr` | bitcoin-0.14.0/src/addrman.cpp:462-481 | carries out GetAddr on the whole state and returns its reply |
| `AddrCheck.ValidIffChecked` | bitcoin-0.14.0/src/addrman.cpp:385-459 | the invariant holds exactly when everything Check_ tests holds, ids stay below the counter, the address index has no stray entries and lists the address of every record |
| `AddrCheck.RunChecked` | bitcoin-0.14.0/src/addrman.cpp:385-459 | after every run from a new manager with positive times, everything Check_ tests holds |
| `AddrCheck.CheckRecords` | bitcoin-0.14.0/src/addrman.cpp:393-417 | passes exactly when every record passes its tests, and then returns the tried ids and the reference counts of the new ones; otherwise the code is that of the first test failed by the failing record with the lowest id |
| `AddrCheck.CheckTried` | bitcoin-0.14.0/src/addrman.cpp:424-436 | passes with nothing left over exactly when tried table and tried records are inverse to each other; otherwise the code names a cell with a foreign, repeated or misplaced entry, or a record is in no cell |
| `AddrCheck.CheckNew` | bitcoin-0.14.0/src/addrman.cpp:438-449 | passes with nothing left over exactly when every cell holds a new record in its own position and every count equals its number of cells; otherwise the code names a cell with a foreign, surplus or misplaced entry, or a record has too few cells |
| `AddrCheck.Check` | bitcoin-0.14.0/src/addrman.cpp:385-459 | returns 0 if and only if everything it tests holds and the key is not null; every other code says what is wrong |
| `AddrWitness.AddForgets` | bitcoin-0.14.0/src/addrman.cpp:291-311 | a manager with one address, and a second one reported as new and not remembered |
| `AddrWitness.TimesSpoilt` | bitcoin-0.14.0/src/addrman.cpp:190-205 | a known address reported good at time zero, or attempted at a negative time, leaves times that Check_ rejects |
| `AddrWitness.StrayEntryUnnoticed` | bitcoin-0.14.0/src/addrman.cpp:409-410 | a stray entry of the address index that passes every test of Check_ |
| `AddrWitness.MissingEntryUnnoticed` | bitcoin-0.14.0/src/addrman.cpp:409-410 | the record with id 0 missing from the address index passes every test of Check_ |
| `AddrWitness.CounterUnnoticed` | bitcoin-0.14.0/src/addrman.cpp:385-459 | an id counter that would give an id once more passes every test of Check_ |
| `AddrDisk.CountersFit` | bitcoin-0.14.0/src/addrman.h:366-372 | a consistent manager never exceeds the limits that make loading refuse a stream |
| `AddrDisk.AllIdsListed` | bitcoin-0.14.0/src/addrman.h:309-328 | new records and then tried ones, in order of id, list every record once, and the written index is the place in that list |
| `AddrDisk.PositionStage` | bitcoin-0.14.0/src/addrman.h:415-431 | reading one position back enters exactly the cell it was written for; the reference limit is never in the way |
| `AddrDisk.NothingPruned` | bitcoin-0.14.0/src/addrman.h:433-443 | pruning leaves a manager alone in which every record is tried or referenced |
| `AddrDisk.LoadSave` | bitcoin-0.14.0/src/addrman.h:295-449 | saving and loading into a new manager loses and prunes nothing: tables, counts and persistent fields agree up to the renaming of ids, and the result satisfies the whole invariant |
| `AddrLoad.LoadAny` | bitcoin-0.14.0/src/addrman.h:347-449 | whatever the stream, if it is accepted then both tables, the reference counts, the random order and both counters agree, and every record is tried or referenced |
| `AddrLoad.PruneTables` | bitcoin-0.14.0/src/addrman.h:433-443 | pruning removes exactly the records that are neither tried nor referenced and keeps the rest in agreement |
| `AddrLoad.FallbackTaken` | bitcoin-0.14.0/src/addrman.h:374-391 | where the stored positions cannot be used, a new record goes without a reference only if another has taken the cell its own source leads to |
| `AddrLoad.TriedTaken` | bitcoin-0.14.0/src/addrman.h:394-415 | a tried record is lost only if another has taken its cell |
| `AddrStore.Serialize` | bitcoin-0.14.0/src/addrman.h:295-343 | the loops write exactly the saved form; neither count assertion can fail |
| `AddrStore.Unserialize` | bitcoin-0.14.0/src/addrman.h:346-449 | the loops leave exactly the loaded state, or report a stream that is refused |
| `AddrStore.SaveAndLoad` | bitcoin-0.14.0/src/addrman.h:295-449 | the two procedures one after the other yield a valid manager that is the first up to renaming |
| `CoinsModel.NormFacts` | bitcoin-0.14.0/src/coins.h:114-120 | trimming keeps which outputs are available; exactly the pruned coins amount to nothing |
| `CoinsModel.Cleanup` | bitcoin-0.14.0/src/coins.h:114-120 | removes the spent outputs at the end and nothing else |
| `CoinsModel.Spend` | bitcoin-0.14.0/src/coins.cpp:35-42 | succeeds exactly for an available output and makes exactly that one unavailable; the others keep their values, and whether it is a coinbase, the height and the version do not change |
| `CoinsModel.MergeShows` | bitcoin-0.14.0/src/coins.cpp:188-243 | merging a child into its parent never meets a misapplied FRESH flag, keeps the parent in order and makes it show what the child showed |
| `CoinsModel.NoneFreshPruned` | bitcoin-0.14.0/src/coins.cpp:188-230 | a dirty entry written to the parent is dropped where it is pruned and nothing below knows of it, and is otherwise there, dirty, with the child's coins |
| `CoinsModel.WriteBatchShows` | bitcoin-0.14.0/src/coins.cpp:245-250 | writing the lowest cache into the database makes the database show what that cache showed |
| `CoinsModel.FlushedBest` | bitcoin-0.14.0/src/coins.cpp:178-186 | after a flush the parent shows the best block the child showed, exactly under the stated condition on a child that never learned one |
| `CoinsModel.BestBlockBlanked` | bitcoin-0.14.0/src/coins.cpp:245-250 | a cache without a best block of its own blanks the one below it |
| `CoinsViews.ViewStack.constructor` | bitcoin-0.14.0/src/coins.cpp:61-66 | a database without caches is in order |
| `CoinsViews.ViewStack.AddCache` | bitcoin-0.14.0/src/coins.cpp:61-66 | a new cache shows what was shown before |
| `CoinsViews.ViewStack.DropCache` | bitcoin-0.14.0/src/coins.cpp:63-66 | destroying a cache leaves the views below untouched |
| `CoinsViews.ViewStack.FetchCoins` | bitcoin-0.14.0/src/coins.cpp:72-88 | filling a cache on demand changes no view at any level; no entry means nothing to show |
| `CoinsViews.ViewStack.GetCoins` | bitcoin-0.14.0/src/coins.cpp:90-97 | returns what the view shows, and not found only when there is nothing |
| `CoinsViews.ViewStack.ModifyCoins` | bitcoin-0.14.0/src/coins.cpp:99-118 | obtaining a modifiable entry changes no view and keeps the flags right |
| `CoinsViews.ViewStack.ModifyNewCoins` | bitcoin-0.14.0/src/coins.cpp:134-153 | throws exactly for a non-coinbase entry with unspent outputs in the cache; keeps the invariant if and only if the caller's promise holds where it is relied on |
| `CoinsViews.ViewStack.Assign` | bitcoin-0.14.0/src/coins.h:355-368 | writing through a modifier changes what the top shows for that transaction and nothing else |
| `CoinsViews.ViewStack.EndModify` | bitcoin-0.14.0/src/coins.cpp:322-334 | ending the modification changes no view; the entry is trimmed, and dropped exactly if it is fresh and pruned |
| `CoinsViews.ViewStack.Uncache` | bitcoin-0.14.0/src/coins.cpp:252-259 | dropping an unmodified entry changes no view |
| `CoinsViews.ViewStack.HaveCoins` | bitcoin-0.14.0/src/coins.cpp:164-171 | answers whether the view shows unspent outputs; looking for an empty list is exact |
| `CoinsViews.ViewStack.Flush` | bitcoin-0.14.0/src/coins.cpp:245-250 | never throws; the view below then shows exactly what this one showed, all other views are unchanged |
| `CoinsViews.ViewStack.GetBestBlock` | bitcoin-0.14.0/src/coins.cpp:178-182 | returns the first best block known on the way down; remembering it changes no best block |
| `CoinsViews.ViewStack.SetBestBlock` | bitcoin-0.14.0/src/coins.cpp:184-186 | sets the best block of that cache and changes nothing that any view shows of coins |
| `CoinsViews.FlushMovesBest` | bitcoin-0.14.0/src/coins.cpp:178-250 | in a run, a flush makes the view below show the best block of this one, exactly under the stated condition on what is stored |
| `CoinsViews.FreshOnTrust` | bitcoin-0.14.0/src/coins.cpp:134-153 | an unkept promise at an input: the coins are in the database, and afterwards the flags are wrong |
| `CoinsViews.BatchWrite` | bitcoin-0.14.0/src/coins.cpp:188-243 | throws exactly when some FRESH flag is misapplied, otherwise produces the merge, whatever the order of entries |
| `CoinsViews.Step` | bitcoin-0.14.0/src/coins.cpp:72-259 | one operation on the caches does to every view, and to the best blocks stored, what it does on a stack of plain maps |
| `CoinsViews.Run` | bitcoin-0.14.0/src/coins.cpp:72-259 | any run of operations shows at every level the coins, and stores the best blocks, that the same run leaves on a stack of plain maps |
| `CheckQueue.InitInv` | bitcoin-0.14.0/src/checkqueue.h:131 | a new queue satisfies the invariant |
| `CheckQueue.AddKeeps` | bitcoin-0.14.0/src/checkqueue.h:146-158 | adding checks keeps the invariant, whichever waiting workers wake up |
| `CheckQueue.ExecuteKeeps` | bitcoin-0.14.0/src/checkqueue.h:121-127 | running a batch, checks after a failure being skipped, keeps the invariant |
| `CheckQueue.SettleKeeps` | bitcoin-0.14.0/src/checkqueue.h:77-90 | accounting for a finished batch keeps the counters exact and the verdict honest, and wakes the master when nothing is left |
| `CheckQueue.ProceedKeeps` | bitcoin-0.14.0/src/checkqueue.h:91-120 | waiting, returning or taking the next batch keeps the invariant |
| `CheckQueue.NowCount` | bitcoin-0.14.0/src/checkqueue.h:106-111 | a thread takes the largest number that is at most a batch and leaves as much for every other thread, idle ones counted twice; but at least one |
| `CheckQueue.ProceedTakes` | bitcoin-0.14.0/src/checkqueue.h:111-122 | the checks taken are the last of the queue, and none is executed once a failure is known |
| `CheckQueue.AddWakes` | bitcoin-0.14.0/src/checkqueue.h:146-160 | adding several checks wakes every parked worker, adding one wakes the one picked, and nobody else |
| `CheckQueue.ReturnKeeps` | bitcoin-0.14.0/src/checkqueue.h:92-100 | when the master returns, every added check is accounted for and the verdict says whether all pass |
| `CheckQueue.StepKeeps` | bitcoin-0.14.0/src/checkqueue.h:69-158 | every atomic step of any thread keeps the invariant, no lost wake-up included |
| `CheckQueue.RunFromStart` | bitcoin-0.14.0/src/checkqueue.h:69-158 | the invariant holds after any interleaving with any number of workers |
| `CheckQueue.WaitAnswers` | bitcoin-0.14.0/src/checkqueue.h:140-143 | for any number of workers and any interleaving, each Wait answered true exactly when all checks added since the previous one pass |
| `CheckQueue.IdleMeans` | bitcoin-0.14.0/src/checkqueue.h:164-168 | the queue calls itself idle exactly when nothing is outstanding and no failure is remembered |
| `CheckQueue.IdleAfterWait` | bitcoin-0.14.0/src/checkqueue.h:184-191 | once Wait has returned, the test that the queue is unused succeeds |
| `CheckQueue.NeverStuck` | bitcoin-0.14.0/src/checkqueue.h:69-127 | as long as the master is in Wait, some thread can make progress |
| `CheckQueue.WaitTerminates` | bitcoin-0.14.0/src/checkqueue.h:69-127 | the number of productive steps of a Wait is bounded, however threads are scheduled |
| `CheckQueue.WaitReturns` | bitcoin-0.14.0/src/checkqueue.h:69-127 | every run of productive steps that cannot be extended ends with the master out of Wait, within the bound |
| `CheckQueue.WaitCanReturn` | bitcoin-0.14.0/src/checkqueue.h:69-127 | from every reachable state there is such a run |
| `PartialMerkle.NodesDiffer` | bitcoin-0.14.0/src/merkleblock.cpp:61-76 | with distinct transactions, two nodes of one level have distinct hashes |
| `PartialMerkle.RootByLevels` | bitcoin-0.14.0/src/test/merkle_tests.cpp:14-38 | the root of the recursion over nodes is the root computed level by level, the last hash of an odd level paired with itself |
| `PartialMerkle.SomeInjective` | bitcoin-0.14.0/src/merkleblock.cpp:61-76 | the idealised pair hash that the merkle results ask for exists |
| `PartialMerkle.BuildSizes` | bitcoin-0.14.0/src/merkleblock.cpp:78-94 | the hashes stored number at most the transactions below the node and at most one plus matches times height |
| `PartialMerkle.ExtractSound` | bitcoin-0.14.0/src/merkleblock.cpp:96-132 | whatever bits and hashes are given, a subtree that decodes to its true hash reports only genuine matches |
| `PartialMerkle.Sound` | bitcoin-0.14.0/src/merkleblock.cpp:150-181 | if the decoder returns the merkle root of a list of that length, every reported match is that list's transaction at the reported position |
| `PartialMerkle.BadIff` | bitcoin-0.14.0/src/merkleblock.cpp:96-134 | data is bad exactly if bits or hashes run out or two neighbours somewhere in the tree have the same hash |
| `PartialMerkle.AnswersIff` | bitcoin-0.14.0/src/merkleblock.cpp:150-181 | a root is answered exactly if the numbers are plausible, nothing is faulty and all data is used up to less than a byte of bits |
| `PartialMerkle.ExtractComplete` | bitcoin-0.14.0/src/merkleblock.cpp:96-132 | decoding what was built for a node uses exactly that data and yields its hash and the matches below it in order |
| `PartialMerkle.Pack` | bitcoin-0.14.0/src/merkleblock.h:99-104 | bits go eight to a byte, least significant first, padded with zeros |
| `PartialMerkle.UnpackPack` | bitcoin-0.14.0/src/merkleblock.h:88-105 | unpacking gives the bits back followed by fewer than eight zeros |
| `PartialMerkle.Complete` | bitcoin-0.14.0/src/merkleblock.cpp:134-181 | building, packing, unpacking and extracting returns the merkle root and exactly the matched transactions with their positions, within the bounds on stored hashes |
| `MerkleBlock.PartialMerkleTree.FromBlock` | bitcoin-0.14.0/src/merkleblock.cpp:134-146 | the constructor computes the height and stores what the recursion builds |
| `MerkleBlock.PartialMerkleTree.Received` | bitcoin-0.14.0/src/merkleblock.h:92-98 | a received tree has the unpacked bits |
| `MerkleBlock.PartialMerkleTree.TraverseAndBuild` | bitcoin-0.14.0/src/merkleblock.cpp:78-94 | appends to both lists exactly what the specification builds for the node |
| `MerkleBlock.PartialMerkleTree.TraverseAndExtract` | bitcoin-0.14.0/src/merkleblock.cpp:96-132 | advances both counters, collects matches and flags errors exactly as the specification |
| `MerkleBlock.PartialMerkleTree.ExtractMatches` | bitcoin-0.14.0/src/merkleblock.cpp:150-181 | root, matches and positions are the specification's; positions are appended to what the caller passes |
| `MerkleBlock.SendAndReceive` | bitcoin-0.14.0/src/merkleblock.cpp:134-181 | a proof sent as bytes and read back gives the merkle root and exactly the chosen transactions |
| `NetFraming.FeedJoin` | bitcoin-0.14.0/src/net.cpp:682-732 | parsing depends only on the concatenated bytes |
| `NetFraming.FeedValid` | bitcoin-0.14.0/src/net.cpp:682-732 | the parser always holds complete messages followed by at most one in progress |
| `NetFraming.PrefixParses` | bitcoin-0.14.0/src/net.cpp:682-732 | from any prefix of a stream the completed messages are the first of those sent |
| `NetFraming.AllParse` | bitcoin-0.14.0/src/net.cpp:682-732 | from the whole stream, with no message too large, all messages are completed in order |
| `NetFraming.WireRoundTrips` | bitcoin-0.14.0/src/protocol.h:50-57 | the actual header format, four start bytes, twelve of command, size and checksum in 32 bits each, takes 24 bytes and is read back as written |
| `NetFraming.CommandKept` | bitcoin-0.14.0/src/protocol.cpp:85-97 | a command of at most twelve bytes without zeros is read off the header as it was given |
| `NetFraming.SizeAnnounced` | bitcoin-0.14.0/src/net.cpp:2743 | a header announces the size of its message exactly for messages below 4 GiB |
| `NetFraming.ReceivedSays` | bitcoin-0.14.0/src/net.cpp:2734-2745 | a received message is complete and has the data sent, its checksum and, if it fits, the command as given |
| `NetPeers.SendNode.SocketSendData` | bitcoin-0.14.0/src/net.cpp:826-876 | the buffers sent as a whole are exactly those before the first outcome that is too small; what is sent is their total and what that outcome allows; the socket is closed exactly by a fatal error; what is on the wire plus what is queued is unchanged, the size field is the queued total and the pause flag is set exactly above the limit |
| `NetPeers.SendNode.PushMessage` | bitcoin-0.14.0/src/net.cpp:2734-2769 | any message is queued as its header followed by its data, and sent at once if the queue was empty and the socket takes it; the size field and the pause flag stay exact |
| `NetPeers.RecvNode.ReadHeader` | bitcoin-0.14.0/src/net.cpp:761-790 | takes at most 24 header bytes and decodes them when complete, refusing oversize |
| `NetPeers.RecvNode.ReadData` | bitcoin-0.14.0/src/net.cpp:792-807 | takes as many data bytes as the message still needs |
| `NetPeers.RecvNode.ReceiveMsgBytes` | bitcoin-0.14.0/src/net.cpp:682-732 | a chunk of any size has the effect of feeding its bytes one at a time, and complete is set exactly if it completes a message |
| `NetPeers.Link.CompletedArePushed` | bitcoin-0.14.0/src/net.cpp:682-732 | the messages completed at the receiver are the first of those pushed |
| `NetPeers.Link.AllArrived` | bitcoin-0.14.0/src/net.cpp:682-876 | with the queue empty, everything delivered and no message too large, all messages pushed are completed |
| `NetPeers.Run` | bitcoin-0.14.0/src/net.cpp:682-876 | after any run of pushes, partial sends and deliveries, the completed messages are a prefix of those pushed; if the connection was not broken and no message is too large, sending and delivering the rest completes them all |
| `CompactBlock.ShortSlotsExact` | bitcoin-0.14.0/src/blockencodings.cpp:60-97 | short ids and slots that are not prefilled correspond one to one, in order |
| `CompactBlock.SlotNumbersFit` | bitcoin-0.14.0/src/blockencodings.cpp:79-82 | the 16-bit slot numbers are the slots if and only if the block has at most 65,536 transactions |
| `CompactBlock.SlotNumberLost` | bitcoin-0.14.0/src/blockencodings.cpp:79-82 | with 65,537 transactions announced, the last slot is stored as slot 0 |
| `CompactBlock.Misplaced` | bitcoin-0.14.0/src/blockencodings.cpp:79-134 | nothing is put into a slot from 65,536 on that a short id stands for; what the pool holds for it goes 65,536 slots lower, over what is prefilled there, if it is the only one found for that slot |
| `CompactBlock.SearchEndless` | bitcoin-0.14.0/src/blockencodings.cpp:83-86 | for an accepted announcement with short ids, no 16-bit offset finds an empty slot for the first one if and only if exactly 65,536 transactions are prefilled |
| `CompactBlock.SearchEndlessAt` | bitcoin-0.14.0/src/blockencodings.cpp:58-87 | 65,536 transactions prefilled in a row and one short id: accepted, and every 16-bit offset meets a filled slot |
| `CompactBlock.PoolFateIff` | bitcoin-0.14.0/src/blockencodings.cpp:110-133 | a slot is filled from the pool exactly when one transaction, and only one, has its short id |
| `CompactBlock.PartialBlock.PutPrefilled` | bitcoin-0.14.0/src/blockencodings.cpp:60-76 | accepts exactly well-placed prefilled transactions and puts each in its slot, in bounds |
| `CompactBlock.PartialBlock.MapShortIds` | bitcoin-0.14.0/src/blockencodings.cpp:78-104 | with the 16-bit offset: the search ends if and only if not all 65,536 slot numbers are prefilled or there are no short ids; then every short id is mapped to its slot number as stored, in bounds, and it fails exactly on a repeated id or an overfull bucket |
| `CompactBlock.PartialBlock.ScanPool` | bitcoin-0.14.0/src/blockencodings.cpp:106-134 | for any stored slot numbers in bounds: each slot shows what the scanned part of the pool holds for it, others are untouched; the count is the number of slots with one candidate; scanning stops at the first place where it equals the number of ids, and only there |
| `CompactBlock.PartialBlock.ScanExtra` | bitcoin-0.14.0/src/blockencodings.cpp:136-166 | the same for the extra transactions, where the same transaction again is no contradiction; the extra counter changes by slots they alone fill less candidates they contradict |
| `CompactBlock.PartialBlock.InitData` | bitcoin-0.14.0/src/blockencodings.cpp:50-170 | says exactly when an announcement is invalid, when it fails and when reading it does not end; otherwise, at every size, each slot shows what was found for it as stored or else its prefilled transaction, all three counts are given by the lists scanned, and the extra count is not negative exactly when no more candidates are lost to extra transactions than slots are filled by them; up to 65,536 transactions all this holds short id by short id |
| `CompactBlock.InitFits` | bitcoin-0.14.0/src/blockencodings.cpp:78-166 | up to 65,536 transactions, what holds by stored slot number holds by short id: each slot shows the fate of its own id, and both counts agree |
| `CompactBlock.NetMeans` | bitcoin-0.14.0/src/blockencodings.cpp:136-166 | over one slot the extra counter gains one when only extra transactions, all the same, have the id, and loses one when they contradict the pool's only candidate |
| `CompactBlock.ExtraCountBelowZero` | bitcoin-0.14.0/src/blockencodings.cpp:136-166 | one short id, one pool transaction and a different extra one with it: the extra counter is -1 |
| `CompactBlock.PartialBlock.FillBlock` | bitcoin-0.14.0/src/blockencodings.cpp:178-218 | invalid exactly when the number of missing transactions is wrong, where too few leave the slots up to the first one lacking emptied; otherwise the block is the slots merged with them in order, and cannot be filled twice |
| `CompactBlock.Announce` | bitcoin-0.14.0/src/blockencodings.cpp:20-30 | the announcement describes the block: first transaction in full, the others by short id |
| `CompactBlock.Rebuilt` | bitcoin-0.14.0/src/blockencodings.cpp:50-218 | if no transaction at hand collides with a different one of the block or belongs to a slot from 65,536 on, filling in the missing ones rebuilds the block |
| `CompactBlock.Relay` | bitcoin-0.14.0/src/blockencodings.cpp:20-218 | invalid exactly for a null first transaction or more than 100,000 of them; otherwise announcing, matching, requesting and filling delivers the block as it was sent, unless ids collide, a bucket overflows or a transaction at hand belongs to a slot from 65,536 on |
| `BlockTemplate.SortedIsValid` | bitcoin-0.14.0/src/miner.cpp:384-393 | sorted by number of ancestors, a package has every ancestor in the block already or earlier in the list |
| `BlockTemplate.LessCovers` | bitcoin-0.14.0/src/miner.h:119-131 | subtracting an ancestor that went into the block keeps the figures at least those of what is left |
| `BlockTemplate.FreshCovers` | bitcoin-0.14.0/src/miner.cpp:354-359 | a fresh entry, which may repeat one dropped earlier, never underestimates what is left |
| `BlockTemplate.FreshExcess` | bitcoin-0.14.0/src/miner.cpp:354-359 | a fresh entry exceeds what is left by exactly the part of the package that was in the block before |
| `BlockAssembler.FreshTooLarge` | bitcoin-0.14.0/src/miner.cpp:343-365 | a transaction with two ancestors fails between their additions; the fresh entry then notes size two for a remainder of one, and it fails again although the remainder would fit |
| `BlockTemplate.RefusedAgain` | bitcoin-0.14.0/src/miner.cpp:367-382 | a package refused with the figures cached in the mempool, for weight, signature operations, size, finality or witness, is refused again whatever has been added to the block since |
| `BlockTemplate.GivenUpRefused` | bitcoin-0.14.0/src/miner.cpp:367-382 | what was given up at some stage, with exact figures, would be refused now with the figures of the mempool |
| `BlockTemplate.UpdatedCovers` | bitcoin-0.14.0/src/miner.cpp:343-365 | after the update for an added transaction every modified entry covers what is left of its package |
| `BlockTemplate.UpdatedExact` | bitcoin-0.14.0/src/miner.cpp:343-365 | apart from transactions that failed before, figures stay exact: kept ones are lowered by just what was added, cached ones are only used without ancestors in the block |
| `BlockTemplate.ParentsSuffice` | bitcoin-0.14.0/src/miner.cpp:207-216 | once all parents are in the block, all ancestors are |
| `BlockAssembler.Assembler.constructor` | bitcoin-0.14.0/src/miner.cpp:75-128 | limits are clamped and the reserve for the coinbase is counted |
| `BlockAssembler.Assembler.AddToBlock` | bitcoin-0.14.0/src/miner.cpp:317-341 | keeps the order valid and all counters exact, fees included |
| `BlockAssembler.Assembler.TestPackageTransactions` | bitcoin-0.14.0/src/miner.cpp:246-263 | passes exactly when all are final, witnesses are allowed and the whole package keeps the size limit |
| `BlockAssembler.Assembler.TestForBlock` | bitcoin-0.14.0/src/miner.cpp:265-315 | passes exactly when the transaction is final and stays strictly below every limit; the block is called finished exactly when it is as good as full or too many have been tried near the limit |
| `BlockAssembler.Assembler.IsStillDependent` | bitcoin-0.14.0/src/miner.cpp:207-216 | says whether some parent is missing from the block |
| `BlockAssembler.Assembler.SortForBlock` | bitcoin-0.14.0/src/miner.cpp:384-393 | lists the package once each, by number of ancestors |
| `BlockAssembler.Assembler.UpdatePackagesForAdded` | bitcoin-0.14.0/src/miner.cpp:343-365 | every modified entry covers what is left of its package, exactly unless the transaction failed before; whatever has an ancestor in the block and has not failed has an entry |
| `BlockAssembler.Assembler.Choose` | bitcoin-0.14.0/src/miner.cpp:428-465 | the package considered is not in the block, its figures never underestimate what is left of it, and are exact unless it failed before |
| `BlockAssembler.Assembler.PackageFits` | bitcoin-0.14.0/src/miner.cpp:231-239 | a package that passes the test stays strictly below the weight and signature limits |
| `BlockAssembler.Assembler.AddPackage` | bitcoin-0.14.0/src/miner.cpp:500-508 | adding the sorted package keeps the template valid at every step |
| `BlockAssembler.Assembler.AddPackageTxs` | bitcoin-0.14.0/src/miner.cpp:405-513 | the package loop terminates and keeps the template valid; every package added pays at least what is asked for its size, and the loop stops early only at one that does not; otherwise every transaction of the mempool is in the block or was unfit at some stage, tested with exact figures; so is every one that failed |
| `BlockAssembler.Assembler.AddPriorityTxs` | bitcoin-0.14.0/src/miner.cpp:515-595 | the priority loop terminates and keeps the template valid; it stops in time, as soon as its share is filled or a transaction below the free threshold was added; unless it stops or the block is finished, whatever is outside misses a parent, may not enter or does not fit |
| `BlockAssembler.CreateTemplate` | bitcoin-0.14.0/src/miner.cpp:130-205 | the template is duplicate-free, has every ancestor before its descendants and only allowed transactions; its first part is what selection by priority leaves, the rest packages that pay enough, and everything considered is in or was unfit, or a package pays too little; the fees are the sum; it stays below the signature limit, and strictly below the weight limit if and only if more than the reserve of the coinbase is asked for, likewise for the size where bytes are counted |
| `RollingBloom.WipedCells` | bitcoin-0.14.0/src/bloom.cpp:257-265 | wiping clears exactly the cells of the recycled generation |
| `RollingBloom.StampedKeyCells` | bitcoin-0.14.0/src/bloom.cpp:269-276 | stamping a key sets all its cells and changes others only to the same generation |
| `RollingBloom.AdvanceKeeps` | bitcoin-0.14.0/src/bloom.cpp:251-266 | advancing the generation forgets only what would be three generations old |
| `RollingBloom.RememberStep` | bitcoin-0.14.0/src/bloom.cpp:249-277 | an insertion keeps every earlier key remembered according to its new place |
| `RollingBloom.JustifiedStep` | bitcoin-0.14.0/src/bloom.cpp:249-277 | after an insertion every set cell was set by a key exactly as many generations old as the cell says: nothing older is left |
| `RollingBloom.RecentAge` | bitcoin-0.14.0/src/bloom.cpp:223-225 | the last nElements keys are at most two generations old |
| `RollingBloom.RollingBloomFilter.Wipe` | bitcoin-0.14.0/src/bloom.cpp:257-265 | the word loop is the wipe of the specification |
| `RollingBloom.RollingBloomFilter.Insert` | bitcoin-0.14.0/src/bloom.cpp:249-277 | keeps the filter's promise for the whole history |
| `RollingBloom.RollingBloomFilter.Contains` | bitcoin-0.14.0/src/bloom.cpp:285-297 | true exactly when all cells of the key are set, hence for each of the last nElements keys, and only if each cell belongs to a key of the last three generations |
| `RollingBloom.RollingBloomFilter.Reset` | bitcoin-0.14.0/src/bloom.cpp:305-313 | starts over with an empty history and no cell set |
| `ArithUint.BaseUint.ShiftLeft` | bitcoin-0.14.0/src/arith_uint256.cpp:22-37 | multiplies by a power of two modulo the width, at every word count |
| `ArithUint.BaseUint.ShiftRight` | bitcoin-0.14.0/src/arith_uint256.cpp:39-53 | divides by a power of two, rounding down |
| `ArithUint.BaseUint.MultiplyWord` | bitcoin-0.14.0/src/arith_uint256.cpp:56-65 | the product modulo the width; no step exceeds 64 bits |
| `ArithUint.BaseUint.Multiply` | bitcoin-0.14.0/src/arith_uint256.cpp:68-81 | the product modulo the width; multiplied by itself in place, zero |
| `ArithUint.BaseUint.Divide` | bitcoin-0.14.0/src/arith_uint256.cpp:84-107 | the quotient rounded down for every numerator and non-zero divisor at every word count; the error case leaves zero |
| `ArithUint.BaseUint.Compare` | bitcoin-0.14.0/src/arith_uint256.cpp:110-119 | its sign is the order of the numbers |
| `ArithUint.BaseUint.EqualTo` | bitcoin-0.14.0/src/arith_uint256.cpp:122-133 | true exactly for equal numbers |
| `ArithUint.BaseUint.Bits` | bitcoin-0.14.0/src/arith_uint256.cpp:172-184 | the position of the highest one bit plus one, or zero |
| `ArithUint.BaseUint.Add` | bitcoin-0.14.0/src/arith_uint256.h:135-145 | the sum modulo the width, also of a number with itself |
| `ArithUint.BaseUint.Increment` | bitcoin-0.14.0/src/arith_uint256.h:173-180 | one more, modulo the width |
| `ArithUint.BaseUint.Not` | bitcoin-0.14.0/src/arith_uint256.h:69-75 | the complement: largest value minus the number |
| `ArithUint.BaseUint.Negate` | bitcoin-0.14.0/src/arith_uint256.h:77-84 | the negative modulo the width |
| `ArithUint.BaseUint.Subtract` | bitcoin-0.14.0/src/arith_uint256.h:147-151 | the difference modulo the width |
| `ArithUint.BaseUint.GetLow64` | bitcoin-0.14.0/src/arith_uint256.h:245-249 | the number modulo 2^64 |
| `ArithUint.BaseUint.Assign` | bitcoin-0.14.0/src/arith_uint256.h:88-95 | holds exactly the given 64-bit number |
| `CompactTarget.OverflowIff` | bitcoin-0.14.0/src/arith_uint256.cpp:217-220 | the overflow condition holds exactly when the value does not fit 256 bits |
| `CompactTarget.SetCompact` | bitcoin-0.14.0/src/arith_uint256.cpp:204-222 | overflow exactly when the value does not fit, otherwise the value is exact; negative exactly for a signed non-zero value |
| `CompactTarget.GetCompact` | bitcoin-0.14.0/src/arith_uint256.cpp:224-245 | computes the compact form in 32 bits; both assertions hold |
| `CompactTarget.CompactRoundTrip` | bitcoin-0.14.0/src/arith_uint256.cpp:204-245 | reading back a written number never overflows, never exceeds the number, and has the same compact form |
| `CompactTarget.CompactIsLargest` | bitcoin-0.14.0/src/arith_uint256.cpp:204-245 | of all values with a compact form, reading back gives the largest not above the number |
| `CompactTarget.GetBlockProof` | bitcoin-0.14.0/src/chain.cpp:120-133 | 2^256 divided by target plus one, rounded down; zero for a zero, negative or overflowing target; the division never fails |
| `SkipHeights.InvertLowestOneMeaning` | bitcoin-0.14.0/src/chain.cpp:70 | the lowest one bit is cleared and nothing else |
| `SkipHeights.GetSkipHeight` | bitcoin-0.14.0/src/chain.cpp:73-81 | always strictly below the block |
| `SkipHeights.Block` | bitcoin-0.14.0/src/chain.cpp:73-107 | from a multiple of 2^a down to any height not below the multiple before it takes at most `Most(a)` steps, which grows like the square of a |
| `SkipHeights.StepsBound` | bitcoin-0.14.0/src/chain.cpp:73-107 | the walk from any height below 2^k takes at most (k^2 + 9k + 10) / 4 steps |
| `SkipHeights.Within110` | bitcoin-0.14.0/src/chain.cpp:77-79 | going back up to 2^18 blocks takes at most 110 steps |
| `SkipHeights.Takes110` | bitcoin-0.14.0/src/chain.cpp:77-79 | from height 2^18 - 8 to height 2 it does take 110 steps |
| `BlockChain.BlockIndex.GetAncestor` | bitcoin-0.14.0/src/chain.cpp:83-107 | by skip pointers, yet exactly the plain walk along parents; none if out of range; with all skip pointers built, at most 110 steps up to height 2^18 |
| `BlockChain.BlockIndex.BuildSkip` | bitcoin-0.14.0/src/chain.cpp:114-118 | the skip pointer is the ancestor at the skip height; the index stays valid; built for every new block, all blocks have theirs |
| `BlockChain.Chain.SetTip` | bitcoin-0.14.0/src/chain.cpp:11-21 | with its early stop, every height holds the tip's ancestor |
| `BlockChain.Chain.FindFork` | bitcoin-0.14.0/src/chain.cpp:51-60 | the highest block that is in the chain and an ancestor of the given one |
| `BlockChain.Chain.GetLocator` | bitcoin-0.14.0/src/chain.cpp:23-49 | ancestors of the start down to the first of its line: ten single steps, then steps that double, so that their number is logarithmic in the height |
| `Cuckoo.EpochCheckKeeps` | bitcoin-0.14.0/src/cuckoocache.h:264-296 | unless it ages, the check keeps every entry; ageing keeps exactly the new generation, as the old one |
| `Cuckoo.PushConserves` | bitcoin-0.14.0/src/cuckoocache.h:382-416 | displacing conserves entries: those kept and the one dropped are those before and the new one |
| `Cuckoo.InsertConserves` | bitcoin-0.14.0/src/cuckoocache.h:368-416 | apart from ageing, insertion adds the element, loses at most one entry, and leaves every kept element in one of its eight slots |
| `Cuckoo.PushDrops` | bitcoin-0.14.0/src/cuckoocache.h:382-416 | an entry is dropped only after as many displacements as are allowed, with all eight slots of every element in hand taken, and it is the last one in hand |
| `Cuckoo.InsertPlaces` | bitcoin-0.14.0/src/cuckoocache.h:368-391 | an element that is there or has a slot to go to is kept in the new generation, and nothing is dropped |
| `Cuckoo.RunInTime` | bitcoin-0.14.0/src/cuckoocache.h:264-296 | over any run the new generation stays within a sixteenth above the size at which it ages |
| `Cuckoo.ContainsIff` | bitcoin-0.14.0/src/cuckoocache.h:443-453 | found exactly when present in one of its slots; whatever is kept is found |
| `Cuckoo.VictimFirst` | bitcoin-0.14.0/src/cuckoocache.h:392-407 | the first slot displaced is the second of the eight |
| `Cuckoo.VictimNext` | bitcoin-0.14.0/src/cuckoocache.h:392-407 | afterwards it is the one behind the slot just filled |
| `Cuckoo.EraseKeeps` | bitcoin-0.14.0/src/cuckoocache.h:443-453 | erasing gives up exactly what the element's first matching slot keeps, and that slot may be overwritten; the element can still be found |
| `Cuckoo.ErasedOnce` | bitcoin-0.14.0/src/cuckoocache.h:443-453 | an element kept once is not kept after it has been erased |
| `Cuckoo.SurvivesOneAgeing` | bitcoin-0.14.0/src/cuckoocache.h:264-296 | over any run, an inserted element that is neither erased nor dropped is found until the second ageing |
| `Cuckoo.GoneAtSecondAgeing` | bitcoin-0.14.0/src/cuckoocache.h:264-296 | over any run, without being inserted again no element is still kept after two ageings |
| `CuckooTable.BitFlags.Set` | bitcoin-0.14.0/src/cuckoocache.h:92-95 | sets that flag and no other, in packed bytes |
| `CuckooTable.BitFlags.Unset` | bitcoin-0.14.0/src/cuckoocache.h:103-106 | clears that flag and no other |
| `CuckooTable.CacheTable.CheckEpoch` | bitcoin-0.14.0/src/cuckoocache.h:264-296 | the loops carry out the specified check |
| `CuckooTable.CacheTable.InsertElement` | bitcoin-0.14.0/src/cuckoocache.h:368-416 | the loops carry out the specified insertion |
| `CuckooTable.CacheTable.ContainsElement` | bitcoin-0.14.0/src/cuckoocache.h:443-453 | answers and erases as specified |
| `Base58.EncodeFits` | bitcoin-0.14.0/src/base58.cpp:80-82 | a buffer of n * 138 / 100 + 1 digits suffices at every length |
| `Base58.DecodeFits` | bitcoin-0.14.0/src/base58.cpp:33-35 | a buffer of n * 733 / 1000 + 1 bytes suffices at every length |
| `Base58.MulAdd` | bitcoin-0.14.0/src/base58.cpp:41-50 | the carry loop multiplies the buffer's number and adds, ends with no carry, and visits all digits that are not zero |
| `Base58.EncodeBase58` | bitcoin-0.14.0/src/base58.cpp:71-109 | computes the encoding; the carry assertion always holds |
| `Base58.DecodeBase58` | bitcoin-0.14.0/src/base58.cpp:21-69 | succeeds exactly when the text without surrounding white space is base58, and then computes its decoding; the carry assertion always holds |
| `Base58.DecodeEncode` | bitcoin-0.14.0/src/base58.cpp:21-109 | decoding gives back every byte string that was encoded |
| `Base58.EncodeDecode` | bitcoin-0.14.0/src/base58.cpp:21-109 | encoding gives back every base58 text that was decoded |
| `Base58.TrimmedPadded` | bitcoin-0.14.0/src/base58.cpp:23-25 | white space around an encoding does not matter |
| `Chameleon.Collapse` | publicCoinChameleonHashEnhanced/chameleon.h:356-380 | with the trapdoor exponent, the masked value collapses to the generator |
| `Chameleon.SomeKeys` | publicCoinChameleonHashEnhanced/chameleon.h:313-389 | keys of the kind asked for exist |
| `Chameleon.HashIs` | publicCoinChameleonHashEnhanced/chameleon.h:313-349 | the hash is the only number below q that, added to the generator to the power tk times the message hash plus s, gives r modulo q |
| `Chameleon.HashesAgree` | publicCoinChameleonHashEnhanced/chameleon.h:313-349 | under one r two messages have the same hash exactly when these powers agree modulo q |
| `Chameleon.Collision` | publicCoinChameleonHashEnhanced/chameleon.h:313-389 | for all messages and random pairs, the pair found with the trapdoor gives the second message the first one's hash, whatever the inner hash function |
| `Chameleon.Reopen` | publicCoinChameleonHashEnhanced/chameleon.h:313-389 | hashing a message, opening the hash to another with the trapdoor and verifying: the pair is in range and verification always accepts |

## Left out

- Sockets, select, UPnP, DNS, RPC, the coins database, files and initialisation: plumbing over libraries.
- SHA-256, RIPEMD, MurmurHash, SipHash and secp256k1: hash functions are parameters.
- Floating point: selection chances, bloom filter sizing from a false positive rate, the logarithm that sizes the cuckoo cache, priorities and fee scores.
- Select_: a randomised search; its termination is a matter of probability.
- Clear: models only a newly constructed manager, because clearing a used one leaves its records behind.
- Widths of ids, counters and timestamps: ids, counts and 64-bit times are unbounded integers; the truncation of announced times to 32 bits is modelled.
- AddrManager.AddrMan: the bucket tables are sequences of sequences rather than arrays updated in place; the hash key is fixed at construction.
- AddrCheck.Check: the default entries that a lookup inserts into the address index are not modelled; which of several faulty cells a code stands for is not specified.
- AddrDisk.LoadSave: the stream is the sequence of written values, not their bytes; for streams that no manager wrote, `AddrLoad.LoadAny` leaves out the address index, which a repeated address spoils.
- CoinsViews.ViewStack: memory usage accounting is not modelled, and the database takes a batch at once.
- CheckQueue: the flag that would end the workers is never set in the source and is not modelled.
- NetPeers.RecvNode.ReceiveMsgBytes: reading ahead of the announced size, per-command byte counters and time stamps are not modelled.
- NetPeers.Run: messages stay below 4 GiB, because above that the header announces a truncated size; the codec is any that reads headers back as written, which the actual format does.
- CompactBlock.PartialBlock.InitData: requires an object not used before; the filling level of hash table buckets is a parameter.
- CompactBlock.PartialBlock.FillBlock: checking the block is a parameter.
- BlockAssembler.Assembler: the command line options behind the limits, the fee asked for a size and the free threshold are given; which of two packages or priorities is considered first is left open; the mempool's ancestor sets, sizes and sums are given, with weight at most four times the size; coinbase, header and final validity test are not modelled.
- RollingBloom.RollingBloomFilter: words are sets of their one bits; the number of hash functions and words is given.
- CuckooTable.CacheTable: size and depth limit are given; atomic access from several threads is not modelled.
- Chameleon: modular arithmetic is read as canonical residues, k is 1 as in the code; key generation and the conversions between strings and integers are not modelled.
- Base58: characters are single bytes in the C locale; checksums and address types are not modelled.

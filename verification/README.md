# Verified models of the Lyra core

Dafny models of the parts of the node whose correctness rests on state kept over many calls or on
arithmetic, each proved against what the node needs from it. Every module follows one source file or
one component of it, in the form the source has: what the source updates in place is a class or a
loop with invariants, what it computes is a function.

| component | modules |
|---|---|
| Address manager: operations, runs, its own check, `peers.dat`, limits for one address range | AddrTables, AddrInvariant, AddrOps, AddrEffects, AddrRuns, AddrSlots, AddrCheck, AddrMan, AddrStore, AddrReload, AddrFiles, AddrPeers, AddrGroups |
| Unspent coins: stack of caches, undoing, compact storage | Coins, CoinsViews, CoinsRuns, CoinsViewCache, CoinsUndo, VarInt, Compressor, AmountLimits, CoinsCodec, CoinsStream |
| Parallel check queue | CheckQueue, CheckSessions |
| 256-bit numbers and their compact form | Limbs, LimbShifts, ArithUint, Compact |
| Merkle trees and partial trees | Bits, MerkleTree, MerkleProofs, MerkleParts, MerkleRoots, MerkleSize, PartialMerkle |
| Base58 | Radix, Base58 |
| Block assembly | BlockView, Miner, Conservation |
| Active chain | SkipHeights, BlockChain |
| Stake modifier | Kernel |
| Masternode payments and budgets | BlockOutputs, MasternodePayments, MasternodeBudget, BlockPayee |
| Locked pages | LockedPages |
| Shared | Common, Arithmetic |

Hash functions are parameters of which nothing is assumed, except that the soundness of partial
Merkle trees needs an injective pair hash. Clocks, random draws, configuration and answers of other
parts of the node are parameters too. Methods that the source guards with a lock are single steps;
the check queue is a state machine whose steps are its critical sections.

A typical component has a state with its invariant, a function for each operation (what the source
does to the state), methods that carry the operation out in place and are proved equal to the
function, and lemmas that say what the functions achieve. `AddrMan`, `CoinsViewCache` and `ArithUint`
hold such methods; `AddrRuns`, `CoinsRuns` and `CheckQueue` the statements about whole runs.

## Where the code and its documentation differ

The models follow the code. Each difference is proved as stated here.

- `Add_` answers true for a new address even when the address is dropped at once because its slot is
  taken (`AddrRuns.AddOutcome`; src/addrman.cpp:288, 308-310).
- `Add_` means to refuse an announcement without new information. It compares with the time that it may
  just have brought up to date, so without a time penalty the announcements that are news by more than an
  hour are refused as well (`AddrEffects.LaterThanKnown`; src/addrman.cpp:257-268).
- `Check_` does not tell whether the index of hosts is right. It compares `mapAddr[info] != n`, so a
  missing host passes for the entry with id 0, and it never looks at hosts of the index that no entry
  has. When it passes, the index is right if and only if the entry with id 0 is indexed, there are as
  many hosts as entries and the ids lie below the counter (`AddrCheck.PassedIndex`); with these three
  it passes exactly on consistent tables (`CheckIsInv`). A file that names one host twice loads into
  tables that pass without being consistent (`AddrFiles.CheckMissesHost`). The comparison also enters
  the missing host, so that the check itself mends the first of the three (`AddrCheck.CheckRepairs`;
  src/addrman.cpp:374-448).
- `Clear` leaves `mapInfo` and `mapAddr` alone (`AddrMan.AddrMan.Clear`; src/addrman.h:428-446). The
  object is consistent afterwards if and only if both were empty before (`AddrFiles.ClearedInv`), and
  an object that held entries is not consistent after reading an empty file into it
  (`EmptyFileIntoUsed`); all statements about runs and files therefore start from a new object.
- Flushing a cache that never set its best block overwrites the best block of the cache below with
  none (`CoinsViews.FlushBest`; src/coins.cpp:197).
- Disconnecting a block never restores the coin-stake flag, and a spend at height zero restores no
  flags at all (`CoinsUndo.RestoreAfterSpend`; src/main.cpp:2217-2228).
- `GetSerializeSize` computes the header code with a factor of 8, `Serialize` with 16
  (`CoinsStream.SizesAgree`; src/coins.h:183, 207).
- A negative version or height does not come back from the variable-length format
  (`VarInt.NegativeIsLost`), and the mixing rounds of an output are not stored
  (`CoinsCodec.KeptExactly`).
- `x *= x` on one object yields zero (`ArithUint.BaseUint.MulAssign`; src/arith_uint256.cpp:107).
- The remark that a partial tree needs at most 2*N-1 bits for N hashes fails for three transactions of
  which the last is matched (`MerkleSize.RemarkFails`; src/merkleblock.h:47). It is right if and only
  if no match lies below a last node with one child, and otherwise exceeded by no more than the height
  (`MerkleSize.BitsBound`).
- With fewer than ten enabled masternodes no budget payment is ever accepted, because the comparison
  with the highest count less a tenth is strict (`MasternodeBudget.SmallNetworkRefuses`,
  `PaymentIsAccepted`; src/masternode-budget.cpp:624). The tolerance for other vote counts is exactly
  "twice the difference is less than a tenth" (`DriftIsTolerated`, `DriftIsTooFar`).
- The rule that a stake-modifier selection hashes by is switched by the height of the earliest
  candidate by time, which need not be the lowest, not even when every block is later than the median
  time before it (`Kernel.LowestNeedNotBeFirst`; src/kernel.cpp:99-103). It differs from "the lowest
  candidate is past the switch" if and only if the earliest is past it and some candidate is not
  (`Kernel.RulesDiffer`), so never while times rise with the height (`Kernel.RisingAgrees`).
- A proof-of-stake block is not always favored over a proof-of-work block: it is, whatever its own hash,
  if and only if the selection hash of the other is at least 2^224 (`Kernel.FavouredFrom`,
  `StakeIsFavoured`; src/kernel.cpp:115-120).
- An amount comes back from its compact form if and only if that form fits 64 bits
  (`AmountLimits.FitsExactly`), which it does for all amounts up to 2^60, beyond the money supply, and
  not for the largest 64-bit one (`Compressor.LargeAmountIsLost`; src/compressor.cpp:137-180).
- A range with a byte in the last page of the address space is walked without end, because no page is
  above the last one (`LockedPages.LastPageNeverEnds`; src/allocators.h:50-54).

## Model

| member | source | states |
|---|---|---|
| `AddrMan.AddrMan.constructor` | src/addrman.h:428-451 | a new manager is consistent and empty |
| `AddrMan.AddrMan.Clear` | src/addrman.h:428-446 | slots, random order, counters and key start afresh; entries and hosts stay |
| `AddrMan.AddrMan.Create` | src/addrman.cpp:89-99 | the new entry is indexed by host, last in the random order, and has the next id; nothing else changes |
| `AddrMan.AddrMan.SwapRandom` | src/addrman.cpp:101-119 | two positions of the random order change places, with the positions stored in the entries |
| `AddrMan.AddrMan.Delete` | src/addrman.cpp:121-133 | an unreferenced new entry leaves all indexes, the last of the random order taking its place |
| `AddrMan.AddrMan.ClearNew` | src/addrman.cpp:135-148 | a new-table slot is emptied; an entry that loses its last reference is deleted |
| `AddrMan.AddrMan.Find` | src/addrman.cpp:76-87 | the id found is the one whose entry has the host, for exactly the hosts in the index |
| `AddrMan.AddrMan.RemoveFromNew` | src/addrman.cpp:152-162 | leaving the new table empties every slot of the entry and no other, and counts its references to zero |
| `AddrMan.AddrMan.MakeRoomAt` | src/addrman.cpp:169-190 | the holder of a tried slot goes back to the new table with one reference, at the place of its own source |
| `AddrMan.AddrMan.MakeTried` | src/addrman.cpp:150-196 | the loops over buckets and the eviction together are the move on the tables (MakeTried of AddrOps); all assertions on the way hold |
| `AddrMan.AddrMan.Good_` | src/addrman.cpp:198-245 | a confirmation with a positive time keeps the manager valid, and the exit for an entry in no bucket is never taken |
| `AddrMan.AddrMan.Add_` | src/addrman.cpp:247-313 | an announcement keeps the manager valid, whatever the random draw, and does what Add of AddrOps says |
| `AddrMan.AddrMan.PlaceEntry` | src/addrman.cpp:292-311 | a slot is given to the entry or kept by its holder; an entry left without any reference is deleted |
| `AddrMan.AddrMan.Attempt_` | src/addrman.cpp:315-332 | a failed or started connection is noted and the manager stays valid for a time that is not negative |
| `AddrMan.AddrMan.Connected_` | src/addrman.cpp:472-490 | the time of a current connection is noted and the manager stays valid |
| `AddrMan.AddrMan.GetAddr_` | src/addrman.cpp:451-470 | the selection only permutes the random order and the manager stays valid |
| `AddrMan.AddrMan.Check_` | src/addrman.cpp:374-448 | the debugging check returns 0 exactly for CheckOk and otherwise the code of the first complaint of the code; it enters the hosts it misses into the index and changes nothing else; with IndexFits and a key it passes exactly on consistent tables, and these it leaves as they are |
| `AddrMan.RemovalIsUnref` | src/addrman.cpp:152-162 | clearing bucket by bucket takes away all references of the entry and no other |
| `AddrInvariant.CreateNewInv` | src/addrman.cpp:89-99 | creating an entry keeps consistency but for the one entry that has no reference yet |
| `AddrInvariant.DeleteInv` | src/addrman.cpp:121-133 | deleting the unreferenced entry makes the tables consistent again |
| `AddrInvariant.ClearNewInv` | src/addrman.cpp:135-148 | emptying a slot keeps consistency, also while another entry waits for its first reference |
| `AddrInvariant.AddRefInv` | src/addrman.cpp:302-305 | taking a free slot for a new entry keeps all counts exact |
| `AddrInvariant.PromoteInv` | src/addrman.cpp:191-196 | an entry without references may enter its free tried slot |
| `AddrOps.EvictInv` | src/addrman.cpp:168-190 | sending the holder of a tried slot back keeps consistency |
| `AddrOps.EvictEffect` | src/addrman.cpp:168-190 | besides the evicted entry only the one in the place it goes back to is affected |
| `AddrOps.MakeTriedInv` | src/addrman.cpp:150-196 | a move from new to tried, with or without an eviction, keeps consistency |
| `AddrOps.GoodInv` | src/addrman.cpp:198-245 | after a confirmation the tables are consistent if and only if the host is unknown or the time is positive |
| `AddrOps.AttemptInv` | src/addrman.cpp:315-332 | after an attempt the tables are consistent if and only if the host is unknown or the time is not negative |
| `AddrOps.AddInv` | src/addrman.cpp:247-313 | every announcement keeps consistency |
| `AddrRuns.Run` | src/addrman.cpp:89-490 | from a new manager every run of announcements, confirmations, attempts, connections and selections leaves consistent tables, for all hashes, times and draws |
| `AddrRuns.GoodPromotes` | src/addrman.cpp:198-245 | a confirmed new entry holds its tried slot and no new slot; with a free slot no other entry is touched |
| `AddrRuns.GoodEvicts` | src/addrman.cpp:168-190 | with a taken slot, its holder has exactly one new-table reference afterwards, and at most one further entry is touched |
| `AddrRuns.AddOutcome` | src/addrman.cpp:247-313 | true is answered exactly for a routable address of an unknown host, and the address is then kept if and only if its slot was free or its holder terrible or referenced elsewhere |
| `AddrEffects.KnownAnnounced` | src/addrman.cpp:255-311 | the announcement of a known host: time and services are brought up to date; an untried entry below the maximum gets a reference in its place for the source if the announcement is later than the time known by then, the draw is a multiple of 2^n for n references, and the place is free or held by a terrible entry; in every other case no slot and no count changes |
| `AddrEffects.LaterThanKnown` | src/addrman.cpp:257-268 | an announcement adds something new exactly when it is later than the known time and, without a penalty, not so late that the known time is brought up to it first |
| `AddrEffects.NewAnnounced` | src/addrman.cpp:286-311 | the announcement of an unknown host: if its place is free or held by an entry that is terrible or has other references, it is there with one reference and what was announced; if not, nothing is kept of it; whoever gives way loses one reference |
| `AddrEffects.Confirmed` | src/addrman.cpp:198-219 | a confirmation dates the last success and the last try, starts the count of attempts afresh and makes the entry tried; of an unknown address nothing is noted |
| `AddrEffects.AttemptsCounted` | src/addrman.cpp:315-332 | n attempts raise the count by n and keep the time of the last; nothing else changes |
| `AddrEffects.Connecting` | src/addrman.cpp:472-490 | a connection dates an address last seen more than twenty minutes before, and changes nothing else |
| `AddrEffects.SparedAfterTry` | src/addrman.cpp:36-37 | nothing is terrible for a minute after it was tried |
| `AddrEffects.TerribleExactly` | src/addrman.cpp:39-50 | after that an entry is terrible when it was not seen for thirty days or lies in the future, and otherwise exactly when it failed three times without any success, or ten times since a success more than a week ago |
| `AddrEffects.ThreeAttempts` | src/addrman.cpp:34-53 | an address that never answered is terrible after exactly three attempts |
| `AddrEffects.ConfirmedIsKept` | src/addrman.cpp:34-53 | a confirmed address becomes terrible exactly with the tenth attempt, and not within a week |
| `AddrRuns.GetAddrSpec` | src/addrman.cpp:451-470 | at most the allowed number of different acceptable hosts, and all of them when the limit is not reached |
| `AddrRuns.AnyoneMayBeFirst` | src/addrman.cpp:457-469 | from five entries on, any acceptable entry may be the first one handed out |
| `AddrGroups.Main` | src/addrman.cpp:13-32 | with the repository's constants every hash sends addresses into the tables |
| `AddrGroups.RangeIsLimited` | src/addrman.h:107-121 | in consistent tables one address range holds at most 8 * 64 places of the tried table |
| `AddrGroups.RunsLimitRanges` | src/addrman.h:107-121 | and so after every run |
| `AddrGroups.SourceIsLimited` | src/addrman.h:110-113 | whatever one source range announces goes into at most 64 buckets |
| `AddrCheck.CheckEntries` | src/addrman.cpp:382-406 | the first loop passes exactly when every entry is in order, and then collects the tried ids and the references owed; otherwise it complains about the entry with the least id that is not in order; the index keeps all its hosts |
| `AddrCheck.CheckTried` | src/addrman.cpp:413-425 | after the walk over the tried table nothing is left over exactly when each tried entry is in its slot, once, and nothing else is there; any complaint is one that some slot deserves |
| `AddrCheck.CheckNew` | src/addrman.cpp:427-438 | after the walk over the new table nothing is left over exactly when each new entry is where it hashes to, as often as it is counted; any complaint is one that some slot deserves |
| `AddrCheck.Check` | src/addrman.cpp:374-448 | all parts of the check together pass exactly for CheckOk; otherwise the complaint is the one that comes first in the order of the parts |
| `AddrCheck.CheckIsInv` | src/addrman.cpp:374-448 | with a key, the check passes and IndexFits if and only if the tables are consistent |
| `AddrCheck.PassedIndex` | src/addrman.cpp:398-399 | when the check passes, the host index is an exact inverse if and only if the entry with id 0 is indexed, there are as many hosts as entries, and all ids are below the counter |
| `AddrCheck.CheckRepairs` | src/addrman.cpp:398-399 | after a passed check the tables pass again without a change, and only the number of hosts and the counter are left to doubt |
| `AddrFiles.CheckMissesHost` | src/addrman.cpp:398-399 | a file with two new entries of one host, of which the buckets name the first only, is read into tables that pass although their host index has lost the entry with id 0 |
| `AddrPeers.Serialize` | src/addrman.h:276-323 | what is written is the saved form of the tables; the two assertions about counts hold |
| `AddrPeers.Unserialize` | src/addrman.h:326-421 | reading refuses a key that has not 32 bytes and otherwise yields LoadAll of what was read |
| `AddrReload.CountsAreLengths` | src/addrman.h:290-308 | there are as many new and tried entries to write as the counters say |
| `AddrReload.LoadNewIs` | src/addrman.h:346-364 | the new entries are back under their new ids |
| `AddrReload.LoadTriedIs` | src/addrman.h:366-385 | no tried entry is lost: the slot of each is free when it is read |
| `AddrReload.BucketsBack` | src/addrman.h:387-403 | every reference is back in the slot it came from |
| `AddrReload.ReloadRestores` | src/addrman.h:276-421 | reading into a new manager what a consistent one has written restores tables, addresses and reference counts up to the names of ids, and is consistent |
| `AddrFiles.RebuildIsSound` | src/addrman.h:346-421 | from any file with different hosts and a layout that cannot be used, new and tried entries are placed by their own hash: the tables are consistent, exactly the colliding entries are lost, and all others keep what was saved of them |
| `AddrFiles.OtherLayout` | src/addrman.h:346-421 | so whatever a consistent manager has written is read into consistent tables with any other number of new buckets |
| `AddrFiles.ClearedInv` | src/addrman.h:428-446 | a cleared object is consistent if and only if it had neither entries nor hosts |
| `AddrFiles.EmptyFileIntoUsed` | src/addrman.h:326-446 | reading an empty file into a consistent object prunes nothing, and leaves it consistent if and only if it had no entries |
| `Coins.CleanupKeeps` | src/coins.h:120-126 | trimming keeps every available output, and leaves no outputs exactly for spent transactions |
| `CoinsViewCache.CoinsViewCache.FetchCoins` | src/coins.cpp:85-101 | the entry found below is put into every cache above where it was found, fresh when it is entirely spent |
| `CoinsViewCache.CoinsViewCache.GetCoins` | src/coins.cpp:103-111 | the read of the stack of caches is GetCoins of CoinsViews |
| `CoinsViewCache.CoinsViewCache.HaveCoins` | src/coins.cpp:142-150 | true exactly when the flat value of the key is there |
| `CoinsViewCache.CoinsViewCache.SetBestBlock` | src/coins.cpp:159-162 | the layer has the best block of its own; entries and lower layers stay |
| `CoinsViewCache.CoinsViewCache.ModifyCoins` | src/coins.cpp:113-130 | the entry is in the cache, dirty, and fresh when the layer below has nothing or something entirely spent |
| `CoinsViewCache.CoinsViewCache.EndModify` | src/coins.cpp:268-276 | the entry is trimmed, and dropped when it is fresh and entirely spent |
| `CoinsViewCache.CoinsViewCache.BatchWrite` | src/coins.cpp:164-199 | all dirty entries are taken in, with the flags that keep the stack consistent, and the FRESH assertion holds |
| `CoinsViewCache.CoinsViewCache.Flush` | src/coins.cpp:201-206 | the content moves one layer down and no read changes |
| `CoinsViewCache.CoinsViewDB.BatchWrite` | src/txdb.cpp:53-72 | dirty entries are written, entirely spent ones erased, and a best block that is set is stored |
| `CoinsViews.GetCoinsSpec` | src/coins.cpp:85-111 | a read answers with the flat value, up to entirely spent coins, and changes no meaning of any layer |
| `CoinsViews.HaveCoinsSpec` | src/coins.cpp:142-150 | HaveCoins agrees with "not entirely spent" |
| `CoinsViews.ModifySpec` | src/coins.cpp:113-130 | a modification changes the flat value of its key to what was made of it, and nothing else |
| `CoinsViews.WriteBackAssert` | src/coins.cpp:170-175 | a live dirty entry that the layer below does not hold is marked FRESH, so the assertion never fails |
| `CoinsViews.BatchWriteSpec` | src/coins.cpp:164-199 | after the write-back the layer below means what the stack meant |
| `CoinsViews.FlushSpec` | src/coins.cpp:201-206 | flushing empties the layer, keeps the invariant and moves exactly its changes |
| `CoinsViews.FlushBest` | src/coins.cpp:164-206 | flushing keeps the best block if and only if the layer knew its own, or the layer below has none of its own to lose |
| `CoinsViews.GetBestBlockSpec` | src/coins.cpp:152-157 | reading the best block through a layer changes no meaning |
| `CoinsRuns.RunRefines` | src/coins.cpp:85-206 | every run of reads, modifications, flushes, discards and new layers gives the answers of the same run on plain maps |
| `CoinsUndo.SpendSpec` | src/coins.cpp:35-51 | spending nulls the output and drops null outputs at the end, and no other |
| `CoinsUndo.LeftAfterSpend` | src/coins.cpp:35-51 | outputs are left after a spend exactly when another one was available before, and exactly otherwise the undo information keeps height, version and flags |
| `CoinsUndo.RestoreAfterSpend` | src/main.cpp:2214-2235 | undoing a spend restores the coins if and only if another output was available before it, or there is no coin-stake flag and either a height or no other flag |
| `CoinsUndo.RestoreIsClean` | src/main.cpp:2214-2235 | undoing is reported as clean exactly when another output was available or the height is not zero |
| `VarInt.WriteVarInt` | src/serialize.h:399-413 | the buffer written backwards is the encoding of the number |
| `VarInt.ReadVarInt` | src/serialize.h:416-428 | reading yields the number that the bytes stand for, cut to the width of the type |
| `VarInt.ReadWritten` | src/serialize.h:361-428 | reading what was written gives the number back and stops behind it |
| `VarInt.EncodingIsUnique` | src/serialize.h:361-383 | every number has exactly one encoding |
| `VarInt.NegativeIsLost` | src/serialize.h:399-428 | a negative number does not come back |
| `Compressor.CompressAmount` | src/compressor.cpp:137-154 | for every 64-bit amount the result is its compact form modulo 2^64, and the compact form itself up to 2^60 |
| `Compressor.DecompressAmount` | src/compressor.cpp:156-180 | the result is the amount a compact form stands for, cut to 64 bits |
| `Compressor.AmountOfCompact` | src/compressor.cpp:137-180 | decompressing undoes compressing |
| `Compressor.CompactOfAmount` | src/compressor.cpp:128-180 | and compressing undoes decompressing |
| `Compressor.LargeAmountIsLost` | src/compressor.cpp:137-180 | the largest 64-bit amount does not come back from its compact form |
| `AmountLimits.FitsExactly` | src/compressor.cpp:137-180 | compressing and decompressing in 64 bits give an amount back if and only if its compact form is less than 2^64 |
| `Compressor.DecompressCompressed` | src/compressor.cpp:43-126 | a special script comes back from its compact form, whose size is the one announced |
| `Compressor.CompactForms` | src/compressor.cpp:12-84 | payments to the hash of a key or a script, to a compressed key and to a full key that is a point have the compact forms 0 to 5 |
| `Compressor.CompressDecompressed` | src/compressor.cpp:43-126 | whatever can be decompressed is the compact form of what it yields |
| `Compressor.HasCompactForm` | src/compressor.cpp:43-126 | exactly the scripts that some compact form yields have one |
| `Compressor.ScriptRoundTrip` | src/compressor.h:70-96 | every script comes back from the stream, which is read up to its end |
| `CoinsCodec.CalcMaskSize` | src/coins.cpp:16-33 | the loops count the mask bytes up to the last that is not zero, and those that are not zero |
| `CoinsCodec.MaskRoundTrip` | src/coins.h:239-253 | counting non-zero bytes, the reader stops behind exactly the last mask byte |
| `CoinsCodec.SomeMask` | src/coins.h:206 | the assertion of Serialize: without the first two outputs some mask byte is not zero |
| `CoinsCodec.CoinsRoundTrip` | src/coins.h:200-263 | reading what was written yields the coins without their mixing rounds, and consumes exactly what was written |
| `CoinsCodec.KeptExactly` | src/coins.h:200-263 | nothing is lost if and only if the coins are clean, never mixed, and null outputs carry nothing |
| `CoinsStream.Serialize` | src/coins.h:200-227 | the loops write the bytes of the coins |
| `CoinsStream.Unserialize` | src/coins.h:230-263 | the loops read what the bytes stand for, or fail at the end of the stream |
| `CoinsCodec.SignedAre` | src/coins.h:230-263 | what is read into a signed variable is the number of its width that is the same modulo 2^32 or 2^64 |
| `CoinsStream.GetSerializeSize` | src/coins.h:175-197 | the size counted is that of the bytes written, but for a header code with factor 8 |
| `CoinsStream.SizesAgree` | src/coins.h:183-207 | the two header codes take equally many bytes if and only if no boundary of the number format lies between them |
| `CheckQueue.ApplyInv` | src/checkqueue.h:69-158 | every step of every thread keeps the invariant |
| `CheckQueue.RunsAreSafe` | src/checkqueue.h:69-190 | in every interleaving Wait returned the conjunction of the checks added since the last one, nTodo is what is queued and unreported, and the master waits only for something |
| `CheckQueue.IdleBetweenSessions` | src/checkqueue.h:164-190 | the assertion of a new controller holds |
| `CheckQueue.NeverStuck` | src/checkqueue.h:69-143 | while the master waits, some thread can take a step that brings the end nearer |
| `CheckQueue.EveryStepProductive` | src/checkqueue.h:69-143 | no step undoes work; a spurious wake-up changes nothing |
| `CheckQueue.WaitReturns` | src/checkqueue.h:140-143 | the number of steps that change something before Wait returns is bounded |
| `CheckSessions.AddWakes` | src/checkqueue.h:146-158 | adding several checks wakes every sleeping worker, adding one wakes exactly one if there is one; nobody else is touched, and the checks are queued and outstanding |
| `CheckSessions.LastReportWakes` | src/checkqueue.h:79-85 | the report that leaves nothing outstanding wakes a waiting master |
| `CheckSessions.TakesShare` | src/checkqueue.h:105-122 | a thread takes the most checks from the end of the queue that neither exceed the batch size nor an equal share, but one at least, and leaves the rest |
| `CheckSessions.AnswersAreConjunctions` | src/checkqueue.h:69-190 | in every interleaving the answers of Wait are, in turn, the conjunctions of the checks that the calls of Add since the last return were given |
| `CheckSessions.WaitAnswers` | src/checkqueue.h:128-158 | so it is from a new queue on |
| `ArithUint.BaseUint.AddAssign` | src/arith_uint256.h:138-147 | the sum modulo 2^BITS; no carry leaves 64 bits |
| `ArithUint.BaseUint.SubAssign` | src/arith_uint256.h:149-153 | the difference modulo 2^BITS |
| `ArithUint.BaseUint.Negated` | src/arith_uint256.h:80-88 | the negative modulo 2^BITS |
| `ArithUint.BaseUint.Increment` | src/arith_uint256.h:175-182 | one more, modulo 2^BITS |
| `ArithUint.BaseUint.Decrement` | src/arith_uint256.h:192-199 | one less, modulo 2^BITS |
| `ArithUint.BaseUint.Assign` | src/arith_uint256.h:91-98 | a 64-bit number is the value |
| `ArithUint.BaseUint.GetLow64` | src/arith_uint256.h:267-271 | the value modulo 2^64 |
| `ArithUint.BaseUint.MulAssignSmall` | src/arith_uint256.cpp:92-101 | the product with a 32-bit number modulo 2^BITS |
| `ArithUint.BaseUint.ProductFits` | src/arith_uint256.cpp:92-117 | carry, limb and product of two limbs add up to less than 2^64 |
| `ArithUint.BaseUint.AddProduct` | src/arith_uint256.cpp:108-115 | one round of the product adds one limb times the other number, shifted |
| `ArithUint.BaseUint.MulAssign` | src/arith_uint256.cpp:104-117 | the product modulo 2^BITS, but zero when both operands are the same object |
| `ArithUint.BaseUint.CompareTo` | src/arith_uint256.cpp:146-155 | the order of the values |
| `ArithUint.BaseUint.EqualTo` | src/arith_uint256.cpp:158-169 | equality of the values |
| `ArithUint.BaseUint.ShiftLeftAssign` | src/arith_uint256.cpp:58-72 | the value times 2^shift modulo 2^BITS, for any shift |
| `ArithUint.BaseUint.ShiftRightAssign` | src/arith_uint256.cpp:75-89 | the value divided by 2^shift, rounded down |
| `ArithUint.BaseUint.Bits` | src/arith_uint256.cpp:196-208 | the number of binary digits |
| `ArithUint.BaseUint.DivAssign` | src/arith_uint256.cpp:120-143 | the quotient rounded down for every divisor but zero, which is refused |
| `ArithUint.DivTake` | src/arith_uint256.cpp:133-141 | subtracting the shifted divisor and setting the bit keeps num + quotient * divisor |
| `Compact.SetCompact` | src/arith_uint256.cpp:244-262 | the value is mantissa times 256^(size-3) modulo 2^256, and the overflow flag says exactly whether that is 2^256 or more |
| `Compact.OverflowExact` | src/arith_uint256.cpp:257-260 | the three tests on size and mantissa are exactly "at least 2^256" |
| `Compact.GetCompact` | src/arith_uint256.cpp:264-285 | the mantissa is the first three bytes for the least exponent that leaves the sign bit free |
| `Compact.CompactIsUnique` | src/arith_uint256.cpp:264-285 | that determines the result |
| `Compact.CompactLoss` | src/arith_uint256.cpp:244-285 | reading the compact form back is not more than the number and less than one unit of the last byte below it; exact for exponents up to three |
| `Compact.CompactNumbersAreKept` | src/arith_uint256.cpp:244-285 | a number that a compact form without overflow stands for comes back unchanged |
| `Bits.PackBits` | src/merkleblock.h:94-98 | the bytes hold the bits and nothing else |
| `Bits.UnpackBits` | src/merkleblock.h:99-105 | each bit is the one of its byte |
| `Bits.PackedRoundTrip` | src/merkleblock.h:88-106 | packing and unpacking gives the bits back, filled up with zeros to whole bytes |
| `PartialMerkle.PartialMerkleTree.Build` | src/merkleblock.cpp:105-118 | bits and hashes of a new tree are the encoding of the mask |
| `PartialMerkle.PartialMerkleTree.NodeHash` | src/merkleblock.cpp:37-53 | the hash of a node, an odd last node paired with itself |
| `PartialMerkle.PartialMerkleTree.ParentOfMatch` | src/merkleblock.cpp:57-60 | whether a matched transaction is below a node |
| `PartialMerkle.PartialMerkleTree.TraverseAndBuild` | src/merkleblock.cpp:55-72 | exactly the encoding of the node is appended |
| `PartialMerkle.PartialMerkleTree.TraverseAndExtract` | src/merkleblock.cpp:74-103 | the cursors and matches move on as decoding the node says, whatever the input |
| `PartialMerkle.PartialMerkleTree.ExtractMatches` | src/merkleblock.cpp:122-154 | zero unless sizes, flags and both consumption tests are right; then the decoded root with its matches |
| `PartialMerkle.PartialMerkleTree.WriteBytes` | src/merkleblock.h:88-98 | the bytes written hold the bits of the tree and nothing else |
| `MerkleTree.ExtractBuilt` | src/merkleblock.cpp:55-103 | decoding at a node reads exactly what was written for it and finds its hash and matches |
| `MerkleTree.BuildSize` | src/merkleblock.cpp:131-136 | an encoding has no more hashes than transactions and no more hashes than bits |
| `MerkleSize.BitsExactly` | src/merkleblock.cpp:55-72 | the bits are one less than two for each hash, plus one for each node with a single child that is gone through |
| `MerkleSize.BitsBound` | src/merkleblock.h:32-48 | the documented number of bits holds if and only if no match lies below a last node with a single child, and is never exceeded by more than the height |
| `MerkleSize.RemarkFails` | src/merkleblock.h:47 | it fails for three transactions of which the last is matched |
| `MerkleTree.HeightIsSmall` | src/merkleblock.cpp:55-60 | with the largest number of transactions no shift leaves 31 bits |
| `MerkleProofs.EncodeDecode` | src/merkleblock.cpp:55-154 | a tree built from any non-empty list and mask, packed into bytes and back, passes every check and yields the root and exactly the matched ids in order |
| `MerkleProofs.DecodeIsSound` | src/merkleblock.cpp:74-154 | with an injective pair hash, any accepted tree with the root of a list of the same length yields only ids of the list, at strictly increasing positions |
| `MerkleParts.AcceptedIsEncoding` | src/merkleblock.cpp:122-154 | within the size limits, bits and hashes are accepted if and only if they are the encoding of a partial tree, filled up to whole bytes; its root and its matches are what is extracted |
| `MerkleParts.OnePart` | src/merkleblock.cpp:74-103 | that partial tree is unique |
| `MerkleParts.NothingFollows` | src/merkleblock.cpp:146-152 | nothing may follow an accepted tree except bits that fill up its last byte |
| `MerkleProofs.LevelIsCalcHash` | src/merkleblock.cpp:37-53 | hashing level by level and by recursion agree at every node |
| `MerkleProofs.DuplicateKeepsLevels` | src/primitives/block.cpp:22-60 | repeating the last of an odd number of transactions keeps the root, and the mutation flag sees it |
| `MerkleRoots.DuplicateSubtree` | src/primitives/block.cpp:22-60 | at any height with an odd number of nodes, repeating the transactions of the last whole subtree changes no level above, and the level itself has twins |
| `MerkleRoots.DuplicateKeepsRoot` | src/primitives/block.cpp:22-60 | below the top that keeps height and root, and the mutation flag sees it |
| `MerkleRoots.RootDetermines` | src/primitives/block.cpp:22-80 | with an injective pair hash, two lists of the same height and root in neither of which the flag is set are equal |
| `PartialMerkle.BuildMerkleTree` | src/primitives/block.cpp:20-81 | the flat list is all levels in turn, the result is the root that partial trees are checked against, and the flag says whether some level ends in twins |
| `PartialMerkle.RootsAgree` | src/primitives/block.cpp:20-81 | the root of a block is the root that partial trees are checked against |
| `Radix.MulAdd` | src/base58.cpp:96-104 | the carry loop multiplies the number in the buffer and adds a digit, and the carry is zero at the end |
| `Radix.DigitsAreUnique` | src/base58.cpp:105-115 | a number has one representation without leading zeros |
| `Base58.EncodeFits` | src/base58.cpp:93 | 138 / 100 digits for each byte are enough |
| `Base58.DecodeFits` | src/base58.cpp:34 | 733 / 1000 bytes for each digit are enough |
| `Base58.EncodeBase58` | src/base58.cpp:83-116 | the loops produce one letter for each leading zero byte and the digits of the rest |
| `Base58.Decode` | src/base58.cpp:22-66 | the loops accept exactly letters of the alphabet between spaces, and produce their bytes |
| `Base58.DecodeBase58` | src/base58.cpp:123-126 | a string is read up to its first NUL |
| `Base58.DecodeEncode` | src/base58.cpp:22-116 | decoding gives back every byte string |
| `Base58.EncodeDecode` | src/base58.cpp:22-116 | encoding gives back every string over the alphabet |
| `Base58.SpacesAreIgnored` | src/base58.cpp:24-55 | spaces at either end make no difference |
| `Base58.SpacesAre` | src/base58.cpp:24-25 | the characters with codes 9 to 13 and 32 are spaces |
| `BlockView.ApplyTx` | src/main.cpp:2038-2052 | the loop spends the inputs, each of which can be spent, and adds the outputs |
| `BlockView.UpdateCoinsSpec` | src/main.cpp:2038-2052 | afterwards exactly the inputs are gone and exactly the spendable outputs are new |
| `BlockView.UpdateCoinsKeeps` | src/main.cpp:2038-2052 | the new outputs are those of the transaction with its height, flags and version, and what is left of other coins is as it was |
| `BlockView.NoDoubleSpend` | src/main.cpp:2038-2052 | no two transactions of a block spend the same output |
| `Miner.TakeHighest` | src/miner.cpp:251-258 | nothing left in the queue goes before what was taken |
| `Miner.Collect` | src/miner.cpp:170-245 | every eligible transaction is queued, or waits for exactly those parents that are not in the chain; one with an input in neither chain nor pool is skipped |
| `Miner.Release` | src/miner.cpp:320-331 | of those waiting for a transaction exactly the ones that wait for nothing else are queued, once |
| `Miner.ReleasedWaiting` | src/miner.cpp:320-331 | who is queued are those that waited before and do not any more, also when one parent is spent twice |
| `Miner.PopInv` | src/miner.cpp:251-258 | what is taken off the queue is new, and all it depends on is in the block |
| `Miner.Add` | src/miner.cpp:303-331 | block, view, totals and queue take a transaction in together |
| `Miner.Turn` | src/miner.cpp:251-332 | one turn takes the candidate with the highest fee rate, or the highest priority before the order changes; the order changes exactly at the first candidate that reaches the priority size or is not free; the candidate is included exactly when limits, fees, inputs and checks allow, and is otherwise passed over for a reason |
| `Miner.SelectTransactions` | src/miner.cpp:170-332 | the selection ends with an empty queue and the invariant, also with transactions whose inputs are missing, and every refusal has a reason |
| `Miner.SelectionIsSound` | src/miner.cpp:170-332 | each chosen transaction once and after its parents; its fee and its signature operations, those of the scripts it spends included, are the ones it has where it stands, its inputs were checked there, and the totals stay within the limits; who was never looked at waits for someone not chosen, and who was refused did not fit, paid too little or could not be spent at some point of the block |
| `Miner.SizeLimits` | src/miner.cpp:146-160 | the block size is as configured between 1000 and 999000, and the other two sizes are no bigger |
| `Miner.SelectionSpendsOnce` | src/miner.cpp:170-332 | no output is spent twice in the block |
| `Miner.EligibleMeans` | src/miner.cpp:172-211 | only final transactions, neither coin base nor coin stake, with every input from the chain or the pool are chosen |
| `Miner.DependsOnMeans` | src/miner.cpp:182-211 | a transaction waits for exactly those in the pool that it spends and the chain has no coins of |
| `Conservation.ApplyTakesFee` | src/main.cpp:2038-2052 | applying a transaction takes its fee, and what it pays to unspendable outputs, from the total of unspent outputs |
| `Conservation.SelectionConserves` | src/miner.cpp:170-332 | the total of unspent outputs after the chosen transactions, the recorded fees and what is paid to nobody add up to the total before |
| `SkipHeights.GetSkipHeight` | src/main.cpp:3657-3669 | every block above the genesis skips to a lower one |
| `SkipHeights.FewSteps` | src/main.cpp:3660-3692 | from a height of k binary digits no ancestor is more than k * k pointers away |
| `BlockChain.BlockIndex.GetAncestor` | src/main.cpp:3671-3692 | following skip pointers arrives where the walk over parents does, in no more steps than the square of the number of binary digits of the height |
| `BlockChain.BlockIndex.Child` | src/main.cpp:3699-3703 | a new block gets a skip pointer to its ancestor at the skip height |
| `BlockChain.Chain.Next` | src/chain.h:525-531 | the child in the chain, for exactly the blocks of it that are not the tip |
| `BlockChain.Chain.HeightIsTips` | src/chain.h:498-542 | the height is the one of the tip, -1 without a tip, and each height up to it has the ancestor of the tip |
| `BlockChain.Chain.EqualByTips` | src/chain.h:511-516 | comparing lengths and last blocks compares whole chains, as long as neither is empty |
| `BlockChain.Chain.SetTip` | src/chain.cpp:13-24 | although the loop stops at the first slot that is right, the chain is the whole path to the tip |
| `BlockChain.Chain.FindFork` | src/chain.cpp:55-62 | the highest common block |
| `BlockChain.Chain.GetLocator` | src/chain.cpp:26-53 | the hashes of the ancestors one, then twice as many blocks further back at each step after the first ten, ending with the genesis; at most 11 + log2 of the height |
| `BlockChain.EntriesDescend` | src/chain.cpp:36-50 | the entries lie strictly lower and lower |
| `LockedPages.PagesTouched` | src/allocators.h:50-54 | the pages visited are exactly those the range has a byte in |
| `LockedPages.LockedPageManager.LockRange` | src/allocators.h:47-66 | each count is the number of live ranges that touch the page, and pages with a count are locked |
| `LockedPages.LockedPageManager.UnlockRange` | src/allocators.h:69-89 | the same after giving a range back, and the assertion holds |
| `LockedPages.LockedPageManager.GetLockedPageCount` | src/allocators.h:92-96 | the number of locked pages |
| `LockedPages.LastPageNeverEnds` | src/allocators.h:50-66 | when the range has a byte in the last page, no page address ends the walk |
| `LockedPages.StillCounted` | src/allocators.h:78-79 | a page of a live range has a count until it is given back |
| `Kernel.Section` | src/kernel.cpp:56-61 | every section takes some time and at most a modifier interval |
| `Kernel.SectionLaw` | src/kernel.h:14-18 | section n is the most seconds of which 189 - 2n go into 63 intervals, so the first is a third of the interval and the last the whole of it |
| `Kernel.SectionsGrow` | src/kernel.h:16-18 | no section is shorter than the one before |
| `Kernel.LastStop` | src/kernel.cpp:185-192 | the last of 64 rounds stops where the interval of the previous block begins |
| `Kernel.SelectBlockFromCandidates` | src/kernel.cpp:76-134 | the search ends at the first candidate that is late (once something is found) or not indexed, and finds the first with the least selection hash among the unselected ones before; it fails exactly for one that is not indexed or when nothing is left |
| `Kernel.SearchIsChosen` | src/kernel.cpp:76-134 | over sorted candidates that is the least among all unselected up to the stop time, or the first unselected one if none is inside |
| `Kernel.StakeIsFavoured` | src/kernel.cpp:105-120 | the hash a proof-of-stake block is selected by is divided by 2^32, so it goes before any proof-of-work block whose selection hash is 2^224 or more |
| `Kernel.FavouredFrom` | src/kernel.cpp:115-120 | whatever hash it has, it goes first if and only if the other is at least 2^224 |
| `Kernel.OldRuleIgnoresStake` | src/kernel.cpp:105-110 | under the old rule all proof-of-stake candidates are equal |
| `Kernel.RulesDiffer` | src/kernel.cpp:98-103 | the hash rule taken is the one of the lowest candidate unless the earliest is past the switch and some candidate is not |
| `Kernel.RisingAgrees` | src/kernel.cpp:98-103 | it is while times rise with the height |
| `Kernel.LowestNeedNotBeFirst` | src/kernel.cpp:98-103 | a chain that respects median times, where it is not |
| `Kernel.TimelineIsSound` | src/kernel.cpp:180-193 | the candidates are sorted, different, in the index, and are the recent ancestors |
| `Kernel.GetLastStakeModifier` | src/kernel.cpp:42-53 | the modifier and time of the last block that generated one |
| `Kernel.ComputeNextStakeModifier` | src/kernel.cpp:149-240 | the cases that keep or fix the modifier; otherwise exactly min(64, n) rounds, none failing, and bit r is the entropy bit of pick r |
| `Kernel.PicksDiffer` | src/kernel.cpp:196-214 | no block is picked twice |
| `Kernel.ModifierIsUnique` | src/kernel.cpp:176-239 | the rules determine the picks and the modifier |
| `Kernel.GetKernelStakeModifier` | src/kernel.cpp:244-272 | the modifier of the first later block generated at least a selection interval after; failure exactly when there is none |
| `MasternodePayments.AddPayee` | src/masternode-payments.h:107-120 | only the votes of the payee go up, and the order of payees stays |
| `MasternodePayments.GetPayee` | src/masternode-payments.h:122-135 | the first payee with the most votes |
| `MasternodePayments.HasPayeeWithVotes` | src/masternode-payments.h:137-146 | whether the payee has that many votes |
| `MasternodePayments.BlockIsTransactionValid` | src/masternode-payments.cpp:512-573 | accepted exactly when nobody has six votes or someone who has is paid enough |
| `MasternodePayments.LeaderIsAccepted` | src/masternode-payments.cpp:512-573 | paying the payee with the most votes is always accepted |
| `MasternodePayments.AcceptedByVotes` | src/masternode-payments.cpp:512-573 | in terms of the kept votes, a payment is accepted if and only if nobody has six of them for the block or somebody who has is paid what is required |
| `MasternodePayments.MasternodePaymentVotes.AddWinningMasternode` | src/masternode-payments.cpp:485-510 | a vote is kept once, and every tally is the number of kept votes |
| `MasternodePayments.MasternodePaymentVotes.CleanPaymentList` | src/masternode-payments.cpp:618-645 | exactly the old votes and lists go, so the tallies stay exact |
| `MasternodePayments.MasternodePaymentVotes.GetBlockPayee` | src/masternode-payments.cpp:445-452 | nobody has more kept votes than the one returned; nobody is returned exactly when there are none |
| `MasternodePayments.MasternodePaymentVotes.FillBlockPayee` | src/masternode-payments.cpp:281-331 | the payee is paid, the total of a proof-of-stake transaction stays, and the result is accepted by whoever requires no more |
| `MasternodeBudget.GetPayeeAndAmount` | src/masternode-budget.h:351-361 | a payment is found exactly for the blocks from the first to the last of the budget |
| `MasternodeBudget.BudgetIsTransactionValid` | src/masternode-budget.cpp:1926-1953 | valid exactly when some output pays the exact amount to the payee of the block |
| `MasternodeBudget.BudgetManager.IsBudgetPaymentBlock` | src/masternode-budget.cpp:551-573 | whether a budget for the block has more than a twentieth of the masternodes |
| `MasternodeBudget.BudgetManager.IsTransactionValid` | src/masternode-budget.cpp:592-637 | accepted exactly when a budget within a tenth of the highest count is paid |
| `MasternodeBudget.BudgetManager.FillBlockPayee` | src/masternode-budget.cpp:453-510 | the first budget with the most votes is paid in full |
| `MasternodeBudget.BudgetManager.UpdateFinalizedBudget` | src/masternode-budget.cpp:1297-1321 | one vote for each masternode, replaced only by one at least an hour newer; a vote for an unknown budget is kept aside, and the budget asked for once, if it comes from a peer after the sync |
| `MasternodeBudget.PaymentIsAccepted` | src/masternode-budget.cpp:453-637 | in a budget block the payment added passes the check if and only if there are ten masternodes or more |
| `MasternodeBudget.SmallNetworkRefuses` | src/masternode-budget.cpp:611-632 | with fewer than ten masternodes nothing is accepted in a budget block |
| `MasternodeBudget.DriftIsTolerated` | src/masternode-budget.cpp:611-632 | it also passes with other vote counts, as long as twice the difference is less than a tenth of the masternodes |
| `MasternodeBudget.DriftIsTooFar` | src/masternode-budget.cpp:611-632 | at twice the difference it can be refused, also when no budget has more votes than there are masternodes |
| `MasternodeBudget.ProposalBook.GetBudget` | src/masternode-budget.cpp:671-723 | after the votes are checked, the eligible proposals in the order of net votes, within the budget; whichever is left out did not fit at its turn; besides vote marks only allotments change |
| `MasternodeBudget.FundedByVotes` | src/masternode-budget.cpp:661-723 | along the result yes votes less no votes do not increase, equal ones in descending order of fee hashes; each proposal on it may be funded, and one that may be and is left out did not fit in what those not behind it had left |
| `MasternodeBudget.CycleIs` | src/masternode-budget.cpp:696-697 | the cycle starts at the least multiple of its length above the height and ends before the next |
| `MasternodeBudget.ProposalBook.CleanAll` | src/masternode-budget.cpp:1462-1470 | every vote is marked with whether it is valid, and nothing else changes |
| `MasternodeBudget.CountVotes` | src/masternode-budget.cpp:1490-1501 | the number of valid votes of a kind |
| `BlockPayee.IsBlockPayeeValid` | src/masternode-payments.cpp:223-257 | which check decides, and what the enforcement switches forgive |
| `BlockPayee.FillBlockPayee` | src/masternode-payments.cpp:260-270 | what a miner fills in passes the check of a node with the same votes, given ten masternodes in a budget block and a sufficient payment in any other |

## Left out

- Compressor.DecompressCompressed: elliptic-curve point decompression is a parameter that inverts compression.
- Compressor.ScriptRoundTrip: for scripts whose length fits the 32-bit size field; elliptic-curve point decompression is a parameter that inverts compression.
- LockedPages.LockedPageManager.LockRange: for ranges without a byte in the last page of the address space; with one the walk has no end.
- AddrMan.AddrMan.Good_: the walk from a random bucket finds some bucket of the entry; which one is not stated because nothing depends on it.
- AddrPeers.Serialize: reads the tables as values and writes a record of what goes to the stream; the byte layout of addresses in `peers.dat` is not modelled. A stream that ends early or a negative count is not modelled either.
- AddrPeers.Unserialize: builds new tables as values, which stand for the new object.
- CoinsViewCache.CoinsViewCache.ModifyCoins: the modifier object is a call at each end of the change; one modification at a time, as its assertion demands.
- Miner.SelectTransactions: a transaction with a missing input may have no input before it that depends on the pool; the source leaves such a dependency pointing to a removed entry. Priorities, fee rates, script checks and signature-operation counts of scripts are parameters, and the heap is a bag from which some greatest element is taken.
- Kernel.ComputeNextStakeModifier: all ancestors of the previous block must be in the block index under their hashes; times are unsigned, so the divisions agree with the source. The modifier of the first block is the address of a string literal (src/kernel.cpp:160), which the source does not determine; it is a parameter.
- MasternodePayments.MasternodePaymentVotes.FillBlockPayee: the amount is a parameter; the table of percentages by masternode count (src/main.cpp:1659) uses floating point and is not modelled. A proof-of-stake transaction must have an output to take the payment from.
- MasternodePayments.MasternodePaymentVotes.AddWinningMasternode: the hash of the vote and whether the chain knows its reference block are parameters.
- MasternodeBudget.ProposalBook.GetBudget: whether a vote is valid (known masternode and signature) is a parameter; proposals with equal votes and equal fee hash may come in any order, as the library's sort allows.
- CheckQueue.RunsAreSafe: one master at a time, as the code requires; the mutex and the condition variables are taken as correct.
- BlockChain.Chain.GetLocator: the step length is unbounded; in the source it would overflow an `int` only beyond heights of 2^30.
- Integer widths of counters and ids (`nIdCount`, `nTodo`, vote counts, block sizes) are unbounded; wrap-around is modelled in the 256-bit numbers, the variable-length format, amounts and times of addresses.
- `Select_` and `GetChance` of the address manager: floating point, and termination only with probability one.
- The vector form of `Add`, which repeats the single form.
- `GetBlockTrust`, `getdouble`, hexadecimal conversion and the bitwise operators of 256-bit numbers.
- `CheckStakeKernelHash` and the search for a kernel: hashing against a target, without state.
- Base58 with a checksum, addresses and keys: concatenation and hashing around what is modelled.
- White space outside ASCII and other locales in Base58 decoding.
- Network, disk, wallet, RPC, startup and signature code.

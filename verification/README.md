# Verified models of the pool and of its Zcash node

This project models the parts of the repository where several hidden conditions have to hold together, and
proves what they promise, for all inputs and all runs.  Classes stand for the objects that the source updates
in place; each method is proved against what its object denotes, and the lemmas say what the denotation is
good for.

* **Layered coins view** (`CoinsCache`, `CoinsModel`, `CoinsRuns`, `Coins`).  A write-back cache over a view that
  may itself be a cache.  Each layer denotes one state; reading changes no layer, each change touches its key
  only, and a run in a child followed by a flush acts on the parent as if it had been made there.  Whatever the
  layers, each question is answered as the last operation that concerned it says.
* **Subtree and history caches** (`SubtreeCaches`, `HistoryCaches`).  A kept prefix of the parent's list plus
  additions; flushing makes the parent's list the child's.
* **History tree** (`HistoryTree`).  Where the peaks of a Merkle mountain range lie (ZIP 221, "Incremental push
  and pop").
* **Stored coins** (`CoinsCodec`).  The bit mask format and its reader.
* **Address manager** (`AddrMan`, `AddrModel`).  Five linked indexes that stay consistent under every sequence of
  requests.  Its own check (`AddrCheck`) decides these conditions, and storing and loading (`AddrStore`,
  `AddrLoad`) gives the same manager under new ids.
* **Check queue** (`CheckQueue`).  A master and any number of workers, all interleavings of their critical
  sections.
* **256-bit arithmetic** (`ArithUint`, `Limbs`, `Powers`) and **compact targets** (`Compact`).
* **Rolling bloom filter** (`Bloom`, `Words`) and **cuckoo cache** (`Cuckoo`).
* **Block index and active chain** (`Chain`).
* **Codecs**: `Base58`, `Bech32` (BIP 173, section "Bech32"; BIP 350, section "Bech32m"), `Amounts`.
  `Bech32Meaning` says what the checksum is: the remainder of a division of polynomials over the field of 32
  elements.
* **Share search of the pool** (`ShareSearch`).

`dafny verify dfyconfig.toml` checks everything.

## What the proofs found

* Flushing a coins view writes the child's best block and best anchors into the parent even when they are null.
  A parent that had set its own then forgets it.  The contract of `Flush` gives the exact condition and
  `CoinsRuns.FlushForgetsBlock` an example.
* `ModifyNewCoins` over an entry that the cache already has leaves the old size in the memory counter
  (`CoinsRuns.CreatedTwice`); `CoinsRuns.PerformAll` says by exactly how much the counter is too large after a run.
* Coins with a negative version or height, or with a spent output that still holds a script, are not read back as
  they were stored (`CoinsCodec.RoundTrip`).
* `a *= a` on a 256-bit number gives 0, because the operand is cleared before it is read; division by zero
  clears the number before it reports the error.
* The cuckoo cache's comment says that the first displacement starts at the first of the eight places; the code
  starts at the second.
* The address manager's check overlooks addresses that are registered without an entry
  (`AddrCheck.StaleAddressPasses`), and by reading `mapAddr` it registers the address of id 0 if that is missing;
  `AddrCheck.PassesIff` says that it overlooks nothing else.
* `Add_` reports a new address even when its entry is dropped again because its slot could not be taken.
* In the pool, a job that is still kept is always for the current height, so the "Stale Job" answer cannot be
  given by a known job.
* The comment beside the variable-length integers gives wrong bytes for 16511 and 65535
  (`CoinsCodec.SomeForms`); its formula is right.
* Amount compression loses amounts beyond the range of money: `Amounts.SurvivesExactly` says which.

## Model

| member | source | states |
|---|---|---|
| CoinsCache.CCoinsViewCache.OverDatabase | zcash/src/coins.cpp:90-90 | a cache over the database denotes the database state |
| CoinsCache.CCoinsViewCache.Over | zcash/src/coins.cpp:90-90 | a new cache over another one denotes the same state |
| CoinsCache.CCoinsViewCache.Remember | zcash/src/coins.cpp:111-127 | caching an answer of the view below keeps every invariant; pruned coins are filed as fresh |
| CoinsCache.CCoinsViewCache.FetchCoins | zcash/src/coins.cpp:111-127 | reading coins changes no view in the whole chain; nothing found means the view has no such coins |
| CoinsCache.CCoinsViewCache.GetCoinsBelow | zcash/src/coins.cpp:111-127 | what the parent reports is the abstract coin of the view below, and it is cached there |
| CoinsCache.CCoinsViewCache.GetCoins | zcash/src/coins.cpp:751-758 | the reported coins are the abstract ones up to pruning; no layer changes |
| CoinsCache.CCoinsViewCache.HaveCoins | zcash/src/coins.cpp:799-806 | the test for a non-empty output list is membership in the abstract state, except that coins a modifier has open count as soon as they have any output |
| CoinsCache.CCoinsViewCache.GetAnchorAt | zcash/src/coins.cpp:130-197 | returns the anchor of the abstract state, from whatever layer has it; no view changes |
| CoinsCache.CCoinsViewCache.RememberAnchor | zcash/src/coins.cpp:141-148 | caching an anchor of the view below keeps every invariant |
| CoinsCache.CCoinsViewCache.GetNullifier | zcash/src/coins.cpp:199-225 | true exactly when the nullifier is spent in the abstract state; no view changes |
| CoinsCache.CCoinsViewCache.GetBestBlock | zcash/src/coins.cpp:808-812 | the abstract best block; a null hash is looked up below and kept |
| CoinsCache.CCoinsViewCache.GetBestAnchor | zcash/src/coins.cpp:815-835 | the abstract best anchor of the pool; a null hash is looked up below and kept |
| CoinsCache.CCoinsViewCache.ModifyCoins | zcash/src/coins.cpp:760-779 | opening an entry changes no view; the opened entry denotes the abstract coins |
| CoinsCache.CCoinsViewCache.ModifyNewCoins | zcash/src/coins.cpp:781-788 | with no unspent coins below, only that key is cleared; the memory counter drifts by the size that was overwritten |
| CoinsCache.CCoinsViewCache.OpenEntry | zcash/src/coins.cpp:760-788 | the dirty entry keeps the meaning of FRESH and DIRTY and the accounting |
| CoinsCache.CCoinsModifier.Assign | zcash/src/coins.h:592-607 | writing through a modifier changes exactly its key of the abstract state |
| CoinsCache.CCoinsModifier.Destroy | zcash/src/coins.cpp:1164-1176 | cleaning up, erasing a fresh pruned entry and updating the counter change no view; the counter stays the sum of the cached sizes |
| CoinsCache.CCoinsViewCache.WriteAnchor | zcash/src/coins.cpp:294-308 | a dirty anchor entry changes exactly its key, and the counter stays exact although an existing entry is not recounted |
| CoinsCache.CCoinsViewCache.PushAnchor | zcash/src/coins.cpp:277-309 | the tree becomes the best anchor of its pool and is entered unless it was the best already; nothing else changes |
| CoinsCache.CCoinsViewCache.PopAnchor | zcash/src/coins.cpp:668-698 | the best anchor leaves the view and the given one becomes best; that the best anchor can be loaded, which the code asserts, holds over every run by CoinsRuns.BestStaysKnown |
| CoinsCache.CCoinsViewCache.BringBestAnchorIntoCache | zcash/src/coins.cpp:342-366 | the best anchor that is not the given one ends up in the cache, under the root of its own tree |
| CoinsCache.CCoinsViewCache.SetNullifiers | zcash/src/coins.cpp:731-749 | afterwards a nullifier is spent if it is among the given ones and they were marked as spent, or if it is not among them and was spent before, and otherwise not |
| CoinsCache.CCoinsViewCache.SetBestBlock | zcash/src/coins.cpp:837-839 | the best block becomes the given one, or that of the view below for a null hash |
| CoinsCache.CCoinsViewCache.WriteCoins | zcash/src/coins.cpp:939-968 | one dirty entry of a child is merged: the view takes exactly its value, and the assertion that it is fresh where the parent has no entry never fails |
| CoinsCache.CCoinsViewCache.BatchWriteCoins | zcash/src/coins.cpp:938-970 | the view becomes the view of the child |
| CoinsCache.CCoinsViewCache.BatchWriteAnchors | zcash/src/coins.cpp:862-892 | the anchors become those of the child although trees of existing entries are not copied |
| CoinsCache.CCoinsViewCache.BatchWriteNullifiers | zcash/src/coins.cpp:841-860 | the nullifiers become those of the child |
| CoinsCache.CCoinsViewCache.BatchWrite | zcash/src/coins.cpp:923-990 | all three at once; the best pointers are taken from the child even when null |
| CoinsCache.CCoinsViewCache.Flush | zcash/src/coins.cpp:992-1024 | the parent ends with exactly the coins, anchors and nullifiers of this view; a best pointer carries over if and only if this cache has its own, or the parent has none, or the parent agrees with the view below it; this cache is emptied and keeps its own pointers |
| CoinsCache.CCoinsViewCache.PointersSeen | zcash/src/coins.cpp:808-835 | the pointers of a view, and exactly when they are those of the view below |
| CoinsCache.CCoinsViewCache.ClearCaches | zcash/src/coins.cpp:1012-1023 | emptying the cache after the parent took everything over keeps the view |
| CoinsCache.CCoinsViewCache.UsageKnown | zcash/src/coins.cpp:97-109 | with no modifier open the memory counter is the size of everything cached plus what ModifyNewCoins has forgotten |
| CoinsModel.PutCoins | zcash/src/coins.cpp:111-127 | an entry that obeys the flags keeps all flags right and changes exactly its key |
| CoinsModel.DropCoins | zcash/src/coins.cpp:1171-1172 | erasing an entry exposes the base |
| CoinsModel.PutAnchor | zcash/src/coins.cpp:294-308 | an anchor entry under its root keeps the flags right and changes exactly its key |
| CoinsModel.ViewOk | zcash/src/coins.cpp:111-197 | a layer over a well-formed state denotes a well-formed state |
| CoinsModel.OpenFits | zcash/src/coins.cpp:760-788 | opening an entry: flags, tidiness, backing and the size of the rest |
| CoinsModel.AssignFits | zcash/src/coins.cpp:760-788 | changing an open entry changes exactly its key and the size of nothing else |
| CoinsModel.CleanFits | zcash/src/coins.cpp:1164-1176 | cleaning an open entry up leaves the view alone |
| CoinsModel.DropFits | zcash/src/coins.cpp:1170-1172 | a fresh pruned entry can be erased without changing the view |
| CoinsModel.CloseFits | zcash/src/coins.cpp:1164-1176 | closing a modifier, both branches: same view, tidy cache, exact size |
| CoinsModel.WriteFits | zcash/src/coins.cpp:939-968 | merging one child entry, all four branches: flags, backing, view and size |
| CoinsModel.CoinsMergedDone | zcash/src/coins.cpp:938-970 | when every child entry has been merged the view is the child's |
| CoinsModel.AnchorsMergedDone | zcash/src/coins.cpp:862-892 | when every anchor entry has been merged the anchors are the child's |
| CoinsModel.SumRemove | zcash/src/coins.cpp:97-109 | the summed size does not depend on the order of summation |
| CoinsModel.CoinsTotalPut | zcash/src/coins.cpp:125-125 | how the summed size changes with one entry |
| CoinsModel.TreesTotalPut | zcash/src/coins.cpp:301-304 | how the summed size of trees changes with one entry |
| CoinsRuns.Perform | zcash/src/coins.cpp:111-309 | one operation on the layered cache has the effect and gives the answer of the same operation on a plain state; what it costs the memory counter, and whether the cache has its own pointers then |
| CoinsRuns.PerformAll | zcash/src/coins.cpp:111-309 | so has every run of operations: same final state, every answer is the one that the operations before it call for, and the memory counter is too large by exactly the coins that were created over, empty output lists taking no space |
| CoinsRuns.PerformInChild | zcash/src/coins.cpp:923-1024 | a run in a new child followed by a flush gives the answers that its operations call for and leaves the parent's coins, anchors and nullifiers as if the run had been made on it; each best pointer carries over if and only if the run touched it, or the parent had none of its own, or it agreed with the view below |
| CoinsRuns.AnsweredAsCalled | zcash/src/coins.cpp:111-309 | every answer of a run is the one that the list of the operations before it calls for: coins, block and best anchor as written last, nullifiers as marked last, a tree as pushed last and not popped since |
| CoinsRuns.SpentStays | zcash/src/coins.cpp:731-749 | a nullifier is spent after a run exactly if the last operation that marked it marked it spent, or none did and it was spent before |
| CoinsRuns.MarkIsSeen | zcash/src/coins.cpp:199-225 | a nullifier that is marked is seen as it was marked, until it is marked differently |
| CoinsRuns.CoinsStay | zcash/src/coins.cpp:760-788 | after a run every output of a name is as it was written last, with its height, version and origin |
| CoinsRuns.BlockStays | zcash/src/coins.cpp:837-839 | the best block after a run is the one set last |
| CoinsRuns.BestStays | zcash/src/coins.cpp:277-309 | the best anchor of a pool after a run is the root pushed, or gone back to, last |
| CoinsRuns.TreeStays | zcash/src/coins.cpp:277-309 | a tree is known after a run exactly if the last push that made it the best anchor came after the last pop that removed it |
| CoinsRuns.UntouchedKept | zcash/src/coins.cpp:808-839 | a run that does not touch a best pointer leaves it as it is |
| CoinsRuns.FlushForgetsBlock | zcash/src/coins.cpp:985-988 | a concrete flush after which the parent has lost its best block |
| CoinsRuns.NewCoinsCost | zcash/src/coins.cpp:781-788 | what ModifyNewCoins forgets is exactly the size of the coins of that name in the view, nothing if there are none |
| CoinsRuns.NewNamesCostNothing | zcash/src/coins.cpp:781-788 | a run leaves the counter exact if, and when unspent coins take space only if, it creates only names without unspent coins |
| CoinsRuns.CreatedTwice | zcash/src/coins.cpp:781-788 | a concrete run after which the memory counter is too large |
| CoinsRuns.PopKeepsBestKnown | zcash/src/coins.cpp:668-698 | popping leaves every pool's best anchor known if and only if it goes back to a known anchor |
| CoinsRuns.BestStaysKnown | zcash/src/coins.cpp:668-698 | over every run of pushes and of pops to known anchors the best anchors stay known, so that each pop finds its tree |
| Coins.Cleanup | zcash/src/coins.h:117-122 | the loop drops exactly the spent outputs at the end |
| Coins.CleanedKeeps | zcash/src/coins.h:117-122 | cleaning keeps availability and values, is idempotent, and empties the list exactly for pruned coins |
| SubtreeCaches.SubtreeCache.Initialize | zcash/src/coins.cpp:1184-1190 | fetching the parent's latest subtree does not change the list denoted |
| SubtreeCaches.SubtreeCache.GetLatestSubtree | zcash/src/coins.cpp:1192-1213 | index and data of the last subtree of the denoted list |
| SubtreeCaches.SubtreeCache.GetSubtreeData | zcash/src/coins.cpp:1215-1243 | the entry of the denoted list at the index, or none; both assertions hold |
| SubtreeCaches.SubtreeCache.PushSubtree | zcash/src/coins.cpp:1245-1249 | appends to the denoted list |
| SubtreeCaches.SubtreeCache.PopSubtree | zcash/src/coins.cpp:1251-1281 | removes the last of the denoted list; an error exactly for an empty list; the inconsistency error never happens |
| SubtreeCaches.SubtreeCache.PopSubtrees | zcash/src/coins.cpp:1315-1318 | the pop loop removes that many |
| SubtreeCaches.SubtreeCache.ResetSubtrees | zcash/src/coins.cpp:1283-1289 | the denoted list is empty |
| SubtreeCaches.SubtreeCache.BatchWrite | zcash/src/coins.cpp:1291-1329 | the parent's list becomes the child's; neither inconsistency error happens |
| SubtreeCaches.MakeInChild | zcash/src/coins.cpp:1291-1329 | any run of pushes, pops and resets in a child followed by a flush acts on the parent's list |
| HistoryCaches.HistoryCache.Extend | zcash/src/zcash/History.cpp:14-16 | appends to the denoted node sequence |
| HistoryCaches.HistoryCache.Truncate | zcash/src/zcash/History.cpp:18-40 | shortens the denoted sequence; cached nodes past the end are forgotten, the depth of change is recorded |
| HistoryCaches.HistoryCache.GetHistoryAt | zcash/src/coins.cpp:232-246 | the node of the denoted sequence, an error exactly past the end |
| HistoryCaches.HistoryCache.Absorb | zcash/src/coins.cpp:900-915 | truncating and extending makes the sequence, length and root the child's |
| HistoryCaches.WriteEpoch | zcash/src/coins.cpp:898-919 | one epoch becomes the child's, cached or not; the others stay |
| HistoryCaches.BatchWriteHistory | zcash/src/coins.cpp:894-921 | for every epoch the parent's sequence and root become the child's |
| HistoryCaches.SplicedExtend | zcash/src/zcash/History.cpp:14-16 | appending to the cached part appends to the whole |
| HistoryTree.StoredLength | zcash/src/coins.cpp:398-407 | a history of n leaves stores 2n minus the number of set bits of n nodes |
| HistoryTree.StoredBlock | zcash/src/coins.cpp:415-427 | 2^k leaves are stored as one perfect tree |
| HistoryTree.StoredAfterBlock | zcash/src/coins.cpp:415-427 | leaves after a full block build a range of their own |
| HistoryTree.PeaksTile | zcash/src/coins.cpp:437-472 | the peaks, one per set bit in falling altitude, tile the stored nodes |
| HistoryTree.PeaksAreRoots | zcash/src/coins.cpp:437-472 | each peak position is the root of a perfect subtree of that altitude |
| HistoryTree.ChildrenAreRoots | zcash/src/coins.cpp:496-509 | the two children of a root are roots one level below |
| HistoryTree.SlopeAreRoots | zcash/src/coins.cpp:496-509 | so are all pairs down the right slope |
| HistoryTree.AltitudeOfStored | zcash/src/coins.cpp:392-435 | the altitude of the highest peak is that of the highest set bit of n |
| HistoryTree.FloorLog2 | zcash/src/coins.cpp:384-390 | the rounded-down binary logarithm |
| HistoryTree.DraftMMRNode | zcash/src/coins.cpp:368-382 | the drafted entry names its own position and its children's |
| HistoryTree.FindPeaks | zcash/src/coins.cpp:439-472 | the walk finds exactly the peaks, in order, ends, and reads no node outside the history; positions fit 32 bits |
| HistoryTree.AddSlope | zcash/src/coins.cpp:494-509 | adds exactly the child pairs of the right slope of the last peak |
| HistoryTree.PreloadHistoryTree | zcash/src/coins.cpp:398-512 | one peak per set bit of n, with the slope if wanted; an error exactly for an empty history |
| HistoryTree.LoadedAreRoots | zcash/src/coins.cpp:398-512 | everything loaded is the root of a perfect subtree and the peaks tile the history |
| CoinsCodec.WriteVarInt | zcash/src/serialize.h:362-377 | writes the variable-length form |
| CoinsCodec.ReadVarInt | zcash/src/serialize.h:379-391 | reads it |
| CoinsCodec.VarIntInverts | zcash/src/serialize.h:362-391 | a number that is not negative is read back and nothing after it is consumed; of a negative one the seven lowest bits |
| CoinsCodec.VarIntMeans | zcash/src/serialize.h:322-344 | what is written is a byte string with the flag on all bytes but the last, and by the formula of the comment it encodes the number |
| CoinsCodec.OneForm | zcash/src/serialize.h:331-336 | every integer has exactly one encoding |
| CoinsCodec.SomeForms | zcash/src/serialize.h:338-343 | encodings from the table in the comment, two of them corrected: 16511 is FF 7F and 65535 is 82 FE 7F |
| CoinsCodec.CalcMaskSize | zcash/src/coins.cpp:23-39 | the last used mask byte and the number of non-zero bytes |
| CoinsCodec.MaskBitsAre | zcash/src/coins.h:172-178 | bit i of mask byte b says whether output 2 + 8b + i is unspent |
| CoinsCodec.MaskByteZero | zcash/src/coins.cpp:23-39 | a mask byte is zero exactly when its outputs are all spent |
| CoinsCodec.UsedHoldsAll | zcash/src/coins.cpp:23-39 | the bytes up to the last used one contain all non-zero bytes |
| CoinsCodec.SomethingUnspent | zcash/src/coins.h:163-165 | the assertion that some output is unspent holds for coins that are not pruned |
| CoinsCodec.Serialize | zcash/src/coins.h:159-186 | the stored form, whose layout is stated by StoredHeader, MaskBitsAre and OutsInOrder |
| CoinsCodec.StoredHeader | zcash/src/coins.h:142-186 | the version comes first; then a code whose bits say whether it is a coinbase, whether output 0 and whether output 1 is unspent, and how many mask bytes are not zero, less one if neither is; then mask, outputs and height |
| CoinsCodec.OutsInOrder | zcash/src/coins.h:180-184 | the unspent outputs are stored one after the other, in their order |
| CoinsCodec.Unserialize | zcash/src/coins.h:188-220 | the reader, including streams that end too early |
| CoinsCodec.MaskReadBack | zcash/src/coins.h:199-210 | the reader stops exactly at the end of a mask whose last byte is not zero |
| CoinsCodec.AnnouncedRight | zcash/src/coins.h:171-210 | header and mask announce exactly the unspent outputs, padded with spent ones |
| CoinsCodec.OutsReadBack | zcash/src/coins.h:211-216 | the outputs are read back in place |
| CoinsCodec.HeaderParts | zcash/src/coins.h:166-199 | the four fields packed into the header code are recovered |
| CoinsCodec.ReadBack | zcash/src/coins.h:159-220 | all coins that are not pruned come back without the spent outputs at the end and with the others blanked, and nothing beyond is consumed |
| CoinsCodec.RoundTrip | zcash/src/coins.h:159-220 | coins that are not pruned come back as they were if and only if they are trimmed, their spent outputs are blank, and version and height are not negative |
| AddrMan.CAddrMan.Find | zcash/src/addrman.cpp:74-85 | finds exactly the known addresses |
| AddrMan.CAddrMan.Create | zcash/src/addrman.cpp:87-97 | adds one entry at the end of the random order; all indexes stay consistent |
| AddrMan.CAddrMan.SwapRandom | zcash/src/addrman.cpp:99-117 | exchanges two places of the random order and their back-pointers, nothing else |
| AddrMan.CAddrMan.Delete | zcash/src/addrman.cpp:119-131 | removes exactly an unreferenced new entry from all indexes |
| AddrMan.CAddrMan.ClearNew | zcash/src/addrman.cpp:133-146 | empties a slot and deletes its entry exactly when that was its last reference |
| AddrMan.CAddrMan.LeaveNew | zcash/src/addrman.cpp:150-160 | the entry leaves all its new slots and its count is zero |
| AddrMan.CAddrMan.LeaveTried | zcash/src/addrman.cpp:168-176 | the occupant of a tried slot becomes an unreferenced new entry |
| AddrMan.CAddrMan.EnterNew | zcash/src/addrman.cpp:184-187 | the evicted entry takes one new slot |
| AddrMan.CAddrMan.EnterTried | zcash/src/addrman.cpp:191-193 | the entry takes its tried slot |
| AddrMan.CAddrMan.MakeRoom | zcash/src/addrman.cpp:166-189 | a tried slot is freed; who was evicted and who was displaced from the new table |
| AddrMan.CAddrMan.MakeTried | zcash/src/addrman.cpp:148-194 | the whole move to the tried table keeps the checked conditions and touches no other entry |
| AddrMan.CAddrMan.TakeTried | zcash/src/addrman.cpp:162-194 | the tried slot is freed and entered; both counters stay exact |
| AddrMan.RoomCounts | zcash/src/addrman.cpp:162-194 | how many entries are new and tried after one has been evicted and another displaced |
| AddrMan.CAddrMan.Good_ | zcash/src/addrman.cpp:196-243 | keeps the checked conditions; a known service gets the time as its last success and last try, and no failed attempts; the exit for an entry in no bucket is unreachable; unknown addresses change nothing |
| AddrMan.CAddrMan.Add_ | zcash/src/addrman.cpp:245-311 | keeps the checked conditions; reports new exactly for routable unknown addresses, which get an entry with what was reported exactly if their slot is free, terribly held or held by an entry with another slot; the time of a known address moves to the reported one less the penalty, but not below 0, exactly if it was 0 or is older than the report by more than 3600 seconds and the penalty where the report is less than 86400 seconds old, and by more than 86400 and the penalty otherwise; its services grow; nothing else of it changes |
| AddrMan.CAddrMan.EnterBucket | zcash/src/addrman.cpp:289-309 | a slot is taken only if it is empty or its occupant is terrible or multiply referenced; an entry left without reference goes |
| AddrMan.CAddrMan.TakeSlot | zcash/src/addrman.cpp:300-303 | the slot changes hands and the counts stay exact |
| AddrMan.CAddrMan.Refresh | zcash/src/addrman.cpp:255-269 | exactly when the time of a known entry moves and to what, in seconds; its services become the bitwise or; nothing else changes |
| AddrMan.CAddrMan.Touch | zcash/src/addrman.cpp:255-262 | the same for a single entry |
| AddrMan.ReportedAgain | zcash/src/addrman.cpp:264-309 | exactly when a report of a known address wins it one more slot: the report is newer, the entry is new with fewer than eight slots, the random number is a multiple of two to the power of their number, and the slot is free or terribly held |
| AddrMan.CAddrMan.Introduce | zcash/src/addrman.cpp:283-286 | an unknown address becomes an unreferenced entry |
| AddrMan.NewcomerSettles | zcash/src/addrman.cpp:282-310 | what becomes of an unknown address: an entry with the reported address, services, source and time less the penalty, or none; who is dropped for it |
| AddrMan.CAddrMan.Attempt_ | zcash/src/addrman.cpp:313-330 | only the attempt statistics of the known service change |
| AddrMan.CAddrMan.Connected_ | zcash/src/addrman.cpp:495-513 | only the time of the known service changes, and only when it is twenty minutes old |
| AddrMan.CAddrMan.GetAddr_ | zcash/src/addrman.cpp:474-493 | the sample is drawn from the random order and holds exactly the addresses of the entries met that are not terrible: distinct networks, at most 2500 and at most 23 in a hundred; only the random order changes |
| AddrMan.SampleSize | zcash/src/addrman.cpp:476-478 | the size of the sample is 23 in a hundred, rounded down, or 2500 if that is less |
| AddrMan.CAddrMan.Shuffle | zcash/src/addrman.cpp:484-486 | one step of the partial shuffle keeps the part already drawn |
| AddrMan.Serve | zcash/src/addrman.cpp:196-330 | every sequence of requests from an empty manager keeps the checked conditions |
| AddrMan.SearchFinds | zcash/src/addrman.cpp:222-237 | a new entry that is referenced is found by the probe over all buckets |
| AddrMan.OfferedDistinct | zcash/src/addrman.cpp:474-493 | entries at different places have different networks |
| AddrMan.OfferedExactly | zcash/src/addrman.cpp:487-491 | exactly the entries that are not terrible are offered |
| AddrMan.MovedInSteps | zcash/src/addrman.cpp:148-194 | the parts of the move compose to the whole |
| AddrModel.RefsPut | zcash/src/addrman.cpp:397-471 | filling an empty slot raises exactly one count by one |
| AddrModel.TerribleMeans | zcash/src/addrman.cpp:32-50 | when an entry is terrible, in seconds and attempts |
| AddrModel.RefsDrop | zcash/src/addrman.cpp:397-471 | emptying a slot lowers exactly one count by one |
| AddrModel.SwapKeepsRandom | zcash/src/addrman.cpp:99-117 | exchanging two places keeps the permutation and its back-pointers |
| AddrModel.SameEntriesConsistent | zcash/src/addrman.cpp:99-117 | a change of places alone keeps every other index consistent |
| AddrModel.DropLastConsistent | zcash/src/addrman.cpp:119-131 | dropping the last place with its unreferenced entry keeps every index consistent |
| AddrStore.Serialize | zcash/src/addrman.h:290-337 | the stored form: each entry once, new ones first, and each bucket's list of entries by number |
| AddrStore.StoreEntries | zcash/src/addrman.h:303-322 | the entries of one status in the order of their ids; the assertion on the counter never fails |
| AddrStore.StoreBuckets | zcash/src/addrman.h:323-336 | each bucket's list names exactly the occupied positions in order |
| AddrStore.StoreBucket | zcash/src/addrman.h:323-336 | the announced size is the length of the list that follows |
| AddrStore.AllIdsNumber | zcash/src/addrman.h:303-322 | the numbering is one-to-one, with exactly the new entries first |
| AddrStore.ReferencedAreNew | zcash/src/addrman.h:308-312 | storing the referenced entries stores exactly the new ones |
| AddrLoad.StoreAndLoad | zcash/src/addrman.h:290-443 | storing and loading gives the same manager under new ids: every entry, slot, count and address, nothing lost, and the checked conditions hold |
| AddrLoad.Unserialize | zcash/src/addrman.h:340-443 | a stored manager is rebuilt up to numbering; no tried slot collides, no new slot is refused, nothing is pruned, and neither limit is exceeded |
| AddrLoad.LoadNews | zcash/src/addrman.h:368-386 | the new entries come back under their numbers |
| AddrLoad.LoadTried | zcash/src/addrman.h:390-405 | an entry is lost exactly when its tried slot is taken |
| AddrLoad.LoadTrieds | zcash/src/addrman.h:388-407 | no tried entry is lost |
| AddrLoad.LoadRef | zcash/src/addrman.h:417-423 | a bucket takes a named entry exactly when its place is free and it has fewer than eight references |
| AddrLoad.LoadBucket | zcash/src/addrman.h:410-425 | after a bucket exactly its old slots are occupied by the same entries |
| AddrLoad.LoadBuckets | zcash/src/addrman.h:409-425 | the new table is the old one up to numbering |
| AddrLoad.Prune | zcash/src/addrman.h:427-437 | exactly the new entries without reference go, and they are counted |
| AddrLoad.RefTaken | zcash/src/addrman.h:417-423 | every named entry finds its old place free and has fewer than eight references |
| AddrLoad.TriedFree | zcash/src/addrman.h:394-396 | the tried slot of the next entry is free |
| AddrLoad.AddressFree | zcash/src/addrman.h:368-372 | the address of the next entry is not known yet |
| AddrLoad.LoadedRenumbers | zcash/src/addrman.h:340-443 | once all is loaded every index is the old one up to numbering, with every count reproduced |
| AddrLoad.LimitsHold | zcash/src/addrman.h:360-366 | a consistent manager never exceeds the limits that the reader checks |
| AddrCheck.Check_ | zcash/src/addrman.cpp:397-471 | accepts exactly the states that meet its conditions with a key that is not null; every consistent manager is left as it is |
| AddrCheck.CheckIndexes | zcash/src/addrman.cpp:397-466 | the check up to the key accepts exactly the states that meet its conditions |
| AddrCheck.PassesIff | zcash/src/addrman.cpp:397-471 | the indexes are consistent exactly if the check passes, every registered address has its entry and the address of id 0 is registered |
| AddrCheck.StaleAddressPasses | zcash/src/addrman.cpp:421-422 | a state that the check accepts although an address is registered without an entry |
| AddrCheck.CheckEntries | zcash/src/addrman.cpp:406-429 | accepts exactly if every entry is right; collects the tried ids and the reference counts; reading mapAddr may register the address of id 0 |
| AddrCheck.CheckTried | zcash/src/addrman.cpp:436-448 | accepts exactly if each slot holds a tried entry that belongs there; leaves the tried ids that are nowhere |
| AddrCheck.CheckNew | zcash/src/addrman.cpp:450-461 | accepts exactly if each slot holds a new entry at its position and none more often than counted; leaves the counts not used up |
| AddrCheck.CheckTables | zcash/src/addrman.cpp:436-466 | accepts exactly if moreover nothing is left over |
| AddrCheck.UnmetNext | zcash/src/addrman.cpp:438-445 | an id met twice is in a wrong slot |
| AddrCheck.NewNext | zcash/src/addrman.cpp:452-458 | counting down finds exactly the entries that are in too many slots |
| AddrCheck.RandomOkIff | zcash/src/addrman.cpp:402-403 | with as many places as entries, each entry at its own place means a permutation with exact back-pointers |
| AddrCheck.PassesInSteps | zcash/src/addrman.cpp:397-471 | the steps together are the conditions |
| CheckQueue.StepKeeps | zcash/src/checkqueue.h:71-163 | every atomic step of every thread keeps the invariant, in particular nTodo is queued plus in flight, and never divides by zero |
| CheckQueue.WaitIsExact | zcash/src/checkqueue.h:94-102 | when Wait returns nothing is pending, the result is the conjunction of the round's checks, and the next round starts clean |
| CheckQueue.NoLostWakeup | zcash/src/checkqueue.h:82-106 | a master asleep without notification waits for a worker that holds checks and can step |
| CheckQueue.RunsAreSafe | zcash/src/checkqueue.h:71-163 | on every interleaving each check added is in exactly one finished round or the current one, and every round was judged by its own checks |
| CheckQueue.StepConserves | zcash/src/checkqueue.h:111-163 | a step moves checks and loses or duplicates none |
| CheckQueue.TakeKeeps | zcash/src/checkqueue.h:107-122 | taking a batch keeps the invariant |
| CheckQueue.ReturnKeeps | zcash/src/checkqueue.h:93-102 | returning keeps the invariant |
| CheckQueue.PoppedContents | zcash/src/checkqueue.h:112-119 | the batch and the rest of the queue are the queue |
| CheckQueue.ShareBound | zcash/src/checkqueue.h:107-112 | the share of the queue is within the queue |
| CheckQueue.BatchIs | zcash/src/checkqueue.h:107-112 | the largest batch within the limit and the share, and at least one check |
| CheckQueue.AddWakes | zcash/src/checkqueue.h:151-163 | adding one check wakes the sleeping worker that is picked, adding more wakes every sleeping worker, and no other thread notices |
| CheckQueue.CCheckQueue.Section | zcash/src/checkqueue.h:80-122 | the critical section at the head of the loop computes the step of the protocol |
| CheckQueue.CCheckQueue.SectionAfterWait | zcash/src/checkqueue.h:93-122 | so does the one after a wait |
| CheckQueue.CCheckQueue.Pop | zcash/src/checkqueue.h:107-122 | takes the promised batch off the queue |
| CheckQueue.CCheckQueue.Add | zcash/src/checkqueue.h:151-163 | appends the checks and counts them |
| CheckQueue.RunBatch | zcash/src/checkqueue.h:123-127 | the batch verdict is the conjunction although checks after a failure are skipped |
| ArithUint.BaseUint.Assign64 | zcash/src/arith_uint256.h:88-95 | the number becomes b |
| ArithUint.BaseUint.AddAssign | zcash/src/arith_uint256.h:135-145 | adds modulo the width |
| ArithUint.BaseUint.Negate | zcash/src/arith_uint256.h:77-85 | the two's complement is the negation modulo the width |
| ArithUint.BaseUint.Increment | zcash/src/arith_uint256.h:173-180 | adds one modulo the width |
| ArithUint.BaseUint.SubAssign | zcash/src/arith_uint256.h:147-151 | subtracts modulo the width |
| ArithUint.BaseUint.ShlAssign | zcash/src/arith_uint256.cpp:21-36 | multiplies by a power of two modulo the width |
| ArithUint.BaseUint.ShrAssign | zcash/src/arith_uint256.cpp:38-53 | divides by a power of two |
| ArithUint.BaseUint.MulAssign32 | zcash/src/arith_uint256.cpp:55-65 | multiplies modulo the width |
| ArithUint.BaseUint.MulAssign | zcash/src/arith_uint256.cpp:67-81 | the product modulo the width; zero if the operand is the object itself |
| ArithUint.BaseUint.MulRow | zcash/src/arith_uint256.cpp:72-79 | one row adds a limb multiple at its column; what overflows is accounted for |
| ArithUint.BaseUint.DivAssign | zcash/src/arith_uint256.cpp:83-107 | quotient and remainder of the integers; fails exactly for a zero divisor, after having cleared the number |
| ArithUint.BaseUint.CompareTo | zcash/src/arith_uint256.cpp:109-119 | the sign of the difference |
| ArithUint.BaseUint.EqualTo | zcash/src/arith_uint256.cpp:121-133 | equality with a 64-bit number |
| ArithUint.BaseUint.Bits | zcash/src/arith_uint256.cpp:171-185 | the length in bits |
| ArithUint.BaseUint.GetLow64 | zcash/src/arith_uint256.h:245-249 | the number modulo 2^64 |
| ArithUint.Product | zcash/src/arith_uint256.h:212-212 | the friend operator multiplies a copy, so that equal operands are no exception |
| ArithUint.DivStep | zcash/src/arith_uint256.cpp:97-104 | one step of long division keeps number = quotient times divisor plus remainder, and the remainder below twice the aligned divisor |
| ArithUint.DivFinish | zcash/src/arith_uint256.cpp:97-106 | at the end the remainder is below the divisor |
| ArithUint.SetQuotientBit | zcash/src/arith_uint256.cpp:100-100 | setting the bit adds that power of two to the quotient |
| ArithUint.AddOfNegative | zcash/src/arith_uint256.h:147-151 | adding the negation subtracts |
| Limbs.ValueOfShl | zcash/src/arith_uint256.cpp:21-36 | or-ing shifted limbs into place is multiplication by a power of two modulo the width |
| Limbs.ValueOfShr | zcash/src/arith_uint256.cpp:38-53 | or-ing shifted limbs into place is division by a power of two |
| Limbs.ValueLess | zcash/src/arith_uint256.cpp:109-119 | the highest differing limb decides the comparison |
| Limbs.ValueInjective | zcash/src/arith_uint256.cpp:121-133 | different limbs are different numbers |
| Limbs.ValueOfComplement | zcash/src/arith_uint256.h:77-85 | a number and its complement add up to the largest |
| Limbs.WrapAround | zcash/src/arith_uint256.h:135-145 | dropping the last carry is reduction modulo the width |
| Compact.SetCompact | zcash/src/arith_uint256.cpp:205-223 | decodes size, mantissa, sign and overflow; FlagsMean says when the flags are raised |
| Compact.FlagsMean | zcash/src/arith_uint256.cpp:205-223 | overflow exactly if the mantissa at its place has more than 256 bits, and otherwise the number is the mantissa at its place; negative exactly if the sign bit is set and digits are left |
| Compact.GetCompact | zcash/src/arith_uint256.cpp:225-246 | encodes the leading digits; both assertions hold |
| Compact.CompactRoundTrip | zcash/src/arith_uint256.cpp:205-246 | for every 256-bit number the decoded code raises no flag, is at most the number and within the promised error, and encodes to the same code |
| Compact.SignSurvives | zcash/src/arith_uint256.cpp:205-246 | a negative number keeps its sign, unless it is zero, and its magnitude is treated like that of a positive one |
| Compact.EncodeRoundsDown | zcash/src/arith_uint256.cpp:225-246 | the code is the number rounded down to three digits of base 256, two if the sign bit is in the way |
| Compact.EncodeStable | zcash/src/arith_uint256.cpp:225-246 | encoding the rounded number gives the same code |
| Compact.LeadingDigits | zcash/src/arith_uint256.cpp:227-234 | the leading digits by shifting |
| Bloom.CRollingBloomFilter.Insert | zcash/src/bloom.cpp:206-238 | logs the key and keeps every cell showing its stamp |
| Bloom.CRollingBloomFilter.Contains | zcash/src/bloom.cpp:246-261 | true exactly when all cells of the key were touched in the last three generations, so for each of the last 2 * nEntriesPerGeneration keys at least |
| Bloom.CRollingBloomFilter.Initialize | zcash/src/bloom.cpp:273-286 | an empty filter |
| Bloom.CRollingBloomFilter.Reset | zcash/src/bloom.cpp:269-271 | forgets everything |
| Bloom.CRollingBloomFilter.Turn | zcash/src/bloom.cpp:211-226 | beginning a generation forgets exactly the oldest of the three |
| Bloom.CRollingBloomFilter.MarkAll | zcash/src/bloom.cpp:229-237 | exactly the cells of the key get the current label |
| Bloom.MarkCell | zcash/src/bloom.cpp:234-236 | exactly one cell gets the label |
| Bloom.Wipe | zcash/src/bloom.cpp:217-225 | exactly the cells with the label are cleared, 64 at a time |
| Bloom.WipeBit | zcash/src/bloom.cpp:220-224 | the mask keeps a bit unless both label bits agree |
| Bloom.TurnKeeps | zcash/src/bloom.cpp:211-225 | wiping the reused label forgets exactly the stamps three generations old |
| Bloom.MarkKeeps | zcash/src/bloom.cpp:229-237 | marking a key stamps exactly its cells with the current generation |
| Bloom.StampIs | zcash/src/bloom.cpp:206-238 | a cell's stamp reaches a generation exactly when a key of that generation or later touched it |
| Bloom.CellIsRecent | zcash/src/bloom.cpp:255-258 | a cell is set exactly when a key of the last three generations touched it |
| Bloom.LastKeysAreSeen | zcash/src/bloom.h:102-103 | the keys of the current and the two complete generations before it are seen |
| Words.FastMod | zcash/src/bloom.cpp:199-204 | a multiplication takes the place of the remainder; it fits 64 bits |
| Words.BitOfWithBit | zcash/src/bloom.cpp:235-236 | clearing and setting a bit changes that bit only |
| Words.BitOfXor | zcash/src/bloom.cpp:222-222 | exclusive or, bit by bit |
| Words.BitOfNot | zcash/src/cuckoocache.h:101-104 | the complement, bit by bit |
| Cuckoo.BitPackedAtomicFlags.BitSet | zcash/src/cuckoocache.h:90-93 | sets one flag and no other |
| Cuckoo.BitPackedAtomicFlags.BitUnset | zcash/src/cuckoocache.h:101-104 | clears one flag and no other |
| Cuckoo.BitPackedAtomicFlags.BitIsSet | zcash/src/cuckoocache.h:111-114 | reads a flag |
| Cuckoo.Cache.EpochCheck | zcash/src/cuckoocache.h:288-320 | leaves room for one more in the epoch; ages the elements exactly when the epoch is full and a scan is due |
| Cuckoo.Cache.CountCurrent | zcash/src/cuckoocache.h:297-303 | the number of live elements of the current epoch |
| Cuckoo.Cache.Age | zcash/src/cuckoocache.h:307-313 | the current elements become old and the old ones may go |
| Cuckoo.Cache.Insert | zcash/src/cuckoocache.h:392-440 | an element that is not there is added and at most one is lost; what the epoch check kept is everything or, when the epoch was full and a scan was due, exactly the live elements of the current epoch |
| Cuckoo.RetiredSize | zcash/src/cuckoocache.h:307-313 | an aging scan keeps as many elements as the epoch has |
| Cuckoo.Cache.Place | zcash/src/cuckoocache.h:395-440 | after the epoch check: conservation of elements, none lost if a place is free |
| Cuckoo.Cache.Displace | zcash/src/cuckoocache.h:416-438 | the swap exchanges the element in hand with a live one that can move on |
| Cuckoo.Cache.Swap | zcash/src/cuckoocache.h:431-435 | one in, one out, with their epochs |
| Cuckoo.Cache.NextPlace | zcash/src/cuckoocache.h:416-430 | the place after the last one; the second of the eight if there was no last |
| Cuckoo.Cache.Find | zcash/src/cuckoocache.h:397-405 | finds every live element at one of its places |
| Cuckoo.Cache.Contains | zcash/src/cuckoocache.h:469-479 | true for every live element; erasing makes at most that element dead |
| Cuckoo.FoundAtPlaces | zcash/src/cuckoocache.h:469-479 | looking at the eight places is enough |
| Cuckoo.LiveUpdate | zcash/src/cuckoocache.h:408-415 | how one slot changes the multiset of live elements |
| Cuckoo.CurrentUpdate | zcash/src/cuckoocache.h:297-303 | how one slot changes the size of the epoch |
| Cuckoo.LiveHas | zcash/src/cuckoocache.h:469-479 | an element is live exactly when a slot that is not collected holds it |
| Cuckoo.PutPlaced | zcash/src/cuckoocache.h:408-415 | writing an absent element at one of its places keeps elements placed and distinct |
| Chain.InvertLowestOneIs | zcash/src/chain.cpp:110-111 | clears the lowest set bit, so the result is smaller |
| Chain.LowestCleared | zcash/src/chain.cpp:110-111 | 2^k (2m + 1) becomes 2^k 2m |
| Chain.GetSkipHeight | zcash/src/chain.cpp:113-122 | is strictly below the height |
| Chain.SkipFromEven | zcash/src/chain.cpp:113-122 | from an even height the jump clears the lowest set bit |
| Chain.SkipFromOdd | zcash/src/chain.cpp:113-122 | from an odd height it keeps the lowest bit and clears the next two set bits, or the only one |
| Chain.CBlockIndex.GetAncestor | zcash/src/chain.cpp:124-148 | the block that the parent pointers lead to; ends, and the assertion holds |
| Chain.CBlockIndex.BuildSkip | zcash/src/chain.cpp:155-159 | the new skip pointer is right and so is the whole line |
| Chain.CChain.SetTip | zcash/src/chain.cpp:17-27 | the chain is exactly the tip's line although replacing stops early |
| Chain.CChain.FindFork | zcash/src/chain.cpp:57-64 | the highest common block: a block of the line is on the chain exactly up to that height; none if there is none |
| Chain.CChain.GetLocator | zcash/src/chain.cpp:29-55 | the blocks of the line at heights that are given in closed form: the height, ten more in a row below it, then h - 9 - 2^(i-10) at place i, and at last 0 |
| Chain.CChain.LocatorFrom | zcash/src/chain.cpp:36-53 | the same from a given block, whichever way the blocks are found |
| Chain.CChain.StepBack | zcash/src/chain.cpp:41-50 | index and skip list agree |
| Chain.LocatorFalls | zcash/src/chain.cpp:36-53 | locator heights fall strictly and end at genesis |
| Chain.LocatorSpaced | zcash/src/chain.cpp:30-53 | the heights that the loop goes through are those of the closed form |
| Chain.LocatorDistances | zcash/src/chain.cpp:40-52 | the distances are one up to the eleventh block and then 1, 2, 4 and so on, except for the last one, which ends at genesis |
| Chain.LocatorIsShort | zcash/src/chain.cpp:51-52 | a locator has at most eleven blocks more than the logarithm of the height |
| Chain.CChain.CommonBelow | zcash/src/chain.cpp:57-64 | a line that meets the chain stays on it |
| Chain.CBlockIndex.AtAt | zcash/src/chain.cpp:124-148 | an ancestor's ancestor is an ancestor |
| Base58.EncodeBase58 | zcash/src/base58.cpp:63-96 | the string spells the number that the bytes stand for, in base 58 and with as many ones in front as there are zero bytes; the carry assertion never fails |
| Base58.DecodeBase58 | zcash/src/base58.cpp:17-61 | the recoded digits of the one word in the string, or failure; the carry assertion never fails |
| Base58.ReadWord | zcash/src/base58.cpp:31-45 | reads letters up to a space; fails exactly at a foreign character |
| Base58.AddDigit | zcash/src/base58.cpp:36-42 | the buffer and the carry hold the old number times the base plus the digit |
| Base58.Accumulate | zcash/src/base58.cpp:73-84 | the buffer ends with the value of the digits |
| Base58.NoCarry | zcash/src/base58.cpp:43-43 | nothing is carried out of a buffer that is long enough |
| Base58.RoomForBytes | zcash/src/base58.cpp:71-72 | 138/100 of the bytes and one digit are room enough |
| Base58.RoomForDigits | zcash/src/base58.cpp:28-29 | 733/1000 of the digits and one byte are room enough |
| Base58.Fits | zcash/src/base58.cpp:28-29 | room for q digits in p scales to every length |
| Base58.RecodeInverts | zcash/src/base58.cpp:17-96 | recoding there and back is the identity, leading zeros included |
| Base58.RecodeMeans | zcash/src/base58.cpp:17-96 | recoding keeps the number and the count of leading zeros |
| Base58.MinimalOfNum | zcash/src/base58.cpp:51-59 | dropping leading zeros leaves the digits of the number |
| Base58.DecodeEncode | zcash/src/base58.cpp:17-96 | every byte string is given back |
| Base58.EncodeDecode | zcash/src/base58.cpp:17-96 | every accepted string without spaces is given back |
| Base58.SpacesAround | zcash/src/base58.cpp:19-50 | spaces around a word make no difference |
| Base58.AcceptedIsOneWord | zcash/src/base58.cpp:19-50 | whatever is accepted is one word of the alphabet between spaces |
| Base58.SpellInverts | zcash/src/base58.cpp:15-15 | letters and digit values correspond one to one |
| Base58.AlphabetIs | zcash/src/base58.cpp:15-15 | the alphabet, letter by letter |
| Bech32.PolyMod | zcash/src/bech32.cpp:42-128 | the checksum as a fold of the step |
| Bech32Meaning.StepMeans | zcash/src/bech32.cpp:85-125 | one step is multiplication by x plus the value, modulo the generator over the field of 32 elements |
| Bech32Meaning.GroupsReduce | zcash/src/bech32.cpp:117-121 | the five constants are the multiples of the generator by the five bits of the coefficient shifted out |
| Bech32Meaning.IsRemainder | zcash/src/bech32.cpp:42-54 | the checksum of a list is the remainder of a division by the generator |
| Bech32Meaning.OnlyRemainder | zcash/src/bech32.cpp:42-54 | there is no other remainder |
| Bech32Meaning.ValidIffRemainder | zcash/src/bech32.cpp:152-163 | a list is valid Bech32 if and only if the generator divides its polynomial with remainder 1, and valid Bech32m if and only if with the other remainder |
| Bech32Meaning.DivideOne | zcash/src/bech32.cpp:85-101 | dividing one more value adds one coefficient to the quotient and makes one step with the remainder |
| Bech32.StepLinear | zcash/src/bech32.cpp:103-125 | a step is linear over GF(2) |
| Bech32.StepInjective | zcash/src/bech32.cpp:103-125 | a step with a fixed value is injective on 30-bit words |
| Bech32.PolyLinear | zcash/src/bech32.cpp:42-128 | the checksum is linear |
| Bech32.OneErrorShows | zcash/src/bech32.cpp:42-128 | lists of any length that differ in exactly one position have different checksums |
| Bech32.PackGroups | zcash/src/bech32.cpp:170-175 | six values from zero are just packed |
| Bech32.ChecksumIsRight | zcash/src/bech32.cpp:166-177 | appending the groups gives the wanted constant, and no other six values do |
| Bech32.ExpandHRP | zcash/src/bech32.cpp:137-149 | the bits above the lowest five of each character, zero, the lowest five of each |
| Bech32.VerifyChecksum | zcash/src/bech32.cpp:152-163 | Bech32 exactly if the remainder is 1, Bech32m exactly if it is 0x2bc830a3 |
| Bech32.CreateChecksum | zcash/src/bech32.cpp:166-177 | six 5-bit values that, appended, make the remainder 1 for Bech32 and 0x2bc830a3 for Bech32m |
| Bech32.VerifyExactly | zcash/src/bech32.cpp:152-177 | six values verify exactly when they are the created checksum |
| Bech32.Encode | zcash/src/bech32.cpp:182-198 | the string whose parts EncodedSpells states; empty exactly if a value is no 5-bit one |
| Bech32.EncodedSpells | zcash/src/bech32.cpp:182-198 | prefix, 1, then letters that spell the values and six more that give the remainder of the encoding |
| Bech32.Decode | zcash/src/bech32.cpp:201-231 | the decoded parts exactly for well-formed strings with a valid checksum; the encoding reported is Bech32 for the remainder 1 and Bech32m for 0x2bc830a3 |
| Bech32.CheckCharacters | zcash/src/bech32.cpp:202-209 | printable characters and letters of one case |
| Bech32.CharsetInverts | zcash/src/bech32.cpp:18-31 | the two tables are inverse |
| Bech32Meaning.CharsetIs | zcash/src/bech32.cpp:18-18 | the character set, letter by letter |
| Bech32Meaning.ShortestStrings | zcash/src/bech32.cpp:182-198 | the shortest valid strings of both encodings, a12uel5l and a1lqfn3a |
| Bech32.DecodeEncode | zcash/src/bech32.cpp:182-231 | what is encoded within the length limit decodes to itself, for both encodings |
| Bech32.EncodeDecode | zcash/src/bech32.cpp:182-231 | what is accepted encodes to the same string in lower case |
| Amounts.CompressAmount | zcash/src/compressor.cpp:143-160 | the code of the amount modulo 2^64, the code itself whenever it fits |
| Amounts.DecompressAmount | zcash/src/compressor.cpp:162-186 | the amount of the code modulo 2^64 |
| Amounts.CodeIsBijection | zcash/src/compressor.cpp:143-186 | code and value are inverse on all natural numbers |
| Amounts.CodeMeans | zcash/src/compressor.cpp:134-141 | the code in terms of the decimal digits of the amount, as the comment describes it |
| Amounts.SurvivesExactly | zcash/src/compressor.cpp:143-186 | a 64-bit amount n survives the round trip if and only if n ends in 0 or 90 * (n / 10) + 10 * (n % 10) - 9 is below 2^64 |
| Amounts.CodeSurvivesExactly | zcash/src/compressor.cpp:143-186 | a 64-bit code survives if and only if its amount fits in 64 bits |
| Amounts.WrappedIsLost | zcash/src/compressor.cpp:143-160 | an amount whose code has wrapped is never read back |
| Amounts.RoundTrips | zcash/src/compressor.cpp:143-186 | the two routines run both ways round: exactly these amounts and codes survive, all money among them |
| Amounts.LargestIsLost | zcash/src/compressor.cpp:143-186 | so the largest 64-bit number does not survive |
| ShareSearch.WorkManager.AddJob | lib/workManager.js:91-102 | the jobs kept are the earlier ones of the height, in order, and the new one; of more than 64 only the oldest goes; ids stay distinct |
| ShareSearch.WorkManager.ValidateShare | lib/workManager.js:160-276 | exactly when each rejection is given, and exactly when the share is searched; a searched share is accepted if and only if some reading passes the verifier and reaches a target, with the targets and the proof of work spelled out; a found block reads back as that header, that solution and the transactions of the job, the coinbase counted and first; at most 160 verifier calls |
| ShareSearch.WorkManager.Search | lib/workManager.js:215-288 | the verdict of the search, with the proof of work and the block of the reading that was found |
| ShareSearch.BlockBegins | lib/workManager.js:277-288 | an accepted share reaches a target with a header of 140 bytes and a solution of 1344 that were verified; a found block begins with them and reads back as them and the transactions of the job |
| ShareSearch.AssembledReads | lib/workManager.js:278-288 | a node reads a block as the header fields at their offsets, the solution, a count of one more than the transactions, and then the coinbase and each transaction where the lengths before it put it, and nothing else |
| ShareSearch.ConcatLaid | lib/workManager.js:286-286 | joined parts stand one after the other |
| ShareSearch.TryNonces | lib/workManager.js:226-271 | sound and complete over all nonces; the buffer holds the reading that was found |
| ShareSearch.TryTimes | lib/workManager.js:229-270 | the same over the times |
| ShareSearch.TryBits | lib/workManager.js:232-269 | the same over the compact targets, overwriting the header in place |
| ShareSearch.TrySolutions | lib/workManager.js:235-268 | the same over the solutions, on the completed header |
| ShareSearch.FieldsExtract | lib/workManager.js:376-395 | no candidate solution field is ever dropped |
| ShareSearch.SolutionReadings | lib/workManager.js:376-395 | exactly the solution with its size as submitted and in shortest form, or with its size put in front, is tried |
| ShareSearch.CompactSizeInverts | lib/workManager.js:422-465 | compact sizes are read back |
| ShareSearch.CompactSizeIs | lib/workManager.js:422-441 | the four forms byte by byte |
| ShareSearch.TimeCandidates | lib/workManager.js:334-351 | one to four times, the submitted one first |
| ShareSearch.TimeReadings | lib/workManager.js:334-351 | exactly the submitted time and the job's time, each in both byte orders, are tried |
| ShareSearch.BitsCandidates | lib/workManager.js:353-374 | at most two byte orders, none for a malformed field |
| ShareSearch.BitsReadings | lib/workManager.js:353-374 | exactly both byte orders of a four-byte field are tried |
| ShareSearch.NonceCandidates | lib/workManager.js:298-332 | at most ten nonces, all of 32 bytes |
| ShareSearch.NonceReadings | lib/workManager.js:298-332 | exactly a whole nonce, a shorter one padded in front and behind, and one of 28 bytes with the extra nonce inserted at one of the first eight places are tried |
| ShareSearch.RightUnion | lib/workManager.js:226-271 | searches over parts of the candidates combine |

## Left out

- Databases, files, locks other than the check queue's mutex, sockets, timers and user interfaces.
- Hashes, signatures, the Equihash check, random numbers and clocks are parameters about which nothing is
  assumed; note commitment trees are kept symbolic, so that different trees have different roots.
- The Rust routines that append to and remove from the history tree, and the methods that only call them.
- Writing a coins view into the database: Flush is modelled for a parent that is a cache.
- Replacing the parent of an existing coins view.
- The three shielded pools have separate maps in the source; here one map is keyed by pool and hash.
- Sizes in memory are functions of the coins or tree; spare capacity of vectors is not modelled.
- CCoins is a value that is copied into maps and back, as in the source; its methods are functions on values.
- Child maps are passed to BatchWrite by value and cleared afterwards; that the source erases them entry by
  entry is not modelled.
- Address selection (`Select_`), whose termination is a matter of probability.
- Old versions, other bucket counts and corrupt files of the address manager; the version, key size and bucket
  count written in front.
- AddrLoad.Unserialize: reads what a consistent manager stored; what it makes of other files is not stated.
- Loading into a manager that is in use: a manager is loaded into a new object.
- The bloom filter's size formulas, its false-positive rate, and the plain bloom filter.
- Floating-point logarithms: the depth limit of the cuckoo cache and the sizes of the bloom filter are parameters.
- Atomicity of the cuckoo cache's flags; operations run one at a time as its documentation demands.
- The number of steps of the skip-list walk.
- Overflow of the locator's step beyond 2^30 blocks.
- Base58Check and the segments of transparent addresses.
- Numbers in a stored stream that do not fit the type they are read into.
- Script compression: how a single output is stored is a parameter with an inverse.
- The text form of submitted fields (trimming, prefixes, letter case); the share search works on their bytes.
- The share-quality numbers that accompany an accepted share.
- HistoryTree.PreloadHistoryTree: the number of leaves is a ghost parameter below 2^30; the code knows only the length.
- CheckQueue.RunBatch: a check is a value that carries its outcome, so what checks do besides is not modelled.

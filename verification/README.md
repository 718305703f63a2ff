# Verified core of the 5G-CASH node

A Dafny model of the parts of the node whose correctness rests on state, arithmetic or several functions
at once, with proofs of what they promise. `dafny verify dfyconfig.toml` checks the whole project.

| files | what they model |
|---|---|
| `AddrMan`, `AddrManager`, `AddrManCheck`, `AddrManStream`, `AddrManRoundTrip` | the address manager: five cross-linked indexes updated in place, its own debug check, saving and loading |
| `CoinsView`, `CoinsCache` | a stack of coin caches of any depth over a database, with DIRTY and FRESH marks |
| `VarInt`, `Compressor`, `CoinsCodec`, `CoinsFormat` | the stored form of a transaction's unspent outputs |
| `CheckQueue` | the script check queue: one master and any number of workers, as steps under the mutex |
| `RollingBloom` | the rolling bloom filter on two bit planes |
| `Limbs`, `BigNum`, `Compact` | 32-bit limb arithmetic of any width, compact targets and the work of a block |
| `SkipList`, `Chain` | skip pointers and the length of walks along them, the block index and the active chain |
| `CompactBlocks` | compact blocks (BIP 152) and the request for missing transactions |
| `Base58` | Base58 with and without checksum |
| `FivegnodeSelection`, `FivegnodeRecovery` | the choice of the next payee, ranks, and the recovery quorum |
| `Arith`, `Wrappers` | facts and types shared by the others |

Objects that the program updates in place are classes. Their methods are tied to functions on values (the
view of the two address tables, the coin set a cache stands for, the number some limbs denote), and the
laws are proved about those. Hash functions, the clock, randomness and the elliptic curve are parameters:
results hold for all of them, except that decompressing a public key is taken to undo compressing it
(`Compressor.Sound`). A method that the program runs once per event is run any number of times, in any
order, by the `Run` of its module.

## What is false, and exactly when it holds

- `Good_` and `Attempt_` keep the time stamps that the debug check demands if and only if the time given is
  positive, or not negative, whenever an entry matches.
- `ModifyNewCoins` is right if and only if it is told of a coinbase or the caches below have nothing unspent;
  `Create` says what the coin set is in every case, and `OverwrittenCoinsReappear` runs the other one.
- Stored coins come back whole if and only if version and height are not negative and every output is kept
  whole: its script is short enough and the short form of its amount fits 64 bits, as that of every amount of
  money does (`ComesBackWhole` and `AmountComesBack`, with `NegativeVersionIsLost` and `LargeAmountIsLost`).
- The comment at src/coins.h:32-73 has the header code without the coinstake flag, and its two examples carry codes 04
  and 09; what the program writes for them has 08 and 11 (`FirstExample`, `SecondExample`).
- A compact block is filled in rightly from every mempool without collisions if and only if it has at most
  65536 transactions (`SixteenBits`, with `LastInWrongSlot`); the message limit alone allows 200000. With
  65536 whole transactions and a short id the search for a slot does not end (`NothingInReach`).
- A file of addresses gives a consistent manager if and only if no entry that stays has the address of another
  one read in (`Unserialize`, with `RepeatedRecordIsLost`). `CleanIsSound` says so of the records, and
  `FirstsStay` which of them stay.
- The step of a block locator fits an int if and only if the height is at most 2^30 + 9 (`StepFits`).
- Looking up the former broadcast of a node, if it was not seen, leaves a blank one seen (`BlankIsNoted`).
- Multiplying a big number by itself in place gives zero (`Multiply`).
- Looking up a rank gives the node that has it if and only if no node without a rank comes before it; for
  queries not restricted to active nodes one can (`RankAndBack`, with `RankOfAnother`).
- Indexes read from a request are strictly increasing if and only if their sum fits (`RisingIff`, with
  `OffsetWraps`), and a list survives writing and reading if and only if it is strictly increasing.
- The debug check of the address manager does not see surplus addresses or the id counter; `PassesIsSane`
  says exactly what it sees.

## Model

| member | source | states |
|---|---|---|
| `AddrManager.Manager.constructor` | src/addrman.h:453-477 | a fresh manager is empty and every index agrees with every other |
| `AddrManager.Manager.SwapRandom` | src/addrman.cpp:100-118 | exchanging two places keeps vector and positions inverse to each other and changes nothing else |
| `AddrManager.Manager.Delete` | src/addrman.cpp:120-132 | removes exactly one untried, unreferenced entry from all three indexes and the count |
| `AddrManager.Manager.ClearNew` | src/addrman.cpp:134-147 | empties the slot; its entry loses one reference and is dropped exactly when that was the last |
| `AddrManager.Manager.MakeTried` | src/addrman.cpp:149-195 | the tables become those of Promote, with every index and count exact again although the operation breaks them on the way |
| `AddrMan.PromoteKeepsInv` | src/addrman.cpp:149-195 | moving an untried entry to tried keeps the whole invariant |
| `AddrMan.PromoteEffect` | src/addrman.cpp:149-195 | the entry is tried and unlisted afterwards, the tried table changes in its slot only, the evicted entry is back with one reference, and no other entry changes kind |
| `AddrMan.PromoteLists` | src/addrman.cpp:149-195 | in the new table the slots of the entry moved become free, and the evicted entry has the slot its own source gives |
| `AddrMan.PromoteLoses` | src/addrman.cpp:149-195 | the only entry that can be lost is the one whose sole reference was the slot the evicted entry goes to |
| `AddrManager.Manager.Create` | src/addrman.cpp:88-98 | a new entry under a fresh id, in the id map, the address map and at the end of the shuffled vector |
| `AddrManager.Manager.Add_` | src/addrman.cpp:249-315 | keeps every index consistent and says exactly when the address is new. A new one is stored with one reference if its slot is free or the holder is terrible or has other references, and else nothing changes; a known one is brought up to date and, once in 2^n times with n references, takes its slot if that is free or the holder terrible |
| `AddrMan.InsertIs` | src/addrman.cpp:293-315 | who gets a slot, and that the holder loses a reference and with its last one goes |
| `AddrMan.HeardAgain` | src/addrman.cpp:259-275 | hearing of a known address adds services and moves its time forward only, exactly if it is an hour or a day later; it may gain a reference exactly if it is untried, has fewer than eight and what was heard is newer still |
| `AddrMan.WorthKeeping` | src/addrman.cpp:34-53 | which entries are not terrible: tried in the last minute, or seen within thirty days and without too many failures |
| `AddrMan.InsertKeepsInv` | src/addrman.cpp:293-315 | giving an entry a slot, or dropping it for want of one, keeps the whole invariant |
| `AddrMan.InsertLoses` | src/addrman.cpp:293-315 | tried entries and the tried table are untouched, and at most the previous holder of the slot is lost |
| `AddrManager.Manager.FindBucket` | src/addrman.cpp:226-241 | the search for a bucket that holds the entry always succeeds, so the silent exit after it is unreachable |
| `AddrManager.Manager.Good_` | src/addrman.cpp:197-247 | keeps every index consistent; time stamps stay sane if and only if no entry matches or the time is positive |
| `AddrMan.PromoteTimes` | src/addrman.cpp:149-195 | promotion keeps time stamps, so a bad stamp stays bad |
| `AddrManager.Manager.Attempt_` | src/addrman.cpp:317-337 | keeps every index consistent; time stamps stay sane if and only if no entry matches or the time is not negative |
| `AddrManager.Manager.Connected_` | src/addrman.cpp:485-503 | changes the time of the matching entry only, and only after twenty minutes |
| `AddrManager.Manager.SetServices_` | src/addrman.cpp:505-521 | changes the services of the matching entry only |
| `AddrManager.Manager.GetAddr_` | src/addrman.cpp:464-483 | at most 23 percent of the entries and 2500 in all, each at most once and none terrible; the indexes stay consistent under the shuffling |
| `AddrMan.SizeIsCount` | src/addrman.cpp:392-393 | the shuffled vector has one place for each counted entry |
| `AddrManager.Run` | src/addrman.cpp:88-521 | after any sequence of operations from a fresh manager every index agrees with every other |
| `AddrManCheck.CheckEntry` | src/addrman.cpp:395-420 | 0 exactly for an entry whose times, reference count and index places are right |
| `AddrManCheck.CheckEntries` | src/addrman.cpp:389-420 | 0 exactly if every entry is right, and then the tried ids and the counts of the new ones |
| `AddrManCheck.CheckTried` | src/addrman.cpp:427-440 | nothing wrong and nothing left exactly if the tried table is right |
| `AddrManCheck.CheckNew` | src/addrman.cpp:442-453 | nothing wrong and nothing left exactly if the new table and all reference counts are right |
| `AddrManCheck.Check` | src/addrman.cpp:387-461 | 0 exactly if everything the check looks for holds |
| `AddrManCheck.PassesIsSane` | src/addrman.cpp:387-461 | the check passes exactly the managers whose five indexes agree; what it does not see is surplus addresses and the id counter |
| `AddrManCheck.ConsistentPasses` | src/addrman.cpp:387-461 | every consistent manager with sane times and a key passes the check |
| `AddrManStream.Serialize` | src/addrman.h:293-340 | writes the entries in id order, tried ones last, and each bucket as numbers into that order |
| `AddrManStream.SavedIs` | src/addrman.h:293-340 | each entry is written at the place given by how many of its kind have lower ids, with address, source, last success and attempts; each bucket lists, by rising position, the places of its entries |
| `AddrManStream.Holders` | src/addrman.h:293-340 | so does every consistent manager: each of its new slots holds an untried entry it knows |
| `AddrManStream.RenumberInjective` | src/addrman.h:306-325 | the renumbering is one to one into the numbers below the number of entries, untried entries first |
| `AddrManRoundTrip.NumOnto` | src/addrman.h:306-325 | every number below the number of entries is the number of some entry |
| `AddrManStream.Unserialize` | src/addrman.h:343-446 | rejects exactly a wrong key size, counts out of range or missing buckets; any other file gives a manager whose tables, counts and shuffled vector agree, and which is consistent if and only if no entry that stays has the address of another one read in |
| `AddrManStream.UsesTableIs` | src/addrman.h:349-379 | the saved buckets are used exactly in a file of version 1 with 1024 of them |
| `AddrManStream.FileIsSound` | src/addrman.h:371-438 | for every file, the address index finds every entry and nothing else after loading exactly if no entry that stays has the address of another one read in |
| `AddrManStream.CleanIsSound` | src/addrman.h:371-438 | that is so exactly if, among the records, none that stays has the address of another untried one, and no tried one that is the first to have its slot the address of an untried one or of another such one |
| `AddrManStream.FirstsStay` | src/addrman.h:372-390 | in a file whose buckets are not used the untried records that stay are exactly the first to have their slot, which puts the condition on the records alone |
| `AddrManStream.TriedsTakeSlots` | src/addrman.h:392-410 | the tried records read in are exactly those that are the first to have their slot |
| `AddrManStream.DistinctIsSound` | src/addrman.h:343-446 | a file without a repeated address gives a consistent manager, whatever else it says |
| `AddrManStream.RepeatedRecordIsLost` | src/addrman.h:371-438 | a file with one record twice leaves an entry that is not found by its address |
| `AddrManRoundTrip.CountsFit` | src/addrman.h:363-369 | no consistent manager has more entries than loading accepts |
| `AddrManRoundTrip.RoundTrip` | src/addrman.h:293-446 | loading what was saved gives the same entries, with address, source, last success, attempts and kind, in the same slots of both tables with the same reference counts, up to one renumbering of ids |
| `AddrManRoundTrip.SaveAndLoad` | src/addrman.h:293-446 | saving and loading succeeds and gives the same manager up to ids, with the same counts |
| `CoinsCache.CoinsStack.GetCoins` | src/coins.cpp:91-98 | a read at any level finds what the levels below it stand for, and changes no coin set |
| `CoinsCache.CoinsStack.FetchCoins` | src/coins.cpp:73-89 | fills the cache from below without any reader at any level noticing |
| `CoinsView.FillKeepsReads` | src/coins.cpp:73-89 | filling a cache keeps every mark right and every read the same |
| `CoinsCache.CoinsStack.HaveCoins` | src/coins.cpp:145-152 | true exactly if what a read finds has outputs, spent or not; never false for a transaction with something unspent |
| `CoinsCache.CoinsStack.ModifyCoins` | src/coins.cpp:100-123 | opens a handle on what a read finds, or blank coins, with the exact marks; no coin set changes |
| `CoinsCache.CoinsStack.ModifyNewCoins` | src/coins.cpp:125-134 | opens a handle on an empty entry, in any state of the marks; they stay right if and only if it is a coinbase or nothing is unspent below |
| `CoinsCache.CoinsStack.Create` | src/coins.h:462-470 | new coins written and closed: the top coin set has them if and only if it is a coinbase, or some are unspent, or nothing is unspent below, and else what is below shows through |
| `CoinsCache.OverwrittenCoinsReappear` | src/coins.h:462-470 | over any database with unspent coins, making new ones and closing them spent makes a read find the old ones |
| `CoinsView.TopEntry` | src/coins.cpp:125-134 | any entry put in or taken out of the top cache changes the top coin set at that transaction only, and keeps the marks right exactly if its own are |
| `CoinsCache.CoinsStack.Edit` | src/coins.h:406-407 | writes through the open handle: the top coin set changes at the one transaction only |
| `CoinsCache.CoinsStack.CloseModifier` | src/coins.cpp:291-303 | the exact entry that is left, in any state of the marks; if they are right, the top coin set changes at the one transaction only, to the coins written less spent outputs at their end |
| `CoinsView.ClosingIs` | src/coins.cpp:291-303 | the entry goes exactly if it is not known below and all of its outputs are spent |
| `CoinsCache.CoinsStack.Uncache` | src/coins.cpp:221-228 | a clean entry leaves the cache, no other changes, and no reader at any level notices |
| `CoinsCache.CoinsStack.BatchWrite` | src/coins.cpp:169-212 | every dirty child entry is merged into the cache, in any order |
| `CoinsView.WriteOneOk` | src/coins.cpp:169-212 | for one transaction: the parent now stands for what the child stood for, with right marks |
| `CoinsView.WriteOneIs` | src/coins.cpp:169-212 | what becomes of the parent's entry: dropped exactly if the coins are spent and not known below, else the child's coins, dirty, with the mark of the parent or, without one, of the child |
| `CoinsView.FlushKeepsOk` | src/coins.cpp:169-219 | after a flush the level below stands for the flushed coin set, levels above see no change and all marks are right |
| `CoinsCache.CoinsStack.Flush` | src/coins.cpp:214-219 | pushes a layer down and empties it, at any depth |
| `CoinsCache.Cleanup` | src/coins.h:119-126 | drops exactly the spent outputs at the end |
| `CoinsView.TrimIs` | src/coins.h:119-126 | nothing but spent outputs goes, and none is left at the end |
| `CoinsCache.Step` | src/coins.cpp:73-303 | one operation on the stack does to each level what it does to plain coin sets |
| `CoinsCache.Run` | src/coins.cpp:73-303 | a stack of any depth, run through any operations, reads at every level like plain coin sets |
| `CoinsCache.ReadLike` | src/coins.cpp:91-98 | what that means to a reader at any level: the unspent outputs found are those of the coin set, and none exactly if it has none |
| `CoinsCache.SpecWrites` | src/coins.h:462-470 | writing gives the top coin set exactly the unspent outputs written, and changes no other transaction |
| `VarInt.VarRoundTrip` | src/serialize.h:383-412 | reading a variable-length integer gives back the number and the rest of the stream |
| `VarInt.VarUnique` | src/serialize.h:346-360 | a number has exactly one encoding |
| `VarInt.VarValue` | src/serialize.h:346-353 | the bytes of a number: all but the last have the top bit, and the number is the sum that the format is described by |
| `VarInt.Examples` | src/serialize.h:362-367 | the examples of that description |
| `VarInt.WriteVarInt` | src/serialize.h:383-398 | writes that encoding, within its fixed buffer for every width |
| `VarInt.ReadVarInt` | src/serialize.h:400-412 | reads the number modulo the width of the target type, and fails only at the end of the stream |
| `VarInt.GetSizeOfVarInt` | src/serialize.h:370-381 | the length of the encoding |
| `Compressor.LongOfShort` | src/compressor.cpp:142-185 | decompression undoes compression on every natural number |
| `Compressor.ShortOfLong` | src/compressor.cpp:142-185 | compression undoes decompression on every natural number |
| `Compressor.CompressAmount` | src/compressor.cpp:142-159 | the short form, modulo 2^64 |
| `Compressor.DecompressAmount` | src/compressor.cpp:161-185 | the amount, modulo 2^64 |
| `Compressor.ShortForm` | src/compressor.cpp:142-159 | the short form of an amount, by its digits and the zeros at its end |
| `Compressor.AmountExamples` | src/test/compress_tests.cpp:42-47 | six amounts with their short forms |
| `Compressor.FitsIs` | src/compressor.cpp:142-159 | which short forms fit 64 bits, as a test on the amount |
| `Compressor.WrappedIsLost` | src/compressor.cpp:142-185 | no 64-bit amount whose short form wraps comes back |
| `Compressor.ShortFits` | src/compressor.cpp:142-159 | the short form is at most nine times the amount |
| `Compressor.MoneySurvives` | src/compressor.cpp:142-185 | no amount up to MAX_MONEY wraps a 64-bit word on the way |
| `Compressor.ScriptComesBack` | src/compressor.cpp:48-123 | a compressed script has the size its first byte announces and decompresses to itself |
| `Compressor.ShortForms` | src/compressor.cpp:48-80 | the bytes written for scripts that pay to a key hash, a script hash, a compressed key and a full one |
| `Compressor.NoOtherShortForms` | src/compressor.cpp:48-80 | any other script is written whole after its size plus six |
| `Compressor.ScriptRoundTrip` | src/compressor.h:66-95 | a script, or a lone OP_RETURN in place of one over the size limit without a short form, comes back if and only if it has a short form or its size plus six fits 32 bits |
| `CoinsCodec.CalcMaskSize` | src/coins.cpp:18-34 | the number of mask bytes up to the last one in use, and the number in use |
| `CoinsCodec.MaskReadBack` | src/coins.h:212-253 | the decoder stops at exactly the byte where the mask ends, for every pattern of spent outputs |
| `CoinsCodec.MaskReaches` | src/coins.cpp:18-34 | the mask covers every output that is left |
| `CoinsCodec.HeaderCodeFits` | src/coins.h:202-207 | for coins with something unspent the header code is never negative, and the assertion before it holds |
| `CoinsCodec.OutRoundTrip` | src/compressor.h:112-127 | what comes back of any unspent output whose script comes back, with the rest of the stream |
| `CoinsCodec.AmountComesBack` | src/compressor.h:112-127 | a signed 64-bit amount comes back if and only if its short form fits 64 bits, as that of every amount of money does |
| `CoinsCodec.LargeAmountIsLost` | src/compressor.h:112-127 | an amount over MAX_MONEY that comes back as another, negative one |
| `CoinsCodec.SignedRoundTrip` | src/serialize.h:383-412 | an int comes back if it is not negative, and else as its lowest seven bits |
| `CoinsCodec.ToIntIs` | src/serialize.h:400-412 | a word is read as the signed number that agrees with it modulo its width |
| `CoinsCodec.Serialize` | src/coins.h:199-227 | writes the stored form |
| `CoinsFormat.MaskIs` | src/coins.h:212-221 | bit i of mask byte b says whether output 2 + 8b + i is left, and the mask ends with the last byte that has a bit set |
| `CoinsFormat.HeaderIs` | src/coins.h:202-207 | the header code from flags, first two outputs and the number of mask bytes with a bit set |
| `CoinsFormat.FirstExample` | src/coins.h:40-52 | the bytes of the first example, for any key hash |
| `CoinsFormat.SecondExample` | src/coins.h:55-73 | the bytes of the second one |
| `CoinsCodec.Unserialize` | src/coins.h:229-263 | reads the stored form, failing only when the stream ends |
| `CoinsCodec.CoinsRoundTrip` | src/coins.h:199-263 | what is read back, exactly, for all storable coins |
| `CoinsCodec.ComesBackWhole` | src/coins.h:199-263 | it is the coins without spent outputs at the end if and only if version and height are not negative, every script is short enough and the short form of every amount fits |
| `CoinsCodec.NegativeIsLost` | src/coins.h:199-263 | a negative version or height is read back as its lowest seven bits, so the coins are not |
| `CoinsCodec.NegativeVersionIsLost` | src/coins.h:199-263 | from the bytes written for version -1, 127 is read |
| `CoinsCodec.StoreAndLoad` | src/coins.h:199-263 | storing and loading gives that result |
| `CheckQueue.StepKeepsInv` | src/checkqueue.h:69-127 | every step of every thread keeps the invariant |
| `CheckQueue.RunKeepsInv` | src/checkqueue.h:69-158 | the invariant holds in every state of every interleaving |
| `CheckQueue.TodoIsExact` | src/checkqueue.h:69-158 | the count of outstanding checks is exactly those queued or taken |
| `CheckQueue.BatchFits` | src/checkqueue.h:105-120 | a batch takes at least one check and at most what is queued, losing none |
| `CheckQueue.BatchIsShare` | src/checkqueue.h:106-111 | it is the largest batch, up to the limit, that leaves as many for every other thread at work or idle, or a single check |
| `CheckQueue.WaitIsRight` | src/checkqueue.h:69-142 | when the wait returns, the answer is true exactly if every check added in that round was |
| `CheckQueue.IdleBetweenRounds` | src/checkqueue.h:164-191 | between rounds the queue is idle, so the assertion of a new controller holds |
| `CheckQueue.MasterNotForgotten` | src/checkqueue.h:69-104 | while the master is blocked, nothing is queued and a worker holds an unreported batch; the report of the last one is enabled and wakes the master |
| `CheckQueue.WorkersNotForgotten` | src/checkqueue.h:146-158 | with work queued and a worker blocked, another thread is on its way to it |
| `CheckQueue.StepDecreases` | src/checkqueue.h:69-127 | every section under the mutex and every evaluation brings the wait closer to its end |
| `CheckQueue.WaitCanGoOn` | src/checkqueue.h:69-127 | while the master waits, some thread can take such a step |
| `CheckQueue.WaitEnds` | src/checkqueue.h:69-127 | in any run, no more of these steps are made than the measure at its start and what starting threads, unasked wake-ups and new checks add to it |
| `CheckQueue.OnlyEvents` | src/checkqueue.h:69-127 | during a wait each start and each unasked wake-up adds one, and nothing else adds anything |
| `RollingBloom.WipeLabel` | src/bloom.cpp:259-267 | the masked wipe of two bit planes unsets exactly the positions that carry the label |
| `RollingBloom.MarkLabel` | src/bloom.cpp:273-277 | writing a label at one bit of both planes changes that position only |
| `RollingBloom.RollingBloomFilter.constructor` | src/bloom.cpp:219-244 | a fresh filter is empty |
| `RollingBloom.RollingBloomFilter.Reset` | src/bloom.cpp:307-315 | forgets every key |
| `RollingBloom.RollingBloomFilter.Wipe` | src/bloom.cpp:259-267 | every position with the reused label is unset and no other changes |
| `RollingBloom.HitsMeet` | src/bloom.cpp:269-272 | two hashes hit the same position exactly if they agree in their lowest six bits and in the pair of words that the others pick |
| `RollingBloom.RollingBloomFilter.Insert` | src/bloom.cpp:251-279 | every position shows the generation of the last key that hit it, if it is one of the last three |
| `RollingBloom.RollingBloomFilter.Contains` | src/bloom.cpp:287-299 | true exactly if each hash of the key meets one of a key inserted in the three newest generations; never false for a recent key |
| `RollingBloom.WindowCovers` | src/bloom.h:113-114 | the last nElements keys are all in those three generations |
| `RollingBloom.NoFalseNegatives` | src/bloom.cpp:219-315 | after any run of inserts none of the last nElements keys is denied, whatever the hash |
| `BigNum.BaseUint.Add` | src/arith_uint256.h:136-146 | addition modulo 2^BITS, also of a number to itself |
| `BigNum.BaseUint.Complement` | src/arith_uint256.h:70-76 | 2^BITS - 1 minus the number |
| `BigNum.BaseUint.Increment` | src/arith_uint256.h:174-181 | adds one modulo 2^BITS |
| `BigNum.BaseUint.Subtract` | src/arith_uint256.h:148-152 | subtraction modulo 2^BITS |
| `BigNum.BaseUint.Assign` | src/arith_uint256.h:89-96 | holds a 64-bit value |
| `BigNum.BaseUint.ShiftLeft` | src/arith_uint256.cpp:21-36 | multiplies by a power of two modulo 2^BITS, for every distance |
| `BigNum.BaseUint.ShiftRight` | src/arith_uint256.cpp:38-53 | divides by a power of two, for every distance |
| `BigNum.BaseUint.MulSmall` | src/arith_uint256.cpp:55-65 | multiplies by a 32-bit number modulo 2^BITS |
| `BigNum.BaseUint.Multiply` | src/arith_uint256.cpp:67-81 | the product modulo 2^BITS, with no 64-bit overflow on the way; a number times itself in place is zero |
| `BigNum.BaseUint.Divide` | src/arith_uint256.cpp:83-107 | the quotient, for every width and every divisor but zero, which is reported |
| `BigNum.BaseUint.CompareTo` | src/arith_uint256.cpp:109-119 | the order of the numbers |
| `BigNum.BaseUint.EqualTo` | src/arith_uint256.cpp:121-133 | equality with a 64-bit value |
| `BigNum.BaseUint.Bits` | src/arith_uint256.cpp:172-185 | the position of the highest bit set |
| `BigNum.BaseUint.GetLow64` | src/arith_uint256.h:249-253 | the number modulo 2^64 |
| `Compact.SetCompact` | src/arith_uint256.cpp:225-243 | the number denoted, modulo 2^256, and both flags |
| `Compact.Denotes` | src/arith_uint256.cpp:225-243 | the number is the mantissa times a power of 256, rounded down, and the sign bit counts unless that is zero |
| `Compact.OverflowIsExact` | src/arith_uint256.cpp:239-241 | the overflow flag is set exactly when the number denoted is at least 2^256 |
| `Compact.GetCompact` | src/arith_uint256.cpp:245-266 | the encoding of the number, with the sign bit if asked for and not zero; both assertions hold |
| `Compact.Normal` | src/arith_uint256.cpp:245-266 | no leading zero byte in the mantissa that it could do without |
| `Compact.Examples` | src/test/arith_uint256_tests.cpp:483-527 | four encodings and the numbers they stand for |
| `Compact.LargestNotAbove` | src/arith_uint256.cpp:225-266 | encoding and decoding gives the largest encodable number not above the given one |
| `Compact.Idempotent` | src/arith_uint256.cpp:225-266 | with neither flag set, and encoding it again changes nothing |
| `Compact.Monotone` | src/arith_uint256.cpp:245-266 | larger numbers have larger encodings |
| `Compact.SignComesBack` | src/arith_uint256.cpp:225-266 | a sign comes back and leaves the magnitude alone |
| `Compact.TargetBelowTop` | src/chain.cpp:122-135 | a target without overflow can be incremented without wrapping |
| `Compact.GetBlockProof` | src/chain.cpp:122-135 | floor(2^256 / (target + 1)), or zero for an unusable target |
| `Compact.WorkIsAntitone` | src/chain.cpp:122-135 | a usable target is worth at least one unit of work, and a smaller one no less |
| `SkipList.LowestOneGoes` | src/chain.cpp:64-65 | the bit trick clears the lowest one bit and no other |
| `SkipList.SkipsBack` | src/chain.cpp:67-76 | a skip pointer leads to a strictly lower height |
| `SkipList.FewSteps` | src/chain.cpp:71-102 | from below height 2^b the walk to any height takes at most b*b/4 + 2b - 7 steps, for every b of at least 10 |
| `SkipList.LongestWalk` | src/chain.cpp:71-102 | from height 2^b - 8 to height 2 it takes exactly that many |
| `SkipList.OneHundredAndTen` | src/chain.cpp:71-75 | below height 2^18 that is 110 steps, as the comment has from simulations, and one walk takes them |
| `Chain.BlockIndex.GetAncestor` | src/chain.cpp:78-102 | the same block as walking parents down to that height, or null outside the range; with every skip pointer set, in exactly the steps that SkipList counts |
| `Chain.BlockIndex.BuildSkip` | src/chain.cpp:109-113 | sets the right skip pointer and keeps the tree as it should be |
| `Chain.ActiveChain.Tip` | src/chain.h:570-603 | the block whose path the chain is, and its height; null and -1 for an empty chain |
| `Chain.ActiveChain.SetTip` | src/chain.cpp:13-23 | the chain is exactly the path to the new tip, despite the early stop |
| `Chain.ActiveChain.FindFork` | src/chain.cpp:53-62 | the highest block on the chain that is the given one or an ancestor of it; null if and only if there is none |
| `Chain.ActiveChain.Next` | src/chain.h:592-598 | the child on the chain; null if and only if there is none |
| `Chain.ActiveChain.Equals` | src/chain.h:581-585 | comparing length and tip decides whether two chains, not both empty, are equal entry by entry |
| `Chain.ActiveChain.GetLocator` | src/chain.cpp:25-51 | the hashes of the ancestors at the heights of a locator, by whichever lookup |
| `Chain.HeightsFall` | src/chain.cpp:25-51 | those heights start at the block, fall strictly and end at genesis |
| `Chain.HeightsDense` | src/chain.cpp:25-51 | the first eleven steps are single ones |
| `Chain.HeightsAre` | src/chain.cpp:25-51 | every height of a locator: eleven steps of one, then 2^k + 9 below the start, down to genesis |
| `Chain.LocatorIsShort` | src/chain.cpp:25-51 | a block below height 2^m has a locator of at most 11 + m entries |
| `Chain.StepFits` | src/chain.cpp:25-51 | the step stays within an int if and only if the height is at most 2^30 + 9 |
| `CompactBlocks.Compact` | src/blockencodings.cpp:20-30 | the compact form of a block of any size has its first transaction whole and short ids of the others in order, and describes it |
| `CompactBlocks.PartiallyDownloadedBlock.PlacePrefilled` | src/blockencodings.cpp:60-76 | succeeds exactly if every whole transaction has a slot in range, and puts each in its own |
| `CompactBlocks.AtPlace` | src/blockencodings.cpp:60-76 | no whole transaction is overwritten by another |
| `CompactBlocks.RoomForShortIds` | src/blockencodings.cpp:82-87 | there are as many free slots as short ids |
| `CompactBlocks.ValidIs` | src/blockencodings.cpp:50-77 | a message is valid exactly if it has a header and 1 to 200000 transactions, no whole one is null, and the gaps before these sum to no more than the short ids and leave the last below slot 65536 |
| `CompactBlocks.PartiallyDownloadedBlock.MapShortIds` | src/blockencodings.cpp:82-100 | each short id gets the next free slot, kept in 16 bits |
| `CompactBlocks.PartiallyDownloadedBlock.SkipFull` | src/blockencodings.cpp:84-87 | the 16-bit offset reaches the next free slot if fewer than 65536 transactions are whole |
| `CompactBlocks.NothingInReach` | src/blockencodings.cpp:84-87 | with 65536 whole transactions no offset reaches a free slot, so the search does not end |
| `CompactBlocks.AssignedIs` | src/blockencodings.cpp:101-104 | the number of entries tells exactly whether two short ids are equal |
| `CompactBlocks.PartiallyDownloadedBlock.FromMempool` | src/blockencodings.cpp:106-133 | the slots and the count after the mempool was looked through, up to where the search stops |
| `CompactBlocks.ScanCounts` | src/blockencodings.cpp:106-133 | the count is exactly the number of matches in place, so it never goes below zero |
| `CompactBlocks.ScanFinds` | src/blockencodings.cpp:106-133 | if each short id has a free slot to itself, the slot holds the only transaction with that id, or none |
| `CompactBlocks.FoundIs` | src/blockencodings.cpp:113-126 | what is found for a short id is the transaction with it if the mempool has just one, and nothing if it has none or several |
| `CompactBlocks.PartiallyDownloadedBlock.InitData` | src/blockencodings.cpp:50-137 | invalid exactly if the message is malformed or announces more than 200000, failed exactly on equal ids or a crowded map, and else the slots and count of that search |
| `CompactBlocks.OutcomeFills` | src/blockencodings.cpp:50-137 | with at most 65536 transactions every slot holds its whole transaction, or the only match, or none, and the count is exact |
| `CompactBlocks.SlotsFit` | src/blockencodings.cpp:82-87 | 16-bit slots hold them all if and only if there are at most 65536 transactions |
| `CompactBlocks.SixteenBits` | src/blockencodings.cpp:50-137 | what is filled in is right with every mempool without collisions if and only if the block has at most 65536 transactions |
| `CompactBlocks.LastInWrongSlot` | src/blockencodings.cpp:50-137 | with more, a mempool that has just the last transaction puts it where another belongs |
| `CompactBlocks.OnlyMissingAsked` | src/blockencodings.cpp:106-133 | a transaction that the mempool has once is not asked for |
| `CompactBlocks.PartiallyDownloadedBlock.Request` | src/main.cpp:7611-7615 | the empty slots in order |
| `CompactBlocks.PartiallyDownloadedBlock.FillBlock` | src/blockencodings.cpp:145-160 | the slots with the missing transactions in order, invalid exactly if their number is wrong |
| `CompactBlocks.FillingAgrees` | src/blockencodings.cpp:50-137 | without short id collisions everything filled in is the block's own |
| `CompactBlocks.MergeRebuilds` | src/blockencodings.cpp:145-160 | completed with the block's missing transactions, the slots are the block |
| `CompactBlocks.RequestSurvives` | src/blockencodings.h:36-68 | the request for what is missing is read as it was meant |
| `CompactBlocks.Rebuild` | src/blockencodings.cpp:20-160 | from any compact form that describes a block, whichever transactions it has whole, any collision-free mempool and the request sent and read: the block itself, or failed, exactly on equal ids or a crowded map |
| `CompactBlocks.SendAndRebuild` | src/blockencodings.cpp:20-160 | so a block with distinct short ids is rebuilt from the form a node sends |
| `RequestCodec.WriteIndexes` | src/blockencodings.h:62-67 | the gaps between indexes |
| `RequestCodec.ReadIndexes` | src/blockencodings.h:42-61 | the indexes for gaps, failing on any that does not fit |
| `RequestCodec.RoundTripIff` | src/blockencodings.h:36-68 | a list survives if and only if it is strictly increasing |
| `RequestCodec.RisingIff` | src/blockencodings.h:54-61 | what is read is strictly increasing if and only if the last index, counted without wrapping, fits 16 bits |
| `RequestCodec.OffsetWraps` | src/blockencodings.h:54-61 | after index 65535 the running offset is zero again |
| `Base58.EncodeBase58` | src/base58.cpp:68-106 | the text of the bytes; the carry never outgrows the buffer |
| `Base58.DecodeBase58` | src/base58.cpp:22-66 | succeeds exactly on the text of some bytes with white space around it, and gives those bytes |
| `Base58.DecodeStdString` | src/base58.cpp:113-116 | reads a string up to its first NUL |
| `Base58.StrChr` | src/base58.cpp:37-40 | the value of a digit, or none |
| `Base58.SpaceIs` | src/base58.cpp:24-29 | white space is the space and the characters 9 to 13 |
| `Base58.CharOfDigit` | src/base58.cpp:19-20 | the digits are the letters and numerals but for 0, I, O and l |
| `Base58.Alphabet` | src/base58.cpp:19-20 | they come in the order of their characters |
| `Base58.TextExamples` | src/test/data/base58_encode_decode.json:3-4 | the texts of three byte strings |
| `Base58.AppendByte` | src/base58.cpp:81-93 | multiplies by 256 and adds, visiting only the digits in use |
| `Base58.AppendDigit` | src/base58.cpp:41-48 | multiplies by 58 and adds |
| `Numerals.Room` | src/base58.cpp:34-35 | a numeral has room in the buffer set aside, for every length |
| `Numerals.Room58` | src/base58.cpp:34-35 | 58^1000 <= 256^733 |
| `Numerals.Room256` | src/base58.cpp:77-79 | 256^100 <= 58^138 |
| `Base58.TextInjective` | src/base58.cpp:68-106 | different bytes have different texts |
| `Base58.SurroundsOne` | src/base58.cpp:22-66 | a string surrounds the text of at most one byte string |
| `Base58.EncodeThenDecode` | src/base58.cpp:22-106 | decoding undoes encoding |
| `Base58.DecodeThenEncode` | src/base58.cpp:22-106 | encoding what was decoded gives the string less white space at its ends, and the string itself if it has none |
| `Base58.StripsOne` | src/base58.cpp:22-66 | only one string without white space is left when that at the ends is taken off |
| `Base58.EncodeBase58Check` | src/base58.cpp:118-125 | the text of the bytes with their checksum |
| `Base58.DecodeBase58Check` | src/base58.cpp:127-142 | succeeds exactly on the text of bytes with the right checksum, for any hash |
| `Base58.EncodeThenDecodeCheck` | src/base58.cpp:118-142 | decoding undoes encoding with a checksum, for any hash |
| `FivegnodeSelection.SortedUnique` | src/fivegnodeman.cpp:24-40 | with distinct collateral there is only one sorted order |
| `FivegnodeSelection.GetNextInQueueForPayment` | src/fivegnodeman.cpp:662-757 | among the qualified nodes that fewer than max(1, count/10) were paid before, the payee has the highest score, not zero, and those paid before it have lower ones; none exactly if all these scores are zero; the age filter goes if it leaves fewer than a third |
| `FivegnodeSelection.PayeeIsRight` | src/fivegnodeman.cpp:662-757 | the queue and the window give that payee |
| `FivegnodeSelection.Best` | src/fivegnodeman.cpp:744-756 | the first nonzero maximum of the window |
| `FivegnodeSelection.PayeeOrderFree` | src/fivegnodeman.cpp:662-757 | the payee does not depend on the order of the list |
| `FivegnodeSelection.GetRank` | src/fivegnodeman.cpp:802-835 | the place of a node in the ranking, or -1 if it is not in it |
| `FivegnodeSelection.GetByRank` | src/fivegnodeman.cpp:870-904 | the node at a place, or none |
| `FivegnodeSelection.RankingIs` | src/fivegnodeman.cpp:802-835 | the ranking has every node that is kept once, by falling score |
| `FivegnodeSelection.RankingOrderFree` | src/fivegnodeman.cpp:802-904 | ranks do not depend on the order of the list |
| `FivegnodeSelection.PlaceIs` | src/fivegnodeman.cpp:802-904 | as many ranked nodes come before one as its rank says |
| `FivegnodeSelection.RankAndBack` | src/fivegnodeman.cpp:802-904 | looking up the rank of a node gives the node if and only if no node without a rank comes before it, which is so for queries of active nodes only |
| `FivegnodeSelection.BackAndRank` | src/fivegnodeman.cpp:802-904 | the node at a rank has that rank if and only if it has one and no node without one comes before it |
| `FivegnodeSelection.RankOfAnother` | src/fivegnodeman.cpp:815-820 | a node that may not be paid stands at the rank another one has |
| `FivegnodeRecovery.Manager.Ask` | src/fivegnodeman.cpp:220-245 | asks exactly the first nodes by rank not asked recently, up to ten of them, with a deadline in a minute |
| `FivegnodeRecovery.ChosenAre` | src/fivegnodeman.cpp:222-231 | with every node ranked once: nodes not asked recently, none left out before another, at most ten, and all if they are fewer |
| `FivegnodeRecovery.Manager.AskAround` | src/fivegnodeman.cpp:193-248 | drops spent nodes and asks about every node that seems gone, unless ten were asked about; at most ten are |
| `FivegnodeRecovery.Manager.Receive` | src/fivegnodeman.cpp:1566-1640 | an answer counts only if asked for, in time and from a node still waited for, and only once; a broadcast not seen before does to the node list and the broadcasts seen what Admitted says |
| `FivegnodeRecovery.Manager.Admit` | src/fivegnodeman.cpp:1599-1640 | noting a broadcast, updating the node it is about, forgetting that one's former broadcast, checking the outpoint and adding the node |
| `FivegnodeRecovery.AdmitKeeps` | src/fivegnodeman.cpp:1599-1640 | no node is lost or moved, only the one concerned changes, as its check says, one is added exactly if it was not listed and passes both checks, and no collateral is listed twice |
| `FivegnodeRecovery.UnknownIsNoted` | src/fivegnodeman.cpp:1599-1607 | a broadcast about no listed node is noted, unless its outpoint is to be checked later, and nothing else changes |
| `FivegnodeRecovery.FormerIsKept` | src/fivegnodeman.cpp:1611-1616 | if the update fails, the former broadcast stays |
| `FivegnodeRecovery.FormerIsForgotten` | src/fivegnodeman.cpp:1611-1618 | after an update the former broadcast of the node is no longer seen, the new one is unless its outpoint is to be checked later, and no other changes |
| `FivegnodeRecovery.BlankIsNoted` | src/fivegnodeman.cpp:1611 | looking up a former broadcast that was not seen leaves a blank one seen under its hash |
| `FivegnodeRecovery.Manager.ProcessReplies` | src/fivegnodeman.cpp:250-269 | after its deadline a request with six replies or more has the first of them taken back, once, with what its own checks come to, and no other does; replies that are due go |
| `FivegnodeRecovery.Manager.ExpireRequests` | src/fivegnodeman.cpp:275-284 | forgets exactly the requests three hours past their deadline, none of which has replies |
| `FivegnodeRecovery.Manager.CheckAndRemove` | src/fivegnodeman.cpp:181-284 | one round, with all of its effects on requests, replies, scheduled connections, the node list and the broadcasts seen: spent nodes go with their broadcasts, nodes that seem gone are asked about, and the first reply of each quorum is handled like a new broadcast |
| `FivegnodeRecovery.UnspentIs` | src/fivegnodeman.cpp:193-212 | the nodes left are those not spent, in the same order |
| `FivegnodeRecovery.SpentIs` | src/fivegnodeman.cpp:203-207 | the broadcasts of spent nodes are forgotten, and no others |
| `FivegnodeRecovery.ReplayedInTurn` | src/fivegnodeman.cpp:250-269 | broadcasts are taken back one after the other, each like a new one |
| `FivegnodeRecovery.TakenBackIsListed` | src/fivegnodeman.cpp:250-269 | one that passes its checks has its collateral in the list in the end |
| `FivegnodeRecovery.ReplayKeepsVins` | src/fivegnodeman.cpp:250-269 | taking broadcasts back lists no collateral twice |
| `FivegnodeRecovery.QuorumBound` | src/fivegnodeman.cpp:215-284 | replies and nodes still waited for come to no more than ten |
| `FivegnodeRecovery.Manager.NeverTooMany` | src/fivegnodeman.cpp:215-284 | the same for every live request of a manager |
| `FivegnodeRecovery.Run` | src/fivegnodeman.cpp:181-284 | in every run, a broadcast is taken back only after its deadline and on the word of at least six different nodes that were asked for that very broadcast and answered in time, and no collateral is ever listed twice |

## Left out

- CompactBlocks.PartiallyDownloadedBlock.InitData: not for a message with 65536 whole transactions and a short id, on which the program does not return (NothingInReach)
- CompactBlocks.Rebuild: for at most 65536 transactions, because beyond that it is false (SixteenBits)
- CoinsCache.CoinsStack.HaveCoins: like the program, may still report a transaction whose outputs are all spent
- AddrMan.HeardAgain: for times that a 32-bit field holds and a penalty that is not negative; Add_ itself is for any
- AddrManStream.Unserialize: a saved state is a record of entries and bucket lists, not bytes, so negative counts and framing are not modelled
- AddrManStream.FirstsStay: not for files whose buckets are used, where which untried records stay is up to the bucket lists; CleanIsSound covers them
- CoinsCodec.CoinsRoundTrip: for scripts that come back (ScriptRoundTrip says which: all whose size plus six fits 32 bits) and fewer outputs than the 32-bit header code can count; reading a signed int wraps where the program's shift would overflow
- FivegnodeRecovery.Manager.CheckAndRemove: the ranking used to choose whom to ask is drawn once per round, and what the checks of a broadcast find is a parameter
- Chain.ActiveChain.Equals: not for two empty chains, for which the program reads outside both
- CheckQueue.WaitEnds: the shutdown flag is never set by the program and is left out
- Select_ and GetChance of the address manager: floating point, and termination only by chance
- cachedCoinsUsage, best-block hash and cursors of the coin caches, GetSerializeSize of coins (it disagrees with what is written)
- the floating-point sizing of the bloom filter: the number of hashes and words is a parameter
- unordered_map bucket sizes and CheckBlock in compact blocks: their outcome is a parameter
- hexadecimal input and output, getdouble and bitwise operators of the big numbers
- GetBlockProofEquivalentTime, median times and block file positions of the chain
- qualification, scores and payment schedules of service nodes: taken as given per node
- mixing (darksend), service node sync and payments, RPC, HTTP, wallet, databases and networking

# Verified models of MonetaryUnit's core data structures

MonetaryUnit is a cryptocurrency node. This project models the parts of it whose correctness rests on an argument
rather than on reading one function, and proves that argument:

- **The set of unspent coins** (`Coins`, `CoinsCache`, `BlockUndo`, `BlockUndoChecks`). A stack of write-back caches
  with DIRTY and FRESH flags over a database behaves, for every run, like one plain map per level. Connecting a block to
  it and disconnecting the block again restores it exactly.
- **The encodings of coins** (`VarInt`, `CoinsCodec`, `TxOutCodec`, `Amount`, `CoinsFormat`). The bytes of a coin
  record, down to compact amounts and scripts, are read back; each module says exactly which values survive, and the
  documented records come out byte by byte.
- **The address manager** (`AddrMan`, `AddrManSteps`, `AddrManOps`, `AddrManAdd`, `AddrManTable`, `AddrManCheck`,
  `AddrManStore`, `AddrManLoad`, `AddrManStay`, `AddrManSave`, `AddrManFile`, `AddrManStream`, `AddrManLayout`,
  `AddrManMarks`, `AddrManLimits`). Five redundant indexes stay consistent in every run, the file it is saved to restores
  it, files that break it are told from those that do not, and its own consistency check is compared with the invariant.
- **The parallel check queue** (`CheckQueue`), as a state machine over the atomic steps of one master and any number of
  workers.
- **Merkle trees** (`Merkle`, `MerkleMutation`, `PartialMerkle`, `PartialMerkleSize`, `PartialMerkleTree`,
  `PartialMerkleShape`): which lists share a root and what the mutation report means, branches, soundness and
  completeness of partial trees, and exactly which encodings of them are accepted.
- **Block assembly** (`BlockAssembly`, `BlockPool`, `BlockSelection`, `BlockOutcome`, `BlockAssembler`, `BlockRules`):
  the selection loop of the miner on the cache stack, and what becomes of every transaction of the pool.
- **The active chain** (`SkipList`, `Chain`), with the exact cost of the skip list, and **Base58** (`Positional`,
  `Base58`, `Base58Vectors`).

Functions give the meaning of an operation; methods are the loops and updates of the source, proved against those
functions. Hash functions, the elliptic curve, script checks and clocks are parameters, and random draws are inputs.
`Common` holds definitions shared by the modules.

Where the code and its documentation disagree, the model follows the code:

- src/merkleblock.h:32-48 promises a size of at most 10 + ceil(32.25 N) bytes and at most 2N-1 bits. Both fail for some
  selections; `SizeGuaranteeExactly` and `BitBoundExactly` say for which.
- src/serialize.h:275-276 lists encodings of 16511 and 65535 that are those of 32895 and 65407;
  `CoinsFormat.MisprintedNumbers` has the right ones.
- src/merkleblock.cpp:128-133 rejects encodings with more hashes than transactions or bits. Without these tests the same
  encodings would be accepted; see `PartialMerkleShape.TreeAccepted`.
- src/compressor.cpp:133-140 describes an encoding without a word size. In 64-bit words it loses amounts, some of them
  within the money range of src/amount.h:20; `Amount.RoundTripExactly` says which.
- src/addrman.cpp:236-239 bails out if an entry is in no bucket. That never happens.
- src/addrman.h:116-123 says that a randomly chosen entry leaves a full bucket. The code looks at one slot, fixed by a hash.
- src/amount.cpp:10-16 divides a signed fee by an unsigned size, so a negative fee gets a very high rate;
  `BlockPool.FeeRateOrder` says exactly when the order of rates is that of fees.
- src/miner.cpp:166-188 drops a transaction with a parent that is nowhere, but keeps pointers to its entry if an earlier
  parent is in the pool; `BlockPool.StaleExactly` says when, and `BlockOutcome` which pools lead to one being followed.
- src/addrman.h:348-387 reads files in which an address occurs twice and can break its own index;
  `AddrManStay.LoadedOnFile` says when.
- src/serialize.h:293-308 writes a negative number as its low seven bits, so a coin record with a negative version or
  height is not read back.

## Model

| member | source | states |
|---|---|---|
| Coins.CleanupLoop | src/coins.h:112-117 | popping null outputs off the back gives exactly the longest prefix that does not end in one; availability of every output is unchanged |
| Coins.TrimmedOfPadded | src/coins.h:112-117 | cleaning up a vector padded with nulls gives back the vector: only trailing nulls are lost |
| CoinsCache.WriteEntryLemma | src/coins.cpp:155-184 | writing one dirty child entry to its parent never meets the failing assertion, keeps the flag discipline, and makes the parent show what the child showed; the drop and erase branches lose nothing |
| CoinsCache.CoinsViewStack.constructor | src/coins.cpp:74-74 | a stack over a database starts without caches and consistent |
| CoinsCache.CoinsViewStack.GetCoins | src/coins.cpp:98-105 | reading at any level returns what that level shows (spent reads as absent) and changes no level's view |
| CoinsCache.CoinsViewStack.FetchCoins | src/coins.cpp:81-96 | a fetch may fill caches down the stack; every level keeps its view and the flag discipline |
| CoinsCache.CoinsViewStack.AccessCoins | src/coins.cpp:125-132 | same, for the topmost cache |
| CoinsCache.CoinsViewStack.HaveCoins | src/coins.cpp:134-141 | testing for a non-empty output vector is the same as testing for an unspent output |
| CoinsCache.CoinsViewStack.HaveInputs | src/coins.cpp:218-230 | true exactly when every output the transaction spends is unspent in the view |
| CoinsCache.CoinsViewStack.GetValueIn | src/coins.cpp:199-216 | the sum of the spent outputs as the view shows them; the assertion on every input holds |
| CoinsCache.CoinsViewStack.InsertEntry | src/coins.cpp:110-119 | an entry that was there is kept; one that was not is FRESH exactly when the base shows nothing; no level shows anything else |
| CoinsCache.CoinsViewStack.ModifyCoins | src/coins.cpp:107-123 | hands out the coin the view shows, or a cleared one, marks the entry dirty, and changes no level's view |
| CoinsCache.CoinsViewStack.ReleaseModifier | src/coins.cpp:254-262 | after the edit the view shows the cleaned-up coin for that key and the old view for all others; erasing a fresh spent entry loses nothing |
| CoinsCache.CoinsViewStack.WriteToCache | src/coins.cpp:156-184 | one entry written to the cache below |
| CoinsCache.CoinsViewStack.WriteToDatabase | src/txdb.cpp:17-58 | one dirty entry written to the database: a fully spent record is erased there, any other is stored |
| CoinsCache.CoinsViewStack.BatchWrite | src/coins.cpp:153-187 | after writing all entries, in any order, the base shows exactly what the stack showed |
| CoinsCache.CoinsViewStack.Flush | src/coins.cpp:189-193 | after a flush the parent's view equals the child's view just before, and lower levels are untouched |
| CoinsCache.CoinsViewStack.Push | src/coins.cpp:74-74 | a new cache on top shows what was shown before |
| CoinsCache.CoinsViewStack.Discard | src/coins.cpp:76-79 | destroying the top cache without a flush forgets its changes only |
| CoinsCache.CoinsViewStack.EditCoins | src/coins.cpp:107-123 | a whole edit of one coin |
| CoinsCache.CoinsViewStack.Step | src/coins.cpp:81-193 | every client operation answers and acts like the same operation on one plain snapshot per level |
| CoinsCache.CoinsViewStack.Run | src/coins.cpp:81-193 | every run of reads, edits, pushes, flushes and discards gives the same answers as on plain snapshots, and every level ends up showing its snapshot |
| BlockUndo.UnspendSpend | src/coins.cpp:34-48 | undoing a spend gives back the very same record, length of the output vector and all, and reports a clean undo |
| BlockUndo.UnspendSpendAll | src/main.cpp:1586-1607 | the same for all inputs of a transaction, undone in reverse order |
| BlockUndo.FromTxSound | src/coins.h:88-94 | a record made from a transaction is clean, has blanked unspendable outputs, and matches that transaction on disconnect |
| BlockUndo.DisconnectConnectTx | src/main.cpp:1555-1609 | disconnecting a transaction just connected restores the unspent set exactly and cleanly |
| BlockUndo.DisconnectConnectBlock | src/main.cpp:1535-1620 | the same for a whole block that overwrites no record (the rule of BIP30) |
| BlockUndo.SpendInput | src/main.cpp:1412-1416 | spending one input through the cache moves the view to the spent set |
| BlockUndo.UpdateCoins | src/main.cpp:1407-1421 | on the cache stack: every spend succeeds; afterwards the view shows for the transaction exactly its outputs that last, with its height, version and coinbase flag, and for every other transaction what was not spent, unchanged; every undo record has the spent output, and the origin of the record exactly if that was its last one |
| BlockUndo.ConnectRecords | src/main.cpp:1407-1421 | connecting a transaction, record by record: its own has the outputs that are neither null nor start with OP_RETURN, the others lose the outputs spent and nothing else |
| BlockUndo.SpendAllUndo | src/coins.cpp:34-48 | the undo record of every input, against the set before the transaction |
| BlockUndoChecks.OutsMatchExactly | src/main.cpp:1559-1575 | the coin found for a transaction passes exactly if neither has an output that lasts, or height, coinbase flag, outputs and version agree, the version only unless it is negative |
| BlockUndoChecks.UnspendExactly | src/main.cpp:1587-1606 | undo data with a height fits exactly a record that is gone, undo data without one exactly a record that has some output but not this one; the output is put back, the origin with it if there is a height, and no other output changes |
| BlockUndo.OverwriteCoin | src/main.cpp:1419-1420 | assigning a whole coin through a modifier |
| BlockUndo.LeftoversDoNotMatter | src/main.cpp:1535-1620 | the caches may still have the height and version of a spent record; that shows only in an undo that is reported as unclean |
| BlockUndo.RestoreInput | src/main.cpp:1587-1606 | restoring one output: whether the undo data fitted, and what the view shows afterwards in either case |
| BlockUndo.RestoreInputs | src/main.cpp:1586-1607 | the loop over the inputs, last input first |
| BlockUndo.UndoTx | src/main.cpp:1555-1609 | one turn of the loop of `DisconnectBlock`: the new view and the clean flag; undo data of the wrong length stops it with the outputs already removed |
| BlockUndo.UndoBlock | src/main.cpp:1535-1620 | on the cache stack: the clean flag is that of the specification; if clean, so is the resulting view, and if not, the view is what the steps make of it over what the caches had left; malformed undo data is reported where it is met |
| VarInt.DecodeEncode | src/serialize.h:293-323 | a number written is read back and nothing after it is touched |
| VarInt.EncodeDecode | src/serialize.h:256-278 | no redundancy: what is read is the encoding of the number read |
| CoinsFormat.EncodingWorth | src/serialize.h:256-263 | every byte but the last has its high bit set, and the bytes are worth the number by the documented sum |
| CoinsFormat.DocumentedNumbers | src/serialize.h:272-277 | the encodings listed in the documentation, as far as the code produces them |
| CoinsFormat.MisprintedNumbers | src/serialize.h:275-276 | the two listed encodings that the code does not produce, what it produces instead, and which numbers those bytes stand for |
| CoinsFormat.NegativeNumbers | src/serialize.h:293-308 | a negative number is written as one byte, its low seven bits |
| CoinsFormat.DocumentedAmounts | src/compressor.cpp:133-140 | the documented code of an amount with fewer than nine zeroes at its end |
| CoinsFormat.DocumentedLargeAmounts | src/compressor.cpp:133-140 | the documented code of an amount with nine zeroes or more, and of zero |
| CoinsFormat.UnknownKeys | src/compressor.cpp:115-122 | a coordinate that belongs to no key is read as the empty script, and nothing after it is touched |
| CoinsFormat.DocumentedRecord | src/coins.h:38-50 | the first documented record, byte by byte, for any key hash |
| CoinsFormat.DocumentedCoinbase | src/coins.h:53-70 | the second documented record, a coinbase with a two-byte mask, byte by byte, for any two key hashes |
| VarInt.GetSizeOfVarInt | src/serialize.h:280-291 | the size announced is the number of bytes written, also for the truncated form of a negative number |
| VarInt.BufferSuffices | src/serialize.h:296-296 | a number of a type of so many bits never needs more bytes than the buffer has, (bits + 6) / 7 |
| VarInt.WriteVarInt | src/serialize.h:293-308 | the digits go into a buffer of that size, never past its end, and out in reverse: the encoding of the number, or of its low seven bits if it is negative |
| VarInt.DecodeInEncode | src/serialize.h:293-323 | read into a type of a given width, a number comes back exactly if it fits |
| VarInt.ReadVarInt | src/serialize.h:310-323 | cutting off at the width of the type in every step gives the number read, modulo that width; fails at the end of the stream |
| CoinsCodec.ReadMaskStops | src/coins.h:217-228 | though only the number of non-zero mask bytes is stored, the reader stops after exactly the bytes written |
| CoinsCodec.WritableExactly | src/coins.h:183-183 | the assertion before writing holds exactly for records with an unspent output |
| CoinsCodec.FlagsRecovered | src/coins.h:190-228 | the flags read from the mask bytes are the availabilities of the outputs |
| CoinsCodec.UnserializeSerialize | src/coins.h:177-238 | for any output codec that inverts on the record's outputs and any record whose numbers are 32-bit ones: reading returns the record with spent outputs reset, trailing ones dropped and numbers read back, and leaves the rest of the stream |
| CoinsCodec.RoundTripExactly | src/coins.h:177-238 | the record comes back unchanged exactly when it is clean, its spent outputs are reset and neither number is negative |
| CoinsCodec.ByteIsZero | src/coins.cpp:19-25 | the inner loop: whether the outputs behind a mask byte are all spent |
| CoinsCodec.CalcMaskSize | src/coins.cpp:16-32 | number of mask bytes up to the last non-zero one, and number of non-zero ones |
| CoinsCodec.BuildMaskByte | src/coins.h:191-195 | the byte built bit by bit is the mask byte |
| CoinsCodec.WriteMask | src/coins.h:190-196 | all mask bytes, in order |
| CoinsCodec.WriteOutputs | src/coins.h:198-201 | the unspent outputs, in order |
| CoinsCodec.Serialize | src/coins.h:177-204 | writes the specified encoding, within the buffers for 32-bit numbers; the assertion holds for every record that is not fully spent |
| CoinsCodec.GetSerializeSize | src/coins.h:154-175 | the announced size is the number of bytes written |
| CoinsCodec.ReadMaskFlags | src/coins.h:214-228 | reads mask bytes until enough non-zero ones were seen, pushing eight flags each |
| CoinsCodec.ReadOutputs | src/coins.h:230-234 | fills a vector of null outputs, one read per flag |
| CoinsCodec.Unserialize | src/coins.h:206-238 | reads what the specification reads, with the header code cut to 32 bits and version and height as 32-bit signed numbers, and fails at the end of the stream |
| TxOutCodec.DecompressCompress | src/compressor.cpp:48-131 | a script of a special form is restored from its code and data, for any curve in which a valid key is determined by one coordinate and a parity |
| TxOutCodec.ReadWriteScript | src/compressor.h:67-92 | a script is read back from what was written, and nothing after it is touched, exactly when it has a special form or its size fits in 32 bits |
| TxOutCodec.HashScripts | src/compressor.cpp:50-63 | the bytes written for a payment to a key hash and to a script hash |
| TxOutCodec.KeyScripts | src/compressor.cpp:64-75 | the bytes written for a payment to a compressed and to an uncompressed key |
| TxOutCodec.SpecialExactly | src/compressor.cpp:11-77 | a script is compressed exactly if it has one of the four forms, opcode by opcode |
| TxOutCodec.ScriptSize | src/compressor.h:20-37 | 21 or 33 bytes for the special forms; any other script takes one byte more up to 121 bytes and two more up to 16505, and the short ones start with their size plus six |
| TxOutCodec.ReadWriteOutExactly | src/compressor.h:96-122 | an output is read back exactly when the code of its amount fits in 64 bits and the size of its script in 32 |
| TxOutCodec.CoinsRoundTrip | src/coins.h:177-238 | the record codec and the output codec together: a clean record of fitting outputs goes through its bytes unchanged |
| Amount.DecompressCompress | src/compressor.cpp:142-185 | every amount is recovered from its code, over all natural numbers |
| Amount.CompressDecompress | src/compressor.cpp:142-185 | every number is the code of exactly one amount |
| Amount.StripZeroes | src/compressor.cpp:147-150 | the loop divides out exactly the factors of ten, at most nine |
| Amount.CompressAmount | src/compressor.cpp:142-159 | in 64-bit words the result is the true code modulo 2^64; the assertion on the last digit holds |
| Amount.ScaleUp | src/compressor.cpp:180-183 | the multiplying loop, modulo 2^64 |
| Amount.DecompressAmount | src/compressor.cpp:161-185 | in 64-bit words the result is the true amount modulo 2^64 |
| Amount.FitsExactly | src/compressor.cpp:142-159 | exactly for the amounts that are multiples of ten or satisfy 9n + n%10 - 9 < 2^64 the code fits in 64 bits, and then so does the largest product on the way to it |
| Amount.RoundTripExactly | src/compressor.cpp:142-185 | a 64-bit amount survives compression exactly when it fits: once a code wraps around, a different amount comes back |
| Amount.RoundTrip | src/compressor.cpp:142-185 | the two loops one after the other give back a fitting amount |
| Amount.SmallAmountsFit | src/compressor.cpp:142-159 | all amounts up to 2*10^18 fit |
| Amount.LargeAmountsFail | src/amount.h:20-20 | an amount within the money range whose code belongs to 10000 |
| AddrManSteps.SwappedKeeps | src/addrman.cpp:101-119 | a swap changes nothing but the random order, which stays the inverse of the recorded positions; both assertions hold |
| AddrManSteps.AdmittedMidway | src/addrman.cpp:89-99 | a created entry keeps the invariant up to being unreferenced and uncounted |
| AddrManSteps.DeletedMidway | src/addrman.cpp:121-133 | deleting an unreferenced entry removes it from all indexes and touches no other entry |
| AddrManSteps.ClearedMidway | src/addrman.cpp:135-148 | a slot is emptied; an entry disappears exactly when that was its only reference, and no other changes |
| AddrManSteps.ReferencedMidway | src/addrman.cpp:302-305 | a new reference keeps the invariant |
| AddrManSteps.SweepUnlists | src/addrman.cpp:152-162 | the sweep over 1024 buckets finds every reference: the count ends at exactly zero |
| AddrManSteps.DemotedMidway | src/addrman.cpp:175-178 | taking an entry out of the tried table |
| AddrManSteps.PromotedMidway | src/addrman.cpp:193-195 | putting an unreferenced entry into its tried slot |
| AddrManOps.EvictedEffect | src/addrman.cpp:168-190 | the evicted entry goes to the slot its own source selects; only the entry whose last reference was there disappears |
| AddrManOps.MadeTriedEffect | src/addrman.cpp:150-196 | the tables after the move, exactly; at most one entry disappears and the counts are right |
| AddrManOps.FindsBucket | src/addrman.cpp:224-239 | every new entry is found by the search of `Good_`: its bail-out is dead code |
| AddrManOps.GoodEffect | src/addrman.cpp:198-245 | the tried count grows by at most one; at most one known address disappears, and which one |
| AddrManMarks.GoodMarks | src/addrman.cpp:198-245 | entry by entry: only the one with this address and port is marked, and ends up tried with no attempts; an entry is lost exactly if its one reference is where the displaced tried entry has to go |
| AddrManOps.GoodInv | src/addrman.cpp:198-245 | keeps the invariant, its part about times exactly if the service is unknown or the time is positive |
| AddrManOps.GoodAtZero | src/addrman.cpp:198-245 | a known service marked good at time 0 breaks the part about times |
| AddrManOps.AttemptedInv | src/addrman.cpp:315-332 | keeps the invariant, its part about times exactly if the service is unknown or the time is not negative |
| AddrManMarks.AttemptedMarks | src/addrman.cpp:315-332 | the entry with exactly this address and port gets the time and one more attempt; nothing else changes |
| AddrManOps.ConnectedInv | src/addrman.cpp:472-490 | keeps the invariant |
| AddrManMarks.ConnectedMarks | src/addrman.cpp:472-490 | the entry with exactly this address and port gets the time, in 32 bits, if its own is more than 1200 seconds behind; nothing else changes |
| AddrManMarks.GivenTells | src/addrman.cpp:451-470 | what is handed out tells service, flags and time of the entries at the front of the new random order that are not terrible, each once and none skipped; at most 23 percent of all and at most 2500, and as many as that if there are enough |
| AddrManAdd.AddedInv | src/addrman.cpp:247-313 | keeps the invariant, whatever the address, source, penalty, time and random draw |
| AddrManAdd.AddedEffect | src/addrman.cpp:284-311 | an unknown address finds room exactly if the slot its source selects is free or held by a terrible entry or one with another reference, and then has an entry with the announced facts, the penalty taken off its time; at most one entry is lost, and no other changes; without room it leaves no trace but a used-up id |
| AddrManAdd.ReheardEffect | src/addrman.cpp:256-311 | a known address keeps its source and its record of tries, joins the announced services, and moves its time forward by the rules of an hour and a day; it gains a reference, in the slot its new source selects, exactly if it was announced with a later time, is not tried, has fewer than eight, the draw is a multiple of 2 to their number, and the slot is free or held by a terrible entry; at most one other entry is lost, and which one |
| AddrManAdd.GivenEffect | src/addrman.cpp:451-470 | what is handed out are distinct entries that are not terrible, at most 23 percent and 2500; fewer only if there are no more; nothing but the random order changes |
| AddrManAdd.ApplySteady | src/addrman.cpp:198-332 | whatever the times, every operation keeps the invariant apart from its part about times |
| AddrManAdd.ApplyInv | src/addrman.cpp:198-332 | with times from a clock, all of it |
| AddrManAdd.RunInv | src/addrman.cpp:374-448 | in every state of every run from an empty manager the indexes, tables and counts are consistent; so are the times, as long as those handed in come from a clock |
| AddrManLimits.GroupLimit | src/addrman.h:105-124 | in every consistent state one address group holds at most 512 of the tried slots |
| AddrManLimits.SourceGroupLimit | src/addrman.cpp:20-26 | in every run, all that the announcements of one group of sources write goes to at most 64 of the 1024 new buckets, however many addresses they announce |
| AddrManTable.AddrManager.constructor | src/addrman.h:450-453 | a constructed manager is empty and consistent |
| AddrManTable.AddrManager.SwapRandom | src/addrman.cpp:101-119 | `Swapped` of the old state (see `SwappedKeeps`) |
| AddrManTable.AddrManager.Create | src/addrman.cpp:89-99 | `Created` of the old state (see `AdmittedMidway`) |
| AddrManTable.AddrManager.Delete | src/addrman.cpp:121-133 | `Deleted` of the old state (see `DeletedMidway`) |
| AddrManTable.AddrManager.ClearNew | src/addrman.cpp:135-148 | `Cleared` of the old state (see `ClearedMidway`); the assertion on the count holds |
| AddrManTable.AddrManager.Unreference | src/addrman.cpp:139-143 | frees a slot and lowers the count |
| AddrManTable.AddrManager.Demote | src/addrman.cpp:170-178 | takes the occupant of a slot out of the tried set |
| AddrManTable.AddrManager.Reenter | src/addrman.cpp:186-189 | enters an unreferenced entry into the new set again |
| AddrManTable.AddrManager.Evict | src/addrman.cpp:168-190 | makes room in the tried table; the assertions hold |
| AddrManTable.AddrManager.Promote | src/addrman.cpp:193-195 | puts an entry into its tried slot |
| AddrManTable.AddrManager.Seat | src/addrman.cpp:164-195 | the second half of `MakeTried` |
| AddrManTable.AddrManager.SweepBucket | src/addrman.cpp:154-158 | looks at the slot of one bucket |
| AddrManTable.AddrManager.SweepNew | src/addrman.cpp:153-159 | the sweep loop does what the recursive specification does |
| AddrManTable.AddrManager.MakeTried | src/addrman.cpp:150-196 | `MadeTried` of the old state (see `MadeTriedEffect`); all its assertions hold |
| AddrManTable.AddrManager.FindExact | src/addrman.cpp:200-211 | the entry of exactly this address and port |
| AddrManTable.AddrManager.SearchBucket | src/addrman.cpp:224-234 | from any starting bucket the search ends with a bucket that holds the entry |
| AddrManTable.AddrManager.Good | src/addrman.cpp:198-245 | `Good` of the old state (see `GoodEffect`, `GoodMarks`), and the invariant |
| AddrManTable.AddrManager.Refresh | src/addrman.cpp:257-264 | updates time and services of a known entry |
| AddrManTable.AddrManager.Reference | src/addrman.cpp:304-305 | fills a slot and raises the count |
| AddrManTable.AddrManager.List | src/addrman.cpp:291-311 | gives an entry a reference or drops it |
| AddrManTable.AddrManager.AddKnown | src/addrman.cpp:256-283 | the branch for a known address |
| AddrManTable.AddrManager.AddUnknown | src/addrman.cpp:284-289 | the branch for an unknown address |
| AddrManTable.AddrManager.Add | src/addrman.cpp:247-313 | `Added` of the old state and its result (see `AddedEffect`, `ReheardEffect`), and the invariant |
| AddrManTable.AddrManager.Attempt | src/addrman.cpp:315-332 | `Attempted` of the old state: last try and number of attempts of exactly this service, and the invariant |
| AddrManTable.AddrManager.Connected | src/addrman.cpp:472-490 | `Connected` of the old state: the time of exactly this service, if more than 20 minutes old, and the invariant |
| AddrManTable.AddrManager.GetAddr | src/addrman.cpp:451-470 | `Given` of the old state and its list (see `GivenEffect`, `GivenTells`), and the invariant |
| AddrManTable.Factor | src/addrman.cpp:278-281 | two to the number of references |
| AddrManCheck.RandomExactly | src/addrman.cpp:379-380 | if every entry finds itself at its position, equal counts mean that the random order holds every entry once and nothing else |
| AddrManCheck.CheckExactly | src/addrman.cpp:374-448 | the check passes exactly when the invariant holds, but for three things it does not look at: ids below the counter, bucket numbers in range, and stale or missing addresses |
| AddrManCheck.CheckEntry | src/addrman.cpp:383-405 | zero exactly if the entry passes; looking its address up enters it if it is missing, and nothing else changes |
| AddrManCheck.CheckEntries | src/addrman.cpp:382-406 | the loop over all entries, collecting tried ids and reference counts |
| AddrManCheck.CheckTried | src/addrman.cpp:413-425 | the loop over the tried table, with what is left over at the end |
| AddrManCheck.CheckNew | src/addrman.cpp:427-438 | the loop over the new table, with what is left over at the end |
| AddrManCheck.Check | src/addrman.cpp:374-448 | returns zero exactly if every condition of the check holds; the only change it makes is to enter missing addresses of entries |
| AddrManCheck.CheckValid | src/addrman.cpp:374-448 | a manager in any state of any run, with a non-zero key, passes its own check exactly if its times make sense, and is not changed by it |
| AddrManStore.LoadedSettled | src/addrman.h:328-423 | whatever the file says, the manager read from it is consistent but for the address index and the times |
| AddrManLoad.UnprunedExactly | src/addrman.h:348-405 | before pruning, the address index is consistent exactly when no address occurs twice among the new entries and those tried ones that find their slot free, and the times exactly when those of the same entries are |
| AddrManLoad.PrunedWithout | src/addrman.h:407-417 | pruning removes exactly the new entries without a reference, and with each the index entry of its address, whoever it leads to |
| AddrManLoad.LoadedExactly | src/addrman.h:328-423 | after pruning, the index is consistent exactly when no entry that stays shares its address with any that entered; files without repeated addresses give a manager that every operation can go on with |
| AddrManLoad.TwoPortsBreakIndex | src/addrman.h:348-364 | a file of version 0 with one address under two ports: for all hash functions the first entry stays and can no longer be found |
| AddrManStay.StaysExactly | src/addrman.h:352-363 | which new records get a reference, told from the file: without usable positions the first to have its slot, with them those that are the first in some bucket to ask for a slot while they have fewer than eight |
| AddrManStay.LoadedOnFile | src/addrman.h:328-423 | the operations can go on with the manager read from a file exactly if no record that stays shares its address with another one that enters, and the whole invariant holds exactly if also the times of those that stay make sense: both conditions are on the file, the key and the hash functions alone |
| AddrManSave.SavedCounts | src/addrman.h:291-310 | the counts written first are the numbers of entries written: the assertions while writing hold |
| AddrManSave.NoTriedLost | src/addrman.h:368-387 | no two tried entries of a consistent manager compete for a slot |
| AddrManSave.RoomLeft | src/addrman.h:396-403 | while references are read back, no entry hits the limit of eight |
| AddrManSave.PrunedNothing | src/addrman.h:407-417 | nothing is pruned when every new entry has a reference |
| AddrManSave.RoundTrip | src/addrman.h:278-423 | the manager read back is the one written, up to ids, random order and last tries: same entries, same slots, same reference counts, same address index, same counters; times that make sense still do |
| AddrManFile.WriteEntries | src/addrman.h:291-310 | the records of one group in id order, and the index each id gets |
| AddrManFile.WriteBucket | src/addrman.h:311-324 | the indices in one bucket |
| AddrManFile.Serialize | src/addrman.h:278-325 | writes the specified file |
| AddrManFile.EnterNew | src/addrman.h:350-364 | one turn of the loop over the new entries |
| AddrManFile.ReadNew | src/addrman.h:348-366 | the loop over the new entries |
| AddrManFile.EnterTried | src/addrman.h:371-385 | one turn of the loop over the tried entries; tells whether the entry was lost |
| AddrManFile.ReadTried | src/addrman.h:368-387 | the loop over the tried entries, with the count corrected for losses |
| AddrManFile.EnterIndex | src/addrman.h:394-403 | one turn of the innermost loop |
| AddrManFile.ReadBucket | src/addrman.h:391-404 | the indices of one bucket |
| AddrManFile.ReadBuckets | src/addrman.h:389-405 | the positions in the new table |
| AddrManFile.Prune | src/addrman.h:407-417 | drops exactly the new entries without a reference |
| AddrManFile.Unserialize | src/addrman.h:328-423 | every file is read as specified; the manager is consistent exactly if no record that stays shares its address with another one that enters |
| AddrManFile.SaveAndLoad | src/addrman.h:278-423 | write, construct, read: the two managers are the same up to names |
| AddrManStream.ParsedEmitted | src/addrman.h:278-405 | every file is read back from its stream, marked bucket count and all, and nothing after it is touched |
| AddrManStream.NoMoreThanStream | src/addrman.h:335-405 | a count that the stream does not bear out is refused |
| AddrManStream.PutEntries | src/addrman.h:293-310 | the entries of one group, one by one |
| AddrManStream.PutBucket | src/addrman.h:311-324 | the size of a bucket and its indices |
| AddrManStream.Emit | src/addrman.h:278-325 | writes version, key size, key, counts and lists as specified |
| AddrManStream.TakeLists | src/addrman.h:389-405 | takes the bucket lists off the stream as specified |
| AddrManStream.Parse | src/addrman.h:332-405 | reads what the specification reads, and refuses another key size or a stream that ends early |
| AddrManStream.ThroughStream | src/addrman.h:278-423 | write to a stream, read from it: the two managers are the same up to names |
| AddrManLayout.StreamLayout | src/addrman.h:249-290 | the stream of a manager starts with 1, 32, the key, the counts of new and tried entries, and 1024 with bit 30 set; its length |
| AddrManLayout.StreamEntry | src/addrman.h:293-310 | where every entry stands, and with which fields: new ones first, each group by id |
| AddrManLayout.StreamBucket | src/addrman.h:311-317 | where every bucket starts, with the number of its references |
| AddrManLayout.StreamReference | src/addrman.h:318-324 | where every reference stands: the index of its entry among the new ones |
| CheckQueue.NextKeepsInv | src/checkqueue.h:69-158 | every atomic step of any thread keeps the accounting of checks, the counters, the failure flags and the wake-up condition |
| CheckQueue.RunInv | src/checkqueue.h:69-158 | the invariant at every moment of every interleaving at which the mutex is free |
| CheckQueue.WaitReturnsConjunction | src/checkqueue.h:69-143 | `Wait` returns exactly the conjunction of the checks added since it last returned, and not before each was executed, or skipped after a failure |
| CheckQueue.IdleBetweenRounds | src/checkqueue.h:164-191 | after a return of `Wait` and before the next `Add` the queue is idle, so the controller's assertion cannot fail |
| CheckQueue.BusyThreads | src/checkqueue.h:76-127 | the threads counted as not idle are exactly those holding an unreported batch, and the counter of open checks is exact |
| CheckQueue.WorkDecreases | src/checkqueue.h:69-127 | executing or reporting brings the end nearer; no other step of a thread moves it away |
| CheckQueue.MasterNotStuck | src/checkqueue.h:83-104 | no lost wake-up: while the master waits, some thread can make progress or the master has been notified |
| CheckQueue.WaitCanReturn | src/checkqueue.h:69-143 | from every reachable state in which the master waits, some continuation makes `Wait` return |
| CheckQueue.BatchSizeExactly | src/checkqueue.h:105-110 | a batch is at least one check, otherwise at most the limit and an equal share of the queue among all threads, and as large as these allow |
| CheckQueue.TakesBatch | src/checkqueue.h:110-119 | a batch is taken off the back of the queue, last check first; it starts from whether all is well so far |
| Merkle.FlatAt | src/primitives/block.cpp:56-75 | node i of a level is found at the level's offset in the flattened tree |
| Merkle.SameRootSameTransactions | src/primitives/block.cpp:19-80 | two lists of the same tree height with the same root, neither reported as mutated, are equal, or two different pairs at the same place of the same level of their trees have the same hash, and which |
| Merkle.HeightMatters | src/primitives/block.cpp:19-80 | without the height the statement fails: an inner node can pass for a transaction |
| MerkleMutation.RepeatedEnd | src/primitives/block.cpp:26-42 | for every list: if a level has an odd width above one and its last node is a whole subtree, repeating the transactions below that node keeps root and height, and is reported |
| MerkleMutation.ReportMeans | src/primitives/block.cpp:44-69 | conversely, a report below the top pair means that the list without the repeated end has the same root and height; at the top pair it means two equal halves |
| Merkle.BranchAuthenticates | src/core.cpp:241-270 | the branch of any transaction, folded from that transaction, gives the root, odd widths included |
| Merkle.BranchSound | src/core.cpp:257-270 | conversely, a branch as long as the tree is high that leads from a hash to the root is that transaction's own branch, and the hash is the transaction's, or a pair on the path collides, and which |
| Merkle.Block.HashLevel | src/primitives/block.cpp:64-73 | one level of the tree, with the report of a duplicated end |
| Merkle.Block.HashLevels | src/primitives/block.cpp:60-75 | all levels |
| Merkle.Block.BuildMerkleTree | src/primitives/block.cpp:19-80 | the flattened tree, its root, and whether some level ends in a duplicated pair |
| Merkle.Block.GetMerkleBranch | src/primitives/block.cpp:82-96 | the neighbours of the path from the transaction; a read in front of the tree happens exactly for a negative index and more than one transaction |
| Merkle.Block.ReadBranch | src/primitives/block.cpp:87-95 | the loop over the levels |
| Merkle.Block.CheckMerkleBranch | src/primitives/block.cpp:98-111 | folds the hash along the branch, for negative indices with the sign-extending shift; an index of -1 gives 0 |
| PartialMerkle.WidthFormula | src/merkleblock.h:66-68 | rounding up by 2^k is rounding up by two, k times |
| PartialMerkle.CalcHashIsLevel | src/merkleblock.cpp:40-55 | the recursive hash of a node is the node of the flattened tree |
| PartialMerkle.CalcHashRoot | src/merkleblock.cpp:40-55 | at the top it is the Merkle root |
| PartialMerkle.ExtractBuilt | src/merkleblock.cpp:57-103 | extracting what was built gives the node's hash and exactly its matched leaves, and uses up exactly what was built |
| PartialMerkle.ExtractSound | src/merkleblock.cpp:75-103 | for arbitrary bits and hashes: if a node hashes to the true one, the ids found are real ones in order, or extraction comes to a node, which is returned with its places in the two arrays, where it reads another pair of children than the true tree has, with the same hash |
| PartialMerkleSize.Totals | src/merkleblock.h:36-48 | exact bit count; hashes at most the transactions, at most the bits, at most 1 + matches * height |
| PartialMerkleSize.BitBoundExactly | src/merkleblock.h:47-47 | the documented bound of 2N-1 bits holds exactly when no match lies below the last node of a level over an odd number of children |
| PartialMerkleSize.BitBoundFails | src/merkleblock.h:47-47 | a match on the last of five leaves: two hashes, five bits |
| PartialMerkleSize.SizeGuaranteeExactly | src/merkleblock.h:32-48 | the documented size holds exactly when the single-child nodes fit into the spare bits after the vector lengths |
| PartialMerkleSize.SizeGuaranteeHolds | src/merkleblock.h:32-48 | a simple sufficient condition |
| PartialMerkleSize.SizeGuaranteeFailsWide | src/merkleblock.h:32-48 | it fails for every tree of 65536 hashes or more |
| PartialMerkleSize.SizeGuaranteeFailsNarrow | src/merkleblock.h:32-48 | with all of 1025 transactions matched the encoding takes one byte more than guaranteed |
| PartialMerkleSize.SizeBound | src/merkleblock.h:32-48 | up to the accepted transaction count, four more bytes always suffice |
| PartialMerkleTree.PackBits | src/merkleblock.h:99-103 | the bytes carry the bits, least significant first, and zeroes after them |
| PartialMerkleTree.UnpackBits | src/merkleblock.h:92-98 | eight bits per byte |
| PartialMerkleTree.UnpackPack | src/merkleblock.h:87-105 | bits survive packing and unpacking, up to padding with false |
| PartialMerkleTree.ExtractionComplete | src/merkleblock.cpp:105-152 | for every list within the size limit and every selection, the packed and unpacked tree is accepted and yields the root and the selected ids |
| PartialMerkleTree.ExtractionSound | src/merkleblock.cpp:121-152 | whatever arrives with the true transaction count: if it is accepted with the true root, its ids are ids of the block in order, or the traversal from the root came to a node with such a pair, and which |
| PartialMerkleTree.PartialMerkleTree.Build | src/merkleblock.cpp:105-117 | the constructor stores exactly the specified bits and hashes |
| PartialMerkleTree.PartialMerkleTree.Receive | src/merkleblock.h:92-98 | a tree as it arrives |
| PartialMerkleTree.PartialMerkleTree.FindHeight | src/merkleblock.cpp:111-113 | the loop finds the tree height |
| PartialMerkleTree.PartialMerkleTree.ParentOfMatch | src/merkleblock.cpp:58-61 | the loop tells whether a match lies below the node |
| PartialMerkleTree.PartialMerkleTree.TraverseAndBuild | src/merkleblock.cpp:57-73 | appends exactly the specified bits and hashes |
| PartialMerkleTree.PartialMerkleTree.TraverseAndExtract | src/merkleblock.cpp:75-103 | advances both positions and collects matches as specified, or raises the flag |
| PartialMerkleTree.PartialMerkleTree.ExtractMatches | src/merkleblock.cpp:121-152 | root and matches of an accepted tree, otherwise 0 (see `AcceptsExactly`) |
| PartialMerkleShape.AcceptsExactly | src/merkleblock.cpp:121-152 | an encoding is accepted exactly if it is that of a pruned tree over one to 83333 transactions: its flags in depth-first order filled up to a byte, and the hashes it was cut at |
| PartialMerkleShape.AcceptedTree | src/merkleblock.cpp:80-110 | and it yields the hash of that tree and its marked ids |
| PartialMerkleShape.TreeAccepted | src/merkleblock.cpp:126-133 | every such tree is accepted: the tests on the number of hashes reject nothing more |
| PartialMerkleTree.SendAndExtract | src/merkleblock.cpp:105-152 | build, send, receive, extract: the receiver gets the root and exactly the selected ids |
| BlockAssembly.DistinctSpendable | src/miner.cpp:267-283 | distinct unspent inputs can be spent one after the other |
| BlockAssembly.ReleaseEffect | src/miner.cpp:300-315 | telling the dependers of a transaction removes its hash from exactly those that wait for it, however often they are listed, and moves to the queue, once, exactly those that wait for nothing more |
| BlockAssembly.ConsideredGood | src/miner.cpp:228-316 | every pass keeps the whole invariant and strictly lowers queued plus waiting transactions |
| BlockAssembly.RunGood | src/miner.cpp:228-316 | in every state of every run: the block replays, the limits hold, dependencies are exact and every transaction is accounted for exactly once; no run is longer than the number of transactions |
| BlockAssembly.ParentsFirst | src/miner.cpp:228-316 | a selected transaction comes after all of its parents that are not in the chain |
| BlockAssembly.SelectedOnce | src/miner.cpp:285-292 | no transaction is selected twice |
| BlockAssembly.Finished | src/miner.cpp:300-316 | at the end every eligible transaction was considered or still waits, and those that wait are exactly the orphans with a parent that is not in the block |
| BlockAssembly.FeesCancel | src/miner.cpp:322-326 | the fee entries of the template sum to zero |
| BlockPool.EligibleOnce | src/miner.cpp:148-153 | exactly the final transactions of the pool with all parents somewhere are eligible, each once |
| BlockPool.StaleMeans | src/miner.cpp:158-188 | the parents that keep a pointer to the removed entry of a dropped transaction are those in the pool, and not in the chain, of the inputs before the first one that is nowhere |
| BlockPool.StaleIsDropped | src/miner.cpp:166-177 | only a dropped transaction leaves any behind |
| BlockPool.StaleExactly | src/miner.cpp:166-188 | over the whole pool: exactly the parents that some final transaction leaves such a pointer with |
| BlockPool.StaleExample | src/miner.cpp:166-188 | two inputs, the first from the pool and the second nowhere, leave one behind |
| BlockPool.FeeRateOrder | src/amount.cpp:10-16 | exactly when a higher fee gives no lower rate: same sign, or size 0 or 1, or quotients that coincide; every negative fee ranks at least as high as every other |
| BlockPool.NegativeFeeRanksHigh | src/amount.cpp:10-16 | and strictly higher unless the two fees are nearly 2^64 / 1000 apart |
| BlockSelection.ConsideredEffect | src/miner.cpp:228-292 | a pass takes one candidate and puts it into the block exactly if it passes every test |
| BlockSelection.RunBestFirst | src/miner.cpp:56-80 | in every pass of a run the transaction taken is a best one of the queue in the order then in force |
| BlockRules.PassExactly | src/miner.cpp:238-281 | which tests a candidate has to pass, number by number, and when the order turns to fees |
| BlockRules.RankExactly | src/miner.cpp:154-216 | the rank of a transaction: the values spent in the chain times their depth, and the fee per thousand bytes, with the adjustments |
| BlockRules.FeeExactly | src/miner.cpp:269-269 | the fee is the sum of the spent outputs less the sum of the new ones |
| BlockRules.ConsideredAtAll | src/miner.cpp:148-199 | the transactions considered: final, no coinbase, every parent in the chain or the pool, each once |
| BlockSelection.EveryoneExplained | src/miner.cpp:228-316 | after every complete run: an eligible transaction still waits for a parent that is not in the block, or was taken in some pass and is in the block exactly if it passed every test there |
| BlockOutcome.NoneStaleDefined | src/miner.cpp:300-315 | if no parent that keeps a pointer to a removed entry is eligible, none gets into the block and the outcome is defined |
| BlockOutcome.FirstIsFront | src/miner.cpp:219-236 | the first candidate taken is one that no eligible transaction with all parents in the chain outranks |
| BlockOutcome.FrontsUndefined | src/miner.cpp:228-315 | if every such front-runner is a parent of that kind and passes the tests at the start, every complete run puts one into the block and follows the pointer |
| BlockOutcome.LoneStaleParent | src/miner.cpp:166-188 | so does a pool in which nothing is eligible but one such parent |
| BlockAssembler.Access | src/coins.cpp:125-132 | what a reader of the view is told |
| BlockAssembler.Have | src/miner.cpp:162-162 | whether the chain has the parent |
| BlockAssembler.HaveAll | src/miner.cpp:266-267 | whether all inputs are unspent |
| BlockAssembler.ValueOfInputs | src/miner.cpp:269-269 | the value of the inputs |
| BlockAssembler.FetchInputs | src/miner.cpp:271-280 | the coins the checks look at |
| BlockAssembler.Assembler.constructor | src/miner.cpp:219-226 | the state in which the loop starts |
| BlockAssembler.Assembler.TakeHighest | src/miner.cpp:230-236 | the candidate taken off the queue: by fee, none left has a higher fee rate, nor the same with a higher priority; otherwise the same with priority first |
| BlockAssembler.Assembler.ReleaseDependers | src/miner.cpp:300-315 | the loop over the dependers does what the specification does |
| BlockAssembler.Assembler.Include | src/miner.cpp:282-292 | the view moves to the connected set and the totals are updated |
| BlockAssembler.Assembler.Consider | src/miner.cpp:228-316 | one pass of the loop, with every test in the order of the source |
| BlockAssembler.Assembler.Assemble | src/miner.cpp:228-316 | the loop terminates and is a run of the specification, up to the moment it follows a pointer to a removed entry, if it does |
| BlockAssembler.Inspect | src/miner.cpp:155-198 | whether the transaction is dropped; if not, its missing parents, who waits for them, and the worth and age of its inputs; if so, the parents under which its removed entry stays noted |
| BlockAssembler.Collect | src/miner.cpp:148-217 | every eligible transaction is queued under its rank, or waits for exactly its missing parents, which know it; and exactly which parents keep a pointer to a removed entry |
| BlockAssembler.CreateNewBlock | src/miner.cpp:91-326 | the block is the outcome of a run of the selection from the ranked pool that takes a best transaction in every pass, by priority first unless no room is set aside for it: it replays from the tip with every input unspent at its position, stays below 4999000 bytes and 100000 signature operations with 1000 and 100 of them reserved, has fees that cancel, and every eligible transaction is in it, or waits for a parent that is not, or failed a test in the pass in which it was taken. Undefined exactly if it has a parent that keeps a pointer to a removed entry; the pool tells beforehand that it has none, if none is eligible, and that it has one, if all front-runners are such parents |
| Chain.BlockIndex.constructor | src/main.cpp:2758-2762 | a new entry is one above its predecessor and its skip pointer leads to the ancestor at the skip height |
| SkipList.StepsWithin | src/main.cpp:2717-2751 | from a height up to 2^k every ancestor is reached in at most `StepBound(k)` steps along the skip list |
| SkipList.BoundReached | src/main.cpp:2717-2751 | for every k from 4 on some walk takes exactly that many |
| SkipList.StepsSquare | src/main.cpp:2717-2751 | the bound is at most (k*k + 9k) / 4 + 1 |
| SkipList.BoundIsSquare | src/main.cpp:2717-2751 | and at least (k*k + 5k) / 4 - 1: the walk is quadratic in the number of bits of the height, not linear |
| SkipList.AtMost110 | src/main.cpp:2723-2725 | the figure found by simulation holds: at most 110 steps up to height 2^18 |
| Chain.BlockIndex.GetAncestor | src/main.cpp:2729-2751 | the skip list finds the ancestor at a height, or nothing, in exactly `Steps` steps and so within the bound for its height, 110 up to 2^18 |
| Chain.ActiveChain.ContainsIsAncestor | src/chain.h:379-382 | contained means the tip or one of its ancestors |
| Chain.ActiveChain.NextIsChild | src/chain.h:384-390 | the successor is the contained block whose predecessor is the given one |
| Chain.ActiveChain.AtIsAncestor | src/chain.h:366-371 | on the active branch a lookup by height gives the ancestors of a contained block |
| Chain.ActiveChain.SetTip | src/chain.cpp:13-23 | whatever the chain was before, it becomes exactly the path to the new tip: the early exit equals a full rebuild |
| Chain.ActiveChain.WriteBranch | src/chain.cpp:18-22 | the loop with the early exit |
| Chain.ActiveChain.FindFork | src/chain.cpp:53-59 | the highest common ancestor |
| Chain.ActiveChain.GetLocator | src/chain.cpp:25-51 | strictly descending ancestors from the start to the first block: eleven steps of one block and then steps that double, so that every ancestor has one at or below it no further away than it is itself from the eleventh below the start; at most 12 plus the logarithm of the height |
| Chain.SpacedNear | src/chain.cpp:25-51 | with these steps, some block listed is at or below any height, within the height's own distance from the start less eleven |
| Chain.ActiveChain.HeightIsTips | src/chain.h:392-395 | the height is that of the tip, -1 without one, and entry `i` has height `i` |
| Base58.EncodeBufferSuffices | src/base58.cpp:75-76 | the 138/100 buffer suffices for every length |
| Base58.DecodeBufferSuffices | src/base58.cpp:32-33 | the 733/1000 buffer suffices for every length |
| Base58.MulAdd | src/base58.cpp:40-46 | one turn of the carry loop in place: the buffer becomes buffer * mul + add, what does not fit is the carry |
| Base58.DecodedExactly | src/base58.cpp:21-100 | a string decodes to given bytes exactly when it is their encoding with white space around it |
| Base58.DecodedEncoded | src/base58.cpp:21-100 | every byte string is recovered from its encoding |
| Base58Vectors.OneByte | src/test/data/base58_encode_decode.json:3 | a listed pair |
| Base58Vectors.ThreeBytes | src/test/data/base58_encode_decode.json:4 | a listed pair |
| Base58Vectors.FiveBytes | src/test/data/base58_encode_decode.json:8 | a listed pair |
| Base58Vectors.ZeroBytes | src/test/data/base58_encode_decode.json:13 | zero bytes are written as ones, however many |
| Base58.DecodedBytes | src/base58.cpp:21-65 | whatever is decoded is a byte string |
| Base58.FillBase58 | src/base58.cpp:75-88 | the loop over the bytes; its assertion on the carry holds |
| Base58.EncodeBase58 | src/base58.cpp:67-100 | returns the specified encoding |
| Base58.PushLetter | src/base58.cpp:35-47 | one turn of the loop over the characters; the assertion on the carry holds |
| Base58.FillBase256 | src/base58.cpp:32-49 | the loop over the characters: whether the word has letters only, and if so its value |
| Base58.DecodeTrimmed | src/base58.cpp:25-64 | everything after the leading white space |
| Base58.DecodeBase58 | src/base58.cpp:21-65 | accepts and returns what the specification does |
| Base58.DecodeBase58String | src/base58.cpp:107-110 | a string is read up to its first NUL |
| Base58.EncodeBase58Check | src/base58.cpp:112-119 | encodes the bytes followed by their checksum |
| Base58.DecodeBase58Check | src/base58.cpp:121-136 | accepts and returns what the specification does |
| Base58.DecodedCheckExactly | src/base58.cpp:112-136 | a string passes for given bytes exactly when it is their checked encoding in white space |
| Positional.ConvertBack | src/base58.cpp:21-100 | rewriting a numeral in another base and back is the identity, leading zeroes and all |

## Left out

- `GetBestBlock` and the propagation of `hashBlock` in flushes: a cache that never set it writes 0 to its parent.
- Cache use that is not nested: writing to a parent while a child cache is alive is outside the model.
- `Select_` and `GetChance`: a loop of random probes with floating point, which ends only with probability one.
- Widths of integers where wrap-around plays no role: sums of amounts, times, counters and ids are mathematical integers, except in `VarInt`, `CoinsCodec`, `Amount`, `TxOutCodec`, `FeeRate` and the 32-bit time of `Connected_`. Where a signed number overflows while it is read, it wraps around.
- Service flags of addresses are the set of one-bits of the word; merging them is set union.
- Iteration over the map of address entries is written as a scan over ids, which visits the keys in the same order.
- AddrManStream.Emit: a key, an integer and an entry are one token each, not their bytes; the layout of an entry's own fields is another file's business.
- AddrManStream.Parse: the stream has one token for each byte, key, integer and entry; their bytes are not modelled. A negative count of entries, which the source takes over as its counter, is an outcome of its own.
- AddrManFile.Unserialize: a file is read only into a manager just constructed, which is the only use (src/net.cpp:1656-1658); `Clear` does not empty the two maps, so a manager in use would keep parts of its old entries.
- CheckQueue: threads are interleaved at the granularity of critical sections and single checks; spurious wake-ups happen, shutting down is a flag of the initial state.
- `n & (n - 1)` in the skip heights is written arithmetically.
- BlockAssembler.Assembler.TakeHighest: the binary heap is a sequence from which a highest element is taken; which of several equal ones is not determined.
- Priorities are real numbers.
- The coinbase transaction, the block header and `TestBlockValidity` at the end of `CreateNewBlock`.
- The rest of `ConnectBlock` (script checks, limits, subsidy) and of `DisconnectBlock` (reading undo data from disk).
- Networking, wallet, RPC, storage, key handling, mining loop and the hash functions themselves.

# Verified models of the node's algorithmic cores

These files model, in Dafny, the parts of the node whose correctness rests on an argument rather than on
plumbing, and prove what callers rely on. Code that computes by expressions is modelled by functions; code
that works by loops and updates is modelled by methods and classes with the same loops and fields, each proved
equal to a function, about which the lemmas then speak. Hash functions, random numbers and clocks are
parameters, so every statement holds for all of them.

| files | what they are about |
|---|---|
| `DivisorChain`, `Denominations`, `CoinSelection`, `MintSelection` | zerocoin coin selection: greedy payment decides the bounded subset-sum problem and is optimal, because each denomination is a multiple of the one before |
| `Coins`, `CoinsStack`, `CoinsRuns`, `CoinsViews` | unspent outputs, and caches of them layered on the coin database: every run of a stack reads and writes as one plain map per level |
| `CoinsSerialization`, `VarInts`, `Amounts`, `Compressor` | the compact on-disk form of unspent outputs, down to single bytes |
| `AddrManState`, `AddrManInvariant`, `AddrManSteps`, `AddrManRuns`, `AddrMan` | the address manager: five redundant indexes that stay consistent under every operation |
| `AddrManSerialization`, `AddrManStream` | saving the address manager and loading it again |
| `CheckQueue`, `CheckQueueRuns` | the parallel check queue under every interleaving of its threads |
| `Base58` | Base58 and Base58Check text |
| `Chain` | block index, skip pointers, the active chain, forks and locators |
| `Kernel` | stake modifiers |
| `Budget`, `BudgetPayments` | budget assembly, automatic votes; payments checked against a history that all finalized budgets share |
| `LockedPages` | counting locks on memory pages |
| `Radix`, `Bits`, `Sorting`, `Collections`, `Streams`, `Bytes`, `Wrappers` | what several of these share |

Check everything with `dafny verify dfyconfig.toml`.

## How the program is represented

- Coin selection takes the list of denomination amounts as a parameter `d`, any divisor chain;
  `Denominations.AmountsAreChain` shows that the program's list is one. A map from denominations to counts is
  a sequence of counts in the order of that list. `Worth(n, coin)` is the value of `n` equal coins, and a
  whole-coin target is `Worth(n, d[0])`.
- A stack of coin caches is a sequence of layers over a database. A cache changes its parent only by `Flush`,
  as the program's `CCoinsViewCache` does.
- `AddrManState.State` holds the fields of `CAddrMan`. An assertion of the program is a precondition of the
  function at that place, so that a function which is defined on every run shows that no assertion fails.
- In `CheckQueueRuns` a thread is the place it has come to in `Loop`; a step is one critical section, one check
  of a batch, or one wake-up. Thread 0 is the master. Any number of threads, any batch size, spurious wake-ups
  and any choice by `notify_one` are covered.
- A class keeps the name and fields of the program's class where it has them; `Value()` and `Fields()` give
  the abstract state that its methods' contracts speak about.
- `std::sort` promises some sorted arrangement. Where the order of equal elements matters, the lemmas hold for
  every arrangement.

## Where the code differs from what one might expect

The model follows the code.

- Undoing a spend does not restore the coinstake mark, and reports an error for an output of height zero:
  `Coins.RestoreUndoesSpend` says exactly when undoing succeeds, `Coins.CoinstakeMarkLost` shows a mark lost.
- In 64 bits an amount that does not end in zero and is above about (2^64-1)/9 never survives compression, and
  every other amount does: `Amounts.AmountFits`. `Amounts.FirstLost` is the first that is lost; the monetary
  limit of the main network is above it.
- Serializing coins whose version or height is negative, or with such an amount, does not give them back, and
  all others come back: `CoinsSerialization.CoinsRoundTrip` is an equivalence, and
  `CoinsSerialization.NegativeVersionLost` a version that changes from -1 to 127.
- `Flush` hands the parent the child's best block even when the child never asked for one:
  `CoinsRuns.FlushPassesBestBlock` says exactly when the parent then reports what the child did, and
  `CoinsRuns.BestBlockForgotten` shows a parent that loses its own.
- All finalized budgets share one history of payments, and each forgets from it what lies outside its own
  cycle. So after a valid payment of a proposal the next transaction that pays it once, even for the same block,
  is valid again if and only if a budget whose cycle excludes the first one's height has met a matching output
  since; otherwise it is a double payment: `BudgetPayments.AgainIfForgotten` and `BudgetPayments.NextIsValid`.
  `BudgetPayments.PaidTwice` is a run in which that happens.
- Locking a range that ends on the last page of the address space never returns, and any other returns:
  `LockedPages.RangeEnds`, with a single byte on that page in `LockedPages.LastPageNeverEnds`.
- `getSpends` goes over the list again for what a pass left open. It ends if and only if every denomination
  asked for has a usable mint (`MintSelection.SpendsEnd`), and names no mint twice if and only if no more are
  asked for than the list has (`MintSelection.SpendsAreDistinct`); `MintSelection.PickedTwice` is a list of one
  mint that is picked twice.

## Model

| member | source | states |
|---|---|---|
| Denominations.AmountsAreChain | src/libzerocoin/Denominations.h:27 | the amounts of the denomination list are multiples of a coin, each a multiple of the one before |
| DivisorChain.Exchange | src/denomination_functions.cpp:40-62 | any exact selection can be rearranged, with no more coins, to hold the greedy number of the largest coin |
| DivisorChain.GreedyComplete | src/denomination_functions.cpp:40-62 | if any selection within the stock is worth the target, the greedy one is, and with no more coins |
| DivisorChain.SpendDecidesPayable | src/denomination_functions.cpp:40-62 | the greedy selection is within the stock, never exceeds the target, and reaches it if and only if some held selection does |
| DivisorChain.SpendIsOptimal | src/denomination_functions.cpp:93-117 | an exact greedy payment uses the fewest coins of all held selections of that value |
| DivisorChain.SpendIsMost | src/denomination_functions.cpp:40-62 | the greedy selection is the most valuable of all held selections that do not exceed the target |
| DivisorChain.GreedyLeavesLess | src/denomination_functions.cpp:40-62 | a coin that the greedy loop passed over is worth more than what it left unpaid |
| DivisorChain.ChangeIsOptimal | src/denomination_functions.cpp:67-87 | greedy change uses the fewest coins of all selections of that value |
| DivisorChain.ChangeIsExact | src/denomination_functions.cpp:67-87 | every multiple of a coin is changed completely |
| DivisorChain.ExcessYieldsChange | src/denomination_functions.cpp:290-292 | overpaying a whole-coin target always yields at least one coin of change |
| MintSelection.GetSpendCoins | src/denomination_functions.cpp:40-62 | the loop makes the greedy selection |
| MintSelection.GetChange | src/denomination_functions.cpp:67-87 | the loop makes the unlimited greedy selection |
| MintSelection.GetIdealSpends | src/denomination_functions.cpp:93-117 | returns true if and only if some selection of the unused mints is worth exactly the target, and then makes one |
| MintSelection.GetNumberOfCoinsUsed | src/denomination_functions.cpp:12-20 | the number of coins of a selection |
| MintSelection.GetNextLowerDenomHeld | src/denomination_functions.cpp:200-211 | the largest held denomination below another, or none |
| CoinSelection.LargestHeldBelow | src/denomination_functions.cpp:25-36 | the position found is held, and no larger one below the bound is |
| CoinSelection.TopUpCoin | src/denomination_functions.cpp:251-260 | the coin added is the smallest still held and more than what remains; if none is found there is none |
| CoinSelection.BelowTargetStaysBelow | src/denomination_functions.cpp:234-246 | the first stage stays within the held counts and strictly below the target |
| CoinSelection.BelowTargetIsMost | src/denomination_functions.cpp:234-246 | the first stage is the most valuable held selection below the target of coins up to the limit |
| CoinSelection.TopUpSucceeds | src/denomination_functions.cpp:251-260 | for a target that cannot be paid exactly the second stage takes the selection over it |
| CoinSelection.OverlapLeavesTarget | src/denomination_functions.cpp:273-283 | removing coins that would come back as change never takes the selection back below the target |
| CoinSelection.AlternativeMeetsAmount | src/denomination_functions.cpp:286-287 | re-meeting the amount found always succeeds, with held coins worth exactly that amount |
| CoinSelection.MinimizedIsSound | src/denomination_functions.cpp:294-301 | minimizeChange returns what it was given, or a held selection with less change, few enough coins, and the true number of change coins |
| CoinSelection.AlternativeYieldsChange | src/denomination_functions.cpp:285-292 | for a whole-coin target that cannot be paid exactly the alternative exceeds it and yields change |
| MintSelection.FindAlternative | src/denomination_functions.cpp:223-287 | the stages of minimizeChange, with the running amount equal to the value of the selection |
| MintSelection.MinimizeChange | src/denomination_functions.cpp:213-302 | the method makes the choice that MinimizedIsSound is about |
| CoinSelection.SingleCoinOver | src/denomination_functions.cpp:323-328 | the smallest held denomination over the target, if there is one |
| CoinSelection.CoverCovers | src/denomination_functions.cpp:363-374 | the last resort is held, and covers the target if the whole stock does |
| CoinSelection.CoverIsShortest | src/denomination_functions.cpp:363-374 | no held selection that covers the target has fewer coins than the last resort |
| CoinSelection.CalculatedChooses | src/denomination_functions.cpp:330-398 | if a held coin exceeds the target, the smallest such coin alone, unless less change is asked for and the alternative gives it with few enough coins; otherwise the fewest coins that cover the target, unless the alternative gives less change and either that is asked for or it has as few coins |
| CoinSelection.CalculatedIsSound | src/denomination_functions.cpp:310-399 | whenever calculateChange returns a positive number, the chosen coins are held, exceed the target, and that number is how many coins getChange gives for the excess |
| CoinSelection.CalculatedSucceeds | src/denomination_functions.cpp:305-309 | a whole-coin target that the stock covers but cannot pay exactly always gets change |
| MintSelection.CalculateChange | src/denomination_functions.cpp:310-399 | the method makes the choices of CalculatedChooses, stated of its result, and a positive number of change coins is true |
| MintSelection.SpendsAreDistinct | src/denomination_functions.cpp:122-142 | the mints picked are distinct unused entries of the list if and only if no denomination is asked for more often than the list has it |
| MintSelection.GetSpends | src/denomination_functions.cpp:122-142 | wherever its loops end: the reported value is true, as many mints as asked for come back, unused and from the list, and none twice if and only if the list has that many |
| MintSelection.SpendsEnd | src/denomination_functions.cpp:129-139 | the loops end for all denominations if and only if each that is asked for has a usable mint |
| MintSelection.PickAll | src/denomination_functions.cpp:128-139 | the passes over the list for one denomination pick as many mints as asked for, beginning again at the front when the list is through |
| MintSelection.PickedTwice | src/denomination_functions.cpp:129-139 | a list of one usable mint, asked for two, gives that mint twice |
| MintSelection.SelectMintsFromList | src/denomination_functions.cpp:405-437 | wherever it ends, the method returns the selection that the lemmas below are about |
| MintSelection.SelectionEnds | src/denomination_functions.cpp:405-437 | it ends if every denomination counted as held has a usable mint |
| MintSelection.SelectionIsSound | src/denomination_functions.cpp:405-437 | whatever comes back are unused mints of the list with a true sum: exactly the target without change, or more with the reported number of change coins; none comes twice if and only if the list has as many as were counted, which it does if it has the held counts |
| MintSelection.SelectionSucceeds | src/denomination_functions.cpp:426-436 | if the unused mints are worth a whole-coin target that they cannot pay exactly, the selection is not empty and exceeds it |
| MintSelection.SelectionIsIdeal | src/denomination_functions.cpp:412-421 | a target that can be paid exactly within the limit, which is none if negative, is, with the fewest coins |
| MintSelection.SelectionFallsBack | src/denomination_functions.cpp:420-437 | any other target gets what calculateChange finds, or nothing; the number of spends reported as needed is the fewest that pay exactly, zero if none do |
| Coins.Cleanup | src/coins.h:120-126 | removes the null outputs at the end and no others |
| Coins.CleanedIsClean | src/coins.h:277-285 | cleaning up is idempotent and never changes whether coins are pruned; clean coins are pruned just if they have no outputs |
| Coins.Spend | src/coins.cpp:36-52 | fails without effect on an absent or spent output, otherwise removes it and makes its undo data |
| Coins.UndoIs | src/coins.cpp:36-52 | the undo data hold the output, and the metadata if and only if no other output was left |
| Coins.SpentTakesOne | src/coins.cpp:36-52 | spending makes exactly that output unavailable, keeps all others, and leaves no null outputs at the end |
| Coins.RestoreUndoesSpend | src/main.cpp:2526-2547 | putting the output back as on a disconnected block restores the coins without complaint if and only if outputs were left, or the height is not zero and it is no coinstake |
| Coins.RestoredIs | src/main.cpp:2526-2547 | exactly when restoring an output finds something wrong, and what it leaves |
| Coins.CoinstakeMarkLost | src/main.cpp:2526-2547 | the last output of a coinstake is restored without the mark |
| CoinsStack.FetchReads | src/coins.cpp:86-102 | fetching finds what the stack stands for, changes no view at any level, loses no entry and keeps the flag invariant |
| CoinsStack.FetchAdds | src/coins.cpp:86-102 | fetching adds entries only for that transaction where it was missing, not dirty, and fresh if and only if empty |
| CoinsStack.WriteWrites | src/coins.cpp:114-131 | a modifier, whatever it leaves, changes the one map the stack stands for at that transaction only, and keeps the flag invariant |
| CoinsStack.MergeOneReads | src/coins.cpp:168-197 | for each entry the assertion holds, the parent then reads as the child did, and its flags are right |
| CoinsStack.FlushToCache | src/coins.cpp:165-200 | flushing into a cache keeps the invariant and makes the parent read as the child did |
| CoinsStack.FlushToDatabase | src/txdb.cpp:67-93 | flushing into the database makes it read as the cache did, with nothing pruned stored |
| CoinsStack.FlushFlushes | src/coins.cpp:202-207 | the assertion of BatchWrite holds for every entry; parent and child read as the child did, lower layers as before |
| CoinsRuns.StepAgrees | src/coins.cpp:104-151 | every operation answers as on plain maps, and leaves every level of the stack reading as its map |
| CoinsRuns.RunAgrees | src/coins.cpp:86-207 | every run answers as the same run on plain maps |
| CoinsRuns.RunsFromDatabase | src/coins.cpp:165-207 | from any database of clean coins, every run answers as plain maps do and no flush on the way trips the assertion |
| CoinsRuns.FlushPassesBestBlock | src/coins.cpp:153-158 | the parent reports the best block the child reported if and only if the child had it set, or the parent is the database, or loses nothing by forgetting its own |
| CoinsRuns.BestBlockForgotten | src/coins.cpp:153-207 | a child that was never asked takes the best block of its parent away |
| CoinsViews.CoinsViewDB.GetCoins | src/txdb.cpp:48-51 | reads a record if there is one |
| CoinsViews.CoinsViewDB.BatchWrite | src/txdb.cpp:67-93 | the loop stores dirty entries, erases pruned ones, leaves all others, and does not write a null hash |
| CoinsViews.CoinsViewCache.constructor | src/coins.cpp:79 | an empty layer on top of the chain of its base |
| CoinsViews.CoinsViewCache.FetchCoins | src/coins.cpp:86-102 | the whole chain of caches changes as one fetch of the stack |
| CoinsViews.CoinsViewCache.GetCoins | src/coins.cpp:104-112 | returns the coins that the stack holds |
| CoinsViews.CoinsViewCache.HaveCoins | src/coins.cpp:143-151 | says whether the stack holds outputs of the transaction |
| CoinsViews.CoinsViewCache.ModifyCoins | src/coins.cpp:114-131 | hands out a modifier of a dirty entry that reads as before |
| CoinsViews.CoinsModifier.Destroy | src/coins.cpp:273-281 | cleans the coins up and drops an entry that is fresh and pruned |
| CoinsViews.CoinsViewCache.Put | src/coins.h:396-408 | making, using and destroying a modifier is one write to the stack |
| CoinsViews.CoinsViewCache.BatchWrite | src/coins.cpp:165-200 | the loop merges every entry of the child as MergeOneReads describes |
| CoinsViews.CoinsViewCache.FlushDown | src/coins.cpp:202-207 | on a stack in order flushing trips no assertion, keeps it in order, and changes no view of this cache |
| CoinsViews.CoinsViewCache.GetBestBlock | src/coins.cpp:153-158 | remembers and returns the best block of the stack without changing it |
| CoinsSerialization.CalcMaskSize | src/coins.cpp:17-34 | the number of mask bytes up to the last used one, and how many of them are not zero |
| CoinsSerialization.MaskCovers | src/coins.cpp:17-34 | no available output lies beyond the mask |
| CoinsSerialization.MaskCodeCounts | src/coins.cpp:12-16 | the second count counts the bytes of the mask that are not zero, and is zero just if the first two outputs say it all |
| CoinsSerialization.ReadMaskWritten | src/coins.h:243-253 | counting down the bytes that are not zero, the reader stops exactly at the end of the mask and recovers every bit |
| CoinsSerialization.CodeNotNegative | src/coins.h:206-207 | the assertion of the writer holds for all coins that are not pruned, and the header code is not negative |
| CoinsSerialization.CodeParts | src/coins.h:237-242 | the reader takes both marks, the first two outputs and the mask code from the header code |
| CoinsSerialization.CoinsReadBack | src/coins.h:229-263 | what was written is read back up to null outputs at the end, consuming exactly its bytes; a negative int comes back as its last seven bits, an amount as its compact form gives it |
| CoinsSerialization.ReadIntIs | src/coins.h:230-263 | an int is read as what is congruent to the number read within 32 bits |
| CoinsSerialization.CoinsRoundTrip | src/coins.h:199-263 | the round trip gives the same coins, up to null outputs at the end, if and only if neither the version nor the height is negative and every amount fits its compact form |
| CoinsSerialization.NegativeVersionLost | src/coins.h:199-263 | coins of version -1 are read back with version 127 |
| CoinsSerialization.Serialize | src/coins.h:200-227 | the loops write these bytes |
| CoinsSerialization.Unserialize | src/coins.h:230-263 | the loops read them, from any stream, failing only where it ends |
| VarInts.ParseVarInt | src/serialize.h:424-437 | reading a variable-length integer gives back the number and the rest of the stream |
| VarInts.ParsedVarInt | src/serialize.h:379-384 | every integer has exactly one encoding: what is read as a number is what would be written for it |
| VarInts.WriteVarInt | src/serialize.h:407-422 | for a type of any width the temporary array is large enough, and these bytes are written |
| VarInts.ReadVarInt | src/serialize.h:424-437 | reads the number modulo the width of its type |
| Amounts.DecompressCompress | src/compressor.cpp:131-183 | decompressing gives a compressed amount back |
| Amounts.CompressDecompress | src/compressor.cpp:131-183 | compressing gives a decompressed amount back, so the two are inverse bijections |
| Amounts.CompressedSize | src/compressor.cpp:140-157 | compression makes an amount at most nine times as large |
| Amounts.CompressedFits | src/compressor.cpp:140-157 | the compressed form of a 64-bit amount has 64 bits if and only if the amount ends in zero or is at most about (2^64-1)/9 |
| Amounts.WrappedIsLost | src/compressor.cpp:140-183 | an amount whose compressed form wraps never comes back, not even by chance |
| Amounts.AmountFits | src/compressor.cpp:140-183 | in 64 bits the round trip is exact if and only if the compressed form does not wrap |
| Amounts.FirstLost | src/compressor.cpp:140-183 | 2049638230412172403 comes back as another amount, and all smaller amounts come back |
| Amounts.CompressAmount | src/compressor.cpp:140-157 | the 64-bit loop computes the compressed amount modulo 2^64 |
| Amounts.DecompressAmount | src/compressor.cpp:159-183 | the 64-bit loop computes the decompressed amount modulo 2^64 |
| Compressor.DecompressCompressScript | src/compressor.cpp:46-129 | decompressing gives a special script back |
| Compressor.CompressDecompressScript | src/compressor.cpp:46-129 | compressing what decompressed gives the same bytes: no special script has two compact forms |
| Compressor.ScriptRoundTrip | src/compressor.h:71-97 | any script is read back as it was written, and nothing more is consumed |
| Compressor.TxOutReadBack | src/compressor.h:115-127 | any output is read back with its script and the amount that its compact form gives, and nothing more is consumed |
| Compressor.TxOutRoundTrip | src/compressor.h:115-127 | an output is read back as it was written if and only if its amount is one that fits |
| Compressor.SignedIs | src/compressor.h:117-127 | the conversions keep a number modulo 2^64, and undo each other exactly for 64-bit amounts |
| Compressor.WriteTxOut | src/compressor.h:117-119 | writes the bytes of an output |
| Compressor.ReadTxOutInto | src/compressor.h:120-127 | reads them from any stream, failing only where it ends |
| AddrManInvariant.EmptyIsConsistent | src/addrman.cpp:383-457 | the empty manager passes the consistency check if and only if its key is not null |
| AddrManInvariant.CreateOk | src/addrman.cpp:91-101 | an entry for an unknown address keeps all indexes, and lacks only a reference |
| AddrManInvariant.SwapOk | src/addrman.cpp:103-121 | swapping two places trips no assertion and changes nothing but the order |
| AddrManInvariant.DeleteOk | src/addrman.cpp:123-135 | deleting an entry without references trips no assertion and removes only it from every index |
| AddrManInvariant.ClearNewOk | src/addrman.cpp:137-150 | clearing a slot trips no assertion; what was there has one reference less, or is gone if that was its only one |
| AddrManInvariant.WithdrawOk | src/addrman.cpp:154-164 | after the loop over all buckets an entry has no references |
| AddrManInvariant.UntryOk | src/addrman.cpp:177-180 | taking an entry out of the tried table keeps all other indexes |
| AddrManInvariant.GoHomeOk | src/addrman.cpp:182-191 | an evicted entry gets one reference at its home slot, at the cost of at most one entry, which had only that reference |
| AddrManInvariant.AdmitOk | src/addrman.cpp:193-197 | an entry that has succeeded enters its empty tried slot |
| AddrManSteps.MakeTriedMoves | src/addrman.cpp:152-198 | the entry ends up tried; of the other tried entries only one from the same slot is tried no more; at most one entry is lost, which was not tried and had one reference; histories stay |
| AddrManSteps.MakeTriedOk | src/addrman.cpp:152-198 | the move keeps everything consistent and trips no assertion |
| AddrManSteps.SearchSucceeds | src/addrman.cpp:226-241 | a bucket that holds the entry is always found: the "something bad happened" exit is not taken |
| AddrManSteps.GoodOk | src/addrman.cpp:200-247 | everything stays consistent; an address known with that very port is tried afterwards, with that time as its last success and last try and without failures; any other changes nothing |
| AddrManSteps.AttemptOk | src/addrman.cpp:317-334 | everything stays consistent; an address known with that very port has one more failure, that time as its last try, and is not terrible within a minute; nothing else changes |
| AddrManSteps.ConnectedOk | src/addrman.cpp:481-499 | everything stays consistent; the time of an address known with that very port is at most twenty minutes older than the connection, never older than before, and moved only if it was older; nothing else changes |
| AddrManSteps.RefreshedNewer | src/addrman.cpp:259-263 | hearing of an address again leaves its time at most the update interval and the penalty behind the time heard, never makes it older, and moves it only if it was farther behind, then to the time heard less the penalty |
| AddrManSteps.RefreshedServices | src/addrman.cpp:265-266 | no services are lost |
| AddrManSteps.ServicesJoined | src/addrman.cpp:265-266 | services heard of are added and no others |
| AddrManSteps.AddOk | src/addrman.cpp:249-315 | everything stays consistent; true is returned exactly for routable unknown addresses; nothing tried is lost |
| AddrManSteps.AddStores | src/addrman.cpp:286-313 | an unknown address is stored if and only if its slot is free or can be overwritten, with one reference, the penalty on its time and no history |
| AddrManSteps.InsertOk | src/addrman.cpp:293-313 | inserting makes every entry referenced; at most one entry is lost, and none that was tried |
| AddrManSteps.InsertAgainGives | src/addrman.cpp:293-307 | a known entry gets exactly one reference more, in the slot its source selects, if it was not there and the slot can be used; otherwise nothing changes |
| AddrManSteps.AddKnown | src/addrman.cpp:256-307 | a known address gets another reference if and only if the time heard is later than its own then, it is not tried, in less than eight buckets, the chance of one in two to the number of these falls so, and its slot is free for it; its history stays |
| AddrManRuns.Limit | src/addrman.cpp:462-464 | the largest number that is at most 2500 and at most 23 percent of the entries |
| AddrManRuns.GetAddrOk | src/addrman.cpp:460-479 | whatever the random numbers, and with the clock read anew for each entry: only the random order changes; the addresses given are of entries that were decent when looked at, no host twice, and as many as there are up to the limit |
| AddrManRuns.TerribleOrDecent | src/addrman.cpp:36-54 | an entry is not terrible if and only if it was tried within the minute, or it was seen within thirty days and not more than ten minutes ahead, has a success or fewer than three attempts, and a success within the week or fewer than ten failures |
| AddrManRuns.SteadyClock | src/addrman.cpp:460-479 | while the clock stands still the entries that are not terrible are the same in any order |
| AddrManRuns.StepOk | src/addrman.cpp:200-334 | every public operation keeps everything consistent; what was tried stays known under its address |
| AddrManRuns.Run | src/addrman.cpp:383-457 | after every sequence of public operations on an empty manager everything is consistent, and the check passes if and only if the key is not null; that it is defined means that no assertion fails |
| AddrManRuns.CountersCount | src/addrman.cpp:417-420 | the counters count new and tried entries, and an entry has as many references as buckets it is in: one to eight if new, none if tried |
| AddrMan.CAddrMan.constructor | src/addrman.h:455-458 | an empty, consistent manager |
| AddrMan.CAddrMan.Lookup | src/addrman.cpp:78-89 | finds the entry of an address |
| AddrMan.CAddrMan.NewEntry | src/addrman.cpp:91-101 | makes the entry that CreateOk is about |
| AddrMan.CAddrMan.Swap | src/addrman.cpp:103-121 | the swap that SwapOk is about |
| AddrMan.CAddrMan.Remove | src/addrman.cpp:123-135 | the deletion that DeleteOk is about |
| AddrMan.CAddrMan.Clear | src/addrman.cpp:137-150 | the clearing that ClearNewOk is about |
| AddrMan.CAddrMan.Unlist | src/addrman.cpp:154-162 | the loop takes the entry out of every bucket |
| AddrMan.CAddrMan.MoveToTried | src/addrman.cpp:152-198 | the move that MakeTriedMoves is about, done in place |
| AddrMan.RotationReaches | src/addrman.cpp:229-236 | the search from a random bucket comes to every bucket |
| AddrMan.CAddrMan.FindBucket | src/addrman.cpp:226-236 | the search finds a bucket that holds the entry |
| AddrMan.CAddrMan.MarkGood | src/addrman.cpp:200-247 | makes the changes that GoodOk is about, and stays consistent |
| AddrMan.CAddrMan.MarkAttempt | src/addrman.cpp:317-334 | makes the changes that AttemptOk is about, and stays consistent |
| AddrMan.CAddrMan.MarkConnected | src/addrman.cpp:481-499 | makes the changes that ConnectedOk is about, and stays consistent |
| AddrMan.CAddrMan.Place | src/addrman.cpp:293-313 | the insertion that InsertOk is about |
| AddrMan.CAddrMan.AddAddress | src/addrman.cpp:249-315 | makes the changes that AddOk and AddStores are about, and stays consistent |
| AddrMan.CAddrMan.Addresses | src/addrman.cpp:460-479 | gives the addresses that GetAddrOk is about, reading the clock for each entry, and stays consistent |
| AddrManSerialization.NumberedOk | src/addrman.h:296-315 | the numbers that entries are written under are one-to-one, new entries first, as many as the counters say |
| AddrManSerialization.ReadNewsOk | src/addrman.h:353-371 | reading the new entries gives each its number, address and place |
| AddrManSerialization.ReadTriedOk | src/addrman.h:373-392 | every tried entry finds its slot free: none is lost |
| AddrManSerialization.ReadTriedCounts | src/addrman.h:373-392 | from any stream, the counter of tried entries ends up as the number of those that found their slot free |
| AddrManSerialization.ReadItemsOk | src/addrman.h:398-409 | reading the items of a bucket fills exactly its slots, with room for every reference |
| AddrManSerialization.ReadBucketsOk | src/addrman.h:394-410 | reading all buckets restores the new table and all reference counts |
| AddrManSerialization.NothingPruned | src/addrman.h:412-422 | a manager in which every entry is tried or referenced loses nothing |
| AddrManSerialization.RoundTrip | src/addrman.h:282-428 | loading what was saved consumes exactly that and gives the same manager up to an injective renaming of ids, forgetting only the last try and the random order |
| AddrManSerialization.ReadNewsAtHome | src/addrman.h:353-371 | with another version or number of buckets every new entry is given the slot of its own source, if it is the first that belongs there, and no other |
| AddrManSerialization.FlipIs | src/addrman.h:294 | flipping sets bit 30 of the number of buckets and clears it again |
| AddrManSerialization.LoadedConsistent | src/addrman.h:427 | what was loaded passes the consistency check |
| AddrManStream.WriteNews | src/addrman.h:296-306 | the loop numbers and writes the new entries; its assertion holds |
| AddrManStream.WriteTried | src/addrman.h:307-315 | the loop writes the tried entries; its assertion holds |
| AddrManStream.WriteBuckets | src/addrman.h:316-329 | the loops write the sizes of all buckets and the numbers in them |
| AddrManStream.Serialize | src/addrman.h:283-330 | writes the stream that RoundTrip is about |
| AddrManStream.PruneAll | src/addrman.h:412-422 | the loop deletes entries without a slot |
| AddrManStream.Unserialize | src/addrman.h:333-428 | reads any stream as the function that RoundTrip is about says |
| CheckQueue.BatchSize | src/checkqueue.h:104-109 | a thread never takes more checks than there are, never none, and never more than the batch size unless that is zero |
| CheckQueue.BatchIsFair | src/checkqueue.h:104-109 | a thread takes one check, or the most that is within the batch size and leaves as many for every thread and one more |
| CheckQueue.SettleConserves | src/checkqueue.h:110-118 | taking a batch neither loses nor duplicates a check |
| CheckQueue.CCheckQueue.constructor | src/checkqueue.h:130 | an idle queue |
| CheckQueue.CCheckQueue.Enter | src/checkqueue.h:76-118 | the critical section of Loop: reports the last batch, then returns, sleeps or takes a batch; the master is notified after the last check of all |
| CheckQueue.CCheckQueue.Resume | src/checkqueue.h:101-118 | the rest of the critical section after a wake-up |
| CheckQueue.CCheckQueue.TakeBack | src/checkqueue.h:110-116 | the loop takes the youngest checks off the queue |
| CheckQueue.CCheckQueue.Add | src/checkqueue.h:145-152 | the checks are queued and counted |
| CheckQueue.CCheckQueue.IsIdle | src/checkqueue.h:163-167 | true exactly if no thread holds a batch by the counters, nothing is to do and no failure is remembered |
| CheckQueueRuns.StepOk | src/checkqueue.h:68-126 | every possible step of any thread trips nothing (no underflow of nTodo, a positive divisor, an idle queue for a new control) and keeps the invariant |
| CheckQueueRuns.SettleOk | src/checkqueue.h:89-119 | the inner loop leads back to the invariant, whichever way it ends |
| CheckQueueRuns.ReturnKeeps | src/checkqueue.h:91-98 | when the master returns nobody has a check left, the answer is right, and no failure is left for the next round |
| CheckQueueRuns.Run | src/checkqueue.h:68-157 | every run of possible steps, of any number of threads, is safe and keeps the invariant |
| CheckQueueRuns.OneRound | src/checkqueue.h:145-189 | there is such a run in which a control is made, a check added, and Wait returns what the check did |
| CheckQueueRuns.AlwaysCounts | src/checkqueue.h:54-59 | in every run nTodo counts queued checks and unreported batches, nTotal less nIdle counts the threads with a batch, and every Wait said true if and only if every check added in its round was run and returned true |
| CheckQueueRuns.ControlIsIdle | src/checkqueue.h:182-189 | with controls used one at a time the assertion of the constructor holds |
| CheckQueueRuns.NotStuck | src/checkqueue.h:90-103 | while the master is in Wait some thread can take a step; if it sleeps without a notification, a worker holds an unreported batch |
| CheckQueueRuns.AddWakes | src/checkqueue.h:145-152 | adding one check wakes one sleeping worker if there is one, adding more wakes all |
| CheckQueueRuns.StepWorks | src/checkqueue.h:120-125 | every step that threads take of themselves leaves less to do |
| CheckQueueRuns.WaitEnds | src/checkqueue.h:138-142 | left to themselves the threads come to rest, and then the master has returned from Wait |
| Base58.SymbolsAreAlphabet | src/base58.cpp:21-22 | the symbols of the digits are the characters of the alphabet |
| Base58.EncodeFits | src/base58.cpp:93-94 | the buffer of the encoder holds every number of n bytes |
| Base58.DecodeFits | src/base58.cpp:35-36 | the buffer of the decoder holds every number of n digits |
| Base58.Absorb | src/base58.cpp:97-105 | one round of either conversion multiplies and adds in place; no carry is left, so the assertion holds |
| Base58.EncodeBase58 | src/base58.cpp:85-118 | the loops give a one for each leading zero byte, then the shortest base 58 digits of the rest |
| Base58.DecodeBase58 | src/base58.cpp:24-68 | the loops give the bytes of a text, or fail, for every text |
| Base58.DecodeEncode | src/base58.cpp:24-118 | decoding what was encoded gives the bytes back, for all bytes |
| Base58.EncodeDecode | src/base58.cpp:24-118 | encoding what was decoded gives the text back, if it has no spaces: no bytes have two texts |
| Base58.DecodeTrims | src/base58.cpp:26-57 | spaces around a text make no difference |
| Base58.SpaceCodes | src/base58.cpp:26-57 | the spaces are blank, tabs, line feed, form feed and carriage return |
| Base58.EncodeBase58Check | src/base58.cpp:130-137 | appends the checksum before encoding |
| Base58.DecodeBase58Check | src/base58.cpp:139-154 | checks and removes the checksum; gives nothing if it fails |
| Base58.CheckRoundTrip | src/base58.cpp:130-154 | a text without spaces decodes to some bytes if and only if it is their encoding |
| Base58.ChecksumBehind | src/base58.cpp:130-154 | a text decodes to bytes with a checksum if and only if it decodes to the bytes with their checksum behind them |
| Radix.MultiplyAdd | src/base58.cpp:44-49 | the inner loop multiplies the number in a buffer and adds to it, in place, leaving the overflow as carry |
| Radix.DigitsOfNum | src/base58.cpp:58-61 | skipping leading zeroes leaves the shortest digits, which the number determines |
| Chain.NewBlock | src/main.cpp:4821-4825 | a block built on a sound index has its skip pointer where the skip height says |
| Chain.SkipClears | src/main.cpp:4779-4791 | the skip height of an even height clears its lowest bit; that of an odd height keeps the lowest and clears the two above it that are set |
| Chain.GetAncestor | src/main.cpp:4793-4814 | whichever pointers it follows, it comes to the ancestor at that height, and to none outside the heights |
| Chain.LastCommonAncestor | src/main.cpp:467-483 | finds the highest common ancestor of two blocks over the same genesis block; its assertion holds |
| Chain.CChain.SetTip | src/chain.cpp:14-25 | stopping at the first block in place still leaves exactly the ancestors of the new tip |
| Chain.CChain.FindFork | src/chain.cpp:56-63 | finds the highest ancestor that is in the chain, which is the highest common ancestor with the tip |
| Chain.CChain.GetLocator | src/chain.cpp:27-54 | lists the ancestors at the heights that LocatorIs is about, whether it uses the chain or the skip pointers |
| Chain.LocatorIs | src/chain.cpp:40-50 | the heights strictly descend from the block to the genesis block, by ones and then by doubling steps: at most twelve and the binary logarithm of the height in all |
| Chain.CChain.InChain | src/chain.h:574-578 | the chain contains a block if and only if it is an ancestor of the tip |
| Kernel.Section | src/kernel.cpp:56-62 | a section lasts from a third of the modifier interval up to all of it |
| Kernel.SectionIs | src/kernel.cpp:56-62 | the reciprocals of the sections fall evenly |
| Kernel.SelectionInterval | src/kernel.cpp:64-72 | the loop sums up the sections |
| Kernel.IntervalIs | src/kernel.cpp:56-72 | all sections together last 2087 seconds |
| Kernel.GetLastStakeModifier | src/kernel.cpp:39-54 | the nearest block back that generated a modifier, or failure |
| Kernel.GeneratorIs | src/kernel.cpp:39-54 | it is an ancestor that generated a modifier, and no nearer one did |
| Kernel.SelectBlock | src/kernel.cpp:77-133 | of the candidates not chosen before, up to the stop time and the first in any case, the one with the least selection hash, which is stated by the hash function and the blocks: from the upgrade on of their own hashes, before it alike for all with proof of stake; none only if all are chosen |
| Kernel.PicksAreFavoured | src/kernel.cpp:107-119 | every pick of a new modifier is the one so favoured among those not picked before |
| Kernel.PickUnique | src/kernel.cpp:121-128 | a round has one pick |
| Kernel.PicksDistinct | src/kernel.cpp:103-104 | no block is picked twice |
| Kernel.SomeLeft | src/kernel.cpp:195 | while there are fewer picks than candidates one is left |
| Kernel.Select | src/kernel.cpp:191-211 | no round fails; there are min(64, n) picks, and the result packs their entropy bits |
| Kernel.SelectionOnce | src/kernel.cpp:191-211 | the picks of all rounds are determined by the candidates |
| Kernel.OldestFirst | src/kernel.cpp:188-189 | reversing before sorting makes no difference |
| Kernel.StartIs | src/kernel.cpp:178-180 | the interval of the candidates ends with the last full minute before the block |
| Kernel.CandidatesAscend | src/kernel.cpp:188-189 | the candidates are ordered by time and then by hash |
| Kernel.RecentIs | src/kernel.cpp:178-186 | the candidates are the ancestors from the block back to the first that is older than the start |
| Kernel.MakeModifier | src/kernel.cpp:175-238 | with all ancestors indexed the new modifier is made without failure from distinct picks |
| Kernel.ComputeNext | src/kernel.cpp:148-239 | zero before the first block, the fixed modifier after height two, the last one until its interval has passed, and then a new one; fails only without a last one |
| Kernel.ModifierOnce | src/kernel.cpp:135-147 | the new modifier depends only on the set of candidates and the last modifier; bit i is the entropy bit of pick i, and the bits beyond the picks are zero |
| Kernel.GetKernelModifier | src/kernel.cpp:243-286 | fails for an unknown block or one before proof of stake; gives the modifier of the block itself on the regression test network, and else that of the first later block of the chain that generated one a selection interval later, or fails if there is none, stated by the blocks of the chain |
| Budget.FirstFitFits | src/masternode-budget.cpp:828-831 | what is chosen is within the total budget |
| Budget.FirstFitTurn | src/masternode-budget.cpp:816-846 | a proposal is chosen if and only if it passes and still fits after those chosen before it |
| Budget.FirstFitByVotes | src/masternode-budget.cpp:771-846 | the choice by first fit in an order of votes is a choice by votes, stated by votes, fee hashes and amounts |
| Budget.MostVotesWin | src/masternode-budget.cpp:771-778 | the passing proposal with the most votes, and of those the largest fee hash, is chosen first whenever its amount is within the total |
| Budget.ChoiceOnce | src/masternode-budget.cpp:771-778 | with distinct fee transactions the choice does not depend on the order of the map |
| Budget.CBudgetManager.GetBudget | src/masternode-budget.cpp:781-849 | chooses by first fit in the order of votes: a passing proposal that is not chosen does not fit together with those chosen that are not behind it in votes, then fee hash; no proposal twice, and no more than the total; allots each passing one its amount if chosen and nothing otherwise |
| Budget.CBudgetManager.FinalPayments | src/masternode-budget.cpp:188-198 | the payments are those of the chosen proposals, with the full amounts |
| Budget.AlwaysMatches | src/masternode-budget.cpp:1889-1977 | the payments one node makes of its choice always get the vote of any node with the same proposals and distinct fee transactions, unless nothing is chosen |
| Budget.SortedMatch | src/masternode-budget.cpp:1916-1926 | however equal elements are sorted, both lists sorted by hash are equal if and only if one is a permutation of the other |
| Budget.CFinalizedBudget.Matches | src/masternode-budget.cpp:1914-1972 | the sort and comparison succeed if and only if the payments are a permutation of a choice that is not empty |
| Budget.CFinalizedBudget.CheckAndVote | src/masternode-budget.cpp:1889-1977 | a vote is submitted exactly past all gates and with payments that are a permutation of what GetBudget chooses of the own proposals, if that is not empty; the check is made once |
| Budget.CFinalizedBudget.IsPaidAlready | src/masternode-budget.cpp:2126-2156 | forgets payments of other cycles, says whether this one was paid, and notes it if not |
| Budget.CFinalizedBudget.IsTransactionValid | src/masternode-budget.cpp:2158-2208 | returns the status, and leaves the shared history, that the next rows are about |
| BudgetPayments.StatusIs | src/masternode-budget.cpp:2158-2208 | valid if and only if the height is in the cycle, just one output has the payee and the amount due, and the proposal is not noted at a height of the cycle |
| BudgetPayments.CountIs | src/masternode-budget.cpp:2179-2180 | an output counts if and only if it has both the payee and the amount |
| BudgetPayments.AgainIfForgotten | src/masternode-budget.cpp:2126-2207 | in any run of checks against any budgets, a proposal noted as paid and due again is noted again if and only if since then a budget whose cycle excludes the noted height met a matching output |
| BudgetPayments.NextIsValid | src/masternode-budget.cpp:2126-2207 | so the next payment after a valid one is valid too if and only if the first was forgotten that way |
| BudgetPayments.PaidOnce | src/masternode-budget.h:47 | two valid payments of a proposal need a check against another budget in between; a single budget pays none twice |
| BudgetPayments.PaidTwice | src/masternode-budget.cpp:2133-2155 | a run of three checks against two budgets in which the first transaction is valid twice |
| LockedPages.LockedPageManager.LockRange | src/allocators.h:47-66 | the loop counts the range on each of its pages and locks those that were not locked |
| LockedPages.LockedPageManager.UnlockRange | src/allocators.h:69-89 | for a live range the assertion holds; the loop uncounts it and unlocks pages that no other live range touches |
| LockedPages.PageLocked | src/allocators.h:20-29 | a page is locked if and only if some live range touches it, and its count is the number of these |
| LockedPages.TouchesBytes | src/allocators.h:52-55 | a range touches a page if and only if some byte of it lies there |
| LockedPages.LoopEnds | src/allocators.h:55 | the page loop ends if and only if the range does not end on the last page of the address space |
| LockedPages.RangeEnds | src/allocators.h:47-57 | locking or unlocking a range ends if and only if the range ends below the last page |
| LockedPages.LastPageNeverEnds | src/allocators.h:47-57 | the loop over a single byte on the last page never comes past it |

## Left out

- Networking, RPC, the command line, files and the LevelDB encoding, logging and printed diagnostics.
- Locks, mutexes and thread interruption, except as the steps of the check queue model.
- Compressor.ScriptRoundTrip: assumes of public keys that a valid uncompressed key is what its compressed form decompresses to; CompressDecompressScript assumes the converse.
- CoinsSerialization.Serialize: asks for counts that fit 32 bits, as the program's types do.
- Kernel.GetKernelModifier: does not model the height and time it leaves in its parameters when it fails.
- Kernel.ComputeNext: the modifier after height two is a parameter, because the program casts a pointer; times are not negative.
- CheckQueueRuns.Run: the flag that makes workers quit is never set, because nothing in the program sets it; a check is run in one step, and checks that throw are not modelled.
- AddrManSerialization.RoundTrip: the stream is a sequence of typed values, not of bytes; asserts that a hostile stream could trip in the reader count as failures.
- AddrManRuns.Run: ids, times and counters are unbounded; times are not negative and the time of a success is positive, as for the program's clock.
- AddrManStream.Serialize: writes typed values, not their bytes.
- AddrManStream.Unserialize: reads typed values, not their bytes.
- LockedPages.LockedPageManager.LockRange: asks that the range ends below the last page; by RangeEnds it returns in exactly those cases.
- Chain.GetAncestor: says where it comes to, not in how many steps.
- Chain.CChain.GetLocator: the step is unbounded, which agrees with an int for heights below 2^30.
- Budget.CBudgetManager.GetBudget: whether a proposal passes, its votes and the total budget are given; cleaning up votes is not modelled.
- Budget.CBudgetManager.FinalPayments: the collateral transaction and its submission are not modelled.
- MintSelection.SelectionSucceeds: targets that are not a whole number of coins may come back empty, because no change can be given for the fraction.
- MintSelection.GetSpends: asks that every denomination asked for has a usable mint; by SpendsEnd it returns in exactly those cases.
- MintSelection.SelectMintsFromList: asks the same of the counts it comes to; the limit on spends is not enforced on the way through change, by the program either; counts and amounts are unbounded.
- The address manager's random search for an address to connect to (Select_) and its floating-point chances.
- CAddrMan::Clear of a manager that is not empty, which does not empty two of its maps.
- CCoins::GetSerializeSize, which builds the header code with another factor than Serialize does.
- GetOutputFor, GetValueIn, HaveInputs, GetPriority and SetBackend of the coin views, and the rounds of an output.
- Unused or printing helpers of coin selection (listSpends, getDenomWithMostCoins, getNextHighestDenom).
- Block trust, stake hash targets, modifier checkpoints and checksums.
- Votes on finalized budgets, their thresholds, and which of several finalized budgets a block must pay.

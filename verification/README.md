# Verified models of three pieces of the repository

The repository is a collection of Perl distributions. Three self-contained
pieces of algorithmic code in it are modelled and proved here.

* **The hash table written for `part()`** (`List-MoreUtils/dhash.h`). Modules
  `HashCode` and `DHash`: an array-backed class `Table` with cyclic linear probing,
  growth and an in-place final sort. Module `Part` holds the two drivers of
  `List-MoreUtils/MoreUtils.xs`: `part`, which is in use and keeps a plain array, and
  `part_dhash`, which uses the table and is kept under `#if 0`.
* **The scanners and printers of `Astro-Hipparcos/ppport.h`**: `grok_number`
  (`GrokNumber`, `GrokGrammar`), `grok_bin`, `grok_hex` and `grok_oct`
  (`GrokRadix`), `pv_escape` and `pv_pretty` (`PvEscape`), the dependency search
  `rec_depend` (`RecDepend`), and `parse_version` and `format_version` (`Version`).
* **The handle state machines of `DBD-SQLite/dbdimp.c`**: the SQL keyword scan
  (`SqlScan`), the database handle (`DbHandle`) and its runs (`TxnRuns`), the
  statement handle with one step of look-ahead (`StHandle`) and its runs (`StRuns`),
  the number classifier (`IsNumber`), the numbers it accepts (`NumberText`) and parameter
  binding (`Binding`). `Engine` is the small abstract SQLite they run against: a committed
  and a working state, savepoints, an in-transaction bit, and a row list per execution. The
  engine may answer any statement with success, failure, or failure and rollback.

`Options`, `Numerals` and `Texts` hold the shared vocabulary: optional values,
positional numerals and decimal text, and texts standing inside other texts.

Code that changes state step by step is modelled by classes and methods with loops.
Each method is proved equal to a function of its inputs and of the old state, and the
theorems are lemmas about those functions.

## Main results

* After any sequence of stores the table represents exactly the log of those stores,
  can be probed without gaps, and stays within its load bound; growing it changes
  nothing; the final sort ranks the keys (`DHash.Table.Store`, `DHash.Table.Resize`,
  `DHash.Table.SortFinal`).
* Both drivers, end to end, return the cells of the stores that their own rule for
  negative indices calls for (`Part.Part`, `Part.PartDhash`). The rules differ:
  `part_dhash` returns what `part` returns exactly if no index is negative or `part`
  refuses one (`Drivers.DriversAgreeExactly`).
* `rec_depend` is reachability by a non-empty path on every finite graph, cyclic or not
  (`RecDepend.RecDependIsReachability`).
* `grok_number` accepts exactly a stated grammar and gives every numeral its meaning
  (`GrokGrammar.GrokDecidesNumerals`, `GrokGrammar.NumeralIsScanned`).
* `grok_bin`, `grok_hex` and `grok_oct` return the Horner value of the longest accepted
  text, or the overflow verdict with the exact value, and rewriting digits as bits
  changes neither; what a printer writes is read back (`GrokRadix.ScanIsLongest`,
  `GrokRadix.BitsGiveSameResult`, `GrokRadix.WrittenIsRead`).
* `pv_escape` is inverted by an explicit unescaper, and under a limit it consumes the
  longest prefix that fits (`PvEscape.UnescapeInvertsEscape`,
  `PvEscape.ConsumesLongestPrefix`).
* What a transaction builds up, begun by `begin_work`, BEGIN or AutoCommit=0, is stored by
  a commit and gone after a rollback (`TxnRuns.TransactionCommits`,
  `TxnRuns.TransactionRollsBack`, `TxnRuns.WritesBuildUp`).
* One operation on a database handle keeps AutoCommit and BegunWork in agreement with
  the engine exactly when it is not one of a few listed steps, so every run without them
  stays consistent (`TxnRuns.StepBreaksExactly`, `TxnRuns.CarefulRunStaysConsistent`).
* While AutoCommit is off the committed state changes through a commit only, in every run,
  whatever fails in it, and disconnecting discards the rest (`TxnRuns.UncommittingRun`,
  `TxnRuns.DisconnectDiscards`).
* The look-ahead cursor delivers the row list, whatever was done with the handle before
  (`StHandle.FetchesDeliverRows`). Among other work on its connection it delivers the list
  up to the first rollback that reaches it, and all of it exactly if none does before the
  end (`StRuns.RowsAmongOtherWork`, `StRuns.AllRowsExactly`). Executing again at the end of
  any run starts from the first row (`StRuns.RunRestarts`).
* `sqlite_is_number` answers 1 exactly for the decimal forms of 64-bit integers
  (`IsNumber.OneMeansInt64`), and the scan accepts exactly a stated form of numbers
  (`NumberText.AcceptsNumbers`).
* `format_version` writes a stated form, which `parse_version` reads as the same version
  (`Version.FormOfFormat`, `Version.ParseInvertsFormat`).

Where the code falls short of what one would expect of it, the exact condition is proved:

* `cmp` subtracts ints, so it orders two keys correctly exactly when their difference is
  an int (`DHash.CmpOrders`), and the ascending order is one that `qsort` may return
  exactly when that holds of all keys (`DHash.AscendingIsSortedExactly`). The greatest
  int sorts before -1 (`DHash.FarKeysAreMisordered`); both drivers refuse negative keys,
  so this takes direct calls of `dhash_store`.
* The documentation makes -1 the last partition. `part` adds the number of partitions to a
  negative index, `part_dhash` the greatest key, one less: for the indices 0, 1, -1 it
  puts the third argument into the first partition (`Drivers.MinusOneDiffers`), and for 0, -1
  it croaks (`Drivers.MinusOneRefused`).
* `grok_bin` and `grok_hex` accept an underscore before any digit, on every text.
  `grok_oct` gives the result of that rule exactly on the texts in which what the rule
  accepts has no underscore before a zero (`GrokRadix.UnderscoreRule`,
  `GrokRadix.UnderscoreOutcome`); `1_0` is one of the others
  (`GrokRadix.OctStopsBeforeUnderscoreZero`).
* The flags of a handle disagree with the engine after exactly the steps listed in
  `TxnRuns.Breaks` (`TxnRuns.StepBreaksExactly`): for instance after a fetch
  whose look-ahead opens a transaction under AutoCommit, since only the first step of an
  execute is followed by a look at the engine (`TxnRuns.FetchBreaks`), after a failed COMMIT
  (`TxnRuns.FailedCommitBreaks`), after a SAVEPOINT outside a transaction
  (`TxnRuns.SavepointBreaks`), and after rolling back to a savepoint in a text whose
  `TO` is followed by a newline (`SqlScan.NewlineAfterTo`,
  `TxnRuns.MisreadRollbackBreaks`, `TxnRuns.NewlineAfterToBreaks`).
* The keyword scan does not know block comments: with one before a statement it recognises
  nothing, and with one between ROLLBACK and TO it takes the text for ROLLBACK
  (`SqlScan.ScanSeesThroughGaps`, `SqlScan.RollbackToIsTakenFor`,
  `SqlScan.ScanAgreesExactly`).
* A ROLLBACK on the connection loses the rows that a statement has not looked ahead yet
  (`StRuns.RollbackLosesRows`).
* `sqlite_is_number` sees a text up to its first NUL, so an integer bound for a text prints
  as that text exactly if it holds none (`Binding.IntegersKeepTheirText`,
  `Binding.NulHidesTheRest`).
* `sqlite_bind_ph` accepts positions below 1, which count back from the end of the parameter
  list; they leave it alone exactly if they do not reach it
  (`Binding.LowPositionHarmless`, `Binding.PositionZeroOverwritesTheFirst`).
* Executing a statement again fails exactly if the last operation on it was a fetch whose
  look-ahead met an error (`StRuns.RunRestarts`); it fails once only
  (`StHandle.ReexecuteTwiceRestarts`).
* A dotted version before 5.6 whose subversion is no multiple of ten is accepted, but
  its normal form is not (`Version.CompatKeepsVersion`, `Version.OddOldVersion`).
* The comment on the digit count of `sqlite_is_number` says that more than nineteen
  digits are too large; with leading zeros they need not be, and the guard refuses them
  all the same (`IsNumber.GuardMeans`, `IsNumber.LeadingZerosAreRefused`,
  `IsNumber.TwentyDigitsAreRefused`).

## Conventions

* Bytes are characters. `CString` is a text without NUL; values to bind are any texts.
* A UV is `w` bits wide with `w >= 32`, or holds the numbers up to a parameter `uvMax`
  of at least 2^32 - 1. Shifts, sums and products are taken modulo the width, and it is
  proved that none wraps. The NV accumulator is a real.
* `HASH` is computed on 32-bit vectors (`HashCode.Hash`). A `Table` takes any hash
  function as a parameter and `part_dhash` passes `HashCode.KeyHash`, so the table's
  theorems do not depend on the mixing.
* What the engine answers, what `printf("%.*f")` writes, and the byte after the input
  that `pv_escape` looks at are parameters, and every theorem is for all of them.

## Model

| member | source | states |
|---|---|---|
| DHash.ProbeDecides | List-MoreUtils/dhash.h:75-80 | Probing is a correct search: it stops on an occupied slot exactly when the key is in the table, and on a free one exactly when it is not. |
| DHash.Probe | List-MoreUtils/dhash.h:77-78 | The search loop ends, as long as one slot is free, on the key's slot or on the first free slot after its home, and every slot passed holds another key. |
| DHash.FindFree | List-MoreUtils/dhash.h:103-105 | The rehash loop ends on the first free slot cyclically after the key's home. |
| DHash.ClaimKeepsNoGap | List-MoreUtils/dhash.h:80-84 | Filling the slot where probing stopped keeps every key reachable from its home without a gap. |
| DHash.StoreRepresents | List-MoreUtils/dhash.h:75-88 | Appending at the slot where probing stopped turns a table that represents a log of stores into one that represents the log with the new store added. |
| DHash.LengthsSumToStores | List-MoreUtils/dhash.h:75-120 | Conservation: the list lengths of the whole table sum to the number of stores. |
| DHash.KeyWasStored | List-MoreUtils/dhash.h:86 | A key's list is non-empty exactly when the key was stored. |
| HashCode.SomeHashes | List-MoreUtils/dhash.h:63-73 | The hash of some 32-bit keys. |
| HashCode.SomeKeyHashes | List-MoreUtils/dhash.h:63-73 | The hash of some int keys, negative ones included. |
| DHash.MaxOfIsMax | List-MoreUtils/dhash.h:118-119 | max is the larger of 0 and the greatest stored key, and nothing else. |
| DHash.OverloadedMeans | List-MoreUtils/dhash.h:114 | The quotient test against 0.75 is 4 * count > 3 * size. |
| DHash.RehashOne | List-MoreUtils/dhash.h:100-108 | Moving one occupied slot to the first free slot from its home keeps the keys unique, the table free of gaps and the entries those moved so far, without comparing keys. |
| DHash.RehashedRepresents | List-MoreUtils/dhash.h:90-110 | A rehashed table represents the same stores as the old one. |
| DHash.Table.constructor | List-MoreUtils/dhash.h:48-56 | A new table is valid, represents no stores and has four slots. |
| DHash.Table.Insert | List-MoreUtils/dhash.h:75-88 | With a free slot, inserting adds exactly this store to what the table represents, keeps it free of gaps, and claims at most one slot. |
| DHash.Table.Move | List-MoreUtils/dhash.h:103-107 | One iteration of the rehash loop: the new array holds exactly the occupied slots up to this one, each once. |
| DHash.Table.Rehash | List-MoreUtils/dhash.h:100-108 | The rehash loop: the new array holds exactly the occupied slots of the old, can be probed, and count is their number. |
| DHash.Table.Resize | List-MoreUtils/dhash.h:90-110 | The size doubles; the represented stores, the entries, the count and max stay; the table has no gaps again. |
| DHash.Table.Store | List-MoreUtils/dhash.h:112-120 | In every valid table (represents its stores, no gaps, size 4 * 2^k, 4 * count <= 3 * size + 4, count <= size, max right) a store is added and the table stays valid. |
| DHash.CmpOrders | List-MoreUtils/dhash.h:39-46 | cmp orders two keys correctly if and only if their difference is an int. |
| DHash.FarKeysAreMisordered | List-MoreUtils/dhash.h:45 | For instance the greatest int compares as less than -1. |
| DHash.SortedIsOrdered | List-MoreUtils/dhash.h:39-46 | If the differences are ints, a sequence is sorted for cmp exactly when its keys ascend and its empty slots come last, although cmp answers 1 for two empty slots in both orders. |
| DHash.AscendingIsSortedExactly | List-MoreUtils/dhash.h:39-46 | The ascending order is sorted for cmp if and only if all key differences are ints. |
| DHash.SortedIsRanked | List-MoreUtils/dhash.h:122-127 | Any permutation of the table that is sorted for cmp has the stored keys in strictly ascending order in the first count slots, each with its own list, and empty slots after them. |
| DHash.Table.SortFinal | List-MoreUtils/dhash.h:125-127 | After the final sort the array is ranked in that way. |
| DHash.QSort | List-MoreUtils/dhash.h:126 | The contract of qsort for cmp, met by a sort in place: a permutation, sorted for cmp. |
| Part.PartsStep | List-MoreUtils/MoreUtils.xs:1302-1310 | One more store on the cells: they grow with undef up to the index, and its list gets the argument. |
| Part.Part | List-MoreUtils/MoreUtils.xs:1268-1325 | The driver in use, on its growing array, for every list of indices: the cells of the stores in which a negative index counts back from the number of partitions so far, or an error exactly if one stays negative. |
| Part.StoreAll | List-MoreUtils/MoreUtils.xs:1360-1370 | The store loop of part_dhash makes the stores in which a negative index is added to the greatest key so far, or stops where one stays negative. |
| Part.AssignedKeys | List-MoreUtils/MoreUtils.xs:1299-1369 | In both drivers, if no index is refused, there is one store per argument and every key is non-negative. |
| Part.SpreadOne | List-MoreUtils/MoreUtils.xs:1379-1386 | One iteration of the output loop: with undef filled in below it, every cell up to this key is final. |
| Part.Spread | List-MoreUtils/MoreUtils.xs:1375-1387 | From a ranked array the output loop produces one cell per index from 0 to max: the list stored there, or undef. |
| Part.PartDhash | List-MoreUtils/MoreUtils.xs:1327-1391 | End to end, for every list of indices: the result is the cells that those stores call for, or an error exactly if an index is refused. |
| Partition.ResultIsPartition | List-MoreUtils/MoreUtils.xs:1299-1391 | Told from the indices and arguments alone: if no index is negative, both drivers return one cell more than the greatest index (none for no arguments), and cell k holds exactly the arguments whose index is k, in order, or undef. |
| Partition.LastArgument | List-MoreUtils/MoreUtils.xs:1299-1391 | For every list: a last index k below 0 sends its argument to cell n + k of the n cells that part returned so far, and is refused exactly if n + k is below 0; part_dhash takes the greatest index used in place of n. A last index from 0 on sends it to its own cell. Nothing else changes, and a refusal stays one. |
| Drivers.SumsPart | List-MoreUtils/MoreUtils.xs:1299-1366 | Whatever part refuses part_dhash refuses; otherwise, with a negative index, its stores have a strictly smaller sum of keys. |
| Drivers.SamePartsSameSum | List-MoreUtils/MoreUtils.xs:1315-1391 | The cells returned determine the sum of the keys. |
| Drivers.DriversAgreeExactly | List-MoreUtils/MoreUtils.xs:1268-1391 | The two drivers return the same cells, or both refuse, if and only if no index is negative or part refuses one. |
| Drivers.MinusOneDiffers | List-MoreUtils/lib/List/MoreUtils.pm:714-720 | For the indices 0, 1, -1 part puts the third argument into the last partition, as documented, and part_dhash into the first. |
| Drivers.MinusOneRefused | List-MoreUtils/MoreUtils.xs:1366-1367 | For the indices 0, -1 part puts both arguments into one partition, and part_dhash croaks. |
| RecDepend.DedupeSpec | Astro-Hipparcos/ppport.h:2999-3000 | The grep keeps each function once and loses none. |
| RecDepend.DedupeKeepsOrder | Astro-Hipparcos/ppport.h:2999-3000 | The functions keep the order of their first occurrences. |
| RecDepend.RecDependOrder | Astro-Hipparcos/ppport.h:2993-3001 | The list is in the order of the search: what is found through the first i dependencies comes first, and the next dependency, if it is new, follows at once. |
| RecDepend.RecDependSound | Astro-Hipparcos/ppport.h:2993-3001 | Whatever is listed is reachable by a non-empty path that leaves no function seen before. |
| RecDepend.Simplify | Astro-Hipparcos/ppport.h:2997-2998 | Every path can be cut to one with the same ends whose inner functions are distinct, which the seen-set of the current path never stops. |
| RecDepend.RecDependFollows | Astro-Hipparcos/ppport.h:2993-3001 | The end of every such path is listed. |
| RecDepend.RecDependReaches | Astro-Hipparcos/ppport.h:2993-3001 | Below any path: each function once, and exactly those reachable by a non-empty path outside the functions seen. |
| RecDepend.RecDependIsReachability | Astro-Hipparcos/ppport.h:2993-3001 | From the top, on every finite graph, cyclic or not: each function once, and exactly those reachable by a non-empty path. |
| GrokRadix.GuardIsExact | Astro-Hipparcos/ppport.h:6428-6429 | value <= UV_MAX / base lets a digit through exactly when the next value fits, and then shift and or compute it exactly. |
| GrokRadix.Push | Astro-Hipparcos/ppport.h:6426-6445 | The code at the redo label: the accumulators stand for the digits read, as a UV until they exceed UV_MAX and as an NV from then on. |
| GrokRadix.StripPrefix | Astro-Hipparcos/ppport.h:6404-6418 | The prefix test skips b or 0b (x or 0x) unless it is forbidden. |
| GrokRadix.GrokBin | Astro-Hipparcos/ppport.h:6391-6475 | Value, consumed length, overflow flag and NV are those of the accepted digits: their Horner value if it is at most UV_MAX, else UV_MAX with the flag and the exact NV. |
| GrokRadix.GrokHex | Astro-Hipparcos/ppport.h:6493-6577 | The same for hexadecimal digits. |
| GrokRadix.GrokOct | Astro-Hipparcos/ppport.h:6595-6670 | The same for octal digits, with underscores only before a non-zero digit. |
| GrokRadix.DigitsAreLetters | Astro-Hipparcos/ppport.h:6391-6670 | The digits of a radix are its letters in either case, and no other characters. |
| GrokRadix.LettersCount | Astro-Hipparcos/ppport.h:6523-6532 | The letter for d in "0123456789abcdef", or in upper case, is a digit of value d. |
| GrokRadix.WrittenIsRead | Astro-Hipparcos/ppport.h:6391-6670 | Round trip: what an independent printer writes for n in base 2, 8 or 16, in either case, is consumed in full and answered by n if it fits w bits, else by UV_MAX, the overflow flag and n as NV. |
| GrokRadix.PrefixedIsRead | Astro-Hipparcos/ppport.h:6404-6418 | The same after x, 0x, b or 0b, with the prefix counted as consumed. |
| GrokRadix.ForbiddenPrefixStops | Astro-Hipparcos/ppport.h:6404-6457 | If the prefix is forbidden, the scan stops before its letter: nothing or one zero is consumed, and the answer is 0. |
| GrokRadix.SkippedIsPrefix | Astro-Hipparcos/ppport.h:6404-6418 | Nothing but a prefix of the radix is skipped, and octal has none. |
| GrokRadix.ScanReadsTokens | Astro-Hipparcos/ppport.h:6420-6457 | What is consumed is a sequence of digits, each possibly after an allowed underscore, and its digits are those evaluated. |
| GrokRadix.ScanIsLongest | Astro-Hipparcos/ppport.h:6420-6457 | Maximal munch: the scan covers every such sequence that the input continues with. |
| GrokRadix.UnderscoreRule | Astro-Hipparcos/ppport.h:6391-6670 | Compared with the scan in which an underscore may precede any digit: grok_bin and grok_hex end where it ends, on every text; grok_oct does if and only if no underscore stands before a zero in what that scan accepts. |
| GrokRadix.UnderscoreDigits | Astro-Hipparcos/ppport.h:6391-6670 | The digits read are those of that scan if and only if the ends agree. |
| GrokRadix.UnderscoreOutcome | Astro-Hipparcos/ppport.h:6391-6670 | So value, length, overflow verdict and NV are those of that scan if and only if that holds of the text after its prefix. |
| GrokRadix.OctStopsBeforeUnderscoreZero | Astro-Hipparcos/ppport.h:6637-6643 | An instance, at every width: 1_0 is read as 1 with one character consumed by grok_oct, and in full by grok_hex. |
| GrokRadix.ExpandValue | Astro-Hipparcos/ppport.h:6608-6636 | Writing each digit as its bits keeps the value. |
| GrokRadix.BitsGiveSameResult | Astro-Hipparcos/ppport.h:6391-6670 | grok_bin of the digits rewritten as bits gives the value, overflow verdict and NV that grok_hex or grok_oct give, for every text, width and setting. |
| GrokNumber.NineDigitsFit | Astro-Hipparcos/ppport.h:6205-6207 | Nine decimal digits fit 32 bits. |
| GrokNumber.UnrolledDigit | Astro-Hipparcos/ppport.h:6213-6245 | On the unrolled path the next digit never wraps. |
| GrokNumber.GuardIsExact | Astro-Hipparcos/ppport.h:6249-6253 | The loop guard lets a digit through if and only if value * 10 + digit is at most UV_MAX. |
| GrokNumber.GuardedLoop | Astro-Hipparcos/ppport.h:6246-6270 | From nine digits on: the end of the digits, the exact value if it fits, and the overflow verdict exactly if it does not. |
| GrokNumber.GrokInteger | Astro-Hipparcos/ppport.h:6204-6291 | Unrolled prefix and loop together: the value is exactly the integer part, and overflow is reported exactly when that exceeds UV_MAX. |
| GrokNumber.GrokNumericRadix | Astro-Hipparcos/ppport.h:6121-6159 | The radix character outside any locale: a point is consumed if it is there. |
| GrokNumber.FinishExponent | Astro-Hipparcos/ppport.h:6339-6366 | Exponent, trailing blanks and the fallback agree with the specification, for every position and every type so far. |
| GrokNumber.GrokNumber | Astro-Hipparcos/ppport.h:6177-6367 | The whole scanner with its moving pointer equals the specification in terms of runs of blanks and digits, for every text and every UV_MAX of at least 32 bits. |
| GrokNumber.BlanksAre | Astro-Hipparcos/ppport.h:6189-6190 | The blanks, spelled out. |
| GrokNumber.InfIs | Astro-Hipparcos/ppport.h:6313-6315 | The letters of inf, in either case. |
| GrokNumber.InfinityIs | Astro-Hipparcos/ppport.h:6313-6322 | The letters of infinity, in either case. |
| GrokNumber.NanIs | Astro-Hipparcos/ppport.h:6324-6328 | The letters of nan, in either case. |
| GrokGrammar.NumeralIsScanned | Astro-Hipparcos/ppport.h:6177-6367 | Every numeral (blanks, sign, decimal with fraction and exponent or inf, infinity or nan, blanks) is accepted with its meaning: sign, NOT_INT, INFINITY and NAN as written; the integer part is stored if it fits; without exponent IN_UV if it fits and GREATER_THAN_UV_MAX, with nothing stored, if it does not. |
| GrokGrammar.NumeralOf | Astro-Hipparcos/ppport.h:6177-6367 | Conversely, every accepted text other than 0 but true is a numeral. |
| GrokGrammar.ZeroButTrue | Astro-Hipparcos/ppport.h:6361-6365 | The one other text: it is accepted as the UV 0. |
| GrokGrammar.GrokDecidesNumerals | Astro-Hipparcos/ppport.h:6177-6367 | The scanner returns non-zero if and only if the text is a numeral or 0 but true. |
| GrokGrammar.OutTellsIntegerPart | Astro-Hipparcos/ppport.h:6288-6312 | What is stored, accepted or not: the value of the digits after blanks and a sign if a UV holds it, 0 for a point and a digit there, and nothing for any other text. |
| PvEscape.ChunkDecodes | Astro-Hipparcos/ppport.h:6927-6956 | The text of one byte decodes to it whatever follows, provided an escape of fewer than three digits is not followed by an octal digit. |
| PvEscape.RestEndsEscape | Astro-Hipparcos/ppport.h:6949-6951 | The look-ahead pads wherever the next output character could continue the escape. |
| PvEscape.EscapedDecodes | Astro-Hipparcos/ppport.h:6912-6970 | The escaped text of any stretch of the input decodes to that stretch, in front of any text that continues no escape. |
| PvEscape.UnescapeInvertsEscape | Astro-Hipparcos/ppport.h:6886-6974 | Round trip: without a limit the unescaper gives back every byte string, in the plain, QUOTE, RE and NOBACKSLASH modes and whatever byte follows the input. |
| PvEscape.EscapeIsInjective | Astro-Hipparcos/ppport.h:6886-6974 | Inputs that are escaped alike are equal. |
| PvEscape.EscapedIsPrintable | Astro-Hipparcos/ppport.h:6930-6952 | The escaped text is printable unless NOBACKSLASH is set. |
| PvEscape.ConsumedFits | Astro-Hipparcos/ppport.h:6957-6958 | What is consumed fits the limit, and with one more byte it would not. |
| PvEscape.ConsumesLongestPrefix | Astro-Hipparcos/ppport.h:6912-6973 | A prefix fits the limit if and only if it is no longer than what is consumed. |
| PvEscape.EscapesAre | Astro-Hipparcos/ppport.h:6930-6955 | Which byte is written how: escaped by itself, by a letter, as it is, or in one to three octal digits, three before a digit. |
| PvEscape.NoBackslash | Astro-Hipparcos/ppport.h:6927-6928 | With NOBACKSLASH every byte is written as it is. |
| PvEscape.ChooseText | Astro-Hipparcos/ppport.h:6927-6956 | The branches that choose octbuf and chsize produce the text of the byte. |
| PvEscape.PvEscape | Astro-Hipparcos/ppport.h:6886-6974 | The loop reports the consumed prefix and appends to the buffer exactly its complete escaping, splitting no escape. |
| PvEscape.PvPretty | Astro-Hipparcos/ppport.h:6995-7028 | The buffer gets delimiters and colours around the escaped prefix, and dots if the flag is set and input was left out. |
| PvEscape.PrettyForm | Astro-Hipparcos/ppport.h:7000-7025 | The printed form: quotes before angle brackets, the start colour before and the end colour after the text inside them, and dots after them exactly if the text is cut and the flag is set. |
| PvEscape.EllipsisMeansTooLong | Astro-Hipparcos/ppport.h:7024-7025 | With the flag, the dots appear if and only if the complete escaping exceeds the limit. |
| PvEscape.PrettyReadsBack | Astro-Hipparcos/ppport.h:6995-7028 | From the quoted form one reads back exactly the consumed prefix, and from what follows the closing quote whether input was left out. |
| PvEscape.PrettyIsInjective | Astro-Hipparcos/ppport.h:6995-7028 | Inputs with the same quoted form show the same prefix and are both complete or both cut; if complete, they are equal. |
| Version.ParsesTriple | Astro-Hipparcos/ppport.h:3007-3009 | Three dotted numbers are read as they stand. |
| Version.ParsesByGroups | Astro-Hipparcos/ppport.h:3010-3028 | Digits and underscores after the point are read in groups of three, and refused before 5.6 unless the subversion is a multiple of ten. |
| Version.GroupsAreMillionths | Astro-Hipparcos/ppport.h:3014-3020 | The digits after the point are millionths: version and subversion are their thousands and the rest; digits beyond the sixth do not count. |
| Version.NewlineIsIgnored | Astro-Hipparcos/ppport.h:3007-3015 | One newline at the end is ignored. |
| Version.OldTextParses | Astro-Hipparcos/ppport.h:3041-3051 | What format_version writes before 5.6 is read as the version it stands for. |
| Version.ParseInvertsFormat | Astro-Hipparcos/ppport.h:3003-3054 | For every normalised version, formatting and parsing gives what parsing gives, across both forms, and formatting is refused exactly when parsing is. |
| Version.FormOfFormat | Astro-Hipparcos/ppport.h:3041-3053 | The text that format_version writes: from 5.6 on three decimals without superfluous zeros joined by points; before, a decimal, a point, three digits, and an underscore with two digits exactly if the subversion is not 0. The numbers are those that parse_version yields. |
| Version.FormatIsCanonical | Astro-Hipparcos/ppport.h:3031-3054 | Normalised versions that are parsed alike are formatted alike. |
| Version.CompatForm | Astro-Hipparcos/ppport.h:431-433 | A compat-version is accepted exactly if it parses to revision 5 with version and subversion below 1000; its form is 5, a point and twice three digits. |
| Version.CompatKeepsVersion | Astro-Hipparcos/ppport.h:426-434 | The normal form of a compat-version is read as the version given, except exactly for those before 5.6 whose subversion is no multiple of ten: those are refused. |
| Version.OddOldVersion | Astro-Hipparcos/ppport.h:3007-3026 | Such versions exist: the dotted form is accepted and its normal form is not. |
| SqlScan.SkipLead | DBD-SQLite/dbdimp.c:753-762 | The loop over blanks and comments stops where the specification says. |
| SqlScan.ScanRollback | DBD-SQLite/dbdimp.c:819-851 | The loop after ROLLBACK finds a savepoint exactly when the specification does. |
| SqlScan.BlanksAre | DBD-SQLite/dbdimp.c:42 | The blanks, spelled out. |
| SqlScan.KeywordDecides | DBD-SQLite/dbdimp.c:763-818 | After blanks and line comments a statement is taken for what its first letters say, in either case: begin, commit or end, rollback. |
| SqlScan.TransactionIs | DBD-SQLite/dbdimp.c:828-838 | The letters of transaction, in either case. |
| SqlScan.ScanSeesThroughGaps | DBD-SQLite/dbdimp.c:753-762 | Blanks and line comments before a statement never change what it is taken for; with a block comment among them nothing is recognised. |
| SqlScan.RollbackSeesThroughItems | DBD-SQLite/dbdimp.c:821-839 | Blanks, line comments and TRANSACTION after ROLLBACK never change whether TO is seen; after a block comment it is not. |
| SqlScan.ToNeedsSpaceOrTab | DBD-SQLite/dbdimp.c:841-848 | After ROLLBACK and any gaps TO is recognised if and only if none is a block comment and a space or a tab follows. |
| SqlScan.RollbackToIsTakenFor | DBD-SQLite/dbdimp.c:753-851 | What every text of the form gaps, ROLLBACK, gaps, TO is taken for. |
| SqlScan.ScanAgreesExactly | DBD-SQLite/dbdimp.c:810-855 | On these texts the scan agrees with the engine, which passes over every comment and reads TO wherever the word ends, if and only if a longer word stands there, or no block comment stands in the text and a space or a tab follows TO. |
| SqlScan.BlockBeforeTo | DBD-SQLite/dbdimp.c:821-851 | An instance: a block comment between ROLLBACK and TO. |
| SqlScan.BlockBeforeCommit | DBD-SQLite/dbdimp.c:788-809 | An instance: a block comment before COMMIT. |
| SqlScan.NewlineAfterTo | DBD-SQLite/dbdimp.c:841-848 | So ROLLBACK TO with a newline after it is taken for the end of the transaction. |
| DbHandle.Handle.constructor | DBD-SQLite/dbdimp.c:269-320 | A new handle is active with AutoCommit on and no work begun. |
| DbHandle.Handle.DoCommit | DBD-SQLite/dbdimp.c:322-355 | Flags, engine and result after commit, for every state and every answer of the engine. |
| DbHandle.Handle.DoRollback | DBD-SQLite/dbdimp.c:357-386 | The same for rollback. |
| DbHandle.Handle.DoDisconnect | DBD-SQLite/dbdimp.c:388-450 | The same for disconnect. |
| DbHandle.Handle.DoStoreAutoCommit | DBD-SQLite/dbdimp.c:473-486 | The same for assigning AutoCommit. |
| DbHandle.Handle.DoPrepare | DBD-SQLite/dbdimp.c:750-857 | Flags and engine after the transaction part of execute are those that the keyword scan calls for, and execution goes on unless BEGIN failed. |
| Engine.RunKeepsValid | DBD-SQLite/dbdimp.c:863-881 | The abstract engine keeps its invariant under every statement and every answer. |
| Engine.FindSaveSpec | DBD-SQLite/dbdimp.c:863-881 | The savepoint that the abstract engine picks is the innermost of that name, if there is one. |
| Engine.SavepointRestores | DBD-SQLite/dbdimp.c:841-848 | In the abstract engine, rolling back to a savepoint undoes what was done since and leaves it set. |
| Engine.ReleaseForgets | DBD-SQLite/dbdimp.c:863-881 | Setting and releasing a savepoint inside a transaction changes nothing. |
| TxnRuns.RunInsideTxn | DBD-SQLite/dbdimp.c:785-881 | When a statement ends the open transaction, and when it succeeds in it, told from the savepoints and the answer alone. |
| TxnRuns.StepBreaksExactly | DBD-SQLite/dbdimp.c:323-1003 | From a consistent state one operation, a fetch included, keeps the flags in agreement with the engine if and only if it is not one of the listed steps; a failed BEGIN is not. |
| TxnRuns.ExecuteBreaksExactly | DBD-SQLite/dbdimp.c:750-890 | The same for execute, for every text, every statement the engine may read in it and every answer. |
| TxnRuns.RunStaysConsistent | DBD-SQLite/dbdimp.c:323-890 | Every run without such a step ends with AutoCommit on only outside a transaction and BegunWork only with AutoCommit off. |
| TxnRuns.CarefulRunStaysConsistent | DBD-SQLite/dbdimp.c:323-1003 | The same for every run whose COMMITs and ROLLBACKs succeed, whose statements are read alike by engine and scan, that under AutoCommit opens no transaction by SAVEPOINT, from inside a statement without columns or a failing one, or while fetching, and that does not assign AutoCommit=1 over begun work. |
| TxnRuns.SteppedInsideTxn | DBD-SQLite/dbdimp.c:773-783 | While AutoCommit is off, a statement that is not BEGIN is stepped inside a transaction. |
| TxnRuns.OnlyCommitsCommit | DBD-SQLite/dbdimp.c:358-397 | While AutoCommit is off, an operation changes the committed state only if it is a commit: the call, COMMIT, assigning AutoCommit, or releasing the savepoint that opened the transaction. It may fail, and the flags may disagree with the engine. |
| TxnRuns.StepStaysSound | DBD-SQLite/dbdimp.c:323-1003 | Every operation, careful or not, keeps the engine's own invariant, and no transaction open on an inactive handle. |
| TxnRuns.UncommittingRun | DBD-SQLite/dbdimp.c:750-784 | Over every run with AutoCommit off before each step and without those commits the committed state stays, whatever fails; all that is asked of the texts is that none but BEGIN is taken for BEGIN. |
| TxnRuns.DisconnectDiscards | DBD-SQLite/dbdimp.c:388-418 | Disconnecting after such a run restores the committed state, even if the ROLLBACK fails. |
| TxnRuns.CommitStores | DBD-SQLite/dbdimp.c:338-354 | For every active handle with AutoCommit off and an open transaction, by assignment or by begun work: a commit answers true and stores the working state, and AutoCommit comes on only if work was begun. |
| TxnRuns.RollbackReturns | DBD-SQLite/dbdimp.c:368-385 | A rollback answers true and returns to the committed state. |
| TxnRuns.CommitAnswers | DBD-SQLite/dbdimp.c:328-354 | A commit answers false exactly on an inactive handle, or if the engine was asked and failed. |
| TxnRuns.RollbackAnswers | DBD-SQLite/dbdimp.c:363-385 | The same for a rollback. |
| TxnRuns.NothingToEnd | DBD-SQLite/dbdimp.c:333-385 | Without an open transaction neither touches the connection, and begun work ends. |
| TxnRuns.FailedEnd | DBD-SQLite/dbdimp.c:338-383 | A failed one ends begun work all the same, and leaves the transaction open unless the engine dropped it. |
| TxnRuns.AutoCommitOnStores | DBD-SQLite/dbdimp.c:474-484 | Assigning AutoCommit=1 over an open transaction stores the working state, or does nothing if the commit fails. |
| TxnRuns.AutoCommitIsSet | DBD-SQLite/dbdimp.c:474-484 | Every other assignment just sets the flag. |
| TxnRuns.BeginWorkMeans | DBD-SQLite/dbdimp.c:763-772 | begin_work under AutoCommit turns it off for the time being, as a literal BEGIN does; otherwise it does nothing. |
| TxnRuns.LiteralBeginMeans | DBD-SQLite/dbdimp.c:763-772 | A literal BEGIN outside a transaction turns AutoCommit off for the time being if it is on, and begins no work if it is off. |
| TxnRuns.DisconnectEnds | DBD-SQLite/dbdimp.c:388-415 | The flags and the connection after disconnecting. |
| TxnRuns.FlagsStayOn | DBD-SQLite/dbdimp.c:750-784 | Under AutoCommit a statement that is not taken for BEGIN and opens no transaction leaves the flags as they are. |
| TxnRuns.OpeningIsNoticed | DBD-SQLite/dbdimp.c:887-890 | One with columns whose first step opens a transaction begins work. |
| TxnRuns.RunStaysWithin | DBD-SQLite/dbdimp.c:750-857 | Any number of ordinary statements after begin_work, BEGIN or AutoCommit=0, failing or not, leave the stored data and the flags of the transaction as they are. |
| TxnRuns.TransactionCommits | DBD-SQLite/dbdimp.c:322-355 | begin_work, BEGIN or AutoCommit=0, any ordinary statements, commit: the working state is stored, and AutoCommit is on again unless it was turned off. |
| TxnRuns.TransactionRollsBack | DBD-SQLite/dbdimp.c:357-386 | The same with rollback: handle and data are as before, but for AutoCommit if it was turned off. |
| TxnRuns.WritesBuildUp | DBD-SQLite/dbdimp.c:750-878 | The working state of such a transaction is the effect of its writes, one after the other. |
| TxnRuns.WritesAreStored | DBD-SQLite/dbdimp.c:750-878 | Under AutoCommit each write is stored at once, and nothing else changes. |
| TxnRuns.LiteralEndIsCall | DBD-SQLite/dbdimp.c:785-856 | A literal COMMIT or ROLLBACK that meets no engine failure leaves the handle as the call does, with AutoCommit off by assignment always, and with begun work if and only if the transaction is open in the engine. |
| TxnRuns.FailedCommitBreaks | DBD-SQLite/dbdimp.c:338-351 | A COMMIT that fails leaves AutoCommit on with the transaction open. |
| TxnRuns.SavepointBreaks | DBD-SQLite/dbdimp.c:763-784 | So does a SAVEPOINT under AutoCommit. |
| TxnRuns.FetchBreaks | DBD-SQLite/dbdimp.c:1003 | So does a fetch whose look-ahead step opens a transaction under AutoCommit: the test of lines 887-890 is made after the first step only. |
| TxnRuns.MisreadRollbackBreaks | DBD-SQLite/dbdimp.c:841-855 | So does rolling back to a savepoint in a text that is taken for ROLLBACK. |
| TxnRuns.NewlineAfterToBreaks | DBD-SQLite/dbdimp.c:841-855 | An instance: that text inside begun work with that savepoint. |
| StHandle.Statement.StepAll | DBD-SQLite/dbdimp.c:862-878 | A statement without columns is stepped to its end, then reset; the changes or the error are reported. |
| StHandle.Statement.RunSteps | DBD-SQLite/dbdimp.c:859-898 | The steps of execute: the new statement handle, the result code, and the flags if a statement with columns leaves a transaction open. |
| StHandle.Statement.DoExecute | DBD-SQLite/dbdimp.c:639-899 | Database handle, statement handle and result after execute, for every state and every answer. |
| StHandle.Statement.DoFetch | DBD-SQLite/dbdimp.c:901-1006 | Statement handle, answer and database handle after fetch; the look-ahead step may open a transaction from inside, and its error may roll the transaction back. |
| StHandle.Statement.DoFinish | DBD-SQLite/dbdimp.c:1008-1039 | Statement handle and result after finish, called by a fetch, by the user or when the handle is destroyed. |
| StHandle.ExecuteKeepsValid | DBD-SQLite/dbdimp.c:859-899 | After execute an active handle that holds a row stands on it. |
| StHandle.FetchKeepsValid | DBD-SQLite/dbdimp.c:922-1003 | So does a fetch. |
| StHandle.ExecuteIsDbStep | DBD-SQLite/dbdimp.c:639-899 | On the database handle an execute is one step of the runs above, or nothing. |
| StHandle.ExecuteAnswers | DBD-SQLite/dbdimp.c:647-898 | The result code of every execute by its cause, nrow, and the handle after a failure; a successful statement without columns answers the number of changes, which nrow keeps. |
| StHandle.ChangesAreAnswered | DBD-SQLite/dbdimp.c:873-878 | An instance: a write answers its number of changes. |
| StHandle.FailingSteps | DBD-SQLite/dbdimp.c:863-1003 | When the steps of an execute or of a fetch fail for the engine, and when they roll back. |
| StHandle.FetchInactive | DBD-SQLite/dbdimp.c:912-924 | A fetch yields nothing and changes nothing exactly on a closed connection or an inactive handle. |
| StHandle.FinishMeans | DBD-SQLite/dbdimp.c:1008-1039 | The handle after finish, in every case. |
| StHandle.TripPosition | DBD-SQLite/dbdimp.c:377-383 | A rollback that reaches a statement standing on row k + 1 leaves it where it would be in the list of its first k + 1 rows with an error at the end. |
| StHandle.FetchesReachPosition | DBD-SQLite/dbdimp.c:922-1003 | Any number of fetches leave the handle in a stated position. |
| StHandle.FetchesAnswer | DBD-SQLite/dbdimp.c:922-1003 | They answer like a plain list of rows, ended by an error or not. |
| StHandle.FetchesDeliverRows | DBD-SQLite/dbdimp.c:859-1006 | After any successful execute the k-th fetch yields row k, the next one the end or the error; nrow counts the rows delivered; the handle is active until the end was reported. |
| StHandle.ReexecuteRestarts | DBD-SQLite/dbdimp.c:662-669 | For every state of both handles: an execute that the engine carries out starts from row 1, except exactly when the engine's statement stands on an error; then it fails and leaves the connection alone. |
| StHandle.ReexecuteTwiceRestarts | DBD-SQLite/dbdimp.c:662-669 | In that case the second attempt starts from row 1. |
| StRuns.PendingMeans | DBD-SQLite/dbdimp.c:639-1045 | After every run of executes, fetches and finishes among other work on the connection, the engine's statement stands on an error if and only if the last operation on the handle was a fetch whose look-ahead met one. |
| StRuns.RunRestarts | DBD-SQLite/dbdimp.c:639-1045 | So executing at the end of such a run, on the connection as the run left it, starts from row 1, except exactly in that case. |
| StRuns.RunStands | DBD-SQLite/dbdimp.c:922-1003 | Fetches among other work on the connection stand where fetches of the cut row list stand, and have yielded its answers; it is cut at the row on which the first rollback reached the statement. |
| StRuns.RowsAmongOtherWork | DBD-SQLite/dbdimp.c:859-1006 | After any successful execute the fetches yield the rows in order, none lost or repeated, up to that row, then the error; without such a rollback all rows and their end. |
| StRuns.AllRowsExactly | DBD-SQLite/dbdimp.c:859-1006 | A run that fetches to the end sees the whole list, as if nothing else were done, if and only if no rollback reached the statement, or only on its last row when an error was to follow that row anyway. |
| StRuns.NoRollbackNoCut | DBD-SQLite/dbdimp.c:922-1003 | Work that does not roll back never cuts the list. |
| StRuns.RollbackLosesRows | DBD-SQLite/dbdimp.c:357-386 | An instance: of three rows, with a rollback before the first fetch, the first is delivered and the next fetch fails. |
| IsNumber.MemCmpIsValueOrder | DBD-SQLite/dbdimp.c:198 | memcmp of two equally long digit runs orders them by value. |
| Numerals.DigitsInOrder | DBD-SQLite/dbdimp.c:190-191 | The ten digits and their values, spelled out. |
| IsNumber.GuardMeans | DBD-SQLite/dbdimp.c:193-203 | For every run of digits the guard passes if and only if there are at most nineteen and their value is in range for the sign. |
| IsNumber.LeadingZerosAreRefused | DBD-SQLite/dbdimp.c:193 | Leading zeros keep the value, but a text that they bring to twenty digits or more is refused. |
| IsNumber.TwentyDigitsAreRefused | DBD-SQLite/dbdimp.c:193 | For instance the greatest 64-bit integer with a zero in front. |
| IsNumber.GuardIsExact | DBD-SQLite/dbdimp.c:193-203 | Without leading zeros it passes if and only if the value is in range. |
| IsNumber.ScanRest | DBD-SQLite/dbdimp.c:217-230 | The scan of fraction and exponent accepts exactly the well-formed ones, and reports plainness and precision. |
| IsNumber.IsNumber | DBD-SQLite/dbdimp.c:171-248 | The classifier with its moving pointer equals the specification in terms of runs. |
| IsNumber.OneMeansInt64 | DBD-SQLite/dbdimp.c:171-248 | The answer is 1 if and only if the text, after leading blanks if a type is given, is the decimal form of a 64-bit integer with an optional plus; printing what atoll reads gives it back. |
| IsNumber.BlanksNeedAType | DBD-SQLite/dbdimp.c:183-190 | Without a type a text with a leading blank is never a number. |
| IsNumber.LookedMeans | DBD-SQLite/dbdimp.c:183-185 | Under a type the leading spaces are dropped and nothing else; without one nothing is. |
| NumberText.AcceptsNumbers | DBD-SQLite/dbdimp.c:187-230 | The scan accepts exactly the texts of a sign, digits, a point with digits and an exponent, the first digits alone being obligatory, and counts the digits after the point. |
| NumberText.TwoMeansFloat | DBD-SQLite/dbdimp.c:217-247 | The answer is 2 if and only if the text is such a number, the answer is not 1, the type is not integer, and printf with its plus and its number of digits after the point gives it back. |
| Binding.ParamList.BindPh | DBD-SQLite/dbdimp.c:1197-1239 | A call is refused exactly for an inout parameter, an unknown name or a name that is no C string; otherwise value and type are stored at its position, whatever that is, and the list is that of all calls so far. |
| Binding.StoredAt | DBD-SQLite/dbdimp.c:1233-1236 | A call at a position from 1 on changes the two elements of its parameter and no other, the type only if one is given. |
| Binding.CallsAreRecorded | DBD-SQLite/dbdimp.c:1197-1239 | After any calls at positions from 1 on every parameter has its last value and its last given type. |
| Binding.LowPositionStored | DBD-SQLite/dbdimp.c:1230-1236 | A call at a position below 1 changes exactly the elements that it reaches from the end of the list. |
| Binding.LowPositionOverwrites | DBD-SQLite/dbdimp.c:1230-1236 | On a list of even length that is the parameter it counts back to, if there is one. |
| Binding.LowPositionMisplaces | DBD-SQLite/dbdimp.c:1230-1236 | On a list of odd length the value lands where a type is kept, and the type where a value is. |
| Binding.LowPositionHarmless | DBD-SQLite/dbdimp.c:1230-1236 | Such a call leaves the list alone, whatever it says, if and only if it does not reach back into it. |
| Binding.PositionZeroOverwritesTheFirst | DBD-SQLite/dbdimp.c:1230-1233 | An instance: one typed parameter, then a call at position 0. |
| Binding.PositionsAre | DBD-SQLite/dbdimp.c:1212-1231 | What position a parameter stands for. |
| Binding.TypesOfCodes | DBD-SQLite/dbdimp.c:110-128 | Which codes make an integer, a float and a blob; every other one makes a text. |
| Binding.WhatIsBound | DBD-SQLite/dbdimp.c:679-742 | For every value, type and setting: NULL exactly for an undefined value, a blob exactly for a defined one under that type and in full, an integer exactly for the answer 1, a double exactly for the answer 2 under a type other than integer, and otherwise the whole text, what follows a NUL included. |
| Binding.PlainTextIsKept | DBD-SQLite/dbdimp.c:740 | A text that is not to be seen as a number is bound as it is. |
| Binding.CPartIsBeforeNul | DBD-SQLite/dbdimp.c:694-709 | What the classifier sees of a text is its part before the first NUL. |
| Binding.BindOne | DBD-SQLite/dbdimp.c:679-742 | How one parameter is bound: a blob or text in full, a number by its part before the first NUL. |
| Binding.ParamList.BindAll | DBD-SQLite/dbdimp.c:671-748 | Every parameter is bound by what the list says, and after calls at positions from 1 on by its last value under its last given type. |
| Binding.IntegersAreDecimal | DBD-SQLite/dbdimp.c:705-721 | A text is bound as an integer if and only if it is to be seen as a number and its part before the first NUL is the decimal form of a 64-bit integer, which is the one bound. |
| Binding.IntegersKeepTheirText | DBD-SQLite/dbdimp.c:694-721 | The integer bound prints as the whole text, but for leading blanks under a type and a plus, if and only if the text holds no NUL. |
| Binding.NulHidesTheRest | DBD-SQLite/dbdimp.c:694-721 | An instance: 12, a NUL and a letter are bound as 12. |

## Left out

- Memory and size limits of the table: allocation failure, and int overflow of size and count from 2^30 entries on.
- Part.Part: for the index 2^31 - 1 the number of partitions is no int any more; last + 1 and max + 1 are not wrapped around.
- Part.PartDhash: the same.
- AV and SV objects: the list of a slot is a sequence of values; reference counts and freeing are not modelled.
- DHash.QSort: libc's qsort is not part of the sources; an insertion sort with its contract stands for it.
- DHash.Table.SortFinal: requires keys whose differences are ints; what qsort does with an inconsistent cmp is not defined.
- HashCode.KeyHash: that the mixing is a bijection, or spreads keys well, is not stated; no theorem needs it.
- GrokNumber.GrokNumericRadix: locale radix characters.
- The warnings of grok_bin, grok_hex and grok_oct, and the rounding of their NV accumulator.
- Scan and type flags are records of booleans, not bit masks.
- PvEscape.PvEscape: UTF-8 input, ESCAPE_ALL and FIRSTCHAR are not modelled (FIRSTCHAR reports 0 consumed bytes); pv_display.
- Version.ParseInvertsFormat: format_version on strings that are not digits, a point and digits; digits beyond ASCII and the clamping of %d.
- The rest of ppport.h: the API table, the compatibility macros, option handling, file scanning and patching. Astro-MapProjection/ppport.h is the same file.
- The API behind the handles: DBI's begin_work is taken as one operation on the flags; preparing SQL, tracing, callbacks, hooks, aggregates, collations, backup and metadata.
- DbHandle.Handle.DoPrepare: BEGIN and BEGIN IMMEDIATE differ only in when the engine can fail, which its answer covers.
- DbHandle.Handle.DoDisconnect: the retry of sqlite3_close after finalizing statements, and closing failures.
- StHandle.Statement.DoExecute: a statement handle without a statement (result 0). The rows and the error that end an execution are arbitrary and fixed when it starts, but for rollbacks.
- StHandle.Statement.DoFetch: column types, chopped blanks and encodings.
- IsNumber.IsNumber: the 32-bit build; atoll saturates out of range, where the C standard leaves it open; the float answer depends on libc and is a parameter.
- Binding.ParamList.BindPh: what Perl makes of a type read as a text, or of a value read as a type, is a parameter.
- SqlScan.ScanAgreesExactly: texts with a name after TRANSACTION, or with semicolons before the statement.
- perl_tokenizer_Next and the full-text tokenizers.

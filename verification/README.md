# ArchiveMint explorer pages, modelled in Dafny

ArchiveMint's front end is a blockchain explorer for archived web pages. This
project models the logic of three of its pages and proves properties of it.
The logic is small and pure; the pages themselves are templates, styles and
animations.

- **Block visualizer** (`blocks.dfy`, module `BlockVisualizer`). The page keeps
  a newest-first list of blocks and a hash-filtered projection of it. It also
  derives a "recent transactions" strip: at most ten transactions with
  distinct ids, taken from the first six shown blocks. A poll prepends the
  fetched blocks that are taller than the current head. Scrolling to the end
  appends the block just below the tail. Clicking a transaction finds the
  first shown block that holds it.
- **Stored files** (`storedfiles.dfy`, module `StoredFiles`). Each archived
  file name is read as a fourteen-digit `YYYYMMDDhhmmss` stamp plus a title.
  Names without a stamp are dated with the current clock. The table has a
  case-insensitive search and a sort by day that toggles its direction on
  each click.
- **Storage-contract details** (`contractdetails.dfy`, module
  `ContractDetails`). This covers which server calls the page makes for its
  query parameters, and what it shows for each outcome of those calls. It
  also covers how a file length is given a unit: base 1000, at most
  terabytes.

Support modules:

- `common.dfy` (`Common`): oracle results, plus the JavaScript string
  operations the pages use (`toLowerCase`, `trim`, `includes`, first-match
  `replace`, decimal rendering, `padStart`).
- `seqs.dfy` (`Seqs`): order-preserving filtering and a stable sort by an
  integer key in either direction. `Array.prototype.sort` is stable, so same-key
  elements keep their order.
- `dates.dfy` (`Dates`): Gregorian day numbers, standing in for
  `Date.prototype.getTime` on the ISO date the sort builds.

Every server call is an input to the model. An answer is `Ok(value)` when the
promise resolved and `Err` when it rejected. A possibly absent answer
(`null`/`undefined`) is `Option`. Per-file answers and per-file clock readings
are functions of the file's position. The page state is an immutable record,
and each handler is a function from the old state and its inputs to the new
state.

Title example: the code takes a stamped name's title from position 15,
which skips the character at position 14. So
`20230615142233reportA.html` gets the title `eportA`
(`StoredFiles.ReportExample`).

## Model

| member | source | states |
|---|---|---|
| BlockVisualizer.Init | src/app/components/block-visualizer.component.ts:413-417 | On a successful fetch the held list is the fetched blocks reordered: a permutation, newest first. Blocks of equal height keep their fetched order. The shown list equals the held list, and the strip is derived from it. A missing answer gives no blocks. |
| BlockVisualizer.InitConsistent | src/app/components/block-visualizer.component.ts:414-417 | Right after opening, the shown list and the strip agree with what the empty search box derives from the held blocks. |
| BlockVisualizer.FilterBlocks | src/app/components/block-visualizer.component.ts:458-463 | A blank trimmed term shows every block. Otherwise a block is shown exactly when its lower-cased hash contains the trimmed, lower-cased term. Each matching block is shown as many times as it is held, and a non-matching one never. |
| BlockVisualizer.FilterBlocksSublist | src/app/components/block-visualizer.component.ts:461 | The shown blocks keep the held list's order: they are an order-preserving sublist of it. |
| BlockVisualizer.FilterBlocksIdempotent | src/app/components/block-visualizer.component.ts:458-463 | Filtering the filtered list again with the same search text changes nothing. |
| BlockVisualizer.Search | src/app/components/block-visualizer.component.ts:458-462 | Typing a search re-derives the shown list and the strip from the held blocks. It changes neither the held blocks nor the flags. |
| BlockVisualizer.RecentTransactions | src/app/components/block-visualizer.component.ts:496-513 | The strip holds at most ten transactions. Their ids are non-empty and pairwise distinct, and each one comes from one of the first min(6, shown) blocks. |
| BlockVisualizer.DedupSpec | src/app/components/block-visualizer.component.ts:497-507 | The collected transactions have distinct, non-empty ids and come from the stream. Every non-empty id of the stream is represented. |
| BlockVisualizer.DedupFirstOccurrences | src/app/components/block-visualizer.component.ts:503-505 | The collected transactions sit at increasing stream positions, and each position is the first one carrying that id. So the strip lists the ids in the order of their first occurrence; for the stream [A, B, A] it is [A, B], never [B, A]. |
| BlockVisualizer.CapReached | src/app/components/block-visualizer.component.ts:506-509 | Once ten transactions are collected, the rest of the stream has no effect on the strip. |
| BlockVisualizer.StopAtCap | src/app/components/block-visualizer.component.ts:506-509 | Stopping both loops when the cap is reached inside a block gives the same strip as the full first-ten definition. |
| BlockVisualizer.ScanBlock | src/app/components/block-visualizer.component.ts:502-508 | The inner loop collects each transaction that has a new non-empty id, and keeps the id set equal to the ids collected. When the strip fills up, the loop stops right after the transaction that made it ten: the prefix before that transaction collects fewer than ten. Otherwise it scans the whole block. |
| BlockVisualizer.UpdateRecentTransactions | src/app/components/block-visualizer.component.ts:496-513 | The nested loop with its two early exits computes exactly the first ten distinct ids of the first six shown blocks' transactions. |
| BlockVisualizer.NewerFacts | src/app/components/block-visualizer.component.ts:430-437 | The prepended blocks are exactly the batch's blocks taller than the old head: a permutation of them, all taller, newest first. |
| BlockVisualizer.Merge | src/app/components/block-visualizer.component.ts:430-437 | The old held list survives untouched as a suffix. The new front is exactly the batch's blocks above the old head (-1 when nothing is held), newest first. |
| BlockVisualizer.MergeGrowsIff | src/app/components/block-visualizer.component.ts:433-437 | The merge inserts something exactly when some fetched block is taller than the old head. |
| BlockVisualizer.MergeNonIncreasing | src/app/components/block-visualizer.component.ts:430-437 | A newest-first list stays newest-first after a merge. |
| BlockVisualizer.MergeStrictlyDecreasing | src/app/components/block-visualizer.component.ts:430-437 | Heights stay pairwise distinct after a merge when the batch's own heights are distinct. |
| BlockVisualizer.DuplicateHeightExample | src/app/components/block-visualizer.component.ts:430-437 | Duplicates within a batch are not removed. Two new blocks of one height are both inserted, and the later one ends up in front. |
| BlockVisualizer.MergeByUnshift | src/app/components/block-visualizer.component.ts:430-437 | The loop that sorts ascending and unshifts each block above the captured head builds exactly the merge. Its flag is raised exactly when some fetched block is taller than the head. |
| BlockVisualizer.UnshiftStep | src/app/components/block-visualizer.component.ts:436-438 | One loop iteration puts the block in front exactly when it is above the head. |
| BlockVisualizer.NewerExample | src/app/components/block-visualizer.component.ts:430-437 | With a head at 100, of the batch [99, 100, 101] only 101 counts as new. |
| BlockVisualizer.PollExample | src/app/components/block-visualizer.component.ts:430-437 | Holding [100, 99, 98], a poll answering [99, 100, 101] gives [101, 100, 99, 98]. |
| BlockVisualizer.Poll | src/app/components/block-visualizer.component.ts:427-443 | A rejected, absent or empty batch changes nothing. Otherwise the held list becomes the merge, and the shown list and the strip are re-derived. The block flag is raised exactly when a block was inserted, and the strip flag exactly when the strip grew. Both flags stay raised if they already were. |
| BlockVisualizer.Settle | src/app/components/block-visualizer.component.ts:445-450 | The reset after an animated poll lowers both flags. Every list, the search text and the loading flag stay as they were. |
| BlockVisualizer.OlderRequest | src/app/components/block-visualizer.component.ts:480-482 | The request is for one below the tail's height, and only when that is at least 0. An empty list requests nothing. |
| BlockVisualizer.BeginLoad | src/app/components/block-visualizer.component.ts:477-478 | A call while loading does nothing. Otherwise the loading flag is raised and the older request is issued. |
| BlockVisualizer.FinishLoad | src/app/components/block-visualizer.component.ts:479-493 | A returned block is appended at the tail and the shown list and strip are re-derived. Any other outcome changes nothing but the flag. The loading flag always ends lowered. |
| BlockVisualizer.OnScroll | src/app/components/block-visualizer.component.ts:469-494 | Scrolling while loading, with a non-empty search text, or away from the end does nothing; so does a tail with nothing below it. When the guard passes, a request is made and a block comes back, that block is appended at the tail and the shown list and strip are re-derived. The held list never changes in any other way. A failed or empty load leaves the state exactly as it was. Loading ends lowered, and the search text and animation flags are kept. |
| BlockVisualizer.OnScrollNonIncreasing | src/app/components/block-visualizer.component.ts:480-486 | When the returned block is not taller than the tail, the list stays newest first. |
| BlockVisualizer.OperationsKeepConsistent | src/app/components/block-visualizer.component.ts:441-486 | Searching, polling, loading and the flag reset all keep the shown list and the strip derived from the held blocks and the search text. |
| BlockVisualizer.FindContainingBlock | src/app/components/block-visualizer.component.ts:515-518 | The result is nothing exactly when no shown block holds a transaction with that id. Otherwise it is the first shown block that does. |
| StoredFiles.FormatFileName | src/app/components/stored-files.component.ts:488-512 | A stamped name gives a 19-character date-time. Its title is the text from position 15 on, with one ".html" (five characters) removed when present, and kept whole otherwise. An unstamped name keeps its full text as title. |
| StoredFiles.StampRoundTrip | src/app/components/stored-files.component.ts:489-499 | The rendered date-time of a stamped name loses nothing: the fourteen-digit stamp is read back from it exactly. The characters between the fields are '/', '/', ' ', ':' and ':'. |
| StoredFiles.TitleRoundTrip | src/app/components/stored-files.component.ts:500 | Putting ".html" back where its first occurrence was restores the text from position 15 on. If there was none, the title is that text. |
| StoredFiles.StampDate | src/app/components/stored-files.component.ts:489-499 | A stamped name's row sorts by the stamp's year, month and day. |
| StoredFiles.ClockDate | src/app/components/stored-files.component.ts:503-511 | An unstamped name's row sorts by the clock's year, month and day. |
| StoredFiles.ClockLength | src/app/components/stored-files.component.ts:503-511 | For a clock in years 1000 to 9999, an unstamped name's date-time is exactly nineteen characters, so with `ClockDate` and `ClockTime` nothing else appears between the clock date and the clock time. |
| StoredFiles.ClockTime | src/app/components/stored-files.component.ts:507-510 | An unstamped name's date-time ends in " hh:mm:ss", and the three fields read back as the clock's hours, minutes and seconds. |
| StoredFiles.ReportExample | src/app/components/stored-files.component.ts:488-501 | "20230615142233reportA.html" gives "15/06/2023 14:22:33" and the title "eportA". |
| StoredFiles.UncheckedStampExample | src/app/components/stored-files.component.ts:489-499 | Stamps are not range-checked: fourteen nines give "99/99/9999 99:99:99". |
| StoredFiles.BareStampExample | src/app/components/stored-files.component.ts:500 | A name that is only a stamp has an empty title. |
| StoredFiles.DoubleExtensionExample | src/app/components/stored-files.component.ts:500 | Only the first ".html" is removed. |
| StoredFiles.MakeRow | src/app/components/stored-files.component.ts:426-431 | A row keeps the original name and its storers, counts them, and carries what the name formats to. |
| StoredFiles.InitKeepsNames | src/app/components/stored-files.component.ts:423-431 | When every lookup succeeds, the rows' original names are exactly the raw list, in order, and each storer count is the size of that name's storer list. |
| StoredFiles.Init | src/app/components/stored-files.component.ts:420-440 | Rows follow the raw list's order, one per name, each built from that name's storers and clock reading. Any failed lookup, a failed list fetch or an absent list leaves both lists empty. Search and direction start blank and ascending. |
| StoredFiles.ApplyFilters | src/app/components/stored-files.component.ts:442-446 | Only rows whose lower-cased title or date-time contains the lower-cased, untrimmed term are shown. An empty term shows every file in fetch order. The files themselves are untouched. |
| StoredFiles.ApplyFiltersExact | src/app/components/stored-files.component.ts:443-446 | Every matching file is shown as often as it is held, non-matching ones never, in fetch order. |
| StoredFiles.SearchIgnoresCase | src/app/components/stored-files.component.ts:444-445 | Lower-casing the search term first changes nothing. |
| StoredFiles.InitMatchesSearch | src/app/components/stored-files.component.ts:433 | The list shown on opening is what the empty search shows. |
| StoredFiles.SortByDate | src/app/components/stored-files.component.ts:450-456 | The shown rows are permuted into calendar-day order, ascending when the flag was set and descending otherwise. Same-day rows keep their order. The flag flips and the files are untouched. |
| StoredFiles.TimeOfDayIgnored | src/app/components/stored-files.component.ts:452-453 | Date-times with the same day part get the same sort key, whatever their time. |
| StoredFiles.SortByDateUnique | src/app/components/stored-files.component.ts:451-455 | Any day-ordered arrangement that keeps same-day rows in their shown order is the one the sort produces. |
| StoredFiles.SortByDateTwice | src/app/components/stored-files.component.ts:450-456 | Two clicks sort the rows in the second direction only. The flag is back where it started. |
| StoredFiles.SearchForgetsSort | src/app/components/stored-files.component.ts:443 | A search after a sort lists the files in fetch order again. |
| Dates.DateOf | src/app/components/stored-files.component.ts:452 | A day is read from a date-time exactly when its first word is two digits, '/', two digits, '/', four digits. |
| Dates.MillisOrder | src/app/components/stored-files.component.ts:452-454 | Comparing getTime of two real days is comparing them on the calendar, in both directions. Equal times mean the same day. |
| ContractDetails.Requests | src/app/components/storage-contract-details.component.ts:455-460 | Both calls are made, contract first, exactly when both query parameters are present and non-empty. Otherwise no call is made. |
| ContractDetails.FetchStorageContract | src/app/components/storage-contract-details.component.ts:463-471 | A contract is shown exactly when the call resolved with one. The windows are untouched. |
| ContractDetails.FetchFileProvingWindows | src/app/components/storage-contract-details.component.ts:473-481 | The windows are the resolved list. A rejected call or an absent list gives none. The contract is untouched. |
| ContractDetails.Init | src/app/components/storage-contract-details.component.ts:453-461 | A missing parameter leaves no contract and no windows. |
| ContractDetails.ContractShownIff | src/app/components/storage-contract-details.component.ts:457-470 | A contract is shown exactly when both parameters were given and the server returned one. Then it is that contract. |
| ContractDetails.WindowsShown | src/app/components/storage-contract-details.component.ts:457-480 | The windows shown are the server's list exactly when both parameters were given and a list came back. Otherwise there are none. |
| ContractDetails.WindowsIndependentOfContract | src/app/components/storage-contract-details.component.ts:458-459 | A failed contract call does not stop the window call. The windows shown do not depend on its outcome. |
| ContractDetails.FormatFileLength | src/app/components/storage-contract-details.component.ts:483-498 | A length of 0 or less shows "0 Bytes", and 1 to 999 show the plain number with "Bytes". Anything larger is scaled by the largest power of 1000, at most 1000^4, that does not exceed it. |
| ContractDetails.LargestUnitUnique | src/app/components/storage-contract-details.component.ts:490-493 | One length has exactly one unit. |
| ContractDetails.LargestUnitMonotone | src/app/components/storage-contract-details.component.ts:490-493 | A longer file never gets a smaller unit. |
| ContractDetails.ScaledRange | src/app/components/storage-contract-details.component.ts:490-493 | A scaled value is at least 1 of its unit, and below 1000 of it except in terabytes. |
| ContractDetails.PetabyteExample | src/app/components/storage-contract-details.component.ts:486-493 | 1000^5 bytes stay in terabytes. |
| ContractDetails.MegabyteBoundaryExample | src/app/components/storage-contract-details.component.ts:490-493 | 999 999 bytes are kilobytes; 1 000 000 bytes are megabytes. |
| Common.Trim | src/app/components/block-visualizer.component.ts:460 | The result is the text between leading and trailing whitespace. It is empty exactly when the text is all whitespace, and otherwise starts and ends with a non-space. |
| Common.Lower | src/app/components/block-visualizer.component.ts:460 | Each letter A-Z becomes its lower-case form and every other character is kept, with the length preserved. |
| Common.LowerIdempotent | src/app/components/stored-files.component.ts:444 | Lower-casing twice is lower-casing once. |
| Common.IndexOf | src/app/components/stored-files.component.ts:500 | The first occurrence of the pattern is found exactly when the text contains it. |
| Common.RemoveFirstAt | src/app/components/stored-files.component.ts:500 | A string-pattern replace removes the first occurrence and nothing else. |
| Common.ValueOfDecimal | src/app/components/stored-files.component.ts:504 | Reading back a rendered number gives the number. |
| Common.Pad2 | src/app/components/stored-files.component.ts:505-509 | A number below 100 is rendered as exactly two digits with its value. |
| Seqs.KeepMembers | src/app/components/block-visualizer.component.ts:461 | An element is kept exactly when it is in the list and passes the predicate. |
| Seqs.KeepCount | src/app/components/stored-files.component.ts:443 | Filtering keeps every copy of a passing element and none of a failing one. |
| Seqs.SortBy | src/app/components/block-visualizer.component.ts:415 | The sort is a permutation, ordered by the key in the requested direction. |
| Seqs.SortByStable | src/app/components/block-visualizer.component.ts:415 | Elements with the same key keep their relative order. |
| Seqs.SortedUnique | src/app/components/stored-files.component.ts:451 | Two key-ordered lists with the same same-key groups are equal. |
| Seqs.ReverseSnoc | src/app/components/block-visualizer.component.ts:436-437 | Putting an element in front of a reversed list is reversing the list with the element appended, which is how the unshift loop builds the newest-first front. |
| Seqs.ResortForgetsEarlierSort | src/app/components/stored-files.component.ts:451 | Sorting a sorted list again depends only on the original and the second direction. |

## Left out

- Server calls, `console` logging and router navigation are not modelled. Server answers are inputs; navigation is reduced to the block `FindContainingBlock` returns. The service layer, the top-level app component and `StorersDialogComponent` are not part of this model.
- Timers are not modelled. The 15 s poll interval and the 600 ms reset are not represented; the caller decides when `Poll` and `Settle` are applied, and `Settle` is the reset's effect. Polling starts only after the first fetch resolves: after a rejected first fetch, `Poll` is never applied. The model has no overlapping poll ticks and no interleaving of a poll with an older-block load. Each handler runs to completion.
- Pixel arithmetic is out: `onScroll`'s end-of-list test is the boolean input `atEnd`.
- Templates, styles and animations are out; only the animation flags are kept.
- Blocks and transactions keep only the fields the logic reads. A block's transactions are always a list, so the `block?.transactions?.length` guard has no missing case.
- Common.Lower: lower-cases ASCII letters only. `toLowerCase` also maps other Unicode letters, and the model does not include Unicode case tables.
- Common.Trim: recognises ASCII whitespace, no-break space and the byte-order mark only. `trim` also strips the other Unicode space separators and line terminators.
- ContractDetails.FormatFileLength: a scaled length is returned as the exact length with its unit, `Scaled(bytes, unitIndex)`. Its text is left out because `toFixed(2)` is floating-point rendering. Lengths are integers, so `Math.round` on a byte count is the identity; non-integer lengths are not modelled.
- StoredFiles.SortByDate: requires every shown date-time to name a real calendar day. A date-time that names no real day (a malformed one, or a well-shaped one such as 31/02/2023 from an unchecked stamp) gives an engine-dependent or `NaN` key; that ordering is left out. The key is `getTime()` minus the constant offset of 1 January 1970, which cancels in every comparison.
- StoredFiles.ClockDate: stated for clock years 1000 to 9999 only. Other years render with other than four digits and do not read back as a date.
- StoredFiles.Init: the clock reading for an unstamped name is the input `clockAt(i)`; local time zones are not modelled.
- String positions count Unicode scalar values, while JavaScript's `slice`, `length` and `padStart` count UTF-16 code units. For names with characters outside the Basic Multilingual Plane the positions differ. For example, after a stamp followed by an emoji and "x", `slice(15)` keeps a lone low surrogate before "x", where `AfterStamp` gives "x". Surrogate pairs are not modelled.
- StoredFiles.ClockTime: stated for clock fields below 100, which real clock readings always are.

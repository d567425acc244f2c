# crpt-api: the request limiters and the argument guards of `CrptApi`

This project models the core of `CrptApi`, a Java client for the Russian
"Chestny ZNAK" goods-marking API. The client lets its callers through a
request limiter before each call. Two limiters come with it:

- `SlidingWindowRateLimiter` records at most `limit` admission instants in
  any trailing window of `windowNanos`. It keeps the instants of the recent admissions in
  a ring buffer of exactly `limit` slots. A caller prunes the expired
  instants from the head of the ring. While the ring is full, it waits on a
  condition until the oldest instant expires. Then it writes its own instant
  at the tail and wakes nobody, one waiter or every waiter, depending on how
  many slots its prunes freed.
- `FixedWindowSemaphoreLimiter` admits at most `limit` callers per window.
  It counts them with a semaphore of `limit` permits. The window rolls over
  lazily: only a caller that finds no permit left takes the lock, reads the
  clock and restores the permits once the window has elapsed. Otherwise the
  caller waits for the window to end.

The model also covers the client's argument guards (`isBlank`,
`requireNotBlank`, `requirePositive`, `requireNotNull`, `normalizePath`,
`normalizeFormatKey`), its document check `validate`, and its converter
registry (`registerConverter`, `freezeConvertersIfNeeded`). These are
plumbing next to the limiters, but the limiters' constructors and the
registry rely on the guards, and `validate` decides which documents reach
the network.

Files and modules:

- `Wrappers.dfy`: Java's `null` is `Option`, and the exceptions thrown are
  `Error` values inside `Result` and `Outcome`.
- `Strings.dfy`: `String.trim`, blankness, the `require*` guards and the two
  normalisers.
- `Validation.dfy`: `validate`. It is specified twice: as the ordered list of
  violations it reports, and independently as the predicate `WellFormed`.
- `Converters.dfy`: the registry. It is a class whose map and `frozen` flag
  the methods update.
- `Timeline.dfy`: admission histories, the two equivalent forms of the
  sliding bound, and the `Step` oracle.
- `Ring.dfy`: the ring-buffer invariant over an array of slots.
- `SlidingHistory.dfy`: the history invariant of the sliding limiter.
- `SlidingWindow.dfy`: the sliding limiter. It is a class over an `array`
  holding the ring, with ghost fields for the full admission history.
- `FixedWindow.dfy`: the fixed limiter. It is a class whose permit count
  stands for the semaphore.
- `Scenarios.dfy`: single-caller runs that mirror the repository's limiter
  tests, each with its concrete outcome.

Time is a natural number of nanoseconds. One call of `acquire` runs under
the lock it holds. The clock and the condition variable are an oracle: the
caller's first clock reading is a parameter, and so is one `Step` for each
later wait or reading. A `Step` says how far the clock moved and whether the
caller was interrupted. When the oracle runs out of steps, every further
wait runs to its timeout. That case is the "quiet" run, in which no other
caller intervenes.

## Model

| member | source | states |
|---|---|---|
| Strings.TrimStart | src/main/java/org/nikolait/crptapi/CrptApi.java:478-480 | the result is a suffix of the input; every character dropped is at most U+0020; the result starts with a character trim keeps, or is empty |
| Strings.TrimEnd | src/main/java/org/nikolait/crptapi/CrptApi.java:478-480 | the result is a prefix of the input; every character dropped is at most U+0020; the result ends with a character trim keeps, or is empty |
| Strings.Trim | src/main/java/org/nikolait/crptapi/CrptApi.java:478-480 | `trim()` gives the empty string exactly when every character is at most U+0020; otherwise the trimmed string starts and ends with a character trim keeps |
| Strings.IsBlank | src/main/java/org/nikolait/crptapi/CrptApi.java:478-480 | a value is blank when it is null or all of its characters are at most U+0020 (the definition; `BlankIffTrimEmpty` ties it to `trim()`) |
| Strings.BlankIffTrimEmpty | src/main/java/org/nikolait/crptapi/CrptApi.java:478-480 | `IsBlank` holds exactly when the value is null or `value.trim().isEmpty()` |
| Strings.RequireNotBlank | src/main/java/org/nikolait/crptapi/CrptApi.java:473-476 | returns the value itself exactly when it is not blank; otherwise `IllegalArgumentException("<name> must not be blank")` |
| Strings.RequirePositive | src/main/java/org/nikolait/crptapi/CrptApi.java:468-471 | returns the value itself exactly when it is > 0; otherwise `IllegalArgumentException("<name> must be > 0")` |
| Strings.RequireNotNull | src/main/java/org/nikolait/crptapi/CrptApi.java:464-466 | returns the value exactly when it is not null; otherwise `NullPointerException("<name> must not be null")` |
| Strings.NormalizePath | src/main/java/org/nikolait/crptapi/CrptApi.java:449-452 | succeeds exactly on a non-blank path; the result starts with '/'; it is the path itself, or the path with '/' put in front; a path already starting with '/' is kept as it is; a blank path fails with the `createPath` message |
| Strings.NormalizePathIdempotent | src/main/java/org/nikolait/crptapi/CrptApi.java:449-452 | normalising a normalised path gives it back unchanged |
| Strings.UpperChar | src/main/java/org/nikolait/crptapi/CrptApi.java:482-484 | no lower-case letter comes out; a lower-case letter becomes the same letter in upper case; any other character is kept; a character trim drops stays droppable |
| Strings.ToUpperCase | src/main/java/org/nikolait/crptapi/CrptApi.java:482-484 | the result has no lower-case letter and equals the input up to case |
| Strings.NormalizeFormatKey | src/main/java/org/nikolait/crptapi/CrptApi.java:482-484 | succeeds exactly on a non-blank format; the key has no lower-case letter and equals the format up to case; a blank format fails with the `format` message |
| Strings.CaseKeepsBlankness | src/main/java/org/nikolait/crptapi/CrptApi.java:482-484 | two strings equal up to case are blank together |
| Strings.UpperCaseIsFixed | src/main/java/org/nikolait/crptapi/CrptApi.java:482-484 | a string with no lower-case letter is its own upper-casing |
| Strings.FormatKeyIgnoresCase | src/main/java/org/nikolait/crptapi/CrptApi.java:482-484 | two formats that differ only in letter case are both rejected, or both give the same key |
| Strings.FormatKeyIdempotent | src/main/java/org/nikolait/crptapi/CrptApi.java:482-484 | a key is its own normalisation |
| Strings.DecimalString | src/main/java/org/nikolait/crptapi/CrptApi.java:516 | the printed index is a non-empty string of decimal digits |
| Strings.Join | src/main/java/org/nikolait/crptapi/CrptApi.java:527 | joining no messages gives the empty string, and joining one message gives that message |
| Validation.Messages | src/main/java/org/nikolait/crptapi/CrptApi.java:495-521 | one message per violation, in the same order, each with the text the source adds |
| Validation.Violations | src/main/java/org/nikolait/crptapi/CrptApi.java:493-524 | a required field is reported exactly when it is blank; "products must not be empty" is reported exactly when the list is null or empty; every product report names the index of a product in the list; a present product is reported for its tnved code exactly when that code is blank, and for its uit/uitu codes exactly when both or neither is filled |
| Validation.ProductViolationsAtEmptyIffValid | src/main/java/org/nikolait/crptapi/CrptApi.java:515-522 | a product adds no message exactly when its tnved code is filled and exactly one of its uit and uitu codes is (a null product is never checked) |
| Validation.InOrderEmptyIff | src/main/java/org/nikolait/crptapi/CrptApi.java:513-523 | the messages of the loop over products are empty exactly when each product's own messages are |
| Validation.ProductViolationsEmptyIffValid | src/main/java/org/nikolait/crptapi/CrptApi.java:513-523 | the first n products add no message exactly when each of them is valid or null |
| Validation.FieldViolationsEmptyIffFilled | src/main/java/org/nikolait/crptapi/CrptApi.java:493-507 | the first n required-field checks add no message exactly when those fields are all non-blank |
| Validation.FieldIndex | src/main/java/org/nikolait/crptapi/CrptApi.java:493-507 | every required field is among the nine checks, at its position in checking order |
| Validation.HeaderViolationsEmptyIffFilled | src/main/java/org/nikolait/crptapi/CrptApi.java:493-507 | the checks outside the product list add nothing exactly when every required field is non-blank |
| Validation.ViolationsEmptyIffWellFormed | src/main/java/org/nikolait/crptapi/CrptApi.java:493-524 | a document yields no violation and has no null product exactly when it is well formed: all nine fields filled, and the product list non-empty with every product present and valid |
| Validation.BlankFieldReported | src/main/java/org/nikolait/crptapi/CrptApi.java:493-507 | a blank required field is always reported under its own name |
| Validation.FieldViolationsOnlyBlank | src/main/java/org/nikolait/crptapi/CrptApi.java:493-507 | the required-field checks report nothing but blank fields, each under its own name |
| Validation.HeaderReportsExactlyBlank | src/main/java/org/nikolait/crptapi/CrptApi.java:493-507 | the checks outside the product list report a field exactly when it is blank, and report nothing else |
| Validation.AmbiguousCodesReported | src/main/java/org/nikolait/crptapi/CrptApi.java:518-522 | a present product with both identification codes, or with neither, is reported by its index |
| Validation.MissingTnvedReported | src/main/java/org/nikolait/crptapi/CrptApi.java:515-517 | a present product without a tnved code is reported by its index |
| Validation.ProductViolationsInRange | src/main/java/org/nikolait/crptapi/CrptApi.java:513-523 | every product violation names the index of a product that was checked |
| Validation.ProductReportsExactlyInvalid | src/main/java/org/nikolait/crptapi/CrptApi.java:513-523 | among the checked products, a present product is reported for its tnved code exactly when that code is blank, and for its identification codes exactly when `hasUit == hasUitu` |
| Validation.Validate | src/main/java/org/nikolait/crptapi/CrptApi.java:487-529 | a null document throws "document must not be null"; a product list holding a null throws `NullPointerException`; otherwise it throws `IllegalArgumentException` with the messages joined by "; " exactly when there is a violation; it returns normally exactly when the document is well formed |
| Validation.CollectHeaderViolations | src/main/java/org/nikolait/crptapi/CrptApi.java:493-507 | the nine field checks produce, in source order, exactly the violations of the blank fields |
| Validation.AppendProductViolations | src/main/java/org/nikolait/crptapi/CrptApi.java:512-524 | with no null product, the loop appends exactly the violations of each product in index order, with nothing lost from before; a null product ends it with `NullPointerException` |
| Converters.RegisterOutcome | src/main/java/org/nikolait/crptapi/CrptApi.java:436-445 | registration succeeds exactly when the format is not blank, the converter is not null and the registry is not frozen; the checks run in that order |
| Converters.ConverterRegistry.constructor | src/main/java/org/nikolait/crptapi/CrptApi.java:90-92 | a new client's registry holds the JSON converter under "MANUAL" and is not frozen (line 306 of the same file registers it) |
| Converters.ConverterRegistry.Register | src/main/java/org/nikolait/crptapi/CrptApi.java:436-445 | on success the converter is stored under the upper-cased format, replacing any converter already there; on any failure the map is unchanged; the flag never changes; every key stays normalised |
| Converters.ConverterRegistry.FreezeIfNeeded | src/main/java/org/nikolait/crptapi/CrptApi.java:534-540 | the registry is frozen afterwards and its converters are unchanged |
| Converters.ManualIsAKey | src/main/java/org/nikolait/crptapi/CrptApi.java:482-484 | "MANUAL" is its own format key |
| Converters.RegisterIgnoresCase | src/main/java/org/nikolait/crptapi/CrptApi.java:436-445 | formats that differ only in case get the same answer and the same key, so the later registration replaces the earlier |
| Timeline.SortedOrder | src/main/java/org/nikolait/crptapi/CrptApi.java:615-631 | in a list of instants read from a monotone clock, every instant is no earlier than those before it |
| Timeline.GapBoundIffSpanBound | src/main/java/org/nikolait/crptapi/CrptApi.java:589-681 | for a sorted history, "admission k+n comes at least w after admission k" is the same as "no span shorter than w holds more than n admissions" |
| Timeline.SortedAppend | src/main/java/org/nikolait/crptapi/CrptApi.java:626 | appending an instant no earlier than all the others keeps the history sorted |
| Timeline.GapBoundAppend | src/main/java/org/nikolait/crptapi/CrptApi.java:626 | appending an instant at least w after the admission n places back keeps the gap bound |
| RingBuffer.Next | src/main/java/org/nikolait/crptapi/CrptApi.java:637 | stepping a slot stays inside the ring |
| RingBuffer.NextIsSuccessorModulo | src/main/java/org/nikolait/crptapi/CrptApi.java:664 | stepping a slot is adding one modulo the capacity |
| RingBuffer.Slot | src/main/java/org/nikolait/crptapi/CrptApi.java:596-600 | a slot offset by less than two laps lands inside the ring |
| RingBuffer.RingTailIsModulo | src/main/java/org/nikolait/crptapi/CrptApi.java:596-600 | in a valid ring the tail is the head plus the size, modulo the capacity |
| RingBuffer.RingPrune | src/main/java/org/nikolait/crptapi/CrptApi.java:636-639 | the head slot holds the oldest live entry, and stepping the head past it leaves a valid ring of the rest |
| RingBuffer.RingAppend | src/main/java/org/nikolait/crptapi/CrptApi.java:662-666 | writing at the tail of a ring with a free slot and stepping the tail adds the entry as the newest and overwrites no live entry |
| SlidingHistory.HistoryObserve | src/main/java/org/nikolait/crptapi/CrptApi.java:618 | a later clock reading keeps the history valid |
| SlidingHistory.HistoryPrune | src/main/java/org/nikolait/crptapi/CrptApi.java:636-639 | counting an oldest entry that has left the window as expired keeps the history valid |
| SlidingHistory.HistoryAppend | src/main/java/org/nikolait/crptapi/CrptApi.java:626 | admitting at the current reading while fewer than `limit` entries are live keeps the history valid, including the gap bound |
| SlidingHistory.HistorySpan | src/main/java/org/nikolait/crptapi/CrptApi.java:586-589 | sliding bound: in a valid history no span shorter than the window holds more than `limit` admissions |
| SlidingWindow.Prune | src/main/java/org/nikolait/crptapi/CrptApi.java:634-642 | the count pruned is the longest expired prefix: the last instant pruned has expired, and the first instant kept has not |
| SlidingWindow.PrunedHaveExpired | src/main/java/org/nikolait/crptapi/CrptApi.java:634-642 | every pruned instant is at least a window old |
| SlidingWindow.CutIsPrune | src/main/java/org/nikolait/crptapi/CrptApi.java:634-642 | in a sorted history there is only one place where expired instants end and live ones begin, and the prune stops there |
| SlidingWindow.PruneKeepsOnlyRecent | src/main/java/org/nikolait/crptapi/CrptApi.java:634-642 | in a sorted history every instant the prune keeps is inside the window |
| SlidingWindow.SignalOnRemoved | src/main/java/org/nikolait/crptapi/CrptApi.java:670-676 | nobody is woken when nothing was removed; one waiter is woken when one slot was freed; all waiters are woken when more were freed (each an if-and-only-if) |
| SlidingWindow.QuietAdmission | src/main/java/org/nikolait/crptapi/CrptApi.java:615-631 | the quiet admission is no earlier than the first reading, and is later exactly when the ring is still full after the first prune |
| SlidingWindow.WaitOutcome | src/main/java/org/nikolait/crptapi/CrptApi.java:648-656 | an interruption cancels exactly when a wait was needed; the reading never goes back and never passes a pending deadline; a timed-out wait answers exactly the deadline; a wait woken early answers the fresh reading `now + elapsed`; with no wait needed, the answer is a fresh reading |
| SlidingWindow.LateTimeoutRecordsDeadline | src/main/java/org/nikolait/crptapi/CrptApi.java:648-656 | a wait from 10 toward a deadline of 100 that resumes at 150 is recorded at 100, and a caller at 200 then passes at once under one per 100 |
| SlidingWindow.SlidingWindowLimiter.constructor | src/main/java/org/nikolait/crptapi/CrptApi.java:606-612 | an empty, valid ring of exactly `limit` slots |
| SlidingWindow.SlidingWindowLimiter.Create | src/main/java/org/nikolait/crptapi/CrptApi.java:602-612 | succeeds exactly when both arguments are positive; rejects the window first and then the limit, each with `IllegalArgumentException` naming it |
| SlidingWindow.SlidingWindowLimiter.IsFull | src/main/java/org/nikolait/crptapi/CrptApi.java:644-646 | in a valid limiter the ring is full exactly when every slot is taken, that is when `limit` recorded admissions are not yet pruned |
| SlidingWindow.SlidingWindowLimiter.OldestDeadline | src/main/java/org/nikolait/crptapi/CrptApi.java:658-660 | the instant at which the oldest live admission expires |
| SlidingWindow.SlidingWindowLimiter.PruneExpired | src/main/java/org/nikolait/crptapi/CrptApi.java:634-642 | afterwards exactly the expired prefix of the history is pruned; the count returned is how many entries left the ring; the ring stays valid |
| SlidingWindow.SlidingWindowLimiter.Advance | src/main/java/org/nikolait/crptapi/CrptApi.java:636-639 | one loop step of the prune: the head advances one slot and the size drops by one |
| SlidingWindow.SlidingWindowLimiter.Append | src/main/java/org/nikolait/crptapi/CrptApi.java:662-666 | the instant becomes the newest entry of a valid ring, and the size grows by one |
| SlidingWindow.SlidingWindowLimiter.WaitForNextExpiry | src/main/java/org/nikolait/crptapi/CrptApi.java:648-656 | answers `WaitOutcome` for the oldest live admission's deadline |
| SlidingWindow.SlidingWindowLimiter.WaitThenPrune | src/main/java/org/nikolait/crptapi/CrptApi.java:622-623 | one turn of the wait loop; an interrupted wait changes nothing; a wait that reaches the deadline frees at least one slot |
| SlidingWindow.SlidingWindowLimiter.AwaitRoom | src/main/java/org/nikolait/crptapi/CrptApi.java:621-624 | progress when full: the loop ends with a free slot, unless a wait is interrupted; in a quiet run it ends at once or at the oldest deadline; an interruption in the first wait cancels; a cancelled loop pruned nothing and leaves the ring full |
| SlidingWindow.SlidingWindowLimiter.Admit | src/main/java/org/nikolait/crptapi/CrptApi.java:626-627 | records the instant and sends `SignalOnRemoved` of the slots freed; at most `limit` admissions lie in the window ending at it |
| SlidingWindow.SlidingWindowLimiter.Acquire | src/main/java/org/nikolait/crptapi/CrptApi.java:615-631 | an admitted caller adds its own instant, no earlier than its first reading; all its prunes together drop exactly the instants expired at its admission; it wakes waiters by the slots freed; at most `limit` admissions lie in the window ending at it; a cancelled caller leaves the history, the pruned count and the ring size unchanged; the quiet admission instant is `QuietAdmission`; an interruption in the first wait cancels |
| FixedWindow.WaitNanos | src/main/java/org/nikolait/crptapi/CrptApi.java:729-730 | the wait is positive exactly when the window has not elapsed, and it ends at the end of the window |
| FixedWindow.QuietAdmission | src/main/java/org/nikolait/crptapi/CrptApi.java:717-733 | a caller with no permit left passes at once exactly when the window has elapsed; otherwise it passes exactly at the window's end |
| FixedWindow.CountAfter | src/main/java/org/nikolait/crptapi/CrptApi.java:688-738 | the count of admissions after an instant is at most the number of admissions; it is zero exactly when none is later, and all of them exactly when every one is later |
| FixedWindow.CountAfterAtMost | src/main/java/org/nikolait/crptapi/CrptApi.java:688-738 | when all admissions except the last k are at or before t, at most k come after t |
| FixedWindow.HistoryObserve | src/main/java/org/nikolait/crptapi/CrptApi.java:718 | a later clock reading keeps the history valid |
| FixedWindow.HistoryRollover | src/main/java/org/nikolait/crptapi/CrptApi.java:720-725 | rolling an elapsed window over starts an empty window at the reading, and the history stays valid |
| FixedWindow.HistoryAdmit | src/main/java/org/nikolait/crptapi/CrptApi.java:713 | taking a permit left in the current window keeps the history valid, including the bound of 2*limit per window-length span |
| FixedWindow.WindowHoldsAtMostLimit | src/main/java/org/nikolait/crptapi/CrptApi.java:688-738 | at most `limit` admissions come after the start of the current window |
| FixedWindow.FixedWindowLimiter.constructor | src/main/java/org/nikolait/crptapi/CrptApi.java:702-709 | all `limit` permits are available, and the window starts at the construction reading |
| FixedWindow.FixedWindowLimiter.Create | src/main/java/org/nikolait/crptapi/CrptApi.java:698-709 | succeeds exactly when both arguments are positive; rejects the window first and then the limit, each with `IllegalArgumentException` naming it |
| FixedWindow.FixedWindowLimiter.TryAcquire | src/main/java/org/nikolait/crptapi/CrptApi.java:713 | takes a permit exactly when one is left, and that admits the caller; otherwise nothing changes |
| FixedWindow.FixedWindowLimiter.RollOverIfElapsed | src/main/java/org/nikolait/crptapi/CrptApi.java:720-725 | exactly when the window has elapsed, a new window starts at the reading with all `limit` permits back; otherwise nothing changes |
| FixedWindow.FixedWindowLimiter.Acquire | src/main/java/org/nikolait/crptapi/CrptApi.java:712-737 | the fast path admits at once without touching the window when a permit is left; a slow admission comes only after the window has elapsed, opens a new window there and takes one of its permits; a cancelled call takes no permit and rolls nothing over; the quiet admission instant is `QuietAdmission`; an interruption in the first wait cancels |
| Scenarios.ConstructorsRejectNonPositive | src/main/java/org/nikolait/crptapi/CrptApi.java:602-612 | windows 0 and -1 and limits 0 and -5 are rejected, each naming the bad argument |
| Scenarios.SlidingThirdWaitsForOldest | src/main/java/org/nikolait/crptapi/CrptApi.java:615-631 | with two per 200 and three callers at 0: the first two pass at 0 and the third passes at 200, waking every waiter |
| Scenarios.SlidingRollingWindow | src/main/java/org/nikolait/crptapi/CrptApi.java:615-631 | with two per 150 and admissions at 0 and 120, a caller at 120 passes at 150 and wakes one waiter |
| Scenarios.SlidingInterruptedWait | src/main/java/org/nikolait/crptapi/CrptApi.java:648-656 | a waiter interrupted while the ring is full is cancelled |
| Scenarios.FixedIdleRollover | src/main/java/org/nikolait/crptapi/CrptApi.java:717-727 | with one per 180 and the permit spent at 0, a caller at 220 passes at once |
| Scenarios.FixedSequentialWaits | src/main/java/org/nikolait/crptapi/CrptApi.java:712-737 | with one per 220, callers at 0, 0 and 220 pass at 0, 220 and 440 |
| Scenarios.FixedBoundaryBurst | src/main/java/org/nikolait/crptapi/CrptApi.java:712-737 | with one per 10, callers at 9 and 10 both pass at once: two admissions one nanosecond apart, across a window boundary |
| Scenarios.FixedInterruptedWait | src/main/java/org/nikolait/crptapi/CrptApi.java:729-732 | a caller interrupted while waiting for the window to end is cancelled |

## Left out

- Concurrency is not modelled. That covers the `ReentrantLock`, lock fairness, the lock being released during `awaitNanos`, other threads pruning or rolling over while a caller waits, and the fixed limiter's fast path running outside the lock. Each `acquire` is one caller's run under its own lock, and the oracle stands for everything other threads do to the clock and the wake-ups.
- The wake-ups are recorded as values (`Wake`) and are not delivered to other callers. The fixed limiter's `signalAll` after a rollover is not modelled at all.
- `System.nanoTime` is an oracle of natural numbers. Java's `long` wrap-around, and the subtractions the source writes to survive it, are not modelled.
- The `fairLock` and `fairSemaphore` constructor flags only affect thread scheduling, so they are not modelled.
- `toWindowNanos` and `TimeUnit` conversion are not part of this model. Windows are given in nanoseconds.
- Strings.UpperChar: models `toUpperCase(Locale.ROOT)` for ASCII letters only. Characters outside ASCII keep their case.
- Strings.DecimalString: states only that the result is a non-empty string of digits. That is not Java's full `int`-to-string conversion.
- Strings.Join: states only the empty and single-message cases. For more messages it is `String.join`'s definition, and is not stated separately.
- The HTTP adapter, Jackson serialisation, Base64 encoding and `createDocument` are not part of this model. Note that `createDocument` looks up `converters.get(format)` with the format as given, not the normalised key.
- The sliding limiter's bound is about the instants it records, not the instants callers resume. A wait that times out is recorded at its deadline (CrptApi.java:653), however late the caller resumes; `LateTimeoutRecordsDeadline` shows two callers resuming 50 apart under one admission per 100.
- The message of the `NullPointerException` thrown on a null product is the JVM's, and is not modelled (`NullDereference`).
- The document model is cut down to the fields `validate` reads. Their Jackson annotations are not modelled.

# The tis-interpreter C library in Dafny

The C library that tis-interpreter executes contains a handful of real algorithms. This
project models them and proves what they are for. `dafny verify dfyconfig.toml` checks it.

| file | what it is about |
|---|---|
| `links.dfy`, `queue_runs.dfy`, `tail_queue.dfy`, `singly_queue.dfy`, `list.dfy` | the TAILQ, STAILQ and LIST macros on heap objects, one call at a time and in runs over any number of queues |
| `quicksort.dfy` | the iterative quicksort on sequences: sortedness, termination, the exact capacity of its stack |
| `bytesort.dfy`, `byte_staircase.dfy` | the same algorithm in place on the bytes of an array, with its stack as an object; arrays of bytes it cannot sort |
| `calendar.dfy`, `civil_time.dfy` | a Gregorian calendar stepped one day at a time, and `__secs_to_tm` against it |
| `lanes.dfy`, `rho_walk.dfy`, `round_constants.dfy` | lanes, rotation and the constant tables, against sections 3.2.2 and 3.2.5 of FIPS 202 |
| `keccak.dfy`, `keccak_bits.dfy`, `keccak_in_place.dfy`, `known_answer.dfy` | the Keccak permutation on lanes, as section 3 of FIPS 202 gives it on bits, and in place; two rounds worked out |
| `sponge.dfy`, `sha3_bits.dfy`, `sha3.dfy`, `division.dfy` | the sponge and its padding on bytes, as the standard gives them on bits, and the streaming `sha3` |
| `bytes.dfy`, `digit_table.dfy`, `numerals.dfy`, `strto.dfy`, `written.dfy` | strings in memory, the subject sequence of ISO C11, `strtoull`, `strtoul`, `strtoll`, `strtol`, two versions of `atoi`; numerals as they are written, and that they are read back |
| `memory.dfy`, `compare.dfy`, `search.dfy`, `padding.dfy`, `copy.dfy` | comparing, searching and copying strings, often in two independent versions |
| `env_table.dfy`, `environment.dfy` | the environment table as a list and as a map, and `setenv`, `unsetenv`, `getenv`, `clearenv` on its buffers |
| `limits.dfy` | the ranges of the integer types, as powers of two |

Each program is a method in the form the C code has (loops over arrays, fields updated in
place), with a contract that ties it to a specification function; the lemmas then say what
the specification means.

## How memory and undefined behaviour are modelled

- Queue heads and entries are objects of one class with a `next` and a `prev` field. The
  pointer field comes first in the layout of a head and of an entry, so the address of a
  pointer field is modelled by the object that owns it: writing through such an address is
  writing `.next`, and the cast to the head type in `TAILQ_LAST` and `TAILQ_PREV` is reading
  `.prev`. An entry is identified with the structure that contains it.
- `qsort` returns a flag: it is false when the assertion in `push` fires, and the run ends
  there. The comparator is a pure function of the two blocks.
- `__secs_to_tm` returns `Overflow` where a signed computation in type `int` would leave
  its range, which C leaves undefined.
- `atoi` of `libc.c` returns a flag that is false when its `int` arithmetic overflows.
- `strncat` and `unsetenv` return a flag that is false where the code would write or read
  outside a buffer; the run ends there.
- A string that is only read is the memory from its first byte on, seen up to a NUL; pointers
  into it are offsets. A buffer that is written is an array of any content. `errno` is a
  result that is `Unchanged` when it is not written.
- `memcpy` and `memset` are written as the loops of `libc.c`; `isspace` of `ctype.c` and the
  narrower one of `libc.c` are two predicates.
- The input of `sha3` is read eight bytes at a time by an explicit little-endian load. Bytes of
  `sha3` are bit vectors, since their bits matter; bytes of strings are numbers.

## Where the code is not what its comments or its callers expect

Each of these is stated exactly, by a condition under which the code does what is expected and
without which it does not, and is shown to happen on a concrete input.

- "64 should be enough for every implementations" (share/libc/tis_stdlib.c:212): enough for
  every array of n elements exactly when n is at most 193 (`QuickSort.CapacityIsExact`), and
  `qsort` itself fails on an array of any larger number of elements of four bytes or more
  (`ByteStaircase.QsortFails`).
- "Reject time_t values whose year would overflow int" (share/tis-interpreter/common_time.c:66):
  the guard is too wide at both ends, and the later check on line 109 can only be true after
  an overflow on line 104 or in the check itself (`CivilTime.SecsToTm`, `CivilTime.GuardIsTooWide`).
- `strtoll` returns -1, not LLONG_MIN, for a negative numeral whose magnitude exceeds
  ULLONG_MAX (`StringToNumber.SignedMeetsStandard`, `StringToNumber.HugeNegativeGivesMinusOne`).
- `strtoul` is wrong for negative numerals when `long` is narrower than `long long`: "-2" gives
  ULONG_MAX with ERANGE (`StringToNumber.UnsignedLongMeetsStandard`,
  `StringToNumber.UnsignedLongDiffers`).
- The two versions of `atoi` differ when `\f` or `\v` is among the leading white space
  (`StringToNumber.AtoiVersionsAgree`, `StringToNumber.AtoiVersionsDiffer`); the two of `strstr`
  differ on an empty needle (`Search.StrStrVersionsAgree`, `Search.StrStrVersionsDiffer`).
- `unsetenv` copies the entry it found over the last one, instead of the other way round as
  its comment says, and so drops the last variable (`EnvTable.UnsetRemovesOnlyTheLast`,
  `EnvTable.UnsetRemovesAnother`); when the entry found fills its key or value buffer and is not
  the last, it reads past that buffer (`Environment.EnvironmentArray.UnsetEnv`,
  `Environment.LongNameReadsPast`).
- `strlcpy` writes nothing when there is nothing to copy (`Copying.LCopiedReads`,
  `Copying.EmptyCopyKeepsText`).
- `strncat` puts its NUL at the length of the source even when it copies fewer characters: the
  text is then wrong, and in a buffer with just the room that ISO C asks for the NUL goes outside
  (`Copying.NAppendedReads`, `Copying.StrNCat`, `Copying.LongSourceBreaksPromise`). It also takes
  `strlen` of the source, which ISO C does not require to have a NUL within reach.

## Model

| member | source | states |
|---|---|---|
| `Links.ChainDetermined` | share/libc/sys/queue.h:233-236 | the heap determines the sequence a queue holds: no head starts two different acyclic chains |
| `Links.Foreach` | share/libc/sys/queue.h:233-236 | the FOREACH macros terminate and visit the entries of the queue in order, each once |
| `TailQueue.Init` | share/libc/sys/queue.h:185-188 | makes the empty queue of any head |
| `TailQueue.InsertHead` | share/libc/sys/queue.h:190-198 | prepends, keeping every back pointer and the last pointer exact; touches only head, entry and the old first entry |
| `TailQueue.InsertTail` | share/libc/sys/queue.h:200-205 | appends, through the last pointer |
| `TailQueue.InsertAfter` | share/libc/sys/queue.h:207-215 | inserts behind the k-th entry |
| `TailQueue.InsertBefore` | share/libc/sys/queue.h:217-222 | inserts before the k-th entry without knowing the head |
| `TailQueue.Remove` | share/libc/sys/queue.h:224-231 | deletes the k-th entry, the first and the last included |
| `TailQueue.Concat` | share/libc/sys/queue.h:243-250 | the first queue becomes the concatenation, the second becomes empty, and both stay well formed |
| `TailQueue.PunIsExact` | share/libc/sys/queue.h:259-262 | in every well-formed queue TAILQ_LAST and TAILQ_PREV dereference valid addresses and give the last entry and the predecessor, null at the ends |
| `TailQueue.ForeachReverse` | share/libc/sys/queue.h:238-241 | terminates and visits exactly the reverse of what TAILQ_FOREACH visits |
| `QueueRuns.CallKeepsApart` | share/libc/sys/queue.h:34-250 | a call on one of several queues with no object in common leaves them without one |
| `QueueRuns.JoinKeepsApart` | share/libc/sys/queue.h:146-250 | so does joining one queue onto another |
| `QueueRuns.TailInsertsAppend` | share/libc/sys/queue.h:200-205 | a run of insertions at the tail leaves the entries behind the others in the order of the calls |
| `QueueRuns.HeadInsertsReverse` | share/libc/sys/queue.h:190-198 | a run of insertions at the head leaves them before the others in the opposite order |
| `QueueRuns.HeadRemovalsDrop` | share/libc/sys/queue.h:123-126 | removals at the head take the entries in the order in which they stand |
| `QueueRuns.InsertsNextTo` | share/libc/sys/queue.h:207-222 | an insertion next to an entry puts the new one directly behind or before it |
| `QueueRuns.RemovesOnly` | share/libc/sys/queue.h:224-231 | a removal takes out the one entry and keeps the others in order |
| `QueueRuns.InsertThenRemove` | share/libc/sys/queue.h:190-231 | every call that inserts an entry, followed by its removal, leaves all queues as they were |
| `QueueRuns.JoinAndInit` | share/libc/sys/queue.h:243-250 | a join appends all entries of the second queue and empties it, an initialization empties one queue, and no other queue changes |
| `TailQueue.StepOne` | share/libc/sys/queue.h:185-231 | a call on one of several disjoint queues changes that queue as the sequence operation does and leaves all others alone |
| `TailQueue.StepJoin` | share/libc/sys/queue.h:243-250 | a TAILQ_CONCAT of any queue onto any other one, in the presence of further queues |
| `TailQueue.Run` | share/libc/sys/queue.h:185-250 | every finite run of the macros over any number of queues keeps all of them well formed and disjoint and refines the same run of sequence operations |
| `SinglyQueue.InsertHead` | share/libc/sys/queue.h:105-109 | prepends and keeps the last pointer exact, the empty queue included |
| `SinglyQueue.InsertTail` | share/libc/sys/queue.h:111-115 | appends |
| `SinglyQueue.InsertAfter` | share/libc/sys/queue.h:117-121 | inserts behind the k-th entry |
| `SinglyQueue.RemoveHead` | share/libc/sys/queue.h:123-126 | deletes the first entry; the last pointer returns to the head when the queue becomes empty |
| `SinglyQueue.Remove` | share/libc/sys/queue.h:128-139 | the search loop terminates for every member, which is deleted with the last pointer kept exact |
| `SinglyQueue.Concat` | share/libc/sys/queue.h:146-152 | concatenation that empties the second queue |
| `SinglyQueue.StepOne` | share/libc/sys/queue.h:100-139 | a call on one of several disjoint queues changes that queue as the sequence operation does and leaves all others alone |
| `SinglyQueue.StepJoin` | share/libc/sys/queue.h:146-152 | a STAILQ_CONCAT of any queue onto any other one, in the presence of further queues |
| `SinglyQueue.Run` | share/libc/sys/queue.h:100-152 | every finite run of the STAILQ macros over any number of queues keeps all of them well formed and disjoint, in particular every last pointer exact, and refines the same run of sequence operations |
| `LinkedList.InsertAfter` | share/libc/sys/queue.h:38-44 | inserts behind the k-th entry, every le_prev naming the one pointer to its entry |
| `LinkedList.InsertBefore` | share/libc/sys/queue.h:46-51 | inserts before the k-th entry |
| `LinkedList.InsertHead` | share/libc/sys/queue.h:53-58 | prepends |
| `LinkedList.Remove` | share/libc/sys/queue.h:60-65 | deletes an entry knowing neither head nor position |
| `LinkedList.InsertThenRemove` | share/libc/sys/queue.h:38-65 | an insertion next to any entry and the removal of the inserted entry cancel |
| `LinkedList.StepOne` | share/libc/sys/queue.h:34-65 | a call on one of several disjoint lists leaves all others alone |
| `LinkedList.Run` | share/libc/sys/queue.h:34-65 | every finite run of the LIST macros over any number of lists, entries moving between them included, keeps le_prev exact in all of them and refines the same run of sequence operations |
| `QuickSort.PartitionSeparates` | share/libc/tis_stdlib.c:244-261 | partition rearranges only its segment, places the last element at the returned index, and leaves elements at most it before and elements above it behind, for any comparator |
| `QuickSort.StepDecreases` | share/libc/tis_stdlib.c:269-289 | every iteration of quick_stub decreases twice the pending length plus the number of pending segments |
| `QuickSort.SpacedNeedsRoom` | share/libc/tis_stdlib.c:210-214 | n pending segments of at least two elements with a gap between neighbours need 3n - 1 elements |
| `QuickSort.SpacedPushed` | share/libc/tis_stdlib.c:280-288 | the pushes of an iteration keep pending segments in order, of at least two elements, and separated by a placed element |
| `QuickSort.SettledStep` | share/libc/tis_stdlib.c:269-289 | an iteration keeps the invariant that two elements out of order belong to the same pending segment |
| `QuickSort.InvStep` | share/libc/tis_stdlib.c:269-289 | an iteration keeps the whole invariant, and for at most 193 elements the assertion in push does not fire |
| `QuickSort.StackBound` | share/libc/tis_stdlib.c:210-214 | after any number of iterations at most (n + 1) / 3 segments are pending, or one for n at most 4 |
| `QuickSort.RunSorts` | share/libc/tis_stdlib.c:263-290 | every run ends in a permutation; one that does not hit the assertion sorts by any total preorder; none hits it for at most 193 elements |
| `QuickSort.CompletesExactly` | share/libc/tis_stdlib.c:216-223 | for any array and comparator, the run reaches its end exactly when, on a stack without a capacity, it never holds more than 64 segments |
| `QuickSort.SortedCompletes` | share/libc/tis_stdlib.c:263-290 | a sorted array of any length is sorted again without reaching the assertion |
| `QuickSort.StaircaseOverflows` | share/libc/tis_stdlib.c:216-223 | from a staircase state, with k pairs pending, the run hits the assertion |
| `QuickSort.StaircaseFails` | share/libc/tis_stdlib.c:216-223 | every array of 194 elements or more, of any type, whose numbers are a staircase hits the assertion under a total preorder |
| `QuickSort.CapacityIsExact` | share/libc/tis_stdlib.c:210-214 | 64 slots are enough for all arrays of n elements exactly when n is at most 193 |
| `ByteSort.ExchangeBytes` | share/libc/tis_stdlib.c:234-242 | the byte loop of swap exchanges two stretches of memory and changes nothing else, the two being equal included |
| `ByteSort.ExchangeSwapsBlocks` | share/libc/tis_stdlib.c:234-242 | exchanging the bytes of blocks i and j is swapping elements i and j of the array |
| `ByteSort.SwapElements` | share/libc/tis_stdlib.c:234-242 | swap of two elements, all memory outside the array untouched |
| `ByteSort.PartitionInPlace` | share/libc/tis_stdlib.c:244-261 | partition on bytes is the partition on elements, with nothing outside the array touched |
| `ByteSort.QsortStack.constructor` | share/libc/tis_stdlib.c:266 | an empty stack of 64 slots |
| `ByteSort.QsortStack.Push` | share/libc/tis_stdlib.c:216-223 | appends, or reports that the assertion fires, exactly when 64 pairs are on the stack |
| `ByteSort.QsortStack.Pop` | share/libc/tis_stdlib.c:225-232 | takes off the pair pushed last |
| `ByteSort.Iteration` | share/libc/tis_stdlib.c:269-289 | one iteration on bytes and stack object is one step of the abstract algorithm |
| `ByteSort.QuickStub` | share/libc/tis_stdlib.c:263-290 | the whole loop is the whole abstract run |
| `ByteSort.Qsort` | share/libc/tis_stdlib.c:292-296 | the blocks are permuted, and sorted for a total preorder when the assertion does not fire; it does not fire exactly when a stack without a capacity would never hold more than 64 segments, in particular for at most 193 elements and for sorted arrays; nothing outside the array is touched |
| `ByteStaircase.QsortCanFail` | share/libc/tis_stdlib.c:216-223 | for every number of elements from 194 to INT_MAX and every element size from 4 on, an array of bytes and a total preorder for which the run hits the assertion |
| `ByteStaircase.QsortFails` | share/libc/tis_stdlib.c:292-296 | qsort fails on that array |
| `Calendar.YearStartStep` | share/tis-interpreter/common_time.c:50-55 | the closed form for the first day of a year grows by the length of the year, leap years included |
| `Calendar.FourHundredYears` | share/tis-interpreter/common_time.c:53 | 400 years have 146097 days |
| `Calendar.DateOfDayNumber` | share/tis-interpreter/common_time.c:57-127 | the date n single steps from 1970-01-01 is a valid date and its closed-form day number is n, forwards and backwards |
| `Calendar.DayNumberOrders` | share/tis-interpreter/common_time.c:57-127 | day numbers order valid dates as the calendar does and determine them |
| `CivilTime.BrokenDownEvaluates` | share/tis-interpreter/common_time.c:113-124 | the fields are in range, agree with each other, and the Seconds Since the Epoch formula of section 4.16 of POSIX.1-2017 Base Definitions gives t back |
| `CivilTime.BrokenDownMonotone` | share/tis-interpreter/common_time.c:113-124 | a later time has lexicographically later fields, so the conversion is injective |
| `CivilTime.OneDayLater` | share/tis-interpreter/common_time.c:57-127 | 86400 seconds later is the next calendar day and the next weekday at the same time of day |
| `CivilTime.EpochFields` | share/tis-interpreter/common_time.c:70-124 | time 0 is Thursday 1970-01-01, midnight |
| `CivilTime.CurrentTimeFields` | share/tis-interpreter/common_time.c:145-146 | the program's current time is Sunday 2016-06-19, 11:32:49 |
| `CivilTime.DaysAndSeconds` | share/tis-interpreter/common_time.c:70-76 | truncating division with its fix-up is floor division |
| `CivilTime.Weekday` | share/tis-interpreter/common_time.c:78-79 | the weekday, for days before the epoch too |
| `CivilTime.SplitCycles` | share/tis-interpreter/common_time.c:81-98 | the 400, 100, 4 and 1 year cycles are in range, add up to the days, and leave a day within the March-based year |
| `CivilTime.MarchYearLeap` | share/tis-interpreter/common_time.c:100 | which cycle counts make a year, or the next one, a leap year |
| `CivilTime.MarchYearStart` | share/tis-interpreter/common_time.c:81-98 | the first of March of the year with given cycle counts is the day that the cycle lengths add up to |
| `CivilTime.DayInYear` | share/tis-interpreter/common_time.c:100-102 | the day of the year of the day that the cycles leave over |
| `CivilTime.WalkMonths` | share/tis-interpreter/common_time.c:106-107 | the month loop stops at entry 11 at the latest, with a day within the month |
| `CivilTime.MarchDaysFormula` | share/tis-interpreter/common_time.c:64 | the table of month lengths starts the k-th month of the March-based year at day (153 k + 2) / 5 |
| `CivilTime.CyclesFindDate` | share/tis-interpreter/common_time.c:81-117 | cycles, month and remaining days together are the date of the stepping calendar, and its day of the year |
| `CivilTime.OverflowCondition` | share/tis-interpreter/common_time.c:104-116 | int arithmetic on the year stays in range exactly for the days of a stated interval |
| `CivilTime.StoreDate` | share/tis-interpreter/common_time.c:104-117 | stores the date, or reports an overflow of int, exactly when one happens |
| `CivilTime.DateFields` | share/tis-interpreter/common_time.c:81-118 | year, month, day and day of the year of any day counted from 2000-03-01 |
| `CivilTime.SecsToTm` | share/tis-interpreter/common_time.c:57-127 | rejects exactly outside the guard, fills exactly on a stated interval of times, and then each field is that of the stepping calendar, the weekday counted from a Thursday, and the time of day |
| `CivilTime.GmtimeR` | share/tis-interpreter/common_time.c:137-143 | the same, with tm_isdst cleared |
| `CivilTime.GuardKeepsNarrowingExact` | share/tis-interpreter/common_time.c:66-82 | behind the guard, the subtraction of the epoch and the narrowing of the cycle count to int are exact |
| `CivilTime.GuardIsTooWide` | share/tis-interpreter/common_time.c:66-68 | the last time before and the first time after the representable ones, which the guard lets through |
| `RhoWalk.PilnIsWalk` | tis-interpreter/examples/02_keccak_sha_3/readable_sha3/sha3.c:27-31 | keccakf_piln lists the walk of Algorithm 2 of FIPS 202 from its second lane on and closes it |
| `RhoWalk.RotcIsRhoOffset` | tis-interpreter/examples/02_keccak_sha_3/readable_sha3/sha3.c:21-25 | keccakf_rotc is the list of the offsets (t + 1)(t + 2) / 2 modulo 64 |
| `RhoWalk.PiStepsBack` | tis-interpreter/examples/02_keccak_sha_3/readable_sha3/sha3.c:52-59 | pi moves every lane one step along the walk of rho |
| `RhoWalk.WalkInjective` | tis-interpreter/examples/02_keccak_sha_3/readable_sha3/sha3.c:54-59 | the walk visits no lane twice within 24 steps |
| `RhoWalk.WalkReaches` | tis-interpreter/examples/02_keccak_sha_3/readable_sha3/sha3.c:54-59 | the walk visits every lane but the origin |
| `RhoWalk.WalkedAll` | tis-interpreter/examples/02_keccak_sha_3/readable_sha3/sha3.c:54-59 | a state that is right on the 24 visited lanes and at the origin is right everywhere |
| `RoundConstants.RegisterInTable` | tis-interpreter/examples/02_keccak_sha_3/readable_sha3/sha3.c:9-19 | the shift register of Algorithm 5 of FIPS 202 at the start of each of the 24 rounds |
| `RoundConstants.RoundConstantsMatch` | tis-interpreter/examples/02_keccak_sha_3/readable_sha3/sha3.c:9-19 | keccakf_rndc is what Algorithms 5 and 6 of FIPS 202 compute |
| `Lanes.RotlBit` | tis-interpreter/examples/02_keccak_sha_3/readable_sha3/sha3.c:47 | ROTL64 takes bit z of its result from bit (z - n) mod 64 |
| `Keccak.RhoPiLane` | tis-interpreter/examples/02_keccak_sha_3/readable_sha3/sha3.c:52-59 | lane t + 1 of the walk is, after rho and pi, lane t rotated by its offset; the origin stays |
| `KeccakBits.ThetaIsThetaBit` | tis-interpreter/examples/02_keccak_sha_3/readable_sha3/sha3.c:42-50 | theta on lanes is, bit for bit, section 3.2.1 of FIPS 202 |
| `KeccakBits.RhoIsRhoBits` | tis-interpreter/examples/02_keccak_sha_3/readable_sha3/sha3.c:52-59 | rho on lanes is Algorithm 2 on the state array of bits, step by step |
| `KeccakBits.PiIsPiBit` | tis-interpreter/examples/02_keccak_sha_3/readable_sha3/sha3.c:52-59 | pi on lanes is, bit for bit, section 3.2.3 |
| `KeccakBits.ChiIsChiBit` | tis-interpreter/examples/02_keccak_sha_3/readable_sha3/sha3.c:61-67 | chi on lanes is, bit for bit, section 3.2.4 |
| `KeccakBits.ConstantBit` | tis-interpreter/examples/02_keccak_sha_3/readable_sha3/sha3.c:69-70 | bit z of a round constant is RC[z] of Algorithm 6 |
| `KeccakBits.RoundIsRoundBits` | tis-interpreter/examples/02_keccak_sha_3/readable_sha3/sha3.c:40-71 | a round on lanes is Rnd of section 3.3 on bits |
| `KeccakBits.PermuteIsStandard` | tis-interpreter/examples/02_keccak_sha_3/readable_sha3/sha3.c:35-72 | any number of rounds on lanes is that many rounds of the standard on bits |
| `KeccakBits.RoundsAreStandard` | tis-interpreter/examples/02_keccak_sha_3/readable_sha3/sha3.c:90 | KECCAK_ROUNDS is the 12 + 2 l rounds of Keccak-f, section 3.4, for lanes of 2^l = 64 bits |
| `KeccakBits.KeccakFIsStandard` | tis-interpreter/examples/02_keccak_sha_3/readable_sha3/sha3.c:90 | that many rounds on lanes are Keccak-f[1600] on bits |
| `KnownAnswer.TwoRounds` | tis-interpreter/examples/02_keccak_sha_3/readable_sha3/sha3.c:35-72 | all 25 lanes of the zero state after two rounds |
| `KeccakInPlace.ThetaInPlace` | tis-interpreter/examples/02_keccak_sha_3/readable_sha3/sha3.c:42-50 | the two loops are the simultaneous theta, on lanes and on bits |
| `KeccakInPlace.RhoPiInPlace` | tis-interpreter/examples/02_keccak_sha_3/readable_sha3/sha3.c:52-59 | carrying one temporary around the 24-cycle is rho followed by pi, on lanes and on bits, for every state |
| `KeccakInPlace.ChiInPlace` | tis-interpreter/examples/02_keccak_sha_3/readable_sha3/sha3.c:61-67 | row by row through a copy is the simultaneous chi, on lanes and on bits |
| `KeccakInPlace.RoundInPlace` | tis-interpreter/examples/02_keccak_sha_3/readable_sha3/sha3.c:40-71 | the loop body is one round of the standard |
| `KeccakInPlace.KeccakF` | tis-interpreter/examples/02_keccak_sha_3/readable_sha3/sha3.c:35-72 | any number of rounds up to 24 is that many rounds of the standard, on lanes and on bits |
| `Sponge.LoadThenStore` | tis-interpreter/examples/02_keccak_sha_3/readable_sha3/sha3.c:89 | storing a lane gives back the eight bytes it was loaded from |
| `Sponge.PadIsStandard` | tis-interpreter/examples/02_keccak_sha_3/readable_sha3/sha3.c:94-97 | the bytes 0x06 to 0x80, or the one byte 0x86, are in bits the suffix 01 and pad10*1 of sections 6.1 and 5.1 of FIPS 202, for every message length and rate |
| `Sponge.PadLength` | tis-interpreter/examples/02_keccak_sha_3/readable_sha3/sha3.c:94-97 | a padded message is a whole number of blocks |
| `Sponge.PadBlock` | tis-interpreter/examples/02_keccak_sha_3/readable_sha3/sha3.c:87-97 | padding leaves full blocks alone and commutes with taking one off |
| `Sha3Standard.LoadBit` | tis-interpreter/examples/02_keccak_sha_3/readable_sha3/sha3.c:89 | bit z of the k-th word loaded from a byte string is bit 64 k + z of the string |
| `Sha3Standard.AddToZero` | tis-interpreter/examples/02_keccak_sha_3/readable_sha3/sha3.c:85-89 | adding a string to the zero state gives the string followed by zeros |
| `Sha3Standard.OneBlock` | tis-interpreter/examples/02_keccak_sha_3/readable_sha3/sha3.c:93-104 | the digest of a message that fits in one block is the front of Keccak-f of that block, written out |
| `Sha3Standard.AbsorbIsAbsorbBits` | tis-interpreter/examples/02_keccak_sha_3/readable_sha3/sha3.c:87-102 | absorbing bytes into lanes is steps 5 and 6 of Algorithm 8 of FIPS 202 on bits, for every rate of whole lanes |
| `Sha3Standard.SqueezeIsSqueezeBits` | tis-interpreter/examples/02_keccak_sha_3/readable_sha3/sha3.c:104 | squeezing bytes is steps 7 to 10 of Algorithm 8 on bits |
| `Sha3Standard.Sha3IsStandard` | tis-interpreter/examples/02_keccak_sha_3/readable_sha3/sha3.c:76-107 | the hash on bytes is SHA3-d of section 6.1 on the bit string of the message |
| `Sha3Program.AddWords` | tis-interpreter/examples/02_keccak_sha_3/readable_sha3/sha3.c:88-89 | adds a block of bytes to the state |
| `Sha3Program.LastBlock` | tis-interpreter/examples/02_keccak_sha_3/readable_sha3/sha3.c:93-97 | the buffer holds the rest of the message, padded |
| `Sha3Program.CopyOut` | tis-interpreter/examples/02_keccak_sha_3/readable_sha3/sha3.c:104 | the digest is the first mdlen bytes of the state, and the rest of md is untouched |
| `Sha3Program.Sha3InPlace` | tis-interpreter/examples/02_keccak_sha_3/readable_sha3/sha3.c:76-107 | block-by-block absorption and one final block give, bit for bit, SHA3-d of section 6.1 of FIPS 202 for every message length and every mdlen that is a multiple of 4 from 28 to 64, and nothing behind the digest is written |
| `Numerals.UnsignedReach` | share/libc/tis_stdlib.c:71-98 | prefix and digits as the program reads them make the longest unsigned numeral there is; 0x counts only before a hexadecimal digit |
| `Numerals.ReadsLongestSubject` | share/libc/tis_stdlib.c:59-106 | the program stops behind the longest subject sequence of section 7.22.1.4 of ISO C11 with the number it denotes, and finds no digit exactly when there is no subject sequence |
| `StringToNumber.CutoffIsExact` | share/libc/tis_stdlib.c:86-99 | the test with cutoff and cutlim tells exactly whether another digit exceeds ULLONG_MAX |
| `StringToNumber.ReadLead` | share/libc/tis_stdlib.c:59-81 | space, sign, prefix and effective base |
| `StringToNumber.ReadDigits` | share/libc/tis_stdlib.c:86-106 | the value of all digits, or that it exceeds ULLONG_MAX, or that there is none |
| `StringToNumber.StrToULL` | share/libc/tis_stdlib.c:50-124 | value, end and errno for every string and base, the invalid bases included |
| `StringToNumber.ParseFindsSubject` | share/libc/tis_stdlib.c:50-124 | what is read is the longest subject sequence, or there is none |
| `WrittenNumerals.DigitValueIsPlace` | share/libc/tis_stdlib.c:89-94 | a digit or letter is worth its place in the written table, capital or not |
| `WrittenNumerals.OnlyTheTable` | share/libc/tis_stdlib.c:89-96 | no other character is worth anything |
| `WrittenNumerals.WrittenValue` | share/libc/tis_stdlib.c:103-104 | the digits that write n in a base are worth n, wherever they stand |
| `WrittenNumerals.ReadsBack` | share/libc/tis_stdlib.c:59-116 | a numeral written in any base from 2 to 36, behind any white space and sign and with the prefix 0, 0x or 0X where the base asked for needs it, is read back to its end as the number it writes |
| `WrittenNumerals.UnsignedFromWritten` | share/libc/tis_stdlib.c:50-124 | what strtoull makes of every written numeral, in numbers |
| `WrittenNumerals.SignedFromWritten` | share/libc/tis_stdlib.c:139-176 | what strtoll makes of every written numeral, in numbers |
| `StringToNumber.UnsignedMeetsStandard` | share/libc/tis_stdlib.c:107-124 | what the standard asks: the number modulo 2^64, with saturation and ERANGE exactly when its magnitude exceeds ULLONG_MAX, and the end behind the subject sequence |
| `StringToNumber.StrToUL` | share/libc/tis_stdlib.c:126-137 | strtoul over strtoull, for every width of unsigned long |
| `StringToNumber.UnsignedLongMeetsStandard` | share/libc/tis_stdlib.c:126-137 | strtoul gives what the standard asks for every number when long is as wide as long long, and otherwise exactly for the numbers of a stated set |
| `StringToNumber.UnsignedLongDiffers` | share/libc/tis_stdlib.c:126-137 | "-1" and "-2" with a 32-bit long, for which it does not |
| `StringToNumber.SignedMeetsStandard` | share/libc/tis_stdlib.c:139-194 | the number clamped to the type exactly when it is not below -ULLONG_MAX, ERANGE exactly when it is out of range |
| `StringToNumber.NothingConverts` | share/libc/tis_stdlib.c:110-116 | the end is the start of the string exactly when the base is invalid or there is no subject sequence |
| `StringToNumber.ClampedExactly` | share/libc/tis_stdlib.c:162-173 | the two clamps are right exactly when not both negative and above ULLONG_MAX in magnitude |
| `StringToNumber.HugeNegativeGivesMinusOne` | share/libc/tis_stdlib.c:107-176 | a string that denotes -2^64 in base 32, on which strtoll returns -1 with ERANGE |
| `StringToNumber.StrToLL` | share/libc/tis_stdlib.c:139-176 | strtoll over strtoull, through modular negation, is one conversion to a signed type |
| `StringToNumber.StrToL` | share/libc/tis_stdlib.c:178-194 | clamping twice is clamping once, for every width of long |
| `StringToNumber.AtoiByNegation` | share/libc.c:233-257 | no step leaves the range of int exactly when the number fits int, INT_MIN included, and then the result is the number |
| `StringToNumber.AtoiByStrtol` | share/tis-interpreter/common_missing.c:45-47 | atoi through strtol for every width of long |
| `StringToNumber.SpacesCoincide` | share/libc.c:186-190 | skipping white space in the sense of libc.c and in that of ctype.c ends at the same place exactly when there is no \v or \f in it |
| `StringToNumber.AtoiVersionsAgree` | share/libc.c:233-257 | the two versions agree, for numbers that fit int, exactly when no \f or \v precedes the number or it is zero |
| `StringToNumber.AtoiVersionsDiffer` | share/libc.c:233-257 | a form feed and "7", which one version reads as 0 and the other as 7 |
| `Comparison.DifferenceZero` | share/libc/__fc_string_axiomatic.h:145-154 | the comparison is zero exactly for equal strings, as the axiom strcmp_zero says |
| `Comparison.DifferenceAt` | share/libc.c:75-83 | at the first difference the result is that of the two characters, and a string compares below any that goes on behind it |
| `Comparison.BoundedZero` | share/libc/__fc_string_axiomatic.h:157-166 | the bounded comparison is zero exactly under the condition of the axiom strncmp_zero |
| `Comparison.CaseDifferenceIsPreorder` | share/libc/string.c:157-171 | the order of strcasecmp is a total preorder, so it is fit for qsort |
| `Comparison.LowerCharIs` | share/libc/string.c:164 | capitals count as the letters that they are the capitals of, all other characters as themselves |
| `Comparison.CaseZero` | share/libc/string.c:157-171 | strcasecmp is 0 exactly for strings equal letter by letter up to case |
| `Comparison.StrCmp` | share/libc.c:75-83 | the difference of the first characters that differ, or 0 |
| `Comparison.StrNCmp` | share/libc.c:128-138 | the same for the first n characters, reading no further |
| `Comparison.MemCmp` | share/libc.c:150-162 | zero exactly for equal bytes, otherwise the difference at the first byte that differs |
| `Comparison.CaseStep` | share/libc/string.c:164 | the correction by 32 is the difference of the lower-case characters |
| `Comparison.StrCaseCmp` | share/libc/string.c:157-171 | the comparison of the lower-cased strings |
| `Comparison.StrNCaseCmp` | share/libc/string.c:173-189 | the comparison of the lower-cased strings cut at n characters |
| `Search.StrChr` | share/libc.c:259-268 | the first occurrence from a position on, the NUL included, or null |
| `Search.StrRChrBySearch` | share/libc/string.c:90-110 | repeated strchr finds the last occurrence, the NUL included |
| `Search.StrRChrInOnePass` | share/libc.c:270-279 | one pass finds the last occurrence |
| `Search.LastIsUnique` | share/libc.c:270-279 | there is only one last occurrence, so the two versions of strrchr agree |
| `Search.ChrResults` | share/libc.c:259-279 | in a string put together around a character, the first and the last occurrence are where it was put |
| `Search.ChrAtEnd` | share/libc.c:259-279 | the NUL is found at the end, a character that is not there nowhere |
| `Search.LeftmostIsLeast` | share/libc/string.c:112-133 | what strstr promises splits the string around the needle, and no split is further left |
| `Search.StrStrBySliding` | share/libc/string.c:112-133 | the sliding memcmp finds the leftmost occurrence, or null exactly when there is none |
| `Search.SkippingIsSafe` | share/libc.c:286-292 | no occurrence is lost by looking only where strchr finds the first character |
| `Search.StrStrByChr` | share/libc.c:281-294 | the leftmost occurrence of every non-empty needle; the end of the string for an empty one |
| `Search.StrStrVersionsAgree` | share/libc.c:281-294 | the two versions of strstr agree exactly when the needle is not empty or the string is |
| `Search.StrStrVersionsDiffer` | share/libc.c:281-294 | the empty needle in "a", found at 0 and at 1 |
| `Padding.PaddedText` | share/tis-interpreter/common_env.c:28-41 | a buffer filled by strncpy or _strncpy reads as the source cut at n characters |
| `Memory.MemCpy` | share/libc.c:52-64 | the copied stretch, and nothing else |
| `Memory.MemSet` | share/libc.c:67-73 | the filled stretch, and nothing else |
| `Copying.StrNCpyByMemSet` | share/libc/string.c:78-88 | the string cut at n characters, padded with NUL to n, the rest of the buffer untouched |
| `Copying.StrNCpyByLoops` | share/libc.c:110-122 | the same buffer as the other version of strncpy |
| `Copying.StrLCat` | share/libc/string.c:210-235 | the whole buffer, and the length that was asked for |
| `Copying.LAppendedReads` | share/libc/string.c:210-235 | the buffer reads as the two strings cut at n - 1 characters whenever it held a terminated string |
| `Copying.LAppendedElsewhere` | share/libc/string.c:217-231 | without a NUL in the first n bytes nothing is written; otherwise nothing before the old end, behind the new NUL or from n on |
| `Copying.StrLCpy` | share/libc/string.c:191-208 | the whole buffer, and the length of the source |
| `Copying.LCopiedReads` | share/libc/string.c:196-205 | the buffer reads as the copy exactly when there is something to copy or a NUL was there already |
| `Copying.LCopiedElsewhere` | share/libc/string.c:196-205 | nothing is written for n = 0 or an empty source, and never behind the NUL |
| `Copying.EmptyCopyKeepsText` | share/libc/string.c:196-205 | an empty source, after which the buffer still reads as before |
| `Copying.StrNCat` | share/libc/string.c:135-149 | the whole buffer, for every buffer with the room that section 7.24.3.2 of ISO C11 asks for; the last write stays inside exactly when the whole source would fit |
| `Copying.NAppendedReads` | share/libc/string.c:140-147 | the buffer reads as the text with at most n characters appended exactly when the source has no more than n characters or a NUL was behind them already |
| `Copying.NAppendedElsewhere` | share/libc/string.c:140-147 | byte by byte: the text, the copied characters, the NUL, and all else as before |
| `Copying.ShortSourceFits` | share/libc/string.c:140-141 | a source of at most n characters always stays inside |
| `Copying.LongSourceBreaksPromise` | share/libc/string.c:142-147 | "ab" appended with n = 1: a wrong text in four bytes, a write outside of two |
| `EnvTable.RunsKeepWellFormed` | share/tis-interpreter/common_env.c:43-138 | every run keeps at most 128 variables, with keys non-empty and pairwise distinct |
| `EnvTable.NewNamesFillUp` | share/tis-interpreter/common_env.c:64-76 | new names go in one behind the other until there are 128 variables, and then are refused |
| `EnvTable.HasIsInMap` | share/tis-interpreter/common_env.c:119-122 | scanning the table is looking up in the map |
| `EnvTable.SetRefinesMap` | share/tis-interpreter/common_env.c:52-76 | setenv is insertion into a map with room for 128 keys: it overwrites only when told to and is refused only for a new key when full |
| `EnvTable.AsMapSize` | share/tis-interpreter/common_env.c:21 | the number of live entries is the size of the map |
| `EnvTable.UnsetRemovesOnlyTheLast` | share/tis-interpreter/common_env.c:90-107 | unsetenv of a present name removes the last live variable, and so the name exactly when it comes last |
| `EnvTable.UnsetRemovesAnother` | share/tis-interpreter/common_env.c:97-104 | unsetting the first of two variables removes the second |
| `EnvTable.StepRefinesMap` | share/tis-interpreter/common_env.c:43-138 | a call is the map operation exactly when it does not unset a variable that has others behind it |
| `EnvTable.RunRefinesMap` | share/tis-interpreter/common_env.c:43-138 | every run of such calls is the run of the map operations |
| `Environment.StrNCpy` | share/tis-interpreter/common_env.c:28-41 | the source cut at n characters and padded to n |
| `Environment.GoodNames` | share/tis-interpreter/common_env.c:47 | a name is accepted exactly when it is not null, not empty and has no = in it |
| `Environment.SizesAre` | share/tis-interpreter/common_env.c:17-18 | names count up to 64 characters, values are kept up to 128, and a null value is the empty string |
| `Environment.OneRequest` | share/tis-interpreter/common_env.c:43-138 | what each call asks of the table; one with a bad name asks nothing |
| `Environment.LastSetWins` | share/tis-interpreter/common_env.c:43-79 | after any run that ends in a setenv that overwrites, the name has that value, unless it is new and 128 others are set |
| `Environment.EnvironmentArray.constructor` | share/tis-interpreter/common_env.c:21-26 | the empty table |
| `Environment.EnvironmentArray.Find` | share/tis-interpreter/common_env.c:52-53 | the scan stops at the first entry that holds the name |
| `Environment.EnvironmentArray.BadName` | share/tis-interpreter/common_env.c:47 | null, empty, or with a = in it |
| `Environment.EnvironmentArray.SetEnv` | share/tis-interpreter/common_env.c:43-79 | the new table and the result, with EINVAL for a bad name and ENOMEM exactly for a new name in a full table |
| `Environment.EnvironmentArray.Drop` | share/tis-interpreter/common_env.c:92-104 | gives the last entry up; the slot given up holds the variable found, or blanks |
| `Environment.EnvironmentArray.UnsetEnv` | share/tis-interpreter/common_env.c:81-110 | drops the last variable exactly when the name is present, and reads past a buffer exactly when the entry found is not the last and has a buffer without NUL |
| `Environment.LongNameReadsPast` | share/tis-interpreter/common_env.c:97-101 | a name of 64 characters set before another one, whose unsetting reads past the key buffer |
| `Environment.EnvironmentArray.GetEnv` | share/tis-interpreter/common_env.c:112-126 | finds a value exactly for the names in the map, and it is the value in the map |
| `Environment.EnvironmentArray.ClearEnv` | share/tis-interpreter/common_env.c:128-138 | no variable is left and all used slots are blanked |
| `Environment.EnvironmentArray.Run` | share/tis-interpreter/common_env.c:43-138 | every run of calls with names under 64 bytes and values under 128 refines the run on the table of variables and keeps every live buffer terminated |

## Left out

- ByteSort.Qsort: the comparator is a pure function of the two blocks; one that keeps state, or changes the array, is not modelled, nor is strict aliasing.
- QuickSort.CapacityIsExact: quantifies over arrays of integers; `QuickSort.RunSorts` and `QuickSort.StaircaseFails` are its two halves for elements of any type, and `ByteStaircase.QsortCanFail` leaves out elements of fewer than four bytes.
- CivilTime.SecsToTm: says nothing about the fields after `Overflow`, which is undefined in C.
- CivilTime.GmtimeR: `gmtime` is the same call on a static structure and is not repeated.
- KeccakInPlace.KeccakF: more than 24 rounds, for which the table has no constants, are excluded.
- Sha3Program.Sha3InPlace: the cast of the byte pointer to a pointer to 64-bit words is an explicit little-endian load, for which alignment and aliasing do not matter.
- Environment.EnvironmentArray.UnsetEnv: says what the table is when the call reads past a buffer, not what is read there; runs with names under 64 bytes and values under 128 never do.
- Environment.EnvironmentArray.GetEnv: returns the contents of the value buffer, not a pointer into the table, so a caller that writes through the pointer is not modelled; buffers are replaced as whole values.
- Copying.StrNCat: a source without NUL, which `strlen` on line 139 would read past, is not modelled.
- Copying.StrLCat: overlapping source and destination are not modelled; the source is a value, here and in the other copying functions.
- Returned pointers that equal an argument (`strncpy`, `strncat`, `memcpy`, `memset`).
- Character signedness, beyond that bytes above 127 are neither digits, letters nor spaces; locales.
- The diagnostic call of `strlen` at the end of `strtoull`.
- `strcpy`, `strcat`, `stpcpy`, `strdup`, `strspn`, `strlen`, `memmove`, `toupper` and the character classes: short loops or expressions.
- The initializers of queue heads, and the macros that only name a field.
- The clock functions of common_time.c, which return constants; `malloc` and its relatives; `wchar.c`, the declarations and ACSL text of the headers, other examples, build files and the analyser.

# Verified models of the Orbit runtime

Orbit compiles to C and links a small runtime. This project models the parts of that runtime whose guarantees
span many functions, and one build script, and proves those guarantees with Dafny 4.11:

    dafny verify dfyconfig.toml

Each part has functions that say what it computes, and, where the C code updates things step by step, methods and
classes that do the same and are proved to compute those functions. The theorems are about the functions and hold for
every input, every run or every interleaving.

| part | files |
|---|---|
| amalgamation of the runtime into one C file | `Amalgamation.dfy`, `AmalgamationNames.dfy` |
| open-addressing hash map | `HashMap.dfy` |
| arena allocator | `ArenaSpec.dfy`, `ArenaProofs.dfy`, `ArenaServes.dfy`, `ArenaRewind.dfy`, `Arena.dfy`, `ArenaConfig.dfy` |
| protocols between threads | `AcceptRings.dfy`, `AcceptOrder.dfy`, `ArenaPool.dfy`, `ArenaPoolUse.dfy`, `GlobalArena.dfy`, `AtomicMax.dfy` |
| Kynx admission control | `KynxTypes.dfy`, `KynxGate.dfy`, `KynxProofs.dfy`, `KynxBans.dfy`, `KynxBursts.dfy`, `KynxShard.dfy`, `KynxState.dfy` |
| Kynx addresses and proxies | `KynxAddress.dfy`, `KynxAddressProofs.dfy`, `KynxAddressLanguage.dfy`, `KynxNetworks.dfy`, `KynxProxy.dfy`, `KynxProxyRules.dfy` |
| JSON | `JsonText.dfy`, `JsonTextProofs.dfy`, `JsonWritten.dfy`, `Json.dfy`, `JsonProofs.dfy`, `JsonLayout.dfy`, `JsonLanguage.dfy`, `JsonSpaced.dfy`, `JsonShape.dfy`, `JsonBounds.dfy`, `JsonObject.dfy`, `JsonParser.dfy`, `JsonPrinter.dfy` |
| HTTP | `HttpSpec.dfy`, `HttpProofs.dfy`, `HttpMessages.dfy`, `HttpVerdicts.dfy`, `HttpParser.dfy`, `HttpChunks.dfy`, `HttpChunkLanguage.dfy`, `Routes.dfy`, `RouteRules.dfy` |
| strings | `Strings.dfy` |
| shared definitions | `Basics.dfy`, `Numbers.dfy`, `Digits.dfy`, `Texts.dfy`, `Buffers.dfy` |

## What the models assume

- What the operating system, the clock and the allocator answer is a parameter. A successful reservation is assumed to
  be a page-aligned range that no owned segment overlaps.
- Threads are steps, one per shared load, store or compare-and-swap, in any order, under sequential consistency.
- Time does not go backwards within a shard. The code reads it before it takes the lock, so it can; then
  `kynx_refill` moves the refill time back, and the bounds on admissions and bans need not hold.
- 64-bit wrap-around is written out where rates and sizes are multiplied (`KynxGate.U64`, `Strings.Wrap`,
  `ArenaSpec.AlignUp`). A mask with a power of two less one is a remainder, and masking off low bits is rounding down.
- Hashes are arbitrary functions. Map keys are pointers compared by the text they point to.
- A C text is a sequence of characters, one a byte, with one NUL behind them. The methods of the JSON parser read
  nothing behind that NUL; they are specified for the texts on which the code does not either.
- For the amalgamation a file is a sequence of lines, a controlling expression is a boolean combination of macro tests,
  and a line of output is emitted with the macros that may be expanded in it, so any expansion gives the same text.

## Where the code and its comments disagree

The models follow the code.

- `runtime/types.h:259` calls the hash map Robin Hood; the code is linear probing.
- `runtime/json.c:297` says a decoded NUL is refused; no branch does (`JsonTextProofs.DecodedNulAccepted`).
- `runtime/json.c:356` and `runtime/json.c:394` advance 6 past the `u` of a numeric escape that has 5 characters from
  there on. The character behind such an escape is lost, also when it is the closing quote. The printer writes control
  characters other than newline, return and tab that way, so strings with them do not round-trip
  (`JsonTextProofs.StringRoundTripExact`). When the NUL of the text is that character the parser reads on behind it:
  exactly in strings of which such an escape is the last thing before the NUL (`JsonTextProofs.OverrunExact`,
  `JsonBounds.OverrunInput`), and in no document that does not end with one (`JsonBounds.SafeUnlessEscapeAtEnd`).
- `runtime/http.c` documents that captures beyond the 32 slots are dropped; they are not stored, but `param_count`
  counts them (`Routes.OrbitRequest.RouteMatch`).
- `runtime/http.c` documents that a trailing slash is tolerated; behind a final `:name...` it makes the pattern match
  nothing (`Routes.PatternSlashes`).
- The walk over X-Forwarded-For takes "the first non-trusted hop", but judges a hop by its first 63 characters: that is
  the same answer for every header up to that length of hop and for no greater length (`KynxProxy.HeadersJudgedWholeIff`,
  `KynxProxy.OverlongHeaderBelieved`). A dotted quad may have empty octets (`KynxAddressProofs.EmptyOctetsAccepted`), and a
  double colon may stand for no zeros (`KynxAddressLanguage.NoZerosAccepted`).
- `runtime/kynx.c:628-629` says that capping the idle time at ten windows keeps the refill product from overflowing. It
  does if and only if rate * window_ms * 10^10 fits 64 bits (`KynxProofs.RefillOverflowExact`). Beyond that a long idle
  time can leave a bucket empty (`KynxProofs.LongIdleDenied`, `KynxProofs.LongWaitsExact`).
- The advice for a ban is converted to an int, so for a ban with more than 2^31 ms left it is not the time left and can be
  negative (`KynxBans.BanHolds`, `KynxBans.LongBanAdvice`).
- The budget check of `runtime/arena_alloc.c:130-140` charges the lease before it is known that the block can be had; a
  refusal by the ceiling or the system does not give the bytes back (`ArenaServes.LeaseCharged`).
- Retry advice is truncated, so waiting exactly that long can be too short (`KynxProofs.RetryAdviceExact`); a millisecond
  more never is. The lemmas on waits need a positive refill time, because 0 marks a bucket that was never refilled.
- `runtime/arena_checkpoint.c` refuses a checkpoint of "a past epoch", but an overflow does not end an epoch: an older
  checkpoint is then judged by its offset in another segment (`ArenaRewind.RewindAfterOverflow`,
  `ArenaRewind.OverflowRun`).
- `runtime/http.c:160-161` counts the bytes read so far of a header block that has not ended, and with them those of the
  empty line behind it. A request within the limits, but by less than three bytes, may be refused when it arrives in pieces
  (`HttpProofs.PrefixesWait`).
- An arena pool slot whose arena could not be created is lost once it has been claimed (`ArenaPool.ClaimedNullIsLost`,
  `ArenaPool.LostForGood`).
- Splitting a joined list gives it back only when the delimiter does not overlap a piece
  (`Strings.SplitInvertsJoin`).

## Model

| member | source | states |
|---|---|---|
| `Amalgamation.AmalgamationPreservesMeaning` | scripts/amalgamate.py:32-79 | For any tree of guarded files with distinct guard names, cyclic or not, and any initial macros: preprocessing the inlined text emits the same lines with the same macro tables as preprocessing the original, and the original terminates |
| `Amalgamation.PreservedIffNamesDistinct` | scripts/amalgamate.py:27-29 | Over a given set of file names the script preserves every well-formed tree if and only if no two names give the same guard |
| `Amalgamation.CollisionLosesText` | scripts/amalgamate.py:61-66 | Two files whose names give one guard: the second one's text is missing from the output |
| `Amalgamation.CollidingNames` | scripts/amalgamate.py:27-29 | a/b.h and a_b.h give the same guard |
| `AmalgamationNames.SharedGuards` | scripts/amalgamate.py:27-29 | Two files share a guard if and only if their paths, from the first letter or digit to the last, are equally long and agree character by character but for the case of letters and which character that is neither |
| `AmalgamationNames.GuardSpelled` | scripts/amalgamate.py:27-29 | A guard is the prefix and what stands for each of those characters: letters in upper case, digits, an underscore for anything else |
| `Amalgamation.Sim` | scripts/amalgamate.py:51-68 | Line by line the preprocessor of the original and of the inlined text stay in step, whatever the conditionals |
| `Amalgamation.IncludeSim` | scripts/amalgamate.py:42-49 | One followed include of a file that is not open against its inlined text, whether the file was read before or not |
| `Amalgamation.IncludeLine` | scripts/amalgamate.py:57-60 | An include line in a live or a dead region against what replaced it: an include in a dead branch never hides a later one |
| `Amalgamation.RunFlatDead` | scripts/amalgamate.py:62-68 | Text whose conditionals close changes nothing in a dead region |
| `Amalgamation.RunFlatWrap` | scripts/amalgamate.py:62-68 | The guard the script adds lets through exactly the first copy of a file |
| `Amalgamation.ExpandBalanced` | scripts/amalgamate.py:51-68 | Inlining keeps conditionals balanced |
| `HashMap.OrbitMap.constructor` | runtime/collections.c:138-164 | A new map is empty and sound, with 16 buckets |
| `HashMap.OrbitMap.Probe` | runtime/collections.c:212-229 | The probe loop ends, at the key's bucket if the map has the key, else at a free bucket that proves it has not |
| `HashMap.OrbitMap.Set` | runtime/collections.c:201-245 | The map gains exactly that binding; a refused allocation leaves the contents as they were |
| `HashMap.OrbitMap.Get` | runtime/collections.c:247-264 | Answers exactly as the mathematical map does |
| `HashMap.OrbitMap.Delete` | runtime/collections.c:272-311 | The map loses exactly that key, an absent key is an error that changes nothing, and the table stays sound across the wrap-around |
| `HashMap.OrbitMap.RepairCluster` | runtime/collections.c:287-303 | Re-inserting the rest of the cluster makes every bucket reachable again and keeps the contents |
| `HashMap.OrbitMap.Resize` | runtime/collections.c:166-199 | Rehashing into twice the buckets keeps the contents and every invariant; a refused allocation changes nothing |
| `HashMap.OrbitMap.Keys` | runtime/collections.c:314-330 | Lists every key once, in bucket order |
| `HashMap.ProbeComplete` | runtime/collections.c:252-263 | A probe that met a free slot has passed every bucket that could hold the key |
| `HashMap.PlaceKeepsReachable` | runtime/collections.c:180-193 | An entry put in the first free slot after its home keeps every entry reachable from its home through occupied buckets |
| `HashMap.FreeSlot` | runtime/collections.c:205-209 | A table larger than its contents has a free slot, so every probe loop ends |
| `HashMap.RepairStarts` | runtime/collections.c:284-289 | Vacating a bucket leaves only the rest of its cluster in doubt |
| `HashMap.RepairStep` | runtime/collections.c:289-303 | Moving the next entry of the cluster to the first free slot of its path shrinks the part in doubt, whatever the hashes and wrap-around |
| `HashMap.RepairEnds` | runtime/collections.c:287-305 | When the loop reaches the free slot nothing is in doubt |
| `HashMap.KeysListTheMap` | runtime/collections.c:314-330 | The listing has one key per binding, no two with one text, and their texts are the map's keys |
| `ArenaProofs.AlignUpLeast` | runtime/arena_vm.h:74-79 | Rounding up gives the least multiple not below the size; 0 exactly when the size is 0 or size + alignment - 1 leaves 64 bits |
| `ArenaProofs.AlignUpFits` | runtime/arena_vm.h:74-79 | For an alignment that divides 2^64 the answer is 0 if and only if the size is 0 or no multiple that is large enough fits 64 bits |
| `ArenaProofs.AlignUpRefusesMultiple` | runtime/arena_vm.h:74-79 | For alignment 3 the largest size is a multiple and is refused |
| `ArenaProofs.RunKeeps` | runtime/arena_alloc.c:119-277 | Over every run of allocations, checkpoints, rewinds and resets the arena stays sound (ordered page-aligned segment ends, disjoint live blocks in owned committed memory, exact byte counts) and the lease stays within its limit and covers all bytes served under it |
| `ArenaProofs.LiveBlocksSound` | runtime/arena_alloc.c:119-277 | In every reachable state two live blocks share no byte, are 16-byte aligned and lie in committed memory of an owned segment |
| `ArenaProofs.RewindKeepsLive` | runtime/arena_checkpoint.c:28-45 | A successful rewind keeps every block live at the checkpoint and not released since, also when overflow segments came in between |
| `ArenaRewind.RewindRestores` | runtime/arena_checkpoint.c:18-45 | Over every run that neither resets nor overflows the arena nor brings the cursor below the checkpoint, the checkpoint is accepted afterwards and exactly the blocks live at it are live again |
| `ArenaRewind.RewindAfterOverflow` | runtime/arena_checkpoint.c:28-45 | After an overflow an older checkpoint is accepted if and only if its offset lies within the new segment's used part; the rewind then releases only newer blocks, only of that segment |
| `ArenaRewind.OverflowRun` | runtime/arena_checkpoint.c:28-45 | A run with an overflow: the rewind is accepted and leaves a block allocated after the checkpoint alive |
| `ArenaRewind.LoweredRun` | runtime/arena_checkpoint.c:28-45 | A run with a rewind below the checkpoint: the later rewind to it is accepted and leaves a newer block alive in place of the one live at the checkpoint |
| `ArenaProofs.AccountingConserved` | runtime/performance.h:225-232 | Over every run of any number of arenas, process totals plus the counters of live arenas equal every allocation and aligned byte ever granted, and every arena stays sound |
| `ArenaProofs.NoArenasYet` | runtime/performance.h:225-232 | A process without arenas meets what such a run starts from |
| `ArenaProofs.AllocKeeps` | runtime/arena_alloc.c:119-277 | Every outcome of an allocation, refusals included, keeps the arena sound |
| `ArenaServes.ServedExactly` | runtime/arena_alloc.c:119-277 | In every sound state an allocation is served if and only if its multiple of 16 fits 64 bits and the lease, and it ends in committed memory, or in the reservation with the missing pages within the ceiling and committed, or a new segment within the ceiling is had |
| `ArenaServes.ServedWhat` | runtime/arena_alloc.c:142-276 | A served allocation gives the old cursor or the new base, and at it exactly one new block of the least multiple of 16, in committed memory |
| `ArenaServes.RefusedWhat` | runtime/arena_alloc.c:119-277 | A refused allocation leaves every block, segment, committed byte and the cursor |
| `ArenaServes.LeaseCharged` | runtime/arena_alloc.c:130-140 | The lease is charged for every block it has room for, served or not |
| `ArenaServes.WholeReservationServed` | runtime/arena_alloc.c:176-209 | Without ceiling and lease every block that fits the reservation is served at the cursor when the system commits |
| `ArenaServes.CreatedExactly` | runtime/arena.c:72-135 | An arena is created if and only if the sizes round up within 64 bits and the system serves them, with the least pages for its first block, or 64 KiB, committed and at least 64 MiB reserved |
| `ArenaServes.ResetExactly` | runtime/arena_reset.c:18-97 | A reset keeps committed the least pages for what was used, no less than 256 KiB and no more than 4 MiB, as far as they were committed, and starts over at the base in a new generation |
| `ArenaProofs.CreateSound` | runtime/arena.c:72-135 | Creation gives a sound arena or none |
| `ArenaProofs.ResetKeeps` | runtime/arena_reset.c:18-97 | Reset keeps the arena sound and commits nothing |
| `ArenaProofs.ResetStartsOver` | runtime/arena_reset.c:18-97 | After a reset no block is live, one segment is owned and no earlier checkpoint is accepted; what was used stays committed up to 4 MiB, and less than a page more than 4 MiB does |
| `ArenaProofs.RewindKeeps` | runtime/arena_checkpoint.c:28-45 | A rewind, accepted or refused, keeps the arena sound |
| `ArenaProofs.StepKeeps` | runtime/arena_alloc.c:119-277 | Each operation keeps arena and lease sound |
| `ArenaProofs.DoConserves` | runtime/performance.h:225-232 | Each act on any arena conserves the process accounting |
| `ArenaProofs.DoSound` | runtime/arena_alloc.c:119-277 | Each act leaves every arena of the process sound |
| `ArenaObject.OrbitArena.constructor` | runtime/arena.c:72-135 | The fields after creation are those of the specified arena |
| `ArenaObject.OrbitArena.AllocTry` | runtime/arena_alloc.c:119-277 | The object updated in place computes the specified allocation: pointer, fields and lease; a refusal reserves nothing, and a success reserves at most the new active segment |
| `ArenaObject.OrbitArena.AllocCharged` | runtime/arena_alloc.c:142-277 | The choice between the active segment and a new one |
| `ArenaObject.OrbitArena.AllocInPlace` | runtime/arena_alloc.c:142-209 | The fast path and the commit path |
| `ArenaObject.OrbitArena.AllocNewSegment` | runtime/arena_alloc.c:211-276 | The overflow path: refused by the ceiling or the system with the reserved ranges as they were, else a new active segment and its range |
| `ArenaObject.OrbitArena.CeilingReached` | runtime/arena_alloc.c:109-116 | Answers the ceiling question and records a hit |
| `ArenaObject.OrbitArena.Reset` | runtime/arena_reset.c:18-97 | The object updated in place computes the specified reset and folds its counters into the totals |
| `ArenaObject.OrbitArena.ReleaseOverflow` | runtime/arena_reset.c:23-31 | The loop releases each retired segment once and no other range |
| `ArenaObject.OrbitArena.FoldArena` | runtime/performance.h:225-232 | Adds the interval counters to the process totals |
| `ArenaObject.OrbitArena.TakeCheckpoint` | runtime/arena_checkpoint.c:18-25 | The checkpoint holds the cursor's offset in the active segment and the generation |
| `ArenaObject.OrbitArena.Rewind` | runtime/arena_checkpoint.c:28-45 | Accepts exactly checkpoints of this generation whose offset is not past the cursor's in the active segment, whichever segment they were taken in, and computes the specified rewind |
| `ArenaObject.OrbitArena.Destroy` | runtime/arena.c:138-166 | Folds the last interval and releases every owned range |
| `ArenaObject.ChargeLease` | runtime/arena_alloc.c:130-140 | Charges the lease, or refuses exactly when the sum would exceed a set limit |
| `ArenaConfig.MegabytesFromEnv` | runtime/arena.c:20-34 | The megabyte variable is used exactly when it is all digits, not zero and its bytes fit a size_t |
| `AcceptRings.InterleavingsKeep` | runtime/thread_pool.c:98-125 | Every interleaving of the acceptor and the workers, split at each shared load and store, keeps every ring and the dispatcher sound |
| `AcceptRings.RingIsFifo` | runtime/thread_pool.c:104-120 | In every reachable state what came out of a ring, then what still waits, is exactly what went in, and at most 255 sockets wait |
| `AcceptRings.WriterAndReaderApart` | runtime/thread_pool.c:104-120 | The slot being written is never one its worker may read |
| `AcceptRings.SocketInOnePlace` | runtime/thread_pool.c:202-247 | Every accepted socket is in exactly one ring's history, closed, or in the acceptor's hand, once |
| `AcceptRings.PushedOnce` | runtime/thread_pool.c:202-247 | In every reachable state no socket is in two rings' histories or twice in one |
| `AcceptRings.RefusedMeansFull` | runtime/thread_pool.c:104-111 | A push is refused only when the ring holds 255 sockets by the index the producer read |
| `AcceptRings.ClosedOnlyAfterAllRefused` | runtime/thread_pool.c:214-239 | A socket is closed only after every worker's ring refused it |
| `AcceptOrder.RoundRobin` | runtime/thread_pool.c:205-238 | Under every interleaving in which no ring was full, the sockets go to the workers in turn: number i is in the history of worker i modulo their number |
| `AcceptOrder.FourSteps` | runtime/thread_pool.c:114-120 | A worker that finds its ring not empty takes the oldest socket in four steps of its own, whatever the acceptor and the other workers do meanwhile |
| `AcceptRings.EmptyIsExact` | runtime/thread_pool.c:123-125 | The emptiness test is exact when the worker asks it between pops |
| `AcceptRings.RingBound` | runtime/thread_pool.c:104-111 | At most 255 sockets wait and full is exactly 255 |
| `ArenaPool.InterleavingsKeep` | runtime/arena_pool.c:37-78 | Every interleaving of acquires and releases keeps slots, holders and the counter consistent |
| `ArenaPool.ArenaHasOneUser` | runtime/arena_pool.c:37-78 | An arena is held, reset or destroyed by at most one thread at a time |
| `ArenaPoolUse.WaitFree` | runtime/arena_pool.c:39-78 | Acquire and release are wait-free: among any number of threads a call takes at most as many steps of its own as there are slots, and seven more |
| `ArenaPoolUse.NoSpillWhileFree` | runtime/arena_pool.c:39-56 | No acquire gives up the search, and takes an arena outside the pool, while a slot is free all the time |
| `ArenaPoolUse.AcquireAlone` | runtime/arena_pool.c:39-56 | A thread alone gets the arena of the first free slot, and with it the slot and a count, or a new arena when none is free |
| `ArenaPoolUse.ReleaseAlone` | runtime/arena_pool.c:59-78 | A thread alone that releases a pooled arena frees its slot and takes its count back; any other arena leaves the pool as it was |
| `ArenaPool.CountKeeps` | runtime/arena_pool.c:44-47 | active_count is the number of claimed slots less the threads caught between the two updates |
| `ArenaPool.QuietCountExact` | runtime/arena_pool.c:37-78 | With no thread caught mid-step active_count equals the claimed slots |
| `ArenaPool.LostExactly` | runtime/arena_pool.c:37-78 | In every reachable state a slot is lost if and only if it is in use and no thread has it, and its arena is NULL then |
| `ArenaPool.LostForGood` | runtime/arena_pool.c:37-78 | Whatever the threads do afterwards, a lost slot stays in use and no thread gets it |
| `ArenaPool.ClaimedNullIsLost` | runtime/arena_pool.c:42-48 | A thread that claimed a slot without an arena is still between the claim and its return, or the slot is lost |
| `GlobalArena.CreatedOnce` | runtime/arena_global.c:41-54 | Under every interleaving at most one arena is created and every non-NULL answer is that one |
| `GlobalArena.AnswersAgree` | runtime/arena_global.c:41-54 | Two non-NULL answers anywhere in a run name the same arena |
| `GlobalArena.NoDeadlock` | runtime/arena_global.c:41-54 | In every reachable state the next step of a thread without an answer brings it nearer to one, unless another holds the lock, and then that one's next step does |
| `AtomicMax.EndsAtMaximum` | runtime/performance.h:44-66 | When every thread is done the cell is the maximum of the initial value and all wanted values |
| `AtomicMax.RetriesBounded` | runtime/performance.h:44-66 | Under every schedule the swap of a thread fails at most as often as other threads swap, and each of them swaps at most once |
| `KynxProofs.AdmissionBound` | runtime/kynx.c:619-640 | For an IP that stays in the table, admissions N since its insertion satisfy N * window <= burst * window + elapsed * rate, through every truncation, clamp and wrap-around |
| `KynxBursts.BurstExact` | runtime/kynx.c:603-608 | Of requests at one instant an unknown client is granted exactly the burst setting, or the rate, or one, whoever else asks meanwhile |
| `KynxBursts.RestedBurst` | runtime/kynx.c:619-641 | So is a known client whose bucket has had time to fill: it has saved the allowance and no more |
| `KynxProofs.RefillOverflowExact` | runtime/kynx.c:619-640 | The refill product stays in 64 bits for every elapsed time if and only if rate * window_ms * 10^10 does |
| `KynxProofs.BanNeedsSustainedAbuse` | runtime/kynx.c:741-762 | A fresh entry that is not evicted is not banned earlier than (ceil(threshold / increment) - 1) windows after the first violation that was scored |
| `KynxProofs.OneBurstOneUnit` | runtime/kynx.c:741-762 | Until a window has passed since the first violation scored, the score is at most one increment whatever the number of denials, and there is no ban unless one increment reaches the threshold |
| `KynxBans.BanHolds` | runtime/kynx.c:706-722 | A ban denies and changes nothing from its start to its end, the duration setting or 300 s later; the advice is the time left in milliseconds if and only if that fits an int |
| `KynxBans.BanEnds` | runtime/kynx.c:706-710 | The first check after the end treats the client as not banned, with half the score |
| `KynxBans.BannedThroughout` | runtime/kynx.c:706-722 | Over every run within the ban an IP that stays in the table is never admitted and its entry is as it was |
| `KynxBans.BanLifted` | runtime/kynx.c:706-710 | The first request of such an IP after the end is judged as if it were not banned and had half the score |
| `KynxBans.DenialScores` | runtime/kynx.c:738-762 | A denial scores one increment exactly when a window has passed since the last that did, and bans exactly when the score reaches the threshold by it |
| `KynxBans.AdmissionDecays` | runtime/kynx.c:726-736 | An admission takes a token and lowers a positive score by the decay, down to 0, exactly when a window has passed since the last that did |
| `KynxBans.BannedExactly` | runtime/kynx.c:738-762 | Over every run without admissions the score grows by one increment for each scored violation, and the client is banned exactly when one was scored and the threshold is reached |
| `KynxBans.BannedAtTheThreshold` | runtime/kynx.c:738-762 | From a clean record the ban comes with violation number ceil(threshold / increment) |
| `KynxBans.DecayedExactly` | runtime/kynx.c:726-736 | Over every run of admissions the score falls by one decay for each that lowers it, down to 0 |
| `KynxBans.LongBanAdvice` | runtime/kynx.c:713-716 | The advice for a ban of 25 days that has just begun is negative |
| `KynxProofs.RetryAdviceSuffices` | runtime/kynx.c:643-654 | A denied client that asks again after exactly advice + 1 ms finds a full token, for all 32-bit settings |
| `KynxProofs.WaitExact` | runtime/kynx.c:619-640 | A wait fills a token if and only if its product, cut to ten windows and to 64 bits, is worth what is missing |
| `KynxProofs.LongWaitsExact` | runtime/kynx.c:628-640 | Every wait of advice + 1 ms or longer suffices if and only if no wait's product wraps around to less than a token, for all 32-bit settings |
| `KynxProofs.LongWaitsIffNoOverflow` | runtime/kynx.c:628-640 | For rates of at most window_ms * 10^6 that is so if and only if rate * window_ms * 10^10 fits 64 bits |
| `KynxProofs.LongIdleDenied` | runtime/kynx.c:628-629 | At 40000 requests a minute a client that stays away for 461 seconds is still denied |
| `KynxProofs.RetryAdviceExact` | runtime/kynx.c:643-654 | The advice itself is enough if and only if the division was exact or was raised to the 1 ms minimum, for all 32-bit settings |
| `KynxProofs.RetryAdviceTooShort` | runtime/kynx.c:643-654 | Three requests a second: the advice of 333 ms is one thousandth of a token short |
| `KynxProofs.DeniedThenAdmitted` | runtime/kynx.c:725-762 | After a denial that is no ban, asking again exactly advice + 1 ms later is admitted, for all 32-bit settings |
| `KynxProofs.DeniedThenAdmittedLater` | runtime/kynx.c:725-762 | So is asking later still, for the settings under which longer waits suffice |
| `KynxProofs.AdviceValue` | runtime/kynx.c:643-654 | The advice is the wait rounded down, at least 1 ms, and its upper clamp never bites |
| `KynxProofs.CheckKeeps` | runtime/kynx.c:692-797 | Every check keeps each IP at most once and the count exact, eviction included |
| `KynxProofs.CheckEffect` | runtime/kynx.c:692-797 | A check moves its own IP's entry and leaves every other IP's entry as it was unless it evicts it |
| `KynxProofs.ServeKeeps` | runtime/kynx.c:671-798 | Every reachable shard is sound |
| `KynxProofs.EvictsLeastRecent` | runtime/kynx.c:765-777 | A full table gives up an entry that was refilled longest ago |
| `KynxProofs.OldestIsLeast` | runtime/kynx.c:765-768 | The eviction scan finds the first entry with the least refill time before now |
| `KynxShard.ShardObject.Check` | runtime/kynx.c:692-797 | The table updated in place computes the specified check: answer, advice and entries |
| `KynxState.ThresholdsOrdered` | runtime/kynx.c:816-826 | For every pool size up to INT_MAX / 3 the tiers are strictly ordered and each release level lies above the tier below |
| `KynxState.ThresholdsAre` | runtime/kynx.c:816-826 | The tiers are a sixteenth, a quarter and the whole of the pool, rounded down, a pool below 16 counting as 16 and one that is not positive as 512 |
| `KynxState.LeaseStepAgrees` | runtime/kynx.c:828-846 | One lease more or less, then its update, keeps level and count in agreement |
| `KynxState.SettlesInThree` | runtime/kynx.c:828-846 | At a fixed count updates settle within three steps, each by at most one tier, none reversing |
| `KynxState.SettledIffAgrees` | runtime/kynx.c:828-846 | An update leaves a level alone exactly when it agrees with the count |
| `KynxState.DefaultPool` | runtime/kynx.c:812-826 | The thresholds of the historical pool size |
| `KynxState.Admission.constructor` | runtime/kynx.c:544-578 | Starts stable with no lease |
| `KynxState.Admission.Transition` | runtime/kynx.c:802-810 | Sets the state and the siege flag together |
| `KynxState.Admission.UpdateAdmission` | runtime/kynx.c:828-846 | Computes the specified level from the active count |
| `KynxState.Admission.LeaseCreate` | runtime/kynx.c:851-854 | Counts the lease and updates; state, count and siege flag agree |
| `KynxState.Admission.LeaseDestroy` | runtime/kynx.c:958-959 | Uncounts the lease and updates; state, count and siege flag agree |
| `KynxAddressProofs.PrintedFormParses` | runtime/kynx.c:178-197 | The canonical lower-case text of any address, full or with any non-empty zero run compressed, parses back to its 16 bytes |
| `KynxAddressProofs.FullFormParses` | runtime/kynx.c:129-197 | Eight groups in one to four hex digits of either case parse to the address (section 2.2 of RFC 4291) |
| `KynxAddressProofs.CompressedFormParses` | runtime/kynx.c:178-197 | Compressing any non-empty run of zero groups anywhere parses to the same 16 bytes |
| `KynxAddressProofs.MixedFormParses` | runtime/kynx.c:135-151 | Six groups and a dotted quad parse to their bytes |
| `KynxAddressProofs.QuadFormParses` | runtime/kynx.c:103-125 | Four decimal octets parse to the 32-bit address, first octet high |
| `KynxAddressProofs.EmptyOctetsAccepted` | runtime/kynx.c:103-125 | Three dots alone are read as 0.0.0.0 |
| `KynxAddressLanguage.QuadLanguage` | runtime/kynx.c:103-125 | A text is an IPv4 address if and only if it is four runs of digits, empty or of at most 255, with dots between them |
| `KynxAddressLanguage.AddressLanguage` | runtime/kynx.c:129-197 | A text is an IPv6 address, and which, if and only if it is eight groups, six and a quad, or two spans around one double colon with at most 14 and together at most 16 bytes |
| `KynxAddressLanguage.ParseLanguage` | runtime/kynx.c:199-209 | The parser gives an IPv4 address or an IPv6 address exactly for those texts |
| `KynxAddressLanguage.NoZerosAccepted` | runtime/kynx.c:185-196 | Eight groups with a double colon before the last are accepted: it stands for no zeros |
| `KynxAddress.ParseV4` | runtime/kynx.c:103-125 | The digit walk accepts exactly four dot-separated octets of at most 255 and combines them |
| `KynxAddress.QuadFromIsQuad` | runtime/kynx.c:103-125 | Reading character by character agrees with cutting at the dots |
| `KynxAddress.ParseGroup` | runtime/kynx.c:153-163 | The hex loop reads a value of at most 16 bits or refuses |
| `KynxAddress.ParsePiece` | runtime/kynx.c:132-170 | One colon-separated piece gives its bytes or is refused |
| `KynxAddress.ParseSpan` | runtime/kynx.c:129-173 | The span loop gives the bytes of all colon-separated pieces, at most 16, or refuses |
| `KynxAddress.FindColons` | runtime/kynx.c:180-184 | Finds the first double colon |
| `KynxAddress.ParseV6` | runtime/kynx.c:178-197 | Computes the 16 bytes the text denotes, or refuses |
| `KynxAddress.ParseIp` | runtime/kynx.c:199-209 | A text with a colon is IPv6, any other IPv4 |
| `KynxNetworks.IpInNet` | runtime/kynx.c:274-299 | Comparing whole bytes and one masked byte answers whether the first prefix bits agree and the families match |
| `KynxNetworks.PrefixBits` | runtime/kynx.c:292-297 | Whole bytes and the masked byte agree if and only if the first bits do |
| `KynxNetworks.MaskedBits` | runtime/kynx.c:293-296 | Two bytes agree under the mask if and only if their high bits do |
| `KynxNetworks.FullBytes` | runtime/kynx.c:292-292 | Whole bytes agree if and only if all their bits do |
| `KynxNetworks.ParsedIsStored` | runtime/kynx.c:199-209 | Every parsed address is 32 bits or 16 bytes |
| `KynxProxy.TrustedProxies.constructor` | runtime/kynx.c:301-315 | Starts with no trusted network |
| `KynxProxy.TrustedProxies.Add` | runtime/kynx.c:237-272 | The list gains exactly the network the text names, if it names one, is new and there is room |
| `KynxProxy.TrustedProxies.IsTrusted` | runtime/kynx.c:301-309 | True exactly when the text is an address inside some listed network |
| `KynxProxy.TrustedProxies.EffectiveIp` | runtime/kynx.c:320-357 | The output buffer holds the effective address, cut to its length |
| `KynxProxy.TrustedProxies.Walk` | runtime/kynx.c:329-355 | The right-to-left loop ends and finds the last hop that is a client, or none |
| `KynxProxy.TrustedProxies.TryHop` | runtime/kynx.c:335-352 | One hop: its cut, trimmed text when that is an address outside every trusted network |
| `KynxProxy.RightmostClient` | runtime/kynx.c:317-319 | The answer is the rightmost hop that is a client |
| `KynxProxy.NoClientHop` | runtime/kynx.c:355-356 | The peer keeps its address exactly when no hop is a client |
| `KynxProxy.ForgedPrefixIgnored` | runtime/kynx.c:317-357 | Header text before a comma cannot displace a client found after it |
| `KynxProxy.BlanksSeenTwice` | runtime/kynx.c:353-354 | Stepping back from after the leading blanks, not from the comma, never changes the answer |
| `KynxProxy.HopsJudgedWholeIff` | runtime/kynx.c:339-345 | Every hop of n characters is judged by all of them if and only if n is at most 63 |
| `KynxProxy.HeadersJudgedWholeIff` | runtime/kynx.c:317-357 | For every header whose hops have at most n characters the answer is the rightmost hop that is a client as it stands in the header, if and only if n is at most 63 |
| `KynxProxy.OverlongHopAccepted` | runtime/kynx.c:339-345 | From 64 characters on there is a hop of each length that is no address and whose first 63 characters are one |
| `KynxProxy.OverlongHeaderBelieved` | runtime/kynx.c:317-357 | A header of one such hop, sent through a trusted proxy, moves the answer away from the peer |
| `KynxProxy.MalformedPrefixTrustsNothing` | runtime/kynx.c:246-257 | A prefix that is empty, over three characters or not digits adds nothing |
| `KynxProxy.TrustedIffNamed` | runtime/kynx.c:237-272 | After any configuration a network is listed only if some text names it and, while there is room, whenever one does |
| `KynxProxyRules.AddressAlone` | runtime/kynx.c:237-272 | An address without a prefix names the network of that address alone |
| `KynxProxyRules.AddressAndPrefix` | runtime/kynx.c:237-272 | With a slash behind it a text names a network if and only if one to three digits follow that do not exceed the width |
| `KynxProxyRules.ClientFound` | runtime/kynx.c:320-357 | Behind a trusted peer the answer is an address outside the trusted networks, with or without blanks around it, behind which no other stands |
| `KynxProxyRules.PeerKept` | runtime/kynx.c:320-357 | The peer keeps its address when it is not trusted and when no hop is such an address |
| `KynxProxyRules.ClientExactly` | runtime/kynx.c:332-345 | Blanks around a hop of up to 63 characters do not count, and it is a client exactly when it is an address in no trusted network |
| `KynxProxy.ConfiguredOk` | runtime/kynx.c:263-271 | After any configuration: at most 16 networks, no duplicates, prefixes within the family's width |
| `JsonTextProofs.StringRoundTripExact` | runtime/json.c:797-819 | A printed string parses back to itself if and only if its only control characters are newline, return and tab, whatever follows it |
| `JsonTextProofs.PlainRoundTrip` | runtime/json.c:299-410 | A string without numeric escapes is read back |
| `JsonTextProofs.NumericEscapeBreaks` | runtime/json.c:356-394 | A string with any other control character is never read back, whatever the characters behind it |
| `JsonTextProofs.EscapePassesOneMore` | runtime/json.c:356-356 | After a numeric escape outside the surrogates one character more is passed over, so documents that differ only there decode alike |
| `JsonTextProofs.DecodedNulAccepted` | runtime/json.c:294-298 | A decoded NUL is not refused, wherever in a string it stands; it ends the string the program sees, and the document is read on behind the closing quote |
| `JsonTextProofs.BodyFrom` | runtime/json.c:299-410 | From any step of a string on, decoding gives the bytes of the steps before it and then what the rest decodes to |
| `JsonWritten.StringLanguage` | runtime/json.c:299-410 | A string is read, and as given bytes, if and only if it is written in characters, short escapes, surrogate pairs and numeric escapes with one lost character each that stand for them |
| `JsonWritten.PairMeans` | runtime/json.c:334-346 | A surrogate pair is the code point of RFC 8259 in the bytes of RFC 3629 |
| `JsonTextProofs.OverrunExact` | runtime/json.c:310-356 | The measuring pass reads behind the NUL of the text if and only if one of its steps is a numeric escape outside a surrogate pair that the NUL follows directly |
| `JsonBounds.SafeUnlessEscapeAtEnd` | runtime/json.c:696-716 | A document whose last six characters are not a numeric escape outside a surrogate pair is never read behind its NUL |
| `JsonBounds.OverrunInput` | runtime/json.c:310-356 | An object cut off behind such an escape is |
| `JsonText.Utf8RoundTrip` | runtime/json.c:269-292 | The emitted bytes decode to the code point by RFC 3629, for every code point |
| `JsonParser.Parser.Measure` | runtime/json.c:300-366 | The first pass finds the closing quote and the exact number of decoded bytes, or the problem, and reads no further than the NUL, for every string it does not overrun |
| `JsonParser.Parser.Decode` | runtime/json.c:367-409 | The second pass fills an array of that size plus one with exactly the decoded bytes and a NUL |
| `JsonParser.Parser.MeasureStep` | runtime/json.c:304-361 | One step of the first pass: its byte count, its length and its problem |
| `JsonParser.Parser.DecodeStep` | runtime/json.c:377-405 | One step of the second pass writes the bytes the first pass counted |
| `JsonParser.Parser.ReadText` | runtime/json.c:299-410 | Computes the C string of the decoded bytes and advances past the quote, or reports the first problem, for every string the first pass does not overrun |
| `JsonParser.Parser.ReadNumber` | runtime/json.c:415-479 | Computes the specified number, advances past it, or reports why not |
| `JsonParser.Parser.ReadLiteral` | runtime/json.c:481-486 | Advances past exactly the word, or refuses |
| `JsonParser.Parser.ReadValue` | runtime/json.c:617-686 | Computes the specified value from the cursor on, with the depth check first |
| `JsonParser.Parser.ReadObject` | runtime/json.c:490-540 | Reads fields into an object grown in place: repeated keys overwrite, nulls are dropped |
| `JsonParser.Parser.ReadArray` | runtime/json.c:542-615 | Reads one kind of elements; nulls, nested arrays and mixed kinds are refused |
| `JsonParser.Parser.ReadDocument` | runtime/json.c:696-716 | An object and nothing after it, or the first problem, with no read behind the NUL, for every text that is not overrun |
| `JsonShape.ParsedIsUniform` | runtime/json.c:490-686 | Whatever text the parser accepts, at every level of the value lists have one kind of elements and no null or list among them, objects have no null and no key twice, and nothing lies beyond the depth limit |
| `JsonShape.ReparseStable` | runtime/json.c:696-716 | A document that was read, printed and read again is the same object, unless it has a float or a string with a control character other than newline, return and tab |
| `JsonObject.OrbitObject.Set` | runtime/json.c:84-113 | Overwrites at the first position or appends; growth keeps every field |
| `JsonObject.OrbitObject.Get` | runtime/json.c:142-149 | The field's value, null when missing |
| `JsonObject.OrbitObject.Grow` | runtime/json.c:95-109 | Copies both arrays into twice the room, at first four |
| `JsonPrinter.JsonBuf.Reserve` | runtime/json.c:764-772 | Keeps the text; if the bytes do not fit, the room is doubled to less than twice what is needed |
| `JsonPrinter.JsonBuf.Puts` | runtime/json.c:774-780 | Appends the text and keeps the final NUL |
| `JsonPrinter.JsonBuf.Putc` | runtime/json.c:782-786 | Appends one character and keeps the final NUL |
| `JsonPrinter.JsonBuf.PutString` | runtime/json.c:797-819 | Appends the printed string |
| `JsonPrinter.JsonBuf.PutValue` | runtime/json.c:821-858 | Appends the printed value |
| `JsonPrinter.JsonBuf.PutList` | runtime/json.c:867-906 | Appends the printed list |
| `JsonPrinter.JsonBuf.PutObject` | runtime/json.c:908-921 | Appends the printed object, fields in order |
| `JsonPrinter.ObjectToJson` | runtime/json.c:923-934 | Returns the printed form |
| `JsonProofs.DocumentRoundTrip` | runtime/json.c:696-716 | Parsing a printed object gives it back without its null fields exactly when no value lies more than 64 levels deep; deeper ones are refused for their depth |
| `JsonLayout.LayoutParsed` | runtime/json.c:696-716 | Every object written as RFC 8259 has it, in any layout of blanks, tabs, newlines and returns, is read as what it says exactly when no value lies more than 64 levels deep |
| `JsonLayout.DocParsed` | runtime/json.c:617-686 | The same for any value at any depth, whatever text follows it |
| `JsonLanguage.DocumentLanguage` | runtime/json.c:696-716 | A text is accepted as a document, and as which object, if and only if it is a layout of a written object that denotes it, at most 64 levels deep |
| `JsonLayout.NumeralParsed` | runtime/json.c:415-479 | Every JSON numeral is read as the integer or the float it denotes, or refused for its range |
| `JsonSpaced.SpacedLikePrinted` | runtime/json.c:696-716 | White space between the tokens of a printed object and behind it changes nothing |
| `JsonSpaced.RepeatedKeys` | runtime/json.c:84-113 | A repeated key answers with its last value that is not null, and keys stay in the order of their first such values |
| `JsonSpaced.SetAnswers` | runtime/json.c:84-113 | Setting a field answers its key and leaves every other answer, whether the key was there or not |
| `JsonProofs.ParsedAnswersAlike` | runtime/json.c:142-149 | The object that comes back answers every getter as the printed one does |
| `JsonProofs.ValueRoundTrip` | runtime/json.c:617-686 | The same for any value at any depth, whatever text follows it |
| `JsonProofs.StripIsObservedEqual` | runtime/json.c:520-525 | Dropping null fields changes no getter's answer |
| `JsonProofs.IntegerRoundTrip` | runtime/json.c:415-479 | Every 64-bit integer, the least included, is read back from its printed form |
| `JsonProofs.NumeralRead` | runtime/json.c:457-464 | A numeral without fraction or exponent is an integer exactly when it fits 64 bits, else refused |
| `JsonProofs.ObjectRoundTrip` | runtime/json.c:490-540 | Objects, key order kept |
| `JsonProofs.ArrayRoundTrip` | runtime/json.c:542-615 | Lists of one element kind |
| `HttpMessages.MessagesPipelined` | runtime/http.c:137-349 | Well-formed requests within the limits, written one after another, come out one by one as their clients meant them, and unfinished bytes behind them stay |
| `HttpMessages.MessageParsed` | runtime/http.c:137-349 | A well-formed request is accepted to its last byte with its method, path, query, header block and body |
| `HttpMessages.LengthRead` | runtime/http.c:208-244 | A Content-Length of blanks and digits is read as that number, saturated at 2^63 - 1 |
| `HttpMessages.FramedScan` | runtime/http.c:187-262 | One Content-Length among neutral header lines gives the body length and no fault |
| `HttpVerdicts.Judged` | runtime/http.c:141-263 | A written request with any header fields is refused for its line, its headers, a field `transfer-encoding:`, blanks, `chunked`, a Content-Length without a number or two that differ, and a number beyond the body limit, exactly in this order, and for nothing else |
| `HttpVerdicts.BodyTaken` | runtime/http.c:265-298 | If it is not refused it waits for as many bytes as its one length tells, or none, and gets exactly those as its body |
| `HttpVerdicts.EndlessLine` | runtime/http.c:143-155 | Bytes without a newline are waited on up to the line limit and a return, and refused beyond |
| `HttpProofs.PipelineInOrder` | runtime/http.c:137-349 | Repeated parsing at the consumed offset returns whole requests in order, in the buffer as each parse leaves it |
| `HttpProofs.SuffixIgnored` | runtime/http.c:137-349 | Acceptance, the request and the consumed length do not depend on the bytes that follow, if there is a second space in the bytes accepted |
| `HttpProofs.SuffixIgnoredIff` | runtime/http.c:297-321 | Accepted bytes are judged alone whatever follows them if and only if there is a second space in them |
| `HttpProofs.PrefixNeverAccepted` | runtime/http.c:137-349 | No proper prefix of an accepted request is accepted |
| `HttpProofs.PrefixesWait` | runtime/http.c:157-180 | Every proper prefix of an accepted request makes the parser wait if and only if the bytes from the request line to three behind the header block are within the limit |
| `HttpProofs.RefusalStands` | runtime/http.c:143-263 | Nor does a refusal once the head is complete |
| `HttpProofs.WritesInsideLine` | runtime/http.c:293-323 | The parser leaves every byte from the end of the request line on as it was if and only if the path it found ends on that line |
| `HttpParser.ParseRequest` | runtime/http.c:137-349 | The parse over the receive buffer computes the specified outcome and leaves every other byte alone; without acceptance the buffer is unchanged |
| `HttpParser.Decide` | runtime/http.c:141-298 | Limits, head, lengths and body are judged in the code's order |
| `HttpParser.CheckLine` | runtime/http.c:143-155 | Searching only a window of the limit decides the line limit exactly |
| `HttpParser.FindHeadEnd` | runtime/http.c:97-106 | Finds the first empty line, or reports none, without reading past the bytes |
| `HttpParser.CheckHeaders` | runtime/http.c:160-178 | Refuses exactly when the header bytes or lines exceed their limits |
| `HttpParser.CountLines` | runtime/http.c:168-177 | Counts the lines of the header block |
| `HttpParser.ScanHeaders` | runtime/http.c:187-248 | The single pass computes the effect of every line of the head in order |
| `HttpParser.ScanOneLine` | runtime/http.c:196-246 | First-byte dispatch misses neither header name |
| `HttpParser.ReadLength` | runtime/http.c:208-238 | Computes the value and whether it is unusable: no digits or a minus sign |
| `HttpParser.ReadDigits` | runtime/http.c:219-232 | Accumulates the digit run and stays exactly at 2^63 - 1 beyond it |
| `HttpParser.FindCuts` | runtime/http.c:296-312 | Finds the first space, the second one or the character behind the first, and the question mark |
| `HttpChunks.ChunksDecode` | runtime/http.c:1288-1337 | Decoding a chunked body gives the chunks' data in order, whatever the cut, the extensions and the trailer |
| `HttpChunks.CutShort` | runtime/http.c:1288-1337 | A chunked body that ends before the return of its last, empty chunk is never decoded |
| `HttpChunkLanguage.ChunkLanguage` | runtime/http.c:1288-1337 | A text is decoded, and to a given body, if and only if it is written as chunks of that body: sizes of at most eight digits of either case or none, extensions, any line ends, and anything behind the last |
| `HttpChunkLanguage.TooBigExactly` | runtime/http.c:1293-1316 | A size is too big exactly when nine digits come first |
| `HttpChunks.DecodeChunks` | runtime/http.c:1288-1337 | The loop computes the specified body or the first fault |
| `HttpChunks.ReadSize` | runtime/http.c:1293-1316 | At most eight hex digits before extensions; faults in the code's order |
| `HttpChunks.NextChunk` | runtime/http.c:1288-1337 | One turn of the loop |
| `Routes.RouteVerdict` | runtime/http.c:748-841 | A route matches exactly when its non-empty segments accept the path's segment by segment, cut at a question mark or hash |
| `Routes.VerdictExact` | runtime/http.c:770-838 | The segment rules as a condition on the two lists: equal length and pairwise fit, or a final rest segment with at least one segment left and no slash behind it |
| `RouteRules.RouteMeaning` | runtime/http.c:748-841 | A pattern of `:name`, `{name}`, `*` and words matches exactly the paths whose segments they accept one by one, and captures what the names stand for, in order; a colon or braces without a name accept nothing |
| `RouteRules.RestMeaning` | runtime/http.c:781-808 | A final `:name...` captures all that follows the segments before it, without the slashes at the end |
| `RouteRules.RestRefuses` | runtime/http.c:781-786 | It needs a segment for itself, and nothing may follow it in the pattern |
| `RouteRules.EveryTextIsAPart` | runtime/http.c:781-834 | Every non-empty text between slashes is one of these |
| `Routes.PathSlashesIgnored` | runtime/http.c:764-765 | Repeated and trailing slashes in a path never change the verdict |
| `Routes.PatternSlashes` | runtime/http.c:781-785 | Nor in a pattern, except that a slash behind a final rest segment makes it match nothing |
| `Routes.OrbitRequest.constructor` | runtime/http.c:748-752 | A request starts with no parameters and 32 slots |
| `Routes.OrbitRequest.RouteMatch` | runtime/http.c:748-841 | The cursor loop answers the specified match, stores the first 32 captures in order, counts all of them, and leaves a count of 0 on failure |
| `Routes.OrbitRequest.Store` | runtime/http.c:790-800 | Stores a capture if it has a slot |
| `Routes.HeadsAreSegments` | runtime/http.c:772-777 | What the loop compares are the non-empty segments |
| `Strings.PiecesJoin` | runtime/collections.c:564-599 | No piece contains the delimiter and joining the pieces with it gives the text back |
| `Strings.SplitInvertsJoin` | runtime/collections.c:564-599 | Splitting a joined list gives the list back if and only if no delimiter starts early by overlapping a piece and the last piece has none |
| `Strings.OverlapLosesList` | runtime/collections.c:564-599 | The list a, empty joined with aa splits differently |
| `Strings.Split` | runtime/collections.c:564-599 | The loop computes the pieces; an empty delimiter gives the text alone |
| `Strings.StrStr` | runtime/collections.c:576-588 | Finds the first occurrence |
| `Strings.CountedSize` | runtime/collections.c:615-623 | The counting pass predicts the result's length also when the unsigned difference of the lengths wraps |
| `Strings.CountPieces` | runtime/collections.c:610-616 | Counts the occurrences the writing pass will replace |
| `Strings.WriteReplaced` | runtime/collections.c:626-639 | The writing pass fills the buffer with exactly the pieces joined by the new text |
| `Strings.Replace` | runtime/collections.c:601-640 | Gives the pieces joined by the new text, or the text itself when nothing is replaced |
| `Strings.CBuf.constructor` | runtime/collections.c:513-524 | An empty buffer, by default of 65536 bytes |
| `Strings.CBuf.Append` | runtime/collections.c:526-548 | Appends the text; growth at least doubles, so the blocks left behind stay smaller than the one in use |
| `Strings.CBuf.Build` | runtime/collections.c:550-562 | Ends the contents with a NUL; a buffer grown by appending is not copied |

## Left out

- Amalgamation.AmalgamationPreservesMeaning: does not model an `#include` inside a comment, which the script's pattern also matches, nor a conditional that opens in one file and closes in another.
- ArenaProofs.RunKeeps: does not bound `used` by `peak_used`, because the overflow path does not update the peak; counters are unbounded where the code has 64 bits.
- KynxProofs.OneBurstOneUnit: does not cover a window of 0 ms or less, with which the code scores every denial.
- KynxProofs.BanNeedsSustainedAbuse: needs a positive window too, and does not speak of an entry that is evicted, because eviction forgets a ban; the score and the windows are unbounded integers where the code has 32 and 64 bits.
- KynxProofs.AdmissionBound: does not speak of an IP across an eviction, because a new entry starts with a full bucket.
- KynxState.Admission.LeaseCreate: does not model the lease's budgets, its route rules and its energy estimate.
- JsonProofs.DocumentRoundTrip: does not cover floats, because `%g` loses digits and `strtod` is a foreign call; which float texts are finite is a parameter.
- JsonParser.Parser.ReadDocument: does not say what a text that is overrun gives, because that depends on the bytes behind its NUL.
- JsonParser.Parser.ReadValue: does not model a failed allocation, and values are trees, so an object that contains itself is not covered.
- HttpParser.ParseRequest: does not model a failed allocation; the header and body copies are values.
- HttpMessages.MessagesPipelined: does not cover requests whose line has fewer than two spaces; for those the parser searches for a space in the header lines and the body, and `HttpProofs.SuffixIgnoredIff` says when it finds its own.
- HttpChunks.DecodeChunks: does not model a failed allocation, and the chunk size is unbounded where the code has a `long`.
- Strings.Replace: does not model the overflow of the `int` that counts occurrences beyond 2^31 - 1.
- Strings.CBuf.Append: does not model a failed allocation, after which the buffer is unchanged.
- Routes.OrbitRequest.RouteMatch: does not model missing arguments and a failed allocation, which answer false.
- The Bloom filter of Kynx, which nothing reads, and the per-route buckets, whose refill clamps to the rate and not to the burst.
- Weak memory effects, and the build that turns atomics into plain stores.
- Sockets, DNS, files, processes, the console, crash reports and clocks: foreign calls.
- The out-of-memory handler and its long jump: failure is a null result.
- SQLite, authentication, migrations and the query builder: their guarantees lie in a library that is not part of this model.
- The generated worker loop and `runtime/orb/lists.orb`: workers are arbitrary consumers, lists are sequences.
- The energy and joule estimates, float printing and the latency histogram.
- Query and URL decoding, the 64-entry cache, the string pool, typed getters, response building and the accessor wrappers: they would only add easy members.
- The gate drivers and self-tests in `scripts/`.

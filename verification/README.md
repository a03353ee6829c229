# Prime search: a Dafny model of its arithmetic core

The repository has several programs, and each one outputs the primes among the
odd numbers of one fixed range. All but `rust-vulkan` also count them. The variants are:

- `simple`: one loop.
- `threaded`: pthreads, one equal chunk per thread.
- `threadpool`: workers claim fixed-size work items from an atomic counter and
  record primes as bits.
- `directcompute`: a GPU shader fills a bit buffer that the host decodes.
- `rust-vulkan`: a Vulkan compute shader and a host decode loop.

In every variant the range is the 10485760 odd values from 1000001 below
21971521.

This project models the integer core shared by these variants:

- the trial-division test `checkPrime` (module `Primality`);
- how each variant cuts the range into pieces;
- the bit-packed result store, where bit `j` of a slot means "slot base + 2 j passes the test";
- the replay that walks slots and bits in index order (module `OddScan`, which all the variants share);
- the thread pool's work-claim counter, as a sequential state machine (module `WorkClaim`).

Each variant has its own module: `Simple`, `Threaded`, `ThreadPool`,
`DirectCompute` and `Vulkan`.

Numbers are unbounded naturals. The source computes in unsigned 32-bit
`ValType`, `UINT` and `u32`, and in signed 32-bit `int` in `simple` and
`threaded`. Lemmas show that every value the configured constants produce
stays below those limits. The constant `kEnd` of `threadpool` and
`directcompute` is computed and never read, so its wrap-around changes no
output (`ThreadPool.KEnd` writes it out). The wrap-around that does change
behaviour is the thread pool worker's `end = start + kCountPerWorkItem`; the
model writes it out as `ThreadPool.WrappedItemEnd`.

The output is modelled as the emitted sequence `seq<nat>`: the lines printed
to standard output, or for `directcompute` the lines written to the file
`primes.txt`. A 32-bit word
is modelled as its 32 bits, with bit j standing for `1 << j`.

The common reference definition is `KeepPrimes(Progression(first, n))`: the
values of the odd progression that pass `CheckPrime`. `Primality.CheckPrimeCorrect`
ties `CheckPrime` to `IsPrime` for odd inputs of at least 3.

## Model

| member | source | states |
|---|---|---|
| Primality.IsqrtSpec | threadpool/prime.cpp:36 | the integer square root that stands in for `static_cast<ValType>(sqrt(p))` is the floor: r² ≤ p < (r+1)² |
| Primality.CheckPrimeCorrect | threadpool/prime.cpp:34-43 | for odd p ≥ 3, `checkPrime(p)` (odd divisors 3 … floor √p) is true iff p is prime |
| Primality.EvenInputMisjudged | threadpool/prime.cpp:34 | the "only works for odd numbers" warning is real: `checkPrime(4)` is true although 4 is not prime |
| Primality.OddTrialDivisionDecides | simple/prime.cpp:11-19 | for odd p ≥ 3, testing the odd divisors from 3 up to any limit between floor √p and p - 1 decides primality |
| Primality.ShaderCheckPrimeCorrect | rust-vulkan/src/main.rs:61-69 | the shader's bound `uint(sqrt(p) + 1)` tests odd i with 3 ≤ i < p only, so for odd p ≥ 3 it is still true iff p is prime, and it agrees with the host's `checkPrime` |
| Primality.TrialDivision | threaded/prime.cpp:21-30 | the divisor loop returns true iff no i of the loop's parity between the start and the limit divides p |
| OddScan.SetLowBit | simple/prime.cpp:22 | `kStart` with bit 0 set is odd and is kStart or kStart + 1; it is kStart when kStart is odd |
| OddScan.StrideCount | simple/prime.cpp:26 | the loop `for (i = start; i < end; i += 2)` runs exactly n times, where n is the least count with start + 2n ≥ end |
| OddScan.ScanRange | simple/prime.cpp:24-32 | the scan loop emits exactly the values of [start, end) with start's parity that pass `checkPrime`, in ascending order; the count is the number emitted |
| OddScan.ProgressionMembers | simple/prime.cpp:26 | x is visited iff start ≤ x < start + 2n and x - start is even |
| OddScan.KeepPrimesOddRange | simple/prime.cpp:26-28 | from an odd start ≥ 3, the values kept are exactly the odd primes of [start, start + 2n) |
| OddScan.KeepPrimesAppend | threaded/prime.cpp:62-66 | filtering a concatenation is concatenating the filtered parts, so per-part counts add up |
| OddScan.KeepPrimesSplit | threaded/prime.cpp:34-39 | the primes of a progression of n + m values are those of its first n values followed by those of the next m |
| OddScan.ProgressionSplit | threaded/prime.cpp:34-39 | a progression of n + m values is its first n values followed by the next m from start + 2n |
| OddScan.PopcountSet | threadpool/prime.cpp:56-57 | setting a clear bit raises the number of set bits by one, which keeps `++prime_count` equal to the bits set |
| OddScan.DecodeBitsMembers | threadpool/prime.cpp:86-88 | a bitset decodes to base + 2j exactly for its set bits j |
| OddScan.DecodeBitsShape | threadpool/prime.cpp:86-88 | decoding one bitset yields ascending values inside [base, base + 2 · width) |
| OddScan.DecodePrimeBits | threadpool/prime.cpp:52-57 | encode then decode: decoding the bitset that marks the primes of a progression gives back exactly those primes, in order |
| OddScan.TotalBitsUpdate | threadpool/prime.cpp:56 | overwriting one slot changes the total bit count by the difference of the slots' counts |
| OddScan.SlotBaseValue | threadpool/prime.cpp:50 | slot w starts at base + 2 · w · width |
| OddScan.ReplayShape | threadpool/prime.cpp:84-91 | for any bits, the replay is strictly ascending and lies in the slots' window, with no sort needed |
| OddScan.ReplayHasBit | threadpool/prime.cpp:84-89 | slot w, bit j is replayed as base + 2(w · width + j) iff that bit is set |
| OddScan.PrimeSlotsIndex | threadpool/prime.cpp:27 | slot k of the filled store is the prime bitset of the k-th window |
| OddScan.ReplayPrimeSlots | threadpool/prime.cpp:84-91 | round trip: replaying the store of prime bitsets gives exactly the primes of the whole range, in order |
| OddScan.DecodeSlot | threadpool/prime.cpp:86-90 | the inner replay loop over one bitset emits the decoded values of that bitset |
| OddScan.DecodeSlots | directcompute/prime.cpp:68-73 | the nested read-back loop emits the replay of all slots, ascending, and its count is the number of set bits |
| Simple.SearchPrimes | simple/prime.cpp:21-33 | `searchPrimes` emits the primes of the odd values from kStart with bit 0 set up to kStart + kCount in ascending order, and for kStart ≥ 2 these are exactly the odd primes of [kStart, kStart + kCount); the returned count is their number |
| Simple.EmittedArePrimes | simple/prime.cpp:22-28 | a value is printed iff it is an odd prime of [kStart, end) |
| Simple.ConfiguredRange | simple/prime.cpp:7-8 | the configured scan starts at 1000001 and visits 10485760 odd values, and `kStart + kCount` fits a signed 32-bit `int` |
| Threaded.StartValueFormula | threaded/prime.cpp:54-58 | thread t receives start_value = kStart + t · (kCount / kThreads) |
| Threaded.SearchChunk | threaded/prime.cpp:32-47 | a thread's `prime_count` is the number of primes among the odd values of [s, s + chunk), where s is start_value with bit 0 set |
| Threaded.Launch | threaded/prime.cpp:54-61 | the launch loop gives every thread the right start value, and each finished thread's record holds its own range's prime count |
| Threaded.Join | threaded/prime.cpp:62-66 | the join loop's total is the sum of the per-thread counts |
| Threaded.FinishedTotal | threaded/prime.cpp:62-66 | the sum of the finished threads' counts is the number of primes in everything the threads visited |
| Threaded.Run | threaded/prime.cpp:54-66 | `main`'s total counts the primes of all chunks, one per visit; under the admissible guard it equals the single-threaded count |
| Threaded.ThreadRangeAdmissible | threaded/prime.cpp:34-36 | with an even chunk, thread t visits half a chunk of odd values, starting right after thread t - 1 ends |
| Threaded.ScannedAdmissible | threaded/prime.cpp:34-39 | with an even chunk, threads 0 … n - 1 together visit one contiguous odd progression, with no gap and no overlap |
| Threaded.ThreadsMatchSimple | threaded/prime.cpp:13 | with a guard that also makes the chunk even, the threads visit exactly the values of the single-threaded scan |
| Threaded.ConfiguredAdmissible | threaded/prime.cpp:9-39 | the configured constants pass that guard, with chunk 2621440, and every value a thread computes, up to one step past its `end`, fits a signed 32-bit `int` |
| Threaded.OverlapExample | threaded/prime.cpp:13 | the guard as written admits kStart = 2, kCount = 6, kThreads = 2: the prime 5 is counted twice, giving 4 against 3 |
| ThreadPool.ItemStartFormula | threadpool/prime.cpp:50 | item w starts at kStart + w · kCountPerWorkItem |
| ThreadPool.ItemsPartition | threadpool/prime.cpp:50-51 | x lies in item w iff x is in [kStart, kStart + kCount) and its offset divided by the item size is w; so no two items overlap |
| ThreadPool.ItemsCover | threadpool/prime.cpp:20-21 | every value of [kStart, kStart + kCount) lies in some item below kWorkItems, so the items leave no gap |
| ThreadPool.NoWrap | threadpool/prime.cpp:18-51 | under the guard that the range fits 32 bits, every item end stays below 2³² and `kEnd` is the exact sum |
| ThreadPool.WorkerNoWrap | threadpool/prime.cpp:50-51 | under that guard the worker's `start` and `end`, as `ValType` holds them, equal the exact sums |
| ThreadPool.EndWrapExample | threadpool/prime.cpp:18-54 | the static asserts as written admit kStart = 2³² - 5, kCount = 6, one item: the worker's `end` wraps to 1, below its start, so its loop visits none of the item's three candidates, and `kEnd` wraps below kStart |
| ThreadPool.ConfiguredWellFormed | threadpool/prime.cpp:13-22 | the configured constants pass every check: items of 163840 values, bitsets of 81920 bits, and `kEnd` = 21971521 without wrap |
| ThreadPool.ProcessItem | threadpool/prime.cpp:50-59 | the worker's item loop leaves bit j set iff start + 2j passes `checkPrime`, keeps the bit index below size / 2, and counts the set bits |
| ThreadPool.ItemBitsArePrimes | threadpool/prime.cpp:55-57 | an item's tally equals the number of primes in the item |
| ThreadPool.SumTallies | threadpool/prime.cpp:76-80 | the join loop's total is the sum of the thread tallies |
| ThreadPool.SumUpdate | threadpool/prime.cpp:57 | raising one thread's tally raises the sum by the same amount |
| ThreadPool.Replay | threadpool/prime.cpp:84-91 | the aggregation loop emits the replay of the bitsets, one value per set bit, strictly ascending |
| ThreadPool.ReplayBitValue | threadpool/prime.cpp:84-89 | item w, bit j is printed as kStart + w · c + 2j iff it is set |
| ThreadPool.ReplayInRange | threadpool/prime.cpp:88 | every printed value is odd and lies in [kStart, kStart + kCount) |
| ThreadPool.ItemsSpan | threadpool/prime.cpp:16-21 | the item windows laid end to end reach kStart + kCount exactly |
| ThreadPool.ReplayProcessedStore | threadpool/prime.cpp:84-91 | replaying the fully processed store prints exactly the primes of the range, in order |
| WorkClaim.WorkStep | threadpool/prime.cpp:50-59 | for an item below kWorkItems, running the item loop from the worker's `ValType` start and storing its bitset is exactly that thread's `Step`, and the thread's tally grows by the number of primes in the item |
| WorkClaim.InitInv | threadpool/prime.cpp:71 | the state with the counter stored as 0, clear bitsets and zero tallies satisfies the invariant |
| WorkClaim.ClaimKeepsOwnership | threadpool/prime.cpp:49 | a `fetch_add` returns the old counter as the next claim; a value below kWorkItems gives that item to the claimant alone, and a larger value makes the claimant leave its loop for good |
| WorkClaim.ClaimKeepsCount | threadpool/prime.cpp:49 | after a claim the counter exceeds kWorkItems by exactly the number of workers that have stopped, and the work left shrinks |
| WorkClaim.WorkKeepsOwnership | threadpool/prime.cpp:52-59 | finishing an item sends the worker back to claiming and keeps the claim history and ownership intact |
| WorkClaim.WorkKeepsStore | threadpool/prime.cpp:52-57 | processing an item writes only that item's bitset, and only with its primes |
| WorkClaim.WorkKeepsTally | threadpool/prime.cpp:57-61 | after each item, the tallies still sum to the set bits of the store |
| WorkClaim.StepInv | threadpool/prime.cpp:45-63 | every atomic step of any thread keeps the invariant, and a step of a thread still in its loop makes progress |
| WorkClaim.RunScheduleInv | threadpool/prime.cpp:72-80 | any interleaving of steps keeps the invariant |
| WorkClaim.Finished | threadpool/prime.cpp:49 | once every worker has left its loop, each value below kWorkItems + kThreads was returned exactly once and no other was; every item is processed and the tallies count the range's primes; with kThreads = 0 nothing was claimed, the bitsets are clear and the tallies sum to 0 |
| WorkClaim.Idle | threadpool/prime.cpp:71-80 | with kThreads = 0, which no static assert forbids, no thread claims anything: the counter stays 0, every bitset stays clear and the tallies sum to 0 |
| WorkClaim.AnySchedule | threadpool/prime.cpp:72-80 | for any schedule after which all workers have stopped, the store is the prime bitsets and the summed tallies count the primes, whatever the claim order; with kThreads = 0 the store stays clear and the count is 0 |
| WorkClaim.Drive | threadpool/prime.cpp:72-80 | one concrete interleaving reaches a state where every worker has stopped |
| WorkClaim.Search | threadpool/prime.cpp:65-91 | the whole program prints the primes of [kStart, kStart + kCount) in ascending order, exactly the odd primes of the range, and the join count equals the lines printed; with kThreads = 0 it prints nothing and the count is 0 |
| DirectCompute.ConfiguredChecks | directcompute/prime.cpp:9-19 | kStart is odd, kCount divides among the threads, each thread's share is 1280, a multiple of 64; and kStart + kCount < 2³² |
| DirectCompute.ReadResults | directcompute/prime.cpp:68-73 | the read-back loop writes the replay of the kCount / 64 words to `primes.txt` in ascending order, one line per value, and `prime_count` is the number of set bits |
| DirectCompute.WordBitValue | directcompute/prime.cpp:68-71 | word i, bit j is written to `primes.txt` as kStart + (32i + j) · 2 iff it is set; that value is odd and lies in [kStart, kStart + kCount) |
| DirectCompute.ShaderLayoutRoundTrip | directcompute/prime.cpp:30 | a buffer in the documented layout reads back as exactly the primes of the first 32n odd values from kStart |
| DirectCompute.ShaderLayoutWord | directcompute/prime.cpp:68-71 | in that layout, bit j of word i is the test of kStart + (32i + j) · 2 |
| Vulkan.ShaderBitsArePrimeBits | rust-vulkan/src/main.rs:76-81 | the bits the shader packs from an odd start are the shared prime encoding |
| Vulkan.PackWord | rust-vulkan/src/main.rs:75-81 | the inner loop sets bit j iff the shader's test passes tocheck + 2j, and tocheck ends 64 higher |
| Vulkan.Invocation | rust-vulkan/src/main.rs:71-83 | invocation idx writes the shader words at idx · 20 … idx · 20 + 19 and no other word |
| Vulkan.ApplyCommutes | rust-vulkan/src/main.rs:72-82 | two invocations write disjoint words, so running them in either order gives the same buffer |
| Vulkan.ApplyAllWord | rust-vulkan/src/main.rs:72-82 | after any sequence of invocations, a word is the shader's iff some invocation in the sequence owns it |
| Vulkan.AnyOrder | rust-vulkan/src/main.rs:101 | any two schedules of the same invocations leave the same buffer |
| Vulkan.Dispatch | rust-vulkan/src/main.rs:101 | `dispatch([256, 1, 1])` with local size 64 writes the shader's word into every index below groups · 64 · 20 |
| Vulkan.FilledBuffer | rust-vulkan/src/main.rs:73-82 | a fully written buffer is the shared encoding from 1000001, whatever it held before |
| Vulkan.ShaderSlot | rust-vulkan/src/main.rs:73-82 | the word the shader writes at index k is slot k of the shared encoding |
| Vulkan.HostRead | rust-vulkan/src/main.rs:110-117 | the host loop prints the replay of the words, ascending, one value per set bit; it keeps no count |
| Vulkan.HostReadBit | rust-vulkan/src/main.rs:111-114 | word i, bit j is printed as 1000001 + (32i + j) · 2 iff it is set |
| Vulkan.HostReadShaderBit | rust-vulkan/src/main.rs:76-81 | over a buffer of shader words, the host prints 1000001 + (32i + j) · 2 iff the shader's test passed the candidate it checked for word i, bit j, so both sides name the same number |
| Vulkan.ConfiguredSizes | rust-vulkan/src/main.rs:44 | 256 groups × 64 invocations × 20 words is the 327680-word buffer; the invocations cover 20971520 values, and all values fit 32 bits |
| Vulkan.Run | rust-vulkan/src/main.rs:44-117 | the program prints the primes of [1000001, 21971521) in ascending order, exactly the odd primes of the range |
| Vulkan.RunOutput | rust-vulkan/src/main.rs:110-117 | reading back a filled buffer of n words gives the primes of the first 32n odd values, which are the odd primes of [base, base + 64n) |

## Left out

- Threads and memory ordering are not modelled as concurrency.
  - The thread pool's `fetch_add` is one indivisible step of `WorkClaim.Step`.
  - An interleaving is a schedule of thread numbers.
  - Joining means every worker has left its loop.
  - `memory_order_relaxed` visibility is not modelled.
  - In `threaded`, each thread touches only its own record, so `Threaded.Launch` runs each thread to completion when it is created.
  - Thread creation always succeeds in the model. The error path `throw runtime_error("Thread creation failed")` (threaded/prime.cpp:59-60, threadpool/prime.cpp:73-74) is not modelled, like the rest of the pthread calls.
- Vulkan invocations run concurrently on the GPU. The model runs them one after another, and `Vulkan.AnyOrder` shows that the order does not matter.
- Output interleaving is not modelled.
  - In `threaded`, threads print concurrently, so the line order is unordered by design; only the counts are modelled.
  - Elsewhere, output is the emitted sequence.
  - Timing and the statistics on the error stream are not modelled.
- Floating-point `sqrt` is not modelled.
  - The host bound `static_cast<…>(sqrt(p))` becomes the integer floor square root.
  - The shader bound `uint(sqrt(p) + 1)` becomes that root plus one.
  - `Primality.OddTrialDivisionDecides` shows the result holds for any bound between floor √p and p - 1, so a float root that rounds up does not matter.
  - A cast root below floor √p is assumed not to occur: IEEE `sqrt` is exact on perfect squares, and the shader's + 1 leaves almost a whole unit of margin.
- `directcompute/ComputeDevice.h`, the Direct3D calls and their `try`/`catch` blocks are not modelled.
- The compute shader `prime.hlsl` is not part of this model.
  - DirectCompute.ShaderLayoutRoundTrip: stated for a buffer that follows the layout the host decode assumes.
  - That layout is that bit j of word i stands for kStart + (32i + j) · 2. The model does not prove that the shader produces it.
- The Vulkan instance, device, pipeline, descriptor set and command-buffer setup are not modelled.
- The initial Vulkan buffer contents `0 .. 327679` are not modelled: `Vulkan.Run` accepts any initial words, since every word is overwritten.
- Fixed-width overflow is not modelled beyond the configured constants.
  - Lemmas check that those constants fit: `Simple.ConfiguredRange`, `Threaded.ConfiguredAdmissible`, `ThreadPool.ConfiguredWellFormed`, `DirectCompute.ConfiguredChecks` and `Vulkan.ConfiguredSizes`.
  - The width is written out only for the thread pool: `kEnd` (never read) and the worker's item start and end.
  - The work-claim state machine (`WorkClaim.Inv`, and through it `WorkClaim.Finished`, `WorkClaim.AnySchedule` and `WorkClaim.Search`) is stated for configurations whose range ends below 2³² (`ThreadPool.WellFormed`). A configuration past 2³² is covered only by `ThreadPool.EndWrapExample`.
  - The other `ValType` sums of the thread pool are not written out: the loop variable and the replayed value at threadpool/prime.cpp:88. `ThreadPool.WellFormed` keeps all of them below 2³².
  - DirectCompute's `kEnd` at directcompute/prime.cpp:15 is never read either, and the model does not define it.

## Findings

| source | as written | input that shows it | evidently intended | confidence | as-written member | corrected member |
|---|---|---|---|---|---|---|
| threaded/prime.cpp:13 | `static_assert(kCount % kThreads == 0)` is the only check on the chunking. Setting bit 0 of `start_value` can move a chunk up by one, onto its neighbour's first value. | kStart = 2, kCount = 6, kThreads = 2: chunk 3. Thread 0 scans 3, 5 and thread 1 scans 5, 7, so 5 is counted twice (total 4, while the range holds 3 primes). | The chunks should tile the odd values exactly, which needs an even chunk. | not executed; a latent gap in the guard, since the configured constants pass both checks | Threaded.OverlapExample | Threaded.ThreadsMatchSimple |
| threadpool/prime.cpp:18 | `kEnd{ kStart + kCount }` is commented "check if it fits into ValType", but unsigned addition wraps silently and nothing reads the constant, so nothing is checked. The same line is directcompute/prime.cpp:15. | kStart = 2³² - 5, kCount = 6, one work item: all static asserts pass, yet the worker's `end` wraps to 1, so its loop skips the item's three candidates, among them 2³² - 5, the largest prime below 2³² (its primality is not proved in the model). | Compilation should fail unless kStart + kCount < 2³². | not executed; a latent gap in the guard, since the configured constants fit | ThreadPool.EndWrapExample | ThreadPool.NoWrap |

# A verified model of the XRP Ledger core utilities

Dafny 4.11 models of the hardest inline code of the XRP Ledger server and proofs about them. Code that
computes by expression is a function; code that works in place is a method or a class with the same loops;
code that several threads run at once is a step machine, one step per atomic operation, with theorems over
every run.

| files | what they model |
|---|---|
| `RefCountWord`, `RefCounts`, `RefCountsInvariant`, `RefCountsSpec`, `RefCountsTheorems`, `RefCountsLifetime`, `RefCountsCalls` | the intrusive reference counts: four fields in one 32-bit atomic, compare-exchange loops, a blocking wait, a two-phase destructor; refinement to an object with handles and a life cycle; how the object's life can end; what each call has done when it returns |
| `ClosureCounter` | the fork/join counter of outstanding closures |
| `Spinlock` | packed and whole-word spinlocks on one atomic |
| `SlabMemory`, `SlabAllocator`, `SlabConfig`, `SlabHeap` | the slab allocator: links stored in raw memory, carving, configuration, growth, the set of allocators |
| `SortedRanges` | the two algorithms on ordered ranges with duplicates |
| `BaseUInt`, `Hex` | big-endian integers of any number of limbs; the two hexadecimal parsers and the printer |
| `PartitionedMap` | the hash map split into partitions, and its iterators |
| `ChunkedInput` | assembling an LZ4 block from a chunked stream |
| `IncludeGraph` | the pre-commit hook's include graph and its search for a translation unit |
| `ListParser`, `ListGrammar`, `ListStrings` | the list parsers of RFC 2616, every way of writing a list, and every string at all |
| `Decimal`, `NumberModel`, `NumberGuard`, `NumberRounding`, `NumberLanding`, `NumberNormalize`, `NumberArithmetic`, `NumberDifference`, `NumberAddition`, `NumberTruncation`, `NumberDivision` | the decimal floating point `Number`: order, external view, guard digits, normalization, multiplication, addition and subtraction, division, conversion to an integer |
| `LedgerTiming` | close time resolutions and effective close times along a chain |
| `Bits`, `Sequences`, `Wrappers` | bitwise operations on natural numbers; multiplicities; shared types |

`dafny verify dfyconfig.toml` checks the whole project.

## What is assumed

- Every atomic operation, and every section under a mutex, is one step of a sequentially consistent machine.
  Compare-exchange may fail spuriously wherever the source uses the weak form. `wait(v)` blocks while the
  word equals `v`.
- Callers of the reference counts follow the handle discipline: a strong handle is needed to add a strong
  one, any handle to add a weak one, each release uses up one handle, and counts stay under the limits that
  the source itself checks.
- The system allocator returns memory that no slab uses. Owners of an item write only inside it.
- The LZ4 codec, hash functions, the order inside one `unordered_map`, the file system and the clock are
  parameters. Thread-local rounding mode and mantissa range are parameters of the `Number` operations.

## Where code and comments differ

The models follow the code. Where a documented or expected property fails, a lemma gives an input and another the
exact condition under which it holds.

- `addWeakReleaseStrongRef` is documented as `addWeakRef` followed by `releaseStrongRef`. For the only handle
  there is, the code returns NoOp and leaves "started" clear: `RefCountsSpec.ConvertIsAddThenRelease`.
- `SharedWeakUnion::convertToWeak` stores a null pointer after a PartialDestroy, so its weak handle is never
  released. That happens exactly when its compare-exchange saw one strong and some weak handles:
  `RefCountsLifetime.ConvertToWeakLeaksIff`, with the run `RefCountsLifetime.LeakingRun`. While no handle is
  forgotten the object can always be destroyed: `RefCountsLifetime.CanBeDestroyed`.
- `partialDestructorFinished` calls `notify_one` on the word after setting "finished", and a thread that releases the
  last weak handle may destroy the object in between. Releasing the last weak handle allows this exactly when the
  word it read shows the partial destructor started and not finished:
  `RefCountsLifetime.LastReleaseNotifiesLateIff`, with the run `RefCountsLifetime.LateNotifyRun`.
- `removeIfIntersectOrMatch` is documented to eliminate all elements equivalent to some value of the second
  range. Each value of the second range eliminates at most one: `SortedRanges.DocumentedIff`,
  `SortedRanges.DocumentedFails`.
- `Number` results are documented as correctly rounded. Correct means the right one of all normal numbers of the scale,
  ties going to the even mantissa. Normalization and multiplication miss it in two families, and only there:
  - below the least normal number, where the result is zero whatever the rounding mode (normalization), or zero unless
    rounding already reached the least normal number (products): `NumberNormalize.FlushExample`;
  - in the two large scales, in a gap above (2^63 - 1) * 10^e for any e. Writing cap for 2^63 - 1, the exceptions are
    magnitudes from cap + 1 on when rounding toward zero, from cap + 1/2 up to cap + 3/2 when rounding to nearest, and,
    in the legacy scale only, above cap and below cap + 1 when rounding away from zero:
    `NumberLanding.LandsRightIff`, `NumberLanding.CuspIsInhabited`.
- In a sum of two negative numbers with equal exponents the guard is not told the sign, so that rounding
  downward or upward goes the other way: `NumberAddition.AddLike` gives the exact condition and
  `NumberAddition.LosesSignExample` an input.
- A difference is rounded to a unit before it is normalized. Toward zero it keeps the unit that the fraction should
  take off, and just below a power of ten it is rounded on the coarser grid: `NumberDifference.DifferenceJudged` gives the
  exact condition and `NumberAddition.DifferenceExample` the inputs 10^16 and -1.
- In the two older scales a quotient is cut off before it is rounded. It is correctly rounded unless the remainder lost
  would have decided: `NumberDivision.Divide`, with the input of `NumberDivision.QuotientExample`.
- The documentation of `SlabAllocator` allows a count of zero, meaning disabled. The slab size is reduced by the header
  size in unsigned arithmetic, so that a slab size below the header size places the header over the end of the
  buffer, unless the items are too large even for the wrapped-around space: `SlabHeap.ExtentFitsIff`,
  `SlabHeap.DisabledIff`, `SlabHeap.CountZeroExample`.
- `ListIterator` values "may contain backslash escapes", and an escaped quote ends the value:
  `ListGrammar.ParsersAgree` says exactly when it agrees with `split`.
- An effective close time is meant to come after the prior one. It does exactly when there is a raw time:
  `LedgerTiming.CloseTimeIncreasesIff`.

## Model

| member | source | states |
|---|---|---|
| `RefCountWord.UnpackReadsFields` | include/xrpl/basics/IntrusiveRefCounts.h:410-420 | masking and shifting a 32-bit word reads exactly its four fields |
| `RefCountWord.CombinedIsEncode` | include/xrpl/basics/IntrusiveRefCounts.h:433-444 | ORing the fields together never overlaps: `combinedValue` is their sum in place |
| `RefCountWord.UnpackThenCombine` | include/xrpl/basics/IntrusiveRefCounts.h:410-444 | combining an unpacked word gives the word back, for every word |
| `RefCountWord.CombineThenUnpack` | include/xrpl/basics/IntrusiveRefCounts.h:410-444 | unpacking a combined pair gives the pair back, for all counts that fit |
| `RefCountWord.AddStrongField` | include/xrpl/basics/IntrusiveRefCounts.h:226-230 | adding 1 to the word adds 1 to the strong field alone if and only if that field is not full |
| `RefCountWord.AddWeakField` | include/xrpl/basics/IntrusiveRefCounts.h:232-236 | adding 2^16 adds 1 to the weak field alone if and only if that field is not full |
| `RefCountWord.SubtractStrongField` | include/xrpl/basics/IntrusiveRefCounts.h:253-258 | subtracting 1 takes 1 from the strong field alone if and only if it is not zero |
| `RefCountWord.SubtractWeakField` | include/xrpl/basics/IntrusiveRefCounts.h:342-344 | subtracting 2^16 takes 1 from the weak field alone if and only if it is not zero |
| `RefCountWord.ConvertMovesOneUnit` | include/xrpl/basics/IntrusiveRefCounts.h:291-293 | adding 2^16 - 1 moves one unit from strong to weak if and only if neither field wraps |
| `RefCountWord.OrStarted` | include/xrpl/basics/IntrusiveRefCounts.h:259-275 | ORing in the "started" bit changes that field alone |
| `RefCountWord.OrFinished` | include/xrpl/basics/IntrusiveRefCounts.h:447-452 | ORing in the "finished" bit changes that field alone |
| `RefCountsInvariant.ReleaseStrongFields` | include/xrpl/basics/IntrusiveRefCounts.h:239-284 | the next word and the action computed in a round of `releaseStrongRef`, in terms of the fields |
| `RefCountsInvariant.ConvertStrongFields` | include/xrpl/basics/IntrusiveRefCounts.h:287-337 | the next word and the action computed in a round of `addWeakReleaseStrongRef`, in terms of the fields |
| `RefCountsInvariant.FirstGuess` | include/xrpl/basics/IntrusiveRefCounts.h:369-371 | the optimistic first guess (1, 1) to (2, 1) is a strong increment of a word with those counts |
| `RefCountsTheorems.StepInv` | include/xrpl/basics/IntrusiveRefCounts.h:226-466 | every load, compare-exchange (with spurious failure), fetch, wait, wake and notify step keeps the protocol invariant |
| `RefCountsTheorems.RunInv` | include/xrpl/basics/IntrusiveRefCounts.h:226-466 | the invariant holds in every state of every interleaving of any number of threads |
| `RefCountsSpec.StepRefines` | include/xrpl/basics/IntrusiveRefCounts.h:226-466 | each step of the packed protocol makes no event of the abstract object visible, or one with the action that it predicts, or a weak release together with its Destroy; a checkout that leaves without a handle is a failed one, and that needs an object without strong handles |
| `RefCountsTheorems.RunRefines` | include/xrpl/basics/IntrusiveRefCounts.h:226-466 | every run replays as a life of the abstract object: handles, phases and returned actions agree at every step |
| `RefCountsCalls.ReleaseReturns` | include/xrpl/basics/IntrusiveRefCounts.h:239-284 | over any run, when `releaseStrongRef` leaves its loop exactly its own handle is gone and its action is that of the handles at that moment |
| `RefCountsCalls.ConvertReturns` | include/xrpl/basics/IntrusiveRefCounts.h:287-337 | over any run, when `addWeakReleaseStrongRef` leaves its loop exactly its own handle has become one new weak handle, with PartialDestroy exactly for the last strong one beside weak ones |
| `RefCountsCalls.CheckoutReturns` | include/xrpl/basics/IntrusiveRefCounts.h:366-381 | over any run, `checkoutStrongRefFromWeak` returns false exactly when no strong handle is left, and otherwise with exactly one new strong handle |
| `RefCountsCalls.WeakReleaseReturns` | include/xrpl/basics/IntrusiveRefCounts.h:339-364 | `releaseWeakRef` is over at once exactly when other handles are left |
| `RefCountsCalls.ReleaserStays` | include/xrpl/basics/IntrusiveRefCounts.h:339-364 | the thread that released the last handle stays in the call until it runs the destructor |
| `RefCountsCalls.PassesBothWaits` | include/xrpl/basics/IntrusiveRefCounts.h:345-361 | when the partial destructor never starts, both waits of `releaseWeakRef` pass without blocking |
| `RefCountsCalls.Limits` | include/xrpl/basics/IntrusiveRefCounts.h:213-222 | the number of strong and weak handles that callers must stay below |
| `RefCountsSpec.ConvertIsAddThenRelease` | include/xrpl/basics/IntrusiveRefCounts.h:287-337 | the word and the action of a conversion are those of adding a weak handle and releasing the strong one if and only if it is not the only handle |
| `RefCountsTheorems.DestroyOnce` | include/xrpl/basics/IntrusiveRefCounts.h:239-364 | in every run Destroy and PartialDestroy are each returned at most once; from Destroy on there is no handle, and every other thread is idle or about to notify |
| `RefCountsTheorems.AssertionsHold` | include/xrpl/basics/IntrusiveRefCounts.h:250-466 | no assertion of the source fails in any run that keeps the handle discipline and the count limits |
| `RefCountsTheorems.StrongStaysEmpty` | include/xrpl/basics/IntrusiveRefCounts.h:366-381 | no step brings a strong handle back once there is none |
| `RefCountsTheorems.ExpiredForever` | include/xrpl/basics/IntrusiveRefCounts.h:366-381 | once the strong count is zero it stays zero for the rest of the run and every checkout from weak fails |
| `RefCountsTheorems.NoStrandedWaiter` | include/xrpl/basics/IntrusiveRefCounts.h:339-364 | a blocked `releaseWeakRef` always has the finish or the notify step ahead that wakes it |
| `RefCountsTheorems.TeardownAdvances` | include/xrpl/basics/IntrusiveRefCounts.h:339-466 | with no handle left every step makes the teardown measure smaller |
| `RefCountsTheorems.TeardownNotStuck` | include/xrpl/basics/IntrusiveRefCounts.h:339-466 | with no handle left and the object alive, some step is always possible |
| `RefCountsTheorems.DroppedMeansDestroyed` | include/xrpl/basics/IntrusiveRefCounts.h:397-406 | a run that drops every handle takes at most eight more steps and comes to rest destroyed once, counts zero, both tags clear or both set |
| `RefCountsLifetime.ConvertToWeakLeaksIff` | include/xrpl/basics/IntrusivePointer.ipp:601-638 | in every run `convertToWeak` forgets its handle, so that the object is never destroyed, if and only if its successful compare-exchange saw one strong and some weak handles |
| `RefCountsLifetime.LeakingRun` | include/xrpl/basics/IntrusivePointer.ipp:601-638 | a run of four steps by one thread in which that happens |
| `RefCountsLifetime.ForgottenHandleLeaks` | include/xrpl/basics/IntrusivePointer.ipp:601-638 | once a handle is forgotten the object is never destroyed, whatever the run does |
| `RefCountsLifetime.CanBeDestroyed` | include/xrpl/basics/IntrusiveRefCounts.h:226-466 | from every state with no forgotten handle there is a continuation that destroys the object, as long as the count limits stop neither some thread nor a conversion |
| `RefCountsLifetime.NothingForgottenEnds` | include/xrpl/basics/IntrusiveRefCounts.h:226-466 | so every such run in which nothing was forgotten extends to one that ends with the object destroyed |
| `RefCountsLifetime.CanNotifyLateIff` | include/xrpl/basics/IntrusiveRefCounts.h:339-466 | with no handle left, the object can be destroyed before a `notify_one` on its word if and only if the partial destructor or its notification is outstanding |
| `RefCountsLifetime.LastReleaseNotifiesLateIff` | include/xrpl/basics/IntrusiveRefCounts.h:339-364 | releasing the last weak handle allows this if and only if the word it read shows the partial destructor started and not finished |
| `RefCountsLifetime.LateNotifyRun` | include/xrpl/basics/IntrusiveRefCounts.h:447-466 | a run of two threads in which the object is destroyed with the notify still to come |
| `ClosureCounter.StepInv` | include/xrpl/core/ClosureCounter.h:43-178 | every step of wrap, copy, move, destroy and join keeps the invariant |
| `ClosureCounter.RunInv` | include/xrpl/core/ClosureCounter.h:43-178 | the invariant holds in every state of every interleaving |
| `ClosureCounter.CountIsLive` | include/xrpl/core/ClosureCounter.h:43-111 | the count equals the number of substitutes in existence at every moment of every run |
| `ClosureCounter.ZeroForever` | include/xrpl/core/ClosureCounter.h:144-178 | once joining with count zero, the count stays zero for the rest of the run |
| `ClosureCounter.JoinReturned` | include/xrpl/core/ClosureCounter.h:138-158 | after any join has returned there is no substitute, and never one again |
| `ClosureCounter.WrapUnlessJoined` | include/xrpl/core/ClosureCounter.h:160-178 | in every run wrap adds exactly one new substitute and one to the count if no join has taken the lock before, and nothing otherwise |
| `ClosureCounter.WrapReturns` | include/xrpl/core/ClosureCounter.h:167-178 | a call of wrap that returns has taken that decision exactly once |
| `ClosureCounter.LiveAfter` | include/xrpl/core/ClosureCounter.h:84-111 | copying adds exactly the copy, the destructor removes exactly its own substitute, and no other step but wrap changes which exist |
| `ClosureCounter.DropReturns` | include/xrpl/core/ClosureCounter.h:52-65 | when the destructor of a substitute returns it has taken off exactly that one, once |
| `ClosureCounter.JoinReturns` | include/xrpl/core/ClosureCounter.h:138-158 | when join returns there is no substitute, and there never is one again |
| `ClosureCounter.ExpiresOnce` | include/xrpl/core/ClosureCounter.h:151-155 | the wait of a join is the untimed one exactly when the timed one has expired, which happens at most once |
| `ClosureCounter.CallCanReturn` | include/xrpl/core/ClosureCounter.h:52-178 | from every reachable state every call can come to its end, except a join while there are substitutes |
| `ClosureCounter.WrapDropJoin` | include/xrpl/core/ClosureCounter.h:138-178 | a run in which a substitute is wrapped, dropped and joined |
| `ClosureCounter.NoLostWakeUp` | include/xrpl/core/ClosureCounter.h:52-65 | a joiner asleep at count zero has the notification that wakes it pending |
| `ClosureCounter.NeverStuck` | include/xrpl/core/ClosureCounter.h:144-158 | threads in the middle of an operation are blocked only if they are joiners asleep while substitutes exist |
| `Spinlock.TestsOneBit` | include/xrpl/basics/spinlock.h:109-113 | `(bits & mask) == 0` reads exactly the bit of the lock |
| `Spinlock.SetsOneBit` | include/xrpl/basics/spinlock.h:109-133 | fetch_or sets and fetch_and clears exactly that bit |
| `Spinlock.StepInv` | include/xrpl/basics/spinlock.h:109-203 | every fetch_or, fetch_and, compare-exchange (with spurious failure), load and store keeps the invariant |
| `Spinlock.RunInv` | include/xrpl/basics/spinlock.h:109-203 | in every run the word is all ones under a whole-word holder and otherwise the union of the held masks |
| `Spinlock.MutualExclusion` | include/xrpl/basics/spinlock.h:109-203 | in every run each bit has at most one holder, a whole-word holder excludes all packed ones, and a bit is set exactly when held |
| `Spinlock.Handover` | include/xrpl/basics/spinlock.h:109-203 | a bit passes between threads only through a release by the first holder |
| `Spinlock.AttemptOutcome` | include/xrpl/basics/spinlock.h:109-197 | an attempt takes the lock exactly when it is free and does not fail spuriously; otherwise it changes nothing; where the thread goes next is determined: a try_lock returns, a lock() spins until the lock looks free |
| `Spinlock.HoldersAfter` | include/xrpl/basics/spinlock.h:109-203 | every step, for every thread and bit: a release gives up exactly what it names, a successful attempt gains exactly its lock, nothing else changes hands |
| `Spinlock.PackedLockReturns` | include/xrpl/basics/spinlock.h:115-127 | in every run PackedSpinlock::lock returns only as the holder of its bit, which was free when it was taken |
| `Spinlock.WholeLockReturns` | include/xrpl/basics/spinlock.h:185-197 | in every run Spinlock::lock returns only as the holder of the whole word, of which no part was held |
| `Spinlock.TryLockReturns` | include/xrpl/basics/spinlock.h:109-113 | try_lock returns after one attempt, of either kind, as a holder exactly when the lock was free and the failure was not spurious |
| `Spinlock.CriticalSections` | include/xrpl/basics/spinlock.h:109-203 | when lock() returns in one thread and then in another, over the same bit, the first has released in between |
| `Spinlock.SpinnerGetsFreeLock` | include/xrpl/basics/spinlock.h:115-196 | a spinning lock() whose lock is free takes it with its next two steps |
| `SlabMemory.PtrRoundTrip` | include/xrpl/basics/SlabAllocator.h:61-65 | a link written into raw memory reads back, and no other byte changes |
| `SlabAllocator.Carve` | include/xrpl/basics/SlabAllocator.h:53-67 | the constructor threads every item of the extent onto the free list, the highest first, and touches nothing else |
| `SlabAllocator.PopInv` | include/xrpl/basics/SlabAllocator.h:89-107 | allocate returns an item that was free, or null exactly when none is |
| `SlabAllocator.PushInv` | include/xrpl/basics/SlabAllocator.h:118-129 | deallocate puts the item back and writes only inside it |
| `SlabConfig.AlignUpIsAligned` | include/xrpl/basics/SlabAllocator.h:155-166 | the item size is the least multiple of the alignment that holds the type and the extra bytes |
| `SlabConfig.ItemHoldsRequestIff` | include/xrpl/basics/SlabAllocator.h:155-166 | an item holds the type and the extra bytes if and only if their aligned size does not wrap around |
| `SlabConfig.SortedSorts` | include/xrpl/basics/SlabAllocator.h:312-316 | the configurations are put in order of size, none added or lost |
| `SlabConfig.AdjacentFindsAll` | include/xrpl/basics/SlabAllocator.h:318-326 | in the sorted list, comparing neighbours finds a duplicate if and only if there is one |
| `SlabHeap.ExtentFitsIff` | include/xrpl/basics/SlabAllocator.h:225-237 | the extent comes after the header, aligned, with room for an item; header and extent lie in the buffer if and only if the slab size is at least the header size |
| `SlabHeap.DisabledIff` | include/xrpl/basics/SlabAllocator.h:147-154 | an allocator without room for an item refuses gracefully if and only if its slab size is the header size or the wrapped-around space is too small |
| `SlabHeap.CountZeroExample` | include/xrpl/basics/SlabAllocator.h:147-154 | a count of zero with small items overruns the buffer instead |
| `SlabHeap.StepInv` | include/xrpl/basics/SlabAllocator.h:89-277 | every allocation, growth, release and write by an owner of an item keeps the heap invariant |
| `SlabHeap.RunInv` | include/xrpl/basics/SlabAllocator.h:89-277 | the heap invariant holds in every state of every run over all slabs of all allocators |
| `SlabHeap.OutstandingItems` | include/xrpl/basics/SlabAllocator.h:188-277 | in every run outstanding items are aligned, full size inside their slab, clear of every slab header and pairwise disjoint |
| `SlabHeap.FreeAndOutPartition` | include/xrpl/basics/SlabAllocator.h:53-129 | in every run the free list stored in memory and the outstanding items partition the carved items |
| `SlabHeap.OwnerUnique` | include/xrpl/basics/SlabAllocator.h:82-87 | no slab other than its own claims an outstanding item |
| `SlabHeap.MakeSet` | include/xrpl/basics/SlabAllocator.h:310-335 | fails exactly on two configurations of one size or more than 64; otherwise one allocator per configuration in strictly increasing order of size, each with the slab size and alignment of its configuration and the least item size that holds the request |
| `SlabHeap.SlabAllocatorSet.constructor` | include/xrpl/basics/SlabAllocator.h:328-335 | each allocator has the slab size and alignment of its configuration (the type's own alignment for none) and the least item size; nothing is outstanding; the largest item size is attained |
| `SlabHeap.FirstFitIsBest` | include/xrpl/basics/SlabAllocator.h:355-368 | with one alignment throughout, the first allocator that fits has the smallest items that fit |
| `SlabHeap.FoundHoldsRequestIff` | include/xrpl/basics/SlabAllocator.h:358-363 | the item found holds the request if and only if the requested size does not wrap around |
| `SlabHeap.SlabAllocatorSet.AllocateFrom` | include/xrpl/basics/SlabAllocator.h:193-250 | for every slab size: an item, null, or a header placed over the end of the buffer, each exactly when it happens; the item is the top of the free list of the newest slab that has one, and exactly one more is outstanding |
| `SlabHeap.SlabAllocatorSet.GrowAndTake` | include/xrpl/basics/SlabAllocator.h:206-249 | the new slab is carved, linked in front and gives its first item; null and overrun exactly characterised |
| `SlabHeap.SlabAllocatorSet.Allocate` | include/xrpl/basics/SlabAllocator.h:355-368 | serves from the first allocator whose items are large enough, with that allocator's outcome, and is null when none fits |
| `SlabHeap.GrownIff` | include/xrpl/basics/SlabAllocator.h:206-249 | a growth gives an item if and only if header, padding and item fit the slab size |
| `SlabHeap.ConfiguredServes` | include/xrpl/basics/SlabAllocator.h:310-368 | a set whose slabs hold a header and an aligned item serves every request of that configuration while the system allocator has memory |
| `SlabHeap.SlabAllocatorSet.Deallocate` | include/xrpl/basics/SlabAllocator.h:377-387 | true exactly for outstanding items, which go to the front of the free list of the slab they came from |
| `SortedRanges.RemoveIfIntersectOrMatch` | include/xrpl/basics/algorithm.h:54-97 | in place, the front of the array becomes the survivors in their original order; terminates |
| `SortedRanges.MultisetDifference` | include/xrpl/basics/algorithm.h:54-97 | without matches, of every class as many survive as the first range has more than the second |
| `SortedRanges.MatchesGoToo` | include/xrpl/basics/algorithm.h:54-97 | with a predicate, the survivors are those of that difference that do not match, in order |
| `SortedRanges.DocumentedIff` | include/xrpl/basics/algorithm.h:45-47 | the documented effect holds if and only if duplicates in the first range have enough partners in the second |
| `SortedRanges.StrictlyIncreasing` | include/xrpl/basics/algorithm.h:45-47 | on a strictly increasing first range the effect is the documented one |
| `SortedRanges.DocumentedFails` | include/xrpl/basics/algorithm.h:45-47 | the ranges (1, 1) and (1) keep one element, which the comment says is eliminated |
| `SortedRanges.GeneralizedSetIntersection` | include/xrpl/basics/algorithm.h:14-40 | action is called on exactly the pairs of k-th equals, once each and in order; terminates |
| `BaseUInt.EndianInverse` | include/xrpl/basics/base_uint.h:416-416 | conversion between memory order and native order is a bijection on limbs |
| `BaseUInt.SumIsAddition` | include/xrpl/basics/base_uint.h:473-488 | the limb-wise sum with carry is addition modulo 2^Bits, for any number of limbs |
| `BaseUInt.NextIsSuccessor` | include/xrpl/basics/base_uint.h:410-422 | ++ is the successor modulo 2^Bits |
| `BaseUInt.PrevIsPredecessor` | include/xrpl/basics/base_uint.h:434-447 | -- is the predecessor modulo 2^Bits |
| `BaseUInt.NextPrevInverse` | include/xrpl/basics/base_uint.h:410-447 | ++ and -- undo each other in both orders |
| `BaseUInt.ComplementIsDifference` | include/xrpl/basics/base_uint.h:354-363 | ~x is 2^Bits - 1 - x |
| `BaseUInt.ValueInjective` | include/xrpl/basics/base_uint.h:586-591 | equal numbers have equal limbs |
| `BaseUInt.BytesValue` | include/xrpl/basics/base_uint.h:565-572 | the bytes in memory, read big-endian, are the number |
| `BaseUInt.FirstByteDecides` | include/xrpl/basics/base_uint.h:577-583 | the first differing byte decides the numeric order |
| `BaseUInt.Compare` | include/xrpl/basics/base_uint.h:565-584 | the bytewise comparison is numeric order, and equality of the limbs |
| `BaseUInt.UInt.Add` | include/xrpl/basics/base_uint.h:473-488 | the loop writes the limb-wise sum in place |
| `BaseUInt.UInt.Increment` | include/xrpl/basics/base_uint.h:410-422 | the loop writes the successor in place, stopping at the first limb that does not wrap |
| `BaseUInt.UInt.Decrement` | include/xrpl/basics/base_uint.h:434-447 | the loop writes the predecessor in place, stopping at the first limb that does not borrow |
| `Hex.DigitIff` | include/xrpl/basics/StringUtilities.h:37-56 | the lookup table holds the sixteen digits, the letters in either case, and nothing else |
| `Hex.DigitsAgree` | include/xrpl/basics/base_uint.h:185-209 | the case analysis and the lookup table accept the same characters with the same values |
| `Hex.StrUnHex` | include/xrpl/basics/StringUtilities.h:60-95 | reads digit pairs, an odd-length string as with a zero in front, and fails exactly on a non-digit |
| `Hex.UnHexIsNumber` | include/xrpl/basics/StringUtilities.h:60-95 | the bytes read big-endian are the number that the digits write, for even and odd lengths |
| `Hex.ParseLimb` | include/xrpl/basics/base_uint.h:225-232 | eight digits ORed at their shifts are the four bytes of the limb, failing exactly on a non-digit |
| `Hex.ParseFromStringView` | include/xrpl/basics/base_uint.h:180-235 | the lone zero, the length test, the digits: each outcome exactly when it should be |
| `Hex.ParsersAgree` | include/xrpl/basics/base_uint.h:180-235 | on strings of the right length both parsers accept the same strings and give the same bytes |
| `Hex.PrintedIsHex` | include/xrpl/basics/base_uint.h:631-636 | the printed form is two upper-case digits for each byte, the high one first, and its digit pairs are the bytes |
| `Hex.ParsePrinted` | include/xrpl/basics/base_uint.h:631-636 | parsing the printed form of any value gives the value back |
| `PartitionedMap.PlacedUnique` | include/xrpl/basics/partitioned_unordered_map.h:201-205 | keys are unique across partitions because each sits in the partition of its hash |
| `PartitionedMap.AsMapEntries` | include/xrpl/basics/partitioned_unordered_map.h:207-213 | an entry sequence with unique keys is one ordinary map |
| `PartitionedMap.AsMapSize` | include/xrpl/basics/partitioned_unordered_map.h:376-383 | that map has as many keys as there are entries |
| `PartitionedMap.Settle` | include/xrpl/basics/partitioned_unordered_map.h:85-91 | the loop that skips empty partitions lands on the next entry, or on an iterator equal to end() |
| `PartitionedMap.Begin` | include/xrpl/basics/partitioned_unordered_map.h:215-227 | begin() stands at the first entry, or is end() when there is none |
| `PartitionedMap.Increment` | include/xrpl/basics/partitioned_unordered_map.h:81-92 | ++ moves from entry n to entry n + 1 of the iteration order |
| `PartitionedMap.Walk` | include/xrpl/basics/partitioned_unordered_map.h:215-227 | a walk from begin() to end() sees every entry exactly once |
| `PartitionedMap.PartitionedUnorderedMap.constructor` | include/xrpl/basics/partitioned_unordered_map.h:230-241 | a new map is empty; a missing or zero count means the number of hardware threads |
| `PartitionedMap.PartitionedUnorderedMap.Find` | include/xrpl/basics/partitioned_unordered_map.h:300-308 | finds the entry of the one map, in the partition that the hash selects, or end() exactly when the key is absent |
| `PartitionedMap.PartitionedUnorderedMap.Emplace` | include/xrpl/basics/partitioned_unordered_map.h:340-349 | inserts exactly when the key is absent and otherwise changes nothing, however the partition is rearranged; the iterator stands at the key |
| `PartitionedMap.PartitionedUnorderedMap.Erase` | include/xrpl/basics/partitioned_unordered_map.h:358-374 | removes that entry from the one map and returns the position of the entry that followed it |
| `PartitionedMap.PartitionedUnorderedMap.Size` | include/xrpl/basics/partitioned_unordered_map.h:376-383 | the sum of the partition sizes is the size of the one map |
| `PartitionedMap.PartitionedUnorderedMap.EraseIf` | include/xrpl/basics/partitioned_unordered_map.h:358-374 | a walk mixing ++ and erase sees every original entry once and leaves the entries it did not erase |
| `ChunkedInput.ToInt` | include/xrpl/basics/CompressionAlgorithms.h:60-61 | the conversion of a size to int is exact below 2^31 and always in range |
| `ChunkedInput.InputStream.Next` | include/xrpl/basics/CompressionAlgorithms.h:107-107 | handing out a chunk shortens the bytes to come by exactly that chunk |
| `ChunkedInput.InputStream.BackUp` | include/xrpl/basics/CompressionAlgorithms.h:132-134 | returning the end of the last chunk puts exactly those bytes back in front; more than the last chunk is not allowed |
| `ChunkedInput.Assemble` | include/xrpl/basics/CompressionAlgorithms.h:97-130 | for every chunking, empty chunks included, the bytes assembled are the next inSize bytes and the excess read lies in the last chunk; the int count overflows exactly when more than 2^31 - 1 bytes are wanted and present |
| `ChunkedInput.Lz4Decompress` | include/xrpl/basics/CompressionAlgorithms.h:90-140 | result and remaining stream are those of the flat bytes: fails exactly when fewer than inSize remain, advances exactly otherwise |
| `ChunkedInput.DecompressedIff` | include/xrpl/basics/CompressionAlgorithms.h:53-80 | decompression succeeds if and only if there are enough bytes, fewer than 2^31 and not none, the output size is positive as an int, and the codec fills it |
| `ChunkedInput.FailureIs` | include/xrpl/basics/CompressionAlgorithms.h:60-80 | which failure is reported, in the order of the tests |
| `IncludeGraph.Resolve` | bin/pre-commit/clang_tidy_check.py:65-71 | a name resolves to the first existing candidate and to nothing else |
| `IncludeGraph.ScanFile` | bin/pre-commit/clang_tidy_check.py:59-71 | one file contributes exactly its resolved includes to the inverted graph and the worklist |
| `IncludeGraph.BuildIncludeGraph` | bin/pre-commit/clang_tidy_check.py:46-73 | whatever the pop order, the inverted graph is exactly the reversed include relation over files reachable from the units |
| `IncludeGraph.Expand` | bin/pre-commit/clang_tidy_check.py:94-103 | looking at the includers of one file keeps the search invariant or ends with a unit of the header's stem |
| `IncludeGraph.FindTu` | bin/pre-commit/clang_tidy_check.py:87-105 | a header gets a unit that includes it transitively whenever one exists, with its own stem whenever such a unit exists |
| `IncludeGraph.FindTusForHeaders` | bin/pre-commit/clang_tidy_check.py:85-110 | one choice for each header, none only if no unit includes it, and the result holds exactly the units chosen |
| `IncludeGraph.SameIncludes` | bin/pre-commit/clang_tidy_check.py:46-73 | from a unit, the inverted graph shows exactly the transitive includes of the files on disk |
| `IncludeGraph.UnitsForHeaders` | bin/pre-commit/clang_tidy_check.py:136-137 | graph and search composed: one right choice for each header, in terms of the files on disk |
| `ListParser.Trimmed` | include/xrpl/beast/rfc2616.h:60-73 | the longest prefix that does not end in white space |
| `ListParser.TrimRight` | include/xrpl/beast/rfc2616.h:60-73 | the loop from the end computes it |
| `ListParser.ScanQuoted` | include/xrpl/beast/rfc2616.h:113-137 | the inner loop consumes a quoted string and unescapes it |
| `ListParser.Split` | include/xrpl/beast/rfc2616.h:97-171 | the scanning loops compute the element list; terminates |
| `ListParser.ListIterator.constructor` | include/xrpl/beast/rfc2616.h:214-218 | begin() stands on the first value, or equals end() |
| `ListParser.ListIterator.Increment` | include/xrpl/beast/rfc2616.h:265-324 | the loops move to the next value, or to the end with an empty value |
| `ListParser.TokenInList` | include/xrpl/beast/rfc2616.h:347-357 | true exactly when some value of the walk equals the token up to the case of letters; the walk terminates |
| `ListParser.CiEqualIff` | include/xrpl/beast/rfc2616.h:19-30 | the comparison ignores exactly the case of the twenty-six letters |
| `ListGrammar.SplitWritten` | include/xrpl/beast/rfc2616.h:89-171 | split undoes every way of writing a list of tokens and quoted strings, whatever is escaped and however it is separated |
| `ListGrammar.WalkWritten` | include/xrpl/beast/rfc2616.h:191-324 | the iterator yields the words as written, escapes included, when no quoted text holds a quote |
| `ListGrammar.ParsersAgree` | include/xrpl/beast/rfc2616.h:97-324 | on written lists split and the iterator agree if and only if nothing is escaped and no token is followed by white space other than blanks and tabs |
| `ListStrings.TrimmedIff` | include/xrpl/beast/rfc2616.h:42-73 | trimming takes off exactly the six white-space characters at the end |
| `ListStrings.SplitAll` | include/xrpl/beast/rfc2616.h:97-171 | split gives, for every sequence of segments, their texts: quoted strings unescaped, the rest without blanks and tabs and trimmed, empty ones left out, closed or not |
| `ListStrings.EveryStringSplits` | include/xrpl/beast/rfc2616.h:97-171 | every string is such a sequence, so split is described on every input |
| `ListStrings.WalkAll` | include/xrpl/beast/rfc2616.h:265-324 | the iterator meets the quoted strings and tokens of every sequence of pieces, in order |
| `ListStrings.EveryStringWalks` | include/xrpl/beast/rfc2616.h:265-324 | every string is such a sequence, so the iterator is described on every input |
| `ListStrings.TokenFoundIff` | include/xrpl/beast/rfc2616.h:343-357 | a token is found in a written list if and only if some word of it, as written, is that token up to case |
| `NumberModel.LessIsOrder` | include/xrpl/basics/Number.h:410-445 | operator< is the order of the values, for all normal numbers of one range |
| `NumberModel.EqualIsSameValue` | include/xrpl/basics/Number.h:397-402 | operator== holds exactly when the values are equal |
| `NumberModel.ExternalView` | include/xrpl/basics/Number.h:639-673 | mantissa() and exponent() show the same value with a mantissa of 63 bits |
| `NumberModel.LogTen` | include/xrpl/basics/Number.h:23-36 | finds k exactly for 10^k |
| `NumberModel.ExactIntegers` | include/xrpl/basics/Number.h:97-113 | every 64-bit integer is exact in the large scales and every integer of sixteen digits in the small one |
| `NumberModel.RangeEnds` | include/xrpl/basics/Number.h:777-785 | the least and the greatest normal number of each scale |
| `NumberGuard.FourFifthsBounds` | src/libxrpl/basics/Number.cpp:139-146 | the sum of shifts is within 38/5 below four fifths, for every 128-bit number |
| `NumberGuard.DivU10` | src/libxrpl/basics/Number.cpp:130-155 | the shift-and-add form is the quotient and remainder by ten, for every 128-bit number |
| `NumberGuard.Guard.Push` | src/libxrpl/basics/Number.cpp:269-281 | after a push the guard knows whether the exact fraction is zero, below, at or above one half, however many digits went before |
| `NumberGuard.Guard.Pop` | src/libxrpl/basics/Number.cpp:285-290 | pop gives back the digits that were pushed, last first, and keeps the guard exact for the rest |
| `NumberGuard.Guard.DropDigit` | src/libxrpl/basics/Number.cpp:292-311 | dropping a digit divides the exact magnitude by ten |
| `NumberGuard.Guard.RoundIsExact` | src/libxrpl/basics/Number.cpp:313-352 | the decision taken from the digits is the one the exact fraction asks for, in all four modes |
| `NumberRounding.NoneBetween` | include/xrpl/basics/Number.h:777-785 | no normal number lies between a working mantissa and the next |
| `NumberLanding.LandsRightIff` | src/libxrpl/basics/Number.cpp:379-446 | the number on which the final rounding lands is the correct one of all normal numbers, ties to even, if and only if the exact magnitude is not in the cusp above 2^63 - 1 |
| `NumberLanding.CuspIsInhabited` | include/xrpl/basics/Number.h:107-113 | 2^63 is in that cusp toward zero and to nearest, in the Large scale too |
| `NumberRounding.ZeroIsRightIff` | src/libxrpl/basics/Number.cpp:354-376 | below the least normal number zero is the correct rounding if and only if the direction is toward zero, or the magnitude is zero, or to nearest it is at most half the least one |
| `NumberNormalize.BringIntoRange` | src/libxrpl/basics/Number.cpp:354-376 | a Number of exactly the magnitude that went in, with the mantissa in range; zero exactly below the least normal number |
| `NumberNormalize.DoRoundUp` | src/libxrpl/basics/Number.cpp:379-446 | both forms of the cusp, the recursion of the fixed one included, land where the rounding rule says |
| `NumberNormalize.CutAndRound` | src/libxrpl/basics/Number.cpp:575-613 | a mantissa above 2^63 - 1 loses one more digit, and is then rounded as normalization promises |
| `NumberNormalize.Normalize` | src/libxrpl/basics/Number.cpp:525-613 | for every mantissa and exponent the outcome is determined: overflow and zero each exactly when; the result is the correct rounding, ties to even, if and only if the magnitude is outside the cusp and not wrongly flushed to zero |
| `NumberNormalize.FlushExample` | src/libxrpl/basics/Number.cpp:354-376 | half the least normal number, rounded upward, and nine tenths of it, to nearest, become zero, which is not the correct rounding |
| `NumberArithmetic.NormalizeIsIdentity` | src/libxrpl/basics/Number.cpp:665-669 | normalizing a normal number changes nothing, except an overflow above the cap at the largest exponent |
| `NumberArithmetic.Multiply` | src/libxrpl/basics/Number.cpp:791-851 | the exact product decides overflow, zero and the result; it is the correct rounding if and only if outside the cusp and not wrongly flushed to zero |
| `NumberAddition.Add` | src/libxrpl/basics/Number.cpp:690-789 | all of operator+=: zero operands, exact cancellation, sums and differences, each with the exact condition for a correctly rounded result |
| `NumberAddition.AddLike` | src/libxrpl/basics/Number.cpp:722-762 | the sum of like signs is the correct rounding if and only if outside the cusp, or, where the guard loses its sign, if and only if no digit is rounded off |
| `NumberAddition.ScaleDifference` | src/libxrpl/basics/Number.cpp:775-780 | scaling up takes digits back from the guard and keeps mantissa less fraction equal to the exact difference |
| `NumberAddition.DoRoundDown` | src/libxrpl/basics/Number.cpp:449-466 | one unit less exactly when the fraction asks for it, and zero exactly below the least normal number |
| `NumberDifference.DifferenceJudged` | src/libxrpl/basics/Number.cpp:763-789 | rounded to a unit and then normalized, the difference is the correct rounding of the exact one if and only if `DifferenceRight`, a condition on its units and fraction |
| `NumberAddition.AddUnlike` | src/libxrpl/basics/Number.cpp:722-789 | the difference of unlike signs has that property for every pair of operands |
| `NumberAddition.DifferenceExample` | src/libxrpl/basics/Number.cpp:763-789 | 10^16 - 1 is a normal number, and 10^16 + (-1) misses it to nearest and toward zero |
| `NumberAddition.LosesSignExample` | src/libxrpl/basics/Number.cpp:722-762 | a downward sum of two negative numbers that comes out above the exact sum |
| `NumberDivision.QuotientDigits` | src/libxrpl/basics/Number.cpp:943-1023 | the two stages give the integer part of the scaled exact quotient, and the flag says whether anything is left |
| `NumberDivision.Divide` | src/libxrpl/basics/Number.cpp:853-1031 | in the Large scale the exact quotient is normalized; in the older scales the cut-off quotient is, which rounds the exact one correctly if and only if outside the cusp, not wrongly flushed and no remainder decides |
| `NumberTruncation.CutJudged` | src/libxrpl/basics/Number.cpp:943-1023 | a cut-off magnitude rounds as the exact one does if and only if the remainder is not behind an exact result going away from zero, nor behind an exact half going to an even mantissa |
| `NumberDivision.QuotientExample` | src/libxrpl/basics/Number.cpp:853-1031 | 10^15 / (10^15 + 1) rounded upward in the small scale comes out below the exact quotient |
| `NumberDivision.ToRep` | src/libxrpl/basics/Number.cpp:1033-1059 | conversion to int64 rounds the exact value to an integer and fails exactly above 2^63 - 1 |
| `NumberDivision.RoundsToIntegerIff` | src/libxrpl/basics/Number.cpp:313-352 | what that integer is: the floor, the ceiling, the truncation, or the nearest with ties to even, by mode |
| `NumberDivision.DoRound` | src/libxrpl/basics/Number.cpp:469-491 | the overflow test after rounding to an integer never fires |
| `LedgerTiming.GetNextLedgerTimeResolution` | include/xrpl/ledger/LedgerTiming.h:15-98 | the next resolution for each of 10, 20, 30, 60, 90 and 120 s and each reason to move; an unknown one is left alone |
| `LedgerTiming.NextBin` | include/xrpl/ledger/LedgerTiming.h:81-97 | the bin stays in the table and moves by at most one |
| `LedgerTiming.RoundsToNearest` | include/xrpl/ledger/LedgerTiming.h:107-119 | the rounded time is the nearest multiple, the upper one on a tie |
| `LedgerTiming.NearestIsUnique` | include/xrpl/ledger/LedgerTiming.h:100-106 | there is only one such multiple |
| `LedgerTiming.SameWindow` | include/xrpl/ledger/LedgerTiming.h:107-119 | proposals round to the same time if and only if they fall in the same window around a multiple |
| `LedgerTiming.CloseTimesIncrease` | include/xrpl/ledger/LedgerTiming.h:130-144 | effective close times strictly increase along every chain with non-zero raw times |
| `LedgerTiming.CloseTimeIsRounded` | include/xrpl/ledger/LedgerTiming.h:130-144 | the effective time is the rounded one if that comes after the previous ledger, else one second after it; no raw time gives none |
| `LedgerTiming.CloseTimeIncreasesIff` | include/xrpl/ledger/LedgerTiming.h:130-144 | a close time comes after the previous one if and only if there is a raw time |
| `LedgerTiming.Disagreements` | include/xrpl/ledger/LedgerTiming.h:81-87 | k disagreements in a row move k bins towards 120 s |
| `LedgerTiming.Agreements` | include/xrpl/ledger/LedgerTiming.h:89-95 | agreements in a row move one bin towards 10 s for every multiple of eight passed |
| `LedgerTiming.Extremes` | include/xrpl/ledger/LedgerTiming.h:15-33 | five disagreements reach 120 s and forty agreements reach 10 s, from any bin |

## Left out

- Memory orderings weaker than sequential consistency, spin pauses, huge-page hints and timed-wait logging.
- Overflow of the `int` in `ClosureCounter`.
- What the heap is after a slab header has overrun its buffer, and the stream after the count of copied bytes has overflowed: both are undefined behaviour.
- SlabHeap.MakeSet: configurations whose item size wraps around `size_t` are excluded; `SlabConfig.ItemHoldsRequestIff` says which they are.
- The linking of a new slab is one step together with its carving, since no other thread can see it before.
- SlabHeap.SlabAllocatorSet.Deallocate: a pointer inside a slab that is not outstanding is excluded, as the source's own note does.
- The regular expression that finds include lines and the reading of `compile_commands.json`; the names a file includes are a parameter.
- IncludeGraph.UnitsForHeaders: gives the set of units; the split of the arguments by suffix and the sorted output are not modelled.
- RefCountsLifetime.CanBeDestroyed: states in which the limits that the source checks stop every thread, or a conversion in progress, are excluded.
- `Number` roots, powers, `truncate` and text conversion.
- Clock wrap-around in `LedgerTiming`.
- `RangeSet`, node stores, networking, RPC, configuration and logging: wrappers or input and output.

# Verified model of four components

This project models four self-contained parts of the repository in Dafny and proves what they are for.

- **The sub-allocator** `extras::linear_allocator`: a sorted list of free ranges, edited in place by
  first-fit allocation, growing in place, and freeing with coalescing (`LinearAllocator`,
  `RangeOperations`, `FreeRanges`, `Alignment`, `AllocatorLaws`); what it answers, by its live ranges alone
  (`AllocatorAnswers`); and where its arithmetic wraps (`AllocatorLimits`).
- **The object pool** `extras::fixed_pool` with `refcnt_ptr` and `bitset`: the bitmap as an array of
  64-bit words (`Bitset`); pool and pointers as the objects one thread works on (`PoolObjects`); and
  pool and pointers shared by threads, as a step system with one step per atomic operation, critical
  section edge and object lifetime event (`PoolSteps`, `PoolSafety`), with what every operation achieves
  there (`PoolEffects`); and pooled objects that hold pointers into the pool themselves (`PoolOwnership`,
  `PoolOwnershipRuns`).
- **The Unicode converters** of `ConvertUTF.c`: each converter as a step on the next character
  (`ConvertUTF`), run over bounded buffers in place (`ConvertBuffers`), with the laws of restarting
  (`Conversion`), of texts and round trips (`ConvertUTFLaws`, `TextLaws`), of what is accepted
  (`AcceptanceLaws`) and of what is written for any source (`OutputLaws`), against sections 3.9 D90 to D92
  and Table 3-7 of the Unicode Standard (`Unicode`).
- **The configuration readers**: `SimpleIni.h`, which parses INI text in place in a buffer, stores it in
  maps that ignore case and prints it (`IniText`, `IniSyntax`, `IniLines`, `IniLineEnds`, `IniLookup`, `IniLaws`,
  `IniRoundTrip`, `IniHeaders`, `IniRunOn`, `IniBuffer`, `IniStore`); and `json5cpp.h`, a recursive-descent
  parser over a window of 128 bytes (`Json5Grammar`, `Json5Laws`, `Json5Reader`), against the language it reads
  (`Json5Text`, `Json5RoundTrip`, `Json5Exact`).

Methods and classes follow the loops and in-place edits of the source and are proved against functions on
values; the laws are lemmas about those functions, for all inputs. `dafny verify dfyconfig.toml` checks
everything.

## Where the code differs from its documentation

- `isLegalUTF8` checks the second byte after 0xED and 0xF4 only from above, so `ED 41 80` and
  `F4 41 80 80` are accepted, though `ConvertUTF.h` (lines 60-63) promises an error for all illegal
  sequences. What is accepted still decodes to scalar values (`ConvertUTFLaws.LegalIsScalar`); the exact set
  is `ConvertUTFLaws.LegalExact`.
- When a value above 0x10FFFF was passed over before the target ran full, and nothing illegal follows, the
  caller that resumes from UTF-32 sees conversionOK instead of sourceIllegal (`AcceptanceLaws.IllegalIsForgotten8`
  and `16` have inputs; `AcceptanceLaws.Restarts32to8` and `Restarts32to16` say exactly when). The other four
  converters always end as one call does.
- A multi-line INI value whose end tag follows at once should be empty (`SimpleIni.h` lines 115-118); it never is
  (`IniLaws.NoLinesExact`). With a tag that is followed by a newline at once, the code ends the string one
  character before its start and puts the newline back, so the value is the rest of the text, beginning with the
  tag; that is the value when it is found, and the pointer stored by a first `LoadData` sees the NULs written
  later as well, so that a caller gets it cut off at the first of them. With spaces behind the tag, and with the tag
  at the end of the text, the value is the tag. With an empty tag, a bare `<<<` and an empty line, loading ends
  there with success: the key and everything behind it are lost (`IniLaws.BareTagStops`,
  `IniLaws.StopsExactly`). `Save` never writes such a value.
- Spaces behind an end tag should be ignored (`SimpleIni.h` lines 1751-1753); behind a line of the value that ended
  in two characters they are not, so that the tag is not seen (`IniLaws.TagSpacesExact`, `IniLaws.MovedTagMissed`).
- An INI section header without its closing bracket should be skipped as an invalid line (`SimpleIni.h` line
  1581), but line 1575 has moved the section pointer already. A key behind it, before the next closed header, is
  stored in a section whose name is all the text from the header to that key or a comment between: `[bad` and
  `x=2` on two lines give the key `x` in a section named `bad`, newline, `x` (`IniHeaders.BadHeader`,
  `IniHeaders.OpenHeaderTakesKey`), and saved and loaded again it changes its name (`IniHeaders.MisplacedKeyMoves`).
  `IniHeaders.NamesExact` and `IniHeaders.LoadedIsClean` say for which texts names stay clean, and
  `IniRunOn.RoundTripExact` that no other documents come back as they were saved.
- `allocate` rounds the size up in the word: within G - 1 of the maximum it becomes 0 and an empty range is
  handed out (`AllocatorLimits.EmptyRangeServed`); `grow` can likewise wrap, report success and free a live
  range (`AllocatorLimits.LiveRangeLost`). `Legal` in `AllocatorLaws` excludes these calls and alignments that
  are no powers of two (`Alignment.MaskFormExact`); `AllocatorLimits.AllocateKeptExactly` and
  `AllocatorLimits.GrowKeptExactly` say exactly which calls break the partition.
- Copy assignment of `refcnt_ptr` releases the old object before it reads the right-hand pointer. If the old
  object holds that pointer, as in `p = p->next`, and nothing else keeps its object, the pointer dangles
  (`PoolOwnership.CopyAssignExact`, `PoolOwnership.StepToNextDangles`), though `fixed_pool.hpp` (lines 39-42)
  warns of cycles and of too many pointers only.
- `readStringLiteral` ignores the failure of a unicode escape and goes on behind it, though `json5cpp.h` (lines 316
  and 324) does not mean to pair or allow such surrogates, and what it has taken for digits is gone: `"\u1","x"` is
  one literal (`Json5Laws.QuoteIsSwallowed`). `Json5Laws.StringExact` says exactly when that matters. Hexadecimal
  digits run to `Z` (`Json5Laws.HexCharExact`).
- Move assignment of `refcnt_ptr` swaps, so that `p = std::move(p->next)` closes a cycle of the kind that
  `fixed_pool.hpp` (lines 39-41) warns of, and leaks the object if nothing else refers to it
  (`PoolOwnershipRuns.MoveAssignExact`, `PoolOwnershipRuns.MovedNextLeaks`).

## Model

| member | source | states |
|---|---|---|
| AllocatorLaws.RunKeepsPartition | include/extras/linear_allocator.hpp:47-202 | After every run of allocate, allocate_all, grow, free and reset (with frees and grows of live ranges, and sums that stay inside the word) the live and the free ranges are non-empty, pairwise disjoint and together exactly [0, full_size); the free list is sorted with a real gap between neighbours and every begin is a multiple of G |
| AllocatorLaws.OperationKeepsPartition | include/extras/linear_allocator.hpp:47-202 | Any one legal operation on a partitioned memory leaves a partitioned memory |
| AllocatorAnswers.OperationAnswers | include/extras/linear_allocator.hpp:47-202 | What every legal operation returns and leaves live is what the live ranges alone call for: allocate the lowest aligned place with room, or nothing if there is none; allocate_all the whole memory; grow the longer range iff the rounded extension is vacant, and the same range for no addendum; free and reset what they take away |
| AllocatorAnswers.AnswersAreUnique | include/extras/linear_allocator.hpp:47-202 | ... and that leaves no choice: one answer and one set of live ranges |
| AllocatorAnswers.ReturnedIsLive | include/extras/linear_allocator.hpp:47-202 | Over every run whatever is handed out is live afterwards, and unless it has grown it was not before |
| AllocatorAnswers.AllocateAllThenFree | include/extras/linear_allocator.hpp:109-192 | The range of allocate_all has every point of the memory and is the only live one, and freeing it restores the list |
| RangeOperations.AllocateIsFirstFit | include/extras/linear_allocator.hpp:47-106 | First fit is sound, complete and lowest-address over the point set: nothing is returned iff no position aligned to max(align, G) has its rounded size wholly free, otherwise the lowest such position is, and exactly its points leave the free set |
| RangeOperations.AllocateServesExactly | include/extras/linear_allocator.hpp:52-65 | A served request is as long as asked for iff rounding its size up to G stays inside the word; past that an empty range is served (`AllocatorLimits.EmptyRangeServed` has the input) |
| RangeOperations.GrowIsExact | include/extras/linear_allocator.hpp:116-154 | grow succeeds iff the G-rounded extension right after the live range is entirely free; then begin is unchanged and exactly the extension leaves the free set, otherwise the list is unchanged |
| RangeOperations.GrowServesExactly | include/extras/linear_allocator.hpp:139-153 | A successful grow adds the room asked for iff the new end stays inside the word; past that it reports success without having moved the end forward (`AllocatorLimits.LiveRangeLost` has the input) |
| FreeRanges.CanonicalUnique | include/extras/linear_allocator.hpp:156-192 | A sorted list of non-empty ranges with gaps is determined by the points it covers |
| FreeRanges.PairOrder | include/extras/linear_allocator.hpp:121-158 | Ranges are searched in the strict total order of std::pair, the begin first |
| FreeRanges.IntervalInOne | include/extras/linear_allocator.hpp:56-65 | An interval that is wholly free lies in one listed range, so looking range by range misses nothing |
| FreeRanges.CoalesceGiven | include/extras/linear_allocator.hpp:156-187 | Inserting a range and merging it with the next and the previous one gives the canonical list of the old points and the new ones |
| FreeRanges.CarveTaken | include/extras/linear_allocator.hpp:66-98 | Shrinking, splitting or erasing the chosen range gives the canonical list of the old points without the ones handed out |
| AllocatorLaws.AllocateThenFree | include/extras/linear_allocator.hpp:47-192 | Freeing what was just allocated restores the identical list and live set |
| AllocatorLaws.GrowThenFree | include/extras/linear_allocator.hpp:116-192 | Freeing a grown range gives the same list as freeing the range before it grew |
| AllocatorLaws.FreesCommute | include/extras/linear_allocator.hpp:156-192 | Freeing the same live ranges in any two orders gives the same list |
| AllocatorLaws.FreeTotalConserved | include/extras/linear_allocator.hpp:47-202 | Free memory drops by the rounded size on allocate and by exactly the rounded addendum on a successful grow, and rises by exactly the range's length on free |
| AllocatorLaws.IsFreeExact | include/extras/linear_allocator.hpp:204-207 | is_free() holds iff no range is live, when there is any memory |
| AllocatorLaws.CallbackExact | include/extras/linear_allocator.hpp:188-202 | on_allocator_freed fires exactly on the operations that take the live set from non-empty to empty |
| Alignment.MaskFormExact | include/extras/linear_allocator.hpp:218-221 | The mask form of align_up is the least multiple for all arguments that leave room for the sum iff the alignment is a power of two |
| Alignment.AlignUpIs | include/extras/linear_allocator.hpp:218-221 | For every argument of the word the mask form is the least multiple not below it, or 0 when that multiple is the word size itself |
| Alignment.NoWrap | include/extras/linear_allocator.hpp:31-65 | With full_size at most half the maximum, neither sum made for a range start wraps, even for the largest alignment |
| Alignment.GrowNoWrap | include/extras/linear_allocator.hpp:31-139 | With an addendum of at most half the maximum neither sum of grow wraps, for any range inside the memory |
| AllocatorLimits.HalfIsLegal | include/extras/linear_allocator.hpp:31-139 | Callers who keep every size and addendum to the half of the maximum that the constructor asserts of full_size, and every alignment a power of two, make legal calls only: no sum leaves the word |
| AllocatorLimits.AllocateKeptExactly | include/extras/linear_allocator.hpp:47-106 | For any size and alignment: allocate keeps the partition, with a range that was not live, iff it serves nothing or none of its three sums leaves the word (rounding the size, aligning the begin of the first range whose test passes, adding the size there) |
| AllocatorLimits.GrowKeptExactly | include/extras/linear_allocator.hpp:116-154 | For any addendum: grow keeps the partition iff the addendum is 0, the point after the range is not free, or the end aimed for, modulo the word, is past the begin of the range |
| AllocatorLimits.EmptyRangeServed | include/extras/linear_allocator.hpp:52-101 | A size within G - 1 of the maximum asked of a free allocator: the empty range [0, 0) is served and nothing is taken |
| AllocatorLimits.LiveRangeLost | include/extras/linear_allocator.hpp:139-153 | With [0, G) live and the rest free, growing it by the word size less G succeeds with the empty range [0, 0) and leaves all of the memory free |
| LinearAllocator.UpperBound | include/extras/linear_allocator.hpp:124-158 | The binary search finds the first range that is greater than the key in pair order |
| LinearAllocator.LinearAllocator.constructor | include/extras/linear_allocator.hpp:31-38 | A new allocator is partitioned and wholly free |
| LinearAllocator.LinearAllocator.Allocate | include/extras/linear_allocator.hpp:47-106 | The in-place search and edit compute the state and result that the laws are about, also where the arithmetic wraps |
| LinearAllocator.LinearAllocator.CutOut | include/extras/linear_allocator.hpp:66-98 | The replace, insert and erase steps edit the list into the one without the chosen interval |
| LinearAllocator.LinearAllocator.AllocateAll | include/extras/linear_allocator.hpp:109-114 | Returns and takes the whole of a free allocator as the one live range (`AllocatorAnswers.AllocateAllThenFree`) |
| LinearAllocator.LinearAllocator.Grow | include/extras/linear_allocator.hpp:116-154 | The in-place edit computes the state and result that the laws are about |
| LinearAllocator.LinearAllocator.Free | include/extras/linear_allocator.hpp:156-192 | Insertion and merging compute the state that the laws are about, with the callback counted |
| LinearAllocator.LinearAllocator.Reset | include/extras/linear_allocator.hpp:195-202 | Everything is free again, with one callback if something was live |
| LinearAllocator.LinearAllocator.IsFree | include/extras/linear_allocator.hpp:204-207 | True iff nothing is live |
| Bitset.Bitset.constructor | include/extras/bitset.hpp:20-36 | All indices or none are members, and the padding bits are zero |
| Bitset.NumIntsExact | include/extras/bitset.hpp:131-134 | The number of words, computed in a word itself, is enough for every N but the last 63, for which it is 0 |
| Bitset.Bitset.Test | include/extras/bitset.hpp:39-43 | Tells membership |
| Bitset.Bitset.Set | include/extras/bitset.hpp:46-50 | Adds exactly the index; padding bits stay zero |
| Bitset.Bitset.SetAll | include/extras/bitset.hpp:53-64 | Every index below N is a member, also for N that is no multiple of 64, and the padding bits are zero |
| Bitset.Bitset.Clear | include/extras/bitset.hpp:67-71 | Removes exactly the index; padding bits stay zero |
| Bitset.Bitset.ClearAll | include/extras/bitset.hpp:74 | No index is a member |
| Bitset.Bitset.Popcount | include/extras/bitset.hpp:77-84 | The sum of the word counts is the number of members |
| Bitset.Bitset.FirstZero | include/extras/bitset.hpp:87-105 | The least absent index, or SIZE_MAX exactly when all N are members |
| Bitset.Bitset.OccupyZero | include/extras/bitset.hpp:109-129 | Adds exactly the least absent index and returns it, or returns SIZE_MAX and changes nothing exactly when all N are members |
| Bitset.SetAddsIndex | include/extras/bitset.hpp:46-50 | Or-ing one bit into its word adds that index to the set the words stand for |
| Bitset.ClearRemovesIndex | include/extras/bitset.hpp:67-71 | And-ing with the complement removes exactly that index |
| Bitset.OnesAreMembers | include/extras/bitset.hpp:77-84 | The ones of a word prefix are counted by the members they stand for |
| Bitset.ZeroTaken | include/extras/bitset.hpp:109-129 | With all earlier words full, the lowest zero bit of a word is the least absent index, and setting it adds just that |
| PoolSafety.RunKeepsInv | include/extras/fixed_pool.hpp:79-168 | In every interleaving of threads, and of destructors called in them, that allocate, copy, move, assign, reset and destroy pointers the invariant holds: exclusive pointer writes, one lock holder, counts equal to the counted pointers, and bitmap, counts, owners and life cycle of each slot in agreement |
| PoolSafety.StepKeepsInv | include/extras/fixed_pool.hpp:79-168 | Each atomic step of any thread keeps the invariant |
| PoolEffects.OperationTakesEffect | include/extras/refcnt_ptr.hpp:31-91 | In every interleaving, when the thread of an operation is at rest again, the operation has done what it is for, whatever others did meanwhile: a copy and an assigned pointer refer to what the source did at the call and are counted, a moved one leaves null, swapped ones are swapped, a reset one is null, a destroyed one gone; an allocation has the least slot that was free, null iff none was, or after a throw nothing and the bitmap of before |
| PoolEffects.AssignmentMovesReference | include/extras/refcnt_ptr.hpp:49-61 | After a copy assignment the pointer is among the holders that a slot's count tells iff the right-hand side referred to that slot at the call, so no longer among those of its old one |
| PoolEffects.SevenStepsAtMost | include/extras/fixed_pool.hpp:79-168 | No operation takes its thread more than seven steps |
| PoolEffects.SomeoneGoesOn | include/extras/fixed_pool.hpp:79-168 | Threads never block each other for good: while an operation is under way in a run, some thread can go on with its own, as long as nobody makes a 256th pointer to an object |
| PoolEffects.MayStart | include/extras/refcnt_ptr.hpp:31-91 | With nobody else at the pointers, a thread at rest may start every operation on them |
| PoolSafety.LifetimesAlternate | include/extras/fixed_pool.hpp:81-168 | In every interleaving each slot's constructions (hand-outs) and destructions (clear() calls) alternate, one destruction for each construction before the next |
| PoolSafety.BitCoversLife | include/extras/fixed_pool.hpp:83-167 | In every interleaving a slot's bit is set exactly from occupy_zero until after the destruction of its object, or until its constructor has thrown |
| PoolSafety.BitmapIsGuarded | include/extras/fixed_pool.hpp:81-167 | In every interleaving only the thread that holds the lock changes the bitmap |
| PoolSafety.HandOutIsFree | include/extras/fixed_pool.hpp:83-87 | No slot is handed out while its object is live, under construction or being destroyed: it is free, no pointer holds it and no thread is responsible for it |
| PoolSafety.NoDanglingPointer | include/extras/fixed_pool.hpp:137-168 | A non-null pointer that nobody is changing refers to a live object whose bit is set; a right-hand side destroyed by the very assignment that reads it is excluded here and treated in `PoolOwnership.CopyAssignExact` |
| PoolSafety.CountsNeverWrap | include/extras/fixed_pool.hpp:143-151 | With at most 255 pointers to one object, an increment meets a count of 1 to 254 and a decrement one of 1 to 255 |
| PoolSafety.ReferenceLimitIsExact | include/extras/fixed_pool.hpp:143-148 | One more reference is still counted right by the 8-bit count iff fewer than 255 are held |
| PoolSafety.EmptyBitmapExact | include/extras/fixed_pool.hpp:66-71 | The bitmap is empty, as the destructor requires, iff no pointer holds a reference and no thread is between taking a slot and giving it back |
| PoolSafety.ThrowRestores | include/extras/fixed_pool.hpp:83-97 | In every interleaving, an allocation whose constructor throws leaves the bitmap as it found it, whatever the other threads do meanwhile: the slot is free again, no thread is responsible for it, and no count or pointer changes |
| PoolSafety.KeepsCounting | include/extras/refcnt_ptr.hpp:31-91 | Every step of a copy, move, assignment, reset or destruction keeps each slot's count equal to the number of counted pointers to it |
| PoolSafety.PhaseAlternates | include/extras/fixed_pool.hpp:81-168 | Any event history that is in turn balances occupations, constructions, destructions and recyclings, up to the phase reached |
| PoolSteps.FirstFree | include/extras/fixed_pool.hpp:83-85 | The slot taken is the least one whose bit is clear |
| PoolObjects.FixedPool.constructor | include/extras/fixed_pool.hpp:47-56 | A new pool has no slot in use |
| PoolObjects.FixedPool.Allocate | include/extras/fixed_pool.hpp:79-126 | Takes the least free slot with count 1; when all are taken, or the constructor throws, the pool is unchanged |
| PoolObjects.FixedPool.FreeSpace | include/extras/fixed_pool.hpp:130-134 | The number of slots without a live object |
| PoolObjects.FixedPool.AcquireRef | include/extras/fixed_pool.hpp:143-148 | Raises exactly one count by one without wrapping |
| PoolObjects.FixedPool.ReleaseRef | include/extras/fixed_pool.hpp:149-168 | Lowers exactly one count by one; the slot is given back iff it was the last reference |
| PoolObjects.FixedPool.IsUnused | include/extras/fixed_pool.hpp:66-71 | The destructor's condition holds iff no object is live |
| PoolObjects.RefcntPtr.Allocate | include/extras/fixed_pool.hpp:79-126 | A pointer to the least free slot, or a null one when all are taken, with the counts right for the pointers and it; no pointer and nothing changed when the constructor throws |
| PoolObjects.RefcntPtr.Move | include/extras/refcnt_ptr.hpp:31-35 | The reference passes to the new pointer, the old one is null, the counts are still right |
| PoolObjects.RefcntPtr.Copy | include/extras/refcnt_ptr.hpp:37-40 | The counts are right for the pointers with the copy |
| PoolObjects.RefcntPtr.MoveAssign | include/extras/refcnt_ptr.hpp:42-47 | The two pointers swap, also a pointer with itself, and the counts are still right |
| PoolObjects.RefcntPtr.CopyAssign | include/extras/refcnt_ptr.hpp:49-61 | Both refer to the right-hand object and the counts are right, also for self assignment and null pointers, when pooled objects hold no pointers |
| PoolObjects.RefcntPtr.Destroy | include/extras/refcnt_ptr.hpp:63 | The counts are right for the remaining pointers |
| PoolObjects.RefcntPtr.Reset | include/extras/refcnt_ptr.hpp:66-70 | The pointer is null, the counts are right, and the object is gone iff this was its only pointer |
| PoolObjects.UnusedIsExact | include/extras/fixed_pool.hpp:66-71 | The pool may be destroyed iff every pointer into it is null |
| PoolOwnership.ReleaseExact | include/extras/fixed_pool.hpp:149-168 | When pooled objects hold pointers, without cycles: releasing a pointer destroys, members first and so on down, exactly the objects that no reference from outside the pool leads to any more, and clears exactly their bits |
| PoolOwnership.ReleaseKeeps | include/extras/fixed_pool.hpp:149-168 | The cascade keeps every count equal to the number of references and takes away no reference but those of the pointer and of the destroyed objects |
| PoolOwnership.DestroyKeepsGood | include/extras/refcnt_ptr.hpp:63 | Destroying a pointer outside the pool leaves counts, bits and members right, whatever goes down with it |
| PoolOwnership.CopyAssignExact | include/extras/refcnt_ptr.hpp:49-61 | Copy assignment leaves every count right and no pointer dangling iff the right-hand side is null or its object is reached from outside the pool without the pointer assigned to; otherwise the pointer ends up referring to an object whose bit is clear |
| PoolOwnership.LooseSourceIsSafe | include/extras/refcnt_ptr.hpp:49-61 | A right-hand side that is no member of a pooled object is always safe |
| PoolOwnership.StepToNextDangles | include/extras/refcnt_ptr.hpp:56-59 | p = p->next dangles whenever p holds the only reference to its object and next the only one to the object after it |
| PoolOwnership.ListOfTwo | include/extras/refcnt_ptr.hpp:56-59 | It does so for a list of two objects held by one pointer |
| PoolOwnership.LimitIsExact | include/extras/fixed_pool.hpp:143-148 | One more reference is counted right iff fewer than 255 are held |
| PoolOwnershipRuns.RunKeepsGood | include/extras/refcnt_ptr.hpp:31-91 | In every run of allocations, copies, moves, assignments, resets and destructions of pointers inside and outside pooled objects, without cycles and without a copy assignment that destroys what it copies, counts, bits and members stay right |
| PoolOwnershipRuns.RunDoes | include/extras/refcnt_ptr.hpp:31-91 | In every such run each operation does what it is for: the pointers it names refer afterwards to what the source did, to each other's, to null, to the new object or to nothing, and every other pointer refers to what it did before and keeps its reference unless it is a member |
| PoolOwnershipRuns.RunIsTidy | include/extras/refcnt_ptr.hpp:31-91 | At any time of such a run a slot's bit is set iff a chain of references leads to its object from outside the pool, and every reference is to such a slot: nothing dangles, nothing leaks |
| PoolOwnershipRuns.MoveAssignExact | include/extras/refcnt_ptr.hpp:42-47 | Move assignment keeps every count right; in a pool without cycles it leaks iff the owner of one of the two pointers is reached by the other one only |
| PoolOwnershipRuns.MovedNextLeaks | include/extras/refcnt_ptr.hpp:42-47 | p = std::move(p->next) leaves an object that only p referred to to its own member |
| PoolOwnershipRuns.ListLeaks | include/extras/refcnt_ptr.hpp:42-47 | It does so for a list of two objects held by one pointer |
| TextLaws.FillsWithWholeCharacters | 3rdparty/simpleini/simpleini/ConvertUTF.c:61-520 | For every sequence of scalar values and every room, all six converters, strict or lenient, write exactly the encoding of as many whole characters as fit and leave the source at the next one, with conversionOK iff that is all of them and targetExhausted otherwise |
| Conversion.FitIsMost | 3rdparty/simpleini/simpleini/ConvertUTF.c:61-520 | As many as fit is the most: one character more would not fit, and all do iff the whole encoding does |
| TextLaws.ConvertsEveryText | 3rdparty/simpleini/simpleini/ConvertUTF.c:61-520 | For every sequence of scalar values all six converters, strict or lenient, turn one encoding of it into the other with conversionOK, into any target with room for it, and report targetExhausted in any other; so any two of them compose |
| OutputLaws.Writes32to8 | 3rdparty/simpleini/simpleini/ConvertUTF.c:409-458 | For every source of UTF-32, either flag and any room: what is written is, value by value, the bytes of Table 3-6, for surrogates as well, and U+FFFD above 0x10FFFF; the call stops at a surrogate if strict, or where the next value does not fit, and reports a value above 0x10FFFF if it gets to the end |
| OutputLaws.Writes32to16 | 3rdparty/simpleini/simpleini/ConvertUTF.c:61-106 | The same to UTF-16: one unit or a pair for a scalar value, U+FFFD for a surrogate, and above 0x10FFFF U+FFFD or, if strict, nothing and the report |
| OutputLaws.Writes16to32 | 3rdparty/simpleini/simpleini/ConvertUTF.c:110-163 | For every source of UTF-16, either flag and any room: the values of its pairs and of its other units, up to a surrogate that is not read or the next character that does not fit |
| OutputLaws.Writes16to8 | 3rdparty/simpleini/simpleini/ConvertUTF.c:214-280 | The same to UTF-8, an unpaired surrogate that a lenient call lets pass in its three-byte form |
| OutputLaws.Writes8to32 | 3rdparty/simpleini/simpleini/ConvertUTF.c:462-520 | For every source of UTF-8, either flag and any room: the consumed part splits into accepted sequences, and what is written is their values by place, also of the ill-formed ones |
| OutputLaws.Writes8to16 | 3rdparty/simpleini/simpleini/ConvertUTF.c:336-405 | The same to UTF-16, in one unit or a pair each |
| TextLaws.RoundTrip8 | 3rdparty/simpleini/simpleini/ConvertUTF.c:336-520 | Well-formed UTF-8 comes back byte for byte through UTF-32 and through UTF-16, in any targets with room for it |
| TextLaws.RoundTrip16 | 3rdparty/simpleini/simpleini/ConvertUTF.c:61-163 | Well-formed UTF-16 comes back unit for unit through UTF-8 and through UTF-32, in any targets with room for it |
| TextLaws.Triangle | 3rdparty/simpleini/simpleini/ConvertUTF.c:61-280 | UTF-32 to UTF-16 to UTF-8 gives the bytes of UTF-32 to UTF-8, and these read back as the original, in any targets with room for it |
| TextLaws.WellFormedIsText | 3rdparty/simpleini/simpleini/ConvertUTF.c:295-318 | The sequences of Table 3-7 rows (D92) and of surrogate-paired units (D91) are exactly the encodings of scalar value sequences |
| AcceptanceLaws.Restarts16to32 | 3rdparty/simpleini/simpleini/ConvertUTF.c:110-163 | On any input and with either flag, resuming into fresh buffers of at least one encoded character each ends as any one call does whose target does not run full: the same output, end position and result |
| AcceptanceLaws.Restarts16to8 | 3rdparty/simpleini/simpleini/ConvertUTF.c:214-280 | The same for UTF-16 to UTF-8 |
| AcceptanceLaws.Restarts8to16 | 3rdparty/simpleini/simpleini/ConvertUTF.c:336-405 | The same for UTF-8 to UTF-16 |
| AcceptanceLaws.Restarts8to32 | 3rdparty/simpleini/simpleini/ConvertUTF.c:462-520 | The same for UTF-8 to UTF-32 |
| AcceptanceLaws.Restarts32to8 | 3rdparty/simpleini/simpleini/ConvertUTF.c:409-458 | From UTF-32 output and end position are the same; the result is conversionOK instead of sourceIllegal iff some value above 0x10FFFF lies before the start of the last call and from there on lies neither another one nor, if strict, a surrogate, and the same otherwise |
| AcceptanceLaws.Restarts32to16 | 3rdparty/simpleini/simpleini/ConvertUTF.c:61-106 | The same for UTF-32 to UTF-16, where only a strict conversion passes over such a value; a lenient one always ends as one call does |
| AcceptanceLaws.IllegalIsForgotten8 | 3rdparty/simpleini/simpleini/ConvertUTF.c:409-458 | Lenient from UTF-32 to UTF-8, the values 0x110000, 0x41 and 0x42: one call reports the illegal value, resuming with 4 bytes of room each ends with conversionOK |
| AcceptanceLaws.IllegalIsForgotten16 | 3rdparty/simpleini/simpleini/ConvertUTF.c:61-106 | Strict from UTF-32 to UTF-16, the values 0x110000, 0x41 and 0x10000: likewise with 2 units of room each |
| AcceptanceLaws.TextInPieces32and8 | 3rdparty/simpleini/simpleini/ConvertUTF.c:409-520 | Every sequence of scalar values is delivered whole by resuming, in both directions, and the last call returns conversionOK |
| AcceptanceLaws.TextInPieces32and16 | 3rdparty/simpleini/simpleini/ConvertUTF.c:61-163 | The same between UTF-32 and UTF-16 |
| AcceptanceLaws.TextInPieces16and8 | 3rdparty/simpleini/simpleini/ConvertUTF.c:214-405 | The same between UTF-16 and UTF-8 |
| Conversion.AmpleRoom | 3rdparty/simpleini/simpleini/ConvertUTF.c:61-520 | A call whose target does not run full exists for every source: room for the output and one encoded character suffices |
| Conversion.ChunksAreOneRun | 3rdparty/simpleini/simpleini/ConvertUTF.c:214-520 | The chunking theorem for any such converter, with the mark of an illegal value passed over before the last call lost |
| Conversion.Resume | 3rdparty/simpleini/simpleini/ConvertUTF.c:214-520 | After an exhausted target, a call at the reported position with what is left of the room gives together one call with all the room |
| ConvertUTFLaws.LegalExact | 3rdparty/simpleini/simpleini/ConvertUTF.c:295-318 | isLegalUTF8 accepts exactly the rows of Table 3-7 and, after 0xED and 0xF4, second bytes that are too low |
| ConvertUTFLaws.LegalIsScalar | 3rdparty/simpleini/simpleini/ConvertUTF.c:295-405 | Whatever isLegalUTF8 accepts is read as a scalar value: never a surrogate, never above 0x10FFFF |
| ConvertUTFLaws.NeverOverlong | 3rdparty/simpleini/simpleini/ConvertUTF.c:295-318 | ... and never from an overlong form: the shortest UTF-8 form of the value is as long as what was accepted |
| ConvertUTFLaws.Reencodes | 3rdparty/simpleini/simpleini/ConvertUTF.c:174-280 | Reading a row of Table 3-7 with the offset table and writing it again gives the same bytes |
| ConvertUTFLaws.WritesUtf8 | 3rdparty/simpleini/simpleini/ConvertUTF.c:214-280 | The fall-through byte writer produces the UTF-8 form of every scalar value |
| ConvertUTFLaws.TrailingBytesAre | 3rdparty/simpleini/simpleini/ConvertUTF.c:174-183 | The table of trailing bytes gives the number of ones that a byte starts with, less one, from 0xC0 on |
| ConvertUTFLaws.OffsetsAreMarks | 3rdparty/simpleini/simpleini/ConvertUTF.c:185-191 | Each magic offset is the sum of the marks of a first byte and its continuation bytes, shifted to their places, in 32 bits |
| AcceptanceLaws.Step8to32Exact | 3rdparty/simpleini/simpleini/ConvertUTF.c:462-520 | The length table and isLegalUTF8 alone decide each step: the surrogate and range tests behind them never fire |
| AcceptanceLaws.Step8to16Exact | 3rdparty/simpleini/simpleini/ConvertUTF.c:336-405 | The same for the reader that writes UTF-16 |
| AcceptanceLaws.AcceptsExactly8to32 | 3rdparty/simpleini/simpleini/ConvertUTF.c:462-520 | All of the input is accepted, into a target of any room, iff it splits into rows of Table 3-7 and those extra sequences and their values fit |
| AcceptanceLaws.AcceptsExactly8to16 | 3rdparty/simpleini/simpleini/ConvertUTF.c:336-405 | The same for the reader that writes UTF-16 |
| AcceptanceLaws.AcceptsExactly16to32 | 3rdparty/simpleini/simpleini/ConvertUTF.c:110-163 | Strict UTF-16 is accepted, into a target of any room, iff it is well-formed and its values fit |
| AcceptanceLaws.AcceptsExactly16to8 | 3rdparty/simpleini/simpleini/ConvertUTF.c:214-280 | The same for the reader that writes UTF-8 |
| AcceptanceLaws.AcceptsLenient16to32 | 3rdparty/simpleini/simpleini/ConvertUTF.c:110-163 | Lenient UTF-16 is accepted iff it does not end in a high surrogate and what it is read as fits |
| AcceptanceLaws.AcceptsLenient16to8 | 3rdparty/simpleini/simpleini/ConvertUTF.c:214-280 | The same for the reader that writes UTF-8 |
| AcceptanceLaws.RoundTripExactly8 | 3rdparty/simpleini/simpleini/ConvertUTF.c:409-520 | What any accepted call wrote comes back as the same bytes iff these are well-formed |
| AcceptanceLaws.StraysAreIllFormed | 3rdparty/simpleini/simpleini/ConvertUTF.c:305-312 | Each of the extra sequences is accepted and none is well-formed, against the header's promise that every illegal sequence is an error |
| AcceptanceLaws.StopsAtOffendingByte8to32 | 3rdparty/simpleini/simpleini/ConvertUTF.c:462-520 | Wherever the reader stops, exactly the consumed prefix is converted; the source is at the first byte of the malformed or cut-off sequence, or of the character that did not fit |
| AcceptanceLaws.StopsAtOffendingByte8to16 | 3rdparty/simpleini/simpleini/ConvertUTF.c:336-405 | The same for the reader that writes UTF-16 |
| AcceptanceLaws.StopsAtOffendingUnit16to32 | 3rdparty/simpleini/simpleini/ConvertUTF.c:110-163 | Strict: wherever the reader stops, exactly the consumed prefix is converted; the source is at the unpaired surrogate, a high one at the end of the source being reported as cut off, or at the character that did not fit |
| AcceptanceLaws.StopsAtOffendingUnit16to8 | 3rdparty/simpleini/simpleini/ConvertUTF.c:214-280 | The same for the reader that writes UTF-8 |
| ConvertBuffers.ConvertUTF32toUTF16 | 3rdparty/simpleini/simpleini/ConvertUTF.c:61-106 | The loop over buffers leaves result, source position, target position and target contents as the converter function has them, and the rest of the target untouched |
| ConvertBuffers.ConvertUTF16toUTF32 | 3rdparty/simpleini/simpleini/ConvertUTF.c:110-163 | The same for this converter |
| ConvertBuffers.ConvertUTF16toUTF8 | 3rdparty/simpleini/simpleini/ConvertUTF.c:214-280 | The same for this converter |
| ConvertBuffers.ConvertUTF8toUTF16 | 3rdparty/simpleini/simpleini/ConvertUTF.c:336-405 | The same for this converter |
| ConvertBuffers.ConvertUTF32toUTF8 | 3rdparty/simpleini/simpleini/ConvertUTF.c:409-458 | The same for this converter; what it writes is said by `OutputLaws.Writes32to8` |
| ConvertBuffers.ConvertUTF8toUTF32 | 3rdparty/simpleini/simpleini/ConvertUTF.c:462-520 | The same for this converter |
| ConvertBuffers.WriteBytes | 3rdparty/simpleini/simpleini/ConvertUTF.c:258-263 | The switch that falls through from the last byte to the first writes the character's bytes in place and nothing else |
| ConvertBuffers.ReadBytes | 3rdparty/simpleini/simpleini/ConvertUTF.c:522-539 | The reading switch, as the loop it is documented to stand for, gathers the shifted sum of the bytes |
| ConvertBuffers.IsLegalUTF8 | 3rdparty/simpleini/simpleini/ConvertUTF.c:295-318 | The switch that falls through from the last byte to the first accepts what the predicate does |
| ConvertBuffers.ReadCharacter16 | 3rdparty/simpleini/simpleini/ConvertUTF.c:118-147 | Reading past a surrogate pair, or back at the unit that could not be read, as the character function has it |
| IniText.TiesAreCaseVariants | 3rdparty/simpleini/simpleini/SimpleIni.h:2733-2748 | Neither of two names is less than the other iff they are of one length and differ, if at all, in the capital and small form of ASCII letters |
| IniText.FirstDifferenceDecides | 3rdparty/simpleini/simpleini/SimpleIni.h:2733-2748 | Where two names first differ in more than case the smaller code decides, capitals counting as small letters; a name that goes on is the greater one |
| IniLookup.IndexIsFirst | 3rdparty/simpleini/simpleini/SimpleIni.h:1915-1940 | A section is found under the first name that is a case variant of the one looked for, and not found iff there is none |
| IniLookup.KeyIndexIsFirst | 3rdparty/simpleini/simpleini/SimpleIni.h:1975-1990 | The same for the keys of a section |
| IniLookup.AddSectionHolds | 3rdparty/simpleini/simpleini/SimpleIni.h:1915-1940 | A header makes its section known, a new one last and empty, and changes nothing else |
| IniLookup.AddItemHolds | 3rdparty/simpleini/simpleini/SimpleIni.h:1915-1990 | An entry gives its key, in any case, its value, and no other key another one; sections and keys stay in their order and spelling, a new one comes last |
| IniLookup.LastValueIsStored | 3rdparty/simpleini/simpleini/SimpleIni.h:1412-1489 | After any text of such lines as below every key has the value of the last entry for it, upper and lower case alike, or the one it had before |
| IniLookup.DistinctIsUnambiguous | 3rdparty/simpleini/simpleini/SimpleIni.h:331-358 | That names are distinct, as all stored ones are, means that no two sections and no two keys of one are case variants |
| IniLines.TextIsLoaded | 3rdparty/simpleini/simpleini/SimpleIni.h:1538-1667 | Text of headers, entries, values of several lines, comments, blank lines and lines that are none of these, with blanks around names, signs and values and any newlines: loading it stores exactly what the headers and entries say, in order |
| IniLines.CommentIsSkipped | 3rdparty/simpleini/simpleini/SimpleIni.h:1560-1563 | A line that starts with ; or # is passed over and the next entry found |
| IniLines.SavedLines | 3rdparty/simpleini/simpleini/SimpleIni.h:2412-2548 | The saved text, line by line: a header for each section with a name, its entries, values of several lines between their tags, and two empty lines in front of every section but the first |
| IniLines.SavedExample | 3rdparty/simpleini/simpleini/SimpleIni.h:2412-2548 | A saved document character by character |
| IniLines.LoadedExample | 3rdparty/simpleini/simpleini/SimpleIni.h:1412-1489 | A text with a signature, a comment, blanks and a key given twice in different case, loaded |
| IniLineEnds.ValueOfLines | 3rdparty/simpleini/simpleini/SimpleIni.h:1730-1858 | The lines of a value may end in any newlines: it is read with one newline for each, up to the first line that is the tag |
| IniLineEnds.CommentOfLines | 3rdparty/simpleini/simpleini/SimpleIni.h:1730-1858 | A comment is read as its lines with one newline each, whatever they end in, and the text behind it is left alone |
| IniLineEnds.CommentGoesOn | 3rdparty/simpleini/simpleini/SimpleIni.h:1730-1858 | Empty lines between comment lines belong to the comment, one newline each |
| IniText.LessTransitive | 3rdparty/simpleini/simpleini/SimpleIni.h:2733-2748 | The case-insensitive order is transitive |
| IniText.LessAsymmetric | 3rdparty/simpleini/simpleini/SimpleIni.h:2733-2748 | The case-insensitive order is asymmetric, so with the two laws above a strict weak order |
| IniText.TiesCompareAlike | 3rdparty/simpleini/simpleini/SimpleIni.h:2733-2748 | Case variants of a name compare alike with every other name |
| IniText.IsLess | 3rdparty/simpleini/simpleini/SimpleIni.h:2739-2748 | The character loop decides that order |
| IniLaws.MultiLineExact | 3rdparty/simpleini/simpleini/SimpleIni.h:1730-1858 | Printed before its end tag, a value is read back and the text after it left alone iff it has no carriage return and no line that equals the tag without regard to case and trailing spaces; for every tag |
| IniLaws.NoLinesExact | 3rdparty/simpleini/simpleini/SimpleIni.h:1816-1857 | A value whose first line is its end tag is never read as the empty value of the documentation: with an empty tag nothing is found; otherwise the value is all the text from the tag on, if the tag has no spaces behind it and does not end the text, and the tag itself if it has or does |
| IniLaws.StopsExactly | 3rdparty/simpleini/simpleini/SimpleIni.h:1650-1661 | Reading a value ends the loading iff it is a bare <<< with an empty line or no text behind it, multi-line values being on |
| IniLaws.BareTagStops | 3rdparty/simpleini/simpleini/SimpleIni.h:1474-1661 | Such a key is lost, and everything behind it |
| IniLaws.TagSpacesExact | 3rdparty/simpleini/simpleini/SimpleIni.h:1751-1821 | Spaces behind the end tag are ignored iff no line of the value before it ended in two characters |
| IniLaws.MovedTagMissed | 3rdparty/simpleini/simpleini/SimpleIni.h:1788-1821 | A line of the value that ends in two characters, then the end tag with spaces behind it: the tag is read as another line |
| IniLaws.ItemExact | 3rdparty/simpleini/simpleini/SimpleIni.h:1609-1661 | A printed key and value are read back, and the text after them left alone, iff the key is trimmed and free of delimiters and the value is a trimmed single line or, with multi-line values on, one that the law above admits; the key goes to the section that the pointer then spells |
| IniLaws.FoundIsClean | 3rdparty/simpleini/simpleini/SimpleIni.h:1538-1667 | Whatever text is read, the names of closed section headers and the keys come out trimmed and free of delimiters, and without multi-line values so do the values |
| IniRoundTrip.SectionExact | 3rdparty/simpleini/simpleini/SimpleIni.h:1566-1598 | A printed section header is read back iff its name is trimmed and has no bracket or newline in it |
| IniRoundTrip.RoundTrip | 3rdparty/simpleini/simpleini/SimpleIni.h:2412-2548 | Loading the saved text of a document with clean names and values rebuilds its sections, keys and values in order, the section without a name moved first and dropped if it has no keys |
| IniRoundTrip.SavedAgain | 3rdparty/simpleini/simpleini/SimpleIni.h:2412-2548 | The reloaded document is saved as the identical text iff there was no section without name and keys in front of others |
| IniHeaders.NamesExact | 3rdparty/simpleini/simpleini/SimpleIni.h:1566-1606 | Loading any text into a document keeps section names trimmed and free of delimiters iff the text misplaces no key, that is, no header without a closing bracket is followed by a key before the next closed header |
| IniHeaders.LoadedIsClean | 3rdparty/simpleini/simpleini/SimpleIni.h:1412-1489 | Without multi-line values, for every text: what is loaded from it has no two names alike but for case, and has clean names, keys and values iff the text misplaces no key |
| IniHeaders.LoadedSurvives | 3rdparty/simpleini/simpleini/SimpleIni.h:1412-1489 | ... and then it survives being saved and loaded again |
| IniRunOn.RoundTripExact | 3rdparty/simpleini/simpleini/SimpleIni.h:2412-2548 | Without multi-line values: a document with distinct names is clean iff its saved text loads as the same document |
| IniRunOn.CameFrom | 3rdparty/simpleini/simpleini/SimpleIni.h:1566-1606 | Whatever text is read, the name found with a key is the one before or replays: printed as a header it is read as an open one again and gives a longer name |
| IniRunOn.LongIsLoaded | 3rdparty/simpleini/simpleini/SimpleIni.h:1412-1489 | A header that replays is reached, wherever it stands in the text, and the longer name stays in the loaded document |
| IniHeaders.ContentsAreClean | 3rdparty/simpleini/simpleini/SimpleIni.h:1478-1481 | Without multi-line values, loading any text keeps names distinct without regard to case, and keys and values clean |
| IniHeaders.OpenHeaderTakesKey | 3rdparty/simpleini/simpleini/SimpleIni.h:1575-1583 | A key on the line behind a header without a closing bracket goes to a section named by all the text from the header to the key |
| IniHeaders.MisplacedKeyMoves | 3rdparty/simpleini/simpleini/SimpleIni.h:1575-1583 | What was stored so is saved and loaded again under yet another name |
| IniHeaders.BadHeader | 3rdparty/simpleini/simpleini/SimpleIni.h:1575-1583 | The lines [bad and x=2 load as the key x of a section whose name is bad, a newline and x |
| IniBuffer.LoadMultiLineText | 3rdparty/simpleini/simpleini/SimpleIni.h:1730-1858 | On the buffer, lines moved down and NULs written: the value and the unread text are the function's, and nothing in front of the value's newline or behind the read text has changed |
| IniBuffer.CheckTag | 3rdparty/simpleini/simpleini/SimpleIni.h:1809-1825 | The line is compared trimmed, and left as it was unless it is the end tag |
| IniBuffer.LoadComment | 3rdparty/simpleini/simpleini/SimpleIni.h:1730-1858 | On the buffer, a comment's lines and the blank lines between them are moved together and ended with a NUL: the text and the unread rest are the function's |
| IniBuffer.FindEntry | 3rdparty/simpleini/simpleini/SimpleIni.h:1538-1667 | On the buffer: the strings found, the section that the pointer spells, also after a header without a closing bracket, and the unread text are the function's, and the text already read is unchanged, so that earlier strings stay what they are |
| IniStore.Store.AddEntry | 3rdparty/simpleini/simpleini/SimpleIni.h:1889-1991 | The maps go on listing the document, which changes as `IniLookup.AddItemHolds` says: a new section or key comes last, a known one in any case keeps its place and spelling and takes the value; the result tells which |
| IniStore.Store.LoadData | 3rdparty/simpleini/simpleini/SimpleIni.h:1412-1489 | Reads the buffer into the maps: the document afterwards is the parse of the text into the one before |
| IniStore.Store.Save | 3rdparty/simpleini/simpleini/SimpleIni.h:2412-2548 | Sorting the maps by load order prints exactly the document, the section without a name first |
| IniStore.SortByOrder | 3rdparty/simpleini/simpleini/SimpleIni.h:2428-2432 | The names sorted by their load numbers |
| IniStore.IsMultiLineData | 3rdparty/simpleini/simpleini/SimpleIni.h:1684-1717 | True iff the value is not empty and has a newline or spaces at an end |
| IniStore.OutputMultiLineText | 3rdparty/simpleini/simpleini/SimpleIni.h:2552-2577 | Writes every line with a newline behind it, so the value and one newline |
| IniStore.StoredIsDistinct | 3rdparty/simpleini/simpleini/SimpleIni.h:331-358 | The maps never hold two sections, or two keys of a section, whose names differ only in case |
| IniStore.StoredSurvives | 3rdparty/simpleini/simpleini/SimpleIni.h:1412-1489 | So everything stored with clean names and values survives being saved and loaded |
| Json5Reader.Reader.constructor | 3rdparty/json5cpp/json5/json5cpp.h:45-47 | The window starts at the front of the stream |
| Json5Reader.Reader.Fill | 3rdparty/json5cpp/json5/json5cpp.h:86-95 | The window moves on without losing a byte, and is then full or holds all that is left |
| Json5Reader.Reader.Peek | 3rdparty/json5cpp/json5/json5cpp.h:49-59 | The byte n places ahead in the stream, or EOF past its end; right iff n is below 128 or past the end, and the position does not move |
| Json5Reader.Reader.Get | 3rdparty/json5cpp/json5/json5cpp.h:61-70 | The next byte of the stream, one position on, and EOF ever after the end |
| Json5Reader.SkipWhitespace | 3rdparty/json5cpp/json5/json5cpp.h:165-198 | Stops where the function on the plain stream does, for every input |
| Json5Reader.StringLiteral | 3rdparty/json5cpp/json5/json5cpp.h:334-406 | The text and position of the function on the plain stream, or failure with it |
| Json5Reader.ParseNumber | 3rdparty/json5cpp/json5/json5cpp.h:409-537 | The value and position of the function on the plain stream, or failure with it |
| Json5Reader.ParseAny | 3rdparty/json5cpp/json5/json5cpp.h:626-674 | The recursive descent over the window ends on every input and gives the value and position of the function on the plain stream, which `Json5RoundTrip.ReadsBack` and `Json5Exact.AcceptsExactly` are about |
| Json5Reader.ParseObject | 3rdparty/json5cpp/json5/json5cpp.h:540-590 | The same for the members of an object |
| Json5Reader.ParseArray | 3rdparty/json5cpp/json5/json5cpp.h:593-623 | The same for the elements of an array |
| Json5Reader.ParseDocument | 3rdparty/json5cpp/json5/json5cpp.h:678-696 | Accepts one value with nothing but white space behind it, as the function on the plain stream does, and so exactly the language of `Json5Exact.AcceptsExactly` |
| Json5Grammar.ParseValue | 3rdparty/json5cpp/json5/json5cpp.h:626-674 | A successful parse consumes at least one byte and none past the end |
| Json5Exact.AcceptsExactly | 3rdparty/json5cpp/json5/json5cpp.h:540-696 | parse accepts exactly the documents of a language written down without the parser (the five words, numbers, quoted strings with every escape, lists and objects in order, white space and comments between tokens, commas free) that are nested no deeper than the limit, and each is read as the value it stands for |
| Json5RoundTrip.DocumentRead | 3rdparty/json5cpp/json5/json5cpp.h:540-696 | Every such document, also with a comment that the end cuts off, is read as its value, unless that is nested too deep |
| Json5RoundTrip.ReadsBack | 3rdparty/json5cpp/json5/json5cpp.h:540-674 | Anywhere in a stream, a value behind white space and comments is read as what it stands for, with the position behind it, whenever what follows does not prolong its last token |
| Json5Laws.DepthIsExact | 3rdparty/json5cpp/json5/json5cpp.h:540-674 | The depth limit refuses exactly the values nested deeper than it and changes no other result |
| Json5Laws.ParseDepthIsExact | 3rdparty/json5cpp/json5/json5cpp.h:678-696 | A document accepted under a limit is accepted under a lower one iff its value is nested no deeper |
| Json5Laws.WritesUtf8 | 3rdparty/json5cpp/json5/json5cpp.h:250-266 | Every scalar value is written in a UTF-8 form of shortest length that stands for it |
| Json5Laws.EscapeReads | 3rdparty/json5cpp/json5/json5cpp.h:268-331 | Every scalar value, written as one escape or as a surrogate pair of escapes, is read as its UTF-8 form |
| Json5Laws.StringExact | 3rdparty/json5cpp/json5/json5cpp.h:334-406 | A literal that is read is read as by a reader that fails at a bad escape iff no escape met in it is bad: four hexadecimal digits, no low surrogate first, a high one with a low one behind it; two hexadecimal digits behind an x |
| Json5Laws.ErrorIsBad | 3rdparty/json5cpp/json5/json5cpp.h:287-331 | readUnicodeEscape reports as errors exactly the bad unicode escapes, if no capital letter beyond F is taken for a digit |
| Json5Laws.BadTakes | 3rdparty/json5cpp/json5/json5cpp.h:268-331 | A bad unicode escape leaves no text and takes along four characters, or five or ten of a high surrogate with a backslash, or a backslash and a u, behind it |
| Json5Laws.HexCharExact | 3rdparty/json5cpp/json5/json5cpp.h:234-246 | Digits are the hexadecimal ones and, with values of 16 and above, the other capital letters |
| Json5Laws.QuoteIsSwallowed | 3rdparty/json5cpp/json5/json5cpp.h:387-388 | A failed escape takes the closing quote with it: two literals with a comma between them are read as one |

## Left out

- LinearAllocator.LinearAllocator.Allocate: for a call that is not `Legal` (see above) it promises the state the source computes; whether the partition survives is `AllocatorLimits.AllocateKeptExactly`.
- LinearAllocator.LinearAllocator.Grow: the same for a grown end that leaves the word.
- LinearAllocator.LinearAllocator.Free: does not say that the vector never reallocates; its capacity is not modelled, and `allocate` reserves for one free only.
- PoolSafety.RunKeepsInv: steps are sequentially consistent; C++ memory orders are not modelled. Callers are taken to be free of data races on pointer objects and to hold at most 255 references to one object, as the header demands. A destructor that uses pointers is a thread of control of its own, which its caller may wait for.
- PoolSafety.NoDanglingPointer: assumes that no pointer is destroyed while it is being copied, not even by the destructor that the copying itself calls; `PoolOwnership.CopyAssignExact` is about that case, for one thread.
- PoolOwnershipRuns.RunIsTidy: for runs without cycles of pointers, as `fixed_pool.hpp` (lines 39-40) demands; what move assignment does where it would close one is `PoolOwnershipRuns.MoveAssignExact`.
- PoolOwnership.CopyAssignExact: ownership without cycles, as `fixed_pool.hpp` (lines 39-40) demands. Reading the destroyed right-hand pointer gives the value it last had.
- PoolObjects.RefcntPtr.CopyAssign: pooled objects hold no pointers here, so that a release never touches the right-hand side (see `PoolOwnership`); the pointers of one pool only; `m_manager` is the pool, and the object is its slot number. That the bit is cleared only after the destructor ran is said by the step system, not by the methods of one thread.
- PoolObjects.FixedPool.Allocate: an exception is an argument that says whether the constructor throws.
- Bitset.Bitset.constructor: for the last 63 sizes of a word the source has no words at all (`Bitset.NumIntsExact`), which is no valid array; the model has the words there.
- ConvertBuffers.ReadBytes: written as the loop of Note A in the source, not as the six-case switch.
- IniBuffer.FindEntry: where a comment ends and what reading it does to the buffer is modelled; its text is not kept, so `FindFileComment` and comments that are saved again are not.
- IniStore.Store.AddEntry: no multiple keys and no forced replacement. The ordered maps are maps by folded name, which `IniText.TiesAreCaseVariants` justifies.
- IniStore.Store.LoadData: strings are stored as values when they are found. The source stores pointers into the buffer on a first load; `IniBuffer.FindEntry` shows what they point to to be stable, except for the value without lines, which later NULs cut off (see above).
- IniStore.Store.Save: `addSignature` stands for the UTF-8 mode and the argument together; newlines are those of platforms that write a line feed.
- IniText.IsLess: characters compare by code; that `char` may be signed changes the order of names outside ASCII but none of the laws.
- IniHeaders.LoadedIsClean: for values on one line; with multi-line values on, the law of names (`IniHeaders.NamesExact`) holds as it stands.
- IniRoundTrip.RoundTrip: without a signature in front, a text that itself starts with the three signature bytes is excluded, since loading drops them.
- Json5Reader.ParseNumber: whether jsoncpp accepts a decimal text is a parameter, and its floating-point value is left as that text.
- Json5Grammar.ParseValue: an object is the list of its members as read, in which the last of a name counts; error texts and locations are not modelled (the code that updates the location is unreachable).
- INI and JSON file access, wide-character strings, string ownership, `GetLongValue` and its relatives.
- `FileIoThreadPool`, logging, input tables, `GameView`, platform folders: input and output, user interface or shallow facts.

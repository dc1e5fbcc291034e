# A model of the LLFree page-frame allocator

LLFree manages page frames with redundant counters over bitmaps. A 512-frame *child* has eight rows of
64 bits and an entry with a free counter and a `huge` flag. A *tree* groups 2^n children and has an entry
with a free counter, a class and a `reserved` flag. Each class has *slots*; a slot reserves one tree and
holds a part of its free count. Every level is changed by compare-and-swap, so the counters of the upper
levels only approximate the free frames below them.

The project has two connected models. The tree order, the number of frames, the slots per class and, where
nothing is said about it, the policy are arbitrary.

**The sequential model** follows the source over arrays and classes: `Words` and `Bitfield` (bit rows),
`Children`, `Lower` (the lower allocator), `TreeEntries`, `TreeArray`, `Locals` and `LLFree` (the whole
allocator). Each method is proved against the set of free frames: a frame is free when its bit is zero and
its child is not huge. The upper level is proved against accounts (`Accounts`): for each tree, entry, slots
and the frames that a call carries add up to the free frames below, and a reservation has one holder.

**The model with threads** has one program counter per thread; a step is one compare-and-swap, load or
update of one row, child, tree entry or slot, in any interleaving. `ConcLower` is the lower allocator and
`ConcUpper` the whole one. The lower invariant `Good` says that each child's counter, the frames that threads
took from it and not yet returned, the held frames and the unmanaged frames add up to 512, and what every bit
then means. The upper invariant adds reservation tokens and frame credits. `ConcSearch`, `ConcLone`, `ConcEnds`,
`ConcUpperLone`, `ConcUpperServes` and `ConcUpperSlots` connect it with the sequential one: what a call achieves, and
that it ends, when all others rest.

## What the proofs found in the code

Both undo loops below differ from what they are meant to do. The model has them in both forms: `Undo` is
`Written` for the loops as they are in the source and `Intended` for loops that restore what was changed.

- `try_update_huge_n` (src/lower.c:148-152) indexes with `j - k`, so it visits the entries 1 to `j` and not 0 to
  `j - 1`. With two children of which the second is held as huge, a failed get leaves the first one taken
  and frees the held one (`LowerLemmas.WrittenUndoFreesHeldChild`, `ConcExamples.LargeGetFrees`).
- `field_toggle` (src/bitfield.c:188-193) compares the row with its old value, which it no longer holds. The first
  compare-and-swap fails, so the assertion fails; without assertions one row stays flipped
  (`Bitfield.WrittenUndoKeepsRow`, `ConcExamples.GivenGetFires`). `split_huge` uses the same loop, so two clients
  that each give back a part of one huge child reach it too, with blocks as small as 64 frames
  (`ConcExamples.OverlappingPutsFire`).

When the code as written is right is stated exactly. Sequentially, each operation of the lower allocator meets
its promise if and only if a guard on the state before the call holds (`GetClean`, `GetAtClean`, `PutClean`),
which is always so for order 9, orders up to 6, and gets without a given block of orders 7 and 8. With
threads, a step keeps the invariant if and only if its thread is not inside one of the loops
(`ConcWritten.WrittenStep`, `ConcWritten.WrittenRun`), and no thread ever gets there if the clients do not ask
for a given block of order 7 or 8 or for an order above 9, and do not begin a put of order below 9 into a child
that is still huge while another such put into it is in progress (`ConcWritten.CarefulRun`).

## Model

| member | source | states |
|---|---|---|
| `Base.OffsettedVisitsOnce` | src/utils.h:26-30 | `for_offsetted` visits every index of the aligned window around its start exactly once: the given formula for the iteration is its inverse, both ways |
| `Base.AlignUpIs` | src/utils.h:133-136 | the aligned value is the ceiling of the division times the alignment, and the smallest multiple that is not below the value |
| `Base.AlignDownIs` | src/utils.h:124-131 | rounding down gives the largest multiple that is not above the value, in the same quotient |
| `UpperLemmas.NextPow2Is` | src/utils.h:144-149 | the result is a power of two, and no smaller power of two reaches the value |
| `UpperSpec.TreeCountIs` | src/utils.h:100-103 | dividing by the child size and then by the children per tree, each rounded up, is dividing by the tree size rounded up |
| `UpperSpec.RowOfTree` | src/utils.h:90-98 | with at most 2^41 frames the row of a tree is stored unchanged, starts at the tree's first frame and names the tree again |
| `Locals.RowsFit` | src/local.c:7-16 | start rows of all frames fit the 35-bit field if and only if there are at most 2^41 frames |
| `Words.LowestZeros` | src/bitfield.c:31-85 | for every word and order 0 to 6 the shift, subtract and mask tests find the lowest aligned block of 2^order zero bits, or 64 exactly when there is none |
| `Words.RowCell.FirstZerosAligned` | src/bitfield.c:31-93 | succeeds if and only if an aligned zero block exists; then exactly the bits of the lowest one are set, else the word is unchanged |
| `Words.RowCell.Toggle` | src/bitfield.c:153-167 | flips exactly the bits of the mask if all of them have the expected value, else changes nothing |
| `Bitfield.FillRows` | src/bitfield.c:117-146 | the multi-row attempt takes all rows of a group if all are zero, and leaves no trace if one is not |
| `Bitfield.FieldSetNext` | src/bitfield.c:95-151 | for orders 0 to 8 and any start: succeeds if and only if the 512 bits have an aligned free block, and then takes exactly the block at the returned offset, which is the first one in the order of the rounds from the row of the start; else nothing changes |
| `Bitfield.SetNextInRow` | src/bitfield.c:103-115 | for orders up to 6 the block taken is the lowest one of the first row, in the order of the rounds, that has a free block |
| `Bitfield.FieldToggle` | src/bitfield.c:169-207 | for orders 0 to 9 succeeds if and only if all bits of the block have the expected value, flipping exactly them; when it fails the field is unchanged if and only if `ToggleClean` holds, and otherwise the assertion fails and one row stays flipped |
| `Bitfield.ToggleRows` | src/bitfield.c:177-197 | the whole-row loop and its undo loop, for both kinds of undo: result, rows and failed assertions |
| `Bitfield.WrittenUndoKeepsRow` | src/bitfield.c:188-193 | two rows for which the undo loop of the source fails its assertion and leaves a row flipped, while the intended one restores it |
| `Bitfield.FieldCountOnes` | src/bitfield.c:209-218 | the number of bits of the field that are not zero |
| `Bitfield.FieldIsFree` | src/bitfield.c:220-230 | says whether the frame's bit is zero |
| `Bitfield.InitField` | src/lower.c:43-56 | afterwards exactly the first `free` frames of the field have a zero bit, and other fields are unchanged |
| `Bitfield.FieldInit` | src/bitfield.c:19-25 | all bits of the field are zero, other fields are unchanged |
| `Children.ChildTransitions` | src/child.c:3-22 | below order 9 no counter is truncated; a decrement and an increment undo each other |
| `LowerSpec.AllocRefines` | src/lower.c:164-257 | taking a free aligned block keeps the lower invariant and removes exactly its frames from the free set |
| `LowerSpec.DeallocRefines` | src/lower.c:281-332 | giving back an allocated block keeps the invariant and adds exactly its frames, none of which was free |
| `LowerSpec.SplitRefines` | src/lower.c:259-279 | splitting a huge child keeps the invariant and the free set |
| `LowerSpec.GetThenPut` | src/lower.c:199-332 | a get followed by the put of its block restores the entries and bits exactly |
| `LowerSpec.FullIff` | src/lower.c:140-162 | an entry says 512 free and not huge if and only if all frames of the child are free |
| `LowerLemmas.HugeAllOrNothing` | src/lower.c:140-162 | for every length and failing position: with the intended undo all entries change or none does; with the written one exactly when `HugeClean` holds |
| `LowerLemmas.WrittenUndoFreesHeldChild` | src/lower.c:148-152 | two entries for which the written undo loop frees a held child and keeps the one it took |
| `Lower.Lower.TryUpdateHugeN` | src/lower.c:140-162 | the loop over the entries for both kinds of undo: succeeds if and only if all entries are as expected |
| `Lower.Lower.GetNear` | src/lower.c:199-257 | takes a wholly free aligned block in the tree of the start, or returns MEMORY with nothing changed exactly when that tree has none; this holds if and only if `GetClean` holds, which the intended undo always meets. The block is the first one that the search meets: children, groups and rows visited before its own have none |
| `Lower.Lower.GetAt` | src/lower.c:164-197 | takes the given block if and only if it is managed, aligned and free, with the error codes of the source; holds if and only if `GetAtClean` holds |
| `Lower.Lower.Get` | src/lower.c:199-257 | both kinds of get keep the invariant and meet their promise for every order for which the undo loops do not differ |
| `Lower.Lower.SplitHuge` | src/lower.c:259-279 | turns a huge child into 512 allocated frames |
| `Lower.Lower.Put` | src/lower.c:281-332 | gives back exactly an allocated block, else changes nothing and returns MEMORY below order 9 and ARGUMENT from there on; holds if and only if `PutClean` holds |
| `LowerParts.PutInParts` | src/lower.c:259-332 | giving back a held block of order 9 or more in any pieces and any order ends in the same entries and bits as giving it back whole |
| `Lower.Lower.Clear` | src/lower.c:58-80 | all managed frames are free, or none; bits past the last frame stay set and leftover entries are taken |
| `LowerWhole.ClearedRefines` | src/lower.c:58-80 | the memory after initialisation meets the lower invariant |
| `Lower.Lower.Recover` | src/lower.c:82-97 | computes the recovered memory, and from any counters over valid bits establishes the invariant without changing the free set |
| `LowerWhole.RecoverRefines` | src/lower.c:82-97 | recovery from any counters gives a memory that meets the invariant, with the same free frames |
| `LowerWhole.RecoverAgain` | src/lower.c:82-97 | recovering again changes nothing, also when the first recovery stopped half way |
| `LowerWhole.RecoverFixes` | src/lower.c:82-97 | recovery leaves a memory as it is if and only if it meets the invariant |
| `Lower.Lower.Init` | src/lower.c:99-130 | the error of each mode, and the free frames after each mode |
| `Lower.Lower.Statistics` | src/lower.c:334-354 | counts the free frames, the wholly free children and the wholly free trees exactly |
| `Lower.Lower.StatisticsAt` | src/lower.c:356-395 | for one frame, child or tree: exactly its free frames and wholly free parts |
| `Policies.BothAreOrdered` | include/llfree.h:316-372 | under the simple and the movable policy lower classes are stolen from, higher ones demoted, and only a match has priority 255 |
| `Policies.Preferences` | include/llfree.h:316-372 | perfect matches are exactly the trees of the requested class that are at least 1/64 and less than half free; otherwise the movable policy prefers nearly full trees to emptier ones and both to other classes, and the simple one trees that are at least half free to all others |
| `TreeEntries.PutUndoes` | src/tree.c:6-84 | giving back what a steal or a reservation took restores the counter and the reservation |
| `TreeEntries.ClassesFall` | src/tree.c:6-84 | under an ordered policy the class of a tree rises only when its counter reaches the tree size, and an access reports a class that is not above the requested one |
| `TreeEntries.ClassesAfter` | src/tree.c:6-84 | under an ordered policy: the exact class after a put, a steal, a reservation and an unreservation; a tree that is given up takes the lower of its class and the slot's, or the default class if it became whole |
| `TreeEntries.OrderedNeverRefuses` | src/tree.c:19-72 | under an ordered policy an access is refused only for its counter or the reservation |
| `TreeEntries.ChangeIff` | src/tree.c:95-123 | an entry changes if and only if it meets the class, the minimum free and the ONLINE condition |
| `TreeEntries.OfflineOnline` | src/tree.c:95-123 | OFFLINE and then ONLINE restores an entry that counted all free frames |
| `TreeEntries.TreeCell.UnreserveAdd` | src/tree.c:74-84 | the callback computes the transition whose class `ClassesAfter` gives, and is the only one that gives up a reservation |
| `TreeEntries.TreeCell.SyncSteal` | src/tree.c:86-93 | takes the whole counter of a reserved entry if it is strictly above the minimum |
| `TreeArray.VisitsEveryTreeOnce` | src/trees.c:89-113 | the alternating search from any start visits every tree exactly once, for odd and even lengths |
| `TreeArray.RankingIsRanked` | src/trees.c:115-173 | the ranking is a permutation of all candidates, by priority and, among equals, by visit |
| `TreeArray.RankedIsUnique` | src/trees.c:115-173 | there is only one such arrangement |
| `TreeArray.InsertBest` | src/trees.c:139-158 | the shifting insertion keeps the array equal to the first eight of the ranking; a priority of 255 wraps to 0 and is not kept |
| `Locals.Local.Steal` | src/local.c:263-294 | takes frames from the first slot, in the order of the rounds, whose class the policy allows; if it fails no such slot has the frames and nothing changed |
| `Locals.Local.DemoteAny` | src/local.c:296-363 | empties a slot of a class to be demoted and puts its tree into the slot of the request or gives it up; if it fails no such slot has the frames and nothing changed |
| `Locals.Local.constructor` | src/local.c:130-166 | all slots are empty, slices do not overlap, and each class has the slots of its last entry |
| `Accounts.DistinctHolders` | src/llfree.c:791-828 | under the accounts different slots hold different trees, and each of them is reserved |
| `Accounts.PutIntoSlot` | src/local.c:51-61 | carried frames fit the counter of the slot that holds their tree |
| `Accounts.SwapSlot` | src/llfree.c:186-201 | a slot takes over a carried reservation, and what it held is carried |
| `Accounts.UnreserveTree` | src/trees.c:68-75 | a carried reservation is of a reserved tree, and its frames fit the counter |
| `Accounts.SyncTree` | src/trees.c:77-87 | the counter of a reserved entry is carried |
| `LLFree.LLFree.Init` | src/llfree.c:65-106 | the errors, and after FREE, ALLOC or recovery the invariant, the free frames, empty slots, and the policy, classes and slots of the classing |
| `LLFree.LLFree.StealCb` | src/llfree.c:253-275 | on success the entry has lost exactly the frames and nothing else changed but its class; fails only if the entry refuses the steal or the tree has no free block of that order, and then all counters and reservations are as before |
| `LLFree.LLFree.ReserveOrStealCb` | src/llfree.c:203-251 | on success a matched or demoted tree is reserved, the slot of the reported class holds it with what is left of its counter, and the slot's previous tree was given up; a stolen one only lost the frames; fails only if the entry refuses the access, the resulting class has no slot, or the tree has no free block of that order, with counters and reservations as before |
| `LLFree.LLFree.SwapReserved` | src/llfree.c:186-201 | the slot holds the new tree with its counter, whose entry is unchanged and reserved; other slots are unchanged; the entry of the previous tree is not reserved any more and gained exactly the slot's frames |
| `LLFree.LLFree.SyncWithGlobal` | src/llfree.c:321-349 | succeeds if and only if the slot has fewer frames than needed and slot and entry together have more; then the slot has the sum and the entry 0, else nothing changes |
| `LLFree.LLFree.GetLocal` | src/llfree.c:351-395 | after the synchronisation, where it is needed and enough: takes a block of the slot's tree, and the slot points at it with its counter reduced by exactly the frames, or the tree has no such block and its entry gets the frames, or the slot lacks them and nothing changes; a single frame is refused with the slot in use only if slot and entry together have at most one |
| `LLFree.LLFree.SearchBest` | src/trees.c:115-173 | MEMORY is returned only after the callback was called on every perfect match, in the order of the visits, and then on the first eight of all other candidates; each of these calls was refused for one of the reasons above, on unchanged memory |
| `LLFree.LLFree.SearchAndReserve` | src/llfree.c:277-319 | near search in its window from the aligned start, then global search; on success the slot of the requested class holds the tree or the tree was stolen from; a single frame is refused only if no unreserved tree has one |
| `LLFree.LLFree.StealLocal` | src/llfree.c:397-424 | allocates from a slot that the policy allows, which keeps its tree; refused only if no such slot has the frames, or its tree has no such block and its entry got the frames |
| `LLFree.LLFree.DemoteLocal` | src/llfree.c:426-463 | allocates from a demoted slot, whose tree the slot of the request holds afterwards; refused only if no such slot has the frames or its tree has no such block |
| `LLFree.LLFree.GetAt` | src/llfree.c:465-500 | takes the given block or nothing; under an ordered policy a free block is refused only if entry and slots of its tree each lack the frames; without offline trees it is taken if and only if it is free, for single frames always and for every order when no slot is in use |
| `LLFree.LLFree.Get` | src/llfree.c:502-624 | ARGUMENT exactly for requests that are not acceptable; success takes one free block, of a class that is not above the requested one under an ordered policy, from a tree that is reserved or has at most that class, and a slot of the requested class holds a tree it was reserved from. For every order MEMORY is returned only after all perfect matches and the first eight candidates were refused and, under an ordered policy, each slot lacked the frames or its tree the block; with drained slots, no offline tree, slots for all classes and up to eight trees exactly if no tree has such a block; an order-0 get right after draining fails exactly if no frame is free |
| `LLFree.LLFree.MovableServes` | include/llfree.h:358-387 | with the movable classing and at least one core, what the completeness of `Get` asks for holds, and order-0 requests for its classes are accepted |
| `LLFree.LLFree.DrainAndGet` | src/llfree.c:556-685 | with the movable classing and without offline trees, an order-0 get right after a drain fails if and only if no frame is free |
| `LLFree.LLFree.Put` | src/llfree.c:626-652 | frees exactly the block; if the slot of the request holds its tree, exactly that slot's counter grows by the frames and no entry changes, otherwise exactly the entry of its tree grows and no slot changes; an error changes nothing |
| `LLFree.LLFree.Drain` | src/llfree.c:670-685 | afterwards no slot is used, no tree is reserved, and every entry that is not offline counts exactly its free frames; each tree that a slot held got exactly the slot's frames and ends with a class that is not above the slot's, unless it is whole; other entries are unchanged |
| `LLFree.LLFree.ChangeTree` | src/llfree.c:654-668 | with an id: succeeds if and only if that tree exists and meets the conditions; without one: if and only if some tree does, and then only the first such tree in the order of the visits changes; ONLINE sets the counter from the lower level |
| `LLFree.LLFree.CountFrames` | src/llfree.c:693-707 | never more than the free frames, and exactly those of `llfree_stats` if every tree is counted exactly, as all are that are not offline |
| `LLFree.LLFree.Validate` | src/llfree.c:791-828 | none of the checks fails if and only if every tree has a class below the given number, and its entry and slot count exactly its free frames; trees that are not offline always do |
| `ConcProof.StepKeeps` | src/lower.c:140-332 | with restoring undo loops every step of every thread keeps the lower invariant |
| `ConcProof.BeginKeeps` | src/lower.c:199-332 | so does a call that a client may begin: any get, and a put of a block that it holds, whole children only while they are held as huge |
| `ConcTheorems.RunKeeps` | src/lower.c:164-332 | with restoring undo loops the invariant holds in every state of every run, and no assertion fails |
| `ConcTheorems.HandsOutOnce` | src/lower.c:199-257 | a completed get hands out frames that nobody holds and no other thread owns |
| `ConcTheorems.BitsAreCounted` | src/child.c:3-22 | in every good state, for each child that is not huge, zero bits and the rows filled by a stale splitter are as many as the counter says and calls have in flight |
| `ConcTheorems.HugeIsTaken` | src/lower.c:259-279 | a huge child has counter 0 and no free frame, and only the rows of its one splitter are set |
| `ConcTheorems.QuietIsSequential` | src/lower.c:199-332 | without calls in progress the invariant is the sequential one, with the client holding exactly what is not free: both directions |
| `ConcTheorems.CrashRecovers` | src/lower.c:82-97 | stopping after any step and recovering gives a memory that meets the invariant; held frames are allocated, frames of no call in progress and no client are free, and recovering again changes nothing |
| `ConcTheorems.CrashInRecovery` | src/lower.c:82-97 | a second crash at any step of recovery changes nothing |
| `ConcTheorems.CrashGoesOn` | src/lower.c:82-97 | after a crash and recovery clients can go on with what they held |
| `ConcWritten.WrittenStep` | src/lower.c:148-152 | a step of the code as written keeps the invariant if and only if its thread is not inside one of the two undo loops |
| `ConcWritten.WrittenRow` | src/bitfield.c:188-193 | inside the undo loop of `field_toggle` the assertion always fails |
| `ConcWritten.WrittenEntry` | src/lower.c:148-152 | inside the undo loop of `try_update_huge_n` either the assertion fails or an entry that somebody else took as a whole becomes free |
| `ConcWritten.WrittenRun` | src/lower.c:164-332 | a run of the code as written keeps the invariant exactly as long as no step is in one of the loops, and is until then a run with the restoring loops |
| `ConcWritten.CarefulRun` | src/lower.c:164-332 | with careful clients every run of the code as written keeps the invariant, so no assertion fails |
| `ConcExamples.GivenGetFires` | src/bitfield.c:188-193 | a schedule with one thread: a given block of order 7 or 8 whose second row is taken |
| `ConcExamples.LargeGetFrees` | src/lower.c:148-152 | a schedule with one thread: a get of order 10 frees a child that a client holds |
| `ConcExamples.OverlappingPutsFire` | src/lower.c:259-279 | a schedule with two threads that give back 64 frames each of one huge child |
| `ConcLone.LowestAgrees` | src/bitfield.c:103-115 | the block that a step with threads takes in a row is the one that `first_zeros_aligned` finds |
| `ConcSearch.ProgressStep` | src/lower.c:164-257 | each step of a get that runs alone keeps what it has ruled out: the children, groups and rows that it passed have no free block; it ends with nothing only if the tree has none, or the given block is not free |
| `ConcLone.LoneGetRefines` | src/lower.c:164-257 | a get that has run while all other threads rest took one wholly free aligned block, the given one or one of the tree of its start; or it left the free set as it was and there was no such block, for every order |
| `ConcLone.LonePutRefines` | src/lower.c:281-332 | a put that runs while all other threads rest frees exactly its block and never gives up |
| `ConcEnds.LoneGetEnds` | src/lower.c:164-257 | while all other threads rest a get ends, with what `LoneGetRefines` says |
| `ConcEnds.LonePutEnds` | src/lower.c:281-332 | while all other threads rest a put ends, and has freed exactly its block |
| `ConcCredit.SumConserves` | src/lower.c:140-332 | a step below changes the counters of a tree by exactly what the thread's charge changes |
| `ConcUpperRuns.SystemKeeps` | src/llfree.c:186-652 | every step of the whole allocator keeps the accounts, whatever tree or slot the searches choose next |
| `ConcUpperTheorems.AccountsKept` | src/llfree.c:186-652 | in every state of every run the accounts hold, no unreservation meets an unreserved tree, no counter exceeds the tree size, and no assertion below fails; with the written undo loops this is for careful clients |
| `ConcUpperTheorems.TreeBalance` | src/tree.c:6-93 | for every tree, slots holding it and calls carrying its reservation are one if it is reserved and none otherwise; its counter, the slots and the calls have exactly the frames of the counters below |
| `ConcUpperTheorems.QuietIsSequential` | src/llfree.c:791-828 | without calls in progress the invariant of the system is the sequential one: both directions |
| `ConcUpperTheorems.TreeClassesFall` | src/tree.c:6-84 | under an ordered policy no step of any thread raises the class of a tree, unless its counter reaches the tree size |
| `ConcUpperTheorems.RunFalls` | src/llfree.c:203-500 | under an ordered policy every get of every run reports a class that is not above the requested one |
| `ConcUpperLone.AttemptEnds` | src/llfree.c:186-275 | in the whole allocator with threads, an attempt on a tree ends when all other calls rest: with a block that nobody held and the reservation in its slot or the slot pointing at the block, or, when the tree has none or the class no slot, with everything given back |
| `ConcUpperServes.LocalEnds` | src/llfree.c:321-395 | such a call that begins with the slot of its request moves the counter of the entry into it exactly if that is needed and enough, and leaves entries and slots as the sequential `get_local` does |
| `ConcUpperServes.TreeEnds` | src/llfree.c:203-275 | the access to a tree takes a block of it, with the tree reserved in its slot or the frames stolen from its entry, or the tree lacks the frames or the block or is reserved, and no counter or reservation changes |
| `ConcUpperServes.LoneGetServes` | src/llfree.c:502-624 | under an ordered policy whose classes all have slots: when all other calls rest and no slot is in use, a get takes a free block if and only if there is one, for blocks of every order and whatever order the trees are tried in |
| `ConcUpperServes.LonePutCounts` | src/llfree.c:626-652 | when all other calls rest a put ends, frees exactly its block, and counts it where the sequential one does |
| `ConcUpperSlots.StealEnds` | src/llfree.c:397-424 | frames stolen from a slot of another class: a block of its tree was taken and only that slot's counter changed, or there is none and the entry gets the frames |
| `ConcUpperSlots.DemoteEnds` | src/llfree.c:426-463 | a demoted tree moves into the slot of the request, whose previous tree is given up, or is given up itself; then a block of it is taken, or there is none and the entry gets the frames |
| `ConcUpperSlots.LoneGivenServes` | src/llfree.c:465-500 | under an ordered policy, when all other calls rest and no slot is in use, a given block is taken if and only if it is free |

## Left out

- C11 memory orders and spurious failures of weak compare-and-swap: steps are sequentially consistent, and
  `atom_update` is one step. `spin_wait` and the retries in `split_huge` are "may give up with an error".
- A failed assertion ends a thread of the model with threads; what the code does after it with assertions
  compiled out is covered for the sequential loops only (`Bitfield.RowsAfter`, `LowerLemmas.HugeAfter`).
- `llfree_change_tree` with threads: bringing a tree online reads the counters before it swaps the entry, so a put in
  flight can be counted twice. It is in the sequential model only.
- The order of the searches in the model with threads: any order of trees and slots is allowed there. The orders of the
  source are in the sequential model.
- More than 2^41 frames: start rows would be truncated to 35 bits (`Locals.RowsFit`), while the source admits more.
- `LLFREE_INIT_NONE` (trusts existing memory), the counters per class and per tree of the statistics other than frames,
  and `LLFREE_ENABLE_FREE_RESERVE`.
- Raw metadata buffers, sizes, alignment and the packing of entries into words; printing, logging and debug output.
- The tests and the build.

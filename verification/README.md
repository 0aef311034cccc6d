# KOSmk1: address trees, exceptions and futex locks

A Dafny model of four headers of the KOS operating system, with proofs of what they promise.

**Address trees** (`include/kos/addrtree.h`). A binary tree maps disjoint address ranges to nodes. The
place of a node is found by halving the address space: every slot has a midpoint (`semi`) and a level.
A new leaf that covers the midpoint of an occupied slot takes that slot and puts the whole displaced
subtree back, node by node.

- `Words.dfy`: the bit operators and the slot macros.
- `TreeSpec.dfy`: trees as values, the operations as functions on them, and what those functions mean
  as changes of a set of ranges.
- `AddrTree.dfy`: the same operations on nodes with mutable child pointers, changed in place through a
  pointer to a slot, each proved to agree with the functions of `TreeSpec.dfy`. Insertion and
  re-insertion are mutually recursive; they end because level, phase and subtree decrease in that order.
- `TreeRuns.dfy`: runs of insertions and removals from the empty tree, and the length of a lookup.
- `TreeAsserts.dfy`: the assertions in the code, and when they hold.
- `TreeLimits.dfy`: where the promises end, each with its exact condition.
- `TreeWitnesses.dfy`: runs that reach those ends.

**Exceptions** (`include/kos/exception.h`). `__try`, `__finally` and `__except` are macros that push
handler records on the stack, chained from a thread-local head, and a throw that cuts the stack at the
innermost record.

- `ExceptLang.dfy`: programs that use the keywords, with their structured meaning (`Exec`), and with what
  becomes of it when a thread has only one exception number (`Flow`).
- `ExceptAgree.dfy`: exactly when the two are the same.
- `ExceptMachine.dfy`: the stack machine, what each macro does to it, and the code a program expands to.
- `ExceptProof.dfy`: the code of every program, of any nesting, does what `Flow` says, by induction on the
  program and on the number of loop iterations.
- `ExceptTheorems.dfy`: whole programs, every intermediate state, every try block, and programs for which
  the macros do not keep to the meaning of the keywords.
- `ExceptThread.dfy`: a thread object whose fields the macros' instructions change in place.

**Futex locks** (`include/kos/sync-mutex.h`, `include/kos/sync-sem.h`). Any number of threads; every
atomic operation and every step of the kernel call is one event, and a run is any sequence of enabled
events.

- `Mutex.dfy`: the mutex, with the check-then-wait of the futex call split into its kernel steps
  (lock the futex's signal, load the word, decide), timeouts, failures and spurious wakes.
- `MutexCalls.dfy`: what a single lock or unlock call does and answers, over every interleaving.
- `Semaphore.dfy`: the ticket counter, as a 32-bit word that can overflow.

What the environment does is a parameter: the word width, the client code between the exception
keywords (its effect on its variables, the words it leaves below the stack pointer, its filters),
the order of the threads' steps, when a wait times out, is refused or is woken.

Where an assertion of the code stops the program, the model goes on with a value that says so
(`LevelZero`, `Stuck`, `NoAnswer`, `Wrong`, `Failed`, or `ok` false), and nothing is promised about
memory after it. The same value stands for a walk of an insertion that has to go on at level zero, where
the code shifts by a negative amount.

## Where the code does not do what it is for

- The comment at `include/kos/addrtree.h:62-69` bounds a failing lookup by the same number of steps as
  a successful one. A successful lookup keeps the bound (`VisitBound`). A failing one keeps it if and
  only if it does not find both the slot whose midpoint is the address and that slot's upper child
  occupied (`MissBound`; `MissWalksOn` is a run after which it does).
- `addrtree_tryinsert` is documented to answer KE_EXISTS for a range that is already mapped. It does so
  only for ranges met on the way down (`TryInsertExact`); another overlap is left to an assertion of
  `addrtree_insert` (`HiddenOverlap`).
- The level assertion of a lookup can fire on trees built by legal calls, but only at a range that is a
  single address, odd or zero (`LoneExactly`). Runs that map no such range trip no assertion at all
  (`UnloneAsserts`).
- An insertion can be left without a slot for a range though nothing overlaps, and so can a removal; what the
  code does then is undefined, and the model drops the range. The predicates `Fits` and
  `RemoveFits` are the exact conditions (`InsertExactly`, `RemoveOk`): no walk of an insertion or a
  re-insertion comes to an occupied slot of level zero and has to go on. It never happens unless the
  ranges 0 and 1, each a single address, are both involved (`RoomyFits`, `RoomyRemoves`, `ModestLegal`); a
  removal loses a range only from below a node on the tree's lower edge (`RemovalLosesOnlyThen`). For
  the ranges 0 and 1 themselves the condition is that a slot on the tree's lower edge is free
  (`FitsEdge`); for any other range it concerns only the subtree that the range displaces on
  that edge (`FitsAbove`). `TwoRefused` and `RemovalLoses` are runs to which it happens.
- A thread has one exception number for all that is going on. What the code does with it is `Flow`. Every part
  of a program that runs ends by `Flow` as by its meaning if and only if the meaning is `Clean`
  (`CleanExactly`): no finally body that runs for an exception completes a handler and ends normally
  (`LostExactly`), and no finally body is reached without an exception while a number is set
  (`FinallyEntry`, `MistakenEnd`). In the second case the program is said to derail: its finally body begins with
  the stack pointer a word too high (`FlowCorrect`, `DerailsExactly`), and this counts as a disagreement even
  where the program then ends as it should (`DerailsYetEnds`).

## Model

| member | source | states |
|---|---|---|
| Words.RootSlot | include/kos/addrtree.h:133-134 | for every word width, the initial midpoint and level name a slot, and that slot spans all addresses of the width |
| Words.SlotRange | include/kos/addrtree.h:136-142 | MAPMIN and MAPMAX, written with bit operators, are the ends of the block of addresses around the midpoint, and SEMILEVEL recovers the level from the midpoint |
| Words.SlotHalves | include/kos/addrtree.h:136-141 | a step of the walk is exact binary subdivision: the two child slots are slots of the next lower level and split the parent's addresses below and from the midpoint |
| TreeSpec.WalkMacros | include/kos/addrtree.h:136-141 | the arithmetic walk used by the functions is the macro walk, and a range that lies in its slot passes the MAPMIN/MAPMAX assertions |
| TreeSpec.MidpointOwner | include/kos/addrtree.h:276-297 | in a well-formed tree no strict descendant of any slot covers that slot's midpoint |
| TreeSpec.WFApart | include/kos/addrtree.h:40-43 | no two nodes of a well-formed tree, anywhere in it, have overlapping ranges |
| TreeSpec.Descend | include/kos/addrtree.h:376-391 | a leaf that neither overlaps the slot's node nor covers its midpoint fits the half that it goes down to, overlaps nothing in the other half, and has a slot in the whole if and only if it has one in that half |
| TreeSpec.Displace | include/kos/addrtree.h:354-375 | nothing in a displaced subtree covers the midpoint of its slot, so re-insertion never displaces the new owner |
| TreeSpec.InsertOk | include/kos/addrtree.h:319-392 | inserting a range that overlaps none and fits keeps the tree well-formed and adds exactly that range, displacement and re-insertion included |
| TreeSpec.InsertExactly | include/kos/addrtree.h:319-392 | inserting a range that overlaps none adds exactly that range if and only if it fits; otherwise a range is lost |
| TreeSpec.InsertLoses | include/kos/addrtree.h:376-391 | a walk that has no level left costs the tree a range, wherever in the nested re-insertions it happens |
| TreeSpec.RoomyFits | include/kos/addrtree.h:376-391 | a range that overlaps none fits whenever the ranges 0 and 1 are not both among the mapped ranges and itself |
| TreeSpec.ReinsertOk | include/kos/addrtree.h:223-232 | re-insertion moves every node of the displaced tree and loses none of the target's, if all fit |
| TreeSpec.TryInsertExact | include/kos/addrtree.h:239-314 | KE_OK if and only if nothing overlaps and the range fits; KE_EXISTS if and only if a range on the leaf's walk overlaps |
| TreeLimits.CoveredExists | include/kos/addrtree.h:268-273 | a range that lies inside a mapped one gets KE_EXISTS, whatever the shape of the tree |
| TreeSpec.LocateOk | include/kos/addrtree.h:428-467 | a lookup that finds a range found one of the tree that covers the address; any other outcome means none covers it |
| TreeSpec.CoverUnique | include/kos/addrtree.h:428-467 | at most one range covers an address |
| TreeSpec.PopOk | include/kos/addrtree.h:398-408 | popping any slot takes out exactly its node if and only if its subtrees can be put back, and then the tree of all others is well-formed |
| TreeSpec.RemoveOk | include/kos/addrtree.h:413-421 | removal changes nothing if the lookup finds no range, and otherwise takes out exactly the range found if and only if what was below it can be put back |
| TreeSpec.RoomyRemoves | include/kos/addrtree.h:413-421 | what was below it can be put back whenever the ranges 0 and 1 are not both mapped |
| TreeSpec.InsertRemove | include/kos/addrtree.h:319-421 | a range that was inserted is found by any of its addresses, and removal by one of them restores the set of ranges if and only if what is below it can be put back |
| AddrTree.Node.constructor | include/kos/addrtree.h:118-128 | a node with its range and no children |
| AddrTree.FindPlace | include/kos/addrtree.h:330-391 | the loop stops at a free slot, at an overlapping node, where the leaf covers the midpoint, or at level zero; inserting there is inserting into the whole tree |
| AddrTree.Settle | include/kos/addrtree.h:338-375 | storing the leaf in its slot and re-inserting what was there gives the tree that `Insert` gives, in memory |
| AddrTree.SettleAt | include/kos/addrtree.h:338-375 | the same seen from the slot where the walk began: the rest of the tree in memory is untouched |
| AddrTree.InsertNode | include/kos/addrtree.h:319-392 | in place: succeeds if and only if no mapped range overlaps and the leaf fits, and then the slot holds the tree that `Insert` gives, every node once, every range unchanged |
| AddrTree.ReinsertAll | include/kos/addrtree.h:223-232 | in place: every node of the detached structure is moved into the slot's tree, if and only if none overlaps it and all fit |
| AddrTree.TryInsertNode | include/kos/addrtree.h:239-314 | in place: the answer of `TryInsert`; with KE_EXISTS the tree and the leaf are unchanged |
| AddrTree.LocateNode | include/kos/addrtree.h:428-467 | the loop returns the node that `Locate` finds, NULL if it finds none, and goes around once for each node that `Visits` counts |
| AddrTree.PLocate | include/kos/addrtree.h:468-513 | returns the slot of the node that addrtree_locate returns, NULL with it; the midpoint and level written back are those of the slot, and nothing is written back without one |
| AddrTree.PopNode | include/kos/addrtree.h:398-408 | in place: returns the slot's node, and leaves the tree that `Pop` gives if and only if what was below can be put back |
| AddrTree.RemoveNode | include/kos/addrtree.h:413-421 | in place: returns the node that the lookup finds and leaves the tree that `Remove` gives, the rest untouched, if and only if the level assertion holds and what was below can be put back |
| AddrTree.AddressMap.Find | include/kos/addrtree.h:145 | the node whose range covers the address, NULL if and only if no mapped range does; the level assertion holds for every machine word while no mapped range is a single address that is odd or zero |
| AddrTree.AddressMap.Add | include/kos/addrtree.h:146 | for every range of words: succeeds if and only if it overlaps none and fits, and then the set of ranges has grown by exactly that one; a range that overlaps none fails only if 0 and 1 would both be mapped |
| AddrTree.AddressMap.Take | include/kos/addrtree.h:147 | the node that covers the address leaves the set, no other does; NULL and no change if and only if none covers it; this cannot fail while no mapped range is a single address that is odd or zero |
| AddrTree.AddressMap.TryAdd | include/kos/addrtree.h:148 | KE_OK if and only if the range overlaps none and fits; KE_EXISTS if and only if one on its walk overlaps, so always if the range lies inside a mapped one, and then nothing has changed |
| TreeRuns.RunOk | include/kos/addrtree.h:319-421 | after every run of insertions and removals from the empty tree in which nothing overlaps, all fits and no removal's lookup ends in the level assertion, the tree is well-formed and holds exactly the set of ranges that the run describes |
| TreeRuns.ModestLegal | include/kos/addrtree.h:319-421 | everything fits in a run that maps disjoint ranges of words, never holds both the ranges 0 and 1, and has no removal whose lookup ends in the level assertion |
| TreeRuns.UnmapOk | include/kos/addrtree.h:413-421 | removal by an address removes from the set exactly what covers the address |
| TreeRuns.RunLocate | include/kos/addrtree.h:428-467 | after every run, a lookup answers with the one range of the set that covers the address, and finds it whenever there is one |
| TreeRuns.VisitBound | include/kos/addrtree.h:48-70 | a successful lookup of a nonzero address visits at most one node per level from the root down to the address's lowest set bit |
| TreeRuns.MissBound | include/kos/addrtree.h:62-69 | a failing lookup keeps that bound if and only if it does not find both the slot whose midpoint is the address and its upper child occupied |
| TreeAsserts.WFBounded | include/kos/addrtree.h:437-451 | every node of a well-formed tree passes the bounds assertions of a lookup at its slot, and no node hangs below level zero |
| TreeAsserts.SoundExactly | include/kos/addrtree.h:332-391 | the assertions of an insertion and of all re-insertions it causes hold, and no step goes down from level zero, if and only if the new range overlaps none and fits |
| TreeAsserts.SoundAllExactly | include/kos/addrtree.h:223-232 | the same for the re-insertion of a whole subtree |
| TreeAsserts.PopSound | include/kos/addrtree.h:398-408 | the assertions in the re-insertions of a pop hold if and only if the two subtrees can be put back |
| TreeAsserts.RemoveSoundExactly | include/kos/addrtree.h:413-421 | the assertions of a removal, of its lookup and of its re-insertions, hold if and only if the lookup does not end in the level assertion and what was below can be put back |
| TreeAsserts.RunAsserts | include/kos/addrtree.h:252-257 | the three statements on every tree that a run from the empty tree reaches |
| TreeAsserts.UnloneAsserts | include/kos/addrtree.h:439-464 | over every run that maps disjoint ranges of words, none a single odd address or 0 (so all even-aligned ones), and removes by any words: no assertion fires in it, nor in any further lookup, removal or insertion of such a range |
| TreeLimits.StuckAtLone | include/kos/addrtree.h:455 | a lookup's level assertion fires only at a range that is a single address, odd or zero |
| TreeLimits.LoneTrips | include/kos/addrtree.h:455 | every such range trips it after some run of legal insertions, which the lemma gives |
| TreeLimits.LoneExactly | include/kos/addrtree.h:455 | the ranges that can ever trip the level assertion are exactly those |
| TreeLimits.UnloneLegal | include/kos/addrtree.h:500 | the code can do every run of disjoint ranges of words, none of them such a range, and of removals by any words |
| TreeLimits.FitsEdge | include/kos/addrtree.h:376-391 | the range 0, or the range 1, fits if and only if a slot on the tree's lower edge is free |
| TreeLimits.FitsAbove | include/kos/addrtree.h:354-391 | a range above 1 that covers no midpoint on the lower edge always fits; one that does fits if and only if what is in that slot of the edge can be put back below it |
| TreeLimits.RefusedOnlyThen | include/kos/addrtree.h:376-391 | over all runs that the code can do: a range that overlaps none and does not fit is 0 or 1, or is above both and covers a midpoint on the lower edge; and both 0 and 1 are mapped or are the range |
| TreeLimits.RemovalLosesOnlyThen | include/kos/addrtree.h:398-421 | a removal cannot put back what was below the removed node only if that node is on the tree's lower edge and both 0 and 1 are below it |
| TreeLimits.PairRefused | include/kos/addrtree.h:376-391 | at every width, the single address 0, and the single address 1, is without a slot after some run |
| TreeWitnesses.TwoRefused | include/kos/addrtree.h:354-391 | at every width from 2 on, a run of insertions that succeed after which the range 2 overlaps none and its insertion loses a range |
| TreeWitnesses.RemovalLoses | include/kos/addrtree.h:398-421 | at every width from 6 on, a run of insertions that succeed after which the removal of one range loses another |
| TreeWitnesses.MissWalksOn | include/kos/addrtree.h:62-69 | a failing lookup that visits more nodes than the bound, at every width from 3 on |
| TreeWitnesses.HiddenOverlap | include/kos/addrtree.h:236-238 | after a run of two insertions, an overlapping range gets neither KE_OK nor KE_EXISTS |
| ExceptThread.Thread.TryBegin | include/kos/exception.h:185-194 | in memory, the new head is a record on top of the stack with the old head, the handler and the frame pointer; memory from the old stack pointer on is unchanged |
| ExceptThread.Thread.Rethrow | include/kos/exception.h:480-492 | the stack is cut at the head record, the head is its link, control is at its handler; without a handler, the thread stops as unhandled |
| ExceptThread.Thread.Throw | include/kos/exception.h:535-541 | the thread is at the innermost handler, with only its saved frame pointer left on the stack and the outer handler as head, or stopped as unhandled if there is none |
| ExceptThread.Thread.Run | include/kos/exception.h:273-295 | any number of steps of the thread object is that number of steps of the machine |
| ExceptThread.Thread.RunProgram | include/kos/exception.h:185-295 | a program run on the object: while it is not over, the handler chain in the object's memory is that of the open try blocks; when it is over, it has ended as its meaning says; the caller's part of the stack is untouched |
| ExceptProof.SimBody | include/kos/exception.h:273-276 | the body of a try block at any nesting depth runs inside the block, with its record in the chain, up to the place where the block goes on, and does not reach the handler before |
| ExceptProof.SimFinally | include/kos/exception.h:280-283 | the code of a try/finally ends as `Flow` says on every kind of exit of the body and of the finally body |
| ExceptProof.SimExcept | include/kos/exception.h:292-295 | the code of a try/except ends as `Flow` says for every filter result |
| ExceptProof.Sim | include/kos/exception.h:185-295 | for every proper statement, of any nesting and begun in any state with room on the stack, the code ends as `Flow` says, through states that keep the handler chain; where `Flow` derails, the machine is at the label of a finally block with the stack and frame pointers of that block's beginning and a number set, and was in no such state before |
| ExceptAgree.CleanAgrees | include/kos/exception.h:203-236 | where the meaning of a program is clean, the code ends as it, and the exception number is cleared exactly by a completed handler |
| ExceptAgree.CleanExactly | include/kos/exception.h:203-236 | for every proper program: every part that runs ends by `Flow` as by its meaning, none derailed, if and only if the meaning is clean |
| ExceptAgree.ShelteredClean | include/kos/exception.h:203-236 | every program whose finally bodies hold no try blocks and whose handlers hold no finally blocks is clean |
| ExceptTheorems.FlowCorrect | include/kos/exception.h:185-295 | every proper program, of any nesting, ends as `Flow` says and stays there, or comes to a finally block that it has not been thrown to with a number set and enters it with the stack pointer a word above the block's |
| ExceptTheorems.DerailsExactly | include/kos/exception.h:203-208 | the machine is ever in such a state if and only if `Flow` derails |
| ExceptTheorems.ProgramCorrect | include/kos/exception.h:185-295 | a program with a clean meaning ends normally with stack, frame and handler chain restored, or unhandled with the same exception, if and as its meaning does, with the same store and trace |
| ExceptTheorems.ShelteredCorrect | include/kos/exception.h:185-295 | the same for every program without the nestings that can go wrong, whatever it computes |
| ExceptTheorems.RunsOn | include/kos/exception.h:185-295 | while a program has not ended by `Flow` within n + 1 loop iterations, its code has not stopped within n steps |
| ExceptTheorems.StoppedAs | include/kos/exception.h:185-295 | a run that has stopped has stopped as the meaning says |
| ExceptTheorems.EveryState | include/kos/exception.h:185-200 | in every state of every run, until it is over or has derailed before, also of one that never ends or that loses exceptions, the chain in memory has exactly one record per open try block, innermost first, at ascending addresses, with its handler and the frame pointer it saved |
| ExceptTheorems.FinallyOnce | include/kos/exception.h:203-210 | at any nesting depth and for any bodies, on the way from the beginning of a try/finally to its end the beginning of the finally body is passed exactly once if the try body ends, and never otherwise |
| ExceptTheorems.HandlerEntry | include/kos/exception.h:203-234 | on entry to a handler body, or to a finally body for an exception, stack pointer, frame and handler chain are those from before the try block, at any nesting depth |
| ExceptTheorems.FilterDecides | include/kos/exception.h:225-234 | at any nesting depth, a filter result of 0 passes the exception with the filter's store to the next outer handler and the handler body is not entered, -1 stops the machine, and any other result enters the handler body with stack, frame and chain from before the try block |
| ExceptTheorems.PassesOn | include/kos/exception.h:225-234 | of two nested handlers whose inner filter answers 0 the outer one runs, with the store that both filters left |
| ExceptTheorems.FinallyEntry | include/kos/exception.h:203-208 | a finally body that is reached without an exception is entered with that state if and only if no exception number is set; otherwise the stack pointer is a word too high |
| ExceptTheorems.MistakenEnd | include/kos/exception.h:203-210 | what a try/finally does after such an entry, for every way its finally body ends: it throws the handled exception again, or goes on after the block with the stack pointer a word too high if the number has been cleared, or passes on an exception of the finally body |
| ExceptTheorems.MistakenStill | include/kos/exception.h:203-210 | the same for a block that begins right at a handler record, if the finally body writes nothing to the stack |
| ExceptTheorems.LostExactly | include/kos/exception.h:209-236 | a finally body that runs for an exception and ends normally gives it on if and only if it completes no handler; otherwise the exception is lost |
| ExceptTheorems.CatchInFinallyLoses | include/kos/exception.h:209-236 | a program that loses its exception in this way |
| ExceptTheorems.CatchInFinallyClean | include/kos/exception.h:209-236 | the same finally body ends as it should where it does not run for an exception |
| ExceptTheorems.FinallyInHandlerThrows | include/kos/exception.h:203-210 | a finally block inside a handler that throws the handled exception again |
| ExceptTheorems.FinallyInFinallySkips | include/kos/exception.h:203-210 | a finally block inside a finally body that runs for an exception, which skips the rest of that body |
| ExceptTheorems.DerailsYetEnds | include/kos/exception.h:203-210 | a program that derails and yet ends as it should |
| Mutex.ApplyWake | include/kos/sync-mutex.h:99-113 | every step keeps: a free mutex that a thread waits for, or is about to wait for, has another thread about to wake it or to retry |
| Mutex.RunInv | include/kos/sync-mutex.h:96-113 | in every state of every run: the word is 1 exactly while one thread holds the mutex, at most one thread is between the futex check and the wait, no wake is lost, and no unlock has failed its assertion |
| Mutex.MutualExclusion | include/kos/sync-mutex.h:96-113 | in every state of every run the word is 0 or 1, it is 1 exactly when a thread holds the mutex, no two threads do, and a lock call has returned KE_OK exactly if its caller is the holder |
| Mutex.NoLostWakeup | include/kos/sync-mutex.h:99-113 | in every state of every run, if the mutex is free and a thread waits, another thread is about to send a wake or to retry the lock |
| Mutex.Progress | include/kos/sync-mutex.h:99-113 | in every such state of every run, at most five steps of threads already in calls take the mutex, without a new call or a timeout |
| MutexCalls.LockSteps | include/kos/sync-mutex.h:96-106 | two steps of a call in a row, whatever others do in between: a compare-exchange that finds 0 ends the call with KE_OK; one that does not makes trylock answer KE_WOULDBLOCK and timedlock go on to the futex call; that waits if and only if it loads a value other than 0; a timeout ends the call with KE_TIMEDOUT, another failure with its own error, and a wake or KE_AGAIN leads to another try |
| MutexCalls.TryLockAnswer | include/kos/sync-mutex.h:96-98 | every kmutex_trylock call is over after two steps of its thread and never at the futex; it has answered KE_OK if its compare-exchange found 0 and KE_WOULDBLOCK otherwise |
| MutexCalls.LockAnswer | include/kos/sync-mutex.h:99-106 | every kmutex_timedlock call answers KE_OK only after a compare-exchange of its own that found 0, and otherwise only an error, not KE_AGAIN, with which its own futex call failed |
| MutexCalls.WokenRetries | include/kos/sync-mutex.h:102-104 | the next step of a woken thread is another try of the lock |
| MutexCalls.UnlockWakesOne | include/kos/sync-mutex.h:110-113 | after the word is cleared the unlock's next step is its last; it wakes one thread if and only if one waits, and touches no other thread |
| MutexCalls.NeverStuck | include/kos/sync-mutex.h:96-113 | in every state of every run, a thread in a call, or the one that has the futex's signal, can go on |
| Semaphore.Conservation | include/kos/sync-sem.h:56-83 | over every interleaving, initial plus released tickets are the count plus successful acquires plus 2^32 for each overflow |
| Semaphore.ConservedExactly | include/kos/sync-sem.h:78-83 | tickets are conserved if and only if no release overflowed the counter |
| Semaphore.NoOverflow | include/kos/sync-sem.h:78-83 | no release overflows while initial and released tickets together are below 2^32 |
| Semaphore.CallAnswer | include/kos/sync-sem.h:57-64 | whatever the interleaving and however often the loop retries, a call takes one ticket if it answers KE_OK and none otherwise, and answers KE_WOULDBLOCK only if the count was 0 at an instant of the call |
| Semaphore.EmptyAnswers | include/kos/sync-sem.h:60-61 | a load that finds 0 is the call's last step, with KE_WOULDBLOCK for good |
| Semaphore.UndisturbedAnswer | include/kos/sync-sem.h:57-64 | a call during which no other thread changes the count answers within two of its steps: KE_WOULDBLOCK if it was 0, KE_OK with one ticket taken otherwise |
| Semaphore.ReleaseAdds | include/kos/sync-sem.h:78-83 | a release adds its tickets at once modulo 2^32 and touches the count no more |
| Semaphore.RetryMeansProgress | include/kos/sync-sem.h:59-62 | a compare-exchange fails only if another thread took or released tickets since the load |

## Left out

- ExceptTheorems.ProgramCorrect: does not hold for programs whose meaning is not clean; `CleanExactly` says that these are exactly the ones that go wrong somewhere. A stack that overflows is excluded by the room it needs.
- ExceptTheorems.MistakenEnd: does not describe a block that begins right at a handler record and whose finally body writes to the stack, and so over the record's link; `MistakenStill` covers the other such blocks, and `FinallyEntry` the entry of all.
- ExceptTheorems.EveryState: does not describe the chain after a program has derailed.
- ExceptProof.Sim: a filter that answers KEXCEPTION_CONTINUE_EXECUTION stops the model, because `kexcept_continue` relies on stack memory that the handler may have overwritten.
- ExceptThread.Thread.Throw: copies the exception number only, not the rest of the exception record, and saves no registers for `kexcept_continue`.
- Semaphore.Conservation: does not model the old count that `ksem_release` can report, which is the count that its addition read.
- Mutex.Progress: gives one schedule that goes on, not a fairness property of the scheduler.
- The debug-only object checks (`kassertobj`) of the address tree, and re-initialising a removed node.
- KEXCEPT_TRY_H with a global handler function, the 28-byte register save, and the macro tricks that name try labels.
- CPU faults that the kernel turns into exceptions.
- `kmutex_unlock_safe` and `krmutex_*`: the first differs from `kmutex_unlock` only in its error code; the recursive mutex does not clear its owner, so exclusion is not an invariant of it.
- `ksem_timedacquire` and `ksem_acquire`: they compare where they evidently mean to assign, so the loop has no useful contract.
- The kernel's implementation of futexes, futex sets and conditional commands: only the contract in `include/kos/futex.h` is modelled.
- All other headers and the userland programs: declarations, bit packing, thin wrappers and I/O.

# OSAL in Dafny

NASA's Operating System Abstraction Layer gives flight software one API over several operating systems, and
brings its own unit test framework, UT assert. This project models the parts of it that change shared state
in ways that are hard to follow by reading, and proves what they keep.

- **Object table** (`ObjectIdMap.dfy`, `ObjectLife.dfy`, `ObjectNames.dfy`, `ObjectSerials.dfy`). Every OSAL
  resource has a record in a table that tasks reach through transaction tokens, with a table lock, a reference
  count per record and a RESERVED mark for creation and deletion. The model is a step system: any number of
  transactions, interleaved in any way at the points where the table lock changes hands. Exclusive access, the
  meaning of the reference count and the uniqueness of IDs hold in every reachable state; a token is always one
  for what its transaction asked for; lookups, creations and deletions succeed exactly when they should, and a
  deletion gives the record back. Two documented promises do not hold and are proved up to their exact
  condition.
- **Stub table** (`Stub*.dfy`). UT assert replaces a function by a stub that consults a table of 200 entries
  with open addressing: return codes, data buffers, hooks, handlers, counters. `StubTable` is the simple form,
  in which every lookup scans the whole table; `StubEngine` is the table as the source keeps it, an array with a
  bounded search, proved to do the same. In between, the table is understood as a family of chains (the entries
  of one key and kind in probe order, `StubChains`): what each operation does to the chains (`StubEffects`,
  `StubExecute`), exactly when it aborts (`StubAborts`), what whole runs keep (`StubRuns`), and in which order
  entries are used (`StubOrder`). On top: the schedule of deferred codes, the value a stub returns, the
  conservation of data buffers, the handlers that drain them and the object IDs that stubs hand out.
- **Lists, runner and counters of UT assert** (`UtList.dfy`, `UtTest.dfy`, `UtAssert.dfy`): circular doubly
  linked rings on the heap, spliced, walked and destroyed while spliced.
- **Select and clock** (`Select.dfy`, `Clock.dfy`): sets of file handles around the system's select(), with a
  retry loop that keeps a deadline; fixed-point time.
- **Tasking example** (`Tasking.dfy`) and **console ring buffer** (`Console.dfy`), as step systems over all
  interleavings; the console also as the in-place code.

Modelling decisions:

- The stub table's integers are stored as bytes in two's complement, least significant byte first, with a
  64-bit `UT_IntReturn_t`: a little-endian host. An `UtAssert_Abort` (full table, wrong return size) is an
  explicit outcome that ends the run.
- Function keys and function pointers are natural numbers, 0 being NULL. What a test's own hook or handler does
  during a call is a parameter (`Script`): the code the hook returns and the value the handler stages.
- The system call select() is a trace of replies. What is assumed of them is the contract of the
  "pselect, select" page of IEEE Std 1003.1-2017: ready descriptors are among those asked for, and a timeout is
  not reported before the interval has passed.
- The table lock is a POSIX mutex of type PTHREAD_MUTEX_NORMAL (src/os/posix/src/os-impl-idmap.c:222): a thread
  that locks it again waits forever.
- Times are 64-bit ticks of 100 ns with explicit wrap-around; division truncates toward zero, as section 6.5.5
  of ISO/IEC 9899:2011 has it. Parts of a second are 32-bit unsigned numbers, and so are the products that
  make ticks of microseconds and milliseconds.

Where the code and its documentation disagree, the model follows the code:

- `OS_ObjectIdConvertToken` is documented to release the table lock on every failure
  (src/os/shared/src/osapi-idmap.c:383-384). It does not; `OS_ObjectIdGetById` makes up for it and
  `OS_ObjectIdGetBySearch` does not. `LockLostExactly` names the steps that lose the lock, `OwnerFreesLock` says that
  nothing else keeps it.
- An event handler may refuse a new object (src/os/inc/osapi-common.h:38-47). Doing so ends with the allocating
  thread waiting for its own lock (`RefusalLocks`, `RelockNever`).
- `OS_ERR_NAME_TAKEN` is promised for a name in use on another queue (src/os/inc/osapi-queue.h:62). The name is
  checked before it is entered, and the lock is released in between (`DuplicateName`); `RunDuplicableExactly` has
  the exact condition.
- Deferred codes and data buffers are documented to be used in the order they were added
  (ut_assert/inc/utstubs.h:187, ut_assert/inc/utstubs.h:245). A new entry takes the first unused slot, which
  may precede an older entry (`StubDeferred.ThirdBeforeSecond`, `StubData.ThirdBeforeSecond`); both have the exact
  condition for whole runs (`StubDeferred.OrderExactly`, `StubData.OrderExactly`).
- `OS_TimeCompare` goes by the sign of a wrapped difference (`CompareExactly`).
- The parts of an interval are documented without regard to its sign (src/os/inc/osapi-clock.h:396-432). The
  fraction of a negative interval is cast to a large unsigned number (`PartsRoundTrip`).

## Model

| member | source | states |
|---|---|---|
| `ObjectIdMap.FindNextFree` | src/os/shared/src/osapi-idmap.c:592-660 | the loop of the source returns what the recursive search finds, and reports an object type without records |
| `ObjectIdMap.NextFreeSearch` | src/os/shared/src/osapi-idmap.c:622-636 | the serial number found belongs to the first free record after the last one issued, in circular order, also across the point where numbering starts over; all records before it are in use |
| `ObjectIdMap.NextFreeComplete` | src/os/shared/src/osapi-idmap.c:592-660 | the search succeeds if and only if some record is free, and the number it issues fits the index field |
| `ObjectIdMap.StepInv` | src/os/shared/src/osapi-idmap.c:387-529 | every step of every transaction keeps the table invariant: one owner of the lock, counts equal to users, IDs at their records, RESERVED exactly under a claim, no two claims on a record |
| `ObjectIdMap.ReachableInv` | src/os/shared/src/osapi-idmap.c:119-124 | the invariant holds in every state reachable from an initialised table by any interleaving |
| `ObjectIdMap.ExclusiveIsAlone` | src/os/shared/src/osapi-idmap.c:419-458 | while a create or delete holds a record, nobody else uses it or waits to take it over, except an OS_LOCK_MODE_RESERVED user that owns the table lock |
| `ObjectIdMap.HeldObjectStays` | src/os/shared/src/osapi-idmap.c:387-529 | while a token is out, its record is not freed or reissued: it carries the token's ID, or RESERVED put there for the same ID |
| `ObjectIdMap.RefcountExact` | src/os/shared/src/osapi-idmap.c:493-516 | the reference count is the number of tokens out on the record |
| `ObjectIdMap.IdsUnique` | src/os/shared/src/osapi-idmap.c:622-651 | an ID leads back to its record, and no two records carry the same ID |
| `ObjectLife.TokenAsAsked` | src/os/shared/src/osapi-idmap.c:1005-1037 | in every run, whatever others do meanwhile: a transaction has a token of the mode and for the ID that its last start asked for, at the record of that ID; a creation has one for the name it wants |
| `ObjectLife.AttemptExactly` | src/os/shared/src/osapi-idmap.c:419-529 | one attempt gets the object if and only if it is available in that mode, and then counts as one user more; it waits if and only if the object is occupied and this was not the fifth attempt; otherwise the record is as before the transaction |
| `ObjectLife.TriesBounded` | src/os/shared/src/osapi-idmap.c:466-485 | in every run, a transaction that is still waiting or trying has tried less than five times |
| `ObjectLife.LookupExactly` | src/os/shared/src/osapi-idmap.c:1005-1037 | a lookup by ID gets the token for that ID, at its record, if and only if the object is available; if there is nothing to wait for either, the table is as it was |
| `ObjectLife.SearchExactly` | src/os/shared/src/osapi-idmap.c:543-575 | a search is for the first record that carries the name and gets its object if and only if it is available; if there is none, the table is as it was |
| `ObjectLife.FinishExactly` | src/os/shared/src/osapi-idmap.c:1051-1104 | the end of a transaction: one user less; a deletion leaves the record undefined, a creation or a deletion that failed leaves it with its ID again; name and other records stay, the lock is free |
| `ObjectLife.DeleteFrees` | src/os/shared/src/osapi-idmap.c:876-901 | after a deletion, nobody uses the record, the ID is not in use, and the allocation finds a free record |
| `ObjectLife.AllocateExactly` | src/os/shared/src/osapi-idmap.c:1151-1215 | a creation is refused, with the table as it was, if and only if the name is in the table or no record is free |
| `ObjectLife.CreateExactly` | src/os/shared/src/osapi-idmap.c:833-869 | an undisturbed creation ends with a record that was free carrying the issued ID and the name, without users; nothing else changed |
| `ObjectLife.DeleteExactly` | src/os/shared/src/osapi-idmap.c:876-901 | an undisturbed deletion of an object that nobody uses succeeds and changes nothing but its record |
| `ObjectLife.CreatedThenDeleted` | src/os/shared/src/osapi-idmap.c:833-901 | a created object is found by its ID by every agent; after its deletion nobody gets a token for it, and a new creation finds room |
| `ObjectSerials.IncreasesExactly` | src/os/shared/src/osapi-idmap.c:622-651 | a number issued is greater than the last one if and only if some free record is reached before the numbers run out |
| `ObjectSerials.SerialsIncreaseExactly` | src/os/shared/src/osapi-idmap.c:592-660 | the numbers issued by a run are strictly increasing if and only if numbering does not start over |
| `ObjectSerials.StaleIdStays` | src/os/shared/src/osapi-idmap.c:592-660 | an ID that was issued and is no longer in use does not come into use again, in any run in which numbering does not start over |
| `ObjectSerials.TokensAreInUse` | src/os/shared/src/osapi-idmap.c:1005-1036 | whoever holds a token, its ID is in use; hence nobody gets one for a stale ID |
| `ObjectIdMap.AllocationConverts` | src/os/shared/src/osapi-idmap.c:1204-1212 | the conversion inside an allocation succeeds at once in every reachable state, and gives the lock back |
| `ObjectIdMap.FailedClaimRestores` | src/os/shared/src/osapi-idmap.c:517-525 | a delete that gives up leaves the record as it found it, with nobody claiming it |
| `ObjectIdMap.RelockNever` | src/os/shared/src/osapi-idmap.c:1051-1072 | an allocation that failed after it got its record waits for the lock that it owns itself, and that step is never enabled |
| `ObjectIdMap.RefusalLocks` | src/os/inc/osapi-common.h:38-47 | a run in which an event handler refuses a new object locks the table for good |
| `ObjectIdMap.StuckForever` | src/os/shared/src/osapi-idmap.c:675-733 | once the lock is lost it stays lost: in every continuation no transaction starts, wakes up or finishes |
| `ObjectIdMap.StepStrands` | src/os/shared/src/osapi-idmap.c:915-939 | a step loses the lock if and only if it is one of the four listed kinds |
| `ObjectIdMap.LockLostExactly` | src/os/shared/src/osapi-idmap.c:380-386 | a run ends with the lock lost if and only if it contains such a step |
| `ObjectIdMap.OwnerFreesLock` | src/os/shared/src/osapi-idmap.c:387-529 | in every reachable state whose lock is held by a transaction that is not stuck, one or two steps of the owner alone are enabled and give the lock back or are among those that lose it |
| `ObjectIdMap.SearchDuringCreation` | src/os/shared/src/osapi-idmap.c:915-939 | a run in which looking up the name of an object under creation locks the table for good |
| `ObjectNames.NamesCleanExactly` | src/os/shared/src/osapi-idmap.c:1169-1189 | the induction step: names that are entered or about to be stay distinct if and only if the step does not race |
| `ObjectNames.RunNamesUnique` | src/os/shared/src/osapi-idmap.c:1151-1215 | in a run without a race no name is ever in the table twice |
| `ObjectNames.RaceDuplicates` | src/os/shared/src/osapi-idmap.c:1151-1215 | every race is enough: three further steps of the two creations put the name into the table twice |
| `ObjectNames.DuplicableExactly` | src/os/inc/osapi-queue.h:62 | while names are distinct, a step lets the creations in flight put a name into the table twice if and only if it allocates, with a free record left, a name that is not in the table but wanted by an unfinished creation |
| `ObjectNames.RunDuplicableExactly` | src/os/inc/osapi-queue.h:62 | a run comes to a state from which the creations in flight can put a name into the table twice if and only if one of its steps is such an allocation |
| `ObjectNames.InitClean` | src/os/shared/src/osapi-idmap.c:119-124 | an initialised table satisfies the conditions of the exact result |
| `ObjectNames.DuplicateName` | src/os/shared/inc/os-shared-idmap.h:106-111 | a run of two overlapping creations that both succeed with the same name |
| `StubTable.Find` | ut_assert/src/utstubs.c:161-212 | a lookup finds a matching entry, and finds none only if the table holds none |
| `StubChains.ClearHead` | ut_assert/src/utstubs.c:146-155 | clearing the entry that is found drops the head of its chain and keeps all other chains |
| `StubChains.ReplaceHead` | ut_assert/src/utstubs.c:161-212 | rewriting the entry that is found replaces the head of its chain and keeps all other chains |
| `StubChains.InsertNew` | ut_assert/src/utstubs.c:161-212 | a new entry enters its chain at the place of the first unused slot, and keeps all other chains |
| `StubEffects.SetCallbackEffect` | ut_assert/src/utstubs.c:754-788 | setting a hook or handler leaves exactly that one, NULL leaves none, and no other chain changes |
| `StubEffects.ConstantEffect` | ut_assert/src/utstubs.c:354-409 | a constant return value replaces the one before |
| `StubEffects.ConstantSet` | ut_assert/src/utstubs.c:277-317 | a constant set with bytes of an integer width has their value; with another width it keeps the value before |
| `StubEffects.DeferredEffect` | ut_assert/src/utstubs.c:354-409 | a deferred value is always a new entry of its chain |
| `StubEffects.SetDataEffect` | ut_assert/src/utstubs.c:609-647 | a data buffer is a new, unread entry of its chain |
| `StubEffects.CopyToLocalEffect` | ut_assert/src/utstubs.c:685-716 | a read takes from the first buffer of the chain only, which leaves the chain when it is used up |
| `StubEffects.RegisterContextEffect` | ut_assert/src/utstubs.c:887-958 | arguments gather in one context entry, up to its capacity |
| `StubEffects.RegisterReturnEffect` | ut_assert/src/utstubs.c:522-568 | whatever was there, one unfilled return buffer of the given size and type is left |
| `StubEffects.CopyToReturnEffect` | ut_assert/src/utstubs.c:970-988 | a staged value fills the buffer, which must have its size |
| `StubExecute.ExecuteEffect` | ut_assert/src/utstubs.c:1036-1237 | one execution in terms of the chains of its key alone: status, counter, deferred and constant codes, return buffer; nothing else in the table matters or changes |
| `StubAborts.ConfigureAborts` | ut_assert/src/utstubs.c:354-409 | a return value is refused if and only if no slot is unused, for a constant only if there is none to replace |
| `StubAborts.SetDeferredAborts` | ut_assert/src/utstubs.c:411-422 | a deferred code is refused if and only if its count is positive and no slot is unused |
| `StubAborts.SetCallbackAborts` | ut_assert/src/utstubs.c:754-788 | a hook or handler is refused if and only if no slot is unused and there is none to replace; removing one never is |
| `StubAborts.RegisterContextAborts` | ut_assert/src/utstubs.c:887-958 | an argument is refused if and only if there is no context entry and no unused slot |
| `StubAborts.RegisterReturnAborts` | ut_assert/src/utstubs.c:522-568 | a return type is refused if and only if there is no return buffer and no unused slot: a buffer of another size makes room for the new one |
| `StubAborts.SetDataAborts` | ut_assert/src/utstubs.c:609-647 | a data buffer is refused if and only if it is not empty and no slot is unused |
| `StubAborts.CallOnceAborts` | ut_assert/src/utstubs.c:234-275 | a once-only function aborts if and only if it is not entered and no slot is unused |
| `StubAborts.CopyToReturnAborts` | ut_assert/src/utstubs.c:970-988 | a staged value is refused if and only if there is a return buffer of another size |
| `StubAborts.ExecuteAborts` | ut_assert/src/utstubs.c:1036-1237 | an execution aborts if and only if there is no slot for its counter, or its handler stages a value of another size than the return buffer; in all other cases it returns |
| `StubAborts.AbortsExactly` | ut_assert/src/utstubs.c:146-1264 | every operation aborts if and only if it is blocked, which a test can tell beforehand |
| `StubAborts.CompletesExactly` | ut_assert/src/utstubs.c:146-1264 | a run completes if and only if none of its operations is blocked when its turn comes |
| `StubAborts.RoomForRun` | ut_assert/src/utstubs.c:138 | an operation takes one unused slot at most, so a run of no more operations than unused slots, in which no return value is staged, always completes |
| `StubAborts.ExecuteBasicAborts` | ut_assert/src/utstubs.c:1255-1264 | with a default handler an execution aborts if and only if there is no room for what is missing of handler and counter, or the staged value has the wrong size |
| `StubAborts.StubComesBack` | ut_assert/src/utstubs.c:522-607 | given four unused slots, a generated stub with any number of arguments comes back from its call if and only if a value staged by its handler has the size of the return type |
| `StubRuns.ResetEffect` | ut_assert/src/utstubs.c:214-232 | a reset empties exactly the chains it covers |
| `StubRuns.ClearDeferredEffect` | ut_assert/src/utstubs.c:424-437 | every deferred code of the key is removed, and nothing else |
| `StubRuns.OnceEffect` | ut_assert/src/utstubs.c:234-275 | a once-only function is entered if it was not, and nothing else changes |
| `StubRuns.StepTouches` | ut_assert/src/utstubs.c:146-1264 | every operation keeps unused slots zero and single kinds single, and changes only the chains of its own key and kinds |
| `StubRuns.RunKeeps` | ut_assert/src/utstubs.c:146-1264 | so does every run |
| `StubRuns.AtMostOneEntry` | ut_assert/src/utstubs.c:367-409 | in every reachable state two slots with the same key and the same single kind are the same slot |
| `StubRuns.CountExact` | ut_assert/src/utstubs.c:475-491 | the count of a stub is the number of its executions since the last reset covering it, modulo 2^32, after every run |
| `StubRuns.OnceExact` | ut_assert/src/utstubs.c:234-275 | after every run, UT_Stub_CallOnce calls its function if and only if it was not asked for it since the last reset covering it |
| `StubRuns.FirstSlot` | ut_assert/src/utstubs.c:161-212 | the first entry of a key in an empty table is at the key modulo 199 |
| `StubRuns.StepLeaves` | ut_assert/src/utstubs.c:146-1264 | what each operation leaves of its kind: one once-only entry, one constant, one deferred code more, no constant, no deferred code, exactly the function set, no context and one counter |
| `StubRuns.HookDecides` | ut_assert/src/utstubs.c:1120-1142 | as long as a hook is set, a call returns the code of the hook |
| `StubRuns.HandlerDoesNotDecide` | ut_assert/src/utstubs.c:1144-1155 | setting a handler does not change the status of a call |
| `StubOrder.StepSlots` | ut_assert/src/utstubs.c:146-1264 | every operation but a reset writes only unused slots and slots of its own key and kinds |
| `StubOrder.AddedLastExactly` | ut_assert/inc/utstubs.h:245 | a new entry will be used last if and only if no unused slot precedes an entry of its chain |
| `StubOrder.AddedInOrder` | ut_assert/inc/utstubs.h:187 | in a run that clears nothing, deferred codes and data buffers queue up in the order of adding |
| `StubIntegers.FitsExactly` | ut_assert/src/utstubs.c:277-352 | representable in n bytes means between -2^(8n-1) and 2^(8n-1) |
| `StubIntegers.DecodeEncode` | ut_assert/src/utstubs.c:277-352 | storing and loading with n bytes gives the value back if and only if it lies in that range |
| `StubIntegers.Int32RoundTrip` | ut_assert/src/utstubs.c:319-352 | a status passes unchanged if and only if it is an int32 |
| `StubIntegers.Int64RoundTrip` | ut_assert/src/utstubs.c:411-422 | a return code passes unchanged if and only if it fits 64 bits |
| `StubIntegers.Resized` | ut_assert/src/utstubs.c:277-352 | loading with another width keeps the common low-order bytes and extends by the sign |
| `StubSchedule.DueExact` | ut_assert/src/utstubs.c:990-1029 | with counters n1, n2, ... code j is due with call n1 + ... + nj |
| `StubSchedule.DueOnlyThen` | ut_assert/src/utstubs.c:990-1029 | and a code is due with no other call |
| `StubSchedule.DeferredSchedule` | ut_assert/src/utstubs.c:990-1082 | a stub without hook, amid any operations that do not reconfigure it, returns the code that is due with this call, else the constant value, else the default |
| `StubSchedule.CodesAsAdded` | ut_assert/src/utstubs.c:411-422 | from any table in order: codes (n1, r1), (n2, r2), ... pending or added amid operations that clear nothing: call number c returns rj if c = n1 + ... + nj, and otherwise the constant value or the default |
| `StubSchedule.EmptyNoGap` | ut_assert/src/utstubs.c:161-212 | a key without deferred codes satisfies the condition on gaps, whatever else the table holds |
| `StubDeferred.UsedAsAdded` | ut_assert/src/utstubs.c:990-1029 | in every run from any table in order, with codes added, used and cleared as it comes: each code added since the last clear was used exactly once or is pending; what was used followed by what is pending is what was added, in order, under the condition of OrderExactly |
| `StubDeferred.UsedIsReturned` | ut_assert/src/utstubs.c:1069-1082 | a call that uses a code returns it, if there is no hook |
| `StubDeferred.OrderExactly` | ut_assert/inc/utstubs.h:187 | the codes of a run are used in the order of adding if and only if each is added when no unused slot precedes a pending one |
| `StubDeferred.ThirdBeforeSecond` | ut_assert/inc/utstubs.h:187 | a run with three codes whose calls return the first and then the third |
| `StubReturn.StubReturns` | ut_assert/src/utstubs.c:570-607 | register, execute and fetch end with a completely written buffer: the handler's value, else the hook's code in 4 bytes, else the configured integer in the buffer's width, else zeros |
| `StubReturn.ConfiguredBytes` | ut_assert/src/utstubs.c:1171-1224 | an integer configured as bytes comes out cut off or sign-extended, byte by byte |
| `StubData.BuffersConserved` | ut_assert/src/utstubs.c:609-716 | in every run from any table in order: every buffer supplied since the last reset covering the key is what was delivered of it followed by what is still unread; a buffer that left the table was delivered in full |
| `StubData.BuffersUnread` | ut_assert/src/utstubs.c:685-716 | in every reachable state every buffer in the table has something to read |
| `StubData.ReadAmount` | ut_assert/src/utstubs.c:685-716 | a read delivers as much as it asks for, or all that is left of the first buffer; what it delivers followed by what stays is what was pending |
| `StubData.FirstInFirstOut` | ut_assert/inc/utstubs.h:245 | in every run from any table in order: under the condition of OrderExactly, all reads followed by what is unread are the bytes supplied, in order, since the last reset covering the key |
| `StubData.OrderExactly` | ut_assert/inc/utstubs.h:245 | the buffers of a run are used in the order of supply if and only if each is supplied when no unused slot precedes an older one |
| `StubData.ThirdBeforeSecond` | ut_assert/inc/utstubs.h:245 | a run in which the third buffer is read before the second |
| `StubEngine.BoundedSearchExact` | ut_assert/src/utstubs.c:161-212 | in a table whose entries lie within the recorded search length, the bounded search finds the same slot as the search of all 200 |
| `StubEngine.OnceEntryBeyondBound` | ut_assert/src/utstubs.c:248-261 | once-only entries are a real exception: the first one entered into an empty table lies beyond the recorded length |
| `StubEngine.Table.constructor` | ut_assert/src/utstubs.c:138-139 | an empty table satisfies the table invariant |
| `StubEngine.Table.Probe` | ut_assert/src/utstubs.c:161-200 | the wrapping search loop stops at the first match in probe order |
| `StubEngine.Table.GetStubEntry` | ut_assert/src/utstubs.c:161-212 | returns the slot of the full search and keeps the bound, which covers a slot found for a new entry |
| `StubEngine.Table.ResetState` | ut_assert/src/utstubs.c:214-232 | clears exactly the covered slots in place and keeps the table invariant; a full reset clears the search length |
| `StubEngine.Table.CallOnce` | ut_assert/src/utstubs.c:234-275 | the one-pass scan does what the simple form does, and calls the function exactly when it is not entered yet |
| `StubEngine.Table.ConfigureReturnValue` | ut_assert/src/utstubs.c:354-409 | refines the simple form, aborts exactly when it does |
| `StubEngine.Table.SetDeferredRetcode` | ut_assert/src/utstubs.c:411-422 | refines the simple form; a count that is not positive changes nothing |
| `StubEngine.Table.ClearDeferredRetcode` | ut_assert/src/utstubs.c:424-437 | the repeated search terminates and has removed every deferred code of the key and nothing else |
| `StubEngine.Table.ClearEntry` | ut_assert/src/utstubs.c:444-453 | refines the simple form |
| `StubEngine.Table.SetCallback` | ut_assert/src/utstubs.c:754-788 | refines the simple form, aborts exactly when it does |
| `StubEngine.Table.RegisterContext` | ut_assert/src/utstubs.c:887-958 | refines the simple form, aborts exactly when it does |
| `StubEngine.Table.RegisterReturnType` | ut_assert/src/utstubs.c:522-568 | refines the simple form, aborts exactly when it does |
| `StubEngine.Table.CopyToReturnValue` | ut_assert/src/utstubs.c:970-988 | refines the simple form, aborts exactly when it does |
| `StubEngine.Table.SetDataBuffer` | ut_assert/src/utstubs.c:609-647 | refines the simple form, aborts exactly when it does |
| `StubEngine.Table.CopyToLocal` | ut_assert/src/utstubs.c:685-716 | delivers and leaves what the simple form does |
| `StubEngine.Table.GetStubCount` | ut_assert/src/utstubs.c:475-491 | returns the count of the simple form |
| `StubEngine.Table.FindRetvalConfig` | ut_assert/src/utstubs.c:990-1029 | picks the slot that the simple form picks, with the same counters afterwards |
| `StubEngine.Table.DefaultStubImpl` | ut_assert/src/utstubs.c:1036-1237 | one execution refines the simple form: same status, same table, same aborts |
| `StubEngine.Table.ExecuteBasicHandler` | ut_assert/src/utstubs.c:1255-1264 | refines the simple form; a default handler is installed if there is none |
| `StubEngine.Table.Perform` | ut_assert/src/utstubs.c:146-1264 | each operation on the array is the step of the simple form, and aborts exactly when that does |
| `StubEngine.Replay` | ut_assert/src/utstubs.c:146-1264 | every run of the array with its bounded search is a run of the simple form: aborted exactly when that is, otherwise with the same table |
| `StubEngine.CountAfter` | ut_assert/src/utstubs.c:475-491 | after every run of the array, the count is the number of executions since the last reset covering the key, modulo 2^32, and a once-only function is called exactly if it was not asked for since then |
| `StubHandlers.ForEachObject` | src/ut-stubs/osapi-idmap-handlers.c:126-165 | the drain loop terminates; the callback gets the IDs of all buffers up to the first that does not hold a whole number of them, and the buffers behind that one stay |
| `StubHandlers.DrainConserves` | src/ut-stubs/osapi-idmap-handlers.c:149-165 | IDs passed on, followed by the bytes of the short read, followed by what is still pending, are what was pending; the short read is shorter than an ID |
| `StubHandlers.DeliveredAreIds` | src/ut-stubs/osapi-idmap-handlers.c:149-165 | every call of the callback gets a full-size ID |
| `StubHandlers.DrainsAllExactly` | src/ut-stubs/osapi-idmap-handlers.c:149-165 | everything pending is passed on if and only if every buffer holds a whole number of IDs |
| `StubHandlers.QueuePut` | src/ut-stubs/osapi-queue-handlers.c:105-118 | a put is a supply to the buffers of the queue's ID, unless the status says otherwise |
| `StubHandlers.QueueGet` | src/ut-stubs/osapi-queue-handlers.c:80-98 | a get is a read of those buffers; it reports an empty queue exactly when it got nothing, in the staged return value; a status that was set by the test leaves the queue alone |
| `StubHandlers.MessagesWhole` | src/ut-stubs/osapi-queue-handlers.c:80-118 | in every run from any table in order with room for a message in every get: each message put since the last reset covering the queue is got once and in one piece or still queued; in the order of puts under the condition of OrderExactly |
| `StubObjects.DecomposeCompose` | src/ut-stubs/utstub-helpers.c:170-182 | an ID gives back its index, and its type if and only if the type leaves the marker bit free |
| `StubObjects.ComposeDecompose` | src/ut-stubs/utstub-helpers.c:170-182 | index and type give back the ID if and only if it carries the marker bit |
| `StubObjects.ComposeIs` | src/ut-stubs/utstub-helpers.c:170-175 | the number of an ID: index, plus type times 2^16, plus 2^30 |
| `StubObjects.IssueIs` | src/ut-stubs/utstub-helpers.c:82-87 | after n allocations since the last clear the next index is n + 1, and 255 from then on |
| `StubObjects.ReissueExactly` | src/ut-stubs/utstub-helpers.c:82-101 | the next index is live if and only if 255 indices were issued and index 255 was not deleted since |
| `StubObjects.FirstIdsDistinct` | src/ut-stubs/utstub-helpers.c:82-109 | the first 255 IDs of a type are pairwise distinct, across deletions |
| `StubObjects.Objects.ClearAll` | src/ut-stubs/utstub-helpers.c:52-58 | all histories start again |
| `StubObjects.Objects.ClearOnce` | src/ut-stubs/utstub-helpers.c:70 | the histories start again exactly when the stub table was reset since |
| `StubObjects.Objects.AllocId` | src/ut-stubs/utstub-helpers.c:63-109 | the bitmap stays equal to the set of live indices; the ID carries the next index, and overlap is reported if and only if that index is live |
| `StubObjects.Objects.DeleteId` | src/ut-stubs/utstub-helpers.c:114-168 | the bitmap stays equal to the set of live indices; a deletion is reported as unknown if and only if the index is not live |
| `UtList.Node.constructor` | ut_assert/src/utlist.c:123-143 | a new node is a ring of its own |
| `UtList.Merge` | ut_assert/src/utlist.c:88-97 | two disjoint rings become one ring: the first followed by the second |
| `UtList.InsertBefore` | ut_assert/src/utlist.c:107-113 | the new node becomes the last of the ring |
| `UtList.InsertAfter` | ut_assert/src/utlist.c:99-105 | the new node becomes the first after the head |
| `UtList.Extract` | ut_assert/src/utlist.c:115-121 | the node leaves the ring, which stays closed, and is a ring of its own; a node on its own stays so |
| `UtList.RingRotates` | ut_assert/src/utlist.c:88-121 | a ring may be listed from any of its nodes |
| `UtList.DeleteNode` | ut_assert/src/utlist.c:159-168 | the node leaves the ring; it is freed if it holds data, and only unlinked if it is a head |
| `UtList.Reset` | ut_assert/src/utlist.c:80-86 | terminates with the head alone; every data node of the ring is freed, and heads among them are rings of their own |
| `UtList.Destroy` | ut_assert/src/utlist.c:69-78 | on rings that share heads in any way, every data node is freed, once, and no head is |
| `UtTest.Registry.constructor` | ut_assert/src/uttest.c:192-199 | all groups are empty, each head a ring of its own |
| `UtTest.Registry.AddCommon` | ut_assert/src/uttest.c:49-66 | the entry becomes the last of its group; the other groups keep their entries |
| `UtTest.MergeGroups` | ut_assert/src/uttest.c:145-148 | the four rings become one, in the order of the groups |
| `UtTest.Walk` | ut_assert/src/uttest.c:152-183 | the walk visits the data nodes of the ring in order, once each, and skips heads; the totals grow by their checks |
| `UtTest.RunEntry` | ut_assert/src/uttest.c:160-182 | one entry contributes the checks of setup, body and teardown, counted under its phase |
| `UtTest.Run` | ut_assert/src/uttest.c:129-190 | entries are visited group after group in registration order, then all freed; the exit code reports failure if and only if some completed segment saw a FAILURE, TSF or TTF |
| `UtTest.TestsExact` | ut_assert/src/uttest.c:160-182 | the count of tests is the number of entries with a test function |
| `UtTest.Startup` | ut_assert/src/utbsp.c:240-252 | the groups hold what was registered, in order, and the checks of the setup are counted as a segment of their own |
| `UtTest.StartExact` | ut_assert/src/utbsp.c:240-252 | what the start-up segment counts under a type is the number of its checks that pass, or fail with that type |
| `UtTest.EntryExact` | ut_assert/src/uttest.c:160-182 | what an entry counts under a type is the number of such checks in setup, body and teardown, a failure in setup or teardown being one of its own type; a failing type is counted if and only if one of its checks fails |
| `UtTest.Application` | ut_assert/src/utbsp.c:228-252 | from start-up to exit, for every sequence of registrations and checks: entries are visited group after group in the order of registration; the totals, overall and per type, are the numbers of checks performed; the exit code is an error if and only if some check that is false has no type of its own or a failing one |
| `UtAssert.TallySums` | ut_assert/src/utassert.c:204-238 | for valid case types the counts per type add up to the number of checks |
| `UtAssert.CountedIs` | ut_assert/src/utassert.c:199-226 | a check counts under PASS if it is true, and otherwise under its own type or else that of the context |
| `UtAssert.TallyCounted` | ut_assert/src/utassert.c:204-238 | the count of a type is the number of checks that count under it |
| `UtAssert.Counters.TotalsAddUp` | ut_assert/src/utassert.c:147-187 | the counters of the types in the totals add up to the total of test cases |
| `UtAssert.Counters.constructor` | ut_assert/src/utassert.c:41-43 | all counters start at zero |
| `UtAssert.Counters.BeginTest` | ut_assert/src/utassert.c:126-140 | a segment starts without checks |
| `UtAssert.Counters.AssertEx` | ut_assert/src/utassert.c:204-238 | one check is counted under its type: passed, or the type it fails with; every counter keeps its meaning |
| `UtAssert.Counters.EndTest` | ut_assert/src/utassert.c:147-187 | the totals take over the segment's checks of every type, unless there were none |
| `UtAssert.Counters.EndTestRun` | ut_assert/src/utbsp.c:211-219 | the exit code is an error if and only if a failing type is among the ended checks |
| `Clock.SplitExact` | src/os/inc/osapi-clock.h:225-368 | whole seconds and fraction make up the interval, for negative intervals too |
| `Clock.SubsecondsAdjoint` | src/os/inc/osapi-clock.h:384-394 | the subseconds of a fraction are at most s if and only if the fraction is at most the ticks made from s |
| `Clock.SubsecondsRoundTrip` | src/os/inc/osapi-clock.h:544-551 | the subseconds fit 32 bits and give every non-negative interval back exactly |
| `Clock.SubsecondsAre` | src/os/inc/osapi-clock.h:544-551 | a subsecond is the 2^32nd part of a second, and the conversion to ticks rounds down |
| `Clock.SubsecondsIncrease` | src/os/inc/osapi-clock.h:384-394 | a later fraction has more subseconds |
| `Clock.NanosecondsRoundDown` | src/os/inc/osapi-clock.h:473-479 | the assembly rounds down to ticks of 100 ns, for all nanoseconds |
| `Clock.AssembleExactly` | src/os/inc/osapi-clock.h:497-527 | the assembly from microseconds and milliseconds is exact if and only if the product fits 32 bits |
| `Clock.NanosecondsGivenBack` | src/os/inc/osapi-clock.h:452-479 | taking apart what was assembled gives back seconds and nanoseconds, rounded down to 100 ns, with whole seconds carried |
| `Clock.FractionsGivenBack` | src/os/inc/osapi-clock.h:408-527 | microseconds and milliseconds of less than a second come back exactly |
| `Clock.PartsRoundTrip` | src/os/inc/osapi-clock.h:408-527 | seconds and parts make up the interval again, exactly for nanoseconds, otherwise short by less than one unit, if and only if it is not negative or a whole number of seconds |
| `Clock.SubtractUndoesAdd` | src/os/inc/osapi-clock.h:562-581 | subtraction undoes addition, also when the sum wraps |
| `Clock.CompareExactly` | src/os/inc/osapi-clock.h:608-627 | the comparison is right if and only if the difference does not overflow |
| `Clock.CompareOverflows` | src/os/inc/osapi-clock.h:624-627 | a pair that compares the wrong way round |
| `Select.ImageExact` | src/os/portable/os-impl-bsd-select.c:83-113 | the descriptors collected are those of the open, supported handles of the set |
| `Select.UnsupportedExact` | src/os/portable/os-impl-bsd-select.c:90-99 | the conversion is refused if and only if some open handle of the set is out of range or not selectable |
| `Select.MaxFdExact` | src/os/portable/os-impl-bsd-select.c:100-107 | the maximum is one of the descriptors, or the value before, and no descriptor exceeds it |
| `Select.ConvertInByte` | src/os/portable/os-impl-bsd-select.c:85-112 | shifting a byte until it is zero does the same as looking at all its bits |
| `Select.ConvertIn` | src/os/portable/os-impl-bsd-select.c:73-116 | the nested loops collect image, maximum and refusal of the whole set |
| `Select.ConvertOutByte` | src/os/portable/os-impl-bsd-select.c:141-156 | a byte keeps exactly its bits that stay |
| `Select.ConvertOut` | src/os/portable/os-impl-bsd-select.c:131-158 | in place, the set keeps exactly the handles that are ready, and bits beyond the table |
| `Select.DoSelect` | src/os/portable/os-impl-bsd-select.c:167-229 | each retry hands over the interval of its own time; the code is that of the first reply that is not an interruption |
| `Select.IntervalMeetsDeadline` | src/os/portable/os-impl-bsd-select.c:190-209 | every interval is a valid timeval that ends at the deadline or less than one microsecond before it, or at once if the deadline has passed |
| `Select.TimeoutIsDue` | src/os/portable/os-impl-bsd-select.c:167-229 | in every trace a timeout comes less than one microsecond before the deadline at the earliest, and no call is asked to wait past it |
| `Select.SelectMultiple` | src/os/portable/os-impl-bsd-select.c:311-364 | on success each set holds exactly its ready handles and at least one is left, or, if one object is passed as both sets, it holds those ready for both; otherwise the sets are untouched; both refusals have their exact conditions, and otherwise the code is that of the last reply; a timeout comes less than one microsecond before a positive deadline at the earliest |
| `Tasking.BlocksOfOneTask` | src/examples/tasking-example/tasking-example.c:122-204 | in every interleaving without a refused take, the puts are one block per critical section, at most two messages, all the holder's ID; what was read followed by what is queued is what was put |
| `Tasking.EqualPairs` | src/examples/tasking-example/tasking-example.c:122-204 | if no put is refused either, the history is a sequence of equal pairs whenever the mutex is free |
| `Tasking.RefusedTakeMixes` | src/examples/tasking-example/tasking-example.c:130-136 | a run with a refused take in which the mutex owner puts the other ID |
| `Tasking.MixableExactly` | src/examples/tasking-example/tasking-example.c:130-136 | with different IDs, a step lets the mutex owner come to put the other ID if and only if it is a refused take |
| `Tasking.RunMixableExactly` | src/examples/tasking-example/tasking-example.c:122-204 | a run comes to a state from which that can happen if and only if some take is refused in it |
| `Console.CircularPut` | src/os/shared/src/osapi-printf.c:162-167 | writing one character ahead of the read position makes the circular range one longer |
| `Console.Ring.constructor` | src/os/shared/src/osapi-printf.c:100-108 | a new ring holds nothing |
| `Console.Ring.Output` | src/os/portable/os-impl-console-bsp.c:54-93 | the drain emits exactly the circular range, in order, in at most two pieces, and leaves nothing unread |
| `Console.Ring.CopyOut` | src/os/shared/src/osapi-printf.c:144-180 | a string is appended if and only if there is room for all of it; unread characters are never overwritten |
| `Console.Ring.Write` | src/os/shared/src/osapi-printf.c:194-255 | name and message are taken as a whole or not at all, if and only if they fit; otherwise an overflow is counted |
| `Console.StepInv` | src/os/shared/src/osapi-printf.c:144-180 | every step of a writer and of the drain, interleaved, keeps the ring invariant |
| `Console.OutputIsAccepted` | src/os/portable/os-impl-console-bsp.c:54-93 | in every interleaving the output is a prefix of the accepted messages, and all of them when the drain is idle at the write position |
| `Console.DrainReaches` | src/os/portable/os-impl-console-bsp.c:54-93 | whatever writers do meanwhile, a drain that has come to its end has output exactly what had been accepted when it began |
| `Console.DrainEnds` | src/os/portable/os-impl-console-bsp.c:67-87 | a drain comes to its end after two pieces at most |
| `Console.CopyExactly` | src/os/shared/src/osapi-printf.c:144-180 | a writer copies all of its message if and only if that fits before the read position; otherwise it gives up and nothing is accepted |
| `Console.MessageExactly` | src/os/shared/src/osapi-printf.c:194-255 | a message is accepted, as a whole and behind all others, if and only if it is, together with what is unread, shorter than the ring |

## Left out

- ObjectIdMap.StepInv: does not model OS_LOCK_MODE_NONE tokens, which take no lock and write nothing, nor iterators, token transfer and the shutdown state, which would add easy steps; an object type without records has no steps, its allocation being refused (FindNextFree).
- ObjectIdMap.LockLostExactly: the table, the lock and the transactions are values of a step system, since their interleaving is the point; update in place is not modelled apart from that. The same holds for Tasking.BlocksOfOneTask.
- ObjectIdMap.RefcountExact: the count is a natural number; the 16-bit field of the source agrees while fewer than 2^16 tokens are out.
- ObjectIdMap.StuckForever: holds for a table lock that is not recursive, as on POSIX; the other systems are not part of the model.
- StubEngine.Table.DefaultStubImpl: hooks and handlers do not edit the table during the call, apart from the staged return value; argument lists, argument names and message output are not modelled.
- StubEngine.Table.ConfigureReturnValue: integers only; the opaque, floating-point and pointer genres depend on the layout of a C union.
- StubEngine.Table.SetDataBuffer: buffers are values, so a buffer that the test keeps and changes (AllocateCopy false) is not modelled; UT_GetDataBuffer and UT_Stub_CopyFromLocal would add more of the same.
- StubObjects.Objects.DeleteId: indices of 256 and more read past the bitmap in C and are excluded.
- ObjectSerials.SerialsIncreaseExactly: for tables of at most 65535 records, which the 16-bit index of an ID can tell apart.
- UtTest.Application: test functions are the checks they perform; the per-segment output and freeing the block of heads are not modelled.
- UtAssert.Counters.EndTest: a segment with a multiple of 2^32 checks is taken for an empty one, as in the source; hence the bounds in UtTest.Run and UtTest.Application.
- Clock.SubsecondsRoundTrip: for intervals that are not negative; the source shifts a negative number to the left for the others, which C leaves undefined.
- OS_SelectSingle_Impl only sets up one descriptor for OS_DoSelect.
- Memory exhaustion, the generated stub files, sockets, file systems, loaders, DNS, semaphores, timers and the message formatting of the assert library: foreign calls, repeated patterns or output.

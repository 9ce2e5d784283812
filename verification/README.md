# vcuda-controller: the shared GPU-memory ledger and its quota

Processes that use a GPU through vcuda-controller share two arrays in System V shared memory. The first is a
process table, an open-addressing hash table with linear probing and tombstones, keyed by pid and start time.
The second is a slab of record slots. Each process's records form a singly linked chain threaded through the
slab by integer indices. An intercepted allocator reads the total usage of the live processes, compares it with
a limit, calls the driver and then records the allocation; an intercepted free unregisters first. No lock is
taken.

The model has these parts.

- `Words`, `Slots`, `Rows`: 64-bit words, slots, rows. Sums that the program takes in `size_t` are taken modulo
  2^64.
- `ProbeTable`, `ProbeCoverage`: the hash, the probe sequence, and the table as a partial map.
- `Chains`, `Store`, `Refinement`, `Capacity`: chains, the two arrays as one value (`Store`), what adding and
  removing a record do to it, and the ledger it stands for.
- `ReRegistration`, `HeadRemoval`, `UsageWalk`: the operations as written where they leave that ledger.
- `FreeSlots`, `RowRoom`: what adding and removing do to every slot, the links of free slots, and when the table has
  a row for a key.
- `Usage`, `Handles`, `MapLaws`: byte totals, and records read through a process's memory.
- `Resource`: class `RNM`, the operations on the arrays in place, each proved against the functions of `Store`.
- `Admission`, `Readings`, `Hijack`: the 64-bit comparisons, what a usage reading must be for them to keep the
  quota, and the intercepted calls run without interruption.
- `Protocol`, `Quota`: any number of processes, each intercepted call split at its accesses to the table and to
  the driver, all interleavings, with the real `Store` as the shared state.
- `Mirror`, `Holdings`: the ledger against what the driver holds, and that against the limits, on runs that keep
  to a few more rules.
- `AsWritten`: the same protocol with the program's own usage count and removal, and the exact conditions under
  which the quota survives them.
- `Reachable`: what else holds in every reachable state, with the intended operations and the program's own.
- `Scenarios`, `WholeCalls`: whole calls as runs, what each leaves of the store, the process and the driver.
- `Witnesses`, `FreeRace`: reachable states in which something fails.

## Conventions

- Index -1 ends a chain. The walks of `find_gmem` and `remove_gmem_by_dptr` (src/resource.cxx:260, 314) test
  slot -1 for emptiness; the model takes that test as "the end is reached".
- `GMem.ptr` is the address of the caller's variable and is dereferenced when handles are compared
  (src/resource.cxx:261, 318). The model does the same: a comparison reads the calling process's memory, a map
  from addresses to words, so a record changes its handle when its variable is overwritten.
- `RNM.RemoveGmem` advances the entry of the row past a removed head. The program does not
  (src/resource.cxx:319-320): `RNM.RemoveGmemAsWritten` is that version. The two agree exactly when the handle is
  not the head of the chain (`RemoveAsWrittenExact`), and `HeadRemoval` says what a head removal does.
- `RNM.GmemUsed` follows the links. The program steps to the successor of the slot numbered like the row
  (src/resource.cxx:353): `RNM.GmemUsedAsWritten` is that version. `WalkEndsExact` says exactly when it returns,
  `UsageAsWrittenExact` exactly when it is right, and `AsWrittenReadingExact` exactly when it keeps the quota.
- `RNM.AddGmem` is as written, re-registration of a handle already on the chain and the null pointer of a full
  table included. `ReRegistrationExact` says exactly when the chain survives.
- `process_exist` is the set of live keys. A key never comes back, since the start time is part of it.

`Protocol.Enabled` is what the quota theorems assume of a run. Processes write their memory as they like, the
driver answers with any handle, and frees may fail. What is assumed, and what happens otherwise: no admission
sum wraps to within the limit (`WrapExact`); a process records only where the program survives it, which leaves
out a full table (a null pointer is dereferenced) and a handle that is already on the chain and not its last
record (the chain becomes a cycle, `ReRegistrationExact`, `VariableReusedCycles`). `Mirror.Orderly` adds what
only the mirror needs: the driver does not give out a handle that is in use or still recorded, and a process
does not overwrite a variable that one of its records names. When a process exits, the driver lets go of what it
held and its records become stale.

## Model

| member | source | states |
|---|---|---|
| ProbeTable.FindRefinesLookup | src/resource.cxx:167-182 | under the table invariant the search returns the one row of the key, or null exactly when the key is not in the table, whatever tombstones are on the path |
| ProbeTable.InsertLands | src/resource.cxx:149-165 | the insertion takes the first probe that is free, a tombstone or its own; null means every probe met another key |
| ProbeTable.InsertRefinesUpdate | src/resource.cxx:149-165 | inserting an absent key keeps the invariant and adds exactly one binding to the map the table stands for |
| ProbeTable.DeleteRefinesRemoval | src/resource.cxx:184-189 | deleting removes exactly that binding and keeps every other key reachable |
| ProbeTable.BlindInsertExact | src/resource.cxx:149-165 | inserting without a search keeps one row a key exactly when the key is absent or the insertion does not land on a tombstone |
| ProbeTable.BlindInsertDuplicates | src/resource.cxx:152-156 | a concrete table on which it gives a key two rows |
| ProbeTable.TableRunKeeps | src/resource.cxx:276-294 | every table reached by searching before inserting, and deleting, has unique keys and intact probe paths |
| ProbeTable.EnrolAdds | src/resource.cxx:276-294 | searching and then inserting adds one binding, with an empty entry, exactly when the key is absent and a row can be had; otherwise nothing changes |
| ProbeTable.DropRemoves | src/resource.cxx:184-189 | deleting removes that binding alone and leaves a tombstone that keeps the key and the entry |
| ProbeTable.TableRunRegisters | src/resource.cxx:149-294 | a run that never lacks a row registers exactly the keys whose last operation enrols them |
| ProbeTable.RowStays | src/resource.cxx:149-294 | a key's row keeps its place and its contents until the key is dropped, whatever else the run does |
| ProbeCoverage.SeedIs | src/resource.cxx:136-142 | the sign-extended, shifted and wrapped seed is pid * 64 + start time modulo 2^64 |
| ProbeCoverage.ProbeVisitsOnce | src/resource.cxx:144-147 | row p is probed at step (p - seed) mod n and at no other |
| ProbeCoverage.CoverageExact | src/resource.cxx:136-147 | the probes cover the table exactly when seed + length does not wrap at 2^64 or the length divides 2^64 |
| ProbeCoverage.InsertFailsExactly | src/resource.cxx:149-165 | with covering probes insertion fails exactly when every row is in use by another key |
| ProbeCoverage.InsertFailsEarly | src/resource.cxx:149-165 | for every other key and length there is a table with a free row on which insertion fails |
| ProbeCoverage.DefaultKeyMissesRows | src/resource.cxx:27-32 | the default key (-1, 0) has seed 2^64 - 64 and its probes do not cover the default 101 rows |
| ProbeCoverage.RealKeysDoNotWrap | src/resource.cxx:136-147 | pids of at least zero with ordinary start times have covering probes |
| Store.RoomExact | src/resource.cxx:149-165 | there is a row for a key exactly when it has one or one of its probes meets a row not in use |
| Store.EnteredEnrols | src/resource.cxx:276-294 | where there is room, finding or creating the row is the enrolment of the table runs |
| RowRoom.KeysCount | src/resource.cxx:149-165 | as many keys as rows in use |
| RowRoom.RoomCounted | src/resource.cxx:149-165 | with covering probes there is a row for a key exactly when it has one or fewer keys than rows are registered |
| RowRoom.SearchIsInsertion | src/resource.cxx:149-182 | without tombstones an insertion lands on the row the search finds |
| Chains.NoRepeat | src/resource.cxx:239-244 | a chain that ends visits no slot twice |
| Chains.ChainBound | src/resource.cxx:239-267 | a chain has at most as many links as the slab has slots, the measure of every walk |
| Chains.ChainUnlink | src/resource.cxx:311-327 | unlinking the i-th link leaves the chain with that one link dropped and the order kept, wherever it was |
| Store.FirstEmptyFrom | src/resource.cxx:227-237 | first fit: the least empty slot, -1 exactly when there is none |
| Store.FindRec | src/resource.cxx:258-267 | the search finds the first record whose variable holds the handle, and misses only if none does |
| Store.RowUpdateWF | src/resource.cxx:227-343 | a change confined to one row and its chain keeps every chain finite, in bounds, on filled slots and disjoint |
| Refinement.AddRefinesLedger | src/resource.cxx:269-309 | registering a fresh handle, or the last one again, is one update of the map from processes to records and keeps the invariant |
| Refinement.AddIsolated | src/resource.cxx:269-309 | a process that adds leaves every other process's row, slots and records identical, for every handle, also when its own chain becomes a cycle |
| Refinement.AddOverwrites | src/resource.cxx:278-289 | a handle already on the chain, at any position: its slot holds the new address and bytes, no other slot's do, no row changes, and the only link that changes is that of the tail, to that slot |
| Refinement.StoresExact | src/resource.cxx:278-289 | a handle that is fresh or last has a record afterwards exactly when a slot is free or it had one before |
| Refinement.AddToFullSlab | src/resource.cxx:227-255 | with no free slot, adding changes no slot, chain or record; linking -1 rewrites what was there |
| Refinement.RemoveRefinesLedger | src/resource.cxx:311-343 | unregistering is one deletion from the ledger, and the chain loses that one link; the entry advances past a removed head, which lines 319-320 omit |
| Refinement.RemoveIsolated | src/resource.cxx:311-343 | a process that removes leaves every other process's row, slots and records identical |
| Refinement.AddThenRemove | src/resource.cxx:269-343 | adding a fresh handle and removing it restores every chain, every record sequence and the set of empty slots |
| ReRegistration.ReRegistrationExact | src/resource.cxx:278-289 | as written, the chain still ends, and everything stays well formed, exactly when the handle was not on the chain or was its last record |
| ReRegistration.ReRegisterLast | src/resource.cxx:246-289 | re-registering the last record changes its address and bytes and no link |
| FreeSlots.AddFills | src/resource.cxx:227-255 | a fresh handle fills the first empty slot, last on its chain, and no other slot's address, bytes or link changes |
| FreeSlots.RemoveEmpties | src/resource.cxx:311-327 | removing empties one slot, which keeps its bytes and loses its successor; the link before skips it; no other slot's address, bytes or link changes |
| FreeSlots.FreeSlotsUnlinked | include/gmem.hpp:26-62 | a slot without a record has no successor: initially, and after every addition and every removal, as written too and at every position |
| FreeSlots.WalkEndsWhere | src/resource.cxx:352-355 | the written walk of a row ends exactly when the row has no record, or the slot of the row's number exists and is free or holds some row's last record |
| FreeSlots.FirstAllocationCounted | src/resource.cxx:63-361 | after one allocation on fresh arrays of any lengths by any key the written walk ends exactly when the slab has a slot of the row's number, then with the request's bytes, and the total is the true usage |
| FreeSlots.ReRegisteredHeadBytes | src/resource.cxx:278-355 | after a handle is registered again the count as written reads the new bytes exactly where it was the first record |
| ReRegistration.VariableReusedCycles | src/resource.cxx:278-289 | allocating into two variables and then into the first again makes the chain a cycle |
| ReRegistration.RemoveAsWrittenExact | src/resource.cxx:311-343 | removal as written agrees with the intended one, and keeps the invariant, exactly when the handle is not the head |
| HeadRemoval.HeadRemovedAsWritten | src/resource.cxx:311-361 | after a head removal as written the process has no reachable record, its entry names an empty slot with no successor, and both the link walk and the count as written read exactly the freed bytes there |
| HeadRemoval.HeadRemovedReadingExact | src/resource.cxx:311-361 | that reading is right exactly when the freed bytes equal all the bytes left |
| HeadRemoval.AllocateThenFree | src/resource.cxx:269-361 | one allocation and its free by a process without records: the link walk and the count as written still charge its bytes though nothing is held |
| HeadRemoval.RemoveAsWrittenIsolated | src/resource.cxx:311-343 | removal as written, at any position, leaves every other process's row, slots and records identical |
| HeadRemoval.RemoveAsWrittenLeaks | src/resource.cxx:311-343 | removal as written leaks slots exactly when it takes the head of a chain with more than one record |
| HeadRemoval.AddThenRemoveAsWritten | src/resource.cxx:269-343 | as written, the round trip of a fresh handle is the intended one exactly when the process already had records |
| HeadRemoval.FreedHeadShared | src/resource.cxx:227-327 | after a head removal as written, another process's next record leaves the two rows apart exactly when it does not go to the freed head's slot |
| HeadRemoval.OwnNextAllocation | src/resource.cxx:227-289 | the process's own next record makes the store well formed again exactly when it goes to the freed head's slot; from any other slot the search for the tail runs to index -1 |
| HeadRemoval.TailFound | src/resource.cxx:239-244 | on a chain the search for the tail stops at the last link |
| Capacity.CapacityExact | src/resource.cxx:227-237 | as many occupied slots as records; a push fails exactly when that number is the slab's length |
| Capacity.AddNoLeak | src/resource.cxx:269-309 | adding keeps every filled slot on some chain |
| Capacity.RemoveNoLeak | src/resource.cxx:311-343 | removing keeps every filled slot on some chain |
| Capacity.DeleteRowLeaks | src/resource.cxx:184-189 | deleting a row keeps the invariant and leaks slots exactly when the process still has records |
| Capacity.DeleteRowForgets | src/resource.cxx:184-189 | deleting a row takes its key off the ledger and leaves every slot and every other chain |
| Capacity.InitialOK | src/resource.cxx:63-88 | freshly initialised arrays satisfy the invariant, have the lengths asked for and register nobody; every slot is empty, without bytes or successor |
| Usage.UsedIsLedgerTotal | src/resource.cxx:345-361 | the walk over rows and chains totals the live processes' records, whatever rows they are in |
| Usage.RoundTripUsage | src/resource.cxx:269-361 | a fresh registration raises usage by its bytes if its process lives, and removing it restores the reading |
| Usage.FullSlabUsage | src/resource.cxx:227-309 | a failed push leaves every usage reading as it was |
| Usage.LinkReadingExact | src/resource.cxx:352-355 | following the links without looking for empty slots adds up exactly the process's records |
| UsageWalk.WalkEndsExact | src/resource.cxx:352-355 | the inner loop as written, round by round, ends exactly when the row has no record or the slot numbered like the row has no successor |
| UsageWalk.EndedWalkAddsHead | src/resource.cxx:352-355 | when it has ended, after however many rounds, it has added the first record and nothing else |
| UsageWalk.UsageAsWrittenExact | src/resource.cxx:345-361 | the total of first records is the true one exactly when all later records weigh nothing, and the same 64-bit word exactly when they add up to a multiple of 2^64 |
| Handles.FirstMatchExact | src/resource.cxx:311-327 | stopping at the first match removes every match exactly when there is at most one |
| Handles.HandleMapRemove | src/resource.cxx:311-343 | on a chain without repeated handles, removing deletes one entry from the map of handles to bytes |
| Handles.AddRefinesHandles | src/resource.cxx:269-309 | registering a fresh handle with a free slot adds exactly one entry to its process's map of handles to bytes |
| Handles.RemoveRefinesHandles | src/resource.cxx:329-343 | unregistering a handle deletes exactly that entry, wherever its record was |
| Handles.HandleMapTotal | src/resource.cxx:345-361 | the chain's bytes are the bytes of that map |
| Resource.RNM.constructor | src/resource.cxx:51-88 | creates both arrays in the initial state |
| Resource.RNM.InsertRnode | src/resource.cxx:149-165 | writes the value at the insertion position and nowhere else, or changes nothing and returns null |
| Resource.RNM.FindRnode | src/resource.cxx:167-182 | returns what the specified search returns |
| Resource.RNM.DeleteRnode | src/resource.cxx:184-189 | leaves a tombstone and keeps the invariant |
| Resource.RNM.Contain | src/resource.cxx:191-193 | true exactly for the keys of the ledger |
| Resource.RNM.PushGmem | src/resource.cxx:227-237 | fills the first empty slot, or changes nothing and returns -1 |
| Resource.RNM.LastRec | src/resource.cxx:239-244 | returns the last link of the chain in at most as many calls as there are slots |
| Resource.RNM.LinkRnodeGmem | src/resource.cxx:246-255 | makes the index the entry of an empty chain or the successor of its tail, unless it is the tail |
| Resource.RNM.FindGmem | src/resource.cxx:257-267 | returns the first link holding the handle, or -1, in at most as many steps as there are slots |
| Resource.RNM.AddGmem | src/resource.cxx:269-309 | faults, with nothing written, exactly when no row can be had (`RoomExact`); otherwise performs the specified addition as written (`AddFills`, `AddOverwrites`), and the invariant survives exactly when the handle was fresh or last |
| Resource.RNM.RemoveGmemByDptr | src/resource.cxx:311-327 | unlinks the first match only, as `RemoveEmpties` says slot by slot, in at most one call more than there are slots |
| Resource.RNM.RemoveGmem | src/resource.cxx:329-343 | performs the specified removal, with the entry moved past a removed head, and keeps the invariant |
| Resource.RNM.RemoveGmemAsWritten | src/resource.cxx:311-343 | the same without moving the entry; keeps the invariant exactly when the handle is not the head |
| Resource.RNM.AddChainBytes | src/resource.cxx:352-355 | adds one chain's bytes modulo 2^64 in at most as many steps as there are slots, following the links |
| Resource.RNM.GmemUsed | src/resource.cxx:345-361 | the live processes' total modulo 2^64, following the links |
| Resource.RNM.AddHeadBytes | src/resource.cxx:352-355 | the inner walk as written: however long one waits it returns exactly when it ends, having added the first record modulo 2^64, and it leaves the slab exactly when the row's number or the link of that slot does |
| Resource.RNM.GmemUsedAsWritten | src/resource.cxx:345-361 | as written: it returns exactly when every inner walk ends, with the total of first records modulo 2^64 |
| Admission.AdmitsExact | src/hijack_call.c:88-98 | the 64-bit test agrees with exact arithmetic exactly when the sum does not wrap to within the limit |
| Admission.FreeReportedExact | src/hijack_call.c:377-387 | a request is admitted exactly when it fits the reported free memory, exactly when the sum does not wrap |
| Admission.ReadingExact | src/hijack_call.c:91-98 | a test on any reading keeps every request that does not wrap within the limit exactly when the reading is at least what is recorded |
| Admission.AnyRequestExact | src/hijack_call.c:91-98 | wrapping requests included, exactly when nothing is recorded and either the reading is zero or the limit is 2^64 - 1 |
| Admission.OverLimitAdmitsNothing | src/hijack_call.c:377-387 | past the limit zero bytes are reported free and nothing is admitted |
| Hijack.CuMemAlloc | src/hijack_call.c:65-132 | out of memory exactly when the test fails; otherwise the driver's answer, a crash exactly when no row can be had, and only on success the record of the request: a new handle is one more entry of the process's map of handles to bytes |
| Hijack.CuMemGetInfo | src/hijack_call.c:377-399 | total is the limit, and the reported free memory is what admission will grant |
| Hijack.CuMemFree | src/hijack_call.c:401-411 | the record goes whatever the driver answers: one entry less in the map of handles to bytes |
| Protocol.StepSafe | src/hijack_call.c:65-132 | every step of every process keeps the structure and every process's quota |
| Protocol.RunSafe | src/hijack_call.c:65-132 | so does every run |
| Protocol.ReachedSafe | src/resource.cxx:63-88 | every state reached from initialised arrays has both |
| Quota.QuotaHolds | src/hijack_call.c:65-157 | over all interleavings, recorded plus approved bytes are within each process's limit, and the live total within the sum of live limits |
| Quota.CommonLimitHolds | src/hijack_call.c:65-157 | with one limit and no check while another live process has bytes approved and not yet recorded, the live total never exceeds that limit |
| Quota.CommonLimitExact | src/hijack_call.c:91-98 | in every safe state within the limit, checks keep the live total within it, whatever is requested, exactly when no live process has bytes approved and not yet recorded |
| Quota.CapacityHolds | src/resource.cxx:227-237 | in every reachable state occupied slots are exactly the records |
| Reachable.ReachedShaped | src/resource.cxx:63-361 | in every reachable state the arrays have their lengths, no row is a tombstone, so that searching first and inserting agree, no free slot has a successor, a push fails exactly at as many records as slots, and the written walk of a row ends exactly by the slot of its number |
| Reachable.RowForEveryProcess | src/resource.cxx:276-297 | while no more processes have started than there are rows, no process with covering probes is without a row, so that the null pointer is never dereferenced |
| Reachable.FullForEver | src/resource.cxx:149-165 | once every row is in use, a process without a row never gets one in any run, whoever exits |
| Reachable.CountReturnsExact | src/resource.cxx:345-361 | with the program's own count and removal, in every state harmless steps reach, the count returns exactly when each live row with records has a slot of its number that is free or holds some row's last record |
| Readings.AnyReadingExact | src/hijack_call.c:91-98 | in every safe state, whatever computed the reading, a check keeps the quota for every request that does not wrap exactly when the reading is at least what the process has recorded |
| Readings.AsWrittenReadingExact | src/resource.cxx:345-361 | so the count as written keeps it exactly when it covers the process's records; while it fits a word, exactly when the records after the process's first weigh no more than the first records of the other live processes |
| Readings.TrueReadingKeeps | src/hijack_call.c:91-98 | the true reading always does |
| Readings.ZeroUsageCheckExact | src/hijack_call.c:159-169 | the allocator that takes usage as zero keeps the quota for every request exactly when nothing is recorded |
| Readings.AnyRequestKeepsExact | src/hijack_call.c:91-98 | wrapping requests included, any reading keeps the quota exactly when the process has recorded nothing and either the reading is zero or the limit is 2^64 - 1 |
| Readings.WrapExact | src/hijack_call.c:91-98 | for the true reading, exactly when nothing is used at all, or the process has recorded nothing under the limit 2^64 - 1 |
| Mirror.StepAccounted | src/hijack_call.c:65-132 | every orderly step keeps handles unique on each chain and the driver's and the ledger's holdings equal up to two accounts |
| Mirror.ReachedAccounted | src/hijack_call.c:65-132 | so does every orderly run from the start |
| Mirror.AccountsExact | src/hijack_call.c:401-420 | at rest the two accounts are exactly the driver's handles without a record and the recorded handles the driver does not hold; on common handles the bytes agree |
| Mirror.MirrorExact | src/hijack_call.c:65-132 | at rest a process has recorded what the driver holds exactly when both accounts are empty |
| Mirror.FaithfulExact | src/hijack_call.c:65-132 | from a state with empty accounts a step leaves them empty exactly when it is not a record for which there is no slot, a failed free of a live handle, or the destruction of an array |
| Mirror.MirrorHolds | src/hijack_call.c:65-132 | after any orderly run without such steps, the records of a live process at rest are the driver's live allocations |
| Mirror.BytesConserved | src/hijack_call.c:65-132 | after any orderly run, with full slabs, failed frees and destroyed arrays, the driver's bytes plus stale bytes are recorded plus unrecorded bytes plus the pending grant; during a free, the same without the freed handle |
| Holdings.DriverWithinLimit | src/hijack_call.c:65-157 | in every state of an orderly run, during a free too, what the driver holds for a process is within its limit plus what is unrecorded, which at rest is what it holds under handles without a record |
| Holdings.DriverTotalHolds | src/hijack_call.c:65-157 | with one limit and no check inside another process's allocation or free, what the driver holds for all live processes together is within that limit plus what is unrecorded |
| AsWritten.UnregisterExact | src/resource.cxx:311-343 | a free with the program's own removal keeps the structure and every quota exactly when its handle is not the process's first |
| AsWritten.CheckExact | src/resource.cxx:345-361 | checks with the program's own count keep every quota, whatever is requested, exactly when that count covers the process's own records |
| AsWritten.ReadingTrueExact | src/resource.cxx:345-361 | what a check with the program's own count reads is the true usage, as a word, exactly when the records after first ones add up to a multiple of 2^64 |
| AsWritten.CheckPossibleExact | src/resource.cxx:352-355 | a process at rest is held up at its check, whatever it requests, exactly when the count does not return |
| AsWritten.QuotaHoldsAsWritten | src/hijack_call.c:65-157 | with the program's own count and removal, over all interleavings of steps that meet those two conditions, every process is within its limit and the slab holds exactly the records |
| Scenarios.InterleavedChecksPassCommonLimit | src/hijack_call.c:91-104 | two processes that both check before either records pass a common limit |
| Scenarios.WholeAllocation | src/hijack_call.c:88-111 | an uninterrupted allocation is check, grant and record in a row; it stores what the whole call stores, and leaves the handle in the variable and with the driver, unrecorded exactly when there was no slot for it |
| Scenarios.WholeFree | src/hijack_call.c:401-411 | an uninterrupted free is unregister and driver free in a row; the record goes either way, and after a refusal the driver holds the handle without a record |
| WholeCalls.WholeRejection | src/hijack_call.c:94-98 | a request past the limit leaves everything as it was |
| WholeCalls.WholeRefusal | src/hijack_call.c:100-111 | so does a request that passes the check and that the driver refuses |
| WholeCalls.WholeDestruction | src/hijack_call.c:413-420 | destroying an array takes the handle from the driver and from no record, so that the bytes stay charged |
| WholeCalls.WholeExit | src/resource.cxx:345-361 | an exit drops exactly the process's share from the usage reading, though its records keep their slots |
| WholeCalls.WholeWrite | src/resource.cxx:258-267 | overwriting a variable changes no record; a record that names it answers to the new value |
| WholeCalls.WholeFreeAsWritten | src/resource.cxx:311-343 | a whole free with the program's own removal, at every position and for either answer of the driver; away from the head it is a safe run |
| WholeCalls.WholeRejectionAsWritten | src/hijack_call.c:94-98 | with the program's own count, a request past the limit leaves everything as it was |
| WholeCalls.WholeAllocationAsWritten | src/hijack_call.c:88-111 | with the program's own count, an uninterrupted allocation within its reading stores what the whole call stores |
| Witnesses.CountNeverReturns | src/resource.cxx:352-355 | two allocations after which the usage count as written never returns |
| Witnesses.CountAdmitsPastLimit | src/resource.cxx:345-361 | two allocations after which it returns six for ten recorded bytes, and a process at its limit is approved for more |
| Witnesses.WrappedRequestApproved | src/hijack_call.c:91-98 | two allocations after which a request of 2^64 - 5 bytes passes the check of a process at its limit |
| Witnesses.FullSlabLeavesGap | src/resource.cxx:227-255 | an orderly run after which the driver holds bytes of which the ledger has nothing |
| Witnesses.HeadRemovalLeaks | src/resource.cxx:318-320 | two allocations after which freeing the first as written leaks the other's slot |
| Witnesses.RowsShareSlot | src/resource.cxx:227-327 | two processes, one of which frees its only handle as written; the other's next record makes their rows share a slot |
| Witnesses.NextRecordRunsOff | src/resource.cxx:239-254 | a process that freed its only handle as written, with an earlier slot free: its next record sends the search for the tail to index -1 |
| FreeRace.FreeLetsDriverPass | src/hijack_call.c:401-411 | an orderly run with no check inside an allocation but one inside a free, after which the driver holds more than the common limit |

## Left out

- Slots and rows as objects: they lie inline in the arrays, so they are values stored back at an index; the pointer to a row that the program passes around is the row's index.
- Refinement.RemoveRefinesLedger: the removal that advances the entry past a removed head, which the program omits; RemoveAsWrittenExact says when the written one is the same, HeadRemoval what it does otherwise.
- Refinement.RemoveIsolated: the same removal; RemoveAsWrittenIsolated is the written one.
- Refinement.AddThenRemove: the same removal; AddThenRemoveAsWritten says when the written one does as well.
- Capacity.RemoveNoLeak: the same removal; RemoveAsWrittenLeaks is the written one.
- Handles.RemoveRefinesHandles: the same removal.
- Resource.RNM.RemoveGmem: the same removal; RNM.RemoveGmemAsWritten is the written one.
- Usage.UsedIsLedgerTotal: the count that follows the links, where line 353 steps with the row's index; UsageAsWrittenExact compares the two.
- Usage.RoundTripUsage: the count that follows the links and the removal that advances the entry.
- Resource.RNM.AddChainBytes: follows the links; RNM.AddHeadBytes is the walk as written.
- Resource.RNM.GmemUsed: follows the links; RNM.GmemUsedAsWritten is the count as written.
- Hijack.CuMemAlloc: reads the count that follows the links; AnyReadingExact says what any other reading does to the quota. One method for the allocators that share its body; the three handle types are one 64-bit word, since the ledger compares them as words.
- Hijack.CuMemGetInfo: reads the count that follows the links.
- Hijack.CuMemFree: calls the removal that advances the entry.
- Protocol.StepSafe: each table operation is one atomic step; torn reads and writes inside an operation are not modelled. Checks read the count that follows the links and frees use the removal that advances the entry; AsWritten has the program's own.
- AsWritten.QuotaHoldsAsWritten: only runs whose counts return and cover the process's own records, and whose frees are not of a process's first handle; UnregisterExact and CheckExact say that these are the conditions.
- Quota.QuotaHolds: without `cuMemAllocPitch`, which takes usage as zero (src/hijack_call.c:162); ZeroUsageCheckExact says what that costs.
- Quota.CommonLimitHolds: bounds recorded and approved bytes; DriverTotalHolds bounds what the driver holds, which needs that no check falls inside another process's free (FreeLetsDriverPass).
- Mirror.MirrorHolds: array and mipmap destruction is excluded, since it never unregisters; BytesConserved accounts for it as stale bytes.
- Shared-memory creation and attachment, the copy constructor and destructor of RNM, and RNM_init.
- Reading /proc for start times and for process_exist; the key is given and liveness is a set.
- Parsing the limit from the environment; each process has a constant limit.
- Request sizes of pitched memory and arrays: products and a switch, taken as an input.
- cuDeviceTotalMem, cuInit and the forwarding stubs of src/cuda_originals.c; src/loader.c.
- Printing and logging.

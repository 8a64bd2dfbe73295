# Filter store of the interception driver, in Dafny

This project models the filter store of the driver. A filter is a rule registered for one
intercepted operation: it belongs to a group, carries a verdict and a wish mask of
parameters to collect, and holds a list of parameter predicates. When an event arrives,
the store evaluates the predicates of the filters registered for the event's operation. Each
group's first surviving filter then contributes its verdict and wish mask.

Two versions of the store are modelled.

**The current store** (`drv/fltstore.cpp`):
- `Filters` is the per-operation filter set. It holds:
  - the growable slot array `m_FiltersArray` and its count `m_FilterCount`;
  - two 256-bit maps, `m_ActiveFilters` (live slots) and `m_GroupsMap` (groups seen), with `m_GroupCount`;
  - the deduplicated predicate list `m_ParamsCheckList`. Each predicate lists the slot positions that depend on it.
- `FiltersTree` is the process-wide index. It maps an (interceptor, operation, minor code, operation point) key to its `Filters`. It also holds the shared filter-id counter and the active/paused flag.

**The older store** (`trunk/drv/fltstore.cpp`): a list-based filter set and a tree whose key comparison looks only at a pointer-sized prefix of the key.

Modules:
- `NtDefs`: NTSTATUS codes and the fixed-width integers.
- `FltStoreLayout`: the record layouts of `trunk/drv/fltstore.h`.
- `FltKeys`: the tree key as the bytes `memcmp` compares.
- `FltPredicates`: predicate evaluation and the deduplicated predicate list, as values.
- `FltVerdict`: what `GetVerdict` decides, as values.
- `FltStore`: the current store's two classes.
- `TrunkFltStore`: the older store.

How the model represents the source:
- The bitmaps are `array<bool>` fields that the methods update in place.
- The slot array and the predicate list are `seq` fields that the methods reassign.
- The static members of `FiltersTree` are fields of one object.
- The source's loops over arrays, bitmaps and the predicate list are `while` loops with their invariants.
- The scan over a predicate's packed literals is the recursive function `FltPredicates.ScanLiterals`.
- The older store's `GetVerdict` walk over its predicate list has no effect and is not modelled (see Left out).
- Each method is proved against a function on values: `GetVerdict` against `FltVerdict.Decide`, and the add-filter chain against `FltPredicates.AttachAll`. The lemmas about those functions state what the store promises.

Things the driver gets from outside become parameters:
- Each pool allocation's outcome is a `bool` (`allocOk`, `posAllocOk`, `allocs`, `nodeAllocOk`, `filtersAllocOk`).
- The rundown-protection acquisition in `AddRef` is the `bool` `acquired`.
- `EventData::QueryParameter` is `EventData`, a function from a parameter id to the parameter's bytes or an error status.

## Model

| member | source | states |
|---|---|---|
| FltStoreLayout.FltData.ItemSize | trunk/drv/fltstore.h:8-13 | the width of one literal (`m_DataSize / m_Count`), times the literal count, fits in the data block |
| FltStoreLayout.FltData.Literal | drv/fltstore.cpp:137-150 | the k-th packed literal is exactly one literal width long |
| FltStoreLayout.BitsOfSet | drv/fltstore.cpp:663-667 | setting a clear bit adds exactly that index and raises the count of set bits by one (the `m_GroupCount` step) |
| FltKeys.KeyBytes | drv/fltstore.cpp:16-24 | the key image is FIELD_OFFSET(ITEM_FILTERS, m_Filters) = 16 bytes long |
| FltKeys.KeyRoundTrip | drv/fltstore.cpp:16-24 | reading the four fields back from the key image gives the key |
| FltKeys.KeyBytesInjective | drv/fltstore.cpp:16-24 | two keys have the same image exactly when all four fields are equal |
| FltKeys.MemCmp | drv/fltstore.cpp:728-732 | memcmp gives -1, 0 or 1, and 0 exactly when the compared prefixes are equal |
| FltKeys.MemCmpAntisymmetric | drv/fltstore.cpp:728-732 | swapping the operands of memcmp flips the sign |
| FltKeys.MemCmpTransitive | drv/fltstore.cpp:728-732 | "less than" under memcmp is transitive |
| FltKeys.CompareBytes | drv/fltstore.cpp:734-751 | the switch on memcmp: GenericEqual exactly when the prefixes agree, GenericLessThan exactly when memcmp is -1 |
| FltKeys.Compare | drv/fltstore.cpp:714-754 | FiltersTree::Compare returns GenericEqual exactly when the four key fields are equal |
| FltKeys.CompareIsOrder | drv/fltstore.cpp:714-754 | Compare is antisymmetric and transitive, as the AVL table needs |
| FltPredicates.ULongAndNonZero | drv/fltstore.cpp:162-170 | two little-endian ULONGs share a set bit exactly when one of their byte pairs does |
| FltPredicates.ScanLiterals | drv/fltstore.cpp:137-150 | the literal scan finds the observed bytes exactly when some remaining packed literal equals them |
| FltPredicates.AndMatches | drv/fltstore.cpp:154-177 | _fltop_and matches exactly when the observed size equals the literal size, that size is 4, and the two ULONGs share a bit |
| FltPredicates.Matches | drv/fltstore.cpp:129-181 | the operator switch agrees with the reference meaning `LiteralMatches`: equality with one literal, a shared bit, or never for other operators |
| FltPredicates.CheckSingleEntryUnsafe | drv/fltstore.cpp:104-196 | a failed query status is returned unchanged and never negated; otherwise the result is STATUS_SUCCESS or STATUS_UNSUCCESSFUL, and success exactly when "matches" differs from the negation flag |
| FltPredicates.FindExistingFrom | drv/fltstore.cpp:383-408 | the search finds the first entry from `from` on with the same operator, flags, data size and bytes; None means no such entry |
| FltPredicates.AttachAllSnoc | drv/fltstore.cpp:537-557 | attaching one more parameter after a run of them is one more AttachParam step |
| FltPredicates.AttachParamEffect | drv/fltstore.cpp:410-437 | a merge appends the position to the first matching entry and keeps its parameter id and data, leaving every other entry alone; otherwise one new entry holding only the position is appended at the tail |
| FltPredicates.AttachAllWellFormed | drv/fltstore.cpp:485-504 | after attaching, every entry still has `m_PosCount` equal to its list length and at least one literal |
| FltPredicates.AttachAllPositions | drv/fltstore.cpp:434-435 | after attaching, every stored position is either the new position or one an old predicate already held; so a bound met by the old positions and the new one bounds them all |
| FltPredicates.PredicateSharing | drv/fltstore.cpp:393-408 | two filters whose parameters carry the same operator, flags and bytes share ONE stored predicate holding both positions |
| FltPredicates.FindFirstAt | drv/fltstore.cpp:383-408 | the first entry with the same literal is the one the search returns |
| FltPredicates.MergeIgnoresParameterId | drv/fltstore.cpp:393-405 | the parameter id is not compared: a parameter merges into an entry on another parameter id, which keeps its own id |
| FltPredicates.CrossParameterMerge | drv/fltstore.cpp:392-410 | two filters whose predicates differ only in the parameter id share one predicate on the first id, and no stored predicate tests the second id |
| FltPredicates.IntendedAttachTestsOwnParameter | drv/fltstore.cpp:392-410 | with the parameter id also compared, the new position lands on a predicate with the parameter's own id and literal, and any entry that changes is one of that id gaining the position |
| FltVerdict.FailingPositionsMeaning | drv/fltstore.cpp:209-264 | a position is excluded by the predicates exactly when some failing predicate lists it |
| FltVerdict.SurvivorsFrom | drv/fltstore.cpp:326-330 | the surviving slots are in range and not excluded |
| FltVerdict.SurvivorsFromExact | drv/fltstore.cpp:326-330 | every slot below m_FilterCount that is not excluded is a survivor, and the survivors come in strictly ascending order, as the search meets them |
| FltVerdict.FoldKeepsLeaderVerdict | drv/fltstore.cpp:341-351 | the verdict of the first visited slot of each group is in the merged verdict |
| FltVerdict.FoldKeepsLeaderMask | drv/fltstore.cpp:341-351 | the wish mask of the first visited slot of each group is in the merged mask |
| FltVerdict.LeaderIsMerged | drv/fltstore.cpp:341-347 | a slot whose group has no earlier visited slot is not skipped |
| FltVerdict.FoldGroupsCarried | drv/fltstore.cpp:341-347 | every group recorded in the scratch group map is the group of a visited slot |
| FltVerdict.FoldVerdictWithin | drv/fltstore.cpp:350 | the merged verdict has no bit that no visited slot carries |
| FltVerdict.FoldMaskWithin | drv/fltstore.cpp:351 | the merged mask has no bit that no visited slot carries |
| FltVerdict.DistinctGroupsAllContribute | drv/fltstore.cpp:326-352 | when the visited slots are in pairwise distinct groups, the result is the OR over all of them |
| FltVerdict.FoldIsOrOfLeaders | drv/fltstore.cpp:341-351 | group priority, exactly: the merged verdict, wish mask and group set are the OR over the first visited slot of each group and over nothing else |
| FltVerdict.IntendedDecideCoversGroups | drv/fltstore.cpp:316-352 | with the group loop as intended, every group's first survivor contributes its verdict and wish mask |
| FltVerdict.IntendedDecideWithinSurvivors | drv/fltstore.cpp:316-352 | with the group loop as intended, no bit comes from a filter that did not survive |
| FltVerdict.TotalExclusion | drv/fltstore.cpp:292-311 | under the store invariant (no position past m_FilterCount): with no failing stale position equal to m_FilterCount, GetVerdict gives up exactly when there is a filter and every one is inactive or fails a predicate; with one, it gives up exactly when there is a filter and at most one filter survives |
| FltVerdict.FirstClear | drv/fltstore.cpp:330 | the lowest clear bit in a range, or the range end when every bit is set |
| FltVerdict.FindClearBitsFromHint | drv/fltstore.cpp:330 | RtlFindClearBits returns 0xFFFFFFFF exactly when every bit is set, and otherwise a clear bit of the whole 256-bit map |
| FltVerdict.AsWrittenVisits | drv/fltstore.cpp:324-330 | the loop as written makes exactly one search per iteration |
| FltVerdict.UnboundedSearchReadsPastArray | drv/fltstore.cpp:324-332 | with two slots and slot 0 excluded, the loop as written reads slot 2 of a two-slot array |
| FltVerdict.SkippedSlotLosesGroup | drv/fltstore.cpp:316-345 | with groups 1, 1, 2 the loop as written merges only group 1, while the intended merge ORs in both groups |
| FltVerdict.StaleAttachmentHidesLiveFilter | drv/fltstore.cpp:546-550 | a position left attached by a failed parse makes GetVerdict give up although a live filter matched |
| FltVerdict.ScenarioChecks | drv/fltstore.cpp:129-181 | an equality predicate fails exactly when the path differs; an AND predicate fails exactly when the pid lacks the bit |
| FltVerdict.ScenarioBothMatch | drv/fltstore.cpp:268-363 | two matching filters in two groups: the verdict is the OR of both and the mask is 0x3 |
| FltVerdict.ScenarioOnlyAudit | drv/fltstore.cpp:268-363 | only the second filter matches: its verdict and mask alone |
| FltVerdict.ScenarioNoMatch | drv/fltstore.cpp:268-363 | no filter matches: VERDICT_NOT_FILTERED and the caller's mask untouched |
| FltStore.SurvivorStep | drv/fltstore.cpp:326-330 | the next clear bit below m_FilterCount is the next surviving slot, and none left means no survivor is left |
| FltStore.Filters.constructor | drv/fltstore.cpp:26-52 | both maps clear, no slot, no group, no predicate; the store invariant holds |
| FltStore.Filters.AddRef | drv/fltstore.cpp:85-94 | NT_SUCCESS of the status exactly when the reference was acquired |
| FltStore.Filters.FindClearBit | drv/fltstore.cpp:330 | the search, bounded at m_FilterCount, returns the lowest clear bit at or after the hint |
| FltStore.Filters.CheckParamsList | drv/fltstore.cpp:199-265 | STATUS_NOT_FOUND exactly when the marks reach m_FilterCount; otherwise the bitmap holds the old marks plus every failing position, and `unmatched` counts them once each |
| FltStore.Filters.CheckList | drv/fltstore.cpp:215-264 | the walk over the list, with the same outcome as CheckParamsList |
| FltStore.Filters.CheckEntry | drv/fltstore.cpp:227-261 | a failing predicate marks its positions, a matching one marks nothing |
| FltStore.Filters.MarkPositions | drv/fltstore.cpp:238-261 | each position is marked and counted at most once; stops exactly when the count reaches m_FilterCount |
| FltStore.Filters.MarkPosition | drv/fltstore.cpp:240-260 | RtlCheckBit and RtlSetBit: one more mark, counted only when the bit was clear |
| FltStore.Filters.GetVerdict | drv/fltstore.cpp:268-363 | the verdict and mask are those of Decide: VERDICT_NOT_FILTERED with the mask untouched when every slot is excluded, otherwise the merge over the first m_GroupCount survivors |
| FltStore.Filters.MarkInactive | drv/fltstore.cpp:292-305 | marks exactly the inactive slots below m_FilterCount, and stops exactly when they are all of them |
| FltStore.Filters.GroupLoop | drv/fltstore.cpp:316-352 | the result is the merge over the first m_GroupCount surviving slots in ascending order |
| FltStore.Filters.GroupRound | drv/fltstore.cpp:326-351 | one iteration visits the next survivor, or reports that none is left below m_FilterCount |
| FltStore.MergeSlot | drv/fltstore.cpp:341-351 | a slot whose group is in the map changes nothing; otherwise its group is recorded and its verdict and mask are ORed in |
| FltStore.VisitedAll | drv/fltstore.cpp:326-352 | after its rounds, or when no slot is left, the loop has merged the first m_GroupCount survivors |
| FltStore.Filters.GetFilterPosUnsafe | drv/fltstore.cpp:564-606 | the lowest free slot below m_FilterCount; when there is none, the array grows by one zeroed slot at m_FilterCount, or STATUS_INSUFFICIENT_RESOURCES leaves it unchanged |
| FltStore.Filters.TryToFindExisting | drv/fltstore.cpp:367-450 | STATUS_NOT_FOUND on no match; a failed allocation leaves the entry unchanged; otherwise the position is appended to the first matching entry |
| FltStore.Filters.AddParameterWithFilterPos | drv/fltstore.cpp:453-515 | the list becomes AttachParam of the old one and the returned entry holds the position; NULL on a failed allocation, the list unchanged |
| FltStore.Filters.ParseParamsUnsafe | drv/fltstore.cpp:527-560 | the parameters before the first failed allocation stay attached; success exactly when none fails, STATUS_INSUFFICIENT_RESOURCES otherwise |
| FltStore.Filters.AddFilter | drv/fltstore.cpp:610-681 | keeps the store invariant. On success: a fresh id, the slot at m_FilterCount filled, busy and active, the group recorded and counted only when new, m_FilterCount + 1. On failure: no id drawn, counts and maps unchanged |
| FltStore.Filters.FillSlot | drv/fltstore.cpp:639-672 | once the zeroed slot exists: a failed parse changes only the predicate list; a successful one fills the slot and takes an id |
| FltStore.Filters.InstallFilter | drv/fltstore.cpp:650-669 | the slot gets the filter, its active bit and group bit are set, m_GroupCount grows only for a new group, m_FilterCount grows by one |
| FltStore.Filters.SetBit | drv/fltstore.cpp:661-667 | RtlSetBit sets exactly one bit and reports whether it was clear |
| FltStore.FirstFree | drv/fltstore.cpp:568-576 | the first non-busy slot below the count; every slot before it is busy |
| FltStore.FirstFailure | drv/fltstore.cpp:537-551 | the first failing allocation; every one before it succeeded |
| FltStore.GroupsOfSnoc | drv/fltstore.cpp:663-667 | a filter put at the next slot adds exactly its group to the groups of the slots |
| FltStore.AttachKeepsList | drv/fltstore.cpp:537-557 | attaching parameters at a position within the bound keeps the list well formed and within the bound |
| FltStore.GrownKeepsConsistent | drv/fltstore.cpp:600-603 | the zeroed slot past m_FilterCount and the positions attached to it keep the store invariant |
| FltStore.AddedKeepsConsistent | drv/fltstore.cpp:650-669 | a busy slot at m_FilterCount, its active bit and its group keep the store invariant for one more filter |
| FltStore.AsULong | drv/fltstore.cpp:653 | the LONG id stored in the ULONG m_FilterId is the same value modulo 2^32 |
| FltStore.IdAfterValue | drv/fltstore.cpp:830-836 | as a ULONG, each GetNextFilterid adds one modulo 2^32 |
| FltStore.IdsFromInitialize | drv/fltstore.cpp:699-701 | after Initialize the ids handed out are 1, 2, 3, ... |
| FltStore.IdsDistinct | drv/fltstore.cpp:830-836 | ids fewer than 2^32 calls apart differ |
| FltStore.FiltersTree.constructor | drv/fltstore.cpp:786-790 | the static state starts empty and zeroed: paused, counter 0 |
| FltStore.FiltersTree.Initialize | drv/fltstore.cpp:686-702 | an empty table, m_Count 0, paused, id counter 0, and IsActive is false |
| FltStore.FiltersTree.ChangeState | drv/fltstore.cpp:845-873 | always STATUS_SUCCESS; afterwards IsActive equals the argument |
| FltStore.FiltersTree.GetNextFilterid | drv/fltstore.cpp:830-836 | the counter moves to NextId and the new value is returned |
| FltStore.FiltersTree.GetFiltersBy | drv/fltstore.cpp:877-914 | never inserts; the stored set when the key is present and the reference is acquired, null otherwise |
| FltStore.FiltersTree.GetOrCreateFiltersBy | drv/fltstore.cpp:918-982 | a present key returns its stored set and leaves the table alone. A new key gets a node unless the node allocation fails, in which case the table is unchanged and the result is null. If the set allocation fails, or the new set refuses the reference and is destroyed, the node keeps a null set. Otherwise the node gets a fresh, empty, valid set |
| FltStore.FiltersTree.DeleteAllFilters | drv/fltstore.cpp:799-827 | the table is emptied and m_Count is 0 |
| TrunkFltStore.ComparedBytes | trunk/drv/fltstore.cpp:202-206 | the trunk compares exactly a pointer-sized prefix of the key |
| TrunkFltStore.CompareFields | trunk/drv/fltstore.cpp:189-228 | the trunk Compare is Equal exactly when the interceptors agree and, on x64, the operations agree |
| TrunkFltStore.MinorCodeIgnored | trunk/drv/fltstore.cpp:202-206 | two keys differing only in the minor code are Equal under the trunk Compare but not under the full-key Compare |
| TrunkFltStore.SharedNode | trunk/drv/fltstore.cpp:349-409 | keys with the same interceptor and operation land on one node, so they share one filter set |
| TrunkFltStore.Filters.constructor | trunk/drv/fltstore.cpp:22-39 | the active map clear, no filter, both lists empty |
| TrunkFltStore.Filters.Destroy | trunk/drv/fltstore.cpp:41-68 | every entry is removed, m_FilterCount is decremented once per entry and ends at 0 |
| TrunkFltStore.Filters.AddRef | trunk/drv/fltstore.cpp:70-76 | the status always passes NT_SUCCESS, and is STATUS_SUCCESS exactly when the reference was refused |
| TrunkFltStore.Filters.GetVerdict | trunk/drv/fltstore.cpp:85-119 | always VERDICT_NOT_FILTERED, and the caller's mask is not written |
| TrunkFltStore.Filters.AddFilter | trunk/drv/fltstore.cpp:121-158 | on success, a fresh id, the timeout and the wish mask go to the tail of the list and m_FilterCount counts the entries; a failed allocation draws no id and changes nothing |
| TrunkFltStore.FiltersTree.constructor | trunk/drv/fltstore.cpp:260-264 | the static state starts empty and zeroed |
| TrunkFltStore.FiltersTree.Initialize | trunk/drv/fltstore.cpp:162-177 | an empty table and the id counter at 0 |
| TrunkFltStore.FiltersTree.GetNextFilterid | trunk/drv/fltstore.cpp:297-304 | the counter moves to NextId and the new value is returned |
| TrunkFltStore.FiltersTree.GetFiltersBy | trunk/drv/fltstore.cpp:306-345 | never inserts; the set stored under the key's compared prefix, or null. The reference outcome cannot change it |
| TrunkFltStore.FiltersTree.GetOrCreateFiltersBy | trunk/drv/fltstore.cpp:347-409 | a present prefix returns its stored set; a failed node allocation leaves the table unchanged and returns null; a failed set allocation leaves a node holding null; otherwise the new node holds a fresh set with a clear active map, no filters and no predicates |
| TrunkFltStore.FiltersTree.DeleteAllFilters | trunk/drv/fltstore.cpp:272-295 | the table is drained to empty |

## Left out

**Runtime machinery not modelled**
- Rundown protection, the push locks, `Filters::Release` and the destructors' waits are concurrency machinery and are not modelled. `AddRef` is reduced to its outcome.
- Pool allocation and freeing are not modelled; each allocation is an outcome parameter.
- The packed `PARAM_ENTRY` run walked with `Add2Ptr` is a sequence of records.
- The RTL AVL table is a map from the key, or from the compared prefix in the older store, to the stored filter set.
  - Lookup by `Compare` is map lookup, which is sound because `FltKeys.Compare` is Equal exactly on equal keys.
  - `FiltersTree::Allocate`, `Free` and `Destroy` only manage memory and the lock; they are not modelled.
- `DeleteAllFilters`: `RtlEnumerateGenericTableAvl` takes the nodes in key order; the model removes them in an unspecified order. The end state is the same.
- `memcmp` is modelled as returning the sign of the first difference. The `__debugbreak` default of the switch in both `Compare`s therefore cannot be reached.
- `FiltersTree::GetCount` is not a separate member. It returns `m_Count`, which nothing but `Initialize` and `DeleteAllFilters` writes (both set 0).
- The drv `Filters` destructor only frees memory and is not modelled.
- The group-loop check `ASSERT(*ParamsMask)` (drv/fltstore.cpp:354) is not modelled.

**Preconditions added where the source has no check**
- FltStore.Filters.AddFilter: requires `m_FilterCount < 256`. The source has no such check. A 257th filter would set bit 256 of `m_ActiveFilters` (drv/fltstore.cpp:661), and `GetVerdict` would set bits past the end of its 256-bit scratch map (drv/fltstore.cpp:250, 297). `m_GroupsMap` is indexed by the UCHAR group id and cannot overflow.
- FltStore.Filters.AddFilter: requires every parameter to carry at least one literal. The source only asserts it (drv/fltstore.cpp:539), and the predicate check divides by that count.
- FltStore.Filters.AddFilter: requires the store invariant `Valid`. Under it no slot below `m_FilterCount` is free, so the slot is always the new one at `m_FilterCount`.
  - If a free slot below the count were reused, the unconditional `m_FilterCount++` would count that slot twice.
  - Nothing in this code frees a slot, because removal is not part of it.
- FltStore.Filters.AddFilter: the `ASSERT`s that the group, verdict and wish mask are non-zero are not required.
- FltStore.FiltersTree.GetFiltersBy: requires the node found to hold a filter set. The source dereferences it, but `GetOrCreateFiltersBy` can leave a node with NULL after a failed allocation.
- FltStore.FiltersTree.DeleteAllFilters: requires every node to hold a filter set, for the same reason. The source asserts it and then destroys the set.
- TrunkFltStore.FiltersTree.GetFiltersBy: requires non-null nodes, for the same reason.
- TrunkFltStore.FiltersTree.DeleteAllFilters: requires non-null nodes, for the same reason.

**Contracts stated weaker than the source**
- FltStore.Filters.GroupLoop: the search for the next slot is bounded at `m_FilterCount`; the source's RtlFindClearBits is not bounded (see Findings).
  - The `ASSERT`s that every visited slot is busy and active (drv/fltstore.cpp:334-339) are not stated as a contract.
  - Under `Valid`, every slot below `m_FilterCount` is busy and active, so the asserts hold for every slot the bounded loop visits.
- FltPredicates.CheckSingleEntryUnsafe: the `ASSERT(FALSE)` on a failed query is not modelled.
  - An `_fltop_and` literal of a width other than 4 hits `__debugbreak` in the source. Past the trap, the model treats it as a mismatch.
  - Its `ASSERT(m_Count == 1)` is not required.
- FltStore.Filters.TryToFindExisting: the merge path begins with a `__debugbreak` (drv/fltstore.cpp:411). The model follows the code after the trap.

**Stubs and mismatches in the source**
- FltStore.Filters.ParseParamsUnsafe: the rollback `DeleteCheckParamsByFilterPosUnsafe` is a `__debugbreak` stub (drv/fltstore.cpp:517-523). It is modelled as having no effect, so the positions attached before a failure stay attached.
- The trunk header disagrees with the trunk .cpp:
  - it names the count `m_FiltersCount`;
  - it declares an `AddFilter` with a `ProcessId` parameter.
  The model follows the .cpp. It also keeps the header's record layouts.
- The methods declared in the header without bodies (`CleanupByProcess`, `MoveFilterPosInParams`, `IsEmpty`, `DeleteParamsByFilterPosUnsafe`, `CleanupFiltersByPid`) are not modelled.
- The values of `VERDICT_NOT_FILTERED` (0) and `_PARAM_ENTRY_FLAG_NEGATION` (0x1) are taken as given. The headers that define them are not part of this model.
- FltStore.Filters.TryToFindExisting: the store keeps the merge test as written, which ignores the parameter id (see Findings). The corrected test is stated beside it as `FltPredicates.IntendedAttachParam` and is not wired into the store.

**The older store**
- TrunkFltStore.Filters.AddFilter: `m_FilterCount` is an unbounded count, so its 32-bit wrap is not modelled.
  - The fields of the list entry that AddFilter does not set are left out.
  - The parameters are ignored, as in the source.
- TrunkFltStore.Filters.GetVerdict: the empty walk over the predicate list has no effect and is not modelled.

## Findings

| source | as written | input that shows it | evidently intended | confidence | as-written member | corrected member |
|---|---|---|---|---|---|---|
| drv/fltstore.cpp:330 | the group loop finds the next slot with RtlFindClearBits over the whole 256-bit scratch map. Bits at and past m_FilterCount are never set there, so the search can return a position past the slot array | two filters in two groups, slot 0 excluded, m_GroupCount 2: the second search returns 2 and reads m_FiltersArray[2] of a two-slot array | the search stops at m_FilterCount and the loop ends when no slot is left | high, not executed | FltVerdict.UnboundedSearchReadsPastArray | FltStore.Filters.GroupLoop |
| drv/fltstore.cpp:326-345 | the loop runs m_GroupCount times, and a surviving slot whose group was already merged still uses up an iteration | filters in groups 1, 1, 2 all surviving: m_GroupCount is 2, the second iteration skips slot 1, and group 2 never contributes (verdict 1 instead of 5) | one merged filter for every group that has a survivor | medium, not executed | FltVerdict.SkippedSlotLosesGroup | FltVerdict.IntendedDecideCoversGroups |
| trunk/drv/fltstore.cpp:202-206 | memcmp runs over sizeof(ITEM_FILTERS) - FIELD_OFFSET(ITEM_FILTERS, m_Filters) bytes, the size of a pointer | keys (1, 2, 3, 0) and (1, 2, 4, 0) compare Equal and share one filter set | compare the FIELD_OFFSET(ITEM_FILTERS, m_Filters) key bytes, as drv/fltstore.cpp:726 does | high, not executed | TrunkFltStore.MinorCodeIgnored | FltKeys.Compare |
| trunk/drv/fltstore.cpp:70-76 | the BOOLEAN from ExAcquireRundownProtection is returned as an NTSTATUS, so both TRUE and FALSE pass NT_SUCCESS | a refused reference (FALSE) returns 0, which is STATUS_SUCCESS, and GetFiltersBy hands out the set anyway | map the BOOLEAN to STATUS_SUCCESS / STATUS_UNSUCCESSFUL, as drv/fltstore.cpp:85-94 does | high, not executed | TrunkFltStore.Filters.AddRef | FltStore.Filters.AddRef |
| drv/fltstore.cpp:392-405 | TryToFindExisting compares operator, flags, data size and literal bytes but not the parameter id | a filter testing parameter a == 7 and a second filter testing parameter b == 7: the second filter's position joins the predicate on a, and parameter b is never queried for it | compare the parameter id too, so that every predicate tests the parameter its filter named | medium, not executed | FltPredicates.CrossParameterMerge | FltPredicates.IntendedAttachTestsOwnParameter |

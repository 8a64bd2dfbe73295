/** The filter store of drv/fltstore.cpp: the per-operation filter set `Filters` (a slot
    array, two 256-bit maps and the deduplicated predicate list) and the process-wide
    `FiltersTree` that maps an operation key to its filter set. */
module FltStore {
  import opened NtDefs
  import opened FltStoreLayout
  import opened FltPredicates
  import opened FltVerdict
  import opened FltKeys

  // ---------------------------------------------------------------------
  // Facts the methods below are proved with.

  /** Extending the prefix of the predicate list by one entry adds that entry's positions
      exactly when it fails. */
  lemma FailingPositionsSnoc(list: seq<ParamCheckEntry>, j: nat, ev: EventData)
    requires Checkable(list) && j < |list|
    ensures FailingPositions(list[..j + 1], ev) ==
            FailingPositions(list[..j], ev) + (if Fails(list[j], ev) then PositionsOf(list[j].filterPosList) else {})
  {
    assert list[..j + 1][..j] == list[..j];
  }

  /** The positions failing in a prefix also fail in the whole list. */
  lemma FailingPositionsPrefix(list: seq<ParamCheckEntry>, j: nat, ev: EventData)
    requires Checkable(list) && j <= |list|
    ensures FailingPositions(list[..j], ev) <= FailingPositions(list, ev)
  {
    var pre := list[..j];
    FailingPositionsMeaning(pre, ev);
    FailingPositionsMeaning(list, ev);
    forall p | p in FailingPositions(pre, ev) ensures p in FailingPositions(list, ev) {
      var k :| 0 <= k < |pre| && p in pre[k].filterPosList && Fails(pre[k], ev);
      assert pre[k] == list[k];
    }
  }

  /** One step of the slot search: the first clear bit from `from` on is the next survivor,
      and when there is none below `count` no survivor is left. */
  lemma {:induction false} SurvivorStep(bits: seq<bool>, ex: set<nat>, from: nat, count: nat)
    requires from <= count <= |bits|
    requires forall i :: 0 <= i < |bits| ==> (bits[i] <==> i in ex)
    ensures var r := FirstClear(bits, from, count);
      SurvivorsFrom(ex, from, count) == if r == count then [] else [r] + SurvivorsFrom(ex, r + 1, count)
    decreases count - from
  {
    if from < count {
      var rest := SurvivorsFrom(ex, from + 1, count);
      if bits[from] {
        assert from in ex;
        SurvivorStep(bits, ex, from + 1, count);
        assert FirstClear(bits, from, count) == FirstClear(bits, from + 1, count);
      } else {
        assert from !in ex;
        assert FirstClear(bits, from, count) == from;
      }
    }
  }

  /** The group loop's bookkeeping: with the survivors split into those visited and those from
      `next` on, the slot search either finds none left or finds the next survivor. */
  lemma AdvanceSurvivor(bits: seq<bool>, ex: set<nat>, ps: seq<nat>, consumed: seq<nat>, next: nat, count: nat)
    requires next <= count <= |bits|
    requires forall i :: 0 <= i < |bits| ==> (bits[i] <==> i in ex)
    requires ps == consumed + SurvivorsFrom(ex, next, count)
    ensures FirstClear(bits, next, count) == count ==> SurvivorsFrom(ex, next, count) == []
    ensures FirstClear(bits, next, count) < count ==>
      ps == (consumed + [FirstClear(bits, next, count)]) + SurvivorsFrom(ex, FirstClear(bits, next, count) + 1, count)
  {
    SurvivorStep(bits, ex, next, count);
    var r := FirstClear(bits, next, count);
    if r < count {
      Regroup(consumed, r, SurvivorsFrom(ex, r + 1, count));
    }
  }

  /** The scratch bitmap `bits` holds exactly the positions in `s`. */
  ghost predicate Marks(bits: seq<bool>, s: set<nat>)
  {
    |bits| == NumberOfBits &&
    (forall i :: 0 <= i < |bits| ==> (bits[i] <==> i in s)) &&
    (forall i :: i in s ==> i < |bits|)
  }

  lemma UnionStep(a: set<nat>, b: set<nat>, c: set<nat>, d: set<nat>)
    requires d == b + c
    ensures (a + b) + c == a + d
  {
  }

  /** The state of CheckParamsList after the first `j` predicates: the marks are the old ones
      plus the positions of the failing predicates among them. */
  ghost predicate Checked(list: seq<ParamCheckEntry>, ev: EventData, j: nat, marked0: set<nat>, marked: set<nat>)
  {
    Checkable(list) && j <= |list| && marked == marked0 + FailingPositions(list[..j], ev)
  }

  lemma CheckedStart(list: seq<ParamCheckEntry>, ev: EventData, marked0: set<nat>)
    requires Checkable(list)
    ensures Checked(list, ev, 0, marked0, marked0)
  {
    assert list[..0] == [];
  }

  lemma CheckedStep(list: seq<ParamCheckEntry>, ev: EventData, j: nat, marked0: set<nat>,
                    marked: set<nat>, marked': set<nat>)
    requires Checked(list, ev, j, marked0, marked) && j < |list|
    requires marked' == marked + (if Fails(list[j], ev) then PositionsOf(list[j].filterPosList) else {})
    ensures Checked(list, ev, j + 1, marked0, marked')
  {
    FailingPositionsSnoc(list, j, ev);
    UnionStep(marked0, FailingPositions(list[..j], ev),
              if Fails(list[j], ev) then PositionsOf(list[j].filterPosList) else {},
              FailingPositions(list[..j + 1], ev));
  }

  lemma CheckedShortCircuits(list: seq<ParamCheckEntry>, ev: EventData, j: nat, marked0: set<nat>,
                             marked: set<nat>, count: nat)
    requires Checked(list, ev, j, marked0, marked) && ShortCircuits(count, marked)
    ensures ShortCircuits(count, marked0 + FailingPositions(list, ev))
  {
    FailingPositionsPrefix(list, j, ev);
    ShortCircuitsGrow(count, marked, marked0 + FailingPositions(list, ev));
  }

  lemma CheckedAll(list: seq<ParamCheckEntry>, ev: EventData, marked0: set<nat>, marked: set<nat>)
    requires Checked(list, ev, |list|, marked0, marked)
    ensures marked == marked0 + FailingPositions(list, ev)
  {
    assert list[..|list|] == list;
  }

  /** Setting a clear bit marks one more position. */
  lemma MarkOne(bits: seq<bool>, s: set<nat>, p: nat)
    requires Marks(bits, s) && p < |bits| && !bits[p]
    ensures Marks(bits[p := true], s + {p}) && |s + {p}| == |s| + 1
  {
  }

  lemma PositionsStep(positions: seq<ULong>, k: nat)
    requires k < |positions|
    ensures PositionsOf(positions[..k + 1]) == PositionsOf(positions[..k]) + {positions[k] as nat}
  {
    assert positions[..k + 1] == positions[..k] + [positions[k]];
  }

  lemma PositionsPrefix(positions: seq<ULong>, k: nat)
    requires k <= |positions|
    ensures PositionsOf(positions[..k]) <= PositionsOf(positions)
  {
    forall q: nat | q in PositionsOf(positions[..k]) ensures q in PositionsOf(positions) {
      assert q in positions[..k];
    }
  }

  /** An early exit inside the marks of predicate `j` is an early exit for the whole list. */
  lemma FailingPrefixShortCircuits(list: seq<ParamCheckEntry>, j: nat, ev: EventData,
                                   marked0: set<nat>, marked: set<nat>, count: nat)
    requires Checkable(list) && j < |list| && Fails(list[j], ev)
    requires marked == marked0 + FailingPositions(list[..j], ev)
    requires ShortCircuits(count, marked + PositionsOf(list[j].filterPosList))
    ensures ShortCircuits(count, marked0 + FailingPositions(list, ev))
  {
    FailingPositionsSnoc(list, j, ev);
    FailingPositionsPrefix(list, j + 1, ev);
    ShortCircuitsGrow(count, marked + PositionsOf(list[j].filterPosList), marked0 + FailingPositions(list, ev));
  }

  /** Marking more positions cannot undo an early exit. */
  lemma ShortCircuitsGrow(count: nat, a: set<nat>, b: set<nat>)
    requires a <= b && ShortCircuits(count, a)
    ensures ShortCircuits(count, b)
  {
    SubsetCard(a, b);
  }

  /** Taking the first `n` of `consumed + rest` where `consumed` has `n` elements, or where
      nothing follows it, gives `consumed`. */
  lemma TakeConsumed(consumed: seq<nat>, rest: seq<nat>, n: nat)
    requires |consumed| == n || (rest == [] && |consumed| <= n)
    ensures Take(consumed + rest, n) == consumed
  {
    assert (consumed + rest)[..|consumed|] == consumed;
  }

  lemma Regroup(a: seq<nat>, x: nat, b: seq<nat>)
    ensures a + ([x] + b) == (a + [x]) + b
  {
  }

  /** Appending one slot to the group loop's visited slots is one more step of Fold: a slot
      whose group was seen changes nothing, any other one is OR-ed in. */
  lemma FoldSnoc(consumed: seq<nat>, p: nat, arr: seq<FilterEntry>)
    requires forall j :: 0 <= j < |consumed| ==> consumed[j] < |arr|
    requires p < |arr|
    ensures arr[p].groupId in Fold(consumed, arr).groups ==> Fold(consumed + [p], arr) == Fold(consumed, arr)
    ensures arr[p].groupId !in Fold(consumed, arr).groups ==>
      Fold(consumed + [p], arr).verdict == Fold(consumed, arr).verdict | arr[p].verdict &&
      Fold(consumed + [p], arr).mask == Fold(consumed, arr).mask | arr[p].wishMask &&
      Fold(consumed + [p], arr).groups == Fold(consumed, arr).groups + {arr[p].groupId}
  {
    assert (consumed + [p])[..|consumed|] == consumed;
  }

  // ---------------------------------------------------------------------

  /** One filter set: the filters registered for one (interceptor, operation, minor, operation
      point) key. Slots live in m_FiltersArray below m_FilterCount; m_ActiveFilters marks
      the live slots and m_GroupsMap the groups that have at least one filter. */
  class Filters {
    /** m_ActiveFilters: one bit per slot position. */
    var activeFilters: array<bool>
    /** m_GroupsMap: one bit per group id; m_GroupCount counts its set bits. */
    var groupsMap: array<bool>
    var groupCount: nat
    /** m_FilterCount and the slots of m_FiltersArray (the allocation may hold one slot more). */
    var filterCount: nat
    var filtersArray: seq<FilterEntry>
    /** m_ParamsCheckList, in list order. */
    var paramsCheckList: seq<ParamCheckEntry>

    /** What every operation of the set relies on for memory safety: two distinct 256-bit maps,
        m_FilterCount slots present, every predicate well formed and attached only to
        positions inside the maps. */
    predicate WellFormed()
      reads this, activeFilters, groupsMap
    {
      activeFilters.Length == NumberOfBits && groupsMap.Length == NumberOfBits &&
      activeFilters != groupsMap &&
      filterCount <= |filtersArray| && filterCount <= NumberOfBits &&
      (forall j :: 0 <= j < |paramsCheckList| ==> paramsCheckList[j].WellFormed()) &&
      (forall j, q :: 0 <= j < |paramsCheckList| && q in paramsCheckList[j].filterPosList ==> q < NumberOfBits)
    }

    /** The invariant AddFilter keeps: every slot below m_FilterCount is busy and active, no
        bit at or past it is active, no predicate holds a position past m_FilterCount, and the
        group map holds exactly the groups of the slots, m_GroupCount of them. */
    ghost predicate Valid()
      reads this, activeFilters, groupsMap
    {
      WellFormed() &&
      Consistent(activeFilters[..], groupsMap[..], groupCount, filterCount, filtersArray, paramsCheckList)
    }

    /** Filters::Filters: both maps clear, no slot, no predicate. */
    constructor ()
      ensures Valid() && fresh(activeFilters) && fresh(groupsMap)
      ensures filterCount == 0 && groupCount == 0 && filtersArray == [] && paramsCheckList == []
      ensures activeFilters[..] == ActiveUpTo(0) && groupsMap[..] == ActiveUpTo(0)
    {
      groupsMap := new bool[NumberOfBits](i => false);
      groupCount := 0;
      activeFilters := new bool[NumberOfBits](i => false);
      filterCount := 0;
      filtersArray := [];
      paramsCheckList := [];
      new;
      assert BitsOf(groupsMap[..]) == {};
    }

    /** Filters::AddRef: the outcome of ExAcquireRundownProtection, `acquired`, turned into a
        status that NT_SUCCESS accepts exactly when the reference was taken. */
    function AddRef(acquired: bool): (status: NtStatus)
      ensures NtSuccess(status) <==> acquired
      ensures status == StatusSuccess || status == StatusUnsuccessful
    {
      if acquired then StatusSuccess else StatusUnsuccessful
    }

    /** The slot search of the group loop, bounded at `limit` (m_FilterCount): the lowest clear
        bit at or after `hint` and below `limit`, or `limit` when there is none. */
    static method FindClearBit(bits: array<bool>, hint: nat, limit: nat) returns (r: nat)
      requires hint <= limit <= bits.Length
      ensures r == FirstClear(bits[..], hint, limit)
    {
      r := hint;
      while r < limit && bits[r]
        invariant hint <= r <= limit
        invariant FirstClear(bits[..], r, limit) == FirstClear(bits[..], hint, limit)
        invariant forall i :: hint <= i < r ==> bits[i]
      {
        r := r + 1;
      }
    }

    /** Filters::CheckParamsList: evaluates every predicate and marks in `bitmap` the positions
        attached to the failing ones, counting newly marked positions in `unmatched`. It stops
        with STATUS_NOT_FOUND as soon as the count reaches m_FilterCount; otherwise the bitmap
        holds the old marks plus every failing position. */
    method CheckParamsList(ev: EventData, bitmap: array<bool>, unmatchedIn: nat, ghost marked0: set<nat>)
      returns (status: NtStatus, unmatched: nat)
      requires WellFormed()
      requires bitmap != activeFilters && bitmap != groupsMap
      requires Marks(bitmap[..], marked0) && unmatchedIn == |marked0|
      requires filterCount == 0 || unmatchedIn < filterCount
      modifies bitmap
      ensures status == StatusSuccess || status == StatusNotFound
      ensures status == StatusNotFound <==>
              ShortCircuits(filterCount, marked0 + FailingPositions(paramsCheckList, ev))
      ensures status == StatusSuccess ==>
              Marks(bitmap[..], marked0 + FailingPositions(paramsCheckList, ev)) &&
              unmatched == |marked0 + FailingPositions(paramsCheckList, ev)|
    {
      status, unmatched := CheckList(paramsCheckList, filterCount, ev, bitmap, unmatchedIn, marked0);
    }

    /** The loop of CheckParamsList over the predicate list `list` with m_FilterCount `count`. */
    static method CheckList(list: seq<ParamCheckEntry>, count: nat, ev: EventData, bitmap: array<bool>,
                            unmatchedIn: nat, ghost marked0: set<nat>)
      returns (status: NtStatus, unmatched: nat)
      requires Checkable(list)
      requires forall k, q :: 0 <= k < |list| && q in list[k].filterPosList ==> q < NumberOfBits
      requires Marks(bitmap[..], marked0) && unmatchedIn == |marked0|
      requires count == 0 || unmatchedIn < count
      modifies bitmap
      ensures status == StatusSuccess || status == StatusNotFound
      ensures status == StatusNotFound <==> ShortCircuits(count, marked0 + FailingPositions(list, ev))
      ensures status == StatusSuccess ==>
              Marks(bitmap[..], marked0 + FailingPositions(list, ev)) &&
              unmatched == |marked0 + FailingPositions(list, ev)|
    {
      unmatched := unmatchedIn;
      ghost var marked := marked0;
      CheckedStart(list, ev, marked0);
      var j := 0;
      while j < |list|
        invariant 0 <= j <= |list|
        invariant Checked(list, ev, j, marked0, marked)
        invariant Marks(bitmap[..], marked) && unmatched == |marked|
        invariant count == 0 || unmatched < count
      {
        var hit;
        ghost var before := marked;
        hit, unmatched, marked := CheckEntry(list[j], ev, bitmap, unmatched, count, marked);
        CheckedStep(list, ev, j, marked0, before, marked);
        if hit {
          CheckedShortCircuits(list, ev, j + 1, marked0, marked, count);
          return StatusNotFound, unmatched;
        }
        j := j + 1;
      }
      CheckedAll(list, ev, marked0, marked);
      return StatusSuccess, unmatched;
    }

    /** One iteration of CheckParamsList: CheckSingleEntryUnsafe, and the positions of the
        predicate marked when it fails; `hit` tells that the count reached `count`. */
    static method CheckEntry(e: ParamCheckEntry, ev: EventData, bitmap: array<bool>, unmatchedIn: nat,
                             count: nat, ghost marked: set<nat>)
      returns (hit: bool, unmatched: nat, ghost marked': set<nat>)
      requires e.data.count > 0 && forall q :: q in e.filterPosList ==> q < NumberOfBits
      requires Marks(bitmap[..], marked) && unmatchedIn == |marked|
      requires count == 0 || unmatchedIn < count
      modifies bitmap
      ensures marked' == marked + (if Fails(e, ev) then PositionsOf(e.filterPosList) else {})
      ensures hit <==> ShortCircuits(count, marked')
      ensures !hit ==> Marks(bitmap[..], marked') && unmatched == |marked'| && (count == 0 || unmatched < count)
    {
      var s := CheckSingleEntryUnsafe(e, ev);
      if NtSuccess(s) {
        return false, unmatchedIn, marked;
      }
      hit, unmatched := MarkPositions(bitmap, e.filterPosList, unmatchedIn, count, marked);
      marked' := marked + PositionsOf(e.filterPosList);
    }

    /** The inner loop of CheckParamsList: marks each position of one failing predicate that is
        not marked yet and counts it; `hit` tells that the count reached `count`. */
    static method MarkPositions(bitmap: array<bool>, positions: seq<ULong>, unmatchedIn: nat, count: nat,
                                ghost marked0: set<nat>)
      returns (hit: bool, unmatched: nat)
      requires forall q :: q in positions ==> q < NumberOfBits
      requires Marks(bitmap[..], marked0) && unmatchedIn == |marked0|
      requires count == 0 || unmatchedIn < count
      modifies bitmap
      ensures hit <==> ShortCircuits(count, marked0 + PositionsOf(positions))
      ensures !hit ==> Marks(bitmap[..], marked0 + PositionsOf(positions)) &&
                       unmatched == |marked0 + PositionsOf(positions)|
    {
      hit, unmatched := false, unmatchedIn;
      ghost var marked := marked0;
      var cou := 0;
      while cou < |positions|
        invariant 0 <= cou <= |positions|
        invariant marked == marked0 + PositionsOf(positions[..cou])
        invariant Marks(bitmap[..], marked) && unmatched == |marked|
        invariant count == 0 || unmatched < count
        invariant !hit
      {
        assert positions[cou] in positions;
        PositionsStep(positions, cou);
        UnionStep(marked0, PositionsOf(positions[..cou]), {positions[cou] as nat}, PositionsOf(positions[..cou + 1]));
        hit, unmatched, marked := MarkPosition(bitmap, positions[cou], unmatched, count, marked);
        if hit {
          PositionsPrefix(positions, cou + 1);
          ShortCircuitsGrow(count, marked, marked0 + PositionsOf(positions));
          return;
        }
        cou := cou + 1;
      }
      assert positions[..cou] == positions;
    }

    /** One position of a failing predicate: RtlCheckBit, then RtlSetBit and the count when it
        was clear; `hit` tells that the count reached `count`. */
    static method MarkPosition(bitmap: array<bool>, p: nat, unmatchedIn: nat, count: nat, ghost marked: set<nat>)
      returns (hit: bool, unmatched: nat, ghost marked': set<nat>)
      requires p < NumberOfBits
      requires Marks(bitmap[..], marked) && unmatchedIn == |marked|
      requires count == 0 || unmatchedIn < count
      modifies bitmap
      ensures marked' == marked + {p}
      ensures hit <==> ShortCircuits(count, marked')
      ensures !hit ==> Marks(bitmap[..], marked') && unmatched == |marked'| && (count == 0 || unmatched < count)
    {
      marked' := marked + {p};
      unmatched := unmatchedIn;
      if bitmap[p] {
        assert marked' == marked;
        return false, unmatched, marked';
      }
      ghost var before := bitmap[..];
      MarkOne(before, marked, p);
      bitmap[p] := true;
      assert bitmap[..] == before[p := true];
      unmatched := unmatched + 1;
      hit := unmatched == count;
    }

    /** Filters::GetVerdict. Marks the inactive slots, then the slots of failing predicates,
        and gives up with VERDICT_NOT_FILTERED (leaving the caller's mask untouched) once every
        slot is marked. Otherwise it clears the mask and runs the group loop m_GroupCount
        times over the unmarked slots in ascending order, merging the first slot of each group
        it meets. The search for the next unmarked slot stops at m_FilterCount. */
    method GetVerdict(ev: EventData, maskIn: ParamsMask) returns (verdict: Verdict, paramsMask: ParamsMask)
      requires WellFormed()
      ensures (verdict, paramsMask) ==
              Decide(activeFilters[..], filterCount, groupCount, filtersArray, paramsCheckList, ev, maskIn)
    {
      verdict := VerdictNotFiltered;
      paramsMask := maskIn;
      assert Checkable(paramsCheckList);
      ghost var ex := Excluded(activeFilters[..], filterCount, paramsCheckList, ev);
      var filtersbitmap := new bool[NumberOfBits](i => false);

      // set inactive filters
      var allInactive, unmatched := MarkInactive(activeFilters, filterCount, filtersbitmap);
      ghost var inactive := InactiveBelow(activeFilters[..], filterCount);
      if allInactive {
        ShortCircuitsGrow(filterCount, inactive, ex);
        return;
      }

      var status;
      status, unmatched := CheckParamsList(ev, filtersbitmap, unmatched, inactive);
      if !NtSuccess(status) {
        return;
      }

      // at least one filter survived
      verdict, paramsMask := GroupLoop(filtersbitmap, filtersArray, filterCount, groupCount, ex);
    }

    /** The first loop of GetVerdict: marks every inactive slot below `count` and counts them;
        `allInactive` tells that the count reached `count`, which ends GetVerdict. */
    static method MarkInactive(active: array<bool>, count: nat, bitmap: array<bool>)
      returns (allInactive: bool, unmatched: nat)
      requires active.Length == NumberOfBits && bitmap.Length == NumberOfBits && active != bitmap
      requires count <= NumberOfBits
      requires forall i :: 0 <= i < NumberOfBits ==> !bitmap[i]
      modifies bitmap
      ensures allInactive <==> ShortCircuits(count, InactiveBelow(active[..], count))
      ensures !allInactive ==> unmatched == |InactiveBelow(active[..], count)|
      ensures !allInactive ==> count == 0 || unmatched < count
      ensures !allInactive ==>
              forall i :: 0 <= i < NumberOfBits ==> (bitmap[i] <==> i in InactiveBelow(active[..], count))
    {
      unmatched := 0;
      ghost var marked: set<nat> := {};
      var cou := 0;
      while cou < count
        invariant cou <= count
        invariant marked == InactiveBelow(active[..], cou)
        invariant forall i :: 0 <= i < NumberOfBits ==> (bitmap[i] <==> i in marked)
        invariant unmatched == |marked|
        invariant count == 0 || unmatched < count
      {
        assert InactiveBelow(active[..], cou + 1) ==
               InactiveBelow(active[..], cou) + (if active[cou] then {} else {cou});
        if !active[cou] {
          bitmap[cou] := true;
          marked := marked + {cou};
          unmatched := unmatched + 1;
          if unmatched == count {
            assert marked <= InactiveBelow(active[..], count);
            ShortCircuitsGrow(count, marked, InactiveBelow(active[..], count));
            return true, unmatched;
          }
        }
        cou := cou + 1;
      }
      return false, unmatched;
    }

    /** The group loop of GetVerdict: `groupCount` rounds, each taking the next unmarked slot
        below `count` (none left ends the loop) and merging it when its group is new. The
        result is Fold over the first `groupCount` surviving slots. */
    static method GroupLoop(bitmap: array<bool>, arr: seq<FilterEntry>, count: nat, groupCount: nat, ghost ex: set<nat>)
      returns (verdict: Verdict, mask: ParamsMask)
      requires bitmap.Length == NumberOfBits && count <= NumberOfBits && count <= |arr|
      requires forall i :: 0 <= i < NumberOfBits ==> (bitmap[i] <==> i in ex)
      ensures verdict == Fold(Take(Survivors(ex, count), groupCount), arr).verdict
      ensures mask == Fold(Take(Survivors(ex, count), groupCount), arr).mask
    {
      verdict := VerdictNotFiltered;
      mask := 0;
      var groupcount: nat := groupCount;
      var groupsmap := new bool[NumberOfBits](i => false);
      var position: ULong := 0xFFFF_FFFF;
      ghost var ps := Survivors(ex, count);
      ghost var consumed: seq<nat> := [];
      assert BitsOf(groupsmap[..]) == {};
      ghost var next: nat := 0;
      while groupcount > 0
        invariant groupcount <= groupCount
        invariant |consumed| == groupCount - groupcount
        invariant (position == 0xFFFF_FFFF && next == 0) || (position < count && next == position + 1)
        invariant Visited(ex, arr, count, ps, consumed, next, verdict, mask, BitsOf(groupsmap[..]))
      {
        groupcount := groupcount - 1;
        // position + 1 as a ULONG: the first search starts at 0
        var hint := if position == 0xFFFF_FFFF then 0 else position + 1;
        var found;
        found, verdict, mask, consumed := GroupRound(bitmap, arr, count, groupsmap, hint, verdict, mask, ex, ps, consumed);
        if found == count {
          // no unmarked slot is left below m_FilterCount
          VisitedAll(ex, arr, count, consumed, next, verdict, mask, BitsOf(groupsmap[..]), groupCount);
          return;
        }
        position := found;
        next := found + 1;
      }
      VisitedAll(ex, arr, count, consumed, next, verdict, mask, BitsOf(groupsmap[..]), groupCount);
    }

    /** One round of the group loop: find the next unmarked slot from `hint` on and merge it. */
    static method GroupRound(bitmap: array<bool>, arr: seq<FilterEntry>, count: nat, groupsmap: array<bool>,
                             hint: nat, verdict: Verdict, mask: ParamsMask,
                             ghost ex: set<nat>, ghost ps: seq<nat>, ghost consumed: seq<nat>)
      returns (found: nat, verdict': Verdict, mask': ParamsMask, ghost consumed': seq<nat>)
      requires bitmap.Length == NumberOfBits && groupsmap.Length == NumberOfBits && bitmap != groupsmap
      requires hint <= count <= NumberOfBits
      requires forall i :: 0 <= i < NumberOfBits ==> (bitmap[i] <==> i in ex)
      requires Visited(ex, arr, count, ps, consumed, hint, verdict, mask, BitsOf(groupsmap[..]))
      modifies groupsmap
      ensures found <= count
      ensures found == count ==> SurvivorsFrom(ex, hint, count) == [] && consumed' == consumed &&
                                 verdict' == verdict && mask' == mask && groupsmap[..] == old(groupsmap[..])
      ensures found < count ==> consumed' == consumed + [found]
      ensures found < count ==> Visited(ex, arr, count, ps, consumed', found + 1, verdict', mask', BitsOf(groupsmap[..]))
    {
      found := FindClearBit(bitmap, hint, count);
      AdvanceSurvivor(bitmap[..], ex, ps, consumed, hint, count);
      if found == count {
        return found, verdict, mask, consumed;
      }
      verdict', mask' := MergeSlot(groupsmap, arr, found, verdict, mask, consumed);
      consumed' := consumed + [found];
    }

    // -------------------------------------------------------------------
    // Adding a filter.

    /** Filters::GetFilterPosUnsafe: the lowest slot below m_FilterCount whose busy bit is clear;
        when every one is busy, the array grows by one zeroed slot at index m_FilterCount, unless
        that allocation (`allocOk`) fails. m_FilterCount itself is left to AddFilter. */
    method GetFilterPosUnsafe(allocOk: bool) returns (status: NtStatus, position: nat)
      requires filterCount <= |filtersArray|
      modifies this`filtersArray
      ensures FirstFree(old(filtersArray), filterCount) < filterCount ==>
                status == StatusSuccess && position == FirstFree(old(filtersArray), filterCount) &&
                filtersArray == old(filtersArray)
      ensures FirstFree(old(filtersArray), filterCount) == filterCount && !allocOk ==>
                status == StatusInsufficientResources && filtersArray == old(filtersArray)
      ensures FirstFree(old(filtersArray), filterCount) == filterCount && allocOk ==>
                status == StatusSuccess && position == filterCount &&
                filtersArray == old(filtersArray)[..filterCount] + [ZeroedFilterEntry]
    {
      var cou := 0;
      while cou < filterCount
        invariant cou <= filterCount
        invariant forall i :: 0 <= i < cou ==> filtersArray[i].busy
      {
        if !filtersArray[cou].busy {
          return StatusSuccess, cou;
        }
        cou := cou + 1;
      }
      if !allocOk {
        return StatusInsufficientResources, 0;
      }
      filtersArray := filtersArray[..filterCount] + [ZeroedFilterEntry];
      return StatusSuccess, filterCount;
    }

    /** Filters::TryToFindExisting: walks the predicate list for the first entry with the same
        operator, flags and literal bytes and appends `pos` to its position list. An empty list,
        or no such entry, gives STATUS_NOT_FOUND; a failed allocation of the longer position
        list (`allocOk`) gives STATUS_INSUFFICIENT_RESOURCES and leaves the entry as it was. */
    method TryToFindExisting(p: ParamEntry, pos: ULong, allocOk: bool) returns (status: NtStatus, index: nat)
      modifies this`paramsCheckList
      ensures FindExisting(old(paramsCheckList), p).None? ==>
                status == StatusNotFound && paramsCheckList == old(paramsCheckList)
      ensures FindExisting(old(paramsCheckList), p).Some? && !allocOk ==>
                status == StatusInsufficientResources && paramsCheckList == old(paramsCheckList)
      ensures FindExisting(old(paramsCheckList), p).Some? && allocOk ==>
                var i := FindExisting(old(paramsCheckList), p).value;
                status == StatusSuccess && index == i &&
                paramsCheckList == old(paramsCheckList)[i := AttachPosition(old(paramsCheckList)[i], pos)]
    {
      if |paramsCheckList| == 0 {
        return StatusNotFound, 0;
      }
      var i := 0;
      while i < |paramsCheckList|
        invariant i <= |paramsCheckList|
        invariant FindExistingFrom(paramsCheckList, p, i) == FindExisting(paramsCheckList, p)
      {
        var e := paramsCheckList[i];
        if SameLiteral(e, p) {
          // the same ParamEntry, attach to existing
          if !allocOk {
            return StatusInsufficientResources, 0;
          }
          paramsCheckList := paramsCheckList[i := AttachPosition(e, pos)];
          return StatusSuccess, i;
        }
        i := i + 1;
      }
      return StatusNotFound, 0;
    }

    /** Filters::AddParameterWithFilterPos: merges into an existing entry or, when there is none,
        appends a new entry holding only `pos`. The index of the entry is returned; None stands for
        the NULL returned when an allocation (`allocOk`) fails, and the list is then unchanged. */
    method AddParameterWithFilterPos(p: ParamEntry, pos: ULong, allocOk: bool) returns (entry: Option<nat>)
      modifies this`paramsCheckList
      ensures allocOk ==> paramsCheckList == AttachParam(old(paramsCheckList), p, pos)
      ensures allocOk ==> entry.Some? && entry.value < |paramsCheckList| &&
                          pos in paramsCheckList[entry.value].filterPosList
      ensures !allocOk ==> entry.None? && paramsCheckList == old(paramsCheckList)
    {
      var status, index := TryToFindExisting(p, pos, allocOk);
      if NtSuccess(status) {
        return Some(index);
      }
      if status != StatusNotFound {
        // other error - couldnt attach to existing
        return None;
      }
      if !allocOk {
        return None;
      }
      paramsCheckList := paramsCheckList + [NewEntry(p, pos)];
      return Some(|paramsCheckList| - 1);
    }

    /** Filters::ParseParamsUnsafe: attaches every parameter to `pos` in order and stops at the
        first one whose allocation fails, with STATUS_INSUFFICIENT_RESOURCES. The parameters
        attached before the failure stay attached: the clean-up it calls has no effect. */
    method ParseParamsUnsafe(pos: ULong, ps: seq<ParamEntry>, allocs: seq<bool>) returns (status: NtStatus)
      requires |allocs| == |ps|
      modifies this`paramsCheckList
      ensures paramsCheckList == AttachAll(old(paramsCheckList), ps[..FirstFailure(allocs)], pos)
      ensures status == StatusSuccess <==> FirstFailure(allocs) == |ps|
      ensures status == StatusSuccess || status == StatusInsufficientResources
    {
      ghost var list0 := paramsCheckList;
      var cou := 0;
      while cou < |ps|
        invariant cou <= |ps|
        invariant forall j :: 0 <= j < cou ==> allocs[j]
        invariant paramsCheckList == AttachAll(list0, ps[..cou], pos)
      {
        var entry := AddParameterWithFilterPos(ps[cou], pos, allocs[cou]);
        if entry.None? {
          assert FirstFailure(allocs) == cou;
          return StatusInsufficientResources;
        }
        AttachAllSnoc(list0, ps[..cou], ps[cou], pos);
        assert ps[..cou + 1] == ps[..cou] + [ps[cou]];
        cou := cou + 1;
      }
      assert ps[..cou] == ps;
      return StatusSuccess;
    }

    /** Filters::AddFilter: takes a slot, attaches the parameters' predicates to it, and then
        fills the slot with the new filter: a fresh id from FiltersTree::GetNextFilterid, the
        group, verdict, wish mask and timeout. The slot is marked busy and active, a group not
        seen before is recorded and counted, and m_FilterCount grows by one. `posAllocOk` and
        `allocs` are the outcomes of the slot array's and the predicates' allocations. A failure
        draws no id and leaves the counts and maps alone; a failed parse keeps the grown array
        and the predicates already attached at m_FilterCount. */
    method AddFilter(groupId: UChar, verdict: Verdict, requestTimeout: ULong, wishMask: ParamsMask,
                     ps: seq<ParamEntry>, posAllocOk: bool, allocs: seq<bool>, ids: FiltersTree)
      returns (status: NtStatus, filterId: ULong)
      requires Valid()
      requires filterCount < NumberOfBits
      requires |allocs| == |ps| && forall q :: q in ps ==> q.fltData.count > 0
      modifies this`filtersArray, this`paramsCheckList, this`filterCount, this`groupCount
      modifies activeFilters, groupsMap, ids`filterIdCounter
      ensures Valid()
      ensures !posAllocOk ==>
                status == StatusInsufficientResources &&
                filtersArray == old(filtersArray) && paramsCheckList == old(paramsCheckList)
      ensures posAllocOk && FirstFailure(allocs) < |ps| ==>
                status == StatusInsufficientResources &&
                filtersArray == old(filtersArray)[..old(filterCount)] + [ZeroedFilterEntry] &&
                paramsCheckList == AttachAll(old(paramsCheckList), ps[..FirstFailure(allocs)], old(filterCount))
      ensures !(posAllocOk && FirstFailure(allocs) == |ps|) ==>
                filterCount == old(filterCount) && groupCount == old(groupCount) &&
                activeFilters[..] == old(activeFilters[..]) && groupsMap[..] == old(groupsMap[..]) &&
                ids.filterIdCounter == old(ids.filterIdCounter)
      ensures posAllocOk && FirstFailure(allocs) == |ps| ==>
                status == StatusSuccess &&
                ids.filterIdCounter == NextId(old(ids.filterIdCounter)) && filterId == AsULong(ids.filterIdCounter) &&
                filtersArray == old(filtersArray)[..old(filterCount)] +
                                [FilterEntry(true, filterId, groupId, verdict, 0, wishMask, requestTimeout)] &&
                paramsCheckList == AttachAll(old(paramsCheckList), ps, old(filterCount)) &&
                filterCount == old(filterCount) + 1 &&
                activeFilters[..] == old(activeFilters[..])[old(filterCount) := true] &&
                groupsMap[..] == old(groupsMap[..])[groupId := true] &&
                groupCount == old(groupCount) + (if old(groupsMap[groupId]) then 0 else 1)
    {
      filterId := 0;
      ghost var arr0 := filtersArray;
      var position;
      status, position := GetFilterPosUnsafe(posAllocOk);
      if !NtSuccess(status) {
        return;
      }
      // every slot below m_FilterCount is busy, so the slot is the new one at m_FilterCount
      assert position == filterCount;
      assert Valid() by {
        GrownKeepsConsistent(activeFilters[..], groupsMap[..], groupCount, filterCount, arr0, paramsCheckList, paramsCheckList);
      }
      status, filterId := FillSlot(groupId, verdict, requestTimeout, wishMask, ps, allocs, ids);
      assert (arr0[..position] + [ZeroedFilterEntry])[position := FilterEntry(true, filterId, groupId, verdict, 0, wishMask, requestTimeout)] ==
             arr0[..position] + [FilterEntry(true, filterId, groupId, verdict, 0, wishMask, requestTimeout)];
    }

    /** AddFilter once the zeroed slot at m_FilterCount exists: attach the parameters to it and,
        when every one attached, fill it with the new filter and a fresh id. */
    method FillSlot(groupId: UChar, verdict: Verdict, requestTimeout: ULong, wishMask: ParamsMask,
                    ps: seq<ParamEntry>, allocs: seq<bool>, ids: FiltersTree)
      returns (status: NtStatus, filterId: ULong)
      requires Valid() && filterCount < NumberOfBits && filterCount < |filtersArray|
      requires filtersArray[filterCount] == ZeroedFilterEntry
      requires |allocs| == |ps| && forall q :: q in ps ==> q.fltData.count > 0
      modifies this`filtersArray, this`paramsCheckList, this`filterCount, this`groupCount
      modifies activeFilters, groupsMap, ids`filterIdCounter
      ensures Valid()
      ensures FirstFailure(allocs) < |ps| ==>
                status == StatusInsufficientResources && filtersArray == old(filtersArray) &&
                paramsCheckList == AttachAll(old(paramsCheckList), ps[..FirstFailure(allocs)], old(filterCount)) &&
                filterCount == old(filterCount) && groupCount == old(groupCount) &&
                activeFilters[..] == old(activeFilters[..]) && groupsMap[..] == old(groupsMap[..]) &&
                ids.filterIdCounter == old(ids.filterIdCounter)
      ensures FirstFailure(allocs) == |ps| ==>
                status == StatusSuccess &&
                ids.filterIdCounter == NextId(old(ids.filterIdCounter)) && filterId == AsULong(ids.filterIdCounter) &&
                filtersArray == old(filtersArray)[old(filterCount) :=
                                  FilterEntry(true, filterId, groupId, verdict, 0, wishMask, requestTimeout)] &&
                paramsCheckList == AttachAll(old(paramsCheckList), ps, old(filterCount)) &&
                filterCount == old(filterCount) + 1 &&
                activeFilters[..] == old(activeFilters[..])[old(filterCount) := true] &&
                groupsMap[..] == old(groupsMap[..])[groupId := true] &&
                groupCount == old(groupCount) + (if old(groupsMap[groupId]) then 0 else 1)
    {
      filterId := 0;
      ghost var list0 := paramsCheckList;
      var position := filterCount;
      status := ParseParamsUnsafe(position, ps, allocs);
      assert Valid() by {
        AttachKeepsList(list0, ps, FirstFailure(allocs), position, filterCount);
      }
      if !NtSuccess(status) {
        return;
      }
      assert ps[..|ps|] == ps;
      var id := ids.GetNextFilterid();
      var entry := filtersArray[position].(verdict := verdict, requestTimeout := requestTimeout,
                                           wishMask := wishMask, filterId := AsULong(id), groupId := groupId,
                                           busy := true);
      ghost var active0, groups0, arr0, groupCount0 := activeFilters[..], groupsMap[..], filtersArray, groupCount;
      InstallFilter(entry);
      assert Valid() by {
        AddedKeepsConsistent(active0, groups0, groupCount0, position, arr0, paramsCheckList, paramsCheckList, entry);
      }
      filterId := entry.filterId;
      status := StatusSuccess;
    }

    /** The last step of AddFilter: the new filter goes into the slot at m_FilterCount, which is
        marked active; its group is recorded and counted when new, and m_FilterCount grows. */
    method InstallFilter(e: FilterEntry)
      requires WellFormed() && filterCount < NumberOfBits && filterCount < |filtersArray|
      modifies this`filtersArray, this`filterCount, this`groupCount, activeFilters, groupsMap
      ensures filtersArray == old(filtersArray)[old(filterCount) := e] && filterCount == old(filterCount) + 1
      ensures activeFilters[..] == old(activeFilters[..])[old(filterCount) := true]
      ensures groupsMap[..] == old(groupsMap[..])[e.groupId := true]
      ensures groupCount == old(groupCount) + (if old(groupsMap[e.groupId]) then 0 else 1)
    {
      var position := filterCount;
      filtersArray := filtersArray[position := e];
      var _ := SetBit(activeFilters, position);
      var isNew := SetBit(groupsMap, e.groupId);
      if isNew {
        groupCount := groupCount + 1;
      }
      filterCount := filterCount + 1;
    }

    /** RtlSetBit, reporting whether the bit was clear before (RtlCheckBit). */
    static method SetBit(bits: array<bool>, i: nat) returns (wasClear: bool)
      requires i < bits.Length
      modifies bits
      ensures bits[..] == old(bits[..])[i := true] && wasClear == !old(bits[i])
    {
      wasClear := !bits[i];
      bits[i] := true;
    }
  }

  /** The state of the group loop after visiting `consumed`: those are the first surviving
      slots and the rest start at `next`, and the verdict, the mask and the group map are
      what Fold gives for them. */
  ghost predicate Visited(ex: set<nat>, arr: seq<FilterEntry>, count: nat, ps: seq<nat>, consumed: seq<nat>,
                          next: nat, verdict: Verdict, mask: ParamsMask, groups: set<nat>)
  {
    count <= |arr| && next <= count &&
    (forall j :: 0 <= j < |consumed| ==> consumed[j] < count) &&
    ps == consumed + SurvivorsFrom(ex, next, count) &&
    verdict == Fold(consumed, arr).verdict && mask == Fold(consumed, arr).mask && groups == Fold(consumed, arr).groups
  }

  /** When the loop has made all its rounds, or found no slot left, what it visited is the first
      `n` surviving slots. */
  lemma VisitedAll(ex: set<nat>, arr: seq<FilterEntry>, count: nat, consumed: seq<nat>, next: nat,
                   verdict: Verdict, mask: ParamsMask, groups: set<nat>, n: nat)
    requires Visited(ex, arr, count, Survivors(ex, count), consumed, next, verdict, mask, groups)
    requires |consumed| == n || (SurvivorsFrom(ex, next, count) == [] && |consumed| <= n)
    ensures verdict == Fold(Take(Survivors(ex, count), n), arr).verdict
    ensures mask == Fold(Take(Survivors(ex, count), n), arr).mask
  {
    TakeConsumed(consumed, SurvivorsFrom(ex, next, count), n);
  }

  /** One merge step of the group loop: the slot at `p` is skipped when the group map already
      holds its group; otherwise its group is recorded and its verdict and wish mask OR-ed in. */
  method MergeSlot(groupsmap: array<bool>, arr: seq<FilterEntry>, p: nat, verdict: Verdict, mask: ParamsMask,
                   ghost consumed: seq<nat>)
    returns (verdict': Verdict, mask': ParamsMask)
    requires groupsmap.Length == NumberOfBits && p < |arr|
    requires forall j :: 0 <= j < |consumed| ==> consumed[j] < |arr|
    requires verdict == Fold(consumed, arr).verdict && mask == Fold(consumed, arr).mask
    requires BitsOf(groupsmap[..]) == Fold(consumed, arr).groups
    modifies groupsmap
    ensures verdict' == Fold(consumed + [p], arr).verdict && mask' == Fold(consumed + [p], arr).mask
    ensures BitsOf(groupsmap[..]) == Fold(consumed + [p], arr).groups
  {
    var f := arr[p];
    FoldSnoc(consumed, p, arr);
    verdict', mask' := verdict, mask;
    if groupsmap[f.groupId] {
      // already exist filter from this group
      return;
    }
    ghost var before := groupsmap[..];
    BitsOfSet(before, f.groupId);
    groupsmap[f.groupId] := true;
    assert groupsmap[..] == before[f.groupId := true];
    verdict' := verdict | f.verdict;
    mask' := mask | f.wishMask;
  }

  /** The lowest slot below `n` whose busy bit is clear, or `n` when every one is busy. */
  function FirstFree(arr: seq<FilterEntry>, n: nat): (r: nat)
    requires n <= |arr|
    ensures r <= n && (r < n ==> !arr[r].busy)
    ensures forall i :: 0 <= i < r ==> arr[i].busy
    decreases n
  {
    if n == 0 then 0
    else
      var r := FirstFree(arr, n - 1);
      if r < n - 1 then r else if arr[n - 1].busy then n else n - 1
  }

  /** The index of the first failed allocation, or |allocs| when none fails. */
  function FirstFailure(allocs: seq<bool>): (k: nat)
    ensures k <= |allocs| && (k < |allocs| ==> !allocs[k])
    ensures forall j :: 0 <= j < k ==> allocs[j]
  {
    if allocs == [] then 0
    else if !allocs[0] then 0
    else 1 + FirstFailure(allocs[1..])
  }

  /** The invariant of a filter set on the values of its fields (see Filters.Valid). */
  ghost predicate Consistent(active: seq<bool>, groups: seq<bool>, groupCount: nat, count: nat,
                             arr: seq<FilterEntry>, list: seq<ParamCheckEntry>)
  {
    count <= |arr| && count <= |active| &&
    (forall i :: 0 <= i < count ==> arr[i].busy && active[i]) &&
    (forall i :: count <= i < |active| ==> !active[i]) &&
    // A position may equal count: an AddFilter whose parse fails after attaching some of its
    // parameters leaves their positions on the predicates without growing m_FilterCount.
    (forall j, q :: 0 <= j < |list| && q in list[j].filterPosList ==> q <= count) &&
    BitsOf(groups) == GroupsOf(arr, count) && groupCount == |BitsOf(groups)|
  }

  /** The group ids of the first `n` slots. */
  function GroupsOf(arr: seq<FilterEntry>, n: nat): (r: set<nat>)
    requires n <= |arr|
  {
    set i | 0 <= i < n :: arr[i].groupId as nat
  }

  // ---------------------------------------------------------------------
  // The invariant of a filter set across AddFilter.

  /** Slots below `n` that agree give the same groups. */
  lemma GroupsOfPrefix(a: seq<FilterEntry>, b: seq<FilterEntry>, n: nat)
    requires n <= |a| && n <= |b| && a[..n] == b[..n]
    ensures GroupsOf(a, n) == GroupsOf(b, n)
  {
    assert forall i :: 0 <= i < n ==> a[i] == a[..n][i] == b[i];
  }

  /** A slot put at index `n` adds its group. */
  lemma GroupsOfSnoc(arr: seq<FilterEntry>, n: nat, e: FilterEntry)
    requires n < |arr|
    ensures GroupsOf(arr[n := e], n + 1) == GroupsOf(arr, n) + {e.groupId as nat}
  {
    var arr' := arr[n := e];
    GroupsOfPrefix(arr, arr', n);
    assert arr'[n] == e;
  }

  /** The predicate list stays well formed, and bounded by `bound`, when the first `k` parameters
      are attached at a position within the bound. */
  lemma AttachKeepsList(list: seq<ParamCheckEntry>, ps: seq<ParamEntry>, k: nat, pos: ULong, bound: nat)
    requires forall j :: 0 <= j < |list| ==> list[j].WellFormed()
    requires forall j, q :: 0 <= j < |list| && q in list[j].filterPosList ==> q <= bound
    requires k <= |ps| && forall q :: q in ps ==> q.fltData.count > 0
    requires pos <= bound
    ensures var list' := AttachAll(list, ps[..k], pos);
      (forall j :: 0 <= j < |list'| ==> list'[j].WellFormed()) &&
      (forall j, q :: 0 <= j < |list'| && q in list'[j].filterPosList ==> q <= bound)
  {
    forall e | e in list ensures e.WellFormed() {
      var j :| 0 <= j < |list| && list[j] == e;
    }
    forall e, q | e in list && q in e.filterPosList ensures q <= bound {
      var j :| 0 <= j < |list| && list[j] == e;
    }
    assert forall q :: q in ps[..k] ==> q in ps;
    AttachAllWellFormed(list, ps[..k], pos);
    AttachAllPositions(list, ps[..k], pos, bound);
    var list' := AttachAll(list, ps[..k], pos);
    assert forall j :: 0 <= j < |list'| ==> list'[j] in list';
  }

  /** After a failed ParseParamsUnsafe the array has grown by a zeroed slot past `count` and the
      predicates attached so far hold `count` itself: the invariant survives. */
  lemma GrownKeepsConsistent(active: seq<bool>, groups: seq<bool>, groupCount: nat, count: nat,
                             arr: seq<FilterEntry>, list: seq<ParamCheckEntry>, list': seq<ParamCheckEntry>)
    requires Consistent(active, groups, groupCount, count, arr, list)
    requires forall j, q :: 0 <= j < |list'| && q in list'[j].filterPosList ==> q <= count
    ensures Consistent(active, groups, groupCount, count, arr[..count] + [ZeroedFilterEntry], list')
  {
    GroupsOfPrefix(arr, arr[..count] + [ZeroedFilterEntry], count);
  }

  /** A successful AddFilter puts a busy slot at `count`, marks it active and records its group:
      the invariant holds for `count + 1` filters. */
  lemma AddedKeepsConsistent(active: seq<bool>, groups: seq<bool>, groupCount: nat, count: nat,
                             arr: seq<FilterEntry>, list: seq<ParamCheckEntry>, list': seq<ParamCheckEntry>,
                             e: FilterEntry)
    requires Consistent(active, groups, groupCount, count, arr, list)
    requires count < |active| && count < |arr| && e.busy && e.groupId < |groups|
    requires forall j, q :: 0 <= j < |list'| && q in list'[j].filterPosList ==> q <= count + 1
    ensures Consistent(active[count := true], groups[e.groupId := true],
                       if groups[e.groupId] then groupCount else groupCount + 1,
                       count + 1, arr[count := e], list')
  {
    GroupsOfSnoc(arr, count, e);
    if groups[e.groupId] {
      assert groups[e.groupId := true] == groups;
    } else {
      BitsOfSet(groups, e.groupId);
    }
  }

  // ---------------------------------------------------------------------
  // Filter ids.

  /** InterlockedIncrement on the LONG m_FilterIdCounter: two's-complement wrap past 0x7FFFFFFF. */
  function NextId(x: Long): (r: Long)
    ensures r == if x < 0x7FFF_FFFF then x + 1 else -0x8000_0000
  {
    if x == 0x7FFF_FFFF then -0x8000_0000 else x + 1
  }

  /** The LONG id read as the ULONG m_FilterId: the same value modulo 2^32. */
  function AsULong(x: Long): (r: ULong)
    ensures r == x % 0x1_0000_0000
  {
    if x < 0 then x + 0x1_0000_0000 else x
  }

  /** The counter after `n` further calls of GetNextFilterid. */
  function IdAfter(start: Long, n: nat): Long
  {
    if n == 0 then start else NextId(IdAfter(start, n - 1))
  }

  /** As a ULONG, every call adds one modulo 2^32. */
  lemma {:induction false} IdAfterValue(start: Long, n: nat)
    ensures AsULong(IdAfter(start, n)) == (AsULong(start) + n) % 0x1_0000_0000
  {
    if n > 0 {
      IdAfterValue(start, n - 1);
    }
  }

  /** After Initialize the ids handed out are 1, 2, 3, ... up to 0x7FFFFFFF. */
  lemma {:induction false} IdsFromInitialize(n: nat)
    requires n <= 0x7FFF_FFFF
    ensures IdAfter(0, n) == n
  {
    if n > 0 {
      IdsFromInitialize(n - 1);
    }
  }

  /** Fewer than 2^32 calls apart, two ids differ: no filter id repeats before the ULONG wraps. */
  lemma IdsDistinct(start: Long, i: nat, j: nat)
    requires i < j < i + 0x1_0000_0000
    ensures AsULong(IdAfter(start, i)) != AsULong(IdAfter(start, j))
  {
    IdAfterValue(start, i);
    IdAfterValue(start, j);
  }

  // ---------------------------------------------------------------------

  /** m_Flags values. */
  const FtFlagsPaused: bv32 := 0x000
  const FtFlagsActive: bv32 := 0x001

  /** FiltersTree: the process-wide state kept in its static members. m_Tree is the map from an
      operation key to the filter set stored with it (null where that allocation failed); lookups
      go by Compare, which is equality of keys (FltKeys.Compare). m_Count, m_Flags and the filter
      id counter shared by every filter set complete it. */
  class FiltersTree {
    var tree: map<ItemKey, Filters?>
    var count: Long
    var flags: bv32
    var filterIdCounter: Long

    /** FiltersTree::FiltersTree does nothing: the statics start zeroed. */
    constructor ()
      ensures tree == map[] && count == 0 && flags == FtFlagsPaused && filterIdCounter == 0
    {
      tree := map[];
      count := 0;
      flags := FtFlagsPaused;
      filterIdCounter := 0;
    }

    /** FiltersTree::Initialize: an empty table, m_Count 0, paused, and the id counter at 0. */
    method Initialize()
      modifies this
      ensures tree == map[] && count == 0 && flags == FtFlagsPaused && filterIdCounter == 0
      ensures !IsActive()
    {
      tree := map[];
      count := 0;
      flags := FtFlagsPaused;
      filterIdCounter := 0;
    }

    /** FiltersTree::IsActive: the _FT_FLAGS_ACTIVE bit of m_Flags. */
    predicate IsActive()
      reads this
    {
      flags & FtFlagsActive != 0
    }

    /** FiltersTree::ChangeState: sets m_Flags to active or paused; always STATUS_SUCCESS. */
    method ChangeState(activate: bool) returns (status: NtStatus)
      modifies this`flags
      ensures status == StatusSuccess
      ensures IsActive() == activate
      ensures flags == if activate then FtFlagsActive else FtFlagsPaused
    {
      if activate {
        flags := FtFlagsActive;
      } else {
        flags := FtFlagsPaused;
      }
      return StatusSuccess;
    }

    /** FiltersTree::GetNextFilterid: the incremented counter. */
    method GetNextFilterid() returns (id: Long)
      modifies this`filterIdCounter
      ensures filterIdCounter == NextId(old(filterIdCounter)) && id == filterIdCounter
    {
      filterIdCounter := NextId(filterIdCounter);
      id := filterIdCounter;
    }

    /** FiltersTree::GetFiltersBy: the filter set stored for `key`, with a reference taken
        (`acquired` is the outcome of the rundown acquisition), or null when the key is absent
        or the reference is refused. It never inserts. */
    method GetFiltersBy(key: ItemKey, acquired: bool) returns (r: Filters?)
      requires key in tree ==> tree[key] != null
      ensures key !in tree ==> r == null
      ensures key in tree ==> r == if acquired then tree[key] else null
    {
      r := null;
      if key in tree {
        r := tree[key];
        var status := r.AddRef(acquired);
        if !NtSuccess(status) {
          r := null;
        }
      }
    }

    /** FiltersTree::GetOrCreateFiltersBy: on a present key the stored filter set with a reference
        taken. On a new key it inserts a node (`nodeAllocOk`), allocates and constructs a filter
        set (`filtersAllocOk`) and takes a reference; when the set cannot be allocated, or the new
        set refuses the reference and is destroyed, the node stays with a null set. */
    method GetOrCreateFiltersBy(key: ItemKey, nodeAllocOk: bool, filtersAllocOk: bool, acquired: bool)
      returns (r: Filters?)
      modifies this`tree
      ensures key in old(tree) ==>
                tree == old(tree) && r == if old(tree)[key] != null && acquired then old(tree)[key] else null
      ensures key !in old(tree) && !nodeAllocOk ==> tree == old(tree) && r == null
      ensures key !in old(tree) && nodeAllocOk && !(filtersAllocOk && acquired) ==>
                tree == old(tree)[key := null] && r == null
      ensures key !in old(tree) && nodeAllocOk && filtersAllocOk && acquired ==>
                r != null && fresh(r) && tree == old(tree)[key := r] &&
                r.Valid() && r.filterCount == 0 && r.groupCount == 0 && r.paramsCheckList == []
    {
      if key in tree {
        r := tree[key];
        if r != null {
          var status := r.AddRef(acquired);
          if !NtSuccess(status) {
            r := null;
          }
        }
        return;
      }
      if !nodeAllocOk {
        return null;
      }
      if !filtersAllocOk {
        tree := tree[key := null];
        return null;
      }
      r := new Filters();
      tree := tree[key := r];
      var status := r.AddRef(acquired);
      if !NtSuccess(status) {
        tree := tree[key := null];
        r := null;
      }
    }

    /** FiltersTree::DeleteAllFilters: removes the nodes one by one until the table is empty,
        then sets m_Count to 0. Destroying and freeing each node's filter set is not modelled. Every node must hold a filter set: the
        source asserts it and destroys it unconditionally. */
    method DeleteAllFilters()
      requires forall k :: k in tree ==> tree[k] != null
      modifies this`tree, this`count
      ensures tree == map[] && count == 0
    {
      while tree != map[]
        invariant forall k :: k in tree ==> tree[k] != null
        decreases |tree|
      {
        var k :| k in tree;
        tree := tree - {k};
      }
      count := 0;
    }
  }
}

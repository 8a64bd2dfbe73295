/** What Filters::GetVerdict decides, as values: which slots are excluded for an event,
    when the evaluation stops early, and how the surviving filters' verdicts and wish masks
    are merged one group at a time. The method in FltStore is proved against Decide. */
module FltVerdict {
  import opened NtDefs
  import opened FltStoreLayout
  import opened FltPredicates

  /** Every predicate of the list stores at least one literal, so it can be evaluated. */
  predicate Checkable(list: seq<ParamCheckEntry>)
  {
    forall j :: 0 <= j < |list| ==> list[j].data.count > 0
  }

  /** Whether a predicate of the list fails for the event (its status is not a success). */
  predicate Fails(e: ParamCheckEntry, ev: EventData)
    requires e.data.count > 0
  {
    !NtSuccess(CheckSingleEntryUnsafe(e, ev))
  }

  /** The slots below m_FilterCount whose m_ActiveFilters bit is clear. */
  function InactiveBelow(active: seq<bool>, count: nat): (r: set<nat>)
    ensures forall i: nat :: i in r <==> i < count && i < |active| && !active[i]
  {
    set i: nat | i < count && i < |active| && !active[i]
  }

  /** The positions of a m_FilterPosList, as a set. */
  function PositionsOf(s: seq<ULong>): (r: set<nat>)
    ensures forall q: nat :: q in r <==> q in s
  {
    set q | q in s :: q as nat
  }

  /** The slot positions attached to a predicate that fails for the event. */
  function FailingPositions(list: seq<ParamCheckEntry>, ev: EventData): (r: set<nat>)
    requires Checkable(list)
    decreases |list|
  {
    if list == [] then {}
    else
      var last := list[|list| - 1];
      var front := FailingPositions(list[..|list| - 1], ev);
      front + (if Fails(last, ev) then PositionsOf(last.filterPosList) else {})
  }

  /** A position is in FailingPositions exactly when some failing predicate of the list is
      attached to it. */
  lemma {:induction false} FailingPositionsMeaning(list: seq<ParamCheckEntry>, ev: EventData)
    requires Checkable(list)
    ensures forall j, q :: 0 <= j < |list| && q in list[j].filterPosList && Fails(list[j], ev) ==>
                           q as nat in FailingPositions(list, ev)
    ensures forall p :: p in FailingPositions(list, ev) ==>
                        exists j :: 0 <= j < |list| && p in list[j].filterPosList && Fails(list[j], ev)
    decreases |list|
  {
    if list != [] {
      var front := list[..|list| - 1];
      assert forall j :: 0 <= j < |front| ==> front[j] == list[j];
      FailingPositionsMeaning(front, ev);
    }
  }

  /** The slots GetVerdict marks in its scratch bitmap: inactive ones and those attached to a
      failing predicate. */
  function Excluded(active: seq<bool>, count: nat, list: seq<ParamCheckEntry>, ev: EventData): set<nat>
    requires Checkable(list)
  {
    InactiveBelow(active, count) + FailingPositions(list, ev)
  }

  /** The early exit of GetVerdict: the unmatched counter reaches m_FilterCount, either while
      marking inactive slots or inside CheckParamsList (STATUS_NOT_FOUND). */
  predicate ShortCircuits(count: nat, ex: set<nat>)
  {
    count > 0 && |ex| >= count
  }

  /** The slots in [from, count) that are not excluded, in ascending order. */
  function SurvivorsFrom(ex: set<nat>, from: nat, count: nat): (ps: seq<nat>)
    ensures forall j :: 0 <= j < |ps| ==> from <= ps[j] < count && ps[j] !in ex
    decreases count - from
  {
    if from >= count then []
    else if from in ex then SurvivorsFrom(ex, from + 1, count)
    else [from] + SurvivorsFrom(ex, from + 1, count)
  }

  /** The survivors are every slot in [from, count) that is not excluded, each once, in
      strictly ascending order: the order in which the group loop's search meets them. */
  lemma {:induction false} SurvivorsFromExact(ex: set<nat>, from: nat, count: nat)
    ensures var ps := SurvivorsFrom(ex, from, count);
      (forall i :: from <= i < count && i !in ex ==> i in ps) &&
      (forall j, k :: 0 <= j < k < |ps| ==> ps[j] < ps[k])
    decreases count - from
  {
    if from < count {
      SurvivorsFromExact(ex, from + 1, count);
    }
  }

  function Survivors(ex: set<nat>, count: nat): seq<nat>
  {
    SurvivorsFrom(ex, 0, count)
  }

  /** The first `n` elements, or all of them. */
  function Take(ps: seq<nat>, n: nat): (r: seq<nat>)
    ensures |r| == if n < |ps| then n else |ps|
    ensures r <= ps
  {
    if n < |ps| then ps[..n] else ps
  }

  /** The merge state of the group loop: verdict, wish mask and the groups seen so far. */
  datatype Tally = Tally(verdict: Verdict, mask: ParamsMask, groups: set<nat>)

  /** The group loop over the slots `ps` in order: a slot whose group was already seen is
      skipped, otherwise its verdict and wish mask are OR-ed in and its group recorded. */
  function Fold(ps: seq<nat>, arr: seq<FilterEntry>): (t: Tally)
    requires forall j :: 0 <= j < |ps| ==> ps[j] < |arr|
    decreases |ps|
  {
    if ps == [] then Tally(VerdictNotFiltered, 0, {})
    else
      var front := ps[..|ps| - 1];
      var t := Fold(front, arr);
      var f := arr[ps[|ps| - 1]];
      if f.groupId in t.groups then t
      else Tally(t.verdict | f.verdict, t.mask | f.wishMask, t.groups + {f.groupId})
  }

  /** The slot is the first of `ps` to carry its group: the one the loop merges. */
  predicate Leader(ps: seq<nat>, arr: seq<FilterEntry>, j: nat)
    requires j < |ps| && forall k :: 0 <= k < |ps| ==> ps[k] < |arr|
  {
    forall k :: 0 <= k < j ==> arr[ps[k]].groupId != arr[ps[j]].groupId
  }

  /** The OR of the verdicts, and of the wish masks, of all the slots in `ps`. */
  function OrAll(ps: seq<nat>, arr: seq<FilterEntry>): (t: Tally)
    requires forall j :: 0 <= j < |ps| ==> ps[j] < |arr|
    decreases |ps|
  {
    if ps == [] then Tally(VerdictNotFiltered, 0, {})
    else
      var t := OrAll(ps[..|ps| - 1], arr);
      var f := arr[ps[|ps| - 1]];
      Tally(t.verdict | f.verdict, t.mask | f.wishMask, t.groups + {f.groupId})
  }

  /** The merge keeps the verdict of every group leader. */
  lemma {:induction false} FoldKeepsLeaderVerdict(ps: seq<nat>, arr: seq<FilterEntry>, j: nat)
    requires forall k :: 0 <= k < |ps| ==> ps[k] < |arr|
    requires j < |ps| && Leader(ps, arr, j)
    ensures Fold(ps, arr).verdict | arr[ps[j]].verdict == Fold(ps, arr).verdict
    decreases |ps|
  {
    var front := ps[..|ps| - 1];
    if j < |front| {
      assert front[j] == ps[j];
      assert Leader(front, arr, j);
      FoldKeepsLeaderVerdict(front, arr, j);
    } else {
      LeaderIsMerged(ps, arr);
    }
  }

  /** The merge keeps the wish mask of every group leader. */
  lemma {:induction false} FoldKeepsLeaderMask(ps: seq<nat>, arr: seq<FilterEntry>, j: nat)
    requires forall k :: 0 <= k < |ps| ==> ps[k] < |arr|
    requires j < |ps| && Leader(ps, arr, j)
    ensures Fold(ps, arr).mask | arr[ps[j]].wishMask == Fold(ps, arr).mask
    decreases |ps|
  {
    var front := ps[..|ps| - 1];
    if j < |front| {
      assert front[j] == ps[j];
      assert Leader(front, arr, j);
      FoldKeepsLeaderMask(front, arr, j);
    } else {
      LeaderIsMerged(ps, arr);
    }
  }

  /** A last slot whose group has no earlier slot is merged. */
  lemma LeaderIsMerged(ps: seq<nat>, arr: seq<FilterEntry>)
    requires forall k :: 0 <= k < |ps| ==> ps[k] < |arr|
    requires |ps| > 0 && Leader(ps, arr, |ps| - 1)
    ensures arr[ps[|ps| - 1]].groupId !in Fold(ps[..|ps| - 1], arr).groups
  {
    var front := ps[..|ps| - 1];
    assert forall k :: 0 <= k < |front| ==> front[k] == ps[k];
    FoldGroupsCarried(front, arr);
  }

  /** Every group the merge has seen is the group of one of the slots it visited. */
  lemma {:induction false} FoldGroupsCarried(ps: seq<nat>, arr: seq<FilterEntry>)
    requires forall k :: 0 <= k < |ps| ==> ps[k] < |arr|
    ensures forall g :: g in Fold(ps, arr).groups ==> exists j :: 0 <= j < |ps| && arr[ps[j]].groupId == g
    decreases |ps|
  {
    if ps != [] {
      var front := ps[..|ps| - 1];
      assert forall k :: 0 <= k < |front| ==> front[k] == ps[k];
      FoldGroupsCarried(front, arr);
    }
  }

  /** The merge adds no verdict bit that no slot carries: its verdict lies within the OR over
      all slots. */
  lemma {:induction false} FoldVerdictWithin(ps: seq<nat>, arr: seq<FilterEntry>)
    requires forall k :: 0 <= k < |ps| ==> ps[k] < |arr|
    ensures Fold(ps, arr).verdict | OrAll(ps, arr).verdict == OrAll(ps, arr).verdict
    decreases |ps|
  {
    if ps != [] {
      FoldVerdictWithin(ps[..|ps| - 1], arr);
    }
  }

  /** Likewise for the wish mask. */
  lemma {:induction false} FoldMaskWithin(ps: seq<nat>, arr: seq<FilterEntry>)
    requires forall k :: 0 <= k < |ps| ==> ps[k] < |arr|
    ensures Fold(ps, arr).mask | OrAll(ps, arr).mask == OrAll(ps, arr).mask
    decreases |ps|
  {
    if ps != [] {
      FoldMaskWithin(ps[..|ps| - 1], arr);
    }
  }

  /** When the slots belong to pairwise distinct groups every slot is merged: the loop's result
      is the OR over all of them. */
  lemma {:induction false} DistinctGroupsAllContribute(ps: seq<nat>, arr: seq<FilterEntry>)
    requires forall j :: 0 <= j < |ps| ==> ps[j] < |arr|
    requires forall j, k :: 0 <= j < k < |ps| ==> arr[ps[j]].groupId != arr[ps[k]].groupId
    ensures Fold(ps, arr) == OrAll(ps, arr)
    decreases |ps|
  {
    if ps != [] {
      var front := ps[..|ps| - 1];
      assert forall k :: 0 <= k < |front| ==> front[k] == ps[k];
      DistinctGroupsAllContribute(front, arr);
      var f := arr[ps[|ps| - 1]];
      assert f.groupId !in Fold(front, arr).groups by {
        assert forall k :: 0 <= k < |front| ==> arr[front[k]].groupId != f.groupId;
        FoldGroupsCarried(front, arr);
      }
    }
  }

  /** The group leaders of `ps`, in order: the slots the group loop merges. */
  function Leaders(ps: seq<nat>, arr: seq<FilterEntry>): (r: seq<nat>)
    requires forall j :: 0 <= j < |ps| ==> ps[j] < |arr|
    ensures |r| <= |ps|
    ensures forall k :: 0 <= k < |r| ==> r[k] < |arr|
    decreases |ps|
  {
    if ps == [] then []
    else
      var front := ps[..|ps| - 1];
      Leaders(front, arr) + (if Leader(ps, arr, |ps| - 1) then [ps[|ps| - 1]] else [])
  }

  /** Every slot the merge visits has its group recorded. */
  lemma {:induction false} FoldGroupsSeen(ps: seq<nat>, arr: seq<FilterEntry>)
    requires forall k :: 0 <= k < |ps| ==> ps[k] < |arr|
    ensures forall k :: 0 <= k < |ps| ==> arr[ps[k]].groupId in Fold(ps, arr).groups
    decreases |ps|
  {
    if ps != [] {
      var front := ps[..|ps| - 1];
      assert forall k :: 0 <= k < |front| ==> front[k] == ps[k];
      FoldGroupsSeen(front, arr);
    }
  }

  /** Group priority, exactly: the group loop's verdict, wish mask and group set are the OR over
      the group leaders and nothing else; a later slot of a group already seen adds nothing. */
  lemma {:induction false} FoldIsOrOfLeaders(ps: seq<nat>, arr: seq<FilterEntry>)
    requires forall j :: 0 <= j < |ps| ==> ps[j] < |arr|
    ensures Fold(ps, arr) == OrAll(Leaders(ps, arr), arr)
    decreases |ps|
  {
    if ps != [] {
      var front := ps[..|ps| - 1];
      assert forall k :: 0 <= k < |front| ==> front[k] == ps[k];
      FoldIsOrOfLeaders(front, arr);
      if Leader(ps, arr, |ps| - 1) {
        LeaderIsMerged(ps, arr);
        OrAllAppend(Leaders(front, arr), ps[|ps| - 1], arr);
      } else {
        NonLeaderSkipped(ps, arr);
      }
    }
  }

  /** A last slot whose group an earlier slot already carries changes neither the merge nor the
      leaders. */
  lemma NonLeaderSkipped(ps: seq<nat>, arr: seq<FilterEntry>)
    requires forall j :: 0 <= j < |ps| ==> ps[j] < |arr|
    requires |ps| > 0 && !Leader(ps, arr, |ps| - 1)
    ensures Fold(ps, arr) == Fold(ps[..|ps| - 1], arr)
    ensures Leaders(ps, arr) == Leaders(ps[..|ps| - 1], arr)
  {
    var front := ps[..|ps| - 1];
    var k :| 0 <= k < |ps| - 1 && arr[ps[k]].groupId == arr[ps[|ps| - 1]].groupId;
    FoldGroupsSeen(front, arr);
    assert front[k] == ps[k];
  }

  /** OR-ing one more slot onto a run of them. */
  lemma OrAllAppend(l: seq<nat>, x: nat, arr: seq<FilterEntry>)
    requires forall k :: 0 <= k < |l| ==> l[k] < |arr|
    requires x < |arr|
    ensures var t := OrAll(l, arr); var f := arr[x];
      OrAll(l + [x], arr) == Tally(t.verdict | f.verdict, t.mask | f.wishMask, t.groups + {f.groupId})
  {
    assert (l + [x])[..|l|] == l;
  }

  /** GetVerdict as written (with the slot search bounded at m_FilterCount): on the early exit
      the verdict is VERDICT_NOT_FILTERED and the caller's mask is left alone; otherwise the
      group loop runs m_GroupCount times over the surviving slots in ascending order. */
  function Decide(active: seq<bool>, count: nat, groupCount: nat, arr: seq<FilterEntry>,
                  list: seq<ParamCheckEntry>, ev: EventData, maskIn: ParamsMask): (Verdict, ParamsMask)
    requires Checkable(list) && count <= |arr|
  {
    var ex := Excluded(active, count, list, ev);
    if ShortCircuits(count, ex) then (VerdictNotFiltered, maskIn)
    else
      var t := Fold(Take(Survivors(ex, count), groupCount), arr);
      (t.verdict, t.mask)
  }

  /** The group loop as evidently intended: one merged filter for every group with a survivor. */
  function IntendedDecide(active: seq<bool>, count: nat, arr: seq<FilterEntry>,
                          list: seq<ParamCheckEntry>, ev: EventData, maskIn: ParamsMask): (Verdict, ParamsMask)
    requires Checkable(list) && count <= |arr|
  {
    var ex := Excluded(active, count, list, ev);
    if ShortCircuits(count, ex) then (VerdictNotFiltered, maskIn)
    else
      var t := Fold(Survivors(ex, count), arr);
      (t.verdict, t.mask)
  }

  /** The intended merge: every surviving filter whose group has no earlier survivor has its
      verdict and wish mask in the result, and no bit comes from a filter that did not survive. */
  lemma IntendedDecideCoversGroups(active: seq<bool>, count: nat, arr: seq<FilterEntry>,
                                   list: seq<ParamCheckEntry>, ev: EventData, maskIn: ParamsMask, j: nat)
    requires Checkable(list) && count <= |arr|
    requires !ShortCircuits(count, Excluded(active, count, list, ev))
    requires j < |Survivors(Excluded(active, count, list, ev), count)|
    requires Leader(Survivors(Excluded(active, count, list, ev), count), arr, j)
    ensures var f := arr[Survivors(Excluded(active, count, list, ev), count)[j]];
      IntendedDecide(active, count, arr, list, ev, maskIn).0 | f.verdict == IntendedDecide(active, count, arr, list, ev, maskIn).0 &&
      IntendedDecide(active, count, arr, list, ev, maskIn).1 | f.wishMask == IntendedDecide(active, count, arr, list, ev, maskIn).1
  {
    var ps := Survivors(Excluded(active, count, list, ev), count);
    FoldKeepsLeaderVerdict(ps, arr, j);
    FoldKeepsLeaderMask(ps, arr, j);
  }

  /** ... and adds no bit that no surviving filter carries. */
  lemma IntendedDecideWithinSurvivors(active: seq<bool>, count: nat, arr: seq<FilterEntry>,
                                      list: seq<ParamCheckEntry>, ev: EventData, maskIn: ParamsMask)
    requires Checkable(list) && count <= |arr|
    requires !ShortCircuits(count, Excluded(active, count, list, ev))
    ensures var o := OrAll(Survivors(Excluded(active, count, list, ev), count), arr);
      IntendedDecide(active, count, arr, list, ev, maskIn).0 | o.verdict == o.verdict &&
      IntendedDecide(active, count, arr, list, ev, maskIn).1 | o.mask == o.mask
  {
    FoldVerdictWithin(Survivors(Excluded(active, count, list, ev), count), arr);
    FoldMaskWithin(Survivors(Excluded(active, count, list, ev), count), arr);
  }

  /** When the early exit happens, under the store's invariant that no predicate holds a
      position past m_FilterCount. Without a stale position (one equal to m_FilterCount, left
      behind by an AddFilter whose parse failed), the exit happens exactly when there is a filter
      and every filter is inactive or fails one of its predicates. When a stale position fails
      its predicate it counts towards the total too, so the exit also happens with one filter
      still live (StaleAttachmentHidesLiveFilter shows this) but never with two. */
  lemma TotalExclusion(active: seq<bool>, count: nat, list: seq<ParamCheckEntry>, ev: EventData)
    requires Checkable(list)
    requires forall j, q :: 0 <= j < |list| && q in list[j].filterPosList ==> q <= count
    ensures var ex := Excluded(active, count, list, ev);
      count !in ex ==> (ShortCircuits(count, ex) <==> count > 0 && forall i: nat :: i < count ==> i in ex)
    ensures var ex := Excluded(active, count, list, ev);
      count in ex ==> (ShortCircuits(count, ex) <==>
        count > 0 && forall i: nat, j: nat :: i < count && j < count && i !in ex && j !in ex ==> i == j)
  {
    var ex := Excluded(active, count, list, ev);
    FailingPositionsMeaning(list, ev);
    assert forall i :: i in ex ==> i <= count;
    if count !in ex {
      if ShortCircuits(count, ex) {
        FullRange(ex, count);
      }
      if count > 0 && forall i: nat :: i < count ==> i in ex {
        SubsetCard(Range(count), ex);
      }
    } else {
      if ShortCircuits(count, ex) {
        forall i: nat, j: nat | i < count && j < count && i !in ex && j !in ex ensures i == j {
          if i != j {
            StaleExitLeavesOne(ex, count, i, j);
          }
        }
      }
      if count > 0 && forall i: nat, j: nat :: i < count && j < count && i !in ex && j !in ex ==> i == j {
        StaleExitCard(ex, count);
      }
    }
  }

  /** A subset of {0, .., n} missing two distinct members has fewer than n elements. */
  lemma StaleExitLeavesOne(ex: set<nat>, n: nat, i: nat, j: nat)
    requires forall k :: k in ex ==> k <= n
    requires i < n && j < n && i != j && i !in ex && j !in ex
    ensures |ex| < n
  {
    var r := Range(n + 1) - {i} - {j};
    CardRemove(Range(n + 1), i);
    CardRemove(Range(n + 1) - {i}, j);
    SubsetCard(ex, r);
  }

  /** A subset of {0, .., n} holding n and missing at most one member below n has at least n
      elements. */
  lemma StaleExitCard(ex: set<nat>, n: nat)
    requires n > 0 && n in ex
    requires forall i: nat, j: nat :: i < n && j < n && i !in ex && j !in ex ==> i == j
    ensures |ex| >= n
  {
    if forall i: nat :: i < n ==> i in ex {
      SubsetCard(Range(n), ex);
    } else {
      var s: nat :| s < n && s !in ex;
      var r := Range(n + 1) - {s};
      CardRemove(Range(n + 1), s);
      SubsetCard(r, ex);
    }
  }

  /** A 256-bit map with the first `n` bits set. */
  function ActiveUpTo(n: nat): (bits: seq<bool>)
    ensures |bits| == NumberOfBits
  {
    seq(NumberOfBits, i => i < n)
  }

  // ---------------------------------------------------------------------
  // The slot search of the group loop.

  /** The lowest clear bit in [from, limit), or `limit` when there is none. */
  function FirstClear(bits: seq<bool>, from: nat, limit: nat): (r: nat)
    requires from <= limit <= |bits|
    ensures from <= r <= limit
    ensures forall i :: from <= i < r ==> bits[i]
    ensures r < limit ==> !bits[r]
    decreases limit - from
  {
    if from == limit || !bits[from] then from else FirstClear(bits, from + 1, limit)
  }

  /** RtlFindClearBits(bitmap, 1, hint) as the group loop calls it: a hint past the end restarts
      at 0, the search runs from the hint to the end of the whole 256-bit map and then wraps
      to the start; 0xFFFFFFFF when every bit is set. It is not bounded by m_FilterCount. */
  function FindClearBitsFromHint(bits: seq<bool>, hint: ULong): (r: ULong)
    requires |bits| < 0xFFFF_FFFF
    ensures r == 0xFFFF_FFFF <==> forall i :: 0 <= i < |bits| ==> bits[i]
    ensures r != 0xFFFF_FFFF ==> r < |bits| && !bits[r]
  {
    var h := if hint >= |bits| then 0 else hint;
    var a := FirstClear(bits, h, |bits|);
    if a < |bits| then a
    else
      var b := FirstClear(bits, 0, h);
      if b < h then b else 0xFFFF_FFFF
  }

  /** The slots the group loop as written reads for `n` iterations: `position` starts at
      (ULONG)-1, so the first hint is 0, and each search starts one past the previous hit. */
  function AsWrittenVisits(bits: seq<bool>, hint: ULong, n: nat): (r: seq<ULong>)
    requires |bits| < 0xFFFF_FFFF
    ensures |r| == n
    decreases n
  {
    if n == 0 then []
    else
      var p := FindClearBitsFromHint(bits, hint);
      [p] + AsWrittenVisits(bits, (p + 1) % 0x1_0000_0000, n - 1)
  }

  /** Two filters in two groups, slot 0 excluded: the second iteration of the group loop as
      written finds bit 2 clear (it lies past m_FilterCount, so nothing ever sets it) and reads
      m_FiltersArray[2] of a two-slot array. */
  lemma {:induction false} UnboundedSearchReadsPastArray()
    ensures var bits := ActiveUpTo(0)[0 := true];
      AsWrittenVisits(bits, 0, 2) == [1, 2]
  {
    var bits := ActiveUpTo(0)[0 := true];
    assert FirstClear(bits, 2, |bits|) == 2;
    assert FirstClear(bits, 1, |bits|) == 1;
    assert FirstClear(bits, 0, |bits|) == 1;
    assert FindClearBitsFromHint(bits, 0) == 1;
    assert FindClearBitsFromHint(bits, 2) == 2;
    assert AsWrittenVisits(bits, 3, 0) == [];
    assert AsWrittenVisits(bits, 2, 1) == [2];
  }

  // ---------------------------------------------------------------------
  // Consequences for callers.

  /** A filter as AddFilter stores it. */
  function Slot(groupId: UChar, verdict: Verdict, wishMask: ParamsMask): FilterEntry
  {
    FilterEntry(true, 0, groupId, verdict, 0, wishMask, 0)
  }

  /** Three live filters, the first two in group 1 and the third in group 2, no predicates:
      m_GroupCount is 2, the loop as written spends its second iteration skipping slot 1 and
      never reaches group 2, while the intended merge takes the leader of each group. */
  lemma SkippedSlotLosesGroup(ev: EventData, maskIn: ParamsMask)
    ensures var arr := [Slot(1, 1, 1), Slot(1, 2, 2), Slot(2, 4, 4)];
      var active := ActiveUpTo(3);
      Decide(active, 3, 2, arr, [], ev, maskIn) == (1, 1) &&
      IntendedDecide(active, 3, arr, [], ev, maskIn) == (5, 5)
  {
    var arr := [Slot(1, 1, 1), Slot(1, 2, 2), Slot(2, 4, 4)];
    var active := ActiveUpTo(3);
    NothingExcluded(active, ev);
    ThreeSurvivors();
    FoldThree(arr);
  }

  lemma NothingExcluded(active: seq<bool>, ev: EventData)
    requires active == ActiveUpTo(3)
    ensures Excluded(active, 3, [], ev) == {}
  {
    assert InactiveBelow(active, 3) == {};
  }

  lemma ThreeSurvivors()
    ensures Survivors({}, 3) == [0, 1, 2]
    ensures Take(Survivors({}, 3), 2) == [0, 1]
  {
    assert SurvivorsFrom({}, 3, 3) == [];
    assert SurvivorsFrom({}, 2, 3) == [2];
    assert SurvivorsFrom({}, 1, 3) == [1, 2];
    assert [0, 1, 2][..2] == [0, 1];
  }

  lemma FoldThree(arr: seq<FilterEntry>)
    requires arr == [Slot(1, 1, 1), Slot(1, 2, 2), Slot(2, 4, 4)]
    ensures Fold([0, 1], arr) == Tally(1, 1, {1})
    ensures Fold([0, 1, 2], arr) == Tally(5, 5, {1, 2})
  {
    assert [0, 1, 2][..2] == [0, 1] && [0, 1][..1] == [0] && [0][..0] == [];
    assert Fold([0], arr) == Tally(1, 1, {1});
  }

  /** Without stored positions at or past m_FilterCount, a filter that survives keeps the
      evaluation going; but a position left behind by an AddFilter whose parameters could not
      all be attached is counted in `unmatched` too. One live filter without predicates and one
      failing predicate still holding the stale position 1 make GetVerdict give up with
      VERDICT_NOT_FILTERED although slot 0 matched. */
  lemma StaleAttachmentHidesLiveFilter(ev: EventData, maskIn: ParamsMask, p: ParameterId, v: Verdict, m: ParamsMask)
    ensures var list := [ParamCheckEntry(p, FltOpOther(0), 0, 1, [1], FltData(1, [0]))];
      var active := ActiveUpTo(1);
      0 !in Excluded(active, 1, list, ev) &&
      Decide(active, 1, 1, [Slot(1, v, m)], list, ev, maskIn) == (VerdictNotFiltered, maskIn)
  {
    var list := [ParamCheckEntry(p, FltOpOther(0), 0, 1, [1], FltData(1, [0]))];
    var active := ActiveUpTo(1);
    assert Fails(list[0], ev);
    assert list[..0] == [];
    assert FailingPositions(list, ev) == {1};
    assert InactiveBelow(active, 1) == {};
    assert Excluded(active, 1, list, ev) == {1};
  }

  // ---------------------------------------------------------------------
  // Two filters in two groups.

  /** Filter A in group 1 (verdict `deny`, wish mask 0x1) tests `path` for equality with
      `secret`; filter B in group 2 (verdict `audit`, wish mask 0x2) tests `pid` for a bit in
      common with the ULONG 0x4. */
  function ScenarioList(path: ParameterId, pid: ParameterId, secret: seq<Byte>): seq<ParamCheckEntry>
  {
    [ParamCheckEntry(path, FltOpEqu, 0, 1, [0], FltData(1, secret)),
     ParamCheckEntry(pid, FltOpAnd, 0, 1, [1], FltData(1, [4, 0, 0, 0]))]
  }

  function ScenarioEvent(path: ParameterId, pathValue: seq<Byte>, pidValue: seq<Byte>): EventData
  {
    (id: ParameterId) => if id == path then Found(pathValue) else Found(pidValue)
  }

  /** Which of the two predicates fail for an event: the path predicate exactly when the
      path differs from `secret`, the pid predicate exactly when the low byte of the pid
      lacks bit 0x4. */
  lemma ScenarioChecks(path: ParameterId, pid: ParameterId, secret: seq<Byte>, pathValue: seq<Byte>, low: Byte)
    requires path != pid
    ensures var list := ScenarioList(path, pid, secret);
      var ev := ScenarioEvent(path, pathValue, [low, 0, 0, 0]);
      Checkable(list) &&
      (Fails(list[0], ev) <==> pathValue != secret) &&
      (Fails(list[1], ev) <==> 4 & low == 0)
  {
    var list := ScenarioList(path, pid, secret);
    assert list[0].data.ItemSize() == |secret|;
    assert list[0].data.Literal(0) == secret;
    assert list[1].data.ItemSize() == 4;
  }

  /** A matching path and a pid with bit 0x4 set: both groups contribute. */
  lemma ScenarioBothMatch(path: ParameterId, pid: ParameterId, secret: seq<Byte>, deny: Verdict, audit: Verdict, maskIn: ParamsMask)
    requires path != pid
    ensures var ev := ScenarioEvent(path, secret, [4, 0, 0, 0]);
      Decide(ActiveUpTo(2), 2, 2, [Slot(1, deny, 1), Slot(2, audit, 2)],
             ScenarioList(path, pid, secret), ev, maskIn) == (deny | audit, 3)
  {
    var list := ScenarioList(path, pid, secret);
    var ev := ScenarioEvent(path, secret, [4, 0, 0, 0]);
    var active := ActiveUpTo(2);
    ScenarioChecks(path, pid, secret, secret, 4);
    ScenarioExcluded(active, list, ev, {});
    ScenarioSurvivors({}, [0, 1]);
    var arr := [Slot(1, deny, 1), Slot(2, audit, 2)];
    assert Take([0, 1], 2) == [0, 1];
    TwoFold(deny, audit);
    var t := Fold([0, 1], arr);
    assert !ShortCircuits(2, Excluded(active, 2, list, ev));
    assert Decide(active, 2, 2, arr, list, ev, maskIn) == (t.verdict, t.mask);
  }

  /** Another path and the same pid: only group 2 contributes. */
  lemma ScenarioOnlyAudit(path: ParameterId, pid: ParameterId, secret: seq<Byte>, other: seq<Byte>,
                          deny: Verdict, audit: Verdict, maskIn: ParamsMask)
    requires path != pid && other != secret
    ensures var ev := ScenarioEvent(path, other, [4, 0, 0, 0]);
      Decide(ActiveUpTo(2), 2, 2, [Slot(1, deny, 1), Slot(2, audit, 2)],
             ScenarioList(path, pid, secret), ev, maskIn) == (audit, 2)
  {
    var list := ScenarioList(path, pid, secret);
    var ev := ScenarioEvent(path, other, [4, 0, 0, 0]);
    var active := ActiveUpTo(2);
    ScenarioChecks(path, pid, secret, other, 4);
    ScenarioExcluded(active, list, ev, {0});
    ScenarioSurvivors({0}, [1]);
    var arr := [Slot(1, deny, 1), Slot(2, audit, 2)];
    assert Take([1], 2) == [1];
    assert [1][..0] == [];
    var t := Fold([1], arr);
    assert t == Tally(audit, 2, {2});
    var ex := Excluded(active, 2, list, ev);
    assert !ShortCircuits(2, ex);
    assert Take(Survivors(ex, 2), 2) == [1];
    assert Decide(active, 2, 2, arr, list, ev, maskIn) == (t.verdict, t.mask);
  }

  /** Another path and a pid without bit 0x4: every filter is excluded and the evaluation
      stops with VERDICT_NOT_FILTERED, the caller's mask untouched. */
  lemma ScenarioNoMatch(path: ParameterId, pid: ParameterId, secret: seq<Byte>, other: seq<Byte>,
                        deny: Verdict, audit: Verdict, maskIn: ParamsMask)
    requires path != pid && other != secret
    ensures var ev := ScenarioEvent(path, other, [1, 0, 0, 0]);
      Decide(ActiveUpTo(2), 2, 2, [Slot(1, deny, 1), Slot(2, audit, 2)],
             ScenarioList(path, pid, secret), ev, maskIn) == (VerdictNotFiltered, maskIn)
  {
    var list := ScenarioList(path, pid, secret);
    var ev := ScenarioEvent(path, other, [1, 0, 0, 0]);
    var active := ActiveUpTo(2);
    ScenarioChecks(path, pid, secret, other, 1);
    ScenarioExcluded(active, list, ev, {0, 1});
  }

  lemma ScenarioExcluded(active: seq<bool>, list: seq<ParamCheckEntry>, ev: EventData, ex: set<nat>)
    requires active == ActiveUpTo(2)
    requires |list| == 2 && Checkable(list)
    requires list[0].filterPosList == [0] && list[1].filterPosList == [1]
    requires ex == (if Fails(list[0], ev) then {0} else {}) + (if Fails(list[1], ev) then {1} else {})
    ensures Excluded(active, 2, list, ev) == ex
  {
    assert InactiveBelow(active, 2) == {};
    assert list[..1][..0] == [] && list[..2 - 1] == list[..1];
    assert FailingPositions(list[..1], ev) == (if Fails(list[0], ev) then {0} else {});
  }

  lemma ScenarioSurvivors(ex: set<nat>, ps: seq<nat>)
    requires ex <= {0, 1} && ps == (if 0 in ex then [] else [0]) + (if 1 in ex then [] else [1])
    ensures Survivors(ex, 2) == ps
  {
    assert SurvivorsFrom(ex, 2, 2) == [];
  }

  lemma TwoFold(deny: Verdict, audit: Verdict)
    ensures Fold([0, 1], [Slot(1, deny, 1), Slot(2, audit, 2)]) == Tally(deny | audit, 3, {1, 2})
  {
    var arr := [Slot(1, deny, 1), Slot(2, audit, 2)];
    OneFold(deny, arr);
    assert [0, 1][..1] == [0];
    var t := Fold([0, 1], arr);
    assert 2 !in Fold([0], arr).groups;
    assert t.groups == {1, 2} by { assert {1} + {2} == {1, 2}; }
    assert t.mask == 3 by { OrConstants(); }
  }

  lemma OneFold(deny: Verdict, arr: seq<FilterEntry>)
    requires |arr| == 2 && arr[0] == Slot(1, deny, 1)
    ensures Fold([0], arr) == Tally(deny, 1, {1})
  {
    assert [0][..0] == [];
  }

  lemma OrConstants()
    ensures (1 as ParamsMask) | 2 == 3
  {
  }
}

/** Parameter predicates of drv/fltstore.cpp: evaluating one ParamCheckEntry
    against the intercepted operation (CheckSingleEntryUnsafe), and the value
    model of the deduplicated predicate list that AddFilter grows
    (TryToFindExisting / AddParameterWithFilterPos / ParseParamsUnsafe). */
module FltPredicates {
  import opened NtDefs
  import opened FltStoreLayout

  /** What EventData::QueryParameter answers for one parameter: its bytes, or a failure code. */
  datatype QueryResult = Found(data: seq<Byte>) | Failed(status: NtError)

  /** The intercepted operation, seen only through QueryParameter; it answers the same on every call. */
  type EventData = ParameterId -> QueryResult

  /** The ULONG stored little-endian in the first four bytes. */
  function ULongAt(b: seq<Byte>): bv32
    requires |b| >= 4
  {
    ULong4(b[0], b[1], b[2], b[3])
  }

  /** Two ULONGs share a set bit exactly when one of their byte pairs does. */
  lemma ULongAndNonZero(a0: Byte, a1: Byte, a2: Byte, a3: Byte, b0: Byte, b1: Byte, b2: Byte, b3: Byte)
    ensures ULong4(a0, a1, a2, a3) & ULong4(b0, b1, b2, b3) != 0 <==>
            (a0 & b0 != 0 || a1 & b1 != 0 || a2 & b2 != 0 || a3 & b3 != 0)
  {
  }

  /** Reference meaning of a predicate before negation: for _fltop_equ the observed value has the
      literal width and equals one of the packed literals; for _fltop_and the width is that of the
      literal and of a ULONG and some byte of the observed value shares a bit with the literal;
      any other operator never matches. */
  ghost predicate LiteralMatches(e: ParamCheckEntry, observed: seq<Byte>)
    requires e.data.count > 0
  {
    match e.operation
    case FltOpEqu =>
      |observed| == e.data.ItemSize() &&
      exists k :: 0 <= k < e.data.count && e.data.Literal(k) == observed
    case FltOpAnd =>
      |observed| == e.data.ItemSize() && |observed| == 4 &&
      (e.data.data[0] & observed[0] != 0 || e.data.data[1] & observed[1] != 0 ||
       e.data.data[2] & observed[2] != 0 || e.data.data[3] & observed[3] != 0)
    case FltOpOther(_) => false
  }

  /** The _PARAM_ENTRY_FLAG_NEGATION bit of a predicate. */
  predicate Negated(e: ParamCheckEntry) { e.flags & ParamEntryFlagNegation != 0 }

  /** The literal scan of _fltop_equ from literal `item` on: is `observed` one of the remaining literals? */
  function ScanLiterals(d: FltData, observed: seq<Byte>, item: nat): (found: bool)
    requires d.count > 0 && |observed| == d.ItemSize() && item <= d.count
    ensures found <==> exists k :: item <= k < d.count && d.Literal(k) == observed
    decreases d.count - item
  {
    if item == d.count then false
    else if d.Literal(item) == observed then true
    else ScanLiterals(d, observed, item + 1)
  }

  /** The _fltop_and comparison: the observed ULONG shares a bit with the first literal. */
  function AndMatches(d: FltData, observed: seq<Byte>): (m: bool)
    requires d.count > 0
    ensures m <==> (|observed| == d.ItemSize() && |observed| == 4 &&
      (d.data[0] & observed[0] != 0 || d.data[1] & observed[1] != 0 ||
       d.data[2] & observed[2] != 0 || d.data[3] & observed[3] != 0))
  {
    if |observed| == d.ItemSize() && |observed| == 4 then
      LiteralInBlock(0, 4, d.count, |d.data|);
      ULongAndNonZero(d.data[0], d.data[1], d.data[2], d.data[3], observed[0], observed[1], observed[2], observed[3]);
      ULongAt(d.data) & ULongAt(observed) != 0
    else
      false
  }

  /** The operator switch of CheckSingleEntryUnsafe, before negation. */
  function Matches(e: ParamCheckEntry, observed: seq<Byte>): (m: bool)
    requires e.data.count > 0
    ensures m <==> LiteralMatches(e, observed)
  {
    match e.operation
    case FltOpEqu => |observed| == e.data.ItemSize() && ScanLiterals(e.data, observed, 0)
    case FltOpAnd => AndMatches(e.data, observed)
    case FltOpOther(_) => false
  }

  /** CheckSingleEntryUnsafe. A failed query is returned unchanged and never negated; otherwise
      the result is STATUS_SUCCESS exactly when the predicate matches, inverted by the negation
      flag, and STATUS_UNSUCCESSFUL when it does not. An _fltop_and literal whose width is not
      that of a ULONG hits a __debugbreak in the source; past it the result is a mismatch. */
  function CheckSingleEntryUnsafe(e: ParamCheckEntry, ev: EventData): (status: NtStatus)
    requires e.data.count > 0
    ensures ev(e.parameter).Failed? ==> status == ev(e.parameter).status
    ensures ev(e.parameter).Found? ==>
      (status == StatusSuccess || status == StatusUnsuccessful) &&
      (NtSuccess(status) <==> LiteralMatches(e, ev(e.parameter).data) != Negated(e))
  {
    match ev(e.parameter)
    case Failed(s) => s
    case Found(observed) =>
      if Matches(e, observed) != Negated(e) then StatusSuccess else StatusUnsuccessful
  }

  // ---------------------------------------------------------------------
  // The deduplicated predicate list, as values.

  /** TryToFindExisting's test: same operator, same flags, same data size and same literal bytes.
      Neither the parameter id nor the literal count is compared. */
  predicate SameLiteral(e: ParamCheckEntry, p: ParamEntry)
  {
    e.operation == p.operation && e.flags == p.flags &&
    e.data.DataSize() == p.fltData.DataSize() && e.data.data == p.fltData.data
  }

  /** The first entry, from index `from` on, that a new parameter would merge into. */
  function FindExistingFrom(list: seq<ParamCheckEntry>, p: ParamEntry, from: nat): (r: Option<nat>)
    requires from <= |list|
    ensures r.Some? ==> from <= r.value < |list| && SameLiteral(list[r.value], p) &&
                        forall i :: from <= i < r.value ==> !SameLiteral(list[i], p)
    ensures r.None? ==> forall i :: from <= i < |list| ==> !SameLiteral(list[i], p)
    decreases |list| - from
  {
    if from == |list| then None
    else if SameLiteral(list[from], p) then Some(from)
    else FindExistingFrom(list, p, from + 1)
  }

  function FindExisting(list: seq<ParamCheckEntry>, p: ParamEntry): Option<nat>
  {
    FindExistingFrom(list, p, 0)
  }

  /** The merge of TryToFindExisting: the position is appended and m_PosCount grows by one. */
  function AttachPosition(e: ParamCheckEntry, pos: ULong): ParamCheckEntry
  {
    e.(filterPosList := e.filterPosList + [pos], posCount := e.posCount + 1)
  }

  /** The entry AddParameterWithFilterPos creates: one position, a byte copy of the literals. */
  function NewEntry(p: ParamEntry, pos: ULong): ParamCheckEntry
  {
    ParamCheckEntry(p.id, p.operation, p.flags, 1, [pos], FltData(p.fltData.count, p.fltData.data))
  }

  /** A successful AddParameterWithFilterPos: merge into the first entry with the same literal,
      or add a new entry at the tail. */
  function AttachParam(list: seq<ParamCheckEntry>, p: ParamEntry, pos: ULong): seq<ParamCheckEntry>
  {
    match FindExisting(list, p)
    case Some(i) => list[i := AttachPosition(list[i], pos)]
    case None => list + [NewEntry(p, pos)]
  }

  /** ParseParamsUnsafe over parameters that all attach successfully. */
  function AttachAll(list: seq<ParamCheckEntry>, ps: seq<ParamEntry>, pos: ULong): seq<ParamCheckEntry>
    decreases |ps|
  {
    if ps == [] then list else AttachAll(AttachParam(list, ps[0], pos), ps[1..], pos)
  }

  /** Attaching one more parameter after a run of them is one more AttachParam step: the loop of
      ParseParamsUnsafe builds AttachAll one parameter at a time. */
  lemma {:induction false} AttachAllSnoc(list: seq<ParamCheckEntry>, ps: seq<ParamEntry>, p: ParamEntry, pos: ULong)
    ensures AttachAll(list, ps + [p], pos) == AttachParam(AttachAll(list, ps, pos), p, pos)
    decreases |ps|
  {
    if ps == [] {
      assert [] + [p] == [p] && [p][1..] == [];
    } else {
      assert (ps + [p])[0] == ps[0] && (ps + [p])[1..] == ps[1..] + [p];
      AttachAllSnoc(AttachParam(list, ps[0], pos), ps[1..], p, pos);
    }
  }

  /** Attaching a parameter keeps every entry and every stored position; it adds `pos` to the
      entry the parameter merged into, or appends a new entry holding only `pos`; the merged-into
      entry keeps its own parameter id and literal count. */
  lemma AttachParamEffect(list: seq<ParamCheckEntry>, p: ParamEntry, pos: ULong)
    ensures var r := AttachParam(list, p, pos);
      match FindExisting(list, p)
      case Some(i) =>
        |r| == |list| && r[i] == AttachPosition(list[i], pos) &&
        r[i].filterPosList == list[i].filterPosList + [pos] &&
        r[i].parameter == list[i].parameter && r[i].data == list[i].data &&
        (forall j :: 0 <= j < |list| && j != i ==> r[j] == list[j])
      case None =>
        |r| == |list| + 1 && r[..|list|] == list && r[|list|] == NewEntry(p, pos)
  {
  }

  /** Attaching keeps every entry well formed as long as the new parameter packs at least one literal. */
  lemma {:induction false} AttachAllWellFormed(list: seq<ParamCheckEntry>, ps: seq<ParamEntry>, pos: ULong)
    requires forall e :: e in list ==> e.WellFormed()
    requires forall q :: q in ps ==> q.fltData.count > 0
    ensures forall e :: e in AttachAll(list, ps, pos) ==> e.WellFormed()
    decreases |ps|
  {
    if ps != [] {
      var l1 := AttachParam(list, ps[0], pos);
      AttachParamEffect(list, ps[0], pos);
      forall e | e in l1 ensures e.WellFormed() {
        var j :| 0 <= j < |l1| && l1[j] == e;
        match FindExisting(list, ps[0])
        case Some(i) =>
          assert list[j] in list;
        case None =>
          assert ps[0] in ps;
          if j < |list| { assert l1[j] == list[j] && list[j] in list; }
      }
      AttachAllWellFormed(l1, ps[1..], pos);
    }
  }

  /** Some stored predicate of `list` carries position `q`. */
  predicate HoldsPosition(list: seq<ParamCheckEntry>, q: ULong)
  {
    exists e :: e in list && q in e.filterPosList
  }

  /** Every position stored after attaching is an old position or `pos`; so a bound on the old
      positions that `pos` also meets bounds the new ones. */
  lemma AttachAllPositions(list: seq<ParamCheckEntry>, ps: seq<ParamEntry>, pos: ULong, bound: nat)
    requires forall e, q :: e in list && q in e.filterPosList ==> q <= bound
    requires pos <= bound
    ensures forall e, q :: e in AttachAll(list, ps, pos) && q in e.filterPosList ==>
      q == pos || HoldsPosition(list, q)
    ensures forall e, q: ULong :: e in AttachAll(list, ps, pos) && q in e.filterPosList ==> q <= bound
  {
    AttachAllHolds(list, ps, pos);
    forall e, q | e in AttachAll(list, ps, pos) && q in e.filterPosList
      ensures q == pos || HoldsPosition(list, q)
    {
      assert HoldsPosition(AttachAll(list, ps, pos), q);
    }
    forall e, q: ULong | e in AttachAll(list, ps, pos) && q in e.filterPosList ensures q <= bound {
      assert HoldsPosition(AttachAll(list, ps, pos), q);
      if q != pos {
        assert HoldsPosition(list, q);
        var e0 :| e0 in list && q in e0.filterPosList;
      }
    }
  }

  /** The induction behind AttachAllPositions, one parameter at a time. */
  lemma {:induction false} AttachAllHolds(list: seq<ParamCheckEntry>, ps: seq<ParamEntry>, pos: ULong)
    ensures forall q :: HoldsPosition(AttachAll(list, ps, pos), q) ==> q == pos || HoldsPosition(list, q)
    decreases |ps|
  {
    if ps != [] {
      var l1 := AttachParam(list, ps[0], pos);
      AttachParamHolds(list, ps[0], pos);
      AttachAllHolds(l1, ps[1..], pos);
    }
  }

  /** One AttachParam step stores no position but the old ones and `pos`. */
  lemma AttachParamHolds(list: seq<ParamCheckEntry>, p: ParamEntry, pos: ULong)
    ensures forall q :: HoldsPosition(AttachParam(list, p, pos), q) ==> q == pos || HoldsPosition(list, q)
  {
    var l1 := AttachParam(list, p, pos);
    AttachParamEffect(list, p, pos);
    forall q | HoldsPosition(l1, q) && q != pos ensures HoldsPosition(list, q) {
      var e :| e in l1 && q in e.filterPosList;
      var j :| 0 <= j < |l1| && l1[j] == e;
      if j < |list| && e != list[j] {
        assert e.filterPosList == list[j].filterPosList + [pos];
      }
      assert list[j] in list;
    }
  }

  /** Predicate sharing: two filters whose parameters carry the same operator, flags and literal
      bytes end up with ONE stored predicate holding both positions. */
  lemma PredicateSharing(list: seq<ParamCheckEntry>, p: ParamEntry, q: ParamEntry, a: ULong, b: ULong)
    requires FindExisting(list, p).None?
    requires q.operation == p.operation && q.flags == p.flags && q.fltData.data == p.fltData.data
    ensures AttachParam(AttachParam(list, p, a), q, b) ==
            list + [ParamCheckEntry(p.id, p.operation, p.flags, 2, [a, b], FltData(p.fltData.count, p.fltData.data))]
  {
    var l1 := AttachParam(list, p, a);
    assert l1 == list + [NewEntry(p, a)];
    assert forall i :: 0 <= i < |list| ==> !SameLiteral(l1[i], q) by {
      forall i | 0 <= i < |list| ensures !SameLiteral(l1[i], q) {
        assert l1[i] == list[i] && !SameLiteral(list[i], p);
      }
    }
    assert SameLiteral(l1[|list|], q);
    FindFirstAt(l1, q, |list|);
    assert AttachPosition(NewEntry(p, a), b) ==
      ParamCheckEntry(p.id, p.operation, p.flags, 2, [a, b], FltData(p.fltData.count, p.fltData.data));
  }

  lemma FindFirstAt(list: seq<ParamCheckEntry>, q: ParamEntry, i: nat)
    requires i < |list| && SameLiteral(list[i], q)
    requires forall j :: 0 <= j < i ==> !SameLiteral(list[j], q)
    ensures FindExisting(list, q) == Some(i)
  {
  }

  /** The parameter id is not part of the dedup test: a parameter on another id whose literal
      bytes match an existing entry merges into it, and its filter is then evaluated against the
      existing entry's parameter. */
  lemma MergeIgnoresParameterId(list: seq<ParamCheckEntry>, p: ParamEntry, pos: ULong, i: nat)
    requires i < |list| && SameLiteral(list[i], p)
    requires forall j :: 0 <= j < i ==> !SameLiteral(list[j], p)
    ensures var r := AttachParam(list, p, pos);
      |r| == |list| && r[i].parameter == list[i].parameter && pos in r[i].filterPosList
  {
    FindFirstAt(list, p, i);
  }

  /** The merge as written, on two parameters that differ only in their id: the second filter's
      position lands on the first parameter's predicate, and no stored predicate tests parameter
      `b` at all. */
  lemma CrossParameterMerge(a: ParameterId, b: ParameterId)
    requires a != b
    ensures var lit := FltData(1, [7, 0, 0, 0]);
      var r := AttachParam([NewEntry(ParamEntry(a, FltOpEqu, 0, lit), 0)], ParamEntry(b, FltOpEqu, 0, lit), 1);
      r == [ParamCheckEntry(a, FltOpEqu, 0, 2, [0, 1], lit)] &&
      forall e :: e in r ==> e.parameter != b
  {
    var lit := FltData(1, [7, 0, 0, 0]);
    var list := [NewEntry(ParamEntry(a, FltOpEqu, 0, lit), 0)];
    var q := ParamEntry(b, FltOpEqu, 0, lit);
    assert SameLiteral(list[0], q);
    assert FindExisting(list, q) == Some(0);
    assert AttachPosition(list[0], 1).filterPosList == [0, 1];
  }

  /** The merge test as evidently intended: the same literal on the same parameter. */
  predicate IntendedSameLiteral(e: ParamCheckEntry, p: ParamEntry)
  {
    SameLiteral(e, p) && e.parameter == p.id
  }

  /** The first entry, from index `from` on, that the intended merge test accepts. */
  function IntendedFindFrom(list: seq<ParamCheckEntry>, p: ParamEntry, from: nat): (r: Option<nat>)
    requires from <= |list|
    ensures r.Some? ==> from <= r.value < |list| && IntendedSameLiteral(list[r.value], p) &&
                        forall i :: from <= i < r.value ==> !IntendedSameLiteral(list[i], p)
    ensures r.None? ==> forall i :: from <= i < |list| ==> !IntendedSameLiteral(list[i], p)
    decreases |list| - from
  {
    if from == |list| then None
    else if IntendedSameLiteral(list[from], p) then Some(from)
    else IntendedFindFrom(list, p, from + 1)
  }

  /** AddParameterWithFilterPos with the intended merge test. */
  function IntendedAttachParam(list: seq<ParamCheckEntry>, p: ParamEntry, pos: ULong): seq<ParamCheckEntry>
  {
    match IntendedFindFrom(list, p, 0)
    case Some(i) => list[i := AttachPosition(list[i], pos)]
    case None => list + [NewEntry(p, pos)]
  }

  /** With the intended test the new position always lands on a predicate of the parameter's own
      id and literal, and every other entry is left as it was. */
  lemma IntendedAttachTestsOwnParameter(list: seq<ParamCheckEntry>, p: ParamEntry, pos: ULong)
    ensures var r := IntendedAttachParam(list, p, pos);
      (exists j :: 0 <= j < |r| && r[j].parameter == p.id && SameLiteral(r[j], p) && pos in r[j].filterPosList) &&
      forall j :: 0 <= j < |list| && r[j] != list[j] ==> r[j] == AttachPosition(list[j], pos) && list[j].parameter == p.id
  {
    var r := IntendedAttachParam(list, p, pos);
    match IntendedFindFrom(list, p, 0)
    case Some(i) =>
      assert r[i].parameter == p.id && SameLiteral(r[i], p) && pos in r[i].filterPosList;
    case None =>
      var j := |list|;
      assert r[j] == NewEntry(p, pos);
      assert r[j].parameter == p.id && SameLiteral(r[j], p) && pos in r[j].filterPosList;
  }
}

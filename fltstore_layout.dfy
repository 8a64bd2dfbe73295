/** The record layouts of the filter store: the bitmap capacity, the packed
    literal block FltData, the predicate record ParamCheckEntry, the slot
    record FilterEntry, and the PARAM_ENTRY descriptor a caller hands to
    AddFilter. */
module FltStoreLayout {
  import opened NtDefs

  /** Bits in every bitmap of a filter set; slot positions and group ids both lie below it. */
  const NumberOfBits: nat := 256
  /** The ULONG words backing one bitmap. */
  const BitMapBufferSizeInUlong: nat := NumberOfBits / 32

  /** VERDICT bit flags; VERDICT_NOT_FILTERED carries no bit. The enumeration that defines it is
      not part of this model: its value is taken to be 0. */
  type Verdict = bv32
  const VerdictNotFiltered: Verdict := 0

  /** PARAMS_MASK: one bit per parameter the caller is asked to collect. */
  type ParamsMask = bv64

  /** A value of the `Parameters` enumeration. */
  type ParameterId = nat

  /** The comparison operator of a predicate: _fltop_equ, _fltop_and or any other value. */
  datatype FltOperation = FltOpEqu | FltOpAnd | FltOpOther(code: nat)

  /** _PARAM_ENTRY_FLAG_NEGATION in a predicate's m_Flags. The header that defines it is not part
      of this model: its value is taken to be 0x1. */
  const ParamEntryFlagNegation: bv32 := 0x1

  /** FltData: `count` literals of equal width packed into `data`; m_DataSize is |data|. */
  datatype FltData = FltData(count: ULong, data: seq<Byte>)
  {
    function DataSize(): nat { |data| }

    /** The width of one literal, m_DataSize / m_Count: `count` of them fit in the block. */
    function ItemSize(): (w: nat)
      requires count > 0
      ensures w * count <= |data|
    {
      |data| / count
    }

    /** The k-th packed literal. */
    function Literal(k: nat): (lit: seq<Byte>)
      requires count > 0 && k < count
      ensures |lit| == ItemSize()
    {
      var w := ItemSize();
      LiteralInBlock(k, w, count, |data|);
      data[k * w .. k * w + w]
    }
  }

  lemma LiteralInBlock(k: nat, w: nat, count: nat, size: nat)
    requires k < count && w * count <= size
    ensures k * w + w <= size
  {
    MulMonotone(k + 1, count, w);
    assert (k + 1) * w == k * w + w;
  }

  lemma {:induction false} MulMonotone(a: nat, b: nat, w: nat)
    requires a <= b
    ensures a * w <= b * w
    decreases b - a
  {
    if a < b {
      MulMonotone(a, b - 1, w);
      assert b * w == (b - 1) * w + w;
    }
  }

  /** ParamCheckEntry: one deduplicated predicate and the slot positions that depend on it. */
  datatype ParamCheckEntry = ParamCheckEntry(
    parameter: ParameterId,
    operation: FltOperation,
    flags: bv32,
    posCount: nat,
    filterPosList: seq<ULong>,
    data: FltData)
  {
    /** m_PosCount is the length of m_FilterPosList, and at least one literal is stored. */
    predicate WellFormed() { posCount == |filterPosList| && data.count > 0 }
  }

  /** FilterEntry: one slot of m_FiltersArray; `busy` is the FLT_POSITION_BISY bit of m_Flags. */
  datatype FilterEntry = FilterEntry(
    busy: bool,
    filterId: ULong,
    groupId: UChar,
    verdict: Verdict,
    processId: nat,
    wishMask: ParamsMask,
    requestTimeout: ULong)

  /** A slot as RtlZeroMemory leaves it. */
  const ZeroedFilterEntry := FilterEntry(false, 0, 0, 0, 0, 0, 0)

  /** PARAM_ENTRY: the caller's description of one predicate of a new filter. */
  datatype ParamEntry = ParamEntry(id: ParameterId, operation: FltOperation, flags: bv32, fltData: FltData)

  /** The indices whose bit is set in a bitmap. */
  function BitsOf(bits: seq<bool>): (r: set<nat>)
    ensures forall i: nat :: i in r <==> i < |bits| && bits[i]
  {
    set i: nat | i < |bits| && bits[i]
  }

  /** Setting a clear bit adds exactly that index to the set of set bits. */
  lemma BitsOfSet(bits: seq<bool>, i: nat)
    requires i < |bits| && !bits[i]
    ensures BitsOf(bits[i := true]) == BitsOf(bits) + {i}
    ensures |BitsOf(bits[i := true])| == |BitsOf(bits)| + 1
  {
    assert BitsOf(bits[i := true]) == BitsOf(bits) + {i};
  }
}

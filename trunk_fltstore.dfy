/** The older filter store of trunk/drv/fltstore.cpp: a filter set that only keeps a list of
    registered filters (no predicates are evaluated and every verdict is "not filtered"), and
    a filter tree whose comparison routine looks at a pointer-sized prefix of the key. */
module TrunkFltStore {
  import opened NtDefs
  import opened FltStoreLayout
  import FltKeys
  import FltStore
  import FltVerdict

  // ---------------------------------------------------------------------
  // The key comparison.

  /** The bytes the trunk Compare hands to memcmp: sizeof(ITEM_FILTERS) minus the offset of
      m_Filters, which is the size of the m_Filters pointer (8 on x64, 4 on x86), counted from
      the start of the key. */
  function ComparedBytes(k: FltKeys.ItemKey, pointerSize: nat): (b: seq<Byte>)
    requires pointerSize == 4 || pointerSize == 8
    ensures |b| == pointerSize
  {
    FltKeys.KeyBytes(k)[..pointerSize]
  }

  /** FiltersTree::Compare as written: memcmp over the pointer-sized prefix of the two keys. */
  function Compare(k1: FltKeys.ItemKey, k2: FltKeys.ItemKey, pointerSize: nat): (r: FltKeys.CompareResult)
    requires pointerSize == 4 || pointerSize == 8
  {
    FltKeys.CompareBytes(FltKeys.KeyBytes(k1), FltKeys.KeyBytes(k2), pointerSize)
  }

  lemma LeBytesInjective(x: bv32, y: bv32)
    ensures FltKeys.LeBytes(x) == FltKeys.LeBytes(y) <==> x == y
  {
    FltKeys.LeRoundTrip(x);
    FltKeys.LeRoundTrip(y);
  }

  /** The first eight bytes of a key image are the interceptor's and the operation's. */
  lemma LeadingFields(k: FltKeys.ItemKey)
    ensures FltKeys.KeyBytes(k)[..4] == FltKeys.LeBytes(k.interceptor)
    ensures FltKeys.KeyBytes(k)[4..8] == FltKeys.LeBytes(k.operation)
  {
    var i, o := FltKeys.LeBytes(k.interceptor), FltKeys.LeBytes(k.operation);
    var rest := FltKeys.LeBytes(k.minor) + FltKeys.LeBytes(k.operationType);
    assert FltKeys.KeyBytes(k) == i + o + rest;
    assert (i + o + rest)[4..8] == o;
  }

  /** What the trunk Compare looks at: on x64 the interceptor and the operation, on x86 the
      interceptor alone. The minor code and the operation point never take part. */
  lemma CompareFields(k1: FltKeys.ItemKey, k2: FltKeys.ItemKey, pointerSize: nat)
    requires pointerSize == 4 || pointerSize == 8
    ensures Compare(k1, k2, pointerSize) == FltKeys.GenericEqual <==>
            k1.interceptor == k2.interceptor && (pointerSize == 8 ==> k1.operation == k2.operation)
  {
    var a, b := FltKeys.KeyBytes(k1), FltKeys.KeyBytes(k2);
    LeadingFields(k1);
    LeadingFields(k2);
    LeBytesInjective(k1.interceptor, k2.interceptor);
    LeBytesInjective(k1.operation, k2.operation);
    if pointerSize == 8 {
      assert a[..8] == a[..4] + a[4..8] && b[..8] == b[..4] + b[4..8];
      if a[..8] == b[..8] {
        assert a[..4] == a[..8][..4] == b[..8][..4] == b[..4];
        assert a[4..8] == a[..8][4..] == b[..8][4..] == b[4..8];
      }
    }
  }

  /** Two keys that differ only in the minor code: the trunk Compare calls them equal, so they
      share one filter set, while the full-key comparison tells them apart. */
  lemma MinorCodeIgnored(pointerSize: nat)
    requires pointerSize == 4 || pointerSize == 8
    ensures var k1, k2 := FltKeys.ItemKey(1, 2, 3, 0), FltKeys.ItemKey(1, 2, 4, 0);
      Compare(k1, k2, pointerSize) == FltKeys.GenericEqual &&
      FltKeys.Compare(k1, k2) != FltKeys.GenericEqual
  {
    CompareFields(FltKeys.ItemKey(1, 2, 3, 0), FltKeys.ItemKey(1, 2, 4, 0), pointerSize);
  }

  // ---------------------------------------------------------------------

  /** One element of m_FilterEntryList: the fields AddFilter sets. */
  datatype ListedFilter = ListedFilter(filterId: ULong, requestTimeout: ULong, wishMask: ParamsMask)

  /** The trunk filter set: the active-filter map, m_FilterCount and the filter list, plus the
      predicate list that GetVerdict walks. */
  class Filters {
    var activeFilters: array<bool>
    var filterCount: nat
    var filterEntryList: seq<ListedFilter>
    var paramsCheckList: seq<ParamCheckEntry>

    /** m_FilterCount counts the entries of m_FilterEntryList. */
    ghost predicate Valid()
      reads this
    {
      filterCount == |filterEntryList|
    }

    /** Filters::Filters: the active map cleared, no filter, both lists empty. */
    constructor ()
      ensures Valid() && fresh(activeFilters) && activeFilters[..] == FltVerdict.ActiveUpTo(0)
      ensures filterCount == 0 && filterEntryList == [] && paramsCheckList == []
    {
      activeFilters := new bool[NumberOfBits](i => false);
      filterCount := 0;
      filterEntryList := [];
      paramsCheckList := [];
    }

    /** Filters::~Filters: removes the entries from the head of the list one at a time,
        decrementing m_FilterCount for each, which leaves it at 0. */
    method Destroy()
      requires Valid()
      modifies this`filterEntryList, this`filterCount
      ensures Valid() && filterEntryList == [] && filterCount == 0
    {
      while filterEntryList != []
        invariant Valid()
        decreases |filterEntryList|
      {
        filterCount := filterCount - 1;
        filterEntryList := filterEntryList[1..];
      }
    }

    /** Filters::AddRef as written: the BOOLEAN of the rundown acquisition returned as an
        NTSTATUS. TRUE is 1 and FALSE is 0, so both pass NT_SUCCESS, and a refused reference
        reads as STATUS_SUCCESS. */
    function AddRef(acquired: bool): (status: NtStatus)
      ensures NtSuccess(status)
      ensures status == StatusSuccess <==> !acquired
    {
      if acquired then 1 else 0
    }

    /** Filters::GetVerdict: the loop over the predicate list does nothing yet, the verdict is
        always VERDICT_NOT_FILTERED and the caller's mask is not written. */
    function GetVerdict(maskIn: ParamsMask): (r: (Verdict, ParamsMask))
      ensures r.0 == VerdictNotFiltered && r.1 == maskIn
    {
      (VerdictNotFiltered, maskIn)
    }

    /** Filters::AddFilter: a new list entry (`allocOk` is the outcome of its allocation) with a
        fresh id, the timeout and the wish mask goes to the tail and m_FilterCount grows. The
        parameters are not looked at. A failed allocation draws no id and changes nothing. */
    method AddFilter(requestTimeout: ULong, wishMask: ParamsMask, ps: seq<ParamEntry>, allocOk: bool,
                     ids: FiltersTree)
      returns (status: NtStatus, filterId: ULong)
      requires Valid()
      modifies this`filterEntryList, this`filterCount, ids`filterIdCounter
      ensures Valid()
      ensures !allocOk ==>
                status == StatusInsufficientResources && filterEntryList == old(filterEntryList) &&
                ids.filterIdCounter == old(ids.filterIdCounter)
      ensures allocOk ==>
                status == StatusSuccess &&
                ids.filterIdCounter == FltStore.NextId(old(ids.filterIdCounter)) &&
                filterId == FltStore.AsULong(ids.filterIdCounter) &&
                filterEntryList == old(filterEntryList) + [ListedFilter(filterId, requestTimeout, wishMask)]
    {
      filterId := 0;
      if !allocOk {
        return StatusInsufficientResources, filterId;
      }
      var id := ids.GetNextFilterid();
      var entry := ListedFilter(FltStore.AsULong(id), requestTimeout, wishMask);
      filterId := entry.filterId;
      filterCount := filterCount + 1;
      filterEntryList := filterEntryList + [entry];
      status := StatusSuccess;
    }
  }

  // ---------------------------------------------------------------------

  /** The trunk FiltersTree statics: the AVL table, as the map from the compared key prefix to
      the filter set stored there (null where that allocation failed), and the id counter.
      `pointerSize` is the build's pointer width, which fixes the compared prefix. */
  class FiltersTree {
    const pointerSize: nat
    var tree: map<seq<Byte>, Filters?>
    var filterIdCounter: Long

    /** FiltersTree::FiltersTree does nothing: the statics start zeroed. */
    constructor (pointerSize: nat)
      requires pointerSize == 4 || pointerSize == 8
      ensures this.pointerSize == pointerSize && tree == map[] && filterIdCounter == 0
    {
      this.pointerSize := pointerSize;
      tree := map[];
      filterIdCounter := 0;
    }

    /** FiltersTree::Initialize: an empty table and the id counter at 0. */
    method Initialize()
      modifies this
      ensures tree == map[] && filterIdCounter == 0
    {
      tree := map[];
      filterIdCounter := 0;
    }

    /** FiltersTree::GetNextFilterid: the incremented counter. */
    method GetNextFilterid() returns (id: Long)
      modifies this`filterIdCounter
      ensures filterIdCounter == FltStore.NextId(old(filterIdCounter)) && id == filterIdCounter
    {
      filterIdCounter := FltStore.NextId(filterIdCounter);
      id := filterIdCounter;
    }

    /** FiltersTree::GetFiltersBy: the filter set stored under the key's compared prefix, or null
        when there is none. AddRef cannot report a failure, so the reference outcome does not
        matter. It never inserts. */
    method GetFiltersBy(key: FltKeys.ItemKey, acquired: bool) returns (r: Filters?)
      requires pointerSize == 4 || pointerSize == 8
      requires ComparedBytes(key, pointerSize) in tree ==> tree[ComparedBytes(key, pointerSize)] != null
      ensures r == if ComparedBytes(key, pointerSize) in tree then tree[ComparedBytes(key, pointerSize)] else null
    {
      r := null;
      var c := ComparedBytes(key, pointerSize);
      if c in tree {
        r := tree[c];
        var status := r.AddRef(acquired);
        if !NtSuccess(status) {
          r := null;
        }
      }
    }

    /** FiltersTree::GetOrCreateFiltersBy: on a present prefix the stored filter set (null
        included); on a new one it inserts a node (`nodeAllocOk`) and stores a freshly
        constructed filter set (`filtersAllocOk`), or null when that allocation fails. */
    method GetOrCreateFiltersBy(key: FltKeys.ItemKey, nodeAllocOk: bool, filtersAllocOk: bool, acquired: bool)
      returns (r: Filters?)
      requires pointerSize == 4 || pointerSize == 8
      modifies this`tree
      ensures var c := ComparedBytes(key, pointerSize);
        if c in old(tree) then tree == old(tree) && r == old(tree)[c]
        else if !nodeAllocOk then tree == old(tree) && r == null
        else if !filtersAllocOk then tree == old(tree)[c := null] && r == null
        else r != null && fresh(r) && tree == old(tree)[c := r] && r.Valid() && r.filterEntryList == [] &&
             fresh(r.activeFilters) && r.activeFilters[..] == FltVerdict.ActiveUpTo(0) &&
             r.filterCount == 0 && r.paramsCheckList == []
    {
      var c := ComparedBytes(key, pointerSize);
      r := null;
      if c in tree {
        r := tree[c];
      } else if nodeAllocOk {
        if filtersAllocOk {
          r := new Filters();
        }
        tree := tree[c := r];
      }
      if r != null {
        var status := r.AddRef(acquired);
        if !NtSuccess(status) {
          r := null;
        }
      }
    }

    /** FiltersTree::DeleteAllFilters: removes the nodes one by one until the table is empty.
        Destroying and freeing each node's filter set is not modelled. Every node must hold a
        filter set: the source asserts it and destroys it unconditionally. */
    method DeleteAllFilters()
      requires forall c :: c in tree ==> tree[c] != null
      modifies this`tree
      ensures tree == map[]
    {
      while tree != map[]
        invariant forall c :: c in tree ==> tree[c] != null
        decreases |tree|
      {
        var c :| c in tree;
        tree := tree - {c};
      }
    }
  }

  /** Keys that agree on the interceptor and the operation land on one node of the trunk table
      on either pointer width: GetOrCreateFiltersBy hands both the same filter set. */
  lemma SharedNode(k1: FltKeys.ItemKey, k2: FltKeys.ItemKey, pointerSize: nat)
    requires pointerSize == 4 || pointerSize == 8
    requires k1.interceptor == k2.interceptor && k1.operation == k2.operation
    ensures ComparedBytes(k1, pointerSize) == ComparedBytes(k2, pointerSize)
  {
    CompareFields(k1, k2, pointerSize);
    assert FltKeys.KeyBytes(k1)[..pointerSize] == FltKeys.KeyBytes(k2)[..pointerSize];
  }
}

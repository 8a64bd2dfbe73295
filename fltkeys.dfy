/** The key of the filter tree: the four leading fields of ITEM_FILTERS laid out as
    little-endian 4-byte integers, memcmp over a byte prefix of that layout, and the
    comparison routine the AVL table orders its elements with. */
module FltKeys {
  import opened NtDefs

  /** The key fields of ITEM_FILTERS; the three enumerations are stored as 4-byte integers
      like the ULONG minor code, so all four are 32-bit words. */
  datatype ItemKey = ItemKey(interceptor: bv32, operation: bv32, minor: bv32, operationType: bv32)

  /** Offset of m_Filters in ITEM_FILTERS: the number of key bytes. */
  const KeySize: nat := 16

  /** The four bytes of a 32-bit word in memory order (little-endian). */
  function LeBytes(x: bv32): (b: seq<Byte>)
    ensures |b| == 4
  {
    [(x & 0xFF) as Byte, ((x >> 8) & 0xFF) as Byte, ((x >> 16) & 0xFF) as Byte, (x >> 24) as Byte]
  }

  /** The word whose memory image is the four bytes from `at` on. */
  function LeValue(b: seq<Byte>, at: nat): bv32
    requires at + 4 <= |b|
  {
    ULong4(b[at], b[at + 1], b[at + 2], b[at + 3])
  }

  lemma LeRoundTrip(x: bv32)
    ensures LeValue(LeBytes(x), 0) == x
  {
  }

  /** The memory image of the key part of an ITEM_FILTERS element. */
  function KeyBytes(k: ItemKey): (b: seq<Byte>)
    ensures |b| == KeySize
  {
    LeBytes(k.interceptor) + LeBytes(k.operation) + LeBytes(k.minor) + LeBytes(k.operationType)
  }

  /** Reading the four fields back from a memory image. */
  function DecodeKey(b: seq<Byte>): ItemKey
    requires |b| >= KeySize
  {
    ItemKey(LeValue(b, 0), LeValue(b, 4), LeValue(b, 8), LeValue(b, 12))
  }

  /** A word stored between two byte runs reads back from its offset. */
  lemma LeValueIn(pre: seq<Byte>, x: bv32, post: seq<Byte>)
    ensures LeValue(pre + LeBytes(x) + post, |pre|) == x
  {
    var b := pre + LeBytes(x) + post;
    assert b[|pre|..|pre| + 4] == LeBytes(x);
    LeRoundTrip(x);
  }

  /** The memory image determines the key. */
  lemma {:induction false} KeyRoundTrip(k: ItemKey)
    ensures DecodeKey(KeyBytes(k)) == k
  {
    var i, o, m, t := LeBytes(k.interceptor), LeBytes(k.operation), LeBytes(k.minor), LeBytes(k.operationType);
    var b := KeyBytes(k);
    assert b == [] + i + (o + m + t);
    assert b == i + o + (m + t);
    assert b == i + o + m + t;
    assert b == (i + o + m) + t + [];
    LeValueIn([], k.interceptor, o + m + t);
    LeValueIn(i, k.operation, m + t);
    LeValueIn(i + o, k.minor, t);
    LeValueIn(i + o + m, k.operationType, []);
  }

  lemma KeyBytesInjective(k1: ItemKey, k2: ItemKey)
    ensures KeyBytes(k1) == KeyBytes(k2) <==> k1 == k2
  {
    KeyRoundTrip(k1);
    KeyRoundTrip(k2);
  }

  /** memcmp over the first `n` bytes: the sign of the first unsigned byte difference, 0 when
      the prefixes agree. */
  function MemCmp(a: seq<Byte>, b: seq<Byte>, n: nat): (r: int)
    requires n <= |a| && n <= |b|
    ensures -1 <= r <= 1
    ensures r == 0 <==> a[..n] == b[..n]
    decreases n
  {
    if n == 0 then 0
    else if a[0] < b[0] then -1
    else if b[0] < a[0] then 1
    else
      var r := MemCmp(a[1..], b[1..], n - 1);
      assert a[..n] == [a[0]] + a[1..][..n - 1];
      assert b[..n] == [b[0]] + b[1..][..n - 1];
      r
  }

  /** Swapping the operands flips the sign. */
  lemma {:induction false} MemCmpAntisymmetric(a: seq<Byte>, b: seq<Byte>, n: nat)
    requires n <= |a| && n <= |b|
    ensures MemCmp(a, b, n) == -MemCmp(b, a, n)
    decreases n
  {
    if n > 0 && a[0] == b[0] {
      MemCmpAntisymmetric(a[1..], b[1..], n - 1);
    }
  }

  /** "Less than" under memcmp is transitive. */
  lemma {:induction false} MemCmpTransitive(a: seq<Byte>, b: seq<Byte>, c: seq<Byte>, n: nat)
    requires n <= |a| && n <= |b| && n <= |c|
    requires MemCmp(a, b, n) == -1 && MemCmp(b, c, n) == -1
    ensures MemCmp(a, c, n) == -1
    decreases n
  {
    if a[0] == b[0] && b[0] == c[0] {
      MemCmpTransitive(a[1..], b[1..], c[1..], n - 1);
    }
  }

  /** RTL_GENERIC_COMPARE_RESULTS. */
  datatype CompareResult = GenericLessThan | GenericGreaterThan | GenericEqual

  /** The switch on memcmp's result in FiltersTree::Compare. The __debugbreak default is
      unreachable because memcmp is taken to return a sign. */
  function CompareBytes(a: seq<Byte>, b: seq<Byte>, n: nat): (r: CompareResult)
    requires n <= |a| && n <= |b|
    ensures r == GenericEqual <==> a[..n] == b[..n]
    ensures r == GenericLessThan <==> MemCmp(a, b, n) == -1
  {
    var ires := MemCmp(a, b, n);
    if ires == 0 then GenericEqual
    else if ires == 1 then GenericGreaterThan
    else GenericLessThan
  }

  /** FiltersTree::Compare: memcmp over the FIELD_OFFSET(ITEM_FILTERS, m_Filters) key bytes.
      Two elements are equal exactly when all four key fields agree. */
  function Compare(k1: ItemKey, k2: ItemKey): (r: CompareResult)
    ensures r == GenericEqual <==> k1 == k2
  {
    KeyBytesInjective(k1, k2);
    assert KeyBytes(k1)[..KeySize] == KeyBytes(k1);
    assert KeyBytes(k2)[..KeySize] == KeyBytes(k2);
    CompareBytes(KeyBytes(k1), KeyBytes(k2), KeySize)
  }

  /** The key order is a strict total order: antisymmetric and transitive. */
  lemma CompareIsOrder(k1: ItemKey, k2: ItemKey, k3: ItemKey)
    ensures Compare(k1, k2) == GenericLessThan <==> Compare(k2, k1) == GenericGreaterThan
    ensures Compare(k1, k2) == GenericLessThan && Compare(k2, k3) == GenericLessThan ==>
            Compare(k1, k3) == GenericLessThan
  {
    MemCmpAntisymmetric(KeyBytes(k1), KeyBytes(k2), KeySize);
    if Compare(k1, k2) == GenericLessThan && Compare(k2, k3) == GenericLessThan {
      MemCmpTransitive(KeyBytes(k1), KeyBytes(k2), KeyBytes(k3), KeySize);
    }
  }
}

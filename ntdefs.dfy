/** NTSTATUS codes, the fixed-width integer types of the filter store and a few
    set facts shared by every other module. */
module NtDefs {

  /** A 32-bit signed NTSTATUS code. */
  type NtStatus = s: int | -0x8000_0000 <= s < 0x8000_0000

  /** An NTSTATUS code that NT_SUCCESS rejects (severity bits set). */
  type NtError = s: int | -0x8000_0000 <= s < 0 witness -1

  const StatusSuccess: NtStatus := 0
  /** 0xC0000001 read as a signed LONG. */
  const StatusUnsuccessful: NtError := -0x3FFF_FFFF
  /** 0xC000009A read as a signed LONG. */
  const StatusInsufficientResources: NtError := -0x3FFF_FF66
  /** 0xC0000225 read as a signed LONG. */
  const StatusNotFound: NtError := -0x3FFF_FDDB

  /** NT_SUCCESS: every non-negative code is a success. */
  predicate NtSuccess(s: NtStatus) { s >= 0 }

  type ULong = x: int | 0 <= x < 0x1_0000_0000
  type Long = x: int | -0x8000_0000 <= x < 0x8000_0000
  type UChar = x: int | 0 <= x < 0x100
  type Byte = bv8

  /** The 32-bit word whose little-endian bytes are b0 .. b3. */
  function ULong4(b0: Byte, b1: Byte, b2: Byte, b3: Byte): bv32
  {
    (b0 as bv32) | ((b1 as bv32) << 8) | ((b2 as bv32) << 16) | ((b3 as bv32) << 24)
  }

  datatype Option<T> = None | Some(value: T)

  /** The set {0, .., n-1}. */
  function Range(n: nat): (r: set<nat>)
    ensures forall i: nat :: i in r <==> i < n
    ensures |r| == n
  {
    if n == 0 then {} else Range(n - 1) + {n - 1}
  }

  lemma SubsetCard<T>(a: set<T>, b: set<T>)
    requires a <= b
    ensures |a| <= |b|
    ensures |a| == |b| ==> a == b
  {
    assert b == a + (b - a);
    assert |b| == |a| + |b - a|;
  }

  /** Removing a member takes one off the size. */
  lemma CardRemove<T>(s: set<T>, x: T)
    requires x in s
    ensures |s - {x}| == |s| - 1
  {
    assert s == (s - {x}) + {x};
  }

  /** A subset of {0, .., n-1} with at least n elements is all of it. */
  lemma FullRange(s: set<nat>, n: nat)
    requires forall i :: i in s ==> i < n
    requires |s| >= n
    ensures forall i: nat :: i < n ==> i in s
  {
    SubsetCard(s, Range(n));
  }
}

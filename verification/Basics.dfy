/** Datatypes and small functions shared by several components. */
module Basics {

  datatype Option<+T> = None | Some(value: T)

  type Byte = b: int | 0 <= b < 256

  /** The source's divRoundUp on non-negative operands (threads/utility.h). */
  function DivRoundUp(n: nat, s: nat): (q: nat)
    requires 0 < s
    ensures (q as int - 1) * s < n <= q * s
  {
    n / s + if n % s > 0 then 1 else 0
  }

  /** Index of the first clear bit at or after `from`, or -1: the search that
      BitMap::Find performs. */
  function FirstClearFrom(bits: seq<bool>, from: nat): (r: int)
    requires from <= |bits|
    ensures r == -1 <==> forall i :: from <= i < |bits| ==> bits[i]
    ensures r != -1 ==> from <= r < |bits| && !bits[r] && forall i :: from <= i < r ==> bits[i]
    decreases |bits| - from
  {
    if from == |bits| then -1
    else if !bits[from] then from
    else FirstClearFrom(bits, from + 1)
  }

  function FirstClear(bits: seq<bool>): (r: int)
    ensures r == -1 <==> forall i :: 0 <= i < |bits| ==> bits[i]
    ensures r != -1 ==> 0 <= r < |bits| && !bits[r] && forall i :: 0 <= i < r ==> bits[i]
  {
    FirstClearFrom(bits, 0)
  }

  /** `data` overwrites `store` from position `at` on; everything else stays. */
  function Splice<T>(store: seq<T>, at: nat, data: seq<T>): (r: seq<T>)
    requires at + |data| <= |store|
    ensures |r| == |store|
    ensures forall i :: at <= i < at + |data| ==> r[i] == data[i - at]
    ensures forall i :: 0 <= i < |store| && !(at <= i < at + |data|) ==> r[i] == store[i]
  {
    store[..at] + data + store[at + |data|..]
  }

  function Pow2(n: nat): (p: nat)
    ensures p > 0
  {
    if n == 0 then 1 else 2 * Pow2(n - 1)
  }

  lemma SubsetSize<T>(a: set<T>, b: set<T>)
    requires a <= b
    ensures |a| <= |b|
  {
    assert b == a + (b - a);
  }
}

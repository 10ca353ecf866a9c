/**
 * A page's slot bitmap, one bit per slot: set means the slot holds a record.
 * The byte packing of the bits is not modelled.
 */
module Bitmap {

  /** first_bit(0, bits, n): the lowest clear position, or |bits| when every bit is set. */
  function FirstClear(bits: seq<bool>): (i: nat)
    ensures i <= |bits|
    ensures i < |bits| ==> !bits[i]
    ensures forall j :: 0 <= j < i ==> bits[j]
    decreases |bits|
  {
    if bits == [] then 0
    else if !bits[0] then 0
    else
      var k := FirstClear(bits[1..]);
      assert forall j :: 1 <= j < k + 1 ==> bits[j] == bits[1..][j - 1];
      1 + k
  }

  /** The number of set bits. */
  function Count(bits: seq<bool>): (c: nat)
    ensures c <= |bits|
    decreases |bits|
  {
    if bits == [] then 0 else (if bits[0] then 1 else 0) + Count(bits[1..])
  }

  /** Setting a clear bit adds one to the count. */
  lemma {:induction false} CountSet(bits: seq<bool>, i: int)
    requires 0 <= i < |bits| && !bits[i]
    ensures Count(bits[i := true]) == Count(bits) + 1
    decreases |bits|
  {
    if i > 0 {
      assert bits[i := true][1..] == bits[1..][i - 1 := true];
      CountSet(bits[1..], i - 1);
    } else {
      assert bits[i := true][1..] == bits[1..];
    }
  }

  /** Resetting a set bit takes one from the count. */
  lemma {:induction false} CountReset(bits: seq<bool>, i: int)
    requires 0 <= i < |bits| && bits[i]
    ensures Count(bits[i := false]) == Count(bits) - 1
    decreases |bits|
  {
    if i > 0 {
      assert bits[i := false][1..] == bits[1..][i - 1 := false];
      CountReset(bits[1..], i - 1);
    } else {
      assert bits[i := false][1..] == bits[1..];
    }
  }

  /** The count reaches the length exactly when every bit is set. */
  lemma {:induction false} CountFull(bits: seq<bool>)
    ensures Count(bits) == |bits| <==> forall j :: 0 <= j < |bits| ==> bits[j]
    decreases |bits|
  {
    if bits != [] {
      CountFull(bits[1..]);
      assert forall j :: 1 <= j < |bits| ==> bits[j] == bits[1..][j - 1];
    }
  }

  /** Bitmap::init: a freshly initialised bitmap has no set bit. */
  lemma {:induction false} CountCleared(n: nat)
    ensures Count(seq(n, _ => false)) == 0
    decreases n
  {
    if n > 0 {
      assert seq(n, _ => false)[1..] == seq(n - 1, _ => false);
      CountCleared(n - 1);
    }
  }

  /** A bitmap whose count is below its length has a clear bit, and first_bit finds one. */
  lemma RoomMeansClearBit(bits: seq<bool>)
    requires Count(bits) < |bits|
    ensures FirstClear(bits) < |bits|
  {
    CountFull(bits);
  }

  /** When exactly one bit is clear, first_bit finds that one. */
  lemma OnlyClearBit(bits: seq<bool>, i: int)
    requires 0 <= i < |bits| && !bits[i]
    requires forall j :: 0 <= j < |bits| && j != i ==> bits[j]
    ensures FirstClear(bits) == i
  {
  }
}

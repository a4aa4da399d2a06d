/**
 * The AVX2 steps of findSIMD, lane by lane: an 8-lane compare of a chunk of
 * keys against the search key, the sign-bit mask of the result
 * (_mm256_movemask_ps) and its count of trailing zeros (__builtin_ctz).
 */
module Lanes {

  /** Lanes per 256-bit vector of 32-bit keys. */
  const Width: nat := 8

  /** _mm256_cmpgt_epi32: lane j is set when the node key in lane j is greater than the search key. */
  function CmpGt(lanes: seq<int>, key: int): seq<bool>
  {
    seq(|lanes|, j requires 0 <= j < |lanes| => lanes[j] > key)
  }

  /** _mm256_cmpeq_epi32: lane j is set when the node key in lane j equals the search key. */
  function CmpEq(lanes: seq<int>, key: int): seq<bool>
  {
    seq(|lanes|, j requires 0 <= j < |lanes| => lanes[j] == key)
  }

  /** _mm256_movemask_ps: bit j of the mask is lane j. */
  function Movemask(bits: seq<bool>): nat
  {
    if bits == [] then 0 else (if bits[0] then 1 else 0) + 2 * Movemask(bits[1..])
  }

  /** __builtin_ctz: the number of trailing zero bits of a non-zero value. */
  function Ctz(x: nat): nat
    requires x != 0
  {
    if x % 2 == 1 then 0 else 1 + Ctz(x / 2)
  }

  /** The first set lane, |bits| if none is set. */
  function FirstSet(bits: seq<bool>): (i: nat)
    ensures i <= |bits|
    ensures forall j :: 0 <= j < i ==> !bits[j]
    ensures i < |bits| ==> bits[i]
  {
    if bits == [] || bits[0] then 0 else 1 + FirstSet(bits[1..])
  }

  /** 2 to the n: one more than the largest mask of n lanes. */
  function Pow2(n: nat): nat
  {
    if n == 0 then 1 else 2 * Pow2(n - 1)
  }

  /**
   * The mask is non-zero exactly when some lane is set, it fits in one bit
   * per lane, and then its trailing-zero count is the index of the first set
   * lane.
   */
  lemma {:induction false} MaskFirstSet(bits: seq<bool>)
    ensures Movemask(bits) < Pow2(|bits|)
    ensures Movemask(bits) != 0 <==> FirstSet(bits) < |bits|
    ensures Movemask(bits) != 0 ==> Ctz(Movemask(bits)) == FirstSet(bits)
  {
    if bits != [] {
      var rest := Movemask(bits[1..]);
      MaskFirstSet(bits[1..]);
      if !bits[0] && rest != 0 {
        assert (2 * rest) % 2 == 0 && (2 * rest) / 2 == rest;
      }
    }
  }

  /**
   * Compare-greater on the chunk s[i..i + Width]: the lanes before the first
   * set one hold keys at most `key`, and the first set lane (if any) a key
   * above it.
   */
  lemma GtChunk(s: seq<int>, i: nat, key: int)
    requires i + Width <= |s|
    ensures var f := FirstSet(CmpGt(s[i..i + Width], key));
      && (forall j :: i <= j < i + f ==> s[j] <= key)
      && (f < Width ==> s[i + f] > key)
  {
    var bits := CmpGt(s[i..i + Width], key);
    forall j | i <= j < i + FirstSet(bits)
      ensures s[j] <= key
    {
      assert !bits[j - i];
    }
  }

  /**
   * Compare-equal on the chunk s[i..i + Width]: the lanes before the first
   * set one hold keys other than `key`, and the first set lane (if any) holds
   * `key`.
   */
  lemma EqChunk(s: seq<int>, i: nat, key: int)
    requires i + Width <= |s|
    ensures var f := FirstSet(CmpEq(s[i..i + Width], key));
      && (forall j :: i <= j < i + f ==> s[j] != key)
      && (f < Width ==> s[i + f] == key)
  {
    var bits := CmpEq(s[i..i + Width], key);
    forall j | i <= j < i + FirstSet(bits)
      ensures s[j] != key
    {
      assert !bits[j - i];
    }
  }
}

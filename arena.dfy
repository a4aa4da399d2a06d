/**
 * The bump allocator every tree node is carved from (class Arena in
 * bplustree.hpp). Memory is a block of `capacity` bytes; `offset` is how much
 * of it has been handed out. Sizes are size_t, so the sums in allocate are
 * taken modulo 2^64.
 */
module Arenas {

  datatype Option<T> = None | Some(value: T)

  /** How an allocation that may throw ended: the runtime_error messages of the source become the failure cases. */
  datatype Status = Ok | ArenaNotInitialized | ArenaOutOfMemory

  /** 2^64: one more than the largest size_t. */
  const SizeRange: nat := 0x1_0000_0000_0000_0000

  /**
   * `(bytes + 63) & ~63` in size_t arithmetic: the sum wraps, and clearing the
   * low six bits of a number subtracts its remainder modulo 64.
   */
  function Aligned(bytes: nat): (r: nat)
    requires bytes < SizeRange
    ensures r % 64 == 0 && r < SizeRange
  {
    var s := (bytes + 63) % SizeRange;
    s - s % 64
  }

  /** The smallest multiple of 64 that is at least n. */
  function RoundUp64(n: nat): nat
  {
    if n % 64 == 0 then n else n + (64 - n % 64)
  }

  /** RoundUp64 is what its name says: a multiple of 64, not below n, and below every other such multiple. */
  lemma RoundUp64Least(n: nat)
    ensures RoundUp64(n) % 64 == 0 && n <= RoundUp64(n) < n + 64
    ensures forall q: nat :: n <= 64 * q ==> RoundUp64(n) <= 64 * q
  {
    forall q: nat | n <= 64 * q
      ensures RoundUp64(n) <= 64 * q
    {
      assert RoundUp64(n) == 64 * (n / 64) + (if n % 64 == 0 then 0 else 64);
    }
  }

  /** Unless bytes + 63 overflows size_t, allocate rounds a request up to the next multiple of 64. */
  lemma AlignedRoundsUp(bytes: nat)
    requires bytes + 63 < SizeRange
    ensures Aligned(bytes) == RoundUp64(bytes)
  {
    assert (bytes + 63) % SizeRange == bytes + 63;
  }

  /** A request within 63 bytes of SIZE_MAX wraps around to an aligned size of 0. */
  lemma AlignedWraps(bytes: nat)
    requires SizeRange <= bytes + 63 && bytes < SizeRange
    ensures Aligned(bytes) == 0
  {
    assert (bytes + 63) % SizeRange == bytes + 63 - SizeRange;
  }

  /**
   * The offset after allocate(bytes) at `offset`, or None when allocate throws
   * "Arena out of memory" (the size_t end of the block passes capacity).
   */
  function AllocStep(offset: nat, capacity: nat, bytes: nat): Option<nat>
    requires bytes < SizeRange
  {
    var end := (offset + Aligned(bytes)) % SizeRange;
    if end > capacity then None else Some(end)
  }

  /**
   * Without wrap-around, allocate succeeds exactly when the rounded-up block
   * still fits, advances the offset by the rounded-up size, and otherwise
   * leaves it; either way the offset never passes capacity.
   */
  lemma AllocStepSpec(offset: nat, capacity: nat, bytes: nat)
    requires offset <= capacity < SizeRange && bytes + 63 < SizeRange
    requires offset + RoundUp64(bytes) < SizeRange
    ensures AllocStep(offset, capacity, bytes).Some? <==> offset + RoundUp64(bytes) <= capacity
    ensures AllocStep(offset, capacity, bytes).Some? ==> AllocStep(offset, capacity, bytes).value == offset + RoundUp64(bytes)
  {
    AlignedRoundsUp(bytes);
  }

  /**
   * A huge request can pass the capacity test once `offset + aligned_bytes`
   * wraps around: at offset 128 of a 1024-byte arena, a request of
   * SIZE_MAX - 63 bytes succeeds and moves the offset back to 64, so the
   * next block overlaps one already handed out.
   */
  lemma AllocWrapsBack()
    ensures AllocStep(128, 1024, SizeRange - 64) == Some(64)
  {
    var s := (SizeRange - 64 + 63) % SizeRange;
    assert s == SizeRange - 1;
    assert Aligned(SizeRange - 64) == SizeRange - 64;
  }

  /**
   * n allocations of `bytes` each, one after another from `offset`: the
   * offset after the last one, or None when one of them throws.
   */
  function AllocMany(offset: nat, capacity: nat, bytes: nat, n: nat): Option<nat>
    requires bytes < SizeRange
    decreases n
  {
    if n == 0 then Some(offset)
    else match AllocStep(offset, capacity, bytes)
      case None => None
      case Some(next) => AllocMany(next, capacity, bytes, n - 1)
  }

  /**
   * The offset after up to n allocations of `bytes` each from `offset`,
   * stopping at the first one that throws: a failed allocate leaves the
   * offset where it was.
   */
  function Reach(offset: nat, capacity: nat, bytes: nat, n: nat): nat
    requires bytes < SizeRange
    decreases n
  {
    if n == 0 then offset
    else match AllocStep(offset, capacity, bytes)
      case None => offset
      case Some(next) => Reach(next, capacity, bytes, n - 1)
  }

  /** When all n allocations succeed, Reach is where the last one ends. */
  lemma {:induction false} AllocManyReach(offset: nat, capacity: nat, bytes: nat, n: nat)
    requires bytes < SizeRange && AllocMany(offset, capacity, bytes, n).Some?
    ensures Reach(offset, capacity, bytes, n) == AllocMany(offset, capacity, bytes, n).value
    decreases n
  {
    if n > 0 {
      AllocManyReach(AllocStep(offset, capacity, bytes).value, capacity, bytes, n - 1);
    }
  }

  /**
   * Without wrap-around, n allocations in a row succeed exactly when n
   * blocks of the rounded-up size still fit after `offset`, and then end n
   * blocks further.
   */
  lemma {:induction false} AllocManyFits(offset: nat, capacity: nat, bytes: nat, n: nat, block: nat)
    requires block == RoundUp64(bytes) && bytes + 63 < SizeRange
    requires offset <= capacity && capacity + block < SizeRange
    ensures AllocMany(offset, capacity, bytes, n).Some? <==> offset + n * block <= capacity
    ensures AllocMany(offset, capacity, bytes, n).Some? ==> AllocMany(offset, capacity, bytes, n).value == offset + n * block
    decreases n
  {
    if n > 0 {
      MulStep(n, block);
      AllocManyFirst(offset, capacity, bytes, n, block);
      if offset + block <= capacity {
        AllocManyFits(offset + block, capacity, bytes, n - 1, block);
      }
    }
  }

  /** n blocks are one block and n - 1 more. */
  lemma MulStep(n: nat, block: nat)
    requires n > 0
    ensures n * block == block + (n - 1) * block && (n - 1) * block >= 0
  {
  }

  /** The first of n > 0 allocations, without wrap-around. */
  lemma AllocManyFirst(offset: nat, capacity: nat, bytes: nat, n: nat, block: nat)
    requires block == RoundUp64(bytes) && bytes + 63 < SizeRange
    requires offset <= capacity && capacity + block < SizeRange && n > 0
    ensures AllocMany(offset, capacity, bytes, n)
         == if offset + block <= capacity then AllocMany(offset + block, capacity, bytes, n - 1) else None
  {
    AllocStepSpec(offset, capacity, bytes);
  }

  /**
   * a + b allocations are a allocations followed, when they all succeed, by
   * b more; when one of the first a throws, the rest are never tried.
   */
  lemma {:induction false} AllocManyAdd(offset: nat, capacity: nat, bytes: nat, a: nat, b: nat)
    requires bytes < SizeRange
    ensures AllocMany(offset, capacity, bytes, a + b)
         == match AllocMany(offset, capacity, bytes, a)
            case None => None
            case Some(mid) => AllocMany(mid, capacity, bytes, b)
    ensures Reach(offset, capacity, bytes, a + b)
         == match AllocMany(offset, capacity, bytes, a)
            case None => Reach(offset, capacity, bytes, a)
            case Some(mid) => Reach(mid, capacity, bytes, b)
    decreases a
  {
    if a > 0 {
      match AllocStep(offset, capacity, bytes)
      case None =>
      case Some(next) =>
        AllocManyAdd(next, capacity, bytes, a - 1, b);
        assert a + b - 1 == (a - 1) + b;
    }
  }

  class Arena {
    /** Bytes handed out so far: the next block starts at memory + offset. */
    var offset: nat
    /** Size of the block obtained from malloc. */
    const capacity: nat

    ghost predicate Valid()
      reads this
    {
      offset <= capacity < SizeRange
    }

    /** Arena(size): an empty arena of the given capacity. */
    constructor (size: nat)
      requires size < SizeRange
      ensures Valid() && offset == 0 && capacity == size
    {
      offset := 0;
      capacity := size;
    }

    /**
     * allocate(bytes): hands out the block at the current offset and moves the
     * offset past its aligned size; `ok` is false where the source throws, and
     * then nothing changes. `ptr` is the block's position inside the arena.
     */
    method Allocate(bytes: nat) returns (ok: bool, ptr: nat)
      requires Valid() && bytes < SizeRange
      modifies this
      ensures Valid()
      ensures ok == AllocStep(old(offset), capacity, bytes).Some?
      ensures ok ==> ptr == old(offset) && offset == AllocStep(old(offset), capacity, bytes).value
      ensures !ok ==> offset == old(offset)
    {
      var alignedBytes := Aligned(bytes);
      if (offset + alignedBytes) % SizeRange > capacity {
        return false, 0;
      }
      ptr := offset;
      offset := (offset + alignedBytes) % SizeRange;
      ok := true;
    }

    /** get_used_memory: never more than the capacity. */
    function UsedMemory(): (r: nat)
      reads this
      requires Valid()
      ensures r <= Capacity()
    {
      offset
    }

    /** get_capacity. */
    function Capacity(): nat
      reads this
    {
      capacity
    }

    /** reset: every block is given back at once. */
    method Reset()
      requires Valid()
      modifies this
      ensures Valid() && offset == 0
    {
      offset := 0;
    }
  }
}

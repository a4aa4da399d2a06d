/**
 * Sequence helpers shared by the value-level tree model: slot insertion and
 * deletion (the shift-right and shift-left loops of bplustree.hpp read as
 * operations on the populated prefix of an array), sortedness, and the three
 * left-to-right scans the tree code uses to pick a slot.
 */
module Seqs {

  /** s with x placed at index i; the elements from i onwards move up by one. */
  function Insert<T>(s: seq<T>, i: nat, x: T): (r: seq<T>)
    requires i <= |s|
    ensures |r| == |s| + 1 && r[i] == x
    ensures forall j :: 0 <= j < i ==> r[j] == s[j]
    ensures forall j :: i < j < |r| ==> r[j] == s[j - 1]
  {
    s[..i] + [x] + s[i..]
  }

  /** s without its element at index i; the elements after i move down by one. */
  function Remove<T>(s: seq<T>, i: nat): (r: seq<T>)
    requires i < |s|
    ensures |r| == |s| - 1
    ensures forall j :: 0 <= j < i ==> r[j] == s[j]
    ensures forall j :: i <= j < |r| ==> r[j] == s[j + 1]
  {
    s[..i] + s[i + 1..]
  }

  /** Any sequence that agrees with s shifted right around slot i, and holds x there, is Insert(s, i, x). */
  lemma InsertPointwise<T>(r: seq<T>, s: seq<T>, i: nat, x: T)
    requires i <= |s| && |r| == |s| + 1 && r[i] == x
    requires forall j :: 0 <= j < i ==> r[j] == s[j]
    requires forall j :: i < j < |r| ==> r[j] == s[j - 1]
    ensures r == Insert(s, i, x)
  {
  }

  /** Any sequence that agrees with s shifted left from slot i is Remove(s, i). */
  lemma RemovePointwise<T>(r: seq<T>, s: seq<T>, i: nat)
    requires i < |s| && |r| == |s| - 1
    requires forall j :: 0 <= j < i ==> r[j] == s[j]
    requires forall j :: i <= j < |r| ==> r[j] == s[j + 1]
    ensures r == Remove(s, i)
  {
  }

  /** Keys in non-decreasing order (equal neighbours allowed). */
  predicate Sorted(s: seq<int>)
  {
    forall i, j :: 0 <= i < j < |s| ==> s[i] <= s[j]
  }

  /** Keys in strictly increasing order. */
  predicate StrictlySorted(s: seq<int>)
  {
    forall i, j :: 0 <= i < j < |s| ==> s[i] < s[j]
  }

  /**
   * The scan `while (i < n && key > keys[i]) i++` of insert_recursive:
   * the index of the first element that is not less than k, |s| if none is.
   */
  function FirstNotLess(s: seq<int>, k: int): (i: nat)
    ensures i <= |s|
    ensures forall j :: 0 <= j < i ==> s[j] < k
    ensures i < |s| ==> k <= s[i]
  {
    if s == [] || k <= s[0] then 0 else 1 + FirstNotLess(s[1..], k)
  }

  /**
   * The scan `while (i < n && key >= keys[i]) i++` of findLinear and
   * remove_recursive: the index of the first element greater than k, |s| if
   * none is.
   */
  function FirstGreater(s: seq<int>, k: int): (i: nat)
    ensures i <= |s|
    ensures forall j :: 0 <= j < i ==> s[j] <= k
    ensures i < |s| ==> k < s[i]
  {
    if s == [] || k < s[0] then 0 else 1 + FirstGreater(s[1..], k)
  }

  /** The index of the leftmost element equal to k, |s| if there is none. */
  function FirstEqual(s: seq<int>, k: int): (i: nat)
    ensures i <= |s|
    ensures forall j :: 0 <= j < i ==> s[j] != k
    ensures i < |s| ==> s[i] == k
    ensures i == |s| <==> k !in s
  {
    if s == [] || s[0] == k then 0 else 1 + FirstEqual(s[1..], k)
  }

  /** On sorted keys the insertion scan splits s into a part below k and a part from k on. */
  lemma FirstNotLessSplits(s: seq<int>, k: int)
    requires Sorted(s)
    ensures forall j :: FirstNotLess(s, k) <= j < |s| ==> k <= s[j]
  {
  }

  /** Putting k where the insertion scan stops keeps a sorted sequence sorted. */
  lemma InsertAtFirstNotLessSorted(s: seq<int>, k: int)
    requires Sorted(s)
    ensures Sorted(Insert(s, FirstNotLess(s, k), k))
  {
    FirstNotLessSplits(s, k);
  }

  /** Putting x between a lower and an upper neighbour keeps a sorted sequence sorted. */
  lemma InsertBetweenSorted(s: seq<int>, i: nat, x: int)
    requires Sorted(s) && i <= |s|
    requires i > 0 ==> s[i - 1] <= x
    requires i < |s| ==> x <= s[i]
    ensures Sorted(Insert(s, i, x))
  {
  }

  /** Deleting an element keeps a sorted sequence sorted. */
  lemma RemoveSorted(s: seq<int>, i: nat)
    requires Sorted(s) && i < |s|
    ensures Sorted(Remove(s, i))
  {
  }

  /**
   * Where the insertion scan stops in a concatenation whose first part lies
   * below k and whose last part lies at or above k: inside the middle part.
   */
  lemma {:induction false} FirstNotLessConcat(a: seq<int>, b: seq<int>, c: seq<int>, k: int)
    requires forall j :: 0 <= j < |a| ==> a[j] < k
    requires forall j :: 0 <= j < |c| ==> k <= c[j]
    ensures FirstNotLess(a + b + c, k) == |a| + FirstNotLess(b, k)
  {
    var s := a + b + c;
    var i := |a| + FirstNotLess(b, k);
    assert forall j :: 0 <= j < i ==> s[j] < k;
    assert i < |s| ==> k <= s[i];
    FirstNotLessUnique(s, k, i);
  }

  /** The insertion scan's index is the only one with its two defining properties. */
  lemma FirstNotLessUnique(s: seq<int>, k: int, i: nat)
    requires i <= |s|
    requires forall j :: 0 <= j < i ==> s[j] < k
    requires i < |s| ==> k <= s[i]
    ensures FirstNotLess(s, k) == i
  {
  }

  /** The descent scan's index is the only one with its two defining properties. */
  lemma FirstGreaterUnique(s: seq<int>, k: int, i: nat)
    requires i <= |s|
    requires forall j :: 0 <= j < i ==> s[j] <= k
    requires i < |s| ==> k < s[i]
    ensures FirstGreater(s, k) == i
  {
  }

  /** The leftmost-match scan's index is the only one with its two defining properties. */
  lemma FirstEqualUnique(s: seq<int>, k: int, i: nat)
    requires i <= |s|
    requires forall j :: 0 <= j < i ==> s[j] != k
    requires i < |s| ==> s[i] == k
    ensures FirstEqual(s, k) == i
  {
  }

  /** Insertion at i and concatenation commute when i falls inside the middle part. */
  lemma InsertConcat<T>(a: seq<T>, b: seq<T>, c: seq<T>, i: nat, x: T)
    requires i <= |b|
    ensures Insert(a + b + c, |a| + i, x) == a + Insert(b, i, x) + c
  {
  }

  /** The elements of s with x inserted are those of s and x. */
  lemma InsertMembers<T>(s: seq<T>, i: nat, x: T)
    requires i <= |s|
    ensures forall y :: y in Insert(s, i, x) <==> y in s || y == x
  {
    assert s == s[..i] + s[i..];
  }

  /** Deletion at i and concatenation commute when i falls inside the middle part. */
  lemma RemoveConcat<T>(a: seq<T>, b: seq<T>, c: seq<T>, i: nat)
    requires i < |b|
    ensures Remove(a + b + c, |a| + i) == a + Remove(b, i) + c
  {
  }
}

/**
 * What the lookup, remove_recursive and a run of inserts guarantee on the
 * value-level model: a lookup only ever reports an entry the tree holds, it
 * finds every key of an anchored tree, removal deletes exactly the slot the
 * lookup would have read (or nothing) and keeps the invariant, and inserting
 * distinct keys into an empty tree makes each of them findable with its value.
 */
module TreeSearch {
  import opened Seqs
  import opened TreeModel
  import opened TreeContents
  import opened TreeInsert

  // ----- soundness ---------------------------------------------------------

  /** Indexing into the middle part of a concatenation. */
  lemma IndexInside<T>(c: seq<T>, pre: seq<T>, mid: seq<T>, post: seq<T>, q: nat, p: nat)
    requires c == pre + mid + post && p < |mid| && q == |pre| + p
    ensures q < |c| && c[q] == mid[p]
  {
  }

  /**
   * Search and Locate read the same slot: the lookup succeeds exactly when
   * Locate names a position, and the entry there carries the key looked up
   * and the value returned.
   */
  lemma {:induction false} LocateSearch<V>(t: Tree<V>, k: int, m: nat)
    requires Fits(t, m)
    ensures Search(t, k).Some? <==> Locate(t, k).Some?
    ensures Locate(t, k).Some? ==>
      && Locate(t, k).value < |Contents(t)|
      && Contents(t)[Locate(t, k).value] == Entry(k, Search(t, k).value)
    decreases t
  {
    match t
    case Leaf(ks, vs) =>
    case Internal(seps, kids) =>
      var i := FirstGreater(seps, k);
      LocateSearch(kids[i], k, m);
      if Locate(kids[i], k).Some? {
        KidsContentsAt(kids, i);
        IndexInside(Contents(t), KidsContents(kids[..i]), Contents(kids[i]), KidsContents(kids[i + 1..]),
                    Locate(t, k).value, Locate(kids[i], k).value);
      }
  }

  /**
   * The lookup is sound: a value it returns belongs to an entry with the key
   * looked up, and a key that no entry carries is not found.
   */
  lemma SearchSound<V>(t: Tree<V>, k: int, m: nat)
    requires Fits(t, m)
    ensures Search(t, k).Some? ==> Entry(k, Search(t, k).value) in Contents(t)
    ensures k !in KeysOf(Contents(t)) ==> Search(t, k) == None
  {
    LocateSearch(t, k, m);
    if Search(t, k).Some? {
      var p := Locate(t, k).value;
      assert KeysOf(Contents(t))[p] == k;
    }
  }

  // ----- completeness ------------------------------------------------------

  /** A key below a run of children is below one of them. */
  lemma {:induction false} KidsMember<V>(kids: seq<Tree<V>>, k: int) returns (j: nat)
    requires k in KeysOf(KidsContents(kids))
    ensures j < |kids| && k in KeysOf(Contents(kids[j]))
    decreases |kids|
  {
    var front, last := kids[..|kids| - 1], kids[|kids| - 1];
    KeysOfAppend(KidsContents(front), Contents(last));
    if k in KeysOf(Contents(last)) {
      j := |kids| - 1;
    } else {
      j := KidsMember(front, k);
      assert kids[j] == front[j];
    }
  }

  /** A key below child j of an ordered node lies within child j's bounds. */
  lemma KeyInChildRange<V>(seps: seq<int>, kids: seq<Tree<V>>, m: nat, lo: Option<int>, hi: Option<int>, j: nat, k: int)
    requires Fits(Internal(seps, kids), m) && Ordered(Internal(seps, kids), lo, hi)
    requires j < |kids| && k in KeysOf(Contents(kids[j]))
    ensures InRange(LoOf(seps, lo, j), HiOf(seps, hi, j), k)
  {
    ContentsInRange(kids[j], m, LoOf(seps, lo, j), HiOf(seps, hi, j));
  }

  /**
   * In an anchored node every key below the node is below the child the
   * descent picks: a copy of a separator key that sits further left is
   * matched by the separator's own entry at the front of the child to its
   * right.
   */
  lemma DescentReaches<V>(seps: seq<int>, kids: seq<Tree<V>>, m: nat, lo: Option<int>, hi: Option<int>, k: int)
    requires Fits(Internal(seps, kids), m) && Ordered(Internal(seps, kids), lo, hi) && Anchored(Internal(seps, kids))
    requires k in KeysOf(KidsContents(kids))
    ensures k in KeysOf(Contents(kids[FirstGreater(seps, k)]))
  {
    var i := FirstGreater(seps, k);
    var j := KidsMember(kids, k);
    KeyInChildRange(seps, kids, m, lo, hi, j, k);
    if j < i {
      // k <= seps[j] <= seps[i - 1] <= k, so k is the separator before child i
      assert seps[j] <= seps[i - 1];
      assert Contents(kids[i])[0].key == seps[i - 1] == k;
      assert KeysOf(Contents(kids[i]))[0] == k;
    }
  }

  /** The lookup is complete on anchored trees: every key the tree holds is found. */
  lemma {:induction false} SearchComplete<V>(t: Tree<V>, k: int, m: nat, lo: Option<int>, hi: Option<int>)
    requires WFNode(t, m, lo, hi) && Anchored(t)
    requires k in KeysOf(Contents(t))
    ensures Search(t, k).Some?
    decreases t
  {
    match t
    case Leaf(ks, vs) =>
      KeysOfZip(ks, vs);
    case Internal(seps, kids) =>
      var i := FirstGreater(seps, k);
      DescentReaches(seps, kids, m, lo, hi, k);
      assert WFNode(kids[i], m, LoOf(seps, lo, i), HiOf(seps, hi, i));
      SearchComplete(kids[i], k, m, LoOf(seps, lo, i), HiOf(seps, hi, i));
  }

  /**
   * With distinct keys an anchored tree is a map that the lookup reads
   * exactly: the lookup returns v for k if and only if the tree holds the
   * entry (k, v).
   */
  lemma SearchExact<V>(t: Tree<V>, k: int, v: V, m: nat)
    requires WF(t, m) && Anchored(t) && StrictlySorted(KeysOf(Contents(t)))
    ensures Search(t, k) == Some(v) <==> Entry(k, v) in Contents(t)
  {
    var c := Contents(t);
    SearchSound(t, k, m);
    if Entry(k, v) in c {
      var q :| 0 <= q < |c| && c[q] == Entry(k, v);
      assert KeysOf(c)[q] == k;
      SearchComplete(t, k, m, None, None);
      LocateSearch(t, k, m);
      var p := Locate(t, k).value;
      assert KeysOf(c)[p] == k;
      assert p == q;
    }
  }

  // ----- remove_recursive --------------------------------------------------

  /** t and t' have the same node structure and the same separator keys in every internal node. */
  predicate SameSeps<V>(t: Tree<V>, t': Tree<V>)
  {
    match t
    case Leaf(_, _) => t'.Leaf?
    case Internal(seps, kids) =>
      && t'.Internal? && t'.seps == seps && |t'.kids| == |kids|
      && forall j :: 0 <= j < |kids| ==> SameSeps(kids[j], t'.kids[j])
  }

  lemma {:induction false} SameSepsRefl<V>(t: Tree<V>)
    ensures SameSeps(t, t)
    decreases t
  {
    match t
    case Leaf(_, _) =>
    case Internal(seps, kids) =>
      forall j | 0 <= j < |kids|
        ensures SameSeps(kids[j], kids[j])
      {
        SameSepsRefl(kids[j]);
      }
  }

  /**
   * remove_recursive deletes exactly the slot the lookup reads, and nothing
   * when the lookup finds nothing; it never touches a separator or the node
   * structure, and it keeps the invariant.
   */
  lemma {:induction false} RemoveSpec<V>(t: Tree<V>, k: int, m: nat, lo: Option<int>, hi: Option<int>)
    requires WFNode(t, m, lo, hi)
    ensures WFNode(TreeModel.Remove(t, k), m, lo, hi) && Height(TreeModel.Remove(t, k)) == Height(t)
    ensures SameSeps(t, TreeModel.Remove(t, k))
    ensures match Locate(t, k)
      case None => TreeModel.Remove(t, k) == t
      case Some(p) => p < |Contents(t)| && Contents(TreeModel.Remove(t, k)) == Seqs.Remove(Contents(t), p)
    decreases t
  {
    match t
    case Leaf(ks, vs) =>
      var j := FirstEqual(ks, k);
      if j < |ks| {
        RemoveSorted(ks, j);
        ZipRemove(ks, vs, j);
        var ks' := Seqs.Remove(ks, j);
        assert forall x :: 0 <= x < |ks'| ==> InRange(lo, hi, ks'[x]) by {
          forall x | 0 <= x < |ks'|
            ensures InRange(lo, hi, ks'[x])
          {
            if x < j { assert ks'[x] == ks[x]; } else { assert ks'[x] == ks[x + 1]; }
          }
        }
      }
    case Internal(seps, kids) =>
      var i := FirstGreater(seps, k);
      var clo, chi := LoOf(seps, lo, i), HiOf(seps, hi, i);
      assert WFNode(kids[i], m, clo, chi);
      RemoveSpec(kids[i], k, m, clo, chi);
      RemoveStep(seps, kids, m, lo, hi, k, i, TreeModel.Remove(kids[i], k));
  }

  /** One level of RemoveSpec: the parent after child i lost the located slot. */
  lemma RemoveStep<V>(seps: seq<int>, kids: seq<Tree<V>>, m: nat, lo: Option<int>, hi: Option<int>, k: int, i: nat, c: Tree<V>)
    requires WFNode(Internal(seps, kids), m, lo, hi) && i == FirstGreater(seps, k)
    requires WFNode(c, m, LoOf(seps, lo, i), HiOf(seps, hi, i)) && Height(c) == Height(kids[i])
    requires SameSeps(kids[i], c)
    requires match Locate(kids[i], k)
      case None => c == kids[i]
      case Some(p) => p < |Contents(kids[i])| && Contents(c) == Seqs.Remove(Contents(kids[i]), p)
    ensures var t, t' := Internal(seps, kids), Internal(seps, kids[i := c]);
      && WFNode(t', m, lo, hi) && Height(t') == Height(t) && SameSeps(t, t')
      && match Locate(t, k)
        case None => t' == t
        case Some(p) => p < |Contents(t)| && Contents(t') == Seqs.Remove(Contents(t), p)
  {
    ReplaceChildShape(seps, kids, m, lo, hi, i, c);
    match Locate(kids[i], k)
    case None =>
      assert kids[i := c] == kids;
    case Some(p) =>
      assert Locate(Internal(seps, kids), k) == Some(|KidsContents(kids[..i])| + p);
      RemoveBelowChild(kids, i, c, p);
  }

  /** Deleting slot p of child i's contents deletes the matching slot of the whole run's contents. */
  lemma RemoveBelowChild<V>(kids: seq<Tree<V>>, i: nat, c: Tree<V>, p: nat)
    requires i < |kids| && p < |Contents(kids[i])| && Contents(c) == Seqs.Remove(Contents(kids[i]), p)
    ensures |KidsContents(kids[..i])| + p < |KidsContents(kids)|
    ensures KidsContents(kids[i := c]) == Seqs.Remove(KidsContents(kids), |KidsContents(kids[..i])| + p)
  {
    KidsContentsReplace(kids, i, c);
    KidsContentsAt(kids, i);
    RemoveInside(KidsContents(kids), KidsContents(kids[..i]), Contents(kids[i]), KidsContents(kids[i + 1..]),
                 |KidsContents(kids[..i])| + p, p);
  }

  /** Replacing child i by a well-formed subtree of the same height and separators keeps the node's invariant and separators. */
  lemma ReplaceChildShape<V>(seps: seq<int>, kids: seq<Tree<V>>, m: nat, lo: Option<int>, hi: Option<int>, i: nat, c: Tree<V>)
    requires WFNode(Internal(seps, kids), m, lo, hi) && i < |kids|
    requires WFNode(c, m, LoOf(seps, lo, i), HiOf(seps, hi, i)) && Height(c) == Height(kids[i])
    requires SameSeps(kids[i], c)
    ensures var t, t' := Internal(seps, kids), Internal(seps, kids[i := c]);
      WFNode(t', m, lo, hi) && Height(t') == Height(t) && SameSeps(t, t')
  {
    var kids' := kids[i := c];
    var h := Height(Internal(seps, kids)) - 1;
    KidsShape(seps, kids, m);
    assert Uniform(kids', m, h) by {
      forall j | 0 <= j < |kids'|
        ensures Fits(kids'[j], m) && Keyed(kids'[j]) && Balanced(kids'[j]) && Height(kids'[j]) == h
      {
        if j != i { assert kids'[j] == kids[j]; }
      }
    }
    InternalShape(seps, kids', m, h);
    OrderedReplaceChild(seps, kids, lo, hi, i, c);
    forall j | 0 <= j < |kids|
      ensures SameSeps(kids[j], kids'[j])
    {
      if j != i { SameSepsRefl(kids[j]); }
    }
  }

  /** Deleting from a concatenation at a position inside its middle part deletes from the middle part. */
  lemma RemoveInside<T>(c: seq<T>, pre: seq<T>, mid: seq<T>, post: seq<T>, q: nat, p: nat)
    requires c == pre + mid + post && p < |mid| && q == |pre| + p
    ensures q < |c| && Seqs.Remove(c, q) == pre + Seqs.Remove(mid, p) + post
  {
    RemoveConcat(pre, mid, post, p);
  }

  // ----- a run of inserts --------------------------------------------------

  /** No two entries carry the same key. */
  predicate DistinctKeys<V>(es: seq<Entry<V>>)
  {
    forall i, j :: 0 <= i < j < |es| ==> es[i].key != es[j].key
  }

  /** BPlusTree::insert applied to each entry of es in turn. */
  function InsertAll<V>(t: Tree<V>, es: seq<Entry<V>>, m: nat): (r: Tree<V>)
    requires WF(t, m) && m >= 3
    ensures WF(r, m)
    ensures Anchored(t) ==> Anchored(r)
    decreases |es|
  {
    if es == [] then t
    else
      InsertTopWF(t, es[0].key, es[0].value, m);
      InsertAll(InsertTop(t, es[0].key, es[0].value, m), es[1..], m)
  }

  /** The keys of es with e inserted at position i are the keys of es with e's key inserted there. */
  lemma KeysOfInsert<V>(es: seq<Entry<V>>, i: nat, e: Entry<V>)
    requires i <= |es|
    ensures KeysOf(Seqs.Insert(es, i, e)) == Seqs.Insert(KeysOf(es), i, e.key)
  {
  }

  /** Inserting a key that is not yet present where the insertion scan stops keeps the keys strictly increasing. */
  lemma InsertFreshStrict(s: seq<int>, k: int)
    requires StrictlySorted(s) && k !in s
    ensures StrictlySorted(Seqs.Insert(s, FirstNotLess(s, k), k))
  {
    var i := FirstNotLess(s, k);
    var s' := Seqs.Insert(s, i, k);
    assert forall j :: i <= j < |s| ==> k < s[j] by {
      forall j | i <= j < |s|
        ensures k < s[j]
      {
        assert s[i] <= s[j] && s[j] != k;
      }
    }
  }

  /**
   * Inserting an entry whose key is not yet present keeps the tree anchored
   * and its keys strictly increasing, and adds exactly that entry.
   */
  lemma InsertFresh<V>(t: Tree<V>, e: Entry<V>, m: nat)
    requires WF(t, m) && m >= 3 && Anchored(t) && StrictlySorted(KeysOf(Contents(t)))
    requires e.key !in KeysOf(Contents(t))
    ensures var t' := InsertTop(t, e.key, e.value, m);
      && WF(t', m) && Anchored(t') && StrictlySorted(KeysOf(Contents(t')))
      && (forall x :: x in Contents(t') <==> x in Contents(t) || x == e)
      && forall k :: k in KeysOf(Contents(t')) <==> k in KeysOf(Contents(t)) || k == e.key
  {
    var c := Contents(t);
    var i := FirstNotLess(KeysOf(c), e.key);
    InsertTopWF(t, e.key, e.value, m);
    assert Contents(InsertTop(t, e.key, e.value, m)) == Seqs.Insert(c, i, e);
    KeysOfInsert(c, i, e);
    InsertFreshStrict(KeysOf(c), e.key);
    InsertMembers(c, i, e);
    InsertMembers(KeysOf(c), i, e.key);
  }

  /**
   * Inserting entries with distinct, fresh keys keeps the tree anchored and
   * its keys strictly increasing, and the tree then holds exactly the old
   * entries and the new ones.
   */
  lemma {:induction false} InsertAllContents<V>(t: Tree<V>, es: seq<Entry<V>>, m: nat)
    requires WF(t, m) && m >= 3 && Anchored(t) && StrictlySorted(KeysOf(Contents(t)))
    requires DistinctKeys(es) && forall j :: 0 <= j < |es| ==> es[j].key !in KeysOf(Contents(t))
    ensures Anchored(InsertAll(t, es, m)) && StrictlySorted(KeysOf(Contents(InsertAll(t, es, m))))
    ensures forall e :: e in Contents(InsertAll(t, es, m)) <==> e in Contents(t) || e in es
    decreases |es|
  {
    if es != [] {
      var e, rest := es[0], es[1..];
      var t' := InsertTop(t, e.key, e.value, m);
      InsertFresh(t, e, m);
      RestFresh(es, KeysOf(Contents(t)), KeysOf(Contents(t')));
      assert InsertAll(t, es, m) == InsertAll(t', rest, m);
      InsertAllContents(t', rest, m);
      HeadTail(es);
    }
  }

  /** The keys after the first entry are fresh once the first entry's key has been added. */
  lemma RestFresh<V>(es: seq<Entry<V>>, ks: seq<int>, ks': seq<int>)
    requires es != [] && DistinctKeys(es) && forall j :: 0 <= j < |es| ==> es[j].key !in ks
    requires forall k :: k in ks' <==> k in ks || k == es[0].key
    ensures DistinctKeys(es[1..]) && forall j :: 0 <= j < |es| - 1 ==> es[1..][j].key !in ks'
  {
    forall j | 0 <= j < |es| - 1
      ensures es[1..][j].key !in ks'
    {
      assert es[1..][j] == es[j + 1];
    }
  }

  lemma HeadTail<T>(s: seq<T>)
    requires s != []
    ensures forall x :: x in s <==> x == s[0] || x in s[1..]
  {
    assert s == [s[0]] + s[1..];
  }

  /** One entry's membership after a run of fresh insertions. */
  lemma InsertAllMember<V>(t: Tree<V>, es: seq<Entry<V>>, m: nat, x: Entry<V>)
    requires WF(t, m) && m >= 3 && Anchored(t) && StrictlySorted(KeysOf(Contents(t)))
    requires DistinctKeys(es) && forall j :: 0 <= j < |es| ==> es[j].key !in KeysOf(Contents(t))
    ensures x in Contents(InsertAll(t, es, m)) <==> x in Contents(t) || x in es
  {
    InsertAllContents(t, es, m);
  }

  /**
   * The insert/find round trip: after inserting entries with distinct keys
   * into an empty tree, the lookup returns each key's inserted value and
   * finds no other key.
   */
  lemma RoundTrip<V>(es: seq<Entry<V>>, m: nat)
    requires DistinctKeys(es) && m >= 3
    ensures var t := InsertAll(Leaf([], []), es, m);
      && (forall j :: 0 <= j < |es| ==> Search(t, es[j].key) == Some(es[j].value))
      && forall k :: (forall j :: 0 <= j < |es| ==> es[j].key != k) ==> Search(t, k) == None
  {
    var t0: Tree<V> := Leaf([], []);
    var t := InsertAll(t0, es, m);
    assert Contents(t0) == [];
    InsertAllContents(t0, es, m);
    forall x | x in Contents(t)
      ensures x in es
    {
      InsertAllMember(t0, es, m, x);
    }
    forall j | 0 <= j < |es|
      ensures Search(t, es[j].key) == Some(es[j].value)
    {
      SearchExact(t, es[j].key, es[j].value, m);
    }
    forall k | forall j :: 0 <= j < |es| ==> es[j].key != k
      ensures Search(t, k) == None
    {
      var c := Contents(t);
      forall p | 0 <= p < |c|
        ensures KeysOf(c)[p] != k
      {
        assert c[p] in c;
        assert c[p] in es;
      }
      SearchSound(t, k, m);
    }
  }
  // ----- duplicate keys ----------------------------------------------------

  /**
   * Inserting a key that is already present adds a second slot instead of
   * overwriting the first: within one leaf the newer entry lands in front of
   * the older one, and it is the one the lookup returns.
   */
  lemma DuplicateInLeaf(m: nat)
    requires m >= 3
    ensures var t := InsertTop(InsertTop(Leaf([], []), 5, 50, m), 5, 500, m);
      Contents(t) == [Entry(5, 500), Entry(5, 50)] && Search(t, 5) == Some(500)
  {
    var t0: Tree<int> := Leaf([], []);
    assert Seqs.Insert([], 0, 5) == [5] && Seqs.Insert([], 0, 50) == [50];
    assert InsertTop(t0, 5, 50, m) == Leaf([5], [50]);
    assert FirstNotLess([5], 5) == 0;
    assert Seqs.Insert([5], 0, 5) == [5, 5] && Seqs.Insert([50], 0, 500) == [500, 50];
    assert InsertTop(Leaf([5], [50]), 5, 500, m) == Leaf([5, 5], [500, 50]);
    assert Contents(Leaf([5, 5], [500, 50])) == Zip([5, 5], [500, 50]) == [Entry(5, 500), Entry(5, 50)];
    assert FirstEqual([5, 5], 5) == 0;
  }

  /**
   * For a key equal to a separator, insert_recursive's scan (`key > keys[i]`)
   * stops at that separator and descends to the child on its left, while the
   * finds and remove_recursive (`key >= keys[i]`) pass it and descend to a
   * child on its right.
   */
  lemma TieDescents(seps: seq<int>, k: int)
    requires Sorted(seps) && k in seps
    ensures FirstNotLess(seps, k) < FirstGreater(seps, k)
  {
    var i := FirstNotLess(seps, k);
    var j :| 0 <= j < |seps| && seps[j] == k;
    assert i <= j;
  }

  /**
   * The tie in a concrete tree: with M = 3, inserting 1, 2 and 3 leaves
   * separator 2 above the leaves [1] and [2, 3] (TieFirstTwo, TieRootSplit).
   * Inserting key 2 again puts the new entry into the left leaf, and the
   * lookup of 2 still returns the first value.
   */
  lemma SeparatorTieKeepsOldValue()
    ensures var t := Internal([2], [Leaf([1], [10]), Leaf([2, 3], [20, 30])]);
      var t' := Internal([2], [Leaf([1, 2], [10, 200]), Leaf([2, 3], [20, 30])]);
      && InsertTop(t, 2, 200, 3) == t'
      && Search(t, 2) == Some(20) && Search(t', 2) == Some(20)
  {
    assert FirstNotLess([2], 2) == 0 && FirstNotLess([1], 2) == 1;
    assert Seqs.Insert([1], 1, 2) == [1, 2] && Seqs.Insert([10], 1, 200) == [10, 200];
    assert FirstGreater([2], 2) == 1 && FirstEqual([2, 3], 2) == 0;
  }

  /** The first two inserts of SeparatorTieKeepsOldValue fill the root leaf in order. */
  lemma TieFirstTwo()
    ensures InsertTop(Leaf([], []), 1, 10, 3) == Leaf([1], [10])
    ensures InsertTop(Leaf([1], [10]), 2, 20, 3) == Leaf([1, 2], [10, 20])
  {
    assert FirstNotLess([1], 2) == 1;
    assert Seqs.Insert([1], 1, 2) == [1, 2] && Seqs.Insert([10], 1, 20) == [10, 20];
  }

  /** The third insert of SeparatorTieKeepsOldValue fills the root leaf to M = 3 keys, and split_leaf copies up key 2. */
  lemma TieRootSplit()
    ensures InsertTop(Leaf([1, 2], [10, 20]), 3, 30, 3) == Internal([2], [Leaf([1], [10]), Leaf([2, 3], [20, 30])])
  {
    var ks, vs := [1, 2, 3], [10, 20, 30];
    assert FirstNotLess([1, 2], 3) == 2;
    assert Seqs.Insert([1, 2], 2, 3) == ks && Seqs.Insert([10, 20], 2, 30) == vs;
    assert ks[..1] == [1] && ks[1..] == [2, 3] && vs[..1] == [10] && vs[1..] == [20, 30];
    assert TreeModel.SplitLeaf(ks, vs, 3) == Overflow(Leaf([1], [10]), 2, Leaf([2, 3], [20, 30]));
  }

  /**
   * Removal leaves separators in place, so a later insert of the same key
   * can miss the lookup: in the tree built by inserting 1, 2 and 3 with
   * M = 3, remove(2) empties slot 2 of the right leaf but keeps separator 2;
   * inserting (2, 200) then descends left of the separator (ties go left on
   * insertion), while the lookup descends right of it (ties go right) and
   * does not find the key that the tree holds.
   */
  lemma RemoveThenInsertLoses()
    ensures var t := Internal([2], [Leaf([1], [10]), Leaf([2, 3], [20, 30])]);
      var r := Internal([2], [Leaf([1], [10]), Leaf([3], [30])]);
      var t' := Internal([2], [Leaf([1, 2], [10, 200]), Leaf([3], [30])]);
      && TreeModel.Remove(t, 2) == r && InsertTop(r, 2, 200, 3) == t'
      && Entry(2, 200) in Contents(t') && Search(t', 2) == None
  {
    RemoveThenInsertRemove();
    RemoveThenInsertInsert();
    var l, rt := Leaf([1, 2], [10, 200]), Leaf([3], [30]);
    var t' := Internal([2], [l, rt]);
    assert Contents(l) == [Entry(1, 10), Entry(2, 200)];
    assert [l, rt][..1] == [l] && [l][..0] == [];
    assert Contents(t') == KidsContents([l]) + Contents(rt);
    assert FirstGreater([2], 2) == 1 && FirstEqual([3], 2) == 1;
  }

  /** The removal step of RemoveThenInsertLoses. */
  lemma RemoveThenInsertRemove()
    ensures TreeModel.Remove(Internal([2], [Leaf([1], [10]), Leaf([2, 3], [20, 30])]), 2)
         == Internal([2], [Leaf([1], [10]), Leaf([3], [30])])
  {
    assert FirstGreater([2], 2) == 1 && FirstEqual([2, 3], 2) == 0;
    assert Seqs.Remove([2, 3], 0) == [3] && Seqs.Remove([20, 30], 0) == [30];
  }

  /** The insertion step of RemoveThenInsertLoses. */
  lemma RemoveThenInsertInsert()
    ensures InsertTop(Internal([2], [Leaf([1], [10]), Leaf([3], [30])]), 2, 200, 3)
         == Internal([2], [Leaf([1, 2], [10, 200]), Leaf([3], [30])])
  {
    assert FirstNotLess([2], 2) == 0 && FirstNotLess([1], 2) == 1;
    assert Seqs.Insert([1], 1, 2) == [1, 2] && Seqs.Insert([10], 1, 200) == [10, 200];
  }
}

/**
 * What insert_recursive, split_leaf, split_internal and insert guarantee:
 * every node keeps fewer than M keys and one more child than keys, the tree
 * stays balanced and ordered, the leaf contents gain exactly the new entry at
 * the first position whose key is not less than it, the height grows only
 * when the root splits, and every separator stays the first key of the
 * subtree to its right.
 */
module TreeInsert {
  import opened Seqs
  import opened TreeModel
  import opened TreeContents

  // ----- the two splits ----------------------------------------------------

  /**
   * split_leaf on a full, sorted leaf: the node keeps the first M/2 entries,
   * the new leaf the remaining ones in order, nothing is lost or duplicated,
   * and the key copied up is the new leaf's first key.
   */
  lemma SplitLeafHalves<V>(ks: seq<int>, vs: seq<V>, m: nat, lo: Option<int>, hi: Option<int>)
    requires |ks| == |vs| == m >= 2
    requires Sorted(ks) && forall j :: 0 <= j < |ks| ==> InRange(lo, hi, ks[j])
    ensures SplitLeaf(ks, vs, m).Overflow?
    ensures var s := SplitLeaf(ks, vs, m);
      && |Contents(s.left)| == m / 2 && |Contents(s.right)| == m - m / 2
      && Contents(s.left) + Contents(s.right) == Zip(ks, vs)
      && Contents(s.right) != [] && Contents(s.right)[0].key == s.median
      && InRange(lo, hi, s.median)
      && Ordered(s.left, lo, Some(s.median)) && Ordered(s.right, Some(s.median), hi)
      && Fits(s.left, m) && Fits(s.right, m)
  {
    ZipSplit(ks, vs, m / 2);
  }

  /**
   * split_internal on a full internal node: keys[M/2] moves up and is kept
   * by neither half, the halves hold M/2 and M - M/2 - 1 keys (so the new node
   * is empty exactly when M <= 2), each half has one more child than keys, and
   * the leaf contents below the two halves are those below the node.
   */
  lemma SplitInternalHalves<V>(seps: seq<int>, kids: seq<Tree<V>>, m: nat, lo: Option<int>, hi: Option<int>)
    requires |seps| == m >= 1 && |kids| == m + 1
    requires Ordered(Internal(seps, kids), lo, hi)
    ensures SplitInternal(seps, kids, m).Overflow?
    ensures var s := SplitInternal(seps, kids, m);
      && s.left.Internal? && s.right.Internal?
      && s.median == seps[m / 2]
      && s.left.seps == seps[..m / 2] && s.right.seps == seps[m / 2 + 1..]
      && |s.left.seps| + |s.right.seps| + 1 == m
      && (|s.right.seps| == 0 <==> m <= 2)
      && |s.left.kids| == |s.left.seps| + 1 && |s.right.kids| == |s.right.seps| + 1
      && Contents(s.left) + Contents(s.right) == KidsContents(kids)
      && InRange(lo, hi, s.median)
      && Ordered(s.left, lo, Some(s.median)) && Ordered(s.right, Some(s.median), hi)
  {
    SplitInternalOrdered(seps, kids, m, lo, hi);
  }

  /** The ordering and contents half of SplitInternalHalves, for any node with more than M/2 keys. */
  lemma SplitInternalOrdered<V>(seps: seq<int>, kids: seq<Tree<V>>, m: nat, lo: Option<int>, hi: Option<int>)
    requires |kids| == |seps| + 1 && m / 2 < |seps|
    requires Ordered(Internal(seps, kids), lo, hi)
    ensures var s := SplitInternal(seps, kids, m);
      && Contents(s.left) + Contents(s.right) == KidsContents(kids)
      && InRange(lo, hi, s.median)
      && Ordered(s.left, lo, Some(s.median)) && Ordered(s.right, Some(s.median), hi)
  {
    var mid := m / 2;
    var lk, rk := kids[..mid + 1], kids[mid + 1..];
    var l, r := Internal(seps[..mid], lk), Internal(seps[mid + 1..], rk);
    assert Contents(l) + Contents(r) == KidsContents(kids) by {
      KidsContentsCut(kids, mid + 1);
    }
    assert Ordered(l, lo, Some(seps[mid])) by {
      OrderedRun(seps, kids, lo, hi, 0, mid);
      assert seps[0..mid] == seps[..mid] && kids[0..mid + 1] == lk;
    }
    assert Ordered(r, Some(seps[mid]), hi) by {
      OrderedRun(seps, kids, lo, hi, mid + 1, |seps|);
      assert seps[mid + 1..|seps|] == seps[mid + 1..] && kids[mid + 1..|seps| + 1] == rk;
    }
    assert InRange(lo, hi, seps[mid]);
    assert SplitInternal(seps, kids, m) == Overflow(l, seps[mid], r);
  }

  /**
   * The separators seps[a .. b) with the children between them form an
   * ordered node within the bounds that surround that run.
   */
  lemma OrderedRun<V>(seps: seq<int>, kids: seq<Tree<V>>, lo: Option<int>, hi: Option<int>, a: nat, b: nat)
    requires |kids| == |seps| + 1 && a <= b <= |seps|
    requires Ordered(Internal(seps, kids), lo, hi)
    ensures Ordered(Internal(seps[a..b], kids[a..b + 1]), LoOf(seps, lo, a), HiOf(seps, hi, b))
  {
    var ss, kk := seps[a..b], kids[a..b + 1];
    var lo', hi' := LoOf(seps, lo, a), HiOf(seps, hi, b);
    forall j | 0 <= j < |ss|
      ensures InRange(lo', hi', ss[j])
    {
      assert ss[j] == seps[a + j];
    }
    forall j | 0 <= j < |kk| && j <= |ss|
      ensures Ordered(kk[j], LoOf(ss, lo', j), HiOf(ss, hi', j))
    {
      assert kk[j] == kids[a + j];
      assert LoOf(ss, lo', j) == LoOf(seps, lo, a + j);
      assert HiOf(ss, hi', j) == HiOf(seps, hi, a + j);
    }
  }

  // ----- the parent absorbs a child's split --------------------------------

  /**
   * Inserting the child's median at keys[i] and the new sibling at
   * children[i + 1] keeps the parent ordered, provided the median lies in
   * child i's range and splits it.
   */
  lemma {:induction false} OrderedInsertChild<V>(seps: seq<int>, kids: seq<Tree<V>>, lo: Option<int>, hi: Option<int>,
                                                 i: nat, l: Tree<V>, med: int, r: Tree<V>)
    requires |kids| == |seps| + 1 && i <= |seps|
    requires Ordered(Internal(seps, kids), lo, hi)
    requires InRange(LoOf(seps, lo, i), HiOf(seps, hi, i), med)
    requires Ordered(l, LoOf(seps, lo, i), Some(med)) && Ordered(r, Some(med), HiOf(seps, hi, i))
    ensures Ordered(Internal(Seqs.Insert(seps, i, med), Seqs.Insert(kids[i := l], i + 1, r)), lo, hi)
  {
    var seps', kids' := Seqs.Insert(seps, i, med), Seqs.Insert(kids[i := l], i + 1, r);
    InsertBetweenSorted(seps, i, med);
    assert forall j :: 0 <= j < |seps'| ==> InRange(lo, hi, seps'[j]) by {
      assert InRange(lo, hi, med) by {
        if i > 0 { assert InRange(lo, hi, seps[i - 1]); }
        if i < |seps| { assert InRange(lo, hi, seps[i]); }
      }
      forall j | 0 <= j < |seps'|
        ensures InRange(lo, hi, seps'[j])
      {
        if j < i { assert seps'[j] == seps[j]; }
        else if j > i { assert seps'[j] == seps[j - 1]; }
      }
    }
    forall j | 0 <= j < |kids'| && j <= |seps'|
      ensures Ordered(kids'[j], LoOf(seps', lo, j), HiOf(seps', hi, j))
    {
      OrderedInsertChildAt(seps, kids, lo, hi, i, l, med, r, j);
    }
  }

  /** The bounds of child j after the split of child i are those child j had before, or the median's. */
  lemma OrderedInsertChildAt<V>(seps: seq<int>, kids: seq<Tree<V>>, lo: Option<int>, hi: Option<int>,
                                i: nat, l: Tree<V>, med: int, r: Tree<V>, j: nat)
    requires |kids| == |seps| + 1 && i <= |seps| && j <= |seps| + 1
    requires Ordered(Internal(seps, kids), lo, hi)
    requires Ordered(l, LoOf(seps, lo, i), Some(med)) && Ordered(r, Some(med), HiOf(seps, hi, i))
    ensures var seps', kids' := Seqs.Insert(seps, i, med), Seqs.Insert(kids[i := l], i + 1, r);
      Ordered(kids'[j], LoOf(seps', lo, j), HiOf(seps', hi, j))
  {
    var seps', kids' := Seqs.Insert(seps, i, med), Seqs.Insert(kids[i := l], i + 1, r);
    if j < i {
      assert kids'[j] == kids[j];
      assert LoOf(seps', lo, j) == LoOf(seps, lo, j) && HiOf(seps', hi, j) == HiOf(seps, hi, j);
    } else if j == i {
      assert kids'[j] == l;
      assert LoOf(seps', lo, j) == LoOf(seps, lo, i) && HiOf(seps', hi, j) == Some(med);
    } else if j == i + 1 {
      assert kids'[j] == r;
      assert LoOf(seps', lo, j) == Some(med) && HiOf(seps', hi, j) == HiOf(seps, hi, i);
    } else {
      assert kids'[j] == kids[j - 1];
      assert LoOf(seps', lo, j) == LoOf(seps, lo, j - 1) && HiOf(seps', hi, j) == HiOf(seps, hi, j - 1);
    }
  }

  // ----- insert_recursive --------------------------------------------------

  /** Each of the subtrees fits, is keyed and balanced, and has height h. */
  predicate Uniform<V>(kids: seq<Tree<V>>, m: nat, h: nat)
  {
    forall j :: 0 <= j < |kids| ==> Fits(kids[j], m) && Keyed(kids[j]) && Balanced(kids[j]) && Height(kids[j]) == h
  }

  /** The shape invariant of an internal node, in terms of its children. */
  lemma InternalShape<V>(seps: seq<int>, kids: seq<Tree<V>>, m: nat, h: nat)
    requires |kids| == |seps| + 1 && 1 <= |seps| < m && Uniform(kids, m, h)
    ensures var t := Internal(seps, kids); Fits(t, m) && Keyed(t) && Balanced(t) && Height(t) == h + 1
  {
  }

  /** The children of a node that fits, is keyed and balanced are uniform at one level below it. */
  lemma KidsShape<V>(seps: seq<int>, kids: seq<Tree<V>>, m: nat)
    requires var t := Internal(seps, kids); Fits(t, m) && Keyed(t) && Balanced(t)
    ensures Uniform(kids, m, Height(Internal(seps, kids)) - 1)
  {
  }

  lemma {:induction false} UniformSplitChild<V>(kids: seq<Tree<V>>, m: nat, h: nat, i: nat, l: Tree<V>, r: Tree<V>)
    requires i < |kids| && Uniform(kids, m, h) && Uniform([l, r], m, h)
    ensures Uniform(Seqs.Insert(kids[i := l], i + 1, r), m, h)
  {
    var kids' := Seqs.Insert(kids[i := l], i + 1, r);
    forall j | 0 <= j < |kids'|
      ensures Fits(kids'[j], m) && Keyed(kids'[j]) && Balanced(kids'[j]) && Height(kids'[j]) == h
    {
      if j < i { assert kids'[j] == kids[j]; }
      else if j == i { assert kids'[j] == [l, r][0]; }
      else if j == i + 1 { assert kids'[j] == [l, r][1]; }
      else { assert kids'[j] == kids[j - 1]; }
    }
  }

  lemma UniformSlice<V>(kids: seq<Tree<V>>, m: nat, h: nat, a: nat, b: nat)
    requires a <= b <= |kids| && Uniform(kids, m, h)
    ensures Uniform(kids[a..b], m, h)
  {
    forall j | 0 <= j < b - a
      ensures kids[a..b][j] == kids[a + j]
    {
    }
  }

  /** The shape half of what insert_recursive leaves behind, for a node of height h. */
  predicate ShapeKept<V>(o: InsertOutcome<V>, m: nat, h: nat)
  {
    match o
    case Fit(t') => Fits(t', m) && Keyed(t') && Balanced(t') && Height(t') == h
    case Overflow(l, _, r) => Uniform([l, r], m, h)
  }

  /**
   * Shape: every node keeps fewer than M keys and one more child than keys,
   * internal nodes keep at least one key, all leaves stay at one depth, and
   * the halves of a split have the height of the node that split.
   */
  lemma {:induction false} InsertShape<V>(t: Tree<V>, k: int, v: V, m: nat)
    requires Fits(t, m) && Keyed(t) && Balanced(t) && m >= 3
    ensures ShapeKept(TreeModel.Insert(t, k, v, m), m, Height(t))
    decreases t
  {
    match t
    case Leaf(ks, vs) =>
      InsertShapeLeaf(ks, vs, k, v, m);
    case Internal(seps, kids) =>
      var i := FirstNotLess(seps, k);
      KidsShape(seps, kids, m);
      InsertShape(kids[i], k, v, m);
      InsertShapeStep(seps, kids, i, TreeModel.Insert(kids[i], k, v, m), m, Height(t) - 1);
  }

  lemma InsertShapeLeaf<V>(ks: seq<int>, vs: seq<V>, k: int, v: V, m: nat)
    requires |ks| == |vs| && |ks| < m && m >= 3
    ensures ShapeKept(TreeModel.Insert(Leaf(ks, vs), k, v, m), m, 0)
  {
  }

  /** One level of InsertShape: the parent absorbs what insert_recursive returned for child i. */
  lemma InsertShapeStep<V>(seps: seq<int>, kids: seq<Tree<V>>, i: nat, o: InsertOutcome<V>, m: nat, h: nat)
    requires |kids| == |seps| + 1 && 1 <= |seps| < m && m >= 3 && i < |kids|
    requires Uniform(kids, m, h) && ShapeKept(o, m, h)
    ensures ShapeKept(Absorb(seps, kids, i, o, m), m, h + 1)
  {
    match o
    case Fit(c) =>
      var kids' := kids[i := c];
      assert Uniform(kids', m, h) by {
        forall j | 0 <= j < |kids'|
          ensures Fits(kids'[j], m) && Keyed(kids'[j]) && Balanced(kids'[j]) && Height(kids'[j]) == h
        {
          if j != i { assert kids'[j] == kids[j]; }
        }
      }
      InternalShape(seps, kids', m, h);
      assert Absorb(seps, kids, i, o, m) == Fit(Internal(seps, kids'));
    case Overflow(l, med, r) =>
      var seps', kids' := Seqs.Insert(seps, i, med), Seqs.Insert(kids[i := l], i + 1, r);
      UniformSplitChild(kids, m, h, i, l, r);
      if |seps'| >= m {
        SplitInternalShape(seps', kids', m, h);
        assert Absorb(seps, kids, i, o, m) == SplitInternal(seps', kids', m);
      } else {
        InternalShape(seps', kids', m, h);
        assert Absorb(seps, kids, i, o, m) == Fit(Internal(seps', kids'));
      }
  }

  /** split_internal of a node holding exactly M keys gives two keyed halves of the node's height (this needs M >= 3). */
  lemma SplitInternalShape<V>(seps: seq<int>, kids: seq<Tree<V>>, m: nat, h: nat)
    requires |seps| == m >= 3 && |kids| == m + 1 && Uniform(kids, m, h)
    ensures ShapeKept(SplitInternal(seps, kids, m), m, h + 1)
  {
    var mid := m / 2;
    var l2, r2 := Internal(seps[..mid], kids[..mid + 1]), Internal(seps[mid + 1..], kids[mid + 1..]);
    assert Fits(l2, m) && Keyed(l2) && Balanced(l2) && Height(l2) == h + 1 by {
      UniformSlice(kids, m, h, 0, mid + 1);
      InternalShape(seps[..mid], kids[..mid + 1], m, h);
    }
    assert Fits(r2, m) && Keyed(r2) && Balanced(r2) && Height(r2) == h + 1 by {
      UniformSlice(kids, m, h, mid + 1, |kids|);
      assert kids[mid + 1..|kids|] == kids[mid + 1..];
      InternalShape(seps[mid + 1..], kids[mid + 1..], m, h);
    }
    assert Uniform([l2, r2], m, h + 1);
  }

  /**
   * The order and contents half of what insert_recursive leaves behind for a
   * node whose contents were c and whose keys lie in [lo, hi]: the result is
   * ordered within that range, its contents are c with Entry(k, v) inserted
   * at the first position whose key is not less than k, and a split's median
   * lies in the range and separates the two halves.
   */
  ghost predicate OrderKept<V>(c: seq<Entry<V>>, o: InsertOutcome<V>, k: int, v: V, lo: Option<int>, hi: Option<int>)
  {
    var c' := Seqs.Insert(c, FirstNotLess(KeysOf(c), k), Entry(k, v));
    match o
    case Fit(t') => Ordered(t', lo, hi) && Contents(t') == c'
    case Overflow(l, med, r) =>
      && InRange(lo, hi, med)
      && Ordered(l, lo, Some(med)) && Ordered(r, Some(med), hi)
      && Contents(l) + Contents(r) == c'
  }

  /** Order and contents of insert_recursive, by induction on the node. */
  lemma {:induction false} InsertOrdered<V>(t: Tree<V>, k: int, v: V, m: nat, lo: Option<int>, hi: Option<int>)
    requires Fits(t, m) && Ordered(t, lo, hi) && InRange(lo, hi, k) && m >= 2
    ensures OrderKept(Contents(t), TreeModel.Insert(t, k, v, m), k, v, lo, hi)
    decreases t
  {
    match t
    case Leaf(ks, vs) =>
      InsertOrderedLeaf(ks, vs, k, v, m, lo, hi);
    case Internal(seps, kids) =>
      var i := FirstNotLess(seps, k);
      InsertOrdered(kids[i], k, v, m, LoOf(seps, lo, i), HiOf(seps, hi, i));
      InsertOrderedStep(seps, kids, m, lo, hi, k, v, i, TreeModel.Insert(kids[i], k, v, m));
  }

  lemma InsertOrderedLeaf<V>(ks: seq<int>, vs: seq<V>, k: int, v: V, m: nat, lo: Option<int>, hi: Option<int>)
    requires |ks| == |vs| && |ks| < m && m >= 2
    requires Ordered(Leaf(ks, vs), lo, hi) && InRange(lo, hi, k)
    ensures OrderKept(Zip(ks, vs), TreeModel.Insert(Leaf(ks, vs), k, v, m), k, v, lo, hi)
  {
    var i := FirstNotLess(ks, k);
    var ks', vs' := Seqs.Insert(ks, i, k), Seqs.Insert(vs, i, v);
    KeysOfZip(ks, vs);
    ZipInsert(ks, vs, i, k, v);
    InsertAtFirstNotLessSorted(ks, k);
    assert forall j :: 0 <= j < |ks'| ==> InRange(lo, hi, ks'[j]) by {
      forall j | 0 <= j < |ks'|
        ensures InRange(lo, hi, ks'[j])
      {
        if j < i { assert ks'[j] == ks[j]; }
        else if j > i { assert ks'[j] == ks[j - 1]; }
      }
    }
    if |ks'| >= m {
      SplitLeafHalves(ks', vs', m, lo, hi);
    } else {
      assert Ordered(Leaf(ks', vs'), lo, hi);
    }
  }

  /**
   * Where the new entry lands in the contents of an internal node: inside
   * child i's contents, at the position the same scan picks there, because
   * everything before child i is below k and everything after it is at
   * least k.
   */
  lemma InsertPosition<V>(seps: seq<int>, kids: seq<Tree<V>>, m: nat, lo: Option<int>, hi: Option<int>, k: int, v: V)
    requires Fits(Internal(seps, kids), m) && Ordered(Internal(seps, kids), lo, hi)
    ensures var i := FirstNotLess(seps, k);
      var c, ci := KidsContents(kids), Contents(kids[i]);
      Seqs.Insert(c, FirstNotLess(KeysOf(c), k), Entry(k, v))
        == KidsContents(kids[..i]) + Seqs.Insert(ci, FirstNotLess(KeysOf(ci), k), Entry(k, v)) + KidsContents(kids[i + 1..])
  {
    var i := FirstNotLess(seps, k);
    var c, pre, mid, post := KidsContents(kids), KidsContents(kids[..i]), Contents(kids[i]), KidsContents(kids[i + 1..]);
    PositionInChild(seps, kids, m, lo, hi, k, i);
    InsertInside(c, pre, mid, post, FirstNotLess(KeysOf(c), k), FirstNotLess(KeysOf(mid), k), Entry(k, v));
  }

  /** Inserting into a concatenation at a position inside its middle part inserts into the middle part. */
  lemma InsertInside<T>(c: seq<T>, pre: seq<T>, mid: seq<T>, post: seq<T>, q: nat, p: nat, x: T)
    requires c == pre + mid + post && p <= |mid| && q == |pre| + p
    ensures Seqs.Insert(c, q, x) == pre + Seqs.Insert(mid, p, x) + post
  {
    InsertConcat(pre, mid, post, p, x);
  }

  /** The insertion scan over all keys below a node stops inside child i, where the scan over child i's keys stops. */
  lemma PositionInChild<V>(seps: seq<int>, kids: seq<Tree<V>>, m: nat, lo: Option<int>, hi: Option<int>, k: int, i: nat)
    requires Fits(Internal(seps, kids), m) && Ordered(Internal(seps, kids), lo, hi)
    requires i == FirstNotLess(seps, k)
    ensures KidsContents(kids) == KidsContents(kids[..i]) + Contents(kids[i]) + KidsContents(kids[i + 1..])
    ensures FirstNotLess(KeysOf(KidsContents(kids)), k) == |KidsContents(kids[..i])| + FirstNotLess(KeysOf(Contents(kids[i])), k)
  {
    var c, pre, mid, post := KidsContents(kids), KidsContents(kids[..i]), Contents(kids[i]), KidsContents(kids[i + 1..]);
    KidsContentsAt(kids, i);
    assert KeysOf(c) == KeysOf(pre) + KeysOf(mid) + KeysOf(post) by {
      KeysOfAppend(pre, mid);
      KeysOfAppend(pre + mid, post);
    }
    PrefixBelow(seps, kids, m, lo, hi, k, i);
    SuffixAtLeast(seps, kids, m, lo, hi, k, i);
    FirstNotLessConcat(KeysOf(pre), KeysOf(mid), KeysOf(post), k);
  }

  predicate KeysBelow<V>(es: seq<Entry<V>>, k: int)
  {
    forall j :: 0 <= j < |es| ==> es[j].key < k
  }

  predicate KeysAtLeast<V>(es: seq<Entry<V>>, k: int)
  {
    forall j :: 0 <= j < |es| ==> k <= es[j].key
  }

  /** Every key below the children before the insertion child is less than k. */
  lemma PrefixBelow<V>(seps: seq<int>, kids: seq<Tree<V>>, m: nat, lo: Option<int>, hi: Option<int>, k: int, i: nat)
    requires Fits(Internal(seps, kids), m) && Ordered(Internal(seps, kids), lo, hi)
    requires i == FirstNotLess(seps, k)
    ensures KeysBelow(KidsContents(kids[..i]), k)
  {
    if i > 0 {
      RunInRange(seps, kids, m, lo, hi, 0, i);
      assert kids[0..i] == kids[..i];
    }
  }

  /** Every key below the children after the insertion child is at least k. */
  lemma SuffixAtLeast<V>(seps: seq<int>, kids: seq<Tree<V>>, m: nat, lo: Option<int>, hi: Option<int>, k: int, i: nat)
    requires Fits(Internal(seps, kids), m) && Ordered(Internal(seps, kids), lo, hi)
    requires i == FirstNotLess(seps, k)
    ensures KeysAtLeast(KidsContents(kids[i + 1..]), k)
  {
    if i + 1 < |kids| {
      RunInRange(seps, kids, m, lo, hi, i + 1, |kids|);
      assert kids[i + 1..|kids|] == kids[i + 1..];
    } else {
      assert kids[i + 1..] == [];
    }
  }

  /** One level of InsertOrdered: the parent absorbs what insert_recursive returned for child i. */
  lemma InsertOrderedStep<V>(seps: seq<int>, kids: seq<Tree<V>>, m: nat, lo: Option<int>, hi: Option<int>,
                             k: int, v: V, i: nat, o: InsertOutcome<V>)
    requires Fits(Internal(seps, kids), m) && Ordered(Internal(seps, kids), lo, hi) && InRange(lo, hi, k)
    requires i == FirstNotLess(seps, k) && m >= 2
    requires OrderKept(Contents(kids[i]), o, k, v, LoOf(seps, lo, i), HiOf(seps, hi, i))
    ensures OrderKept(KidsContents(kids), Absorb(seps, kids, i, o, m), k, v, lo, hi)
  {
    match o
    case Fit(n) =>
      assert Absorb(seps, kids, i, o, m) == Fit(Internal(seps, kids[i := n]));
      InsertPosition(seps, kids, m, lo, hi, k, v);
      OrderedReplaceChild(seps, kids, lo, hi, i, n);
    case Overflow(l, med, r) =>
      var seps', kids' := Seqs.Insert(seps, i, med), Seqs.Insert(kids[i := l], i + 1, r);
      assert Absorb(seps, kids, i, o, m) == if |seps'| >= m then SplitInternal(seps', kids', m) else Fit(Internal(seps', kids'));
      InsertPosition(seps, kids, m, lo, hi, k, v);
      KidsContentsSplitChild(kids, i, l, r);
      OrderedInsertChild(seps, kids, lo, hi, i, l, med, r);
      if |seps'| >= m {
        SplitInternalOrdered(seps', kids', m, lo, hi);
      }
  }

  /** Replacing child i by a subtree ordered within child i's range keeps the node ordered, and replaces child i's contents. */
  lemma OrderedReplaceChild<V>(seps: seq<int>, kids: seq<Tree<V>>, lo: Option<int>, hi: Option<int>, i: nat, n: Tree<V>)
    requires |kids| == |seps| + 1 && i < |kids|
    requires Ordered(Internal(seps, kids), lo, hi) && Ordered(n, LoOf(seps, lo, i), HiOf(seps, hi, i))
    ensures Ordered(Internal(seps, kids[i := n]), lo, hi)
    ensures KidsContents(kids[i := n]) == KidsContents(kids[..i]) + Contents(n) + KidsContents(kids[i + 1..])
  {
    var kids' := kids[i := n];
    KidsContentsReplace(kids, i, n);
    forall j | 0 <= j < |kids'| && j <= |seps|
      ensures Ordered(kids'[j], LoOf(seps, lo, j), HiOf(seps, hi, j))
    {
      if j != i { assert kids'[j] == kids[j]; }
    }
  }

  /**
   * The anchoring half of what insert_recursive leaves behind: the result is
   * anchored, and a split leaves two non-empty halves and promotes the first
   * key of the new sibling's subtree.
   */
  predicate AnchorKept<V>(o: InsertOutcome<V>)
  {
    match o
    case Fit(t') => Anchored(t')
    case Overflow(l, med, r) =>
      && Anchored(l) && Anchored(r) && Contents(l) != []
      && Contents(r) != [] && Contents(r)[0].key == med
  }

  /**
   * The anchoring invariant survives insertion: the separators stay the first
   * keys of the subtrees to their right.
   */
  lemma {:induction false} InsertAnchored<V>(t: Tree<V>, k: int, v: V, m: nat, lo: Option<int>, hi: Option<int>)
    requires WFNode(t, m, lo, hi) && InRange(lo, hi, k) && Anchored(t) && m >= 3
    ensures AnchorKept(TreeModel.Insert(t, k, v, m))
    decreases t
  {
    match t
    case Leaf(ks, vs) =>
      InsertAnchoredLeaf(ks, vs, k, v, m);
    case Internal(seps, kids) =>
      var i := FirstNotLess(seps, k);
      var clo, chi := LoOf(seps, lo, i), HiOf(seps, hi, i);
      assert WFNode(kids[i], m, clo, chi);
      InsertAnchored(kids[i], k, v, m, clo, chi);
      InsertOrdered(kids[i], k, v, m, clo, chi);
      InsertAnchoredStep(seps, kids, m, k, v, i, TreeModel.Insert(kids[i], k, v, m), clo, chi);
  }

  lemma InsertAnchoredLeaf<V>(ks: seq<int>, vs: seq<V>, k: int, v: V, m: nat)
    requires |ks| == |vs| && |ks| < m && m >= 3
    ensures AnchorKept(TreeModel.Insert(Leaf(ks, vs), k, v, m))
  {
  }

  /** One level of InsertAnchored: the parent absorbs what insert_recursive returned for child i. */
  lemma InsertAnchoredStep<V>(seps: seq<int>, kids: seq<Tree<V>>, m: nat, k: int, v: V, i: nat, o: InsertOutcome<V>,
                              clo: Option<int>, chi: Option<int>)
    requires |kids| == |seps| + 1 && |seps| < m && m >= 3 && Anchored(Internal(seps, kids))
    requires i == FirstNotLess(seps, k)
    requires AnchorKept(o) && OrderKept(Contents(kids[i]), o, k, v, clo, chi)
    ensures AnchorKept(Absorb(seps, kids, i, o, m))
  {
    FrontKept(seps, kids, k, v, i);
    match o
    case Fit(c) =>
      assert Absorb(seps, kids, i, o, m) == Fit(Internal(seps, kids[i := c]));
      AnchoredReplaceChild(seps, kids, i, c);
    case Overflow(l, med, r) =>
      var seps', kids' := Seqs.Insert(seps, i, med), Seqs.Insert(kids[i := l], i + 1, r);
      assert Absorb(seps, kids, i, o, m) == if |seps'| >= m then SplitInternal(seps', kids', m) else Fit(Internal(seps', kids'));
      AnchoredInsertChild(seps, kids, i, l, med, r);
      if |seps'| >= m {
        AnchoredSplit(seps', kids', m);
      }
  }

  /** Replacing child i by an anchored subtree that starts with the same entry keeps the node anchored. */
  lemma AnchoredReplaceChild<V>(seps: seq<int>, kids: seq<Tree<V>>, i: nat, c: Tree<V>)
    requires |kids| == |seps| + 1 && i < |kids| && Anchored(Internal(seps, kids)) && Anchored(c)
    requires i > 0 ==> Contents(c) != [] && Contents(c)[0].key == seps[i - 1]
    ensures Anchored(Internal(seps, kids[i := c]))
  {
    var kids' := kids[i := c];
    forall j | 1 <= j < |kids'| && j <= |seps|
      ensures Contents(kids'[j]) != [] && Contents(kids'[j])[0].key == seps[j - 1]
    {
      if j != i { assert kids'[j] == kids[j]; }
    }
    assert forall j :: 0 <= j < |kids'| ==> Anchored(kids'[j]);
  }

  /** When child i is not the first, its first key is the separator before it, which is below k, so inserting k leaves that entry in front. */
  lemma FrontKept<V>(seps: seq<int>, kids: seq<Tree<V>>, k: int, v: V, i: nat)
    requires |kids| == |seps| + 1 && Anchored(Internal(seps, kids)) && i == FirstNotLess(seps, k)
    ensures var ci := Contents(kids[i]);
      var ci' := Seqs.Insert(ci, FirstNotLess(KeysOf(ci), k), Entry(k, v));
      i > 0 ==> ci != [] && ci'[0] == ci[0] && ci[0].key == seps[i - 1]
  {
    var ci := Contents(kids[i]);
    if i > 0 {
      assert KeysOf(ci)[0] == seps[i - 1] < k;
    }
  }

  /** split_internal on an anchored node gives two anchored, non-empty halves and moves up the right half's first key. */
  lemma AnchoredSplit<V>(seps: seq<int>, kids: seq<Tree<V>>, m: nat)
    requires |kids| == |seps| + 1 && m >= 2 && m / 2 < |seps| && Anchored(Internal(seps, kids))
    ensures AnchorKept(SplitInternal(seps, kids, m))
  {
    var mid := m / 2;
    var lk, rk := kids[..mid + 1], kids[mid + 1..];
    assert Anchored(Internal(seps[..mid], lk)) by {
      AnchoredRun(seps, kids, 0, mid);
      assert seps[0..mid] == seps[..mid] && kids[0..mid + 1] == lk;
    }
    assert Anchored(Internal(seps[mid + 1..], rk)) by {
      AnchoredRun(seps, kids, mid + 1, |seps|);
      assert seps[mid + 1..|seps|] == seps[mid + 1..] && kids[mid + 1..|seps| + 1] == rk;
    }
    assert KidsContents(lk) != [] by {
      assert lk[1] == kids[1];
      NonEmptyRun(lk, 1);
    }
    assert KidsContents(rk) != [] && KidsContents(rk)[0].key == seps[mid] by {
      assert rk[0] == kids[mid + 1];
      assert Contents(kids[mid + 1]) != [] && Contents(kids[mid + 1])[0].key == seps[mid];
      FirstOfRun(rk);
    }
  }

  /** The separators seps[a .. b) with the children between them form an anchored node. */
  lemma AnchoredRun<V>(seps: seq<int>, kids: seq<Tree<V>>, a: nat, b: nat)
    requires |kids| == |seps| + 1 && a <= b <= |seps| && Anchored(Internal(seps, kids))
    ensures Anchored(Internal(seps[a..b], kids[a..b + 1]))
  {
    var ss, kk := seps[a..b], kids[a..b + 1];
    forall j | 1 <= j < |kk| && j <= |ss|
      ensures Contents(kk[j]) != [] && Contents(kk[j])[0].key == ss[j - 1]
    {
      assert kk[j] == kids[a + j] && ss[j - 1] == seps[a + j - 1];
    }
    forall j | 0 <= j < |kk|
      ensures Anchored(kk[j])
    {
      assert kk[j] == kids[a + j];
    }
  }

  /** The parent stays anchored after absorbing child i's split, when the child's first entry stayed in front. */
  lemma {:induction false} AnchoredInsertChild<V>(seps: seq<int>, kids: seq<Tree<V>>, i: nat, l: Tree<V>, med: int, r: Tree<V>)
    requires |kids| == |seps| + 1 && i <= |seps|
    requires Anchored(Internal(seps, kids))
    requires Anchored(l) && Anchored(r) && Contents(l) != [] && Contents(r) != [] && Contents(r)[0].key == med
    requires i > 0 ==> (Contents(l) + Contents(r))[0].key == seps[i - 1]
    ensures Anchored(Internal(Seqs.Insert(seps, i, med), Seqs.Insert(kids[i := l], i + 1, r)))
  {
    var seps', kids' := Seqs.Insert(seps, i, med), Seqs.Insert(kids[i := l], i + 1, r);
    forall j | 1 <= j < |kids'| && j <= |seps'|
      ensures Contents(kids'[j]) != [] && Contents(kids'[j])[0].key == seps'[j - 1]
    {
      if j < i {
        assert kids'[j] == kids[j] && seps'[j - 1] == seps[j - 1];
      } else if j == i {
        assert kids'[j] == l && seps'[j - 1] == seps[j - 1];
        assert Contents(l)[0] == (Contents(l) + Contents(r))[0];
      } else if j == i + 1 {
        assert kids'[j] == r && seps'[j - 1] == med;
      } else {
        assert kids'[j] == kids[j - 1] && seps'[j - 1] == seps[j - 2];
      }
    }
    forall j | 0 <= j < |kids'|
      ensures Anchored(kids'[j])
    {
      if j < i { assert kids'[j] == kids[j]; }
      else if j > i + 1 { assert kids'[j] == kids[j - 1]; }
    }
  }

  // ----- insert ------------------------------------------------------------

  /**
   * BPlusTree::insert keeps the invariant, adds exactly Entry(k, v) at the
   * first position whose key is not less than k, keeps the tree anchored, and
   * grows the height by one exactly when the root splits, in which case the
   * new root holds the median and the two halves.
   */
  lemma InsertTopWF<V>(t: Tree<V>, k: int, v: V, m: nat)
    requires WF(t, m) && m >= 3
    ensures WF(InsertTop(t, k, v, m), m)
    ensures Contents(InsertTop(t, k, v, m))
         == Seqs.Insert(Contents(t), FirstNotLess(KeysOf(Contents(t)), k), Entry(k, v))
    ensures Anchored(t) ==> Anchored(InsertTop(t, k, v, m))
    ensures match TreeModel.Insert(t, k, v, m)
      case Fit(t') => InsertTop(t, k, v, m) == t' && Height(t') == Height(t)
      case Overflow(l, med, r) =>
        && InsertTop(t, k, v, m) == Internal([med], [l, r])
        && Height(InsertTop(t, k, v, m)) == Height(t) + 1
  {
    InsertShape(t, k, v, m);
    InsertOrdered(t, k, v, m, None, None);
    if Anchored(t) {
      InsertAnchored(t, k, v, m, None, None);
    }
    match TreeModel.Insert(t, k, v, m)
    case Fit(t') =>
      assert InsertTop(t, k, v, m) == t';
    case Overflow(l, med, r) =>
      assert InsertTop(t, k, v, m) == Internal([med], [l, r]);
      NewRoot(l, med, r, m, Height(t));
  }

  /** The invariant part of InsertTopWF on its own, for callers that need nothing else. */
  lemma InsertTopKeepsWF<V>(t: Tree<V>, k: int, v: V, m: nat)
    requires WF(t, m) && m >= 3
    ensures WF(InsertTop(t, k, v, m), m)
  {
    InsertTopWF(t, k, v, m);
  }

  /** The root insert puts on top of a split: one key, two children, one level higher. */
  lemma NewRoot<V>(l: Tree<V>, med: int, r: Tree<V>, m: nat, h: nat)
    requires Uniform([l, r], m, h) && m >= 2
    requires Ordered(l, None, Some(med)) && Ordered(r, Some(med), None)
    ensures var root := Internal([med], [l, r]);
      && WF(root, m) && Height(root) == h + 1
      && Contents(root) == Contents(l) + Contents(r)
      && (AnchorKept(Overflow(l, med, r)) ==> Anchored(root))
  {
    var root := Internal([med], [l, r]);
    assert Contents(root) == Contents(l) + Contents(r) by {
      KidsContentsAppend([l], [r]);
      KidsContentsOne(l);
      KidsContentsOne(r);
      assert [l] + [r] == [l, r];
    }
    assert Ordered(root, None, None) by {
      assert LoOf([med], None, 0) == None && HiOf([med], None, 0) == Some(med);
      assert LoOf([med], None, 1) == Some(med) && HiOf([med], None, 1) == None;
    }
    InternalShape([med], [l, r], m, h);
  }
}

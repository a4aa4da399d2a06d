/**
 * What an insertion costs the arena: every node insert_recursive and insert
 * take from it ends up in the tree, so the tree gains exactly Splits (or
 * SplitsTop) nodes.
 */
module TreeAlloc {
  import Seqs
  import opened TreeModel

  /** How many nodes the node, or the two halves, that insert_recursive hands back consist of. */
  function OutcomeCount<V>(o: InsertOutcome<V>): nat
  {
    match o
    case Fit(t) => Count(t)
    case Overflow(l, _, r) => Count(l) + Count(r)
  }

  lemma {:induction false} KidsCountAppend<V>(a: seq<Tree<V>>, b: seq<Tree<V>>)
    ensures KidsCount(a + b) == KidsCount(a) + KidsCount(b)
    decreases |b|
  {
    if b == [] {
      assert a + b == a;
    } else {
      var ab := a + b;
      assert ab[..|ab| - 1] == a + b[..|b| - 1];
      assert ab[|ab| - 1] == b[|b| - 1];
      KidsCountAppend(a, b[..|b| - 1]);
    }
  }

  lemma KidsCountOne<V>(t: Tree<V>)
    ensures KidsCount([t]) == Count(t)
  {
    assert [t][..0] == [];
  }

  /** The size of a run of children seen around its child i. */
  lemma KidsCountAt<V>(kids: seq<Tree<V>>, i: nat)
    requires i < |kids|
    ensures KidsCount(kids) == KidsCount(kids[..i]) + Count(kids[i]) + KidsCount(kids[i + 1..])
  {
    assert kids == kids[..i] + [kids[i]] + kids[i + 1..];
    KidsCountAppend(kids[..i] + [kids[i]], kids[i + 1..]);
    KidsCountAppend(kids[..i], [kids[i]]);
    KidsCountOne(kids[i]);
  }

  /** The size of a run of children after child i was replaced by the two halves of its split. */
  lemma KidsCountSplitChild<V>(kids: seq<Tree<V>>, i: nat, l: Tree<V>, r: Tree<V>)
    requires i < |kids|
    ensures KidsCount(Seqs.Insert(kids[i := l], i + 1, r)) == KidsCount(kids[..i]) + Count(l) + Count(r) + KidsCount(kids[i + 1..])
  {
    var kids' := Seqs.Insert(kids[i := l], i + 1, r);
    assert kids' == kids[..i] + ([l] + [r]) + kids[i + 1..];
    KidsCountAppend(kids[..i] + ([l] + [r]), kids[i + 1..]);
    KidsCountAppend(kids[..i], [l] + [r]);
    KidsCountAppend([l], [r]);
    KidsCountOne(l);
    KidsCountOne(r);
  }

  /**
   * The second half of insert_recursive on an internal node adds one node to
   * what the child's insertion added exactly when the node splits in turn.
   */
  lemma AbsorbCount<V>(seps: seq<int>, kids: seq<Tree<V>>, i: nat, o: InsertOutcome<V>, m: nat)
    requires |kids| == |seps| + 1 && i < |kids|
    ensures OutcomeCount(Absorb(seps, kids, i, o, m)) + Count(kids[i])
         == 1 + KidsCount(kids) + OutcomeCount(o) + (if Absorb(seps, kids, i, o, m).Overflow? then 1 else 0)
  {
    KidsCountAt(kids, i);
    match o
    case Fit(c) =>
      KidsCountAt(kids[i := c], i);
      assert kids[i := c][..i] == kids[..i] && kids[i := c][i + 1..] == kids[i + 1..];
    case Overflow(l, med, r) =>
      KidsCountSplitChild(kids, i, l, r);
      var seps', kids' := Seqs.Insert(seps, i, med), Seqs.Insert(kids[i := l], i + 1, r);
      if |seps'| >= m {
        SplitInternalCount(seps', kids', m);
      }
  }

  /** split_internal loses no node and adds one. */
  lemma SplitInternalCount<V>(seps: seq<int>, kids: seq<Tree<V>>, m: nat)
    requires |kids| == |seps| + 1 && m / 2 < |seps|
    ensures OutcomeCount(TreeModel.SplitInternal(seps, kids, m)) == 2 + KidsCount(kids)
  {
    var mid := m / 2;
    assert kids == kids[..mid + 1] + kids[mid + 1..];
    KidsCountAppend(kids[..mid + 1], kids[mid + 1..]);
  }

  /** Splits on an internal node: those below the child the entry goes into, and one more when the node splits in turn. */
  lemma SplitsStep<V>(seps: seq<int>, kids: seq<Tree<V>>, k: int, v: V, m: nat)
    requires Fits(Internal(seps, kids), m)
    ensures var i := Seqs.FirstNotLess(seps, k);
      i < |kids| && Fits(kids[i], m)
      && Splits(Internal(seps, kids), k, v, m)
         == Splits(kids[i], k, v, m) + if Absorb(seps, kids, i, Insert(kids[i], k, v, m), m).Overflow? then 1 else 0
  {
  }

  /** Every node insert_recursive allocates is one of the nodes it hands back: the subtree grows by exactly Splits nodes. */
  lemma {:induction false} InsertCount<V>(t: Tree<V>, k: int, v: V, m: nat)
    requires Fits(t, m)
    ensures OutcomeCount(Insert(t, k, v, m)) == Count(t) + Splits(t, k, v, m)
    decreases t
  {
    match t
    case Leaf(_, _) =>
    case Internal(seps, kids) =>
      var i := Seqs.FirstNotLess(seps, k);
      InsertCount(kids[i], k, v, m);
      AbsorbCount(seps, kids, i, Insert(kids[i], k, v, m), m);
  }

  /** insert grows the tree by exactly the SplitsTop nodes it allocates. */
  lemma InsertTopCount<V>(t: Tree<V>, k: int, v: V, m: nat)
    requires Fits(t, m)
    ensures Count(InsertTop(t, k, v, m)) == Count(t) + SplitsTop(t, k, v, m)
  {
    InsertCount(t, k, v, m);
    match Insert(t, k, v, m)
    case Fit(_) =>
    case Overflow(l, _, r) =>
      assert [l, r] == [l] + [r];
      KidsCountAppend([l], [r]);
      KidsCountOne(l);
      KidsCountOne(r);
  }
}

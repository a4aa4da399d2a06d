/**
 * Facts about the leaf contents of a tree: how they decompose over runs of
 * children and over leaf slots, and that the ordering invariant confines
 * every key below a child to that child's separator range.
 */
module TreeContents {
  import opened Seqs
  import opened TreeModel

  /** Every key of es lies in [lo, hi]. */
  predicate AllIn<V>(es: seq<Entry<V>>, lo: Option<int>, hi: Option<int>)
  {
    forall j :: 0 <= j < |es| ==> InRange(lo, hi, es[j].key)
  }

  /** lo is no stronger a lower bound than lo'. */
  predicate LoWeaker(lo: Option<int>, lo': Option<int>)
  {
    lo.None? || (lo'.Some? && lo.value <= lo'.value)
  }

  /** hi is no stronger an upper bound than hi'. */
  predicate HiWeaker(hi: Option<int>, hi': Option<int>)
  {
    hi.None? || (hi'.Some? && hi'.value <= hi.value)
  }

  lemma KeysOfAppend<V>(a: seq<Entry<V>>, b: seq<Entry<V>>)
    ensures KeysOf(a + b) == KeysOf(a) + KeysOf(b)
  {
  }

  lemma KeysOfZip<V>(ks: seq<int>, vs: seq<V>)
    requires |ks| == |vs|
    ensures KeysOf(Zip(ks, vs)) == ks
  {
  }

  /** Contents of a run of children split at any point. */
  lemma {:induction false} KidsContentsAppend<V>(a: seq<Tree<V>>, b: seq<Tree<V>>)
    ensures KidsContents(a + b) == KidsContents(a) + KidsContents(b)
    decreases |b|
  {
    if b == [] {
      assert a + b == a;
    } else {
      var ab := a + b;
      assert ab[..|ab| - 1] == a + b[..|b| - 1];
      assert ab[|ab| - 1] == b[|b| - 1];
      KidsContentsAppend(a, b[..|b| - 1]);
    }
  }

  /** Contents of a run of children cut at index n. */
  lemma KidsContentsCut<V>(kids: seq<Tree<V>>, n: nat)
    requires n <= |kids|
    ensures KidsContents(kids) == KidsContents(kids[..n]) + KidsContents(kids[n..])
  {
    assert kids == kids[..n] + kids[n..];
    KidsContentsAppend(kids[..n], kids[n..]);
  }

  /** A run of children with one non-empty child has non-empty contents. */
  lemma NonEmptyRun<V>(kids: seq<Tree<V>>, j: nat)
    requires j < |kids| && Contents(kids[j]) != []
    ensures KidsContents(kids) != []
  {
    KidsContentsAt(kids, j);
  }

  /** The first entry below a run of children whose first child is non-empty is that child's first entry. */
  lemma FirstOfRun<V>(kids: seq<Tree<V>>)
    requires 0 < |kids| && Contents(kids[0]) != []
    ensures KidsContents(kids) != [] && KidsContents(kids)[0] == Contents(kids[0])[0]
  {
    KidsContentsCut(kids, 1);
    assert kids[..1] == [kids[0]];
    KidsContentsOne(kids[0]);
    FrontOfConcat(Contents(kids[0]), KidsContents(kids[1..]));
  }

  lemma FrontOfConcat<T>(a: seq<T>, b: seq<T>)
    requires a != []
    ensures a + b != [] && (a + b)[0] == a[0]
  {
  }

  lemma KidsContentsOne<V>(t: Tree<V>)
    ensures KidsContents([t]) == Contents(t)
  {
    assert [t][..0] == [];
  }

  /** The contents of a run of children seen around its child i. */
  lemma {:induction false} KidsContentsAt<V>(kids: seq<Tree<V>>, i: nat)
    requires i < |kids|
    ensures KidsContents(kids) == KidsContents(kids[..i]) + Contents(kids[i]) + KidsContents(kids[i + 1..])
  {
    var pre, mid, post := kids[..i], [kids[i]], kids[i + 1..];
    calc {
      KidsContents(kids);
      { assert kids == (pre + mid) + post; }
      KidsContents((pre + mid) + post);
      { KidsContentsAppend(pre + mid, post); }
      KidsContents(pre + mid) + KidsContents(post);
      { KidsContentsAppend(pre, mid); KidsContentsOne(kids[i]); }
      KidsContents(pre) + Contents(kids[i]) + KidsContents(post);
    }
  }

  /** Contents of a run of children with child i replaced. */
  lemma {:induction false} KidsContentsReplace<V>(kids: seq<Tree<V>>, i: nat, c: Tree<V>)
    requires i < |kids|
    ensures KidsContents(kids[i := c]) == KidsContents(kids[..i]) + Contents(c) + KidsContents(kids[i + 1..])
  {
    KidsContentsAt(kids[i := c], i);
    assert kids[i := c][..i] == kids[..i];
    assert kids[i := c][i + 1..] == kids[i + 1..];
  }

  /** Contents of a run of children after child i was replaced by the two halves of its split. */
  lemma {:induction false} KidsContentsSplitChild<V>(kids: seq<Tree<V>>, i: nat, l: Tree<V>, r: Tree<V>)
    requires i < |kids|
    ensures KidsContents(Seqs.Insert(kids[i := l], i + 1, r))
         == KidsContents(kids[..i]) + (Contents(l) + Contents(r)) + KidsContents(kids[i + 1..])
  {
    var kids' := Seqs.Insert(kids[i := l], i + 1, r);
    assert kids' == kids[..i] + ([l] + [r]) + kids[i + 1..];
    KidsContentsAppend(kids[..i] + ([l] + [r]), kids[i + 1..]);
    KidsContentsAppend(kids[..i], [l] + [r]);
    KidsContentsAppend([l], [r]);
    KidsContentsOne(l);
    KidsContentsOne(r);
  }

  lemma ZipInsert<V>(ks: seq<int>, vs: seq<V>, i: nat, k: int, v: V)
    requires |ks| == |vs| && i <= |ks|
    ensures Zip(Seqs.Insert(ks, i, k), Seqs.Insert(vs, i, v)) == Seqs.Insert(Zip(ks, vs), i, Entry(k, v))
  {
  }

  lemma ZipRemove<V>(ks: seq<int>, vs: seq<V>, i: nat)
    requires |ks| == |vs| && i < |ks|
    ensures Zip(Seqs.Remove(ks, i), Seqs.Remove(vs, i)) == Seqs.Remove(Zip(ks, vs), i)
  {
  }

  lemma ZipSplit<V>(ks: seq<int>, vs: seq<V>, mid: nat)
    requires |ks| == |vs| && mid <= |ks|
    ensures Zip(ks[..mid], vs[..mid]) + Zip(ks[mid..], vs[mid..]) == Zip(ks, vs)
  {
  }

  lemma AllInAppend<V>(a: seq<Entry<V>>, b: seq<Entry<V>>, lo: Option<int>, hi: Option<int>)
    requires AllIn(a, lo, hi) && AllIn(b, lo, hi)
    ensures AllIn(a + b, lo, hi)
  {
  }

  lemma AllInWeaken<V>(es: seq<Entry<V>>, lo: Option<int>, hi: Option<int>, lo': Option<int>, hi': Option<int>)
    requires AllIn(es, lo', hi') && LoWeaker(lo, lo') && HiWeaker(hi, hi')
    ensures AllIn(es, lo, hi)
  {
  }

  /** The ordering invariant confines every key below t to [lo, hi]. */
  lemma {:induction false} ContentsInRange<V>(t: Tree<V>, m: nat, lo: Option<int>, hi: Option<int>)
    requires Fits(t, m) && Ordered(t, lo, hi)
    ensures AllIn(Contents(t), lo, hi)
    decreases t, 1
  {
    match t
    case Leaf(ks, vs) =>
    case Internal(seps, kids) =>
      RunInRange(seps, kids, m, lo, hi, 0, |kids|);
      assert kids[0..|kids|] == kids;
  }

  /**
   * The keys below children[a .. b) lie between the separator before
   * children[a] and the separator after children[b - 1].
   */
  lemma {:induction false} RunInRange<V>(seps: seq<int>, kids: seq<Tree<V>>, m: nat, lo: Option<int>, hi: Option<int>,
                                         a: nat, b: nat)
    requires Fits(Internal(seps, kids), m) && Ordered(Internal(seps, kids), lo, hi)
    requires a < b <= |kids|
    ensures AllIn(KidsContents(kids[a..b]), LoOf(seps, lo, a), HiOf(seps, hi, b - 1))
    decreases Internal(seps, kids), 0, b - a
  {
    var run := kids[a..b];
    assert run[..|run| - 1] == kids[a..b - 1];
    assert run[|run| - 1] == kids[b - 1];
    ContentsInRange(kids[b - 1], m, LoOf(seps, lo, b - 1), HiOf(seps, hi, b - 1));
    if b == a + 1 {
      assert kids[a..b - 1] == [];
    } else {
      RunInRange(seps, kids, m, lo, hi, a, b - 1);
      AllInWeaken(KidsContents(kids[a..b - 1]), LoOf(seps, lo, a), HiOf(seps, hi, b - 1),
                  LoOf(seps, lo, a), HiOf(seps, hi, b - 2));
      AllInWeaken(Contents(kids[b - 1]), LoOf(seps, lo, a), HiOf(seps, hi, b - 1),
                  LoOf(seps, lo, b - 1), HiOf(seps, hi, b - 1));
      AllInAppend(KidsContents(kids[a..b - 1]), Contents(kids[b - 1]), LoOf(seps, lo, a), HiOf(seps, hi, b - 1));
    }
  }

  /** A well-formed subtree's contents are sorted by key. */
  lemma {:induction false} ContentsSorted<V>(t: Tree<V>, m: nat, lo: Option<int>, hi: Option<int>)
    requires Fits(t, m) && Ordered(t, lo, hi)
    ensures Sorted(KeysOf(Contents(t)))
    decreases t, 1
  {
    match t
    case Leaf(ks, vs) =>
      KeysOfZip(ks, vs);
    case Internal(seps, kids) =>
      RunSorted(seps, kids, m, lo, hi, |kids|);
      assert kids[..|kids|] == kids;
  }

  /** The contents below children[0 .. b) are sorted by key. */
  lemma {:induction false} RunSorted<V>(seps: seq<int>, kids: seq<Tree<V>>, m: nat, lo: Option<int>, hi: Option<int>, b: nat)
    requires Fits(Internal(seps, kids), m) && Ordered(Internal(seps, kids), lo, hi)
    requires b <= |kids|
    ensures Sorted(KeysOf(KidsContents(kids[..b])))
    decreases Internal(seps, kids), 0, b
  {
    if b > 0 {
      var run := kids[..b];
      assert run[..|run| - 1] == kids[..b - 1];
      var a, c := KidsContents(kids[..b - 1]), Contents(kids[b - 1]);
      RunSorted(seps, kids, m, lo, hi, b - 1);
      ContentsSorted(kids[b - 1], m, LoOf(seps, lo, b - 1), HiOf(seps, hi, b - 1));
      ContentsInRange(kids[b - 1], m, LoOf(seps, lo, b - 1), HiOf(seps, hi, b - 1));
      if b > 1 {
        RunInRange(seps, kids, m, lo, hi, 0, b - 1);
        assert kids[0..b - 1] == kids[..b - 1];
        // every key of a is at most seps[b - 2], every key of c at least seps[b - 2]
        assert forall x, y :: 0 <= x < |a| && 0 <= y < |c| ==> a[x].key <= seps[b - 2] <= c[y].key;
      }
      KeysOfAppend(a, c);
    }
  }
}

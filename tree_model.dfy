/**
 * Value-level model of the B+ tree in bplustree.hpp.
 *
 * A `Tree` is what one node and everything below it hold: a leaf is its
 * populated key and value slots, an internal node its populated separator
 * slots and the subtrees its children point to. The functions here follow the
 * recursion of the source step by step (descent scans, shift-right slot
 * insertion, copy-up and move-up splits, leaf-only removal); the imperative
 * classes in node.dfy and bplustree.dfy are proved to compute exactly these
 * functions, and the lemma modules prove what the functions guarantee.
 */
module TreeModel {
  import opened Seqs

  datatype Option<T> = None | Some(value: T)

  /** One populated leaf slot: keys[i] together with values[i]. */
  datatype Entry<V> = Entry(key: int, value: V)

  /**
   * Leaf(keys, vals): the slots [0, num_keys) of keys and values.
   * Internal(seps, kids): the slots [0, num_keys) of keys and the subtrees
   * below children[0 .. num_keys].
   */
  datatype Tree<V> =
    | Leaf(keys: seq<int>, vals: seq<V>)
    | Internal(seps: seq<int>, kids: seq<Tree<V>>)

  /**
   * What insert_recursive reports to its caller: the node absorbed the new
   * entry (new_sibling stays null), or it split into `left` (the node itself)
   * and `right` (the new sibling), with `median` to be inserted into the parent.
   */
  datatype InsertOutcome<V> =
    | Fit(node: Tree<V>)
    | Overflow(left: Tree<V>, median: int, right: Tree<V>)

  // ----- shape -------------------------------------------------------------

  /** Every leaf has one value per key and every internal node one more child than keys; no node holds M or more keys. */
  predicate Fits<V>(t: Tree<V>, m: nat)
  {
    match t
    case Leaf(ks, vs) => |ks| == |vs| && |ks| < m
    case Internal(seps, kids) =>
      && |kids| == |seps| + 1 && |seps| < m
      && forall j :: 0 <= j < |kids| ==> Fits(kids[j], m)
  }

  /** Every internal node holds at least one separator key. */
  predicate Keyed<V>(t: Tree<V>)
  {
    match t
    case Leaf(_, _) => true
    case Internal(seps, kids) =>
      && 1 <= |seps|
      && forall j :: 0 <= j < |kids| ==> Keyed(kids[j])
  }

  /** Number of internal levels above the leaves, read along the leftmost path. */
  function Height<V>(t: Tree<V>): nat
  {
    match t
    case Leaf(_, _) => 0
    case Internal(_, kids) => if kids == [] then 1 else 1 + Height(kids[0])
  }

  /** All leaves lie at the same depth. */
  predicate Balanced<V>(t: Tree<V>)
  {
    match t
    case Leaf(_, _) => true
    case Internal(_, kids) =>
      forall j :: 0 <= j < |kids| ==> Height(kids[j]) == Height(kids[0]) && Balanced(kids[j])
  }

  // ----- order -------------------------------------------------------------

  /** x lies in the closed range [lo, hi]; a missing bound is unbounded. */
  predicate InRange(lo: Option<int>, hi: Option<int>, x: int)
  {
    (lo.None? || lo.value <= x) && (hi.None? || x <= hi.value)
  }

  /** Lower bound for children[j]: the separator before it, or the node's own bound. */
  function LoOf(seps: seq<int>, lo: Option<int>, j: nat): Option<int>
    requires j <= |seps|
  {
    if j == 0 then lo else Some(seps[j - 1])
  }

  /** Upper bound for children[j]: the separator after it, or the node's own bound. */
  function HiOf(seps: seq<int>, hi: Option<int>, j: nat): Option<int>
    requires j <= |seps|
  {
    if j < |seps| then Some(seps[j]) else hi
  }

  /**
   * Keys are sorted in every node, and every key below children[j] lies
   * between the separators on either side of it. The bounds are closed at
   * both ends: duplicate keys may sit on both sides of an equal separator.
   */
  predicate Ordered<V>(t: Tree<V>, lo: Option<int>, hi: Option<int>)
  {
    match t
    case Leaf(ks, _) =>
      Sorted(ks) && forall j :: 0 <= j < |ks| ==> InRange(lo, hi, ks[j])
    case Internal(seps, kids) =>
      && Sorted(seps)
      && (forall j :: 0 <= j < |seps| ==> InRange(lo, hi, seps[j]))
      && forall j :: 0 <= j < |kids| && j <= |seps| ==> Ordered(kids[j], LoOf(seps, lo, j), HiOf(seps, hi, j))
  }

  /** The invariant of a subtree whose keys are confined to [lo, hi]. */
  predicate WFNode<V>(t: Tree<V>, m: nat, lo: Option<int>, hi: Option<int>)
  {
    Fits(t, m) && Keyed(t) && Balanced(t) && Ordered(t, lo, hi)
  }

  /** The invariant of a whole tree with fan-out M. */
  predicate WF<V>(t: Tree<V>, m: nat)
  {
    WFNode(t, m, None, None)
  }

  // ----- contents ----------------------------------------------------------

  /** Pairs keys[i] with vals[i]. */
  function Zip<V>(ks: seq<int>, vs: seq<V>): (r: seq<Entry<V>>)
    requires |ks| == |vs|
    ensures |r| == |ks|
    ensures forall j :: 0 <= j < |r| ==> r[j] == Entry(ks[j], vs[j])
  {
    seq(|ks|, j requires 0 <= j < |ks| => Entry(ks[j], vs[j]))
  }

  /** The key of every entry, in order. */
  function KeysOf<V>(es: seq<Entry<V>>): (r: seq<int>)
    ensures |r| == |es|
    ensures forall j :: 0 <= j < |es| ==> r[j] == es[j].key
  {
    seq(|es|, j requires 0 <= j < |es| => es[j].key)
  }

  /** The leaf entries of t from left to right: the ordered map the tree stores. */
  function Contents<V>(t: Tree<V>): seq<Entry<V>>
    decreases t
  {
    match t
    case Leaf(ks, vs) => if |ks| == |vs| then Zip(ks, vs) else []
    case Internal(_, kids) => KidsContents(kids)
  }

  /** The leaf entries below a run of children, from left to right. */
  function KidsContents<V>(kids: seq<Tree<V>>): seq<Entry<V>>
    decreases kids
  {
    if kids == [] then [] else KidsContents(kids[..|kids| - 1]) + Contents(kids[|kids| - 1])
  }

  /**
   * Every separator is the first key below the child to its right: the
   * copy-up of split_leaf and the move-up of split_internal both promote
   * exactly that key, and insertion never adds a smaller key to the right of
   * a separator. Removal can break it.
   */
  predicate Anchored<V>(t: Tree<V>)
  {
    match t
    case Leaf(_, _) => true
    case Internal(seps, kids) =>
      && (forall j :: 1 <= j < |kids| && j <= |seps| ==>
            Contents(kids[j]) != [] && Contents(kids[j])[0].key == seps[j - 1])
      && forall j :: 0 <= j < |kids| ==> Anchored(kids[j])
  }

  // ----- lookup ------------------------------------------------------------

  /**
   * The lookup every find strategy performs: at an internal node descend into
   * the child after the last separator not greater than k (ties go right), at
   * the leaf return the value of the leftmost slot holding k.
   */
  function Search<V>(t: Tree<V>, k: int): Option<V>
  {
    match t
    case Leaf(ks, vs) =>
      var j := FirstEqual(ks, k);
      if j < |ks| && j < |vs| then Some(vs[j]) else None
    case Internal(seps, kids) =>
      var i := FirstGreater(seps, k);
      if i < |kids| then Search(kids[i], k) else None
  }

  /** Where in Contents(t) the slot that Search(t, k) reads lies. */
  function Locate<V>(t: Tree<V>, k: int): Option<nat>
  {
    match t
    case Leaf(ks, vs) =>
      var j := FirstEqual(ks, k);
      if j < |ks| && j < |vs| then Some(j) else None
    case Internal(seps, kids) =>
      var i := FirstGreater(seps, k);
      if i < |kids| then
        match Locate(kids[i], k)
        case Some(p) => Some(|KidsContents(kids[..i])| + p)
        case None => None
      else None
  }

  // ----- insertion ---------------------------------------------------------

  /** split_leaf: the node keeps slots [0, M/2), the new leaf gets the rest, and its first key is copied up. */
  function SplitLeaf<V>(ks: seq<int>, vs: seq<V>, m: nat): InsertOutcome<V>
    requires |ks| == |vs| && m / 2 < |ks|
  {
    var mid := m / 2;
    Overflow(Leaf(ks[..mid], vs[..mid]), ks[mid], Leaf(ks[mid..], vs[mid..]))
  }

  /**
   * split_internal: keys[M/2] moves up, the node keeps keys [0, M/2) and
   * children [0, M/2], the new node gets the keys after M/2 and the children
   * after M/2.
   */
  function SplitInternal<V>(seps: seq<int>, kids: seq<Tree<V>>, m: nat): InsertOutcome<V>
    requires |kids| == |seps| + 1 && m / 2 < |seps|
  {
    var mid := m / 2;
    Overflow(Internal(seps[..mid], kids[..mid + 1]), seps[mid], Internal(seps[mid + 1..], kids[mid + 1..]))
  }

  /**
   * insert_recursive. The descent uses the strict scan `key > keys[i]`, so a
   * key equal to a separator goes to the child on its left. In a leaf the new
   * slot goes where that scan stops; the update-in-place branch of the source
   * is never taken, because every key before that slot is smaller than k (see
   * BPlusTree.InsertLeaf), so an existing key gets a second slot in front of it.
   */
  function Insert<V>(t: Tree<V>, k: int, v: V, m: nat): InsertOutcome<V>
    requires Fits(t, m)
    decreases t
  {
    match t
    case Leaf(ks, vs) =>
      var i := FirstNotLess(ks, k);
      var ks', vs' := Seqs.Insert(ks, i, k), Seqs.Insert(vs, i, v);
      if |ks'| >= m then SplitLeaf(ks', vs', m) else Fit(Leaf(ks', vs'))
    case Internal(seps, kids) =>
      var i := FirstNotLess(seps, k);
      Absorb(seps, kids, i, Insert(kids[i], k, v, m), m)
  }

  /**
   * The second half of insert_recursive on an internal node: after the
   * recursive call into child i, a split child's median goes to keys[i] and
   * its new sibling to children[i + 1], and the node splits in turn once it
   * holds M keys.
   */
  function Absorb<V>(seps: seq<int>, kids: seq<Tree<V>>, i: nat, o: InsertOutcome<V>, m: nat): InsertOutcome<V>
    requires |kids| == |seps| + 1 && i < |kids|
  {
    match o
    case Fit(c) => Fit(Internal(seps, kids[i := c]))
    case Overflow(l, med, r) =>
      var seps', kids' := Seqs.Insert(seps, i, med), Seqs.Insert(kids[i := l], i + 1, r);
      if |seps'| >= m then SplitInternal(seps', kids', m) else Fit(Internal(seps', kids'))
  }

  /** BPlusTree::insert: a split of the root puts a new root with one key and two children on top. */
  function InsertTop<V>(t: Tree<V>, k: int, v: V, m: nat): Tree<V>
    requires Fits(t, m)
  {
    match Insert(t, k, v, m)
    case Fit(t') => t'
    case Overflow(l, med, r) => Internal([med], [l, r])
  }

  // ----- allocation --------------------------------------------------------

  /** How many nodes t consists of: itself and every node below it. */
  function Count<V>(t: Tree<V>): nat
    decreases t
  {
    match t
    case Leaf(_, _) => 1
    case Internal(_, kids) => 1 + KidsCount(kids)
  }

  /** How many nodes a run of children consists of. */
  function KidsCount<V>(kids: seq<Tree<V>>): nat
    decreases kids
  {
    if kids == [] then 0 else KidsCount(kids[..|kids| - 1]) + Count(kids[|kids| - 1])
  }

  /**
   * How many nodes insert_recursive takes from the arena: one for every
   * split on the path from t down to the leaf the entry goes into.
   */
  function Splits<V>(t: Tree<V>, k: int, v: V, m: nat): nat
    requires Fits(t, m)
    decreases t
  {
    var own := if Insert(t, k, v, m).Overflow? then 1 else 0;
    match t
    case Leaf(_, _) => own
    case Internal(seps, kids) => Splits(kids[FirstNotLess(seps, k)], k, v, m) + own
  }

  /** How many nodes insert takes from the arena: those of insert_recursive, and a new root when the old one split. */
  function SplitsTop<V>(t: Tree<V>, k: int, v: V, m: nat): nat
    requires Fits(t, m)
  {
    Splits(t, k, v, m) + if Insert(t, k, v, m).Overflow? then 1 else 0
  }

  // ----- removal -----------------------------------------------------------

  /**
   * remove_recursive: descend like the finds (ties go right) and delete the
   * leftmost slot holding k in that one leaf; separators are never touched.
   */
  function Remove<V>(t: Tree<V>, k: int): Tree<V>
  {
    match t
    case Leaf(ks, vs) =>
      var j := FirstEqual(ks, k);
      if j < |ks| && j < |vs| then Leaf(Seqs.Remove(ks, j), Seqs.Remove(vs, j)) else t
    case Internal(seps, kids) =>
      var i := FirstGreater(seps, k);
      if i < |kids| then Internal(seps, kids[i := Remove(kids[i], k)]) else t
  }
}

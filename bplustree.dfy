/**
 * class BPlusTree<KeyType, ValueType, M>: a root pointer into arena-allocated
 * nodes. Keys are `int` (the only key type the SIMD lookup is compiled for),
 * `m` is the template parameter M, `arena` the process-wide global_arena
 * (null until it is set up) and `nodeBytes` is sizeof(Node).
 *
 * Every operation is proved to do to the node structure exactly what the
 * value-level functions of TreeModel do to `root.Shape`.
 */
module Trees {
  import opened Seqs
  import opened TreeModel
  import opened Arenas
  import opened Nodes
  import opened Lanes
  import TreeSearch
  import TreeInsert
  import TreeAlloc

  class BPlusTree<V(0)> {
    var root: Node<V>
    const m: nat
    const arena: Arena?
    const nodeBytes: nat
    ghost var Repr: set<object>

    /** The root is a valid node whose subtree is a well-formed tree of fan-out M, and the arena is not part of the tree. */
    ghost predicate Valid()
      reads this, Repr, arena
    {
      && this in Repr && root in Repr && root.Repr <= Repr && this !in root.Repr
      && root.Valid(m) && WF(root.Shape, m)
      && 3 <= m && nodeBytes < SizeRange
      && arena !in Repr && (arena != null ==> arena.Valid())
    }

    /** How much of the arena has been handed out; 0 while there is no arena. */
    ghost function Offset(): nat
      reads arena
    {
      if arena == null then 0 else arena.offset
    }

    /**
     * How n node allocations in a row, starting at arena offset o, end: Ok
     * when none is needed or all succeed, "Arena not initialized" when one
     * is needed and there is no arena, "Arena out of memory" when one of
     * them throws.
     */
    ghost function StatusAfter(n: nat, o: nat): Status
      requires nodeBytes < SizeRange
    {
      if n == 0 then Ok
      else if arena == null then ArenaNotInitialized
      else if AllocMany(o, arena.capacity, nodeBytes, n).Some? then Ok
      else ArenaOutOfMemory
    }

    /** The arena offset after those n allocations, up to the first that throws. */
    ghost function OffsetAfter(n: nat, o: nat): nat
      requires nodeBytes < SizeRange
    {
      if arena == null then o else Reach(o, arena.capacity, nodeBytes, n)
    }

    /** The arena after n node allocations from offset o ended with status st. */
    ghost predicate Spent(n: nat, o: nat, st: Status)
      requires nodeBytes < SizeRange
      reads arena
    {
      st == StatusAfter(n, o) && Offset() == OffsetAfter(n, o)
    }

    /** a + b allocations are a allocations and then, unless one of those failed, b more. */
    lemma Chain(a: nat, b: nat, o: nat)
      requires nodeBytes < SizeRange
      ensures StatusAfter(a + b, o) == if StatusAfter(a, o) == Ok then StatusAfter(b, OffsetAfter(a, o)) else StatusAfter(a, o)
      ensures OffsetAfter(a + b, o) == if StatusAfter(a, o) == Ok then OffsetAfter(b, OffsetAfter(a, o)) else OffsetAfter(a, o)
    {
      if arena != null {
        AllocManyAdd(o, arena.capacity, nodeBytes, a, b);
        if AllocMany(o, arena.capacity, nodeBytes, a).Some? {
          AllocManyReach(o, arena.capacity, nodeBytes, a);
        }
      }
    }

    /**
     * With an arena and no size_t wrap-around, n node allocations from
     * offset o succeed exactly when n rounded-up node blocks fit below the
     * capacity, and then advance the offset by exactly those blocks;
     * otherwise they fail with "Arena out of memory".
     */
    lemma StatusFits(n: nat, o: nat)
      requires arena != null && nodeBytes + 63 < SizeRange
      requires o <= arena.capacity && arena.capacity + RoundUp64(nodeBytes) < SizeRange
      ensures StatusAfter(n, o) == Ok <==> o + n * RoundUp64(nodeBytes) <= arena.capacity
      ensures StatusAfter(n, o) == Ok ==> OffsetAfter(n, o) == o + n * RoundUp64(nodeBytes)
      ensures StatusAfter(n, o) != Ok ==> StatusAfter(n, o) == ArenaOutOfMemory
    {
      AllocManyFits(o, arena.capacity, nodeBytes, n, RoundUp64(nodeBytes));
      if AllocMany(o, arena.capacity, nodeBytes, n).Some? {
        AllocManyReach(o, arena.capacity, nodeBytes, n);
      }
    }

    /** After a first run of allocations that succeeded, the whole run ends as the second part does. */
    lemma ChainOk(a: nat, b: nat, o: nat, mid: nat, st: Status)
      requires nodeBytes < SizeRange && StatusAfter(a, o) == Ok && mid == OffsetAfter(a, o)
      ensures Spent(a + b, o, st) <==> Spent(b, mid, st)
    {
      Chain(a, b, o);
    }

    /** After a first run of allocations that failed, the whole run ends there. */
    lemma ChainFail(a: nat, b: nat, o: nat, st: Status)
      requires nodeBytes < SizeRange && Spent(a, o, st) && st != Ok
      ensures Spent(a + b, o, st)
    {
      Chain(a, b, o);
    }

    /** Wraps an already allocated empty leaf as the root. */
    constructor FromRoot(r: Node<V>, a: Arena?, fanout: nat, bytes: nat)
      requires r.Valid(fanout) && r.Shape == Leaf([], []) && 3 <= fanout && bytes < SizeRange
      requires a !in r.Repr && (a != null ==> a.Valid())
      ensures Valid() && root == r && m == fanout && arena == a && nodeBytes == bytes
      ensures Repr == {this} + r.Repr
    {
      root := r;
      m := fanout;
      arena := a;
      nodeBytes := bytes;
      Repr := {this} + r.Repr;
    }

    /**
     * BPlusTree(): the root is a fresh empty leaf taken from the arena; the
     * constructor fails where Node::operator new throws.
     */
    static method Create(a: Arena?, fanout: nat, bytes: nat) returns (st: Status, t: BPlusTree?<V>)
      requires 3 <= fanout && bytes < SizeRange
      requires a != null ==> a.Valid()
      modifies a
      ensures a != null ==> a.Valid()
      ensures st == Ok <==> t != null
      ensures st == Ok ==> fresh(t) && t.Valid() && fresh(t.Repr) && t.root.Shape == Leaf([], []) && t.arena == a && t.m == fanout
      ensures a == null ==> st == ArenaNotInitialized
      ensures a != null ==> st == (if AllocStep(old(a.offset), a.capacity, bytes).Some? then Ok else ArenaOutOfMemory)
      ensures a != null ==> a.offset == if st == Ok then AllocStep(old(a.offset), a.capacity, bytes).value else old(a.offset)
    {
      var r: Node?<V>;
      st, r := Node.New(a, true, fanout, bytes);
      if st != Ok {
        return st, null;
      }
      t := new BPlusTree.FromRoot(r, a, fanout, bytes);
    }

    // ----- insertion ---------------------------------------------------------

    /** The scan of insert_recursive: the first slot whose key is not less than `key`, num_keys if there is none. */
    static method ScanNotLess(node: Node<V>, key: int) returns (i: nat)
      requires node.numKeys <= node.keys.Length
      ensures i == FirstNotLess(node.keys[..node.numKeys], key)
    {
      i := 0;
      while i < node.numKeys && key > node.keys[i]
        invariant i <= node.numKeys
        invariant forall j :: 0 <= j < i ==> node.keys[j] < key
      {
        i := i + 1;
      }
      FirstNotLessUnique(node.keys[..node.numKeys], key, i);
    }

    /**
     * What insert_recursive hands back, read against the model's outcome: no
     * sibling when the node absorbed the entry, otherwise the node is the left
     * half, `sibling` the right half and `median` the key for the parent.
     */
    ghost predicate Outcome(o: InsertOutcome<V>, node: Node<V>, sibling: Node?<V>, median: int)
      reads node, sibling
    {
      match o
      case Fit(t) => sibling == null && node.Shape == t
      case Overflow(l, med, r) => sibling != null && node.Shape == l && median == med && sibling.Shape == r
    }

    /**
     * split_leaf on a leaf holding M keys: the node keeps its first M/2
     * entries, a new leaf from the arena takes the rest, and the median is
     * the new leaf's first key. Fails, changing nothing, where the new leaf
     * cannot be allocated.
     */
    method SplitLeaf(node: Node<V>, ghost outside: set<object>) returns (st: Status, newLeaf: Node?<V>, median: int)
      requires node.Valid(m) && node.isLeaf && node.numKeys == m && 3 <= m
      requires nodeBytes < SizeRange && (arena != null ==> arena.Valid()) && arena !in node.Repr
      modifies node, arena
      ensures arena != null ==> arena.Valid()
      ensures Spent(1, old(Offset()), st)
      ensures st == Ok <==> newLeaf != null
      ensures st != Ok ==> unchanged(node)
      ensures st == Ok ==> node.Valid(m) && node.Repr == old(node.Repr)
      ensures st == Ok ==> newLeaf.Valid(m) && fresh(newLeaf.Repr) && node.Repr !! newLeaf.Repr && newLeaf.Repr !! outside
      ensures st == Ok ==> TreeModel.SplitLeaf(old(node.Shape.keys), old(node.Shape.vals), m) == Overflow(node.Shape, median, newLeaf.Shape)
    {
      st, newLeaf := Node.New(arena, true, m, nodeBytes);
      if st != Ok {
        return st, null, 0;
      }
      median := node.SplitLeaf(newLeaf);
    }

    /**
     * split_internal on a node holding M keys: keys[M/2] moves up as the
     * median and is kept by neither half, the node keeps the keys before it
     * and the children up to it, a new node from the arena takes the keys and
     * children after it. Fails, changing nothing, where the new node cannot
     * be allocated.
     */
    method SplitInternal(node: Node<V>, ghost outside: set<object>) returns (st: Status, newNode: Node?<V>, median: int)
      requires node.Valid(m) && !node.isLeaf && node.numKeys == m && 3 <= m
      requires nodeBytes < SizeRange && (arena != null ==> arena.Valid()) && arena !in node.Repr && node.Repr !! outside
      modifies node, arena
      ensures arena != null ==> arena.Valid()
      ensures Spent(1, old(Offset()), st)
      ensures st == Ok <==> newNode != null
      ensures st != Ok ==> unchanged(node)
      ensures st == Ok ==> node.Valid(m) && node.Repr <= old(node.Repr)
      ensures st == Ok ==> newNode.Valid(m) && fresh(newNode.Repr - old(node.Repr)) && node.Repr !! newNode.Repr && newNode.Repr !! outside
      ensures st == Ok ==> TreeModel.SplitInternal(old(node.Shape.seps), old(node.Shape.kids), m) == Overflow(node.Shape, median, newNode.Shape)
    {
      st, newNode := Node.New(arena, false, m, nodeBytes);
      if st != Ok {
        return st, null, 0;
      }
      median := node.SplitInternal(newNode);
      node.FreshBeyond(newNode);
    }

    /**
     * insert_recursive: find the first slot whose key is not less than `key`;
     * in a leaf put the entry there and split at M keys, in an internal node
     * insert into that child, take in the median and sibling of a child that
     * split, and split at M keys. On success the node and the returned sibling
     * hold exactly the outcome of the model's Insert. A failed allocation in a
     * split ends the insertion; nothing is promised about the tree then.
     */
    method InsertRecursive(node: Node<V>, key: int, value: V, ghost outside: set<object>, ghost n: nat) returns (st: Status, sibling: Node?<V>, median: int)
      requires node.Valid(m) && Fits(node.Shape, m) && 3 <= m && nodeBytes < SizeRange && n == Splits(node.Shape, key, value, m)
      requires (arena != null ==> arena.Valid() && arena in outside) && node.Repr !! outside
      modifies node.Repr, arena
      decreases node.Repr, 2
      ensures arena != null ==> arena.Valid()
      ensures Spent(n, old(Offset()), st)
      ensures st == Ok ==> node.Valid(m) && node.Repr !! outside
      ensures st == Ok ==> Outcome(TreeModel.Insert(old(node.Shape), key, value, m), node, sibling, median)
      ensures st == Ok && sibling != null ==> sibling.Valid(m) && node.Repr !! sibling.Repr && sibling.Repr !! outside
    {
      if node.isLeaf {
        st, sibling, median := InsertLeaf(node, key, value, outside, n);
      } else {
        st, sibling, median := InsertInternal(node, key, value, outside, n);
      }
    }

    /** The leaf branch of insert_recursive. */
    method InsertLeaf(node: Node<V>, key: int, value: V, ghost outside: set<object>, ghost n: nat) returns (st: Status, sibling: Node?<V>, median: int)
      requires node.Valid(m) && node.isLeaf && Fits(node.Shape, m) && 3 <= m && nodeBytes < SizeRange && n == Splits(node.Shape, key, value, m)
      requires (arena != null ==> arena.Valid()) && arena !in node.Repr
      modifies node.Repr, arena
      ensures arena != null ==> arena.Valid()
      ensures Spent(n, old(Offset()), st)
      ensures st == Ok ==> node.Valid(m) && node.Repr == old(node.Repr)
      ensures st == Ok ==> Outcome(TreeModel.Insert(old(node.Shape), key, value, m), node, sibling, median)
      ensures st == Ok && sibling != null ==> sibling.Valid(m) && node.Repr !! sibling.Repr && sibling.Repr !! outside
    {
      var i := ScanNotLess(node, key);
      if i > 0 && node.keys[i - 1] == key {
        // The update branch of the source: every key before slot i is smaller than `key`, so it is never taken.
        assert false;
      }
      node.InsertEntryAt(i, key, value);
      if node.numKeys >= m {
        st, sibling, median := SplitLeaf(node, outside);
        return;
      }
      return Ok, null, 0;
    }

    /** The internal-node branch of insert_recursive. */
    method InsertInternal(node: Node<V>, key: int, value: V, ghost outside: set<object>, ghost n: nat) returns (st: Status, sibling: Node?<V>, median: int)
      requires node.Valid(m) && !node.isLeaf && Fits(node.Shape, m) && 3 <= m && nodeBytes < SizeRange && n == Splits(node.Shape, key, value, m)
      requires (arena != null ==> arena.Valid() && arena in outside) && node.Repr !! outside
      modifies node.Repr, arena
      decreases node.Repr, 1
      ensures arena != null ==> arena.Valid()
      ensures Spent(n, old(Offset()), st)
      ensures st == Ok ==> node.Valid(m) && node.Repr !! outside
      ensures st == Ok ==> Outcome(TreeModel.Insert(old(node.Shape), key, value, m), node, sibling, median)
      ensures st == Ok && sibling != null ==> sibling.Valid(m) && node.Repr !! sibling.Repr && sibling.Repr !! outside
    {
      var i := ScanNotLess(node, key);
      ghost var seps, kids := node.Shape.seps, node.Shape.kids;
      ghost var o := TreeModel.Insert(kids[i], key, value, m);
      assert TreeModel.Insert(node.Shape, key, value, m) == Absorb(seps, kids, i, o, m);
      ghost var below, own := Splits(kids[i], key, value, m), if Absorb(seps, kids, i, o, m).Overflow? then 1 else 0;
      assert n == below + own;
      ghost var o0 := Offset();
      var childSibling: Node?<V>, childMedian: int;
      st, childSibling, childMedian := InsertIntoChild(node, i, key, value, outside, below);
      if st != Ok {
        ChainFail(below, own, o0, st);
        return st, null, 0;
      }
      ghost var o1 := Offset();
      st, sibling, median := TakeChild(node, i, childMedian, childSibling, outside, seps, kids, o, own);
      ChainOk(below, own, o0, o1, st);
    }

    /**
     * The recursive call of insert_recursive on an internal node: insert into
     * child i. Afterwards the node is as it was except below child i, and
     * child i and its new sibling, if any, hold the outcome of the model's
     * Insert on the child's subtree.
     */
    method InsertIntoChild(node: Node<V>, i: nat, key: int, value: V, ghost outside: set<object>, ghost n: nat)
        returns (st: Status, childSibling: Node?<V>, childMedian: int)
      requires node.Valid(m) && !node.isLeaf && i <= node.numKeys && Fits(node.Shape, m) && 3 <= m && nodeBytes < SizeRange
      requires n == Splits(node.Shape.kids[i], key, value, m)
      requires (arena != null ==> arena.Valid() && arena in outside) && node.Repr !! outside
      modifies node.Repr, arena
      decreases node.Repr, 0
      ensures arena != null ==> arena.Valid()
      ensures Spent(n, old(Offset()), st)
      ensures st == Ok ==> node.ValidBut(i) && node.Repr == old(node.Repr) && node.numKeys == old(node.numKeys)
      ensures st == Ok ==> node.Shape == old(node.Shape) && node.Kids == old(node.Kids)
      ensures st == Ok ==> node.Kids[i].Valid(m) && node.Kids[i].Repr !! outside
      ensures st == Ok ==> Outcome(TreeModel.Insert(old(node.Shape.kids[i]), key, value, m), node.Kids[i], childSibling, childMedian)
      ensures st == Ok && childSibling != null ==>
        && childSibling.Valid(m) && node.Kids[i].Repr !! childSibling.Repr && childSibling.Repr !! outside
        && node !in childSibling.Repr && node.keys !in childSibling.Repr
        && node.values !in childSibling.Repr && node.children !in childSibling.Repr
        && (forall j :: 0 <= j < |node.Kids| && j != i ==> node.Kids[j].Repr !! childSibling.Repr)
    {
      node.ChildAt(i);
      var child := node.children[i];
      ghost var r0, c0 := node.Repr, child.Repr;
      st, childSibling, childMedian := InsertRecursive(child, key, value, outside + (r0 - c0), n);
      if st != Ok {
        return;
      }
      node.Loosen(i, childSibling);
    }

    /** What a child's insert_recursive handed back, as the model's outcome. */
    ghost function ChildOutcome(c: Tree<V>, childMedian: int, childSibling: Node?<V>): InsertOutcome<V>
      reads childSibling
    {
      if childSibling == null then Fit(c) else Overflow(c, childMedian, childSibling.Shape)
    }

    /**
     * The end of insert_recursive on an internal node after the insertion
     * into child i: a child that kept its entries is taken in as it is; after
     * a child split, the median and the new sibling go into the node, which
     * splits in turn once it holds M keys.
     */
    method TakeChild(node: Node<V>, i: nat, childMedian: int, childSibling: Node?<V>, ghost outside: set<object>,
                     ghost seps: seq<int>, ghost kids: seq<Tree<V>>, ghost o: InsertOutcome<V>, ghost own: nat)
        returns (st: Status, sibling: Node?<V>, median: int)
      requires node.ValidBut(i) && node.keys.Length == m && node.numKeys < m && 3 <= m && nodeBytes < SizeRange
      requires node.Shape == Internal(seps, kids) && o == ChildOutcome(node.Kids[i].Shape, childMedian, childSibling)
      requires own == if Absorb(seps, kids, i, o, m).Overflow? then 1 else 0
      requires node.Kids[i].Valid(m) && node.Repr !! outside && node.Kids[i].Repr !! outside
      requires childSibling != null ==>
        && childSibling.Valid(m) && node.Kids[i].Repr !! childSibling.Repr && childSibling.Repr !! outside
        && node !in childSibling.Repr && node.keys !in childSibling.Repr
        && node.values !in childSibling.Repr && node.children !in childSibling.Repr
        && (forall j :: 0 <= j < |node.Kids| && j != i ==> node.Kids[j].Repr !! childSibling.Repr)
      requires arena != null ==> arena.Valid() && arena in outside
      modifies node, node.keys, node.children, arena
      ensures arena != null ==> arena.Valid()
      ensures Spent(own, old(Offset()), st)
      ensures st == Ok ==> node.Valid(m) && node.Repr !! outside
      ensures st == Ok ==> Outcome(Absorb(seps, kids, i, o, m), node, sibling, median)
      ensures st == Ok && sibling != null ==> sibling.Valid(m) && node.Repr !! sibling.Repr && sibling.Repr !! outside
    {
      if childSibling == null {
        node.AbsorbFit(i);
        return Ok, null, 0;
      }
      ghost var c := node.Kids[i].Shape;
      ghost var seps', kids' := Seqs.Insert(seps, i, childMedian), Seqs.Insert(kids[i := c], i + 1, childSibling.Shape);
      node.AbsorbSplit(i, childMedian, childSibling);
      assert node.Shape == Internal(seps', kids') && node.numKeys == |seps'|;
      if node.numKeys >= m {
        assert Absorb(seps, kids, i, o, m) == TreeModel.SplitInternal(seps', kids', m);
        st, sibling, median := SplitInternal(node, outside);
        return;
      }
      return Ok, null, 0;
    }

    /**
     * insert: insert from the root; when the root splits, a new root from the
     * arena takes the median as its one key and the two halves as its two
     * children, and the tree grows by one level.
     */
    method Insert(key: int, value: V) returns (st: Status)
      requires Valid()
      modifies Repr, arena
      ensures arena != null ==> arena.Valid()
      ensures Spent(SplitsTop(old(root.Shape), key, value, m), old(Offset()), st)
      ensures st == Ok ==> Valid()
      ensures st == Ok ==> root.Shape == InsertTop(old(root.Shape), key, value, m)
    {
      var r: Node?<V>;
      st, r := InsertAtRoot(key, value, Repr - root.Repr + (if arena == null then {} else {arena}));
      if st != Ok {
        return;
      }
      root := r;
      Repr := Repr + r.Repr;
      TreeInsert.InsertTopKeepsWF(old(root.Shape), key, value, m);
    }

    /** The body of insert: the node that is the root afterwards, the old root or a new one above it. */
    method InsertAtRoot(key: int, value: V, ghost outside: set<object>) returns (st: Status, r: Node?<V>)
      requires root.Valid(m) && WF(root.Shape, m) && 3 <= m && nodeBytes < SizeRange
      requires (arena != null ==> arena.Valid() && arena in outside) && this in outside && root.Repr !! outside
      modifies root.Repr, arena
      ensures arena != null ==> arena.Valid()
      ensures Spent(SplitsTop(old(root.Shape), key, value, m), old(Offset()), st)
      ensures st == Ok ==> r != null && r.Valid(m) && r.Repr !! outside
      ensures st == Ok ==> r.Shape == InsertTop(old(root.Shape), key, value, m)
    {
      var sibling: Node?<V>, median: int;
      ghost var s0 := root.Shape;
      ghost var outcome := TreeModel.Insert(s0, key, value, m);
      ghost var below, own := Splits(root.Shape, key, value, m), if outcome.Overflow? then 1 else 0;
      assert SplitsTop(root.Shape, key, value, m) == below + own;
      ghost var o0 := Offset();
      st, sibling, median := InsertRecursive(root, key, value, outside, below);
      if st != Ok {
        ChainFail(below, own, o0, st);
        return st, null;
      }
      ghost var o1 := Offset();
      st, r := SettleRoot(root, sibling, median, outcome, outside);
      ChainOk(below, own, o0, o1, st);
      assert st == Ok ==> r.Shape == InsertTop(s0, key, value, m);
    }

    /**
     * The end of insert, after insert_recursive on the root succeeded: the
     * root stays when it did not split; otherwise a new root is grown above
     * the two halves, which takes one node from the arena.
     */
    method SettleRoot(node: Node<V>, sibling: Node?<V>, median: int, ghost outcome: InsertOutcome<V>, ghost outside: set<object>) returns (st: Status, r: Node?<V>)
      requires 3 <= m && nodeBytes < SizeRange && (arena != null ==> arena.Valid() && arena in outside)
      requires node.Valid(m) && node.Repr !! outside && Outcome(outcome, node, sibling, median)
      requires sibling != null ==> sibling.Valid(m) && node.Repr !! sibling.Repr && sibling.Repr !! outside
      modifies arena
      ensures arena != null ==> arena.Valid()
      ensures Spent(if outcome.Overflow? then 1 else 0, old(Offset()), st)
      ensures st == Ok ==> r != null && r.Valid(m) && r.Repr !! outside
      ensures st == Ok ==> r.Shape == match outcome
        case Fit(t) => t
        case Overflow(left, med, right) => Internal([med], [left, right])
    {
      if sibling == null {
        return Ok, node;
      }
      st, r := GrowTree(node, median, sibling, outside);
    }

    /**
     * The root split of insert: a new internal node from the arena holds
     * the median as its one key and the two halves as its two children. Fails
     * where the new node cannot be allocated.
     */
    method GrowTree(left: Node<V>, median: int, right: Node<V>, ghost outside: set<object>) returns (st: Status, r: Node?<V>)
      requires 3 <= m && nodeBytes < SizeRange && (arena != null ==> arena.Valid() && arena in outside)
      requires left.Valid(m) && right.Valid(m) && left.Repr !! right.Repr && left.Repr !! outside && right.Repr !! outside
      modifies arena
      ensures arena != null ==> arena.Valid()
      ensures Spent(1, old(Offset()), st)
      ensures st == Ok <==> r != null
      ensures st == Ok ==> r.Valid(m) && r.Shape == Internal([median], [left.Shape, right.Shape])
      ensures st == Ok ==> r.Repr == r.Own() + left.Repr + right.Repr && r.Own() !! outside
    {
      st, r := Node.New(arena, false, m, nodeBytes);
      if st != Ok {
        return;
      }
      r.GrowRoot(median, left, right);
    }

    // ----- lookup ------------------------------------------------------------

    /**
     * The descent step of findLinear and remove_recursive: the first slot whose
     * key is greater than `key`, num_keys if there is none.
     */
    static method ScanGreater(node: Node<V>, key: int) returns (i: nat)
      requires node.numKeys <= node.keys.Length
      ensures i == FirstGreater(node.keys[..node.numKeys], key)
    {
      i := 0;
      while i < node.numKeys && key >= node.keys[i]
        invariant i <= node.numKeys
        invariant forall j :: 0 <= j < i ==> node.keys[j] <= key
      {
        i := i + 1;
      }
      FirstGreaterUnique(node.keys[..node.numKeys], key, i);
    }

    /**
     * findLinear: descend by linear scan to a leaf and scan it for the first
     * slot holding `key`. Returns the lookup of the model; `valOut` is the
     * caller's val_out, left as it was when the key is absent.
     */
    method FindLinear(key: int, valIn: V) returns (found: bool, valOut: V)
      requires Valid()
      ensures found == Search(root.Shape, key).Some?
      ensures found ==> valOut == Search(root.Shape, key).value
      ensures !found ==> valOut == valIn
    {
      var curr: Node<V> := root;
      while !curr.isLeaf
        invariant curr.Valid(m) && curr.keys.Length == m
        invariant Search(curr.Shape, key) == Search(root.Shape, key)
        decreases curr.Repr
      {
        var i := ScanGreater(curr, key);
        curr.ChildAt(i);
        curr := curr.children[i];
      }
      var i := ScanEqual(curr, key);
      if i < curr.numKeys {
        return true, curr.values[i];
      }
      return false, valIn;
    }

    /** The leaf scan of findLinear and remove_recursive: the first slot holding `key`, num_keys if there is none. */
    static method ScanEqual(node: Node<V>, key: int) returns (i: nat)
      requires node.numKeys <= node.keys.Length
      ensures i == FirstEqual(node.keys[..node.numKeys], key)
    {
      i := 0;
      while i < node.numKeys && node.keys[i] != key
        invariant i <= node.numKeys
        invariant forall j :: 0 <= j < i ==> node.keys[j] != key
      {
        i := i + 1;
      }
      FirstEqualUnique(node.keys[..node.numKeys], key, i);
    }

    /**
     * The descent step of findBinary: a binary search for the first slot
     * whose key is greater than `key`. When the search never moved `i`, all
     * keys are at most `key` and the strict test on keys[i] sends the
     * descent to the last child.
     */
    static method BinaryDescend(node: Node<V>, key: int) returns (c: int)
      requires 1 <= node.numKeys <= node.keys.Length && Sorted(node.keys[..node.numKeys])
      ensures 0 <= c && c == FirstGreater(node.keys[..node.numKeys], key)
    {
      var n := node.numKeys as int;
      var hi := n - 1;
      var lo := 0;
      var i := hi;
      while lo <= hi
        invariant 0 <= lo <= hi + 1 <= n
        invariant forall j :: 0 <= j < lo ==> node.keys[j] <= key
        invariant forall j :: hi < j < n ==> key < node.keys[j]
        invariant (i == n - 1 && hi == n - 1) || (i == hi + 1 && i < n)
      {
        var mid := lo + (hi - lo) / 2;
        if node.keys[mid] <= key {
          assert forall j :: 0 <= j <= mid ==> node.keys[j] <= node.keys[mid] by {
            assert forall j :: 0 <= j <= mid ==> node.keys[..n][j] <= node.keys[..n][mid];
          }
          lo := mid + 1;
        } else {
          assert forall j :: mid <= j < n ==> node.keys[mid] <= node.keys[j] by {
            assert forall j :: mid <= j < n ==> node.keys[..n][mid] <= node.keys[..n][j];
          }
          i := mid;
          hi := mid - 1;
        }
      }
      c := if i == hi then (if node.keys[i] > key then i else i + 1) else i;
      FirstGreaterUnique(node.keys[..node.numKeys], key, c);
    }

    /**
     * The leaf step of findBinary: a binary search for the first slot whose
     * key is not less than `key`, then one equality test there. On sorted
     * keys that slot holds `key` exactly when `key` is present, and is then
     * its leftmost copy.
     */
    static method BinaryLeaf(node: Node<V>, key: int) returns (i: int)
      requires node.numKeys <= node.keys.Length && Sorted(node.keys[..node.numKeys])
      ensures var e := FirstEqual(node.keys[..node.numKeys], key);
        (0 <= i < node.numKeys && node.keys[i] == key) <==> e < node.numKeys
      ensures 0 <= i < node.numKeys && node.keys[i] == key ==> i == FirstEqual(node.keys[..node.numKeys], key)
    {
      var n := node.numKeys as int;
      var hi := n - 1;
      var lo := 0;
      i := hi;
      while lo <= hi
        invariant 0 <= lo <= hi + 1 <= n
        invariant forall j :: 0 <= j < lo ==> node.keys[j] < key
        invariant forall j :: hi < j < n ==> key <= node.keys[j]
        invariant (i == n - 1 && hi == n - 1) || (i == hi + 1 && i < n)
      {
        var mid := lo + (hi - lo) / 2;
        if node.keys[mid] < key {
          assert forall j :: 0 <= j <= mid ==> node.keys[j] <= node.keys[mid] by {
            assert forall j :: 0 <= j <= mid ==> node.keys[..n][j] <= node.keys[..n][mid];
          }
          lo := mid + 1;
        } else {
          assert forall j :: mid <= j < n ==> node.keys[mid] <= node.keys[j] by {
            assert forall j :: mid <= j < n ==> node.keys[..n][mid] <= node.keys[..n][j];
          }
          i := mid;
          hi := mid - 1;
        }
      }
      var ks := node.keys[..n];
      if 0 <= i < n && ks[i] == key {
        FirstEqualUnique(ks, key, i);
      } else if 0 <= i < n && i == lo {
        assert forall j :: i < j < n ==> ks[i] <= ks[j];
        FirstEqualUnique(ks, key, n);
      } else {
        FirstEqualUnique(ks, key, n);
      }
    }

    /**
     * findBinary: the same lookup as findLinear with both scans replaced by
     * binary searches; it relies on the keys of every node being sorted.
     */
    method FindBinary(key: int, valIn: V) returns (found: bool, valOut: V)
      requires Valid()
      ensures found == Search(root.Shape, key).Some?
      ensures found ==> valOut == Search(root.Shape, key).value
      ensures !found ==> valOut == valIn
    {
      var curr: Node<V> := root;
      ghost var lo: TreeModel.Option<int>, hi: TreeModel.Option<int> := TreeModel.None, TreeModel.None;
      while !curr.isLeaf
        invariant curr.Valid(m) && curr.keys.Length == m && WFNode(curr.Shape, m, lo, hi)
        invariant Search(curr.Shape, key) == Search(root.Shape, key)
        decreases curr.Repr
      {
        var c := BinaryDescend(curr, key);
        lo, hi := LoOf(curr.Shape.seps, lo, c), HiOf(curr.Shape.seps, hi, c);
        curr.ChildAt(c);
        curr := curr.children[c];
      }
      var i := BinaryLeaf(curr, key);
      if i >= 0 && i < curr.numKeys as int && curr.keys[i] == key {
        return true, curr.values[i];
      }
      return false, valIn;
    }

    /**
     * The descent step of findSIMD: compare 8 keys at a time against `key`
     * and take the first lane that is greater and lies below num_keys;
     * lanes at or past num_keys hold whatever the slots hold and are never
     * taken.
     */
    static method SimdDescend(node: Node<V>, key: int) returns (resultIndex: nat)
      requires node.numKeys < node.keys.Length && node.keys.Length % Width == 0
      ensures resultIndex == FirstGreater(node.keys[..node.numKeys], key)
    {
      ghost var ks := node.keys[..];
      var n := node.numKeys;
      var i := 0;
      resultIndex := n;
      while i < n
        invariant i % Width == 0 && i < n + Width
        invariant resultIndex == n
        invariant forall j :: 0 <= j < i && j < n ==> ks[j] <= key
      {
        var bits := CmpGt(node.keys[i..i + Width], key);
        assert node.keys[i..i + Width] == ks[i..i + Width];
        var mask := Movemask(bits);
        MaskFirstSet(bits);
        GtChunk(ks, i, key);
        if mask != 0 {
          var bitPos := Ctz(mask);
          var foundIdx := i + bitPos;
          if foundIdx < n {
            resultIndex := foundIdx;
            FirstGreaterUnique(ks[..n], key, resultIndex);
            break;
          }
        }
        i := i + Width;
      }
      if resultIndex == n {
        FirstGreaterUnique(ks[..n], key, resultIndex);
      }
    }

    /**
     * The leaf step of findSIMD: compare 8 keys at a time for equality and
     * stop at the first equal lane below num_keys.
     */
    static method SimdLeaf(node: Node<V>, key: int) returns (idx: nat)
      requires node.numKeys < node.keys.Length && node.keys.Length % Width == 0
      ensures idx == FirstEqual(node.keys[..node.numKeys], key)
    {
      ghost var ks := node.keys[..];
      var n := node.numKeys;
      var i := 0;
      idx := n;
      while i < n
        invariant i % Width == 0 && i < n + Width
        invariant idx == n
        invariant forall j :: 0 <= j < i && j < n ==> ks[j] != key
      {
        var bits := CmpEq(node.keys[i..i + Width], key);
        assert node.keys[i..i + Width] == ks[i..i + Width];
        var mask := Movemask(bits);
        MaskFirstSet(bits);
        EqChunk(ks, i, key);
        if mask != 0 {
          var bitPos := Ctz(mask);
          if i + bitPos < n {
            idx := i + bitPos;
            FirstEqualUnique(ks[..n], key, idx);
            break;
          }
        }
        i := i + Width;
      }
      if idx == n {
        FirstEqualUnique(ks[..n], key, idx);
      }
    }

    /**
     * findSIMD for int keys. The 8-lane loads stay inside the keys array only
     * when M is a multiple of 8.
     */
    method FindSimd(key: int, valIn: V) returns (found: bool, valOut: V)
      requires Valid() && m % Width == 0
      ensures found == Search(root.Shape, key).Some?
      ensures found ==> valOut == Search(root.Shape, key).value
      ensures !found ==> valOut == valIn
    {
      var curr: Node<V> := root;
      while !curr.isLeaf
        invariant curr.Valid(m) && curr.keys.Length == m && Fits(curr.Shape, m)
        invariant Search(curr.Shape, key) == Search(root.Shape, key)
        decreases curr.Repr
      {
        var c := SimdDescend(curr, key);
        curr.ChildAt(c);
        curr := curr.children[c];
      }
      var idx := SimdLeaf(curr, key);
      if idx < curr.numKeys {
        return true, curr.values[idx];
      }
      return false, valIn;
    }

    /** findSIMD for every other key type: it is findBinary. */
    method FindSimdFallback(key: int, valIn: V) returns (found: bool, valOut: V)
      requires Valid()
      ensures found == Search(root.Shape, key).Some?
      ensures found ==> valOut == Search(root.Shape, key).value
      ensures !found ==> valOut == valIn
    {
      found, valOut := FindBinary(key, valIn);
    }

    // ----- removal -----------------------------------------------------------

    /**
     * remove_recursive: descend like findLinear and, in the leaf, delete the
     * first slot holding `key`; separators and the shape above the leaf stay
     * as they are.
     */
    method RemoveRecursive(node: Node<V>, key: int)
      requires node.Valid(m) && node.keys.Length == m
      modifies node.Repr
      decreases node.Repr
      ensures node.Valid(m) && node.Repr == old(node.Repr)
      ensures node.Shape == TreeModel.Remove(old(node.Shape), key)
    {
      var i := ScanGreater(node, key);
      if node.isLeaf {
        var k := ScanEqual(node, key);
        if k < node.numKeys {
          node.RemoveEntryAt(k);
        }
        return;
      }
      node.ChildAt(i);
      var child := node.children[i];
      RemoveRecursive(child, key);
      node.Loosen(i, null);
      node.AbsorbFit(i);
    }

    /** remove: the whole tree keeps its shape and every separator; the first match in the leaf the descent reaches is deleted. */
    method Remove(key: int)
      requires Valid()
      modifies Repr
      ensures Valid() && Repr == old(Repr) && root == old(root)
      ensures root.Shape == TreeModel.Remove(old(root.Shape), key)
    {
      RemoveRecursive(root, key);
      TreeSearch.RemoveSpec(old(root.Shape), key, m, TreeModel.None, TreeModel.None);
    }
  }
}

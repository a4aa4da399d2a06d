/**
 * BPlusTree::Node: one fixed-size node of fan-out M, allocated from the
 * arena. `keys` has M slots, `values` M slots (used by leaves) and
 * `children` M + 1 slots (used by internal nodes); only the first num_keys
 * keys (and, in an internal node, the first num_keys + 1 children) are
 * meaningful. The ghost fields tie a node to the value-level model: `Shape`
 * is the subtree it holds, `Kids` the child nodes it points to and `Repr`
 * every object below it.
 */
module Nodes {
  import opened Seqs
  import opened TreeModel
  import opened Arenas

  class Node<V(0)> {
    var isLeaf: bool
    var numKeys: nat
    const keys: array<int>
    const values: array<V>
    const children: array<Node?<V>>

    ghost var Shape: Tree<V>
    ghost var Kids: seq<Node<V>>
    ghost var Repr: set<object>

    /**
     * The populated slots of the arrays are exactly what Shape says, the
     * children are Kids, every child is valid in turn, and the parts of the
     * structure below different children share no object.
     */
    ghost predicate Valid(m: nat)
      reads this, Repr
      decreases Repr
    {
      && this in Repr && keys in Repr && values in Repr && children in Repr && keys != values
      && keys.Length == m && values.Length == m && children.Length == m + 1
      && numKeys <= m
      && if isLeaf then
           Kids == [] && Shape == Leaf(keys[..numKeys], values[..numKeys])
         else
           && |Kids| == numKeys + 1
           && Shape.Internal? && Shape.seps == keys[..numKeys] && |Shape.kids| == |Kids|
           && (forall j :: 0 <= j < |Kids| ==> children[j] == Kids[j])
           && (forall j :: 0 <= j < |Kids| ==>
                 && Kids[j] in Repr && Kids[j].Repr <= Repr
                 && this !in Kids[j].Repr && keys !in Kids[j].Repr
                 && values !in Kids[j].Repr && children !in Kids[j].Repr
                 && Kids[j].Valid(m)
                 && Shape.kids[j] == Kids[j].Shape)
           && (forall j, j' :: 0 <= j < j' < |Kids| ==> Kids[j].Repr !! Kids[j'].Repr)
    }

    /** The node and its three arrays. */
    function Own(): set<object>
    {
      {this, keys, values, children}
    }

    /** Node(leaf): an empty node; its arrays are left for the caller to fill. */
    constructor (leaf: bool, m: nat)
      ensures isLeaf == leaf && numKeys == 0
      ensures keys.Length == m && values.Length == m && children.Length == m + 1
      ensures Shape == Leaf([], []) && Kids == []
      ensures Repr == {this, keys, values, children}
      ensures fresh(keys) && fresh(values) && fresh(children) && keys != values
      ensures leaf ==> Valid(m)
    {
      isLeaf := leaf;
      numKeys := 0;
      keys := new int[m];
      values := new V[m];
      children := new Node?<V>[m + 1];
      Shape := Leaf([], []);
      Kids := [];
      Repr := {this, keys, values, children};
    }

    /**
     * Node::operator new followed by the constructor: the node's memory comes
     * from the arena, and the two runtime_errors of the source become the
     * failure statuses. On success the arena has advanced by one
     * nodeBytes-sized block.
     */
    static method New(arena: Arena?, leaf: bool, m: nat, nodeBytes: nat) returns (st: Status, n: Node?<V>)
      requires arena != null ==> arena.Valid()
      requires nodeBytes < SizeRange
      modifies arena
      ensures arena != null ==> arena.Valid()
      ensures arena == null ==> st == ArenaNotInitialized && n == null
      ensures arena != null ==> st == (if AllocStep(old(arena.offset), arena.capacity, nodeBytes).Some? then Ok else ArenaOutOfMemory)
      ensures st == Ok ==> arena.offset == AllocStep(old(arena.offset), arena.capacity, nodeBytes).value
      ensures st != Ok ==> n == null && (arena != null ==> arena.offset == old(arena.offset))
      ensures st == Ok ==> n != null && fresh(n) && n.isLeaf == leaf && n.numKeys == 0
      ensures st == Ok ==> n.keys.Length == m && n.values.Length == m && n.children.Length == m + 1
      ensures st == Ok ==> n.Shape == Leaf([], []) && n.Kids == [] && n.Repr == {n, n.keys, n.values, n.children}
      ensures st == Ok ==> fresh(n.keys) && fresh(n.values) && fresh(n.children) && n.keys != n.values
      ensures st == Ok && leaf ==> n.Valid(m)
    {
      if arena == null {
        return ArenaNotInitialized, null;
      }
      var ok, _ := arena.Allocate(nodeBytes);
      if !ok {
        return ArenaOutOfMemory, null;
      }
      n := new Node(leaf, m);
      st := Ok;
    }

    /**
     * The leaf half of insert_recursive once the slot is known: keys and
     * values from slot i on move one place right (in lockstep), the new pair
     * goes into slot i and num_keys grows by one.
     */
    method InsertEntryAt(i: nat, key: int, value: V)
      requires Valid(keys.Length) && isLeaf && i <= numKeys < keys.Length
      modifies keys, values, this`numKeys, this`Shape
      ensures Valid(keys.Length) && numKeys == old(numKeys) + 1
      ensures Shape == Leaf(Seqs.Insert(old(Shape.keys), i, key), Seqs.Insert(old(Shape.vals), i, value))
    {
      ArrayInsert(keys, numKeys, i, key);
      ArrayInsert(values, numKeys, i, value);
      numKeys := numKeys + 1;
      Shape := Leaf(keys[..numKeys], values[..numKeys]);
    }

    /**
     * The internal half of insert_recursive after a child split: keys from
     * slot i and children from slot i + 1 move one place right, the child's
     * median goes into keys[i], its new sibling into children[i + 1], and
     * num_keys grows by one.
     */
    method InsertChildAt(i: nat, median: int, sibling: Node<V>)
      requires i <= numKeys < keys.Length && children.Length == keys.Length + 1
      modifies keys, children, this`numKeys
      ensures numKeys == old(numKeys) + 1
      ensures keys[..numKeys] == Seqs.Insert(old(keys[..numKeys]), i, median)
      ensures children[..numKeys + 1] == Seqs.Insert(old(children[..numKeys + 1]), i + 1, sibling)
    {
      ArrayInsert(keys, numKeys, i, median);
      ArrayInsert(children, numKeys + 1, i + 1, sibling);
      numKeys := numKeys + 1;
    }

    /**
     * After child i has split: its median goes into keys[i] and its new
     * sibling into children[i + 1] (InsertChildAt), and the ghost state
     * follows.
     */
    method AdoptSibling(i: nat, median: int, sib: Node<V>)
      requires i <= numKeys < keys.Length && children.Length == keys.Length + 1
      requires Shape.Internal? && |Shape.kids| == numKeys + 1 && |Kids| == numKeys + 1
      requires this != sib && i < |Kids| && Kids[i] != this
      modifies keys, children, this`numKeys, this`Kids, this`Shape, this`Repr
      ensures numKeys == old(numKeys) + 1 && keys[..numKeys] == Seqs.Insert(old(keys[..numKeys]), i, median)
      ensures Kids == Seqs.Insert(old(Kids), i + 1, sib) && Kids[i] == old(Kids[i])
      ensures children[..numKeys + 1] == Seqs.Insert(old(children[..numKeys + 1]), i + 1, sib)
      ensures Shape == Internal(keys[..numKeys], Seqs.Insert(old(Shape).kids[i := Kids[i].Shape], i + 1, sib.Shape))
      ensures Repr == old(Repr) + Kids[i].Repr + sib.Repr
    {
      InsertChildAt(i, median, sib);
      Kids := Seqs.Insert(Kids, i + 1, sib);
      Shape := Internal(keys[..numKeys], Seqs.Insert(old(Shape).kids[i := Kids[i].Shape], i + 1, sib.Shape));
      Repr := Repr + Kids[i].Repr + sib.Repr;
    }

    /**
     * split_leaf once the new leaf `right` exists: this leaf keeps its first
     * M/2 entries, `right` takes the rest, and the median is the first key of
     * `right`, copied up rather than moved.
     */
    method SplitLeaf(right: Node<V>) returns (median: int)
      requires Valid(keys.Length) && isLeaf && numKeys == keys.Length >= 3
      requires right.isLeaf && right.Kids == [] && right.keys != right.values
      requires right.keys.Length == keys.Length && right.values.Length == keys.Length && right.children.Length == keys.Length + 1
      requires right.Repr == {right, right.keys, right.values, right.children}
      requires right !in Repr && right.keys !in Repr && right.values !in Repr && right.children !in Repr
      modifies this`numKeys, this`Shape, right`numKeys, right`Shape, right.keys, right.values
      ensures Valid(keys.Length) && right.Valid(keys.Length) && Repr !! right.Repr
      ensures TreeModel.SplitLeaf(old(Shape.keys), old(Shape.vals), keys.Length) == Overflow(Shape, median, right.Shape)
    {
      var mid := keys.Length / 2;
      ghost var ks, vs := keys[..], values[..];
      assert Shape == Leaf(ks, vs);
      var moving := numKeys - mid;
      ArrayCopy(keys, mid, right.keys, moving);
      ArrayCopy(values, mid, right.values, moving);
      right.numKeys := moving;
      right.Shape := Leaf(right.keys[..moving], right.values[..moving]);
      numKeys := mid;
      Shape := Leaf(keys[..mid], values[..mid]);
      median := right.keys[0];
      assert Shape == Leaf(ks[..mid], vs[..mid]);
      assert right.Shape == Leaf(ks[mid..], vs[mid..]);
    }

    /**
     * The moves of split_internal: the keys after slot mid and the children
     * after slot mid go to the front of `right`, and this node keeps mid keys.
     * The ghost fields of both nodes follow: each takes its part of the
     * children and of the objects below them.
     */
    method MoveUpper(right: Node<V>, mid: nat)
      requires mid < numKeys == keys.Length && children.Length == keys.Length + 1
      requires |Kids| == numKeys + 1 && Shape.Internal? && |Shape.kids| == numKeys + 1
      requires mid == keys.Length / 2 && Shape.seps == keys[..numKeys]
      requires right.keys.Length == keys.Length && right.children.Length == children.Length
      requires right != this && right.keys != keys && right.children != children
      modifies this`numKeys, this`Kids, this`Shape, this`Repr
      modifies right`numKeys, right`Kids, right`Shape, right`Repr, right.keys, right.children
      ensures numKeys == mid && right.numKeys == keys.Length - (mid + 1)
      ensures right.keys[..right.numKeys] == keys[mid + 1..]
      ensures right.children[..right.numKeys + 1] == children[mid + 1..]
      ensures Kids == old(Kids)[..mid + 1] && right.Kids == old(Kids)[mid + 1..]
      ensures Shape == Internal(keys[..mid], old(Shape).kids[..mid + 1])
      ensures right.Shape == Internal(right.keys[..right.numKeys], old(Shape).kids[mid + 1..])
      ensures Repr == {this, keys, values, children} + old(ReprOf(Kids[..mid + 1]))
      ensures right.Repr == {right, right.keys, right.values, right.children} + old(ReprOf(Kids[mid + 1..]))
      ensures TreeModel.SplitInternal(old(Shape.seps), old(Shape.kids), keys.Length) == Overflow(Shape, keys[mid], right.Shape)
    {
      ghost var seps, shapes, kids := keys[..], Shape.kids, Kids;
      ghost var lower, upper := ReprOf(kids[..mid + 1]), ReprOf(kids[mid + 1..]);
      var moving := numKeys - (mid + 1);
      CopyUpper(right, mid + 1, moving);
      right.SetFields(moving, kids[mid + 1..], Internal(seps[mid + 1..], shapes[mid + 1..]),
                      {right, right.keys, right.values, right.children} + upper);
      SetFields(mid, kids[..mid + 1], Internal(seps[..mid], shapes[..mid + 1]), {this, keys, values, children} + lower);
      assert old(Shape.seps) == seps && keys[mid] == seps[mid];
    }

    /** Sets the key count and the ghost fields of this node at once. */
    method SetFields(n: nat, ghost kids: seq<Node<V>>, ghost shape: Tree<V>, ghost repr: set<object>)
      modifies this`numKeys, this`Kids, this`Shape, this`Repr
      ensures numKeys == n && Kids == kids && Shape == shape && Repr == repr
    {
      numKeys, Kids, Shape, Repr := n, kids, shape, repr;
    }

    /** The array copies of MoveUpper: the keys from slot `from` on and the children after them go to the front of `right`. */
    method CopyUpper(right: Node<V>, from: nat, moving: nat)
      requires from + moving == keys.Length && children.Length == keys.Length + 1
      requires right.keys.Length == keys.Length && right.children.Length == children.Length
      requires right.keys != keys && right.children != children
      modifies right.keys, right.children
      ensures right.keys[..moving] == keys[from..]
      ensures right.children[..moving + 1] == children[from..]
    {
      ArrayCopy(keys, from, right.keys, moving);
      ArrayCopy(children, from, right.children, moving + 1);
    }

    /**
     * split_internal once the new node `right` exists: keys[M/2] is the
     * median and stays in neither half, this node keeps the keys before it
     * and the children up to it, `right` takes the keys and children after
     * it. Both nodes are valid afterwards and share no object.
     */
    method SplitInternal(right: Node<V>) returns (median: int)
      requires Valid(keys.Length) && !isLeaf && numKeys == keys.Length >= 3
      requires !right.isLeaf && right.keys != right.values && right.keys.Length == keys.Length
      requires right.values.Length == keys.Length && right.children.Length == keys.Length + 1
      requires right !in Repr && right.keys !in Repr && right.values !in Repr && right.children !in Repr
      modifies this`numKeys, this`Kids, this`Shape, this`Repr
      modifies right`numKeys, right`Kids, right`Shape, right`Repr, right.keys, right.children
      ensures Valid(keys.Length) && right.Valid(keys.Length) && Repr !! right.Repr
      ensures Repr <= old(Repr) && right.Repr <= old(Repr) + {right, right.keys, right.values, right.children}
      ensures TreeModel.SplitInternal(old(Shape.seps), old(Shape.kids), keys.Length) == Overflow(Shape, median, right.Shape)
    {
      var mid := keys.Length / 2;
      median := keys[mid];
      MoveUpper(right, mid);
      SplitLower(mid);
      SplitUpper(mid, right);
      SplitDisjoint(mid, right);
    }

    /**
     * The new root of BPlusTree::insert: the median as its one key, the old
     * root and its new sibling as its two children.
     */
    method GrowRoot(median: int, left: Node<V>, right: Node<V>)
      requires !isLeaf && Kids == [] && Repr == {this, keys, values, children} && keys != values
      requires 1 <= keys.Length && values.Length == keys.Length && children.Length == keys.Length + 1
      requires left.Valid(keys.Length) && right.Valid(keys.Length) && left.Repr !! right.Repr
      requires this !in left.Repr && keys !in left.Repr && values !in left.Repr && children !in left.Repr
      requires this !in right.Repr && keys !in right.Repr && values !in right.Repr && children !in right.Repr
      modifies this`numKeys, this`Kids, this`Shape, this`Repr, keys, children
      ensures Valid(keys.Length) && Shape == Internal([median], [left.Shape, right.Shape])
      ensures Repr == {this, keys, values, children} + left.Repr + right.Repr
    {
      PlaceRoot(median, left, right);
      numKeys := 1;
      Kids := [left, right];
      Shape := Internal([median], [left.Shape, right.Shape]);
      Repr := Repr + left.Repr + right.Repr;
      left.Kept();
      right.Kept();
      RootValid(left, right);
    }

    /** The slots of the new root: its key, then its two children. */
    method PlaceRoot(median: int, left: Node<V>, right: Node<V>)
      requires 1 <= keys.Length && children.Length == keys.Length + 1
      modifies keys, children
      ensures keys[0] == median && children[0] == left && children[1] == right
    {
      keys[0] := median;
      children[0] := left;
      children[1] := right;
    }

    /** A node with one key over two valid children that share no object is valid. */
    lemma RootValid(left: Node<V>, right: Node<V>)
      requires this in Repr && keys in Repr && values in Repr && children in Repr && keys != values
      requires 1 <= keys.Length && values.Length == keys.Length && children.Length == keys.Length + 1
      requires !isLeaf && numKeys == 1 && Kids == [left, right] && children[0] == left && children[1] == right
      requires Shape == Internal([keys[0]], [left.Shape, right.Shape])
      requires Repr == {this, keys, values, children} + left.Repr + right.Repr
      requires left.Valid(keys.Length) && right.Valid(keys.Length) && left.Repr !! right.Repr
      requires this !in left.Repr && keys !in left.Repr && values !in left.Repr && children !in left.Repr
      requires this !in right.Repr && keys !in right.Repr && values !in right.Repr && children !in right.Repr
      ensures Valid(keys.Length)
    {
      assert keys[..numKeys] == [keys[0]];
      assert ReprOf(Kids) == left.Repr + right.Repr by {
        assert Kids[1..] == [right] && Kids[1..][1..] == [];
        assert ReprOf(Kids[1..]) == right.Repr + ReprOf(Kids[1..][1..]);
      }
      Assemble();
    }

    /** A node none of whose objects has changed is still valid, over the same objects and with the same Shape. */
    twostate lemma Kept()
      requires old(Valid(keys.Length)) && unchanged(old(Repr))
      ensures Valid(keys.Length) && Repr == old(Repr) && Shape == old(Shape)
    {
    }

    /**
     * The leaf branch of remove_recursive after a match at slot k: the keys
     * and values after k move one place left (in lockstep) and num_keys
     * shrinks by one.
     */
    method RemoveEntryAt(k: nat)
      requires Valid(keys.Length) && isLeaf && k < numKeys
      modifies keys, values, this`numKeys, this`Shape
      ensures Valid(keys.Length) && numKeys == old(numKeys) - 1
      ensures Shape == Leaf(Seqs.Remove(old(Shape.keys), k), Seqs.Remove(old(Shape.vals), k))
    {
      ArrayRemove(keys, numKeys, k);
      ArrayRemove(values, numKeys, k);
      numKeys := numKeys - 1;
      Shape := Leaf(keys[..numKeys], values[..numKeys]);
    }

    /** Slot j of a valid internal node points to its j-th child, which is valid and holds the j-th subtree. */
    lemma ChildAt(j: nat)
      requires Valid(keys.Length) && !isLeaf && j <= numKeys
      ensures children[j] == Kids[j] && Kids[j].Valid(keys.Length)
      ensures Kids[j].Repr < Repr && Shape.kids[j] == Kids[j].Shape
    {
      assert Kids[j].Repr <= Repr && this in Repr && this !in Kids[j].Repr;
    }

    /**
     * Valid except for child i: the other children are valid, hold the
     * subtrees of Shape and share no object with one another, with child i or
     * with the node's own objects; child i keeps clear of the node's own
     * objects, but its objects may have grown beyond Repr and its subtree is
     * not yet taken into Shape.
     */
    ghost predicate ValidBut(i: nat)
      reads this, Repr
    {
      && this in Repr && keys in Repr && values in Repr && children in Repr && keys != values
      && values.Length == keys.Length && children.Length == keys.Length + 1
      && !isLeaf && numKeys <= keys.Length && |Kids| == numKeys + 1 && i < |Kids|
      && Shape.Internal? && Shape.seps == keys[..numKeys] && |Shape.kids| == |Kids|
      && (forall j :: 0 <= j < |Kids| ==> children[j] == Kids[j])
      && Kids[i] in Repr
      && this !in Kids[i].Repr && keys !in Kids[i].Repr && values !in Kids[i].Repr && children !in Kids[i].Repr
      && (forall j :: 0 <= j < |Kids| && j != i ==>
            && Kids[j] in Repr && Kids[j].Repr <= Repr
            && this !in Kids[j].Repr && keys !in Kids[j].Repr
            && values !in Kids[j].Repr && children !in Kids[j].Repr
            && Kids[j].Valid(keys.Length) && Shape.kids[j] == Kids[j].Shape
            && Kids[j].Repr !! Kids[i].Repr)
      && (forall a, b :: 0 <= a < b < |Kids| && a != i && b != i ==> Kids[a].Repr !! Kids[b].Repr)
    }

    /**
     * Only the objects below child i have changed since the old state, and
     * child i now holds nothing the node held outside it: the node is then
     * valid except for child i, and its own fields are as they were. A node
     * `sib` (the new sibling of child i, if any) that is clear of the same
     * objects keeps clear of the node's own objects and of the other children.
     */
    twostate lemma Loosen(i: nat, new sib: Node?<V>)
      requires old(Valid(keys.Length)) && !old(isLeaf) && i < |old(Kids)|
      requires unchanged(old(Repr) - old(Kids[i].Repr))
      requires old(Kids)[i].Repr !! old(Repr) - old(Kids[i].Repr)
      requires sib != null ==> sib.Repr !! old(Repr) - old(Kids[i].Repr)
      ensures ValidBut(i) && Repr == old(Repr) && Shape == old(Shape) && Kids == old(Kids) && numKeys == old(numKeys)
      ensures sib != null ==> this !in sib.Repr && keys !in sib.Repr && values !in sib.Repr && children !in sib.Repr
      ensures sib != null ==> forall j :: 0 <= j < |Kids| && j != i ==> Kids[j].Repr !! sib.Repr
    {
      var olds := old(Kids);
      forall j | 0 <= j < |olds| && j != i
        ensures olds[j].Valid(keys.Length) && olds[j].Repr == old(olds[j].Repr) && olds[j].Shape == old(olds[j].Shape)
        ensures olds[j].Repr !! olds[i].Repr
        ensures sib != null ==> olds[j].Repr !! sib.Repr
      {
        assert old(olds[j].Repr) !! old(olds[i].Repr);
        assert old(olds[j].Repr) <= old(Repr);
      }
    }

    /**
     * After child i has taken an entry without splitting (or lost one): the
     * node's Shape and Repr take in the child's, and the node is valid again.
     */
    method AbsorbFit(i: nat)
      requires ValidBut(i) && Kids[i].Valid(keys.Length)
      modifies this`Shape, this`Repr
      ensures Valid(keys.Length)
      ensures Shape == Internal(old(Shape.seps), old(Shape.kids)[i := Kids[i].Shape])
      ensures Repr == old(Repr) + Kids[i].Repr
    {
      Shape := Internal(Shape.seps, Shape.kids[i := Kids[i].Shape]);
      Repr := Repr + Kids[i].Repr;
      Refit(i);
    }

    /** The proof of AbsorbFit: only Shape and Repr of the node have changed. */
    twostate lemma Refit(i: nat)
      requires old(ValidBut(i)) && old(Kids[i].Valid(keys.Length))
      requires unchanged(old(Repr) - {this}) && unchanged(old(Kids[i].Repr))
      requires isLeaf == old(isLeaf) && numKeys == old(numKeys) && Kids == old(Kids)
      requires Shape == Internal(old(Shape.seps), old(Shape.kids)[i := Kids[i].Shape])
      requires Repr == old(Repr) + old(Kids[i].Repr)
      ensures Valid(keys.Length)
    {
      var kids := Kids;
      forall j | 0 <= j < |kids|
        ensures kids[j].Valid(keys.Length) && kids[j].Repr == old(kids[j].Repr) && kids[j].Shape == old(kids[j].Shape)
      {
        if j != i {
          assert old(kids[j].Repr) <= old(Repr) - {this};
        }
      }
      forall j | 0 <= j < |kids|
        ensures kids[j] in Repr && kids[j].Repr <= Repr
        ensures this !in kids[j].Repr && keys !in kids[j].Repr
        ensures values !in kids[j].Repr && children !in kids[j].Repr
        ensures Shape.kids[j] == kids[j].Shape
      {
      }
      forall j, j' | 0 <= j < j' < |kids|
        ensures kids[j].Repr !! kids[j'].Repr
      {
        if j == i {
          assert old(kids[j'].Repr) !! old(kids[j].Repr);
        }
      }
    }

    /**
     * After child i has split into itself and `sib`: the child's median goes
     * into keys[i] and `sib` into children[i + 1], the node's Shape and Repr
     * take in both halves, and the node is valid again.
     */
    method AbsorbSplit(i: nat, median: int, sib: Node<V>)
      requires ValidBut(i) && numKeys < keys.Length
      requires Kids[i].Valid(keys.Length) && sib.Valid(keys.Length) && Kids[i].Repr !! sib.Repr
      requires this !in sib.Repr && keys !in sib.Repr && values !in sib.Repr && children !in sib.Repr
      requires forall j :: 0 <= j < |Kids| && j != i ==> Kids[j].Repr !! sib.Repr
      modifies keys, children, this`numKeys, this`Kids, this`Shape, this`Repr
      ensures Valid(keys.Length) && numKeys == old(numKeys) + 1
      ensures Shape == Internal(Seqs.Insert(old(Shape.seps), i, median), Seqs.Insert(old(Shape.kids)[i := old(Kids[i].Shape)], i + 1, sib.Shape))
      ensures Repr == old(Repr) + old(Kids[i].Repr) + sib.Repr
    {
      ghost var seps := keys[..numKeys];
      assert Shape.seps == seps;
      AdoptSibling(i, median, sib);
      Kids[i].Kept();
      sib.Kept();
      Resplit(i);
    }

    /** The proof of AbsorbSplit: the children other than i and i + 1 are the old ones, moved up by one after i. */
    twostate lemma Resplit(i: nat)
      requires old(ValidBut(i)) && i + 1 < |Kids|
      requires !isLeaf && numKeys == old(numKeys) + 1 <= keys.Length
      requires Kids == Seqs.Insert(old(Kids), i + 1, Kids[i + 1]) && Kids[i] == old(Kids[i])
      requires children[..numKeys + 1] == Seqs.Insert(old(children[..numKeys + 1]), i + 1, Kids[i + 1])
      requires Shape == Internal(keys[..numKeys], Seqs.Insert(old(Shape).kids[i := Kids[i].Shape], i + 1, Kids[i + 1].Shape))
      requires unchanged(old(Repr) - {this, keys, children})
      requires Kids[i].Valid(keys.Length) && Kids[i + 1].Valid(keys.Length) && Kids[i].Repr !! Kids[i + 1].Repr
      requires this !in Kids[i + 1].Repr && keys !in Kids[i + 1].Repr
      requires values !in Kids[i + 1].Repr && children !in Kids[i + 1].Repr
      requires forall j :: 0 <= j < |old(Kids)| && j != i ==> old(Kids)[j].Repr !! Kids[i + 1].Repr
      requires Repr == old(Repr) + Kids[i].Repr + Kids[i + 1].Repr
      ensures Valid(keys.Length)
    {
      var olds := old(Kids);
      OthersKept(i);
      assert old(children[..numKeys + 1]) == olds;
      Reassemble(i, olds, old(Shape.kids));
    }

    /**
     * Nothing has changed but the node and its keys and children arrays: the
     * children other than i are still valid, hold the same subtrees and keep
     * clear of one another, of child i and of the node's own objects.
     */
    twostate lemma OthersKept(i: nat)
      requires old(ValidBut(i))
      requires unchanged(old(Repr) - {this, keys, children})
      ensures old(Kids)[i].Repr == old(Kids[i].Repr)
      ensures forall j :: 0 <= j < |old(Kids)| && j != i ==>
        && old(Kids)[j].Valid(keys.Length) && old(Kids)[j].Shape == old(Shape).kids[j]
        && old(Kids)[j].Repr <= old(Repr) && old(Kids)[j].Repr !! old(Kids)[i].Repr
        && this !in old(Kids)[j].Repr && keys !in old(Kids)[j].Repr
        && values !in old(Kids)[j].Repr && children !in old(Kids)[j].Repr
      ensures forall a, b :: 0 <= a < b < |old(Kids)| && a != i && b != i ==> old(Kids)[a].Repr !! old(Kids)[b].Repr
    {
      var olds := old(Kids);
      forall j | 0 <= j < |olds| && j != i
        ensures olds[j].Valid(keys.Length) && olds[j].Repr == old(olds[j].Repr) && olds[j].Shape == old(olds[j].Shape)
      {
        assert old(olds[j].Repr) <= old(Repr) - {this, keys, children};
      }
    }

    /**
     * The children `olds` with a new node put in after slot i: when the old
     * children are valid and apart, and child i and the new one are valid
     * and apart from everything else, the node over them is valid.
     */
    lemma Reassemble(i: nat, olds: seq<Node<V>>, shapes: seq<Tree<V>>)
      requires this in Repr && keys in Repr && values in Repr && children in Repr && keys != values
      requires values.Length == keys.Length && children.Length == keys.Length + 1
      requires !isLeaf && numKeys <= keys.Length && |olds| == numKeys && i < |olds| && |shapes| == |olds|
      requires |Kids| == numKeys + 1 && Kids == Seqs.Insert(olds, i + 1, Kids[i + 1]) && Kids[i] == olds[i]
      requires children[..numKeys + 1] == Kids
      requires Shape == Internal(keys[..numKeys], Seqs.Insert(shapes[i := Kids[i].Shape], i + 1, Kids[i + 1].Shape))
      requires forall j :: 0 <= j < |olds| && j != i ==>
        && olds[j].Valid(keys.Length) && olds[j].Shape == shapes[j] && olds[j].Repr <= Repr
        && olds[j].Repr !! olds[i].Repr && olds[j].Repr !! Kids[i + 1].Repr
        && this !in olds[j].Repr && keys !in olds[j].Repr && values !in olds[j].Repr && children !in olds[j].Repr
      requires forall a, b :: 0 <= a < b < |olds| && a != i && b != i ==> olds[a].Repr !! olds[b].Repr
      requires Kids[i].Valid(keys.Length) && Kids[i + 1].Valid(keys.Length) && Kids[i].Repr !! Kids[i + 1].Repr
      requires Kids[i].Repr <= Repr && Kids[i + 1].Repr <= Repr
      requires this !in Kids[i].Repr && keys !in Kids[i].Repr && values !in Kids[i].Repr && children !in Kids[i].Repr
      requires this !in Kids[i + 1].Repr && keys !in Kids[i + 1].Repr
      requires values !in Kids[i + 1].Repr && children !in Kids[i + 1].Repr
      ensures Valid(keys.Length)
    {
      var kids := Kids;
      forall j | 0 <= j < |kids|
        ensures children[j] == kids[j]
      {
        assert children[..numKeys + 1][j] == kids[j];
      }
      forall j | 0 <= j < |kids|
        ensures kids[j] in Repr && kids[j].Repr <= Repr
        ensures this !in kids[j].Repr && keys !in kids[j].Repr
        ensures values !in kids[j].Repr && children !in kids[j].Repr
        ensures kids[j].Valid(keys.Length) && Shape.kids[j] == kids[j].Shape
      {
        var k := if j <= i then j else j - 1;
        if j != i && j != i + 1 {
          assert kids[j] == olds[k] && Shape.kids[j] == shapes[k];
        }
      }
      forall j, j' | 0 <= j < j' < |kids|
        ensures kids[j].Repr !! kids[j'].Repr
      {
        if j != i && j != i + 1 && j' != i && j' != i + 1 {
          var a, b := if j < i then j else j - 1, if j' < i then j' else j' - 1;
          assert kids[j] == olds[a] && kids[j'] == olds[b];
        } else if j != i && j != i + 1 {
          assert kids[j] == olds[j];
        } else if j' != i && j' != i + 1 {
          assert kids[j'] == olds[j' - 1];
        }
      }
    }

    /**
     * Nothing below this node but the node itself has changed: every child
     * is still valid, holds the same subtree, and the children still share
     * no object.
     */
    twostate lemma KidsKept()
      requires old(Valid(keys.Length)) && !old(isLeaf)
      requires unchanged(old(Repr) - {this})
      ensures forall j :: 0 <= j < |old(Kids)| ==>
        && old(Kids)[j].Valid(keys.Length) && old(Kids)[j].Shape == old(Shape).kids[j] && old(Kids)[j].Repr <= old(Repr)
        && old(Kids)[j].Repr == old(Kids[j].Repr)
        && this !in old(Kids)[j].Repr && keys !in old(Kids)[j].Repr && values !in old(Kids)[j].Repr && children !in old(Kids)[j].Repr
      ensures forall j :: 0 <= j < |old(Kids)| ==> children[j] == old(Kids)[j]
      ensures forall a, b :: 0 <= a < b < |old(Kids)| ==> old(Kids)[a].Repr !! old(Kids)[b].Repr
    {
      var olds := old(Kids);
      forall j | 0 <= j < |olds|
        ensures olds[j].Valid(keys.Length) && olds[j].Repr == old(olds[j].Repr) && olds[j].Shape == old(olds[j].Shape)
      {
        assert old(olds[j].Repr) <= old(Repr);
      }
    }

    /**
     * split_internal has cut this node down to its first numKeys keys and
     * numKeys + 1 children: it is still valid, over fewer objects.
     */
    twostate lemma SplitLower(mid: nat)
      requires old(Valid(keys.Length)) && !old(isLeaf) && old(numKeys) == keys.Length
      requires unchanged(old(Repr) - {this})
      requires !isLeaf && numKeys == mid < keys.Length && Kids == old(Kids)[..mid + 1]
      requires Shape == Internal(keys[..mid], old(Shape).kids[..mid + 1])
      requires Repr == {this, keys, values, children} + old(ReprOf(Kids[..mid + 1]))
      ensures Valid(keys.Length) && Repr <= old(Repr)
    {
      KidsKept();
      ReprOfKept(Kids);
      KeepLower(old(Kids), old(Shape).kids, old(Repr));
    }

    /**
     * split_internal has moved the keys and children after this node's
     * numKeys into the fresh node `right`. Then `right` is valid, shares no
     * object with this node, and everything below it was below this node or
     * is new.
     */
    twostate lemma SplitUpper(mid: nat, new right: Node<V>)
      requires old(Valid(keys.Length)) && !old(isLeaf) && old(numKeys) == keys.Length
      requires unchanged(old(Repr) - {this})
      requires right !in old(Repr) && right.keys !in old(Repr) && right.values !in old(Repr) && right.children !in old(Repr)
      requires right.keys != right.values
      requires right.keys.Length == keys.Length && right.values.Length == keys.Length && right.children.Length == keys.Length + 1
      requires numKeys == mid < keys.Length && Kids == old(Kids)[..mid + 1]
      requires Repr == {this, keys, values, children} + old(ReprOf(Kids[..mid + 1]))
      requires !right.isLeaf && right.numKeys == keys.Length - (mid + 1)
      requires right.children[..right.numKeys + 1] == children[mid + 1..]
      requires right.Kids == old(Kids)[mid + 1..]
      requires right.Shape == Internal(right.keys[..right.numKeys], old(Shape).kids[mid + 1..])
      requires right.Repr == {right, right.keys, right.values, right.children} + old(ReprOf(Kids[mid + 1..]))
      ensures right.Valid(keys.Length)
      ensures right.Repr <= old(Repr) + {right, right.keys, right.values, right.children}
    {
      KidsKept();
      ReprOfKept(right.Kids);
      TakeUpper(right, mid, old(Kids), old(Shape).kids, old(Repr));
    }

    /** After split_internal the two halves share no object. */
    twostate lemma SplitDisjoint(mid: nat, new right: Node<V>)
      requires old(Valid(keys.Length)) && !old(isLeaf) && old(numKeys) == keys.Length
      requires unchanged(old(Repr) - {this})
      requires right !in old(Repr) && right.keys !in old(Repr) && right.values !in old(Repr) && right.children !in old(Repr)
      requires numKeys == mid < keys.Length && Kids == old(Kids)[..mid + 1]
      requires Repr == {this, keys, values, children} + old(ReprOf(Kids[..mid + 1]))
      requires right.Kids == old(Kids)[mid + 1..]
      requires right.Repr == {right, right.keys, right.values, right.children} + old(ReprOf(Kids[mid + 1..]))
      ensures Repr !! right.Repr
    {
      KidsKept();
      ReprOfKept(Kids);
      ReprOfKept(right.Kids);
      SplitApart(right, old(Kids), old(Repr));
    }

    /** A node that is new, and below which there is nothing new but its own arrays, is new beyond what was below this node. */
    twostate lemma FreshBeyond(new right: Node<V>)
      requires fresh(right) && fresh(right.keys) && fresh(right.values) && fresh(right.children)
      requires right.Repr <= old(Repr) + {right, right.keys, right.values, right.children}
      ensures fresh(right.Repr - old(Repr))
    {
    }

    /**
     * The lower half of a split: this node keeps the first numKeys + 1 of the
     * valid, pairwise disjoint children `olds`, and is valid.
     */
    lemma KeepLower(olds: seq<Node<V>>, shapes: seq<Tree<V>>, s: set<object>)
      requires keys != values && values.Length == keys.Length && children.Length == keys.Length + 1
      requires |olds| == |shapes| == keys.Length + 1
      requires forall j :: 0 <= j < |olds| ==>
        && olds[j].Valid(keys.Length) && olds[j].Shape == shapes[j] && olds[j].Repr <= s
        && this !in olds[j].Repr && keys !in olds[j].Repr && values !in olds[j].Repr && children !in olds[j].Repr
      requires forall j :: 0 <= j < |olds| ==> children[j] == olds[j]
      requires forall a, b :: 0 <= a < b < |olds| ==> olds[a].Repr !! olds[b].Repr
      requires !isLeaf && numKeys < keys.Length && Kids == olds[..numKeys + 1]
      requires Shape == Internal(keys[..numKeys], shapes[..numKeys + 1])
      requires Repr == {this, keys, values, children} + ReprOf(Kids)
      requires this in s && keys in s && values in s && children in s
      ensures Valid(keys.Length) && Repr <= s
    {
      forall j | 0 <= j < |Kids|
        ensures Kids[j] == olds[j] && Kids[j].Repr <= s
      {
      }
      ReprOfWithin(Kids, s);
      Assemble();
    }

    /**
     * The upper half of a split: `right` takes the children of `olds` after
     * this node's numKeys + 1, and is valid.
     */
    lemma TakeUpper(right: Node<V>, mid: nat, olds: seq<Node<V>>, shapes: seq<Tree<V>>, s: set<object>)
      requires right.keys != right.values && right.keys.Length == keys.Length
      requires right.values.Length == keys.Length && right.children.Length == keys.Length + 1
      requires |olds| == |shapes| == keys.Length + 1 && children.Length == keys.Length + 1
      requires forall j :: 0 <= j < |olds| ==> olds[j].Valid(keys.Length) && olds[j].Shape == shapes[j] && olds[j].Repr <= s
      requires forall j :: 0 <= j < |olds| ==> children[j] == olds[j]
      requires forall a, b :: 0 <= a < b < |olds| ==> olds[a].Repr !! olds[b].Repr
      requires right !in s && right.keys !in s && right.values !in s && right.children !in s
      requires mid < keys.Length
      requires !right.isLeaf && right.numKeys == keys.Length - (mid + 1)
      requires right.children[..right.numKeys + 1] == children[mid + 1..]
      requires right.Kids == olds[mid + 1..]
      requires right.Shape == Internal(right.keys[..right.numKeys], shapes[mid + 1..])
      requires right.Repr == {right, right.keys, right.values, right.children} + ReprOf(right.Kids)
      ensures right.Valid(keys.Length) && right.Repr <= s + {right, right.keys, right.values, right.children}
    {
      var rk := right.Kids;
      forall j | 0 <= j < |rk|
        ensures right.children[j] == rk[j] && right.Shape.kids[j] == rk[j].Shape
      {
        assert right.children[..right.numKeys + 1][j] == children[mid + 1 + j];
        assert rk[j] == olds[mid + 1 + j];
      }
      forall j, j' | 0 <= j < j' < |rk|
        ensures rk[j].Repr !! rk[j'].Repr
      {
        assert rk[j] == olds[mid + 1 + j] && rk[j'] == olds[mid + 1 + j'];
      }
      forall j | 0 <= j < |rk|
        ensures rk[j].Valid(keys.Length) && rk[j].Repr <= s
      {
        assert rk[j] == olds[mid + 1 + j];
      }
      ReprOfWithin(rk, s);
      right.Assemble();
    }

    /**
     * After a split the two halves share no object: their children come from
     * disjoint parts of `olds`, and each node's own arrays lie outside the
     * other's children.
     */
    lemma SplitApart(right: Node<V>, olds: seq<Node<V>>, s: set<object>)
      requires |olds| == keys.Length + 1 && numKeys < keys.Length
      requires forall j :: 0 <= j < |olds| ==>
        && olds[j].Repr <= s && this !in olds[j].Repr && keys !in olds[j].Repr
        && values !in olds[j].Repr && children !in olds[j].Repr
      requires forall a, b :: 0 <= a < b < |olds| ==> olds[a].Repr !! olds[b].Repr
      requires right !in s && right.keys !in s && right.values !in s && right.children !in s
      requires this in s && keys in s && values in s && children in s
      requires Kids == olds[..numKeys + 1] && right.Kids == olds[numKeys + 1..]
      requires Repr == {this, keys, values, children} + ReprOf(Kids)
      requires right.Repr == {right, right.keys, right.values, right.children} + ReprOf(right.Kids)
      ensures Repr !! right.Repr
    {
      var mid, rk := numKeys, right.Kids;
      forall x, y | 0 <= x < |Kids| && 0 <= y < |rk|
        ensures Kids[x].Repr !! rk[y].Repr
      {
        assert Kids[x] == olds[x] && rk[y] == olds[mid + 1 + y];
      }
      ReprOfDisjoint(Kids, rk);
      forall j | 0 <= j < |Kids|
        ensures Kids[j].Repr <= s
      {
        assert Kids[j] == olds[j];
      }
      ReprOfWithin(Kids, s);
      forall j | 0 <= j < |rk|
        ensures rk[j].Repr <= s && this !in rk[j].Repr && keys !in rk[j].Repr
        ensures values !in rk[j].Repr && children !in rk[j].Repr
      {
        assert rk[j] == olds[mid + 1 + j];
      }
      ReprOfAvoids(rk, this);
      ReprOfAvoids(rk, keys);
      ReprOfAvoids(rk, values);
      ReprOfAvoids(rk, children);
    }

    /**
     * An internal node whose slots, children and Shape agree, whose children
     * are valid and share no object, and whose Repr is its own arrays and
     * everything below its children, is valid.
     */
    lemma Assemble()
      requires this in Repr && keys in Repr && values in Repr && children in Repr && keys != values
      requires values.Length == keys.Length && children.Length == keys.Length + 1
      requires !isLeaf && numKeys <= keys.Length && |Kids| == numKeys + 1
      requires Shape.Internal? && Shape.seps == keys[..numKeys] && |Shape.kids| == |Kids|
      requires forall j :: 0 <= j < |Kids| ==> children[j] == Kids[j] && Shape.kids[j] == Kids[j].Shape
      requires forall j :: 0 <= j < |Kids| ==>
        && Kids[j].Valid(keys.Length) && this !in Kids[j].Repr && keys !in Kids[j].Repr
        && values !in Kids[j].Repr && children !in Kids[j].Repr
      requires forall a, b :: 0 <= a < b < |Kids| ==> Kids[a].Repr !! Kids[b].Repr
      requires Repr == {this, keys, values, children} + ReprOf(Kids)
      ensures Valid(keys.Length)
    {
      forall j | 0 <= j < |Kids|
        ensures Kids[j] in Repr && Kids[j].Repr <= Repr
      {
        ReprOfHas(Kids, j);
      }
    }
  }

  /** Every object below some node of `kids`. */
  ghost function ReprOf<V(0)>(kids: seq<Node<V>>): set<object>
    reads set j | 0 <= j < |kids| :: kids[j]
  {
    if kids == [] then {} else kids[0].Repr + ReprOf(kids[1..])
  }

  /** What lies below one node of `kids` lies below the run. */
  lemma {:induction false} ReprOfHas<V(0)>(kids: seq<Node<V>>, j: nat)
    requires j < |kids|
    ensures kids[j].Repr <= ReprOf(kids)
  {
    if j > 0 {
      ReprOfHas(kids[1..], j - 1);
    }
  }

  /** A run whose every node lies within s lies within s. */
  lemma {:induction false} ReprOfWithin<V(0)>(kids: seq<Node<V>>, s: set<object>)
    requires forall j :: 0 <= j < |kids| ==> kids[j].Repr <= s
    ensures ReprOf(kids) <= s
  {
    if kids != [] {
      assert kids[0].Repr <= s;
      ReprOfWithin(kids[1..], s);
    }
  }

  /** An object below no node of `kids` is not below the run. */
  lemma {:induction false} ReprOfAvoids<V(0)>(kids: seq<Node<V>>, o: object)
    requires forall j :: 0 <= j < |kids| ==> o !in kids[j].Repr
    ensures o !in ReprOf(kids)
  {
    if kids != [] {
      assert o !in kids[0].Repr;
      ReprOfAvoids(kids[1..], o);
    }
  }

  /** A run whose nodes kept their Repr has kept the objects below it. */
  twostate lemma {:induction false} ReprOfKept<V(0)>(kids: seq<Node<V>>)
    requires forall j :: 0 <= j < |kids| ==> kids[j].Repr == old(kids[j].Repr)
    ensures ReprOf(kids) == old(ReprOf(kids))
  {
    if kids != [] {
      ReprOfKept(kids[1..]);
    }
  }

  /** Two runs whose nodes pairwise share nothing share nothing. */
  lemma {:induction false} ReprOfDisjoint<V(0)>(a: seq<Node<V>>, b: seq<Node<V>>)
    requires forall x, y :: 0 <= x < |a| && 0 <= y < |b| ==> a[x].Repr !! b[y].Repr
    ensures ReprOf(a) !! ReprOf(b)
  {
    if a != [] {
      forall o | o in a[0].Repr
        ensures o !in ReprOf(b)
      {
        forall y | 0 <= y < |b|
          ensures o !in b[y].Repr
        {
          assert a[0].Repr !! b[y].Repr;
        }
        ReprOfAvoids(b, o);
      }
      ReprOfDisjoint(a[1..], b);
    }
  }

  /**
   * The shift-right loop `for (k = n; k > i; k--) a[k] = a[k-1];` followed by
   * `a[i] = x`: the populated prefix a[..n] gains x at slot i.
   */
  method ArrayInsert<T>(a: array<T>, n: nat, i: nat, x: T)
    requires i <= n < a.Length
    modifies a
    ensures a[..n + 1] == Seqs.Insert(old(a[..n]), i, x)
  {
    ghost var s := a[..n];
    var k := n;
    while k > i
      invariant i <= k <= n
      invariant forall j :: 0 <= j < k ==> a[j] == s[j]
      invariant forall j :: k < j <= n ==> a[j] == s[j - 1]
    {
      a[k] := a[k - 1];
      k := k - 1;
    }
    a[i] := x;
    InsertPointwise(a[..n + 1], s, i, x);
  }

  /**
   * The shift-left loop `for (j = k; j < n - 1; j++) a[j] = a[j+1];`: the
   * populated prefix a[..n] loses slot k.
   */
  method ArrayRemove<T>(a: array<T>, n: nat, k: nat)
    requires k < n <= a.Length
    modifies a
    ensures a[..n - 1] == Seqs.Remove(old(a[..n]), k)
  {
    ghost var s := a[..n];
    var j := k;
    while j < n - 1
      invariant k <= j <= n - 1
      invariant forall x :: 0 <= x < k ==> a[x] == s[x]
      invariant forall x :: k <= x < j ==> a[x] == s[x + 1]
      invariant forall x :: j <= x < n ==> a[x] == s[x]
    {
      a[j] := a[j + 1];
      j := j + 1;
    }
    RemovePointwise(a[..n - 1], s, k);
  }

  /**
   * The copy loop `for (i = 0; i < n; i++) dst[i] = src[from + i];` of the
   * splits: dst[..n] becomes src[from..from + n].
   */
  method ArrayCopy<T>(src: array<T>, from: nat, dst: array<T>, n: nat)
    requires from + n <= src.Length && n <= dst.Length && src != dst
    modifies dst
    ensures dst[..n] == src[from..from + n]
  {
    var i := 0;
    while i < n
      invariant i <= n
      invariant forall j :: 0 <= j < i ==> dst[j] == src[from + j]
    {
      dst[i] := src[from + i];
      i := i + 1;
    }
  }
}

/**
 * P101_BST/src/BinarySearchTree.java: a naive binary search tree of int keys
 * whose nodes are linked objects with parent links. The node objects live in
 * the `nodes` heap (see module Nodes); `root` is the root reference and the
 * ghost `shape` the structure hanging from it.
 */
module SearchTree {
  import opened Nodes
  import opened BstSpec

  class BinarySearchTree {
    /** Every node object the tree has allocated, indexed by identity. */
    var nodes: Heap
    var root: Ptr
    /** The structure hanging from root. */
    ghost var shape: Shape

    /** The nodes reachable from root form a finite tree whose keys are in order. */
    ghost predicate Shaped()
      reads this
    {
      HeapOk(nodes) && TreeAt(nodes, root, shape) && Distinct(shape) && Sorted(Keys(shape))
    }

    /** In addition, every node's up field names its parent, and the root's is null. */
    ghost predicate Valid()
      reads this
    {
      Shaped() && Links(nodes, shape, Null)
    }

    /** BinarySearchTree(): an empty tree. */
    constructor()
      ensures Valid() && shape == Leaf && root == Null && nodes == []
    {
      nodes := [];
      root := Null;
      shape := Leaf;
    }

    /**
     * insertHelper(newNode, subtree): walks down from subtree, equal or smaller
     * keys to the left, and hangs newNode in the first empty slot, recording
     * the slot's owner as newNode's parent. A null subtree changes nothing.
     */
    method InsertHelper(n: nat, subtree: Ptr, ghost t: Shape)
      requires HeapOk(nodes) && TreeAt(nodes, subtree, t) && Distinct(t)
      requires n < |nodes| && n !in Ids(t) && nodes[n].left == Null && nodes[n].right == Null
      modifies this
      ensures root == old(root) && shape == old(shape) && |nodes| == old(|nodes|)
      ensures subtree == Null ==> nodes == old(nodes)
      ensures subtree != Null ==>
                var (a, left) := AttachPoint(t, old(nodes[n].data));
                a < |old(nodes)| && nodes == Link(old(nodes), a, n, left)
      decreases t
    {
      if subtree != Null {
        var s := subtree.id;
        if nodes[n].data == nodes[s].data {
          if nodes[s].left == Null {
            nodes := nodes[n := nodes[n].(up := subtree)];
            nodes := nodes[s := nodes[s].(left := Ref(n))];
          } else {
            InsertHelper(n, nodes[s].left, t.left);
          }
        } else if nodes[n].data < nodes[s].data {
          if nodes[s].left == Null {
            nodes := nodes[n := nodes[n].(up := subtree)];
            nodes := nodes[s := nodes[s].(left := Ref(n))];
          } else {
            InsertHelper(n, nodes[s].left, t.left);
          }
        } else {
          if nodes[s].right == Null {
            nodes := nodes[n := nodes[n].(up := subtree)];
            nodes := nodes[s := nodes[s].(right := Ref(n))];
          } else {
            InsertHelper(n, nodes[s].right, t.right);
          }
        }
      }
    }

    /** new BSTNode(data): a fresh detached black node holding data; the tree hanging from root is untouched. */
    method NewNode(data: int) returns (n: nat)
      requires Valid()
      modifies this
      ensures Valid() && root == old(root) && shape == old(shape)
      ensures n == old(|nodes|) && nodes == old(nodes) + [NodeRec(data, Null, Null, Null, Black)]
      ensures n !in Ids(shape)
    {
      n := |nodes|;
      AppendLeaf(nodes, root, shape, data, Black);
      nodes := nodes + [NodeRec(data, Null, Null, Null, Black)];
    }

    /**
     * insert(data): a null key throws NullPointerException and changes nothing;
     * otherwise a new node becomes the root of an empty tree or is attached by
     * insertHelper. The tree stays a valid search tree holding one more copy of
     * the key, the new node is the only new member, and it hangs where Place
     * puts it: below every existing node, which all keep their places.
     */
    method Insert(data: Option<int>) returns (s: Status)
      requires Valid()
      modifies this
      ensures data.None? ==> s == Throws(NullPointer) && unchanged(this)
      ensures data.Some? ==>
                && s == Done && Valid()
                && multiset(Keys(shape)) == multiset(old(Keys(shape))) + multiset{data.value}
                && Ids(shape) == old(Ids(shape)) + {old(|nodes|)}
                && |nodes| == old(|nodes|) + 1
                && shape == Place(old(shape), old(|nodes|), data.value, Black)
    {
      if data.None? {
        return Throws(NullPointer);
      }
      var v := data.value;
      var n := NewNode(v);
      ghost var h, t := nodes, shape;
      TreeAtIds(h, root, t);
      if root == Null {
        SingleNode(h, n);
        root := Ref(n);
        shape := Node(Leaf, n, v, Black, Leaf);
      } else {
        AttachNew(n);
      }
      s := Done;
    }

    /** The non-empty case of insert: insertHelper(newNode, root), the structure growing by the new leaf. */
    method AttachNew(n: nat)
      requires Valid() && root != Null && n < |nodes| && n !in Ids(shape)
      requires nodes[n].left == Null && nodes[n].right == Null
      modifies this
      ensures Valid() && root == old(root) && |nodes| == old(|nodes|)
      ensures multiset(Keys(shape)) == multiset(old(Keys(shape))) + multiset{old(nodes[n].data)}
      ensures Ids(shape) == old(Ids(shape)) + {n}
      ensures shape == Place(old(shape), n, old(nodes[n].data), old(nodes[n].color))
    {
      ghost var h, t := nodes, shape;
      AttachValid(h, root, t, n);
      InsertHelper(n, root, t);
      shape := Place(t, n, h[n].data, h[n].color);
    }

    /**
     * contains(data): lookup from the root. A null key is reported absent from
     * an empty tree; on a non-empty one comparing against it throws
     * NullPointerException. Otherwise the answer is whether the key is stored.
     */
    function Contains(data: Option<int>): (r: Result<bool>)
      reads this
      requires Valid()
      ensures data.None? ==> r == if shape == Leaf then Ok(false) else Failed(NullPointer)
      ensures data.Some? ==> r == Ok(data.value in Keys(shape))
    {
      TreeAtIds(nodes, root, shape);
      if data.None? then
        if root == Null then Ok(false) else Failed(NullPointer)
      else
        Ok(Lookup(nodes, root, shape, data.value))
    }

    /** size(): the number of nodes, duplicates included. */
    function Size(): (n: nat)
      reads this
      requires Valid()
      ensures n == |Keys(shape)| == |Ids(shape)|
    {
      TreeAtIds(nodes, root, shape);
      SizeFacts(shape);
      if root == Null then 0 else Count(nodes, root, shape)
    }

    /** isEmpty(): whether there is no root node, that is, whether size() is 0. */
    function IsEmpty(): (b: bool)
      reads this
      requires Valid()
      ensures b <==> shape == Leaf
      ensures b <==> Size() == 0
    {
      TreeAtIds(nodes, root, shape);
      root == Null
    }

    /** clear(): drops the root; the tree is empty and still valid. */
    method Clear()
      requires Valid()
      modifies this
      ensures Valid() && shape == Leaf && root == Null && nodes == old(nodes)
    {
      root := Null;
      shape := Leaf;
    }
  }

  /** Inserts the keys in order; the keys stored grow by exactly those keys. */
  method InsertAll(tree: BinarySearchTree, keys: seq<int>)
    requires tree.Valid()
    modifies tree
    ensures tree.Valid() && multiset(Keys(tree.shape)) == old(multiset(Keys(tree.shape))) + multiset(keys)
    ensures |Keys(tree.shape)| == old(|Keys(tree.shape)|) + |keys|
  {
    ghost var start := multiset(Keys(tree.shape));
    ghost var before := Keys(tree.shape);
    var i := 0;
    while i < |keys|
      invariant 0 <= i <= |keys| && tree.Valid()
      invariant multiset(Keys(tree.shape)) == start + multiset(keys[..i])
    {
      var _ := tree.Insert(Some(keys[i]));
      PrefixStep(keys, i);
      i := i + 1;
    }
    assert keys[..i] == keys;
    CountGrows(Keys(tree.shape), before, keys);
  }

  lemma {:induction false} CountGrows(after: seq<int>, before: seq<int>, added: seq<int>)
    requires multiset(after) == multiset(before) + multiset(added)
    ensures |after| == |before| + |added|
  {
    assert |multiset(after)| == |multiset(before)| + |multiset(added)|;
  }

  lemma {:induction false} PrefixStep(keys: seq<int>, i: nat)
    requires i < |keys|
    ensures multiset(keys[..i + 1]) == multiset(keys[..i]) + multiset{keys[i]}
  {
    assert keys[..i + 1] == keys[..i] + [keys[i]];
  }

  /** test1 of BinarySearchTree.java: four keys give size 4, clear empties, six keys give a non-empty tree of size 6. */
  method SizeAndClearScenario() returns (size4: nat, emptied: bool, size6: nat, filled: bool, emptiedAgain: bool)
    ensures size4 == 4 && emptied && size6 == 6 && filled && emptiedAgain
  {
    var tree := new BinarySearchTree();
    InsertAll(tree, [10, 20, 5, 15]);
    size4 := tree.Size();
    tree.Clear();
    emptied := tree.IsEmpty();
    InsertAll(tree, [25, 30, 40, 2, 7, 10]);
    size6 := tree.Size();
    filled := !tree.IsEmpty();
    tree.Clear();
    emptiedAgain := tree.IsEmpty();
  }

  /** test3 of BinarySearchTree.java: negative and repeated keys are all stored and found. */
  method DuplicatesScenario() returns (size: nat, hasMinus3: Result<bool>, has3: Result<bool>)
    ensures size == 6 && hasMinus3 == Ok(true) && has3 == Ok(true)
  {
    var tree := new BinarySearchTree();
    InsertAll(tree, [-8, 4, 3, -3, 3, 3]);
    size := tree.Size();
    ghost var stored := Keys(tree.shape);
    assert multiset(stored) == multiset([-8, 4, 3, -3, 3, 3]);
    assert -3 in multiset(stored) && 3 in multiset(stored);
    assert -3 in stored && 3 in stored;
    hasMinus3 := tree.Contains(Some(-3));
    has3 := tree.Contains(Some(3));
  }
}

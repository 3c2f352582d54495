/**
 * P104.RBT/RedBlackTree.java: a red-black tree built on the binary search
 * tree and its rotation. RedBlackTree inherits all of its state from
 * BinarySearchTree; the model holds that state as a BinarySearchTree object
 * and adds the red-black invariant on top of it. New nodes (RBTNode) start
 * red, and flipColor toggles a node's colour.
 */
module RedBlack {
  import opened Nodes
  import opened BstSpec
  import opened RotationSpec
  import opened RedBlackSpec
  import opened SearchTree
  import opened BstRotation

  class RedBlackTree {
    /** The nodes, the root and the structure RedBlackTree inherits. */
    const tree: BinarySearchTree

    /** A valid search tree that satisfies the three red-black properties. */
    ghost predicate Valid()
      reads this, tree
    {
      tree.Valid() && IsRedBlack(tree.shape)
    }

    /** RedBlackTree(): an empty tree. */
    constructor()
      ensures Valid() && fresh(tree) && tree.shape == Leaf && tree.nodes == []
    {
      tree := new BinarySearchTree();
    }

    /** node.flipColor(): toggles the colour of one node; nothing else changes. */
    method FlipColor(i: nat)
      requires tree.Valid() && i < |tree.nodes|
      modifies tree
      ensures tree.Valid() && tree.root == old(tree.root)
      ensures var c := if old(tree.nodes[i].color) == Red then Black else Red;
              && tree.nodes == old(tree.nodes)[i := old(tree.nodes[i]).(color := c)]
              && tree.shape == SetColor(old(tree.shape), i, c)
    {
      var c := if tree.nodes[i].color == Red then Black else Red;
      ghost var h, t := tree.nodes, tree.shape;
      TreeAtSetColor(h, tree.root, t, i, c);
      SetColorFacts(t, i, c);
      SetColorLinks(h, t, Null, i, c);
      tree.nodes := tree.nodes[i := tree.nodes[i].(color := c)];
      tree.shape := SetColor(t, i, c);
    }

    /**
     * ensureRedProperty(newRedNode): x is red and the only possible violation
     * of the red-black properties is x under a red parent. Afterwards the tree
     * is a red-black tree again, on the same nodes in the same order.
     */
    method EnsureRedProperty(x: nat)
      requires tree.Valid() && Repairable(tree.shape, x)
      modifies tree
      ensures Valid()
      ensures Ids(tree.shape) == old(Ids(tree.shape)) && InOrder(tree.shape) == old(InOrder(tree.shape))
      ensures Keys(tree.shape) == old(Keys(tree.shape)) && |tree.nodes| == old(|tree.nodes|)
      ensures var up := ParentOf(old(tree.shape), x);
              up.Ref? && ColorOf(Sub(old(tree.shape), up.id)) == Black ==>
                tree.nodes == old(tree.nodes) && tree.root == old(tree.root) && tree.shape == old(tree.shape)
      decreases Depth(tree.shape, x)
    {
      ghost var t := tree.shape;
      TreeAtIds(tree.nodes, tree.root, t);
      LinksParent(tree.nodes, t, Null, x);
      if x != t.id {
        ParentFacts(t, x);
      }
      if tree.nodes[x].up == Null {
        RootNoParent(t);
        if tree.nodes[x].color == Red {
          FlipColor(x);
        }
        RootBlack(t);
        SetColorFacts(t, x, Black);
        tree.root := Ref(x);
        return;
      }
      var p := tree.nodes[x].up.id;
      ChildSlots(tree.nodes, tree.root, t, p);
      if tree.nodes[p].color == Red {
        GrandparentFacts(x, p);
        var g := tree.nodes[p].up.id;
        var pRight := IsRightChild(tree.nodes, p);
        var aunt := if pRight then tree.nodes[g].left else tree.nodes[g].right;
        if aunt != Null && tree.nodes[aunt.id].color == Red {
          RedAuntStep(t, x, p, g, pRight);
          RecolorRedAunt(p, aunt.id, g);
          EnsureRedProperty(g);
        } else if pRight == IsRightChild(tree.nodes, x) {
          LineStep(t, x, p, g, pRight);
          RepairLine(p, g);
        } else {
          ZigStep(t, x, p, g, pRight);
          RepairZig(x, p, g);
        }
      } else {
        BlackParentFree(t, x);
      }
    }

    /**
     * parent.getUp() when newRedNode and its parent are both red: the parent
     * is not the black root, so the grandparent exists, and the three nodes
     * form the violation ensureRedProperty repairs, with the heap's child
     * slots and colours matching the structure.
     */
    lemma {:induction false} GrandparentFacts(x: nat, p: nat)
      requires tree.Valid() && Repairable(tree.shape, x) && x != tree.shape.id
      requires x in Ids(tree.shape) && ParentOf(tree.shape, x) == Ref(p) && x < |tree.nodes| && p < |tree.nodes|
      requires tree.nodes[p].color == Red && p in Ids(tree.shape) && tree.nodes[p].color == ColorOf(Sub(tree.shape, p))
      ensures tree.nodes[p].up.Ref?
      ensures var g := tree.nodes[p].up.id;
              && Violation(tree.shape, x, p, g) && g in Ids(tree.shape) && g < |tree.nodes|
              && x != p && p != g && x != g
              && tree.nodes[x].color == Red && tree.nodes[g].color == Black
              && Sub(tree.shape, g).Node? && Sub(tree.shape, p).Node?
              && tree.nodes[g].left == Root(Sub(tree.shape, g).left) && tree.nodes[g].right == Root(Sub(tree.shape, g).right)
              && tree.nodes[p].left == Root(Sub(tree.shape, p).left) && tree.nodes[p].right == Root(Sub(tree.shape, p).right)
              && (IsRightChild(tree.nodes, p) <==> Root(Sub(tree.shape, g).right) == Ref(p))
              && (IsRightChild(tree.nodes, x) <==> Root(Sub(tree.shape, p).right) == Ref(x))
              && var a := if IsRightChild(tree.nodes, p) then tree.nodes[g].left else tree.nodes[g].right;
                 var A := if IsRightChild(tree.nodes, p) then Sub(tree.shape, g).left else Sub(tree.shape, g).right;
                 a.Ref? ==> a.id < |tree.nodes| && tree.nodes[a.id].color == ColorOf(A) && a.id != p && a.id != g
    {
      var t := tree.shape;
      TreeAtIds(tree.nodes, tree.root, t);
      ParentFacts(t, x);
      assert p != t.id;
      ParentFacts(t, p);
      LinksParent(tree.nodes, t, Null, p);
      LinksParent(tree.nodes, t, Null, x);
      var g := tree.nodes[p].up.id;
      ViolationFacts(t, x, p, g);
      ChildSlots(tree.nodes, tree.root, t, g);
      ChildSlots(tree.nodes, tree.root, t, p);
      TreeAtSub(tree.nodes, tree.root, t, x);
      var G := Sub(t, g);
      assert G.left.Node? ==> G.left.id in Ids(G.left);
      assert G.right.Node? ==> G.right.id in Ids(G.right);
    }

    /** The red-aunt case: parent, aunt and grandparent flip colour. */
    method RecolorRedAunt(p: nat, a: nat, g: nat)
      requires tree.Valid() && p < |tree.nodes| && a < |tree.nodes| && g < |tree.nodes|
      requires p != a && a != g && p != g
      requires tree.nodes[p].color == Red && tree.nodes[a].color == Red && tree.nodes[g].color == Black
      modifies tree
      ensures tree.Valid() && |tree.nodes| == old(|tree.nodes|)
      ensures tree.shape == SetColor(SetColor(SetColor(old(tree.shape), p, Black), a, Black), g, Red)
    {
      FlipColor(p);
      FlipColor(a);
      FlipColor(g);
    }

    /** The black-line case: parent rotates over grandparent and both flip colour. */
    method RepairLine(p: nat, g: nat)
      requires tree.Valid() && ChildOf(tree.shape, p, g)
      requires p < |tree.nodes| && g < |tree.nodes| && tree.nodes[p].color == Red && tree.nodes[g].color == Black
      modifies tree
      ensures tree.Valid() && |tree.nodes| == old(|tree.nodes|)
      ensures tree.shape == SetColor(SetColor(RotateAt(old(tree.shape), g, p), p, Black), g, Red)
    {
      RotatedChildCells(tree.nodes, tree.root, tree.shape, p, g);
      var _ := RotateRelinked(tree, Ref(p), Ref(g));
      FlipColor(p);
      FlipColor(g);
    }

    /** The black-zig case: x rotates over its parent, then over its grandparent, and x and grandparent flip colour. */
    method RepairZig(x: nat, p: nat, g: nat)
      requires tree.Valid() && ChildOf(tree.shape, x, p) && Distinct(RotateAt(tree.shape, p, x))
      requires ChildOf(RotateAt(tree.shape, p, x), x, g)
      requires x < |tree.nodes| && g < |tree.nodes| && x != g
      requires tree.nodes[x].color == Red && tree.nodes[g].color == Black
      modifies tree
      ensures tree.Valid() && |tree.nodes| == old(|tree.nodes|)
      ensures tree.shape == SetColor(SetColor(RotateAt(RotateAt(old(tree.shape), p, x), g, x), x, Black), g, Red)
    {
      RotatedChildCells(tree.nodes, tree.root, tree.shape, x, p);
      var _ := RotateRelinked(tree, Ref(x), Ref(p));
      RotatedChildCells(tree.nodes, tree.root, tree.shape, x, g);
      var _ := RotateRelinked(tree, Ref(x), Ref(g));
      FlipColor(x);
      FlipColor(g);
    }

    /**
     * insertHelper(newNode, root) on the red-black tree: the new red node n
     * hangs as a leaf, and the only red-black property it can break is the
     * red one, at n itself.
     */
    method AttachRed(n: nat, ghost t: Shape)
      requires tree.Valid() && IsRedBlack(tree.shape) && tree.shape == t && t.Node?
      requires n == |tree.nodes| - 1 && tree.nodes[n] == NodeRec(tree.nodes[n].data, Null, Null, Null, Red)
      requires n !in Ids(t)
      modifies tree
      ensures tree.Valid() && Repairable(tree.shape, n) && |tree.nodes| == old(|tree.nodes|)
      ensures tree.shape == Place(t, n, old(tree.nodes[n].data), Red)
      ensures Ids(tree.shape) == Ids(t) + {n}
      ensures multiset(Keys(tree.shape)) == multiset(Keys(t)) + multiset{old(tree.nodes[n].data)}
    {
      ghost var h := tree.nodes;
      TreeAtIds(h, tree.root, t);
      AttachValid(h, tree.root, t, n);
      tree.InsertHelper(n, tree.root, t);
      tree.shape := Place(t, n, h[n].data, Red);
      PlaceRepairable(t, n, h[n].data);
    }

    /**
     * insert(data): a null key throws NullPointerException and changes nothing.
     * Otherwise a new red node becomes the black root of an empty tree, or is
     * attached by insertHelper and repaired by ensureRedProperty: the tree is
     * a valid red-black tree holding one more copy of the key.
     */
    method Insert(data: Option<int>) returns (s: Status)
      requires Valid()
      modifies tree
      ensures data.None? ==> s == Throws(NullPointer) && unchanged(tree)
      ensures data.Some? ==>
                && s == Done && Valid()
                && multiset(Keys(tree.shape)) == multiset(old(Keys(tree.shape))) + multiset{data.value}
                && Ids(tree.shape) == old(Ids(tree.shape)) + {old(|tree.nodes|)}
                && |tree.nodes| == old(|tree.nodes|) + 1
    {
      if data.None? {
        return Throws(NullPointer);
      }
      var v := data.value;
      var n := |tree.nodes|;
      ghost var t := tree.shape;
      AppendLeaf(tree.nodes, tree.root, t, v, Red);
      tree.nodes := tree.nodes + [NodeRec(v, Null, Null, Null, Red)];
      if tree.root == Null {
        FlipColor(n);
        assert tree.nodes[n] == NodeRec(v, Null, Null, Null, Black);
        tree.root := Ref(n);
        tree.shape := Node(Leaf, n, v, Black, Leaf);
        assert tree.Shaped();
        assert tree.Valid();
        assert IsRedBlack(tree.shape);
      } else {
        AttachRed(n, t);
        EnsureRedProperty(n);
      }
      s := Done;
    }
  }

  /** Recolouring a node leaves every parent link in place. */
  lemma {:induction false} SetColorLinks(h: Heap, t: Shape, up: Ptr, i: nat, c: Color)
    requires Links(h, t, up) && i < |h|
    ensures Links(h[i := h[i].(color := c)], SetColor(t, i, c), up)
  {
    LinksIds(h, t, up);
    LinksFrame(h, h[i := h[i].(color := c)], t, up);
    SetColorLinksShape(h[i := h[i].(color := c)], t, up, i, c);
  }

  lemma {:induction false} SetColorLinksShape(h: Heap, t: Shape, up: Ptr, i: nat, c: Color)
    requires Links(h, t, up)
    ensures Links(h, SetColor(t, i, c), up)
  {
    match t
    case Leaf =>
    case Node(l, j, _, _, r) =>
      SetColorLinksShape(h, l, Ref(j), i, c);
      SetColorLinksShape(h, r, Ref(j), i, c);
  }

  /** Node i's heap cell holds the roots of its subtrees and its colour. */
  lemma {:induction false} ChildSlots(h: Heap, x: Ptr, t: Shape, i: nat)
    requires TreeAt(h, x, t) && Distinct(t) && i in Ids(t)
    ensures i < |h| && Sub(t, i).Node? && h[i].color == Sub(t, i).color
    ensures h[i].left == Root(Sub(t, i).left) && h[i].right == Root(Sub(t, i).right)
    ensures h[i].left.Ref? ==> h[i].left.id < |h| && h[i].color == Sub(t, i).color
                               && h[h[i].left.id].color == Sub(t, i).left.color
    ensures h[i].right.Ref? ==> h[i].right.id < |h| && h[h[i].right.id].color == Sub(t, i).right.color
  {
    TreeAtSub(h, x, t, i);
    SubFacts(t, i);
    var S := Sub(t, i);
    TreeAtIds(h, h[i].left, S.left);
    TreeAtIds(h, h[i].right, S.right);
  }

  /** When c is a child of p in a tree, rotate(c, p)'s checks pass: both are allocated and related in the heap. */
  lemma {:induction false} RotatedChildCells(h: Heap, x: Ptr, t: Shape, c: nat, p: nat)
    requires TreeAt(h, x, t) && Distinct(t) && ChildOf(t, c, p)
    ensures p < |h| && c < |h| && Related(h, c, p) && c in Ids(t) && c != p
  {
    ChildSlots(h, x, t, p);
    SubFacts(t, p);
    var P := Sub(t, p);
    assert P.left.Node? ==> P.left.id in Ids(P.left);
    assert P.right.Node? ==> P.right.id in Ids(P.right);
    TreeAtIds(h, x, t);
  }
}

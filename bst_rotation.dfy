/**
 * P104.RBT/BSTRotation.java: BSTRotation extends BinarySearchTree with the
 * rotate operation only and adds no state, so rotate is modelled here as a
 * method on a BinarySearchTree. Rotate performs the writes as the code does;
 * RotateRelinked is the rotation with the moved subtree's parent link
 * re-pointed, which the red-black repairs use.
 */
module BstRotation {
  import opened Nodes
  import opened RotationSpec
  import opened SearchTree

  /**
   * rotate(child, parent): a null reference throws NullPointerException, a
   * child that is neither of parent's children throws IllegalArgumentException,
   * and both leave the tree alone. Otherwise child takes parent's place (also
   * as root), parent becomes its child and the inner subtree moves across; the
   * structure is the rotated tree, but the parent links are consistent
   * afterwards exactly when there was no inner subtree to move.
   */
  method Rotate(tree: BinarySearchTree, child: Ptr, parent: Ptr) returns (s: Status)
    requires tree.Valid() && InHeap(tree.nodes, child) && InHeap(tree.nodes, parent)
    requires parent.Ref? ==> parent.id in Ids(tree.shape)
    modifies tree
    ensures child == Null || parent == Null ==> s == Throws(NullPointer) && unchanged(tree)
    ensures child.Ref? && parent.Ref? && !Related(old(tree.nodes), child.id, parent.id) ==>
              s == Throws(IllegalArgument) && unchanged(tree)
    ensures child.Ref? && parent.Ref? && Related(old(tree.nodes), child.id, parent.id) ==>
              && s == Done && ChildOf(old(tree.shape), child.id, parent.id)
              && tree.nodes == Rotated(old(tree.nodes), child.id, parent.id)
              && tree.root == Swap(old(tree.root), parent.id, child.id)
              && tree.shape == RotateAt(old(tree.shape), parent.id, child.id)
              && tree.Shaped()
              && (tree.Valid() <==> Inner(old(tree.nodes), child.id) == Null)
  {
    if child == Null || parent == Null {
      return Throws(NullPointer);
    }
    var c, p := child.id, parent.id;
    if tree.nodes[p].right != child && tree.nodes[p].left != child {
      return Throws(IllegalArgument);
    }
    ghost var h, t := tree.nodes, tree.shape;
    var nodes := tree.nodes;

    if IsRightChild(nodes, c) {
      if nodes[c].left != Null {
        nodes := nodes[p := nodes[p].(right := nodes[c].left)];
      } else {
        nodes := nodes[p := nodes[p].(right := Null)];
      }
      nodes := nodes[c := nodes[c].(left := parent)];
    } else {
      if nodes[c].right != Null {
        nodes := nodes[p := nodes[p].(left := nodes[c].right)];
      } else {
        nodes := nodes[p := nodes[p].(left := Null)];
      }
      nodes := nodes[c := nodes[c].(right := parent)];
    }
    assert nodes == Turn(h, c, p);

    var up := nodes[p].up;
    if up != Null && up.id < |nodes| {
      if nodes[up.id].right == parent {
        nodes := nodes[up.id := nodes[up.id].(right := child)];
      } else {
        nodes := nodes[up.id := nodes[up.id].(left := child)];
      }
    }

    assert nodes == Redirect(Turn(h, c, p), c, p);
    nodes := nodes[c := nodes[c].(up := nodes[p].up)];
    nodes := nodes[p := nodes[p].(up := child)];
    assert nodes == Rotated(h, c, p);
    tree.nodes := nodes;

    if tree.root == parent {
      tree.root := child;
    }
    tree.shape := RotateAt(t, p, c);
    RotateOutcome(h, old(tree.root), t, p, c);
    s := Done;
  }

  /**
   * rotate(child, parent) with the moved subtree re-pointed at parent: the
   * same outcomes and the same rotated structure, and a rotation of a valid
   * tree leaves a valid tree, with every key and colour where it was.
   */
  method RotateRelinked(tree: BinarySearchTree, child: Ptr, parent: Ptr) returns (s: Status)
    requires tree.Valid() && InHeap(tree.nodes, child) && InHeap(tree.nodes, parent)
    requires parent.Ref? ==> parent.id in Ids(tree.shape)
    modifies tree
    ensures child == Null || parent == Null ==> s == Throws(NullPointer) && unchanged(tree)
    ensures child.Ref? && parent.Ref? && !Related(old(tree.nodes), child.id, parent.id) ==>
              s == Throws(IllegalArgument) && unchanged(tree)
    ensures child.Ref? && parent.Ref? && Related(old(tree.nodes), child.id, parent.id) ==>
              && s == Done && ChildOf(old(tree.shape), child.id, parent.id)
              && tree.nodes == Relinked(old(tree.nodes), child.id, parent.id)
              && tree.root == Swap(old(tree.root), parent.id, child.id)
              && tree.shape == RotateAt(old(tree.shape), parent.id, child.id)
              && tree.Valid()
    ensures |tree.nodes| == old(|tree.nodes|)
    ensures forall j :: 0 <= j < |tree.nodes| ==>
              tree.nodes[j].data == old(tree.nodes[j].data) && tree.nodes[j].color == old(tree.nodes[j].color)
  {
    ghost var h, t := tree.nodes, tree.shape;
    var inner := Null;
    if child.Ref? {
      inner := if IsRightChild(tree.nodes, child.id) then tree.nodes[child.id].left else tree.nodes[child.id].right;
    }
    s := Rotate(tree, child, parent);
    if s == Done {
      RelinkedKeepsLinks(h, old(tree.root), t, parent.id, child.id);
      RotatedFields(h, child.id, parent.id);
      if inner != Null && inner.id < |tree.nodes| {
        tree.nodes := tree.nodes[inner.id := tree.nodes[inner.id].(up := parent)];
      }
    }
  }
}

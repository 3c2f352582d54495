/**
 * The node layer shared by BinarySearchTree, BSTRotation and RedBlackTree.
 *
 * A Java node (BSTNode / RBTNode) is an object with the fields data, up, left,
 * right and, in the coloured variant, a colour. The model keeps every node the
 * tree ever allocated in a heap `seq<NodeRec>` indexed by node identity, so a
 * reference is an index (`Ptr`), a field write is a sequence update and two
 * references alias exactly when their indices are equal. The ghost `Shape`
 * datatype is the abstraction of the linked structure that hangs from a
 * pointer: `TreeAt(h, p, t)` says that following left/right from p in h gives
 * exactly t, with the keys and colours t records.
 */
module Nodes {

  /** The exceptions the three tree classes throw. */
  datatype Exception = NullPointer | IllegalArgument

  /** The outcome of a void method that may throw. */
  datatype Status = Done | Throws(error: Exception)

  /** The outcome of a method or function that returns a value or throws. */
  datatype Result<T> = Ok(value: T) | Failed(error: Exception)

  /** A value that may be Java's null. */
  datatype Option<T> = None | Some(value: T)

  /** A (nullable) node reference: the index of the node in the heap. */
  datatype Ptr = Null | Ref(id: nat)

  datatype Color = Red | Black

  /** The fields of one node object. BSTNode has no colour; its nodes carry one that nothing reads. */
  datatype NodeRec = NodeRec(data: int, up: Ptr, left: Ptr, right: Ptr, color: Color)

  type Heap = seq<NodeRec>

  /** The node structure hanging from a pointer, with each node's key and colour. */
  datatype Shape = Leaf | Node(left: Shape, id: nat, key: int, color: Color, right: Shape)

  predicate InHeap(h: Heap, p: Ptr) {
    p.Ref? ==> p.id < |h|
  }

  /** Every reference stored in a node refers to an allocated node. */
  ghost predicate HeapOk(h: Heap) {
    forall i :: 0 <= i < |h| ==> InHeap(h, h[i].up) && InHeap(h, h[i].left) && InHeap(h, h[i].right)
  }

  /** Java's isRightChild: the node has a parent whose right child it is. */
  predicate IsRightChild(h: Heap, i: nat)
    requires i < |h| && HeapOk(h)
  {
    h[i].up.Ref? && h[h[i].up.id].right == Ref(i)
  }

  /** The colour of a subtree's root; an empty subtree counts as black. */
  function ColorOf(t: Shape): Color {
    if t.Leaf? then Black else t.color
  }

  function Root(t: Shape): Ptr {
    if t.Leaf? then Null else Ref(t.id)
  }

  function Ids(t: Shape): set<nat> {
    match t
    case Leaf => {}
    case Node(l, i, _, _, r) => Ids(l) + {i} + Ids(r)
  }

  /** No node occurs twice: the structure is a tree, not a DAG or a cycle. */
  ghost predicate Distinct(t: Shape) {
    match t
    case Leaf => true
    case Node(l, i, _, _, r) =>
      Distinct(l) && Distinct(r) && i !in Ids(l) && i !in Ids(r) && Ids(l) !! Ids(r)
  }

  /** The nodes in in-order (left subtree, node, right subtree). */
  function InOrder(t: Shape): seq<nat> {
    match t
    case Leaf => []
    case Node(l, i, _, _, r) => InOrder(l) + [i] + InOrder(r)
  }

  /** The keys in in-order. */
  function Keys(t: Shape): seq<int> {
    match t
    case Leaf => []
    case Node(l, _, k, _, r) => Keys(l) + [k] + Keys(r)
  }

  /** Following left/right from p in h gives exactly t, with t's keys and colours. */
  ghost predicate TreeAt(h: Heap, p: Ptr, t: Shape)
    decreases t
  {
    match t
    case Leaf => p == Null
    case Node(l, i, k, c, r) =>
      && p == Ref(i) && i < |h|
      && h[i].data == k && h[i].color == c
      && TreeAt(h, h[i].left, l) && TreeAt(h, h[i].right, r)
  }

  /** Every node's up field refers to its parent in t; the root's to `up`. */
  ghost predicate Links(h: Heap, t: Shape, up: Ptr) {
    match t
    case Leaf => true
    case Node(l, i, _, _, r) =>
      i < |h| && h[i].up == up && Links(h, l, Ref(i)) && Links(h, r, Ref(i))
  }

  ghost predicate Sorted(s: seq<int>) {
    forall i, j :: 0 <= i < j < |s| ==> s[i] <= s[j]
  }

  /** The subtree rooted at node i (empty when i does not occur). */
  function Sub(t: Shape, i: nat): Shape {
    match t
    case Leaf => Leaf
    case Node(l, j, _, _, r) =>
      if j == i then t else if i in Ids(l) then Sub(l, i) else Sub(r, i)
  }

  /** t with the subtree rooted at node i replaced by s. */
  function Graft(t: Shape, i: nat, s: Shape): Shape {
    match t
    case Leaf => Leaf
    case Node(l, j, k, c, r) =>
      if j == i then s else Node(Graft(l, i, s), j, k, c, Graft(r, i, s))
  }

  /** t with node i recoloured c. */
  function SetColor(t: Shape, i: nat, c: Color): Shape {
    match t
    case Leaf => Leaf
    case Node(l, j, k, c0, r) =>
      Node(SetColor(l, i, c), j, k, if j == i then c else c0, SetColor(r, i, c))
  }

  /** The parent of node x in t (Null when x is the root or absent). */
  function ParentOf(t: Shape, x: nat): Ptr {
    match t
    case Leaf => Null
    case Node(l, i, _, _, r) =>
      if Root(l) == Ref(x) || Root(r) == Ref(x) then Ref(i)
      else if x in Ids(l) then ParentOf(l, x) else ParentOf(r, x)
  }

  /** The number of edges from the root of t down to node x. */
  function Depth(t: Shape, x: nat): nat {
    match t
    case Leaf => 0
    case Node(l, i, _, _, r) =>
      if i == x then 0 else if x in Ids(l) then 1 + Depth(l, x) else 1 + Depth(r, x)
  }

  // ---------------------------------------------------------------------------
  // Framing: which heap writes a structure survives.
  // ---------------------------------------------------------------------------

  lemma {:induction false} TreeAtIds(h: Heap, p: Ptr, t: Shape)
    requires TreeAt(h, p, t)
    ensures forall i :: i in Ids(t) ==> i < |h|
    ensures p == Root(t)
    decreases t
  {
    match t
    case Leaf =>
    case Node(l, i, _, _, r) =>
      TreeAtIds(h, h[i].left, l);
      TreeAtIds(h, h[i].right, r);
  }

  /** A structure survives any heap that agrees with h on the nodes it contains. */
  lemma {:induction false} TreeAtFrame(h: Heap, h': Heap, p: Ptr, t: Shape)
    requires TreeAt(h, p, t)
    requires forall i :: i in Ids(t) ==> i < |h| && i < |h'| && h'[i].data == h[i].data && h'[i].color == h[i].color
                                         && h'[i].left == h[i].left && h'[i].right == h[i].right
    ensures TreeAt(h', p, t)
    decreases t
  {
    match t
    case Leaf =>
    case Node(l, i, _, _, r) =>
      TreeAtFrame(h, h', h[i].left, l);
      TreeAtFrame(h, h', h[i].right, r);
  }

  /** Parent links survive any heap that agrees with h on the up field of the nodes of t. */
  lemma {:induction false} LinksFrame(h: Heap, h': Heap, t: Shape, up: Ptr)
    requires Links(h, t, up)
    requires forall i :: i in Ids(t) ==> i < |h| && i < |h'| && h'[i].up == h[i].up
    ensures Links(h', t, up)
    decreases t
  {
    match t
    case Leaf =>
    case Node(l, i, _, _, r) =>
      LinksFrame(h, h', l, Ref(i));
      LinksFrame(h, h', r, Ref(i));
  }

  /** Every node of a linked structure is allocated. */
  lemma {:induction false} LinksIds(h: Heap, t: Shape, up: Ptr)
    requires Links(h, t, up)
    ensures forall i :: i in Ids(t) ==> i < |h|
    decreases t
  {
    match t
    case Leaf =>
    case Node(l, i, _, _, r) =>
      LinksIds(h, l, Ref(i));
      LinksIds(h, r, Ref(i));
  }

  /** In a tree of distinct nodes, the node count, the in-order length and the key count agree. */
  lemma {:induction false} SizeFacts(t: Shape)
    requires Distinct(t)
    ensures |Ids(t)| == |InOrder(t)| == |Keys(t)|
  {
    match t
    case Leaf =>
    case Node(l, i, _, _, r) =>
      SizeFacts(l);
      SizeFacts(r);
      DisjointUnion(Ids(l), {i});
      DisjointUnion(Ids(l) + {i}, Ids(r));
  }

  lemma {:induction false} DisjointUnion<T>(a: set<T>, b: set<T>)
    requires a !! b
    ensures |a + b| == |a| + |b|
  {
    assert a * b == {};
  }

  // ---------------------------------------------------------------------------
  // Subtrees, grafts and parents.
  // ---------------------------------------------------------------------------

  lemma {:induction false} SubFacts(t: Shape, i: nat)
    requires Distinct(t) && i in Ids(t)
    ensures Sub(t, i).Node? && Sub(t, i).id == i
    ensures Ids(Sub(t, i)) <= Ids(t) && Distinct(Sub(t, i))
  {
    match t
    case Node(l, j, _, _, r) =>
      if j != i {
        if i in Ids(l) { SubFacts(l, i); } else { SubFacts(r, i); }
      }
  }

  /** The subtree of node i hangs from i's own heap cell. */
  lemma {:induction false} TreeAtSub(h: Heap, p: Ptr, t: Shape, i: nat)
    requires TreeAt(h, p, t) && Distinct(t) && i in Ids(t)
    ensures TreeAt(h, Ref(i), Sub(t, i))
    decreases t
  {
    match t
    case Node(l, j, _, _, r) =>
      if j != i {
        if i in Ids(l) { TreeAtSub(h, h[j].left, l, i); } else { TreeAtSub(h, h[j].right, r, i); }
      }
  }

  /** A node of a subtree is a node of the whole tree, and its subtree is the same. */
  lemma {:induction false} SubOfSub(t: Shape, i: nat, j: nat)
    requires Distinct(t) && i in Ids(t) && j in Ids(Sub(t, i))
    ensures j in Ids(t) && Sub(Sub(t, i), j) == Sub(t, j)
  {
    SubFacts(t, i);
    match t
    case Node(l, k, _, _, r) =>
      if k == i {
      } else if i in Ids(l) {
        SubFacts(l, i);
        SubOfSub(l, i, j);
      } else {
        SubFacts(r, i);
        SubOfSub(r, i, j);
      }
  }

  /**
   * Replacing the subtree of node i by s with the same nodes keeps the tree's
   * nodes, its distinctness and its in-order, and makes s the new subtree.
   */
  lemma {:induction false} GraftFacts(t: Shape, i: nat, s: Shape)
    requires Distinct(t) && i in Ids(t) && Distinct(s) && Ids(s) == Ids(Sub(t, i))
    ensures Ids(Graft(t, i, s)) == Ids(t) && Distinct(Graft(t, i, s))
    ensures s.Node? ==> Sub(Graft(t, i, s), s.id) == s
    ensures InOrder(s) == InOrder(Sub(t, i)) ==> InOrder(Graft(t, i, s)) == InOrder(t)
    ensures Keys(s) == Keys(Sub(t, i)) ==> Keys(Graft(t, i, s)) == Keys(t)
    ensures t.id == i ==> Graft(t, i, s) == s
    ensures t.id != i ==> Graft(t, i, s).id == t.id && Graft(t, i, s).color == t.color
  {
    match t
    case Node(l, j, k, c, r) =>
      if j != i {
        SubFacts(t, i);
        if i in Ids(l) {
          GraftFacts(l, i, s);
          GraftAbsent(r, i, s);
          SubFacts(l, i);
          assert s.Node? ==> s.id in Ids(s);
          assert s.Node? ==> s.id in Ids(l) && s.id != j;
        } else {
          GraftFacts(r, i, s);
          GraftAbsent(l, i, s);
          SubFacts(r, i);
          assert s.Node? ==> s.id in Ids(s);
          assert s.Node? ==> s.id in Ids(r) && s.id != j && s.id !in Ids(l);
        }
      } else {
        SubFacts(t, i);
      }
  }

  lemma {:induction false} GraftAbsent(t: Shape, i: nat, s: Shape)
    requires i !in Ids(t)
    ensures Graft(t, i, s) == t
  {
    match t
    case Leaf =>
    case Node(l, _, _, _, r) =>
      GraftAbsent(l, i, s);
      GraftAbsent(r, i, s);
  }

  /** Grafting twice at the root of the first graft keeps only the second. */
  lemma {:induction false} GraftGraft(t: Shape, i: nat, s: Shape, s': Shape)
    requires Distinct(t) && i in Ids(t) && s.Node? && s.id == i
    ensures Graft(Graft(t, i, s), i, s') == Graft(t, i, s')
  {
    match t
    case Node(l, j, _, _, r) =>
      if j != i {
        if i in Ids(l) {
          GraftGraft(l, i, s, s');
          GraftAbsent(r, i, s);
          GraftAbsent(r, i, s');
        } else {
          GraftGraft(r, i, s, s');
          GraftAbsent(l, i, s);
          GraftAbsent(l, i, s');
        }
      }
  }

  lemma {:induction false} SetColorAbsent(t: Shape, i: nat, c: Color)
    requires i !in Ids(t)
    ensures SetColor(t, i, c) == t
  {
    match t
    case Leaf =>
    case Node(l, _, _, _, r) =>
      SetColorAbsent(l, i, c);
      SetColorAbsent(r, i, c);
  }

  /** Recolouring keeps every node, the in-order and the keys. */
  lemma {:induction false} SetColorFacts(t: Shape, i: nat, c: Color)
    ensures Ids(SetColor(t, i, c)) == Ids(t)
    ensures Distinct(t) ==> Distinct(SetColor(t, i, c))
    ensures InOrder(SetColor(t, i, c)) == InOrder(t) && Keys(SetColor(t, i, c)) == Keys(t)
    ensures Root(SetColor(t, i, c)) == Root(t)
  {
    match t
    case Leaf =>
    case Node(l, _, _, _, r) =>
      SetColorFacts(l, i, c);
      SetColorFacts(r, i, c);
  }

  /** Recolouring a node of the subtree of g is a graft of the recoloured subtree. */
  lemma {:induction false} SetColorGraft(t: Shape, g: nat, s: Shape, i: nat, c: Color)
    requires Distinct(t) && g in Ids(t) && i in Ids(s) && i !in Ids(t) - Ids(Sub(t, g))
    ensures SetColor(Graft(t, g, s), i, c) == Graft(t, g, SetColor(s, i, c))
  {
    match t
    case Node(l, j, _, _, r) =>
      SubFacts(t, g);
      if j != g {
        if g in Ids(l) {
          SubFacts(l, g);
          SetColorGraft(l, g, s, i, c);
          GraftAbsent(r, g, s);
          GraftAbsent(r, g, SetColor(s, i, c));
          SetColorAbsent(r, i, c);
        } else {
          SubFacts(r, g);
          SetColorGraft(r, g, s, i, c);
          GraftAbsent(l, g, s);
          GraftAbsent(l, g, SetColor(s, i, c));
          SetColorAbsent(l, i, c);
        }
      }
  }

  /** A graft inside the subtree of g is a graft of g's subtree. */
  lemma {:induction false} GraftInside(t: Shape, g: nat, p: nat, s: Shape)
    requires Distinct(t) && g in Ids(t) && p in Ids(Sub(t, g))
    ensures Graft(t, p, s) == Graft(t, g, Graft(Sub(t, g), p, s))
  {
    SubFacts(t, g);
    match t
    case Node(l, j, _, _, r) =>
      if j != g {
        if g in Ids(l) {
          SubFacts(l, g);
          GraftInside(l, g, p, s);
          GraftAbsent(r, p, s);
          GraftAbsent(r, g, Graft(Sub(t, g), p, s));
        } else {
          SubFacts(r, g);
          GraftInside(r, g, p, s);
          GraftAbsent(l, p, s);
          GraftAbsent(l, g, Graft(Sub(t, g), p, s));
        }
      }
  }

  /** A graft of the unchanged subtree changes nothing. */
  lemma {:induction false} GraftSelf(t: Shape, g: nat)
    requires Distinct(t) && g in Ids(t)
    ensures Graft(t, g, Sub(t, g)) == t
  {
    match t
    case Node(l, j, _, _, r) =>
      if j != g {
        if g in Ids(l) {
          GraftSelf(l, g);
          GraftAbsent(r, g, Sub(t, g));
        } else {
          GraftSelf(r, g);
          GraftAbsent(l, g, Sub(t, g));
        }
      }
  }

  /** With consistent links, a node's up field holds its parent in the tree. */
  lemma {:induction false} LinksParent(h: Heap, t: Shape, up: Ptr, x: nat)
    requires Links(h, t, up) && Distinct(t) && x in Ids(t)
    ensures x < |h|
    ensures h[x].up == if t.id == x then up else ParentOf(t, x)
    decreases t
  {
    match t
    case Node(l, i, _, _, r) =>
      if i != x {
        if x in Ids(l) {
          LinksParent(h, l, Ref(i), x);
        } else {
          LinksParent(h, r, Ref(i), x);
        }
      }
  }

  /** A node that does not occur has no parent. */
  lemma {:induction false} ParentOfAbsent(t: Shape, x: nat)
    requires x !in Ids(t)
    ensures ParentOf(t, x) == Null
  {
    match t
    case Leaf =>
    case Node(l, _, _, _, r) =>
      assert l.Node? ==> l.id in Ids(l);
      assert r.Node? ==> r.id in Ids(r);
      ParentOfAbsent(l, x);
      ParentOfAbsent(r, x);
  }

  /** The root has no parent. */
  lemma {:induction false} RootNoParent(t: Shape)
    requires Distinct(t) && t.Node?
    ensures ParentOf(t, t.id) == Null
  {
    assert t.left.Node? ==> t.left.id in Ids(t.left);
    assert t.right.Node? ==> t.right.id in Ids(t.right);
    ParentOfAbsent(t.left, t.id);
    ParentOfAbsent(t.right, t.id);
  }

  /** The parent of a non-root node is a node whose subtree has it as a child, one level higher. */
  lemma {:induction false} ParentFacts(t: Shape, x: nat)
    requires Distinct(t) && x in Ids(t) && t.id != x
    ensures ParentOf(t, x).Ref? && ParentOf(t, x).id in Ids(t)
    ensures var p := Sub(t, ParentOf(t, x).id);
            p.Node? && (Root(p.left) == Ref(x) || Root(p.right) == Ref(x))
    ensures Depth(t, x) == Depth(t, ParentOf(t, x).id) + 1
  {
    match t
    case Node(l, i, _, _, r) =>
      if Root(l) == Ref(x) || Root(r) == Ref(x) {
      } else if x in Ids(l) {
        ParentFacts(l, x);
        assert ParentOf(t, x).id != i;
      } else {
        ParentFacts(r, x);
        assert ParentOf(t, x).id != i;
      }
  }

  /** Recolouring changes neither parents nor depths nor subtrees' nodes. */
  lemma {:induction false} SetColorStructure(t: Shape, i: nat, c: Color, x: nat)
    ensures ParentOf(SetColor(t, i, c), x) == ParentOf(t, x)
    ensures Depth(SetColor(t, i, c), x) == Depth(t, x)
    ensures Sub(SetColor(t, i, c), x) == SetColor(Sub(t, x), i, c)
  {
    match t
    case Leaf =>
    case Node(l, _, _, _, r) =>
      SetColorFacts(l, i, c);
      SetColorFacts(r, i, c);
      SetColorStructure(l, i, c, x);
      SetColorStructure(r, i, c, x);
  }

  /** A recoloured node keeps its place in the heap structure once its cell is recoloured too. */
  lemma {:induction false} TreeAtSetColor(h: Heap, p: Ptr, t: Shape, i: nat, c: Color)
    requires TreeAt(h, p, t) && Distinct(t) && i < |h|
    ensures TreeAt(h[i := h[i].(color := c)], p, SetColor(t, i, c))
    decreases t
  {
    match t
    case Leaf =>
    case Node(l, j, _, _, r) =>
      TreeAtSetColor(h, h[j].left, l, i, c);
      TreeAtSetColor(h, h[j].right, r, i, c);
  }
}

/**
 * The naive binary-search-tree layer (P101_BST/src/BinarySearchTree.java):
 * where insertHelper attaches a new leaf, the recursive lookup behind
 * contains, and the recursive count behind size.
 */
module BstSpec {
  import opened Nodes

  /**
   * The tree after insertHelper has attached leaf n with key v and colour c:
   * at every node an equal or smaller key descends left, a larger key right.
   */
  function Place(t: Shape, n: nat, v: int, c: Color): Shape {
    match t
    case Leaf => Node(Leaf, n, v, c, Leaf)
    case Node(l, i, k, col, r) =>
      if v == k || v < k then Node(Place(l, n, v, c), i, k, col, r)
      else Node(l, i, k, col, Place(r, n, v, c))
  }

  /** The node whose empty slot receives a new key v, and whether that slot is its left one. */
  function AttachPoint(t: Shape, v: int): (a: (nat, bool))
    requires t.Node?
    ensures a.0 in Ids(t)
  {
    if v == t.key || v < t.key then
      if t.left.Leaf? then (t.id, true) else AttachPoint(t.left, v)
    else
      if t.right.Leaf? then (t.id, false) else AttachPoint(t.right, v)
  }

  /** newNode.setUp(subtree) followed by subtree.setLeft(newNode) or subtree.setRight(newNode). */
  function Link(h: Heap, a: nat, n: nat, left: bool): Heap
    requires a < |h| && n < |h|
  {
    var h1 := h[n := h[n].(up := Ref(a))];
    if left then h1[a := h1[a].(left := Ref(n))] else h1[a := h1[a].(right := Ref(n))]
  }

  /** Java's lookup(node, data): equal stops, smaller descends left, anything else right. */
  function Lookup(h: Heap, p: Ptr, ghost t: Shape, v: int): (found: bool)
    requires TreeAt(h, p, t)
    ensures Sorted(Keys(t)) ==> (found <==> v in Keys(t))
    decreases t
  {
    if p == Null then false
    else if h[p.id].data == v then true
    else if v < h[p.id].data then
      SortedParts(Keys(t.left), t.key, Keys(t.right));
      Lookup(h, h[p.id].left, t.left, v)
    else
      SortedParts(Keys(t.left), t.key, Keys(t.right));
      Lookup(h, h[p.id].right, t.right, v)
  }

  /** Java's count(node): one for the node plus the counts of its non-null children. */
  function Count(h: Heap, p: Ptr, ghost t: Shape): (n: nat)
    requires TreeAt(h, p, t) && p != Null
    ensures n == |InOrder(t)|
    decreases t
  {
    var left := h[p.id].left;
    var right := h[p.id].right;
    TreeAtIds(h, left, t.left);
    TreeAtIds(h, right, t.right);
    1 + (if left != Null then Count(h, left, t.left) else 0)
      + (if right != Null then Count(h, right, t.right) else 0)
  }

  // ---------------------------------------------------------------------------
  // Sorted sequences.
  // ---------------------------------------------------------------------------

  /** A sorted in-order splits at a node into sorted halves bounded by the node's key, and back. */
  lemma {:induction false} SortedParts(a: seq<int>, k: int, b: seq<int>)
    ensures Sorted(a + [k] + b) <==>
            Sorted(a) && Sorted(b) && (forall x :: x in a ==> x <= k) && (forall y :: y in b ==> k <= y)
  {
    if Sorted(a) && Sorted(b) && (forall x :: x in a ==> x <= k) && (forall y :: y in b ==> k <= y) {
      SortedJoin(a, k, b);
    }
    if Sorted(a + [k] + b) {
      SortedSplit(a, k, b);
    }
  }

  lemma {:induction false} SortedJoin(a: seq<int>, k: int, b: seq<int>)
    requires Sorted(a) && Sorted(b) && (forall x :: x in a ==> x <= k) && (forall y :: y in b ==> k <= y)
    ensures Sorted(a + [k] + b)
  {
    var s := a + [k] + b;
    forall i, j | 0 <= i < j < |s| ensures s[i] <= s[j] {
      if j < |a| {
        assert s[i] == a[i] && s[j] == a[j];
      } else if i < |a| {
        assert s[i] == a[i] && a[i] in a;
        if j > |a| {
          assert s[j] == b[j - |a| - 1] && s[j] in b;
        }
      } else if i == |a| {
        assert s[j] == b[j - |a| - 1] && s[j] in b;
      } else {
        assert s[i] == b[i - |a| - 1] && s[j] == b[j - |a| - 1];
      }
    }
  }

  lemma {:induction false} SortedSplit(a: seq<int>, k: int, b: seq<int>)
    requires Sorted(a + [k] + b)
    ensures Sorted(a) && Sorted(b) && (forall x :: x in a ==> x <= k) && (forall y :: y in b ==> k <= y)
  {
    var s := a + [k] + b;
    assert s[|a|] == k;
    forall i, j | 0 <= i < j < |a| ensures a[i] <= a[j] {
      assert a[i] == s[i] && a[j] == s[j];
    }
    forall i, j | 0 <= i < j < |b| ensures b[i] <= b[j] {
      assert b[i] == s[|a| + 1 + i] && b[j] == s[|a| + 1 + j];
    }
    forall x | x in a ensures x <= k {
      var i :| 0 <= i < |a| && a[i] == x;
      assert s[i] == x;
    }
    forall y | y in b ensures k <= y {
      var j :| 0 <= j < |b| && b[j] == y;
      assert s[|a| + 1 + j] == y;
    }
  }

  // ---------------------------------------------------------------------------
  // What insertHelper's placement promises.
  // ---------------------------------------------------------------------------

  /**
   * The new leaf is added to the nodes and nothing else moves: the old root stays
   * the root, the new node is a leaf, and the key multiset grows by exactly v.
   */
  lemma {:induction false} PlaceFacts(t: Shape, n: nat, v: int, c: Color)
    requires Distinct(t) && n !in Ids(t)
    ensures Ids(Place(t, n, v, c)) == Ids(t) + {n} && Distinct(Place(t, n, v, c))
    ensures |InOrder(Place(t, n, v, c))| == |InOrder(t)| + 1
    ensures Sub(Place(t, n, v, c), n) == Node(Leaf, n, v, c, Leaf)
    ensures t.Node? ==> Root(Place(t, n, v, c)) == Root(t) && Place(t, n, v, c).color == t.color
  {
    PlaceIds(t, n, v, c);
    PlaceOrder(t, n, v, c);
    PlaceSub(t, n, v, c);
  }

  lemma {:induction false} PlaceIds(t: Shape, n: nat, v: int, c: Color)
    requires Distinct(t) && n !in Ids(t)
    ensures Ids(Place(t, n, v, c)) == Ids(t) + {n} && Distinct(Place(t, n, v, c))
  {
    match t
    case Leaf =>
    case Node(l, i, k, col, r) =>
      if v == k || v < k {
        PlaceIds(l, n, v, c);
      } else {
        PlaceIds(r, n, v, c);
      }
  }

  lemma {:induction false} PlaceOrder(t: Shape, n: nat, v: int, c: Color)
    ensures |InOrder(Place(t, n, v, c))| == |InOrder(t)| + 1
  {
    match t
    case Leaf =>
    case Node(l, i, k, col, r) =>
      if v == k || v < k {
        PlaceOrder(l, n, v, c);
      } else {
        PlaceOrder(r, n, v, c);
      }
  }

  lemma {:induction false} PlaceSub(t: Shape, n: nat, v: int, c: Color)
    requires Distinct(t) && n !in Ids(t)
    ensures Sub(Place(t, n, v, c), n) == Node(Leaf, n, v, c, Leaf)
    ensures t.Node? ==> Root(Place(t, n, v, c)) == Root(t) && Place(t, n, v, c).color == t.color
  {
    match t
    case Leaf =>
    case Node(l, i, k, col, r) =>
      PlaceIds(t, n, v, c);
      if v == k || v < k {
        PlaceIds(l, n, v, c);
        PlaceSub(l, n, v, c);
      } else {
        PlaceIds(r, n, v, c);
        PlaceSub(r, n, v, c);
      }
  }

  /** Placement by comparison keeps the in-order keys sorted. */
  lemma {:induction false} PlaceSorted(t: Shape, n: nat, v: int, c: Color)
    requires Sorted(Keys(t))
    ensures Sorted(Keys(Place(t, n, v, c)))
  {
    match t
    case Leaf =>
    case Node(l, i, k, col, r) =>
      SortedParts(Keys(l), k, Keys(r));
      var t' := Place(t, n, v, c);
      if v == k || v < k {
        PlaceSorted(l, n, v, c);
        PlaceKeys(l, n, v, c);
        forall x | x in Keys(Place(l, n, v, c)) ensures x <= k {
          assert x in multiset(Keys(Place(l, n, v, c)));
          assert x in multiset(Keys(l)) + multiset{v};
          assert x in Keys(l) || x == v;
        }
        SortedParts(Keys(Place(l, n, v, c)), k, Keys(r));
      } else {
        PlaceSorted(r, n, v, c);
        PlaceKeys(r, n, v, c);
        forall y | y in Keys(Place(r, n, v, c)) ensures k <= y {
          assert y in multiset(Keys(Place(r, n, v, c)));
          assert y in multiset(Keys(r)) + multiset{v};
          assert y in Keys(r) || y == v;
        }
        SortedParts(Keys(l), k, Keys(Place(r, n, v, c)));
      }
  }

  lemma {:induction false} PlaceKeys(t: Shape, n: nat, v: int, c: Color)
    ensures multiset(Keys(Place(t, n, v, c))) == multiset(Keys(t)) + multiset{v}
  {
    match t
    case Leaf =>
    case Node(l, i, k, col, r) =>
      assert Keys(t) == Keys(l) + [k] + Keys(r);
      if v == k || v < k {
        var pl := Place(l, n, v, c);
        assert Keys(Place(t, n, v, c)) == Keys(pl) + [k] + Keys(r);
        PlaceKeys(l, n, v, c);
        GrowLeft(Keys(l), Keys(pl), k, Keys(r), v);
      } else {
        var pr := Place(r, n, v, c);
        assert Keys(Place(t, n, v, c)) == Keys(l) + [k] + Keys(pr);
        PlaceKeys(r, n, v, c);
        GrowRight(Keys(l), k, Keys(r), Keys(pr), v);
      }
  }

  lemma {:induction false} GrowLeft(a: seq<int>, a': seq<int>, k: int, b: seq<int>, v: int)
    requires multiset(a') == multiset(a) + multiset{v}
    ensures multiset(a' + [k] + b) == multiset(a + [k] + b) + multiset{v}
  {
  }

  lemma {:induction false} GrowRight(a: seq<int>, k: int, b: seq<int>, b': seq<int>, v: int)
    requires multiset(b') == multiset(b) + multiset{v}
    ensures multiset(a + [k] + b') == multiset(a + [k] + b) + multiset{v}
  {
  }

  /**
   * insertHelper's two writes turn the old structure into Place(t, n, v, c): the
   * attach point's chosen slot was empty, and the new node now hangs there.
   */
  lemma {:induction false} LinkPlaces(h: Heap, p: Ptr, t: Shape, n: nat)
    requires TreeAt(h, p, t) && Distinct(t) && t.Node?
    requires n < |h| && n !in Ids(t) && h[n].left == Null && h[n].right == Null
    ensures var (a, left) := AttachPoint(t, h[n].data);
            && a < |h|
            && (if left then h[a].left == Null else h[a].right == Null)
            && TreeAt(Link(h, a, n, left), p, Place(t, n, h[n].data, h[n].color))
    decreases t
  {
    TreeAtIds(h, p, t);
    var v := h[n].data;
    var (a, left) := AttachPoint(t, v);
    var h' := Link(h, a, n, left);
    match t
    case Node(l, i, k, col, r) =>
      if v == k || v < k {
        if l.Leaf? {
          TreeAtFrame(h, h', h[i].right, r);
        } else {
          LinkPlaces(h, h[i].left, l, n);
          TreeAtIds(h, h[i].right, r);
          TreeAtFrame(h, h', h[i].right, r);
        }
      } else {
        if r.Leaf? {
          TreeAtFrame(h, h', h[i].left, l);
        } else {
          LinkPlaces(h, h[i].right, r, n);
          TreeAtIds(h, h[i].left, l);
          TreeAtFrame(h, h', h[i].left, l);
        }
      }
  }

  /** insertHelper records the attach point as the new node's parent, so parent links stay consistent. */
  lemma {:induction false} LinkKeepsLinks(h: Heap, t: Shape, up: Ptr, n: nat)
    requires Links(h, t, up) && Distinct(t) && t.Node? && n < |h| && n !in Ids(t)
    ensures var (a, left) := AttachPoint(t, h[n].data);
            a < |h| && Links(Link(h, a, n, left), Place(t, n, h[n].data, h[n].color), up)
    decreases t
  {
    var v := h[n].data;
    var (a, left) := AttachPoint(t, v);
    LinksIds(h, t, up);
    var h' := Link(h, a, n, left);
    match t
    case Node(l, i, k, col, r) =>
      if v == k || v < k {
        if !l.Leaf? {
          LinkKeepsLinks(h, l, Ref(i), n);
        }
        LinksIds(h, r, Ref(i));
        LinksFrame(h, h', r, Ref(i));
      } else {
        if !r.Leaf? {
          LinkKeepsLinks(h, r, Ref(i), n);
        }
        LinksIds(h, l, Ref(i));
        LinksFrame(h, h', l, Ref(i));
      }
  }

  // ---------------------------------------------------------------------------
  // The whole insertion.
  // ---------------------------------------------------------------------------

  /** Allocating a fresh node object leaves the tree and its links as they were. */
  lemma {:induction false} AppendLeaf(h: Heap, p: Ptr, t: Shape, v: int, c: Color)
    requires HeapOk(h) && TreeAt(h, p, t) && Links(h, t, Null)
    ensures var h' := h + [NodeRec(v, Null, Null, Null, c)];
            HeapOk(h') && TreeAt(h', p, t) && Links(h', t, Null) && |h| !in Ids(t)
  {
    var h' := h + [NodeRec(v, Null, Null, Null, c)];
    TreeAtIds(h, p, t);
    TreeAtFrame(h, h', p, t);
    LinksFrame(h, h', t, Null);
  }

  /** A detached node made the root of an empty tree is a valid one-node tree. */
  lemma {:induction false} SingleNode(h: Heap, n: nat)
    requires n < |h| && h[n].left == Null && h[n].right == Null && h[n].up == Null
    ensures var t := Node(Leaf, n, h[n].data, h[n].color, Leaf);
            && TreeAt(h, Ref(n), t) && Distinct(t) && Sorted(Keys(t)) && Links(h, t, Null)
            && Ids(t) == {n} && Keys(t) == [h[n].data]
  {
  }

  /** insertHelper(newNode, root) on a valid non-empty tree yields a valid tree with one more key. */
  lemma {:induction false} AttachValid(h: Heap, p: Ptr, t: Shape, n: nat)
    requires HeapOk(h) && TreeAt(h, p, t) && Distinct(t) && Sorted(Keys(t)) && Links(h, t, Null) && t.Node?
    requires n < |h| && n !in Ids(t) && h[n].left == Null && h[n].right == Null
    ensures var (a, left) := AttachPoint(t, h[n].data);
            var t' := Place(t, n, h[n].data, h[n].color);
            && a < |h|
            && var h' := Link(h, a, n, left);
            && HeapOk(h') && TreeAt(h', p, t') && Distinct(t') && Sorted(Keys(t')) && Links(h', t', Null)
            && Ids(t') == Ids(t) + {n} && multiset(Keys(t')) == multiset(Keys(t)) + multiset{h[n].data}
  {
    var v, c := h[n].data, h[n].color;
    var (a, left) := AttachPoint(t, v);
    TreeAtIds(h, p, t);
    LinkPlaces(h, p, t, n);
    LinkKeepsLinks(h, t, Null, n);
    LinkHeapOk(h, a, n, left);
    PlaceFacts(t, n, v, c);
    PlaceSorted(t, n, v, c);
    PlaceKeys(t, n, v, c);
  }

  /** Linking two existing nodes keeps every reference inside the heap. */
  lemma {:induction false} LinkHeapOk(h: Heap, a: nat, n: nat, left: bool)
    requires HeapOk(h) && a < |h| && n < |h|
    ensures HeapOk(Link(h, a, n, left)) && |Link(h, a, n, left)| == |h|
  {
  }
}

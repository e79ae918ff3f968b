/** The BST of BinarySearchTreeDemo.java: integer keys, insertion that ignores
    duplicates, deletion that replaces a node with two children by the minimum
    of its right subtree, and the three depth-first traversals. */
module BinarySearchTreeDemo {

  /** A (sub)tree; `Nil` is Java's `null` child. */
  datatype Tree = Nil | Node(left: Tree, data: int, right: Tree)

  function Keys(t: Tree): set<int> {
    match t
    case Nil => {}
    case Node(l, d, r) => Keys(l) + {d} + Keys(r)
  }

  /** The strict search-tree order: every key of a left subtree is smaller, and
      every key of a right subtree larger, than the key above it. */
  ghost predicate IsBst(t: Tree) {
    match t
    case Nil => true
    case Node(l, d, r) =>
      && IsBst(l) && IsBst(r)
      && (forall k :: k in Keys(l) ==> k < d)
      && (forall k :: k in Keys(r) ==> d < k)
  }

  /** `insertRec`: walks down by comparison and hangs a new leaf where it falls
      off the tree; an equal key stops the walk and changes nothing. */
  function InsertRec(t: Tree, data: int): (r: Tree)
    ensures Keys(r) == Keys(t) + {data}
    ensures IsBst(t) ==> IsBst(r)
    ensures r != Nil
    ensures t == Nil ==> r == Node(Nil, data, Nil)
  {
    match t
    case Nil => Node(Nil, data, Nil)
    case Node(l, d, rt) =>
      if data < d then Node(InsertRec(l, data), d, rt)
      else if data > d then Node(l, d, InsertRec(rt, data))
      else t
  }

  /** Inserting a key already present returns the tree unchanged. */
  lemma {:induction false} InsertPresent(t: Tree, data: int)
    requires IsBst(t) && data in Keys(t)
    ensures InsertRec(t, data) == t
  {
    match t
    case Node(l, d, r) =>
      if data < d {
        InsertPresent(l, data);
      } else if data > d {
        InsertPresent(r, data);
      }
  }

  /** The key `minValue` returns: that of the leftmost node. */
  function Leftmost(t: Tree): (m: int)
    requires t != Nil
    ensures m in Keys(t)
    ensures IsBst(t) ==> forall k :: k in Keys(t) ==> m <= k
  {
    if t.left == Nil then t.data else Leftmost(t.left)
  }

  /** `minValue`: the loop down the left spine. */
  method MinValue(root: Tree) returns (minv: int)
    requires root != Nil
    ensures minv == Leftmost(root)
    ensures minv in Keys(root)
    ensures IsBst(root) ==> forall k :: k in Keys(root) ==> minv <= k
  {
    var node := root;
    minv := node.data;
    while node.left != Nil
      invariant node != Nil && minv == node.data
      invariant Leftmost(node) == Leftmost(root)
      decreases node
    {
      minv := node.left.data;
      node := node.left;
    }
  }

  /** `deleteRec`: removes the node holding `data`. A node with at most one
      child is replaced by that child; a node with two children takes the
      minimum of its right subtree as its key, and that key is then deleted
      from the right subtree. */
  function DeleteRec(t: Tree, data: int): (r: Tree)
    ensures data !in Keys(t) ==> r == t
    ensures IsBst(t) ==> IsBst(r) && Keys(r) == Keys(t) - {data}
  {
    match t
    case Nil => Nil
    case Node(l, d, rt) =>
      if data < d then Node(DeleteRec(l, data), d, rt)
      else if data > d then Node(l, d, DeleteRec(rt, data))
      else if l == Nil then rt
      else if rt == Nil then l
      else
        var m := Leftmost(rt);
        Node(l, m, DeleteRec(rt, m))
  }

  /** Deleting the key of a node with two children puts its in-order
      successor in its place: the smallest key of the tree above it. */
  lemma DeleteUsesSuccessor(t: Tree)
    requires IsBst(t) && t != Nil && t.left != Nil && t.right != Nil
    ensures DeleteRec(t, t.data) != Nil
    ensures DeleteRec(t, t.data).data in Keys(t) && t.data < DeleteRec(t, t.data).data
    ensures forall k :: k in Keys(t) && t.data < k ==> DeleteRec(t, t.data).data <= k
  {
    var m := Leftmost(t.right);
    assert DeleteRec(t, t.data) == Node(t.left, m, DeleteRec(t.right, m));
    forall k | k in Keys(t) && t.data < k
      ensures m <= k
    {
      assert k !in Keys(t.left);
    }
  }

  /** In-order: left subtree, root, right subtree; it visits exactly the keys. */
  function Inorder(t: Tree): (s: seq<int>)
    ensures forall x :: x in s <==> x in Keys(t)
  {
    match t
    case Nil => []
    case Node(l, d, r) => Inorder(l) + [d] + Inorder(r)
  }

  /** Pre-order: the root first. */
  function Preorder(t: Tree): (s: seq<int>)
    ensures t != Nil ==> |s| > 0 && s[0] == t.data
  {
    match t
    case Nil => []
    case Node(l, d, r) => [d] + Preorder(l) + Preorder(r)
  }

  /** Post-order: the root last. */
  function Postorder(t: Tree): (s: seq<int>)
    ensures t != Nil ==> |s| > 0 && s[|s| - 1] == t.data
  {
    match t
    case Nil => []
    case Node(l, d, r) => Postorder(l) + Postorder(r) + [d]
  }

  predicate StrictlyAscending(s: seq<int>) {
    forall i, j :: 0 <= i < j < |s| ==> s[i] < s[j]
  }

  /** The in-order traversal visits exactly the keys, and of a search tree in
      strictly ascending order. */
  lemma {:induction false} InorderSorted(t: Tree)
    ensures forall k :: k in Inorder(t) <==> k in Keys(t)
    ensures IsBst(t) ==> StrictlyAscending(Inorder(t))
  {
    match t
    case Nil =>
    case Node(l, d, r) =>
      InorderSorted(l);
      InorderSorted(r);
      var s := Inorder(t);
      if IsBst(t) {
        forall i, j | 0 <= i < j < |s|
          ensures s[i] < s[j]
        {
          var nl := |Inorder(l)|;
          if j < nl || i > nl {
          } else {
            assert i < nl ==> s[i] in Inorder(l);
            assert j > nl ==> s[j] in Inorder(r);
          }
        }
      }
  }

  /** The three traversals visit the same nodes, each exactly once. */
  lemma {:induction false} TraversalsAgree(t: Tree)
    ensures multiset(Preorder(t)) == multiset(Inorder(t))
    ensures multiset(Postorder(t)) == multiset(Inorder(t))
  {
    match t
    case Nil =>
    case Node(l, d, r) =>
      TraversalsAgree(l);
      TraversalsAgree(r);
      assert multiset(Preorder(t)) == multiset{d} + multiset(Preorder(l)) + multiset(Preorder(r));
      assert multiset(Inorder(t)) == multiset(Inorder(l)) + multiset{d} + multiset(Inorder(r));
      assert multiset(Postorder(t)) == multiset(Postorder(l)) + multiset(Postorder(r)) + multiset{d};
  }

  /** The tree object of the demo: its root, updated through `insert`. */
  class BST {
    var root: Tree

    constructor ()
      ensures root == Nil
    {
      root := Nil;
    }

    /** `insert`: `root = insertRec(root, data)`. */
    method Insert(data: int)
      modifies this
      ensures root == InsertRec(old(root), data)
      ensures Keys(root) == Keys(old(root)) + {data}
      ensures IsBst(old(root)) ==> IsBst(root)
    {
      root := InsertRec(root, data);
    }
  }

  function Leaf(x: int): Tree {
    Node(Nil, x, Nil)
  }

  /** The first three insertions of `main`. */
  lemma DemoFirstInserts()
    ensures InsertRec(InsertRec(InsertRec(Nil, 50), 30), 70) == Node(Leaf(30), 50, Leaf(70))
  {
    assert InsertRec(Nil, 50) == Leaf(50);
    assert InsertRec(Leaf(50), 30) == Node(Leaf(30), 50, Nil);
  }

  /** Inserting 20 and 40 fills the left subtree. */
  lemma DemoLeftInserts()
    ensures InsertRec(InsertRec(Node(Leaf(30), 50, Leaf(70)), 20), 40)
      == Node(Node(Leaf(20), 30, Leaf(40)), 50, Leaf(70))
  {
    assert InsertRec(Leaf(30), 20) == Node(Leaf(20), 30, Nil);
    assert InsertRec(Node(Leaf(20), 30, Nil), 40) == Node(Leaf(20), 30, Leaf(40));
  }

  /** Inserting 60 and 80 fills the right subtree. */
  lemma DemoRightInserts()
    ensures InsertRec(InsertRec(Node(Node(Leaf(20), 30, Leaf(40)), 50, Leaf(70)), 60), 80)
      == Node(Node(Leaf(20), 30, Leaf(40)), 50, Node(Leaf(60), 70, Leaf(80)))
  {
    assert InsertRec(Leaf(70), 60) == Node(Leaf(60), 70, Nil);
    assert InsertRec(Node(Leaf(60), 70, Nil), 80) == Node(Leaf(60), 70, Leaf(80));
  }

  /** The in-order walk of the full tree. */
  lemma DemoInorder()
    ensures Inorder(Node(Node(Leaf(20), 30, Leaf(40)), 50, Node(Leaf(60), 70, Leaf(80))))
      == [20, 30, 40, 50, 60, 70, 80]
  {
    assert Inorder(Leaf(20)) == [20] && Inorder(Leaf(40)) == [40];
    assert Inorder(Leaf(60)) == [60] && Inorder(Leaf(80)) == [80];
    assert Inorder(Node(Leaf(20), 30, Leaf(40))) == [20, 30, 40];
    assert Inorder(Node(Leaf(60), 70, Leaf(80))) == [60, 70, 80];
  }

  /** Deleting the leaf 20 from the full tree. */
  lemma DemoDelete()
    ensures DeleteRec(Node(Node(Leaf(20), 30, Leaf(40)), 50, Node(Leaf(60), 70, Leaf(80))), 20)
      == Node(Node(Nil, 30, Leaf(40)), 50, Node(Leaf(60), 70, Leaf(80)))
  {
    assert DeleteRec(Leaf(20), 20) == Nil;
    assert DeleteRec(Node(Leaf(20), 30, Leaf(40)), 20) == Node(Nil, 30, Leaf(40));
  }

  /** The in-order walk after the deletion. */
  lemma DemoInorderAfterDelete()
    ensures Inorder(Node(Node(Nil, 30, Leaf(40)), 50, Node(Leaf(60), 70, Leaf(80))))
      == [30, 40, 50, 60, 70, 80]
  {
    assert Inorder(Leaf(40)) == [40];
    assert Inorder(Leaf(60)) == [60] && Inorder(Leaf(80)) == [80];
    assert Inorder(Node(Leaf(60), 70, Leaf(80))) == [60, 70, 80];
    assert Inorder(Node(Nil, 30, Leaf(40))) == [30, 40];
  }

  /** The run in `main`: seven insertions, then deleting 20. */
  method DemoRun() returns (before: seq<int>, after: seq<int>)
    ensures before == [20, 30, 40, 50, 60, 70, 80]
    ensures after == [30, 40, 50, 60, 70, 80]
  {
    DemoFirstInserts();
    DemoLeftInserts();
    DemoRightInserts();
    DemoInorder();
    DemoDelete();
    DemoInorderAfterDelete();
    var tree := new BST();
    tree.Insert(50);
    tree.Insert(30);
    tree.Insert(70);
    tree.Insert(20);
    tree.Insert(40);
    tree.Insert(60);
    tree.Insert(80);
    before := Inorder(tree.root);
    tree.root := DeleteRec(tree.root, 20);
    after := Inorder(tree.root);
  }
}

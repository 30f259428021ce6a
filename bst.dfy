/**
 * The `BinarySearchTree` bucket: nodes linked by `left`, `right` and
 * `parent`, ordered by key. The ghost field `T` is the tree the links
 * describe; `Valid` ties every node's four fields to that tree, and the
 * operations are proved against `Search`, `InsertTree` and `DeleteTree`.
 */
module BinarySearchTrees {
  import opened Base
  import opened ChainSpec
  import opened BstTrees

  /** Node n holds exactly the links k. */
  ghost predicate Mirrors<V>(n: BSTNode<V>, k: Link<V>)
    reads n
  {
    n.data == k.data && n.left == k.left && n.right == k.right && n.parent == k.parent
  }

  class BinarySearchTree<V> {
    var root: BSTNode?<V>
    var count: int
    ghost var T: Tree<V>
    ghost var Repr: set<object>

    /** Every node of `T` is in `Repr`, occurs once, and holds the links
        `T` gives it; `root` is the root of `T`. */
    ghost predicate Linked()
      reads this, Repr
    {
      && this in Repr
      && (forall n :: n in NodesOf(T) ==> n in Repr)
      && Unique(T)
      && root == RootOf(T)
      && (forall n :: n in NodesOf(T) ==> Mirrors(n, LinkOf(T, null, n)))
    }

    ghost predicate Valid()
      reads this, Repr
    {
      Linked() && Ordered(T) && count == |Inorder(T)|
    }

    /** The entries in key order: what iterating the tree yields. */
    ghost function Contents(): seq<HashEntry<int, V>>
      reads this
    {
      Inorder(T)
    }

    constructor ()
      ensures Valid() && fresh(Repr) && Contents() == []
    {
      root, count := null, 0;
      T := Nil;
      Repr := {this};
    }

    /** `__len__`. */
    function Length(): (n: int)
      reads this, Repr
      requires Valid()
      ensures n == |Contents()|
    {
      count
    }

    lemma SortedContents()
      requires Valid()
      ensures Sorted(Contents())
    {
      OrderedSorted(T);
    }

    /** The node at the end of a path carries the links the tree gives it. */
    lemma NodeAt(p: seq<Dir>)
      requires Linked() && ValidPath(T, p) && Subtree(T, p).Node?
      ensures Subtree(T, p).node in NodesOf(T)
      ensures Mirrors(Subtree(T, p).node, Link(Subtree(T, p).entry, RootOf(Subtree(T, p).left),
                                               RootOf(Subtree(T, p).right), ParentOf(T, p, null)))
    {
      LinkInSub(T, null, p, Subtree(T, p).node);
    }

    /** `inorder_traversal` from the node at the end of path p. */
    method InorderTraversal(node: BSTNode?<V>, ghost p: seq<Dir>) returns (s: seq<HashEntry<int, V>>)
      requires Valid() && ValidPath(T, p) && node == RootOf(Subtree(T, p))
      ensures s == Inorder(Subtree(T, p))
      decreases Subtree(T, p)
    {
      if node == null {
        return [];
      }
      NodeAt(p);
      SubtreeSnoc(T, p, L, null);
      SubtreeSnoc(T, p, R, null);
      var ls := InorderTraversal(node.left, p + [L]);
      var rs := InorderTraversal(node.right, p + [R]);
      s := ls + [node.data] + rs;
    }

    /** `__iter__`: the entries in ascending key order. */
    method Items() returns (s: seq<HashEntry<int, V>>)
      requires Valid()
      ensures s == Contents() && Sorted(s)
    {
      SortedContents();
      s := InorderTraversal(root, []);
    }

    /** `find_node`: walk down by key from the root; KeyError at a missing
        child. */
    method FindNode(key: int) returns (r: Result<BSTNode<V>>, ghost p: seq<Dir>)
      requires Valid()
      ensures ValidPath(T, p) && SearchPath(T, key, p)
      ensures r.Ok? <==> HasKey(Contents(), key)
      ensures r.Err? ==> r.error == KeyError
      ensures r.Ok? ==> Subtree(T, p).Node? && r.value == Subtree(T, p).node && Subtree(T, p).entry.key == key
    {
      var current := root;
      p := [];
      while current != null && !IsSame(current.data.key, key)
        invariant ValidPath(T, p) && SearchPath(T, key, p) && current == RootOf(Subtree(T, p))
        decreases Subtree(T, p)
      {
        NodeAt(p);
        SearchPathSnoc(T, key, p);
        if key < current.data.key {
          SubtreeSnoc(T, p, L, null);
          current, p := current.left, p + [L];
        } else {
          SubtreeSnoc(T, p, R, null);
          current, p := current.right, p + [R];
        }
      }
      HasKeyIff(T, key);
      SearchAlong(T, key, p);
      SearchSpec(T, key);
      if current == null {
        return Err(KeyError), p;
      }
      NodeAt(p);
      r := Ok(current);
    }

    /** `find`: the entry the search reaches, or KeyError. */
    method Find(key: int) returns (r: Result<HashEntry<int, V>>)
      requires Valid()
      ensures r == Lookup(Contents(), key)
    {
      var n, p := FindNode(key);
      if n.Err? {
        return Err(KeyError);
      }
      NodeAt(p);
      LookupAt(T, p);
      r := Ok(n.value.data);
    }

    /** `insert`: walk down by key; overwrite the entry of the node with the
        same key, or hang the new node where the walk runs out. */
    method Insert(item: HashEntry<int, V>)
      requires Valid()
      modifies Repr
      ensures Valid() && fresh(Repr - old(Repr))
      ensures Contents() == InsertSorted(old(Contents()), item)
      ensures exists n: BSTNode<V> :: T == InsertTree(old(T), n, item)
    {
      var newNode := new BSTNode(item);
      if root == null {
        root := newNode;
        count := count + 1;
        T := Node(Nil, newNode, item, Nil);
        Repr := Repr + {newNode};
        assert T == InsertTree(old(T), newNode, item);
        return;
      }
      var current := root;
      ghost var p: seq<Dir> := [];
      while !IsSame(item.key, current.data.key) &&
            (if item.key < current.data.key then current.left else current.right) != null
        invariant ValidPath(T, p) && SearchPath(T, item.key, p)
        invariant Subtree(T, p).Node? && current == Subtree(T, p).node
        modifies {}
        decreases Subtree(T, p)
      {
        NodeAt(p);
        SearchPathSnoc(T, item.key, p);
        if item.key < current.data.key {
          SubtreeSnoc(T, p, L, null);
          current, p := current.left, p + [L];
        } else {
          SubtreeSnoc(T, p, R, null);
          current, p := current.right, p + [R];
        }
      }
      ghost var t0 := T;
      NodeAt(p);
      if IsSame(item.key, current.data.key) {
        InsertFound(t0, newNode, item, p);
        SetEntry(current, p, item);
        assert T == InsertTree(t0, newNode, item);
      } else {
        var d := if item.key < current.data.key then L else R;
        InsertLeaf(t0, newNode, item, p);
        AttachLeaf(current, p, d, newNode);
        assert T == InsertTree(t0, newNode, item);
      }
    }

    /** The write `insert` does when the key is already present, and the
        last step of the two-children case of `delete`. */
    method SetEntry(node: BSTNode<V>, ghost p: seq<Dir>, e: HashEntry<int, V>)
      requires Linked() && ValidPath(T, p) && Subtree(T, p).Node? && node == Subtree(T, p).node
      modifies node, this
      ensures Linked() && Repr == old(Repr) && count == old(count) && NodesOf(T) == old(NodesOf(T))
      ensures T == ReplaceAt(old(T), p, old(Subtree(T, p)).(entry := e))
      ensures forall n: BSTNode<V> :: old(allocated(n)) && n != node ==> n.data == old(n.data)
    {
      ghost var t0 := T;
      NodeAt(p);
      node.data := e;
      T := ReplaceAt(t0, p, Subtree(t0, p).(entry := e));
      LinkSetEntry(t0, null, p, e, node);
      forall n | n in NodesOf(T)
        ensures n in Repr && Mirrors(n, LinkOf(T, null, n))
      {
        LinkSetEntry(t0, null, p, e, n);
      }
      if p != [] {
        assert RootOf(T) == RootOf(t0);
      }
    }

    /** The writes `insert` does when the walk runs out: the new node
        becomes child d of the node at p. */
    method AttachLeaf(current: BSTNode<V>, ghost p: seq<Dir>, d: Dir, newNode: BSTNode<V>)
      requires Linked() && ValidPath(T, p) && Subtree(T, p).Node? && current == Subtree(T, p).node
      requires Child(Subtree(T, p), d).Nil?
      requires newNode !in Repr && newNode.left == null && newNode.right == null
      modifies current, newNode, this
      ensures Linked() && Repr == old(Repr) + {newNode} && count == old(count) + 1
      ensures ValidPath(old(T), p + [d])
      ensures T == ReplaceAt(old(T), p + [d], Node(Nil, newNode, newNode.data, Nil))
      ensures newNode.data == old(newNode.data)
    {
      ghost var t0 := T;
      ghost var x := Node(Nil, newNode, newNode.data, Nil);
      NodeAt(p);
      SubtreeSnoc(t0, p, d, null);
      assert newNode !in NodesOf(t0);
      assert NodesOf(x) == {newNode} && Unique(x);
      NodesReplace(t0, p + [d], x);
      label L0:
      if d == L {
        current.left := newNode;
      } else {
        current.right := newNode;
      }
      newNode.parent := current;
      count := count + 1;
      T := ReplaceAt(t0, p + [d], x);
      Repr := Repr + {newNode};
      forall n | n in NodesOf(T)
        ensures n in Repr && Mirrors(n, LinkOf(T, null, n))
      {
        if n == newNode {
          LinkReplaceInside(t0, null, p + [d], x, n);
        } else {
          LinkReplaceOutside(t0, null, p + [d], x, n);
          assert old@L0(Mirrors(n, LinkOf(t0, null, n)));
        }
      }
      if p != [] {
        assert RootOf(T) == RootOf(t0);
      }
    }

    /** `delete`: find the node holding the key (KeyError if none) and
        remove it. */
    method Delete(key: int) returns (r: Result<()>)
      requires Valid()
      modifies Repr
      ensures Valid() && Repr == old(Repr)
      ensures r.Ok? <==> HasKey(old(Contents()), key)
      ensures r.Err? ==> r.error == KeyError
      ensures Contents() == RemoveKey(old(Contents()), key)
      ensures T == DeleteTree(old(T), key)
      ensures forall n :: n in old(NodesOf(T)) && n !in NodesOf(T) ==> n.data == old(n.data)
      decreases if TwoChildren(Search(T, key)) then 1 else 0, 2
    {
      var f, p := FindNode(key);
      if f.Err? {
        DeleteMissing(T, key);
        return Err(KeyError);
      }
      DeleteFound(T, key, p);
      SearchAlong(T, key, p);
      DeleteNode(f.value, p);
      r := Ok(());
    }

    /** The body of `delete` once the node is found: with at most one child
        the node is replaced by it. */
    method DeleteNode(node: BSTNode<V>, ghost p: seq<Dir>)
      requires Valid() && ValidPath(T, p) && Subtree(T, p).Node? && node == Subtree(T, p).node
      requires SearchPath(T, Subtree(T, p).entry.key, p)
      modifies Repr
      ensures Valid() && Repr == old(Repr)
      ensures T == DeleteTree(old(T), old(Subtree(T, p)).entry.key)
      ensures forall n :: n in old(NodesOf(T)) && n !in NodesOf(T) ==> n.data == old(n.data)
      decreases if TwoChildren(Subtree(T, p)) then 1 else 0, 1
    {
      ghost var t0, key := T, Subtree(T, p).entry.key;
      NodeAt(p);
      DeleteFound(t0, key, p);
      if node.left == null && node.right == null {
        ReassignNodes(node, null, p);
      } else if node.left == null {
        ReassignNodes(node, node.right, p);
      } else if node.right == null {
        ReassignNodes(node, node.left, p);
      } else {
        DeleteWithTwoChildren(node, p);
      }
    }

    /** With two children, the largest entry on the node's left is deleted
        (by key, recursively) and moved into the node. */
    method DeleteWithTwoChildren(node: BSTNode<V>, ghost p: seq<Dir>)
      requires Valid() && ValidPath(T, p) && Subtree(T, p).Node? && node == Subtree(T, p).node
      requires SearchPath(T, Subtree(T, p).entry.key, p) && TwoChildren(Subtree(T, p))
      modifies Repr
      ensures Valid() && Repr == old(Repr)
      ensures T == DeleteTree(old(T), old(Subtree(T, p)).entry.key)
      ensures forall n :: n in old(NodesOf(T)) && n !in NodesOf(T) ==> n.data == old(n.data)
      decreases 1, 0
    {
      ghost var t0, key := T, Subtree(T, p).entry.key;
      NodeAt(p);
      DeleteFound(t0, key, p);
      SubtreeSnoc(t0, p, L, null);
      var temp, q := FindBiggestNode(node.left, p + [L]);
      ghost var me := Subtree(t0, q).entry;
      DeletePredecessor(t0, key, p, q);
      ghost var t1 := DeleteTree(t0, me.key);
      NodeAt(q);
      assert temp in NodesOf(t0) && temp !in NodesOf(t1);
      label Found:
      var _ := Delete(temp.data.key);
      assert T == t1 && temp.data == me;
      NodeAt(p);
      ghost var nodes1 := NodesOf(T);
      assert node in nodes1;
      label Moved:
      SetEntry(node, p, temp.data);
      assert T == DeleteTree(t0, key);
      assert Ordered(T) && count == |Inorder(T)|;
      forall n | n in NodesOf(t0) && n !in NodesOf(T)
        ensures n.data == old(n.data)
      {
        assert n !in nodes1 && old@Moved(allocated(n));
        assert n.data == old@Moved(n.data);
        assert old@Moved(n.data) == old@Found(n.data);
      }
    }

    /** Which fields of the tree's nodes already hold the links they must
        have once the node at p (with at most one child) is removed: all of
        them but the child's parent and the parent's link on that side. */
    lemma Relinked(p: seq<Dir>, t1: Tree<V>, node: BSTNode<V>, child: BSTNode?<V>, par: BSTNode?<V>, right: bool)
      requires Linked() && ValidPath(T, p) && Subtree(T, p).Node? && node == Subtree(T, p).node
      requires !TwoChildren(Subtree(T, p)) && child == RootOf(DeleteRoot(Subtree(T, p)))
      requires t1 == ReplaceAt(T, p, DeleteRoot(Subtree(T, p)))
      requires par == node.parent && right == (p != [] && p[|p| - 1] == R)
      ensures par == null <==> p == []
      ensures par != null ==> par in NodesOf(T) && par != child
      ensures child != null ==> child in NodesOf(T)
      ensures Unique(t1) && RootOf(t1) == if p == [] then child else RootOf(T)
      ensures forall n {:trigger LinkOf(t1, null, n)} :: n in NodesOf(t1) ==>
          && n in Repr && n.data == LinkOf(t1, null, n).data
          && (n != child ==> n.parent == LinkOf(t1, null, n).parent)
          && (n == child ==> LinkOf(t1, null, n).parent == par)
          && (n != par ==> n.left == LinkOf(t1, null, n).left && n.right == LinkOf(t1, null, n).right)
          && (n == par && right ==> n.left == LinkOf(t1, null, n).left && LinkOf(t1, null, n).right == child)
          && (n == par && !right ==> n.right == LinkOf(t1, null, n).right && LinkOf(t1, null, n).left == child)
    {
      NodeAt(p);
      RemoveNodes(T, p);
      if p != [] {
        ParentInside(T, p, null);
      }
      forall n | n in NodesOf(t1) {
        RemoveLinks(T, p, n);
      }
    }

    /** `reassign_nodes`: `child` (null, or the one child of `node`) takes
        the place of `node` below its parent, or becomes the root. */
    method ReassignNodes(node: BSTNode<V>, child: BSTNode?<V>, ghost p: seq<Dir>)
      requires Linked() && Ordered(T) && ValidPath(T, p) && Subtree(T, p).Node? && node == Subtree(T, p).node
      requires !TwoChildren(Subtree(T, p)) && child == RootOf(DeleteRoot(Subtree(T, p)))
      modifies this, NodesOf(T)`left, NodesOf(T)`right, NodesOf(T)`parent
      ensures Linked() && Repr == old(Repr) && count == old(count) - 1
      ensures T == ReplaceAt(old(T), p, DeleteRoot(old(Subtree(T, p))))
    {
      ghost var t0 := T;
      NodeAt(p);
      ghost var par, t1 := node.parent, ReplaceAt(t0, p, DeleteRoot(Subtree(t0, p)));
      ghost var right := p != [] && p[|p| - 1] == R;
      if p != [] {
        IsRightChildSpec(p);
      }
      Relinked(p, t1, node, child, par, right);
      label L0:
      if child != null {
        child.parent := node.parent;
      }
      if node.parent != null {
        if IsRightChild(node) {
          node.parent.right := child;
        } else {
          node.parent.left := child;
        }
      } else {
        root := child;
      }
      count := count - 1;
      T := t1;
      forall n | n in NodesOf(T)
        ensures n in Repr && Mirrors(n, LinkOf(T, null, n))
      {
        ghost var k := LinkOf(t1, null, n);
        assert n in Repr && old@L0(allocated(n));
        assert n.data == old@L0(n.data) == k.data;
        if n == child {
          assert n.parent == par == k.parent;
        } else {
          assert n.parent == old@L0(n.parent) == k.parent;
        }
        if n != par {
          assert n.left == old@L0(n.left) == k.left && n.right == old@L0(n.right) == k.right;
        } else if right {
          assert n.left == old@L0(n.left) == k.left && n.right == child == k.right;
        } else {
          assert n.right == old@L0(n.right) == k.right && n.left == child == k.left;
        }
      }
    }

    /** `append_at_end` delegates to `insert`. */
    method AppendAtEnd(item: HashEntry<int, V>)
      requires Valid()
      modifies Repr
      ensures Valid() && fresh(Repr - old(Repr))
      ensures Contents() == InsertSorted(old(Contents()), item)
    {
      Insert(item);
    }

    /** `is_right_child`: the node's parent has a right child with the same
        key. */
    function IsRightChild(node: BSTNode<V>): bool
      reads node`parent, node`data, node.parent`right
      reads (if node.parent.right != null then {node.parent.right} else {})`data
      requires node.parent != null
    {
      node.parent.right != null && IsSame(node.parent.right.data.key, node.data.key)
    }

    /** In a valid tree `is_right_child` tells which way the last step of
        the node's path went. */
    lemma IsRightChildSpec(p: seq<Dir>)
      requires Linked() && Ordered(T) && ValidPath(T, p) && Subtree(T, p).Node? && p != []
      ensures Subtree(T, p).node.parent != null
      ensures IsRightChild(Subtree(T, p).node) <==> p[|p| - 1] == R
    {
      var q, d := p[..|p| - 1], p[|p| - 1];
      assert p == q + [d];
      SubtreeUnsnoc(T, q, d);
      var P := Subtree(T, q);
      SubtreeSnoc(T, q, d, null);
      SubtreeSnoc(T, q, R, null);
      NodeAt(p);
      NodeAt(q);
      if d == L && P.right.Node? {
        NodeAt(q + [R]);
        KeysSub(T, q);
      }
    }

    /** `find_biggest_node`: follow `right` links to the largest entry of the
        subtree at p. */
    method FindBiggestNode(node: BSTNode<V>, ghost p: seq<Dir>) returns (m: BSTNode<V>, ghost q: seq<Dir>)
      requires Valid() && ValidPath(T, p) && Subtree(T, p).Node? && node == Subtree(T, p).node
      ensures ValidPath(T, q) && Subtree(T, q).Node? && m == Subtree(T, q).node
      ensures Subtree(T, q).right.Nil? && Subtree(T, q).entry == MaxEntry(Subtree(T, p))
      ensures m.right == null && m.data == Subtree(T, q).entry
    {
      m, q := node, p;
      NodeAt(q);
      while m.right != null
        invariant ValidPath(T, q) && Subtree(T, q).Node? && m == Subtree(T, q).node
        invariant MaxEntry(Subtree(T, p)) == MaxEntry(Subtree(T, q))
        decreases Subtree(T, q)
      {
        NodeAt(q);
        SubtreeSnoc(T, q, R, null);
        m, q := m.right, q + [R];
      }
      NodeAt(q);
    }
  }

  /** Keys 5, 3, 8, 1, 4, 7, 9 inserted, then 5 (a node with two children)
      deleted: iteration yields the other six keys in ascending order, and
      the root now holds 4, the largest key left of 5. */
  method DeleteScenario() returns (s: seq<HashEntry<int, int>>, top: HashEntry<int, int>)
    ensures s == [E(1), E(3), E(4), E(7), E(8), E(9)]
    ensures top == E(4)
  {
    var t := BuildScenario();
    RemoveStep();
    RootDelete(t.T);
    var r := t.Delete(5);
    t.NodeAt([]);
    top := t.root.data;
    s := t.Items();
  }

  /** A tree's entries node by node, without the node references: the
      shape the scenario's inserts give. */
  datatype Shape = Leaf | Fork(left: Shape, key: int, right: Shape)

  ghost predicate Shaped(t: Tree<int>, s: Shape)
  {
    match s
    case Leaf => t.Nil?
    case Fork(l, k, r) => t.Node? && t.entry == E(k) && Shaped(t.left, l) && Shaped(t.right, r)
  }

  /** `insert` of E(k) on a shape. */
  function ShapeInsert(s: Shape, k: int): Shape
  {
    match s
    case Leaf => Fork(Leaf, k, Leaf)
    case Fork(l, m, r) =>
      if k == m then s
      else if k < m then Fork(ShapeInsert(l, k), m, r)
      else Fork(l, m, ShapeInsert(r, k))
  }

  lemma {:induction false} ShapedInsert(t: Tree<int>, n: BSTNode<int>, k: int, s: Shape)
    requires Shaped(t, s)
    ensures Shaped(InsertTree(t, n, E(k)), ShapeInsert(s, k))
  {
    match s
    case Leaf =>
    case Fork(l, m, r) =>
      if k < m {
        ShapedInsert(t.left, n, k, l);
      } else if k > m {
        ShapedInsert(t.right, n, k, r);
      }
  }

  /** What iterating a tree of that shape yields. */
  function ShapeInorder(s: Shape): seq<HashEntry<int, int>>
  {
    match s
    case Leaf => []
    case Fork(l, k, r) => ShapeInorder(l) + [E(k)] + ShapeInorder(r)
  }

  lemma {:induction false} ShapedInorder(t: Tree<int>, s: Shape)
    requires Shaped(t, s)
    ensures Inorder(t) == ShapeInorder(s)
  {
    match s
    case Leaf =>
    case Fork(l, k, r) =>
      ShapedInorder(t.left, l);
      ShapedInorder(t.right, r);
  }

  /** Deleting 5 from the scenario's tree: 4, the largest key on its left,
      takes its place, and 4's leaf goes. */
  lemma RootDelete(t: Tree<int>)
    requires Shaped(t, Full())
    ensures Shaped(DeleteTree(t, 5), Fork(Fork(Fork(Leaf, 1, Leaf), 3, Leaf), 4,
                                          Fork(Fork(Leaf, 7, Leaf), 8, Fork(Leaf, 9, Leaf))))
  {
    assert Shaped(t.left, Fork(Fork(Leaf, 1, Leaf), 3, Fork(Leaf, 4, Leaf)));
    var u := t.left.right;
    assert Shaped(u, Fork(Leaf, 4, Leaf));
    assert Shaped(u.left, Leaf) && Shaped(u.right, Leaf);
    assert MaxEntry(u) == E(4);
    assert MaxEntry(t.left) == E(4);
    assert DeleteTree(u, 4) == Nil;
    assert Shaped(t.left.left, Fork(Leaf, 1, Leaf));
    assert Shaped(DeleteTree(t.left, 4), Fork(Fork(Leaf, 1, Leaf), 3, Leaf));
    assert Shaped(t.right, Fork(Fork(Leaf, 7, Leaf), 8, Fork(Leaf, 9, Leaf)));
  }

  /** One insertion of the scenario, followed on the shape. */
  method InsertKey(t: BinarySearchTree<int>, k: int, ghost s: Shape)
    requires t.Valid() && Shaped(t.T, s)
    modifies t.Repr
    ensures t.Valid() && fresh(t.Repr - old(t.Repr))
    ensures Shaped(t.T, ShapeInsert(s, k))
  {
    ghost var t0 := t.T;
    t.Insert(E(k));
    ghost var n: BSTNode<int> :| t.T == InsertTree(t0, n, E(k));
    ShapedInsert(t0, n, k, s);
  }

  /** The tree of the scenario: keys 5, 3, 8, 1, 4, 7, 9 inserted in turn. */
  method BuildScenario() returns (t: BinarySearchTree<int>)
    ensures fresh(t) && t.Valid() && fresh(t.Repr)
    ensures t.Contents() == [E(1), E(3), E(4), E(5), E(7), E(8), E(9)]
    ensures Shaped(t.T, Full())
  {
    t := new BinarySearchTree<int>();
    assert t.T.Nil?;
    InsertFirst(t);
    InsertMiddle(t);
    InsertLast(t);
    ShapedInorder(t.T, Full());
    FullInorder();
  }

  /** The shape after all seven insertions: 5 at the root, 3 and 8 below it. */
  function Full(): Shape
  {
    Fork(Fork(Fork(Leaf, 1, Leaf), 3, Fork(Leaf, 4, Leaf)), 5, Fork(Fork(Leaf, 7, Leaf), 8, Fork(Leaf, 9, Leaf)))
  }

  lemma FullInorder()
    ensures ShapeInorder(Full()) == [E(1), E(3), E(4), E(5), E(7), E(8), E(9)]
  {
  }

  method InsertFirst(t: BinarySearchTree<int>)
    requires t.Valid() && t.T.Nil?
    modifies t.Repr
    ensures t.Valid() && fresh(t.Repr - old(t.Repr))
    ensures Shaped(t.T, Fork(Fork(Leaf, 3, Leaf), 5, Leaf))
  {
    InsertKey(t, 5, Leaf);
    InsertKey(t, 3, Fork(Leaf, 5, Leaf));
  }

  method InsertMiddle(t: BinarySearchTree<int>)
    requires t.Valid() && Shaped(t.T, Fork(Fork(Leaf, 3, Leaf), 5, Leaf))
    modifies t.Repr
    ensures t.Valid() && fresh(t.Repr - old(t.Repr))
    ensures Shaped(t.T, Fork(Fork(Fork(Leaf, 1, Leaf), 3, Leaf), 5, Fork(Leaf, 8, Leaf)))
  {
    InsertKey(t, 8, Fork(Fork(Leaf, 3, Leaf), 5, Leaf));
    InsertKey(t, 1, Fork(Fork(Leaf, 3, Leaf), 5, Fork(Leaf, 8, Leaf)));
  }

  method InsertLast(t: BinarySearchTree<int>)
    requires t.Valid() && Shaped(t.T, Fork(Fork(Fork(Leaf, 1, Leaf), 3, Leaf), 5, Fork(Leaf, 8, Leaf)))
    modifies t.Repr
    ensures t.Valid() && fresh(t.Repr - old(t.Repr))
    ensures Shaped(t.T, Full())
  {
    InsertKey(t, 4, Fork(Fork(Fork(Leaf, 1, Leaf), 3, Leaf), 5, Fork(Leaf, 8, Leaf)));
    InsertKey(t, 7, Fork(Fork(Fork(Leaf, 1, Leaf), 3, Fork(Leaf, 4, Leaf)), 5, Fork(Leaf, 8, Leaf)));
    InsertKey(t, 9, Fork(Fork(Fork(Leaf, 1, Leaf), 3, Fork(Leaf, 4, Leaf)), 5,
                         Fork(Fork(Leaf, 7, Leaf), 8, Leaf)));
  }

  function E(k: int): HashEntry<int, int>
  {
    HashEntry(k, k, k)
  }

  /** Deleting 5 drops the fourth entry. */
  lemma RemoveStep()
    ensures RemoveKey([E(1), E(3), E(4), E(5), E(7), E(8), E(9)], 5) == [E(1), E(3), E(4), E(7), E(8), E(9)]
  {
    var a := [E(1), E(3), E(4), E(5), E(7), E(8), E(9)];
    IndexOfIs(a, 5, 3);
    assert a[..3] + a[4..] == [E(1), E(3), E(4), E(7), E(8), E(9)];
  }
}

/**
 * The ghost picture of the `BinarySearchTree` bucket: a tree of node objects
 * with the entry each node holds, paths into it, and the pure counterparts
 * of `find_node`, `insert` and `delete` (`Search`, `InsertTree`,
 * `DeleteTree`) with their effect on the in-order sequence of entries.
 */
module BstTrees {
  import opened Base
  import opened ChainSpec

  class BSTNode<V> {
    var data: HashEntry<int, V>
    var left: BSTNode?<V>
    var right: BSTNode?<V>
    var parent: BSTNode?<V>

    constructor (data: HashEntry<int, V>)
      ensures this.data == data && left == null && right == null && parent == null
    {
      this.data := data;
      left, right, parent := null, null, null;
    }
  }

  datatype Dir = L | R

  datatype Tree<V> = Nil | Node(left: Tree<V>, node: BSTNode<V>, entry: HashEntry<int, V>, right: Tree<V>)

  /** The four fields a node ought to hold. */
  datatype Link<V> = Link(data: HashEntry<int, V>, left: BSTNode?<V>, right: BSTNode?<V>, parent: BSTNode?<V>)

  function RootOf<V>(t: Tree<V>): BSTNode?<V>
  {
    if t.Nil? then null else t.node
  }

  ghost function NodesOf<V>(t: Tree<V>): set<BSTNode<V>>
  {
    match t
    case Nil => {}
    case Node(l, n, _, r) => NodesOf(l) + {n} + NodesOf(r)
  }

  ghost function KeysOf<V>(t: Tree<V>): set<int>
  {
    match t
    case Nil => {}
    case Node(l, _, e, r) => KeysOf(l) + {e.key} + KeysOf(r)
  }

  /** What `inorder_traversal` yields. */
  ghost function Inorder<V>(t: Tree<V>): seq<HashEntry<int, V>>
  {
    match t
    case Nil => []
    case Node(l, _, e, r) => Inorder(l) + [e] + Inorder(r)
  }

  /** No node object occurs twice. */
  ghost predicate Unique<V>(t: Tree<V>)
  {
    match t
    case Nil => true
    case Node(l, n, _, r) =>
      n !in NodesOf(l) && n !in NodesOf(r) && NodesOf(l) !! NodesOf(r) && Unique(l) && Unique(r)
  }

  /** The search-tree order: smaller keys to the left, larger to the right. */
  ghost predicate Ordered<V>(t: Tree<V>)
  {
    match t
    case Nil => true
    case Node(l, _, e, r) =>
      && Ordered(l) && Ordered(r)
      && (forall k :: k in KeysOf(l) ==> k < e.key)
      && (forall k :: k in KeysOf(r) ==> e.key < k)
  }

  ghost function Child<V>(t: Tree<V>, d: Dir): Tree<V>
    requires t.Node?
  {
    if d == L then t.left else t.right
  }

  ghost function WithChild<V>(t: Tree<V>, d: Dir, c: Tree<V>): Tree<V>
    requires t.Node?
  {
    if d == L then t.(left := c) else t.(right := c)
  }

  function SetChild<V>(k: Link<V>, d: Dir, c: BSTNode?<V>): Link<V>
  {
    if d == L then k.(left := c) else k.(right := c)
  }

  ghost predicate ValidPath<V>(t: Tree<V>, p: seq<Dir>)
    decreases |p|
  {
    p == [] || (t.Node? && ValidPath(Child(t, p[0]), p[1..]))
  }

  ghost function Subtree<V>(t: Tree<V>, p: seq<Dir>): Tree<V>
    requires ValidPath(t, p)
    decreases |p|
  {
    if p == [] then t else Subtree(Child(t, p[0]), p[1..])
  }

  ghost function ReplaceAt<V>(t: Tree<V>, p: seq<Dir>, x: Tree<V>): Tree<V>
    requires ValidPath(t, p)
    decreases |p|
  {
    if p == [] then x else WithChild(t, p[0], ReplaceAt(Child(t, p[0]), p[1..], x))
  }

  /** The node above the end of path p (`par` for the empty path). */
  ghost function ParentOf<V>(t: Tree<V>, p: seq<Dir>, par: BSTNode?<V>): BSTNode?<V>
    requires ValidPath(t, p)
    decreases |p|
  {
    if p == [] then par else ParentOf(Child(t, p[0]), p[1..], t.node)
  }

  /** The links node n has in t when t hangs below `par`. */
  ghost function LinkOf<V>(t: Tree<V>, par: BSTNode?<V>, n: BSTNode<V>): Link<V>
    requires n in NodesOf(t)
    decreases t
  {
    if n == t.node then Link(t.entry, RootOf(t.left), RootOf(t.right), par)
    else if n in NodesOf(t.left) then LinkOf(t.left, t.node, n)
    else LinkOf(t.right, t.node, n)
  }

  /** The path `find_node` and `insert` follow towards `key`. */
  ghost predicate SearchPath<V>(t: Tree<V>, key: int, p: seq<Dir>)
    decreases |p|
  {
    p == [] ||
    (&& t.Node? && key != t.entry.key
     && p[0] == (if key < t.entry.key then L else R)
     && SearchPath(Child(t, p[0]), key, p[1..]))
  }

  /** `find_node`: the subtree whose root holds `key`, or Nil. */
  ghost function Search<V>(t: Tree<V>, key: int): Tree<V>
  {
    match t
    case Nil => Nil
    case Node(l, _, e, r) =>
      if key == e.key then t else if key < e.key then Search(l, key) else Search(r, key)
  }

  /** `insert` with the new node n. */
  ghost function InsertTree<V>(t: Tree<V>, n: BSTNode<V>, item: HashEntry<int, V>): Tree<V>
  {
    match t
    case Nil => Node(Nil, n, item, Nil)
    case Node(l, m, e, r) =>
      if item.key == e.key then Node(l, m, item, r)
      else if item.key < e.key then Node(InsertTree(l, n, item), m, e, r)
      else Node(l, m, e, InsertTree(r, n, item))
  }

  /** `find_biggest_node`: the rightmost entry. */
  ghost function MaxEntry<V>(t: Tree<V>): HashEntry<int, V>
    requires t.Node?
  {
    if t.right.Nil? then t.entry else MaxEntry(t.right)
  }

  /** `delete`. */
  ghost function DeleteTree<V>(t: Tree<V>, key: int): Tree<V>
    decreases t, 1
  {
    match t
    case Nil => Nil
    case Node(l, m, e, r) =>
      if key == e.key then DeleteRoot(t)
      else if key < e.key then Node(DeleteTree(l, key), m, e, r)
      else Node(l, m, e, DeleteTree(r, key))
  }

  /** The four cases of `delete` once the node is found: no child or only a
      right child (the right subtree takes its place), only a left child,
      or two children (the largest entry on the left is deleted and moved
      into the node). */
  ghost function DeleteRoot<V>(t: Tree<V>): Tree<V>
    requires t.Node?
    decreases t, 0
  {
    if t.left.Nil? then t.right
    else if t.right.Nil? then t.left
    else Node(DeleteTree(t.left, MaxEntry(t.left).key), t.node, MaxEntry(t.left), t.right)
  }

  ghost predicate TwoChildren<V>(t: Tree<V>)
  {
    t.Node? && t.left.Node? && t.right.Node?
  }

  // ---------------------------------------------------------------------
  // Paths

  lemma {:induction false} SubtreeSnoc<V>(t: Tree<V>, p: seq<Dir>, d: Dir, par: BSTNode?<V>)
    requires ValidPath(t, p) && Subtree(t, p).Node?
    ensures ValidPath(t, p + [d])
    ensures Subtree(t, p + [d]) == Child(Subtree(t, p), d)
    ensures ParentOf(t, p + [d], par) == Subtree(t, p).node
    decreases |p|
  {
    if p == [] {
      assert [d][1..] == [];
    } else {
      assert (p + [d])[1..] == p[1..] + [d];
      SubtreeSnoc(Child(t, p[0]), p[1..], d, t.node);
    }
  }

  lemma {:induction false} SubtreeUnsnoc<V>(t: Tree<V>, p: seq<Dir>, d: Dir)
    requires ValidPath(t, p + [d])
    ensures ValidPath(t, p) && Subtree(t, p).Node?
    decreases |p|
  {
    if p == [] {
      assert [d][1..] == [];
    } else {
      assert (p + [d])[1..] == p[1..] + [d];
      SubtreeUnsnoc(Child(t, p[0]), p[1..], d);
    }
  }

  lemma {:induction false} SearchPathSnoc<V>(t: Tree<V>, key: int, p: seq<Dir>)
    requires SearchPath(t, key, p) && ValidPath(t, p)
    requires Subtree(t, p).Node? && key != Subtree(t, p).entry.key
    ensures SearchPath(t, key, p + [if key < Subtree(t, p).entry.key then L else R])
    decreases |p|
  {
    var d := if key < Subtree(t, p).entry.key then L else R;
    if p == [] {
      assert [d][1..] == [];
    } else {
      assert (p + [d])[1..] == p[1..] + [d];
      SearchPathSnoc(Child(t, p[0]), key, p[1..]);
    }
  }

  lemma {:induction false} SearchPathValid<V>(t: Tree<V>, key: int, p: seq<Dir>)
    requires SearchPath(t, key, p)
    ensures ValidPath(t, p)
    decreases |p|
  {
    if p != [] {
      SearchPathValid(Child(t, p[0]), key, p[1..]);
    }
  }

  lemma {:induction false} ReplaceTwice<V>(t: Tree<V>, p: seq<Dir>, x: Tree<V>, y: Tree<V>)
    requires ValidPath(t, p)
    ensures ValidPath(ReplaceAt(t, p, x), p)
    ensures Subtree(ReplaceAt(t, p, x), p) == x
    ensures ReplaceAt(ReplaceAt(t, p, x), p, y) == ReplaceAt(t, p, y)
    decreases |p|
  {
    if p != [] {
      ReplaceTwice(Child(t, p[0]), p[1..], x, y);
    }
  }

  /** Replacing the subtree at p + [d] is replacing one child of the
      subtree at p. */
  lemma {:induction false} ReplaceSnoc<V>(t: Tree<V>, p: seq<Dir>, d: Dir, x: Tree<V>)
    requires ValidPath(t, p) && Subtree(t, p).Node?
    ensures ValidPath(t, p + [d])
    ensures ReplaceAt(t, p + [d], x) == ReplaceAt(t, p, WithChild(Subtree(t, p), d, x))
    decreases |p|
  {
    SubtreeSnoc(t, p, d, null);
    if p == [] {
      assert [d][1..] == [];
    } else {
      assert (p + [d])[1..] == p[1..] + [d];
      ReplaceSnoc(Child(t, p[0]), p[1..], d, x);
    }
  }

  // ---------------------------------------------------------------------
  // Node sets and links

  lemma {:induction false} NodesReplace<V>(t: Tree<V>, p: seq<Dir>, x: Tree<V>)
    requires Unique(t) && ValidPath(t, p)
    ensures NodesOf(Subtree(t, p)) <= NodesOf(t) && Unique(Subtree(t, p))
    ensures NodesOf(ReplaceAt(t, p, x)) == NodesOf(t) - NodesOf(Subtree(t, p)) + NodesOf(x)
    ensures Unique(x) && NodesOf(x) !! NodesOf(t) - NodesOf(Subtree(t, p)) ==> Unique(ReplaceAt(t, p, x))
    decreases |p|
  {
    if p != [] {
      NodesReplace(Child(t, p[0]), p[1..], x);
    }
  }

  /** A node's links within a subtree are its links in the whole tree. */
  lemma {:induction false} LinkInSub<V>(t: Tree<V>, par: BSTNode?<V>, p: seq<Dir>, n: BSTNode<V>)
    requires Unique(t) && ValidPath(t, p) && n in NodesOf(Subtree(t, p))
    ensures n in NodesOf(t)
    ensures LinkOf(t, par, n) == LinkOf(Subtree(t, p), ParentOf(t, p, par), n)
    decreases |p|
  {
    NodesReplace(t, p, Nil);
    if p != [] {
      NodesReplace(Child(t, p[0]), p[1..], Nil);
      LinkInSub(Child(t, p[0]), t.node, p[1..], n);
    }
  }

  /** Below the root, the parent a tree hangs from does not matter. */
  lemma LinkBelowRoot<V>(t: Tree<V>, par1: BSTNode?<V>, par2: BSTNode?<V>, n: BSTNode<V>)
    requires n in NodesOf(t) && n != t.node
    ensures LinkOf(t, par1, n) == LinkOf(t, par2, n)
  {
  }

  /** Links of the nodes outside the replaced subtree: only the node above
      it sees a new child. */
  lemma {:induction false} LinkReplaceOutside<V>(t: Tree<V>, par: BSTNode?<V>, p: seq<Dir>, x: Tree<V>, n: BSTNode<V>)
    requires Unique(t) && ValidPath(t, p)
    requires NodesOf(x) !! NodesOf(t) - NodesOf(Subtree(t, p))
    requires n in NodesOf(t) - NodesOf(Subtree(t, p))
    ensures n in NodesOf(ReplaceAt(t, p, x))
    ensures LinkOf(ReplaceAt(t, p, x), par, n) ==
      if p != [] && n == ParentOf(t, p, par) then SetChild(LinkOf(t, par, n), p[|p| - 1], RootOf(x))
      else LinkOf(t, par, n)
    decreases |p|
  {
    NodesReplace(t, p, x);
    var d, q := p[0], p[1..];
    var c := Child(t, d);
    NodesReplace(c, q, x);
    if q != [] {
      NodesReplace(c, q, Nil);
      ParentInside(c, q, t.node);
      assert p[|p| - 1] == q[|q| - 1];
    }
    if n != t.node {
      assert n in NodesOf(c) - NodesOf(Subtree(c, q)) || n in NodesOf(Child(t, if d == L then R else L));
      if n in NodesOf(c) {
        LinkReplaceOutside(c, t.node, q, x, n);
      }
    }
  }

  /** The node above a non-empty path lies in the tree, outside the subtree
      at the end of the path. */
  lemma {:induction false} ParentInside<V>(t: Tree<V>, p: seq<Dir>, par: BSTNode?<V>)
    requires Unique(t) && ValidPath(t, p) && p != []
    ensures ParentOf(t, p, par) in NodesOf(t) - NodesOf(Subtree(t, p))
    decreases |p|
  {
    var c := Child(t, p[0]);
    NodesReplace(c, p[1..], Nil);
    if p[1..] != [] {
      ParentInside(c, p[1..], t.node);
    }
  }

  /** Links of the nodes of the new subtree: as in that subtree hung below
      the node above the path. */
  lemma {:induction false} LinkReplaceInside<V>(t: Tree<V>, par: BSTNode?<V>, p: seq<Dir>, x: Tree<V>, n: BSTNode<V>)
    requires Unique(t) && ValidPath(t, p)
    requires NodesOf(x) !! NodesOf(t) - NodesOf(Subtree(t, p))
    requires n in NodesOf(x)
    ensures n in NodesOf(ReplaceAt(t, p, x))
    ensures LinkOf(ReplaceAt(t, p, x), par, n) == LinkOf(x, ParentOf(t, p, par), n)
    decreases |p|
  {
    NodesReplace(t, p, x);
    if p != [] {
      var c := Child(t, p[0]);
      NodesReplace(c, p[1..], x);
      LinkReplaceInside(c, t.node, p[1..], x, n);
    }
  }

  /** Changing the entry held at the end of a path changes that node's data
      and no other link. */
  lemma {:induction false} LinkSetEntry<V>(t: Tree<V>, par: BSTNode?<V>, p: seq<Dir>, e: HashEntry<int, V>, n: BSTNode<V>)
    requires Unique(t) && ValidPath(t, p) && Subtree(t, p).Node? && n in NodesOf(t)
    ensures NodesOf(ReplaceAt(t, p, Subtree(t, p).(entry := e))) == NodesOf(t)
    ensures Unique(ReplaceAt(t, p, Subtree(t, p).(entry := e)))
    ensures LinkOf(ReplaceAt(t, p, Subtree(t, p).(entry := e)), par, n) ==
      if n == Subtree(t, p).node then LinkOf(t, par, n).(data := e) else LinkOf(t, par, n)
    decreases |p|
  {
    if p != [] {
      var c := Child(t, p[0]);
      if n in NodesOf(c) {
        LinkSetEntry(c, t.node, p[1..], e, n);
      } else {
        LinkSetEntry(c, t.node, p[1..], e, RootOf(c));
      }
      NodesReplace(c, p[1..], Nil);
    }
  }

  /** Replacing a node with at most one child by that child: the child now
      hangs from the node's parent, the parent points at the child, and no
      other node's links change. */
  lemma RemoveLinks<V>(t: Tree<V>, p: seq<Dir>, n: BSTNode<V>)
    requires Unique(t) && ValidPath(t, p) && Subtree(t, p).Node? && !TwoChildren(Subtree(t, p))
    requires n in NodesOf(ReplaceAt(t, p, DeleteRoot(Subtree(t, p))))
    ensures n in NodesOf(t) && n != Subtree(t, p).node
    ensures var x := DeleteRoot(Subtree(t, p));
      LinkOf(ReplaceAt(t, p, x), null, n) ==
        if n == RootOf(x) then LinkOf(t, null, n).(parent := ParentOf(t, p, null))
        else if p != [] && n == ParentOf(t, p, null) then SetChild(LinkOf(t, null, n), p[|p| - 1], RootOf(x))
        else LinkOf(t, null, n)
  {
    var x := DeleteRoot(Subtree(t, p));
    NodesReplace(t, p, x);
    if n in NodesOf(x) {
      RemoveLinksInside(t, p, n);
      if p != [] {
        ParentInside(t, p, null);
      }
    } else {
      LinkReplaceOutside(t, null, p, x, n);
    }
  }

  lemma RemoveLinksInside<V>(t: Tree<V>, p: seq<Dir>, n: BSTNode<V>)
    requires Unique(t) && ValidPath(t, p) && Subtree(t, p).Node? && !TwoChildren(Subtree(t, p))
    requires n in NodesOf(DeleteRoot(Subtree(t, p)))
    ensures n in NodesOf(t) && n != Subtree(t, p).node
    ensures n in NodesOf(ReplaceAt(t, p, DeleteRoot(Subtree(t, p))))
    ensures var x := DeleteRoot(Subtree(t, p));
      LinkOf(ReplaceAt(t, p, x), null, n) ==
        if n == RootOf(x) then LinkOf(t, null, n).(parent := ParentOf(t, p, null))
        else LinkOf(t, null, n)
  {
    var sub := Subtree(t, p);
    var dx := if sub.left.Nil? then R else L;
    var x := DeleteRoot(sub);
    assert x == Child(sub, dx);
    SubtreeSnoc(t, p, dx, null);
    NodesReplace(t, p, x);
    LinkReplaceInside(t, null, p, x, n);
    LinkInSub(t, null, p + [dx], n);
  }

  lemma RemoveNodes<V>(t: Tree<V>, p: seq<Dir>)
    requires Unique(t) && ValidPath(t, p) && Subtree(t, p).Node? && !TwoChildren(Subtree(t, p))
    ensures NodesOf(DeleteRoot(Subtree(t, p))) <= NodesOf(t) - {Subtree(t, p).node}
    ensures NodesOf(ReplaceAt(t, p, DeleteRoot(Subtree(t, p)))) <= NodesOf(t)
    ensures Unique(ReplaceAt(t, p, DeleteRoot(Subtree(t, p))))
    ensures p != [] ==> RootOf(ReplaceAt(t, p, DeleteRoot(Subtree(t, p)))) == RootOf(t)
  {
    NodesReplace(t, p, DeleteRoot(Subtree(t, p)));
  }

  // ---------------------------------------------------------------------
  // Search, insertion and deletion along a path

  lemma {:induction false} SearchAlong<V>(t: Tree<V>, key: int, p: seq<Dir>)
    requires SearchPath(t, key, p) && ValidPath(t, p)
    ensures Search(t, key) == Search(Subtree(t, p), key)
    decreases |p|
  {
    if p != [] {
      SearchAlong(Child(t, p[0]), key, p[1..]);
    }
  }

  lemma {:induction false} InsertAlong<V>(t: Tree<V>, n: BSTNode<V>, item: HashEntry<int, V>, p: seq<Dir>)
    requires SearchPath(t, item.key, p) && ValidPath(t, p)
    ensures InsertTree(t, n, item) == ReplaceAt(t, p, InsertTree(Subtree(t, p), n, item))
    decreases |p|
  {
    if p != [] {
      InsertAlong(Child(t, p[0]), n, item, p[1..]);
    }
  }

  lemma {:induction false} DeleteAlong<V>(t: Tree<V>, key: int, p: seq<Dir>)
    requires SearchPath(t, key, p) && ValidPath(t, p)
    ensures DeleteTree(t, key) == ReplaceAt(t, p, DeleteTree(Subtree(t, p), key))
    decreases |p|
  {
    if p != [] {
      DeleteAlong(Child(t, p[0]), key, p[1..]);
    }
  }

  /** In an ordered tree the search for any key below the end of a path
      follows that path. */
  lemma {:induction false} PathToward<V>(t: Tree<V>, p: seq<Dir>, key: int)
    requires Ordered(t) && ValidPath(t, p) && key in KeysOf(Subtree(t, p))
    ensures SearchPath(t, key, p)
    decreases |p|
  {
    if p != [] {
      var c := Child(t, p[0]);
      PathToward(c, p[1..], key);
      KeysSub(c, p[1..]);
    }
  }

  lemma {:induction false} KeysSub<V>(t: Tree<V>, p: seq<Dir>)
    requires ValidPath(t, p)
    ensures KeysOf(Subtree(t, p)) <= KeysOf(t)
    ensures Ordered(t) ==> Ordered(Subtree(t, p))
    decreases |p|
  {
    if p != [] {
      KeysSub(Child(t, p[0]), p[1..]);
    }
  }

  // ---------------------------------------------------------------------
  // Keys and the in-order sequence

  lemma {:induction false} InorderKeys<V>(t: Tree<V>)
    ensures forall e :: e in Inorder(t) ==> e.key in KeysOf(t)
    ensures forall k :: k in KeysOf(t) ==> HasKey(Inorder(t), k)
  {
    match t
    case Nil =>
    case Node(l, _, e, r) =>
      InorderKeys(l);
      InorderKeys(r);
      var s := Inorder(t);
      forall k | k in KeysOf(t)
        ensures HasKey(s, k)
      {
        if k in KeysOf(l) {
          var j :| 0 <= j < |Inorder(l)| && Inorder(l)[j].key == k;
          assert s[j] == Inorder(l)[j];
        } else if k == e.key {
          assert s[|Inorder(l)|] == e;
        } else {
          var j :| 0 <= j < |Inorder(r)| && Inorder(r)[j].key == k;
          assert s[|Inorder(l)| + 1 + j] == Inorder(r)[j];
        }
      }
  }

  /** The order of the tree is the order of its in-order sequence. */
  lemma {:induction false} OrderedSorted<V>(t: Tree<V>)
    requires Ordered(t)
    ensures Sorted(Inorder(t))
  {
    match t
    case Nil =>
    case Node(l, _, e, r) =>
      OrderedSorted(l);
      OrderedSorted(r);
      InorderKeys(l);
      InorderKeys(r);
      var a, b := Inorder(l), Inorder(r);
      var s := Inorder(t);
      forall i, j | 0 <= i < j < |s|
        ensures s[i].key < s[j].key
      {
        if j < |a| {
          assert s[i] == a[i] && s[j] == a[j];
        } else if i > |a| {
          assert s[i] == b[i - |a| - 1] && s[j] == b[j - |a| - 1];
        } else {
          assert i < |a| ==> s[i] == a[i] && s[i] in a;
          assert j > |a| ==> s[j] == b[j - |a| - 1] && s[j] in b;
        }
      }
  }

  lemma {:induction false} SearchSpec<V>(t: Tree<V>, key: int)
    requires Ordered(t)
    ensures Search(t, key).Node? <==> key in KeysOf(t)
    ensures Search(t, key).Node? ==> Search(t, key).entry.key == key
  {
    match t
    case Nil =>
    case Node(l, _, e, r) =>
      SearchSpec(l, key);
      SearchSpec(r, key);
  }

  /** The root of a subtree is what the search for its key finds. */
  lemma {:induction false} SearchFindsRoot<V>(t: Tree<V>, p: seq<Dir>)
    requires Ordered(t) && ValidPath(t, p) && Subtree(t, p).Node?
    ensures Search(t, Subtree(t, p).entry.key) == Subtree(t, p)
  {
    var key := Subtree(t, p).entry.key;
    PathToward(t, p, key);
    SearchAlong(t, key, p);
  }

  lemma {:induction false} MaxEntrySpec<V>(t: Tree<V>)
    requires t.Node? && Ordered(t)
    ensures MaxEntry(t).key in KeysOf(t)
    ensures forall k :: k in KeysOf(t) ==> k <= MaxEntry(t).key
    ensures Inorder(t)[|Inorder(t)| - 1] == MaxEntry(t)
    ensures !TwoChildren(Search(t, MaxEntry(t).key))
  {
    if t.right.Node? {
      MaxEntrySpec(t.right);
    }
  }

  lemma {:induction false} KeysInsert<V>(t: Tree<V>, n: BSTNode<V>, item: HashEntry<int, V>)
    ensures KeysOf(InsertTree(t, n, item)) == KeysOf(t) + {item.key}
    ensures Ordered(t) ==> Ordered(InsertTree(t, n, item))
  {
    match t
    case Nil =>
    case Node(l, _, e, r) =>
      KeysInsert(l, n, item);
      KeysInsert(r, n, item);
  }

  lemma {:induction false} KeysDelete<V>(t: Tree<V>, key: int)
    requires Ordered(t)
    ensures KeysOf(DeleteTree(t, key)) == KeysOf(t) - {key}
    ensures Ordered(DeleteTree(t, key))
    decreases t, 1
  {
    match t
    case Nil =>
    case Node(l, _, e, r) =>
      if key == e.key {
        KeysDeleteRoot(t);
      } else {
        KeysDelete(l, key);
        KeysDelete(r, key);
      }
  }

  lemma {:induction false} KeysDeleteRoot<V>(t: Tree<V>)
    requires Ordered(t) && t.Node?
    ensures KeysOf(DeleteRoot(t)) == KeysOf(t) - {t.entry.key}
    ensures Ordered(DeleteRoot(t))
    decreases t, 0
  {
    var Node(l, _, e, r) := t;
    if l.Node? && r.Node? {
      var mk := MaxEntry(l).key;
      MaxEntrySpec(l);
      KeysDelete(l, mk);
      var l' := DeleteTree(l, mk);
      assert forall k :: k in KeysOf(l') ==> k < mk;
      assert forall k :: k in KeysOf(r) ==> mk < k;
    }
  }

  lemma {:induction false} InsertSortedAfter<V>(a: seq<HashEntry<int, V>>, b: seq<HashEntry<int, V>>, item: HashEntry<int, V>)
    requires forall i :: 0 <= i < |a| ==> a[i].key < item.key
    ensures InsertSorted(a + b, item) == a + InsertSorted(b, item)
  {
    if a != [] {
      assert (a + b)[1..] == a[1..] + b;
      InsertSortedAfter(a[1..], b, item);
    } else {
      assert a + b == b;
    }
  }

  lemma {:induction false} InsertSortedBefore<V>(a: seq<HashEntry<int, V>>, b: seq<HashEntry<int, V>>, item: HashEntry<int, V>)
    requires b != [] && item.key < b[0].key
    ensures InsertSorted(a + b, item) == InsertSorted(a, item) + b
  {
    if a != [] {
      assert (a + b)[1..] == a[1..] + b;
      InsertSortedBefore(a[1..], b, item);
    } else {
      assert a + b == b;
    }
  }

  /** `insert` puts the entry at its place in key order, replacing an entry
      with the same key. */
  lemma {:induction false} InorderInsert<V>(t: Tree<V>, n: BSTNode<V>, item: HashEntry<int, V>)
    requires Ordered(t)
    ensures Inorder(InsertTree(t, n, item)) == InsertSorted(Inorder(t), item)
  {
    match t
    case Nil =>
    case Node(l, _, e, r) =>
      var a, b := Inorder(l), Inorder(r);
      if item.key == e.key {
        InorderBelow(l, item.key);
        assert Inorder(t) == a + ([e] + b);
        InsertSortedAfter(a, [e] + b, item);
        assert ([e] + b)[1..] == b;
      } else if item.key < e.key {
        assert Inorder(t) == a + ([e] + b);
        InorderInsert(l, n, item);
        InsertSortedBefore(a, [e] + b, item);
      } else {
        InorderBelow(l, item.key);
        assert Inorder(t) == (a + [e]) + b;
        InorderInsert(r, n, item);
        assert forall i :: 0 <= i < |a + [e]| ==> (a + [e])[i].key < item.key by {
          forall i | 0 <= i < |a + [e]| ensures (a + [e])[i].key < item.key {
            if i < |a| { assert (a + [e])[i] == a[i]; }
          }
        }
        InsertSortedAfter(a + [e], b, item);
      }
  }

  lemma InorderBelow<V>(t: Tree<V>, k: int)
    requires Ordered(t) && forall j :: j in KeysOf(t) ==> j < k
    ensures forall i :: 0 <= i < |Inorder(t)| ==> Inorder(t)[i].key < k
  {
    InorderKeys(t);
    forall i | 0 <= i < |Inorder(t)|
      ensures Inorder(t)[i].key < k
    {
      assert Inorder(t)[i] in Inorder(t);
    }
  }

  /** `insert` when the walk reaches the key: the entry is overwritten. */
  lemma InsertFound<V>(t: Tree<V>, n: BSTNode<V>, item: HashEntry<int, V>, p: seq<Dir>)
    requires Ordered(t) && ValidPath(t, p) && SearchPath(t, item.key, p)
    requires Subtree(t, p).Node? && Subtree(t, p).entry.key == item.key
    ensures ReplaceAt(t, p, Subtree(t, p).(entry := item)) == InsertTree(t, n, item)
    ensures Ordered(InsertTree(t, n, item))
    ensures Inorder(InsertTree(t, n, item)) == InsertSorted(Inorder(t), item)
    ensures |Inorder(InsertTree(t, n, item))| == |Inorder(t)|
  {
    InsertAlong(t, n, item, p);
    KeysInsert(t, n, item);
    InorderInsert(t, n, item);
    KeysSub(t, p);
    InsertSize(t, n, item);
  }

  /** `insert` when the walk runs out below the node at p: the new node
      becomes a leaf there. */
  lemma InsertLeaf<V>(t: Tree<V>, n: BSTNode<V>, item: HashEntry<int, V>, p: seq<Dir>)
    requires Ordered(t) && ValidPath(t, p) && SearchPath(t, item.key, p)
    requires Subtree(t, p).Node? && Subtree(t, p).entry.key != item.key
    requires Child(Subtree(t, p), if item.key < Subtree(t, p).entry.key then L else R).Nil?
    ensures var d := if item.key < Subtree(t, p).entry.key then L else R;
      ValidPath(t, p + [d]) && ReplaceAt(t, p + [d], Node(Nil, n, item, Nil)) == InsertTree(t, n, item)
    ensures Ordered(InsertTree(t, n, item))
    ensures Inorder(InsertTree(t, n, item)) == InsertSorted(Inorder(t), item)
    ensures |Inorder(InsertTree(t, n, item))| == |Inorder(t)| + 1
  {
    var d := if item.key < Subtree(t, p).entry.key then L else R;
    InsertAlong(t, n, item, p);
    KeysInsert(t, n, item);
    InorderInsert(t, n, item);
    SearchPathSnoc(t, item.key, p);
    SubtreeSnoc(t, p, d, null);
    SearchAlong(t, item.key, p + [d]);
    SearchSpec(t, item.key);
    ReplaceSnoc(t, p, d, Node(Nil, n, item, Nil));
    InsertSize(t, n, item);
  }

  lemma {:induction false} InsertSize<V>(t: Tree<V>, n: BSTNode<V>, item: HashEntry<int, V>)
    requires Ordered(t)
    ensures |Inorder(InsertTree(t, n, item))| == |Inorder(t)| + (if item.key in KeysOf(t) then 0 else 1)
  {
    match t
    case Nil =>
    case Node(l, _, e, r) =>
      InsertSize(l, n, item);
      InsertSize(r, n, item);
  }

  lemma {:induction false} DeleteSize<V>(t: Tree<V>, key: int)
    requires Ordered(t)
    ensures |Inorder(DeleteTree(t, key))| == |Inorder(t)| - (if key in KeysOf(t) then 1 else 0)
    decreases t
  {
    match t
    case Nil =>
    case Node(l, _, e, r) =>
      if key == e.key {
        if l.Node? && r.Node? {
          MaxEntrySpec(l);
          DeleteSize(l, MaxEntry(l).key);
        }
      } else {
        DeleteSize(l, key);
        DeleteSize(r, key);
      }
  }

  lemma {:induction false} DeleteAbsent<V>(t: Tree<V>, key: int)
    requires key !in KeysOf(t)
    ensures DeleteTree(t, key) == t
  {
    match t
    case Nil =>
    case Node(l, _, e, r) =>
      DeleteAbsent(l, key);
      DeleteAbsent(r, key);
  }

  /** `delete` of a missing key changes nothing. */
  lemma DeleteMissing<V>(t: Tree<V>, key: int)
    requires !HasKey(Inorder(t), key)
    ensures DeleteTree(t, key) == t && RemoveKey(Inorder(t), key) == Inorder(t)
  {
    HasKeyIff(t, key);
    DeleteAbsent(t, key);
    IndexOfIs(Inorder(t), key, |Inorder(t)|);
  }

  /** `delete` once the walk has reached the node holding the key. */
  lemma DeleteFound<V>(t: Tree<V>, key: int, p: seq<Dir>)
    requires Ordered(t) && ValidPath(t, p) && SearchPath(t, key, p)
    requires Subtree(t, p).Node? && Subtree(t, p).entry.key == key
    ensures DeleteTree(t, key) == ReplaceAt(t, p, DeleteRoot(Subtree(t, p)))
    ensures Ordered(DeleteTree(t, key))
    ensures Inorder(DeleteTree(t, key)) == RemoveKey(Inorder(t), key)
    ensures |Inorder(DeleteTree(t, key))| == |Inorder(t)| - 1
  {
    DeleteAlong(t, key, p);
    KeysDelete(t, key);
    InorderDelete(t, key);
    KeysSub(t, p);
    DeleteSize(t, key);
  }

  /** The two-children case of `delete`: deleting the largest key on the
      left leaves the node in place, and moving that entry into it gives
      the deletion of the key. The inner deletion is not itself a
      two-children case. */
  lemma DeleteTwoChildren<V>(t: Tree<V>, key: int, p: seq<Dir>)
    requires Ordered(t) && ValidPath(t, p) && SearchPath(t, key, p)
    requires Subtree(t, p).Node? && Subtree(t, p).entry.key == key && TwoChildren(Subtree(t, p))
    ensures TwoChildren(Search(t, key))
    ensures !TwoChildren(Search(t, MaxEntry(Subtree(t, p).left).key))
    ensures var sub := Subtree(t, p);
      var me := MaxEntry(sub.left);
      var t1 := DeleteTree(t, me.key);
      && ValidPath(t1, p)
      && Subtree(t1, p) == Node(DeleteTree(sub.left, me.key), sub.node, sub.entry, sub.right)
      && ReplaceAt(t1, p, Subtree(t1, p).(entry := me)) == DeleteTree(t, key)
  {
    var sub := Subtree(t, p);
    var Node(l, n, e, r) := sub;
    var me := MaxEntry(l);
    KeysSub(t, p);
    MaxEntrySpec(l);
    PathToward(t, p, me.key);
    DeleteAlong(t, me.key, p);
    DeleteAlong(t, key, p);
    ReplaceTwice(t, p, DeleteTree(sub, me.key), Node(DeleteTree(l, me.key), n, me, r));
    SearchAlong(t, key, p);
    SubtreeSnoc(t, p, L, null);
    PathToward(t, p + [L], me.key);
    SearchAlong(t, me.key, p + [L]);
  }

  /** What the two-children case of `delete` relies on, given the path q
      `find_biggest_node` reaches on the left. */
  lemma DeletePredecessor<V>(t: Tree<V>, key: int, p: seq<Dir>, q: seq<Dir>)
    requires Ordered(t) && Unique(t) && ValidPath(t, p) && SearchPath(t, key, p)
    requires Subtree(t, p).Node? && Subtree(t, p).entry.key == key && TwoChildren(Subtree(t, p))
    requires ValidPath(t, q) && Subtree(t, q).Node? && Subtree(t, q).right.Nil?
    requires Subtree(t, q).entry == MaxEntry(Subtree(t, p).left)
    ensures !TwoChildren(Search(t, Subtree(t, q).entry.key))
    ensures var me := Subtree(t, q).entry;
      var t1 := DeleteTree(t, me.key);
      && Subtree(t, q).node !in NodesOf(t1)
      && |Inorder(t1)| == |Inorder(t)| - 1
      && ValidPath(t1, p) && Subtree(t1, p).Node? && Subtree(t1, p).node == Subtree(t, p).node
      && ReplaceAt(t1, p, Subtree(t1, p).(entry := me)) == DeleteTree(t, key)
  {
    DeleteTwoChildren(t, key, p);
    KeysSub(t, q);
    DropsNode(t, q);
    DeleteSize(t, Subtree(t, q).entry.key);
  }

  /** Deleting the key of a node without a right child unlinks that node. */
  lemma DropsNode<V>(t: Tree<V>, q: seq<Dir>)
    requires Ordered(t) && Unique(t) && ValidPath(t, q)
    requires Subtree(t, q).Node? && Subtree(t, q).right.Nil?
    ensures Subtree(t, q).node !in NodesOf(DeleteTree(t, Subtree(t, q).entry.key))
  {
    var sub := Subtree(t, q);
    var k := sub.entry.key;
    PathToward(t, q, k);
    DeleteAlong(t, k, q);
    NodesReplace(t, q, DeleteRoot(sub));
  }

  /** IndexOf is the one position that holds the key with none before it. */
  lemma IndexOfIs<K, V>(s: seq<HashEntry<K, V>>, key: K, i: int)
    requires 0 <= i <= |s| && (i < |s| ==> s[i].key == key)
    requires forall j :: 0 <= j < i ==> s[j].key != key
    ensures IndexOf(s, key) == i
  {
  }

  lemma RemoveKeyAfter<V>(a: seq<HashEntry<int, V>>, b: seq<HashEntry<int, V>>, key: int)
    requires forall i :: 0 <= i < |a| ==> a[i].key != key
    ensures RemoveKey(a + b, key) == a + RemoveKey(b, key)
  {
    var j := IndexOf(b, key);
    IndexOfIs(a + b, key, |a| + j);
    if j < |b| {
      assert (a + b)[..|a| + j] + (a + b)[|a| + j + 1..] == a + (b[..j] + b[j + 1..]);
    }
  }

  lemma RemoveKeyBefore<V>(a: seq<HashEntry<int, V>>, b: seq<HashEntry<int, V>>, key: int)
    requires forall i :: 0 <= i < |b| ==> b[i].key != key
    ensures RemoveKey(a + b, key) == RemoveKey(a, key) + b
  {
    var j := IndexOf(a, key);
    if j < |a| {
      IndexOfIs(a + b, key, j);
      assert (a + b)[..j] + (a + b)[j + 1..] == (a[..j] + a[j + 1..]) + b;
    } else {
      IndexOfIs(a + b, key, |a| + |b|);
    }
  }

  /** `delete` drops the entry with the key and keeps the others in order. */
  lemma {:induction false} InorderDelete<V>(t: Tree<V>, key: int)
    requires Ordered(t)
    ensures Inorder(DeleteTree(t, key)) == RemoveKey(Inorder(t), key)
    decreases t, 1
  {
    match t
    case Nil =>
    case Node(l, _, e, r) =>
      InorderKeys(l);
      InorderKeys(r);
      var a, b := Inorder(l), Inorder(r);
      if key == e.key {
        InorderDeleteRoot(t);
      } else if key < e.key {
        assert Inorder(t) == a + ([e] + b);
        InorderDelete(l, key);
        NoKey([e] + b, key);
        RemoveKeyBefore(a, [e] + b, key);
      } else {
        assert Inorder(t) == (a + [e]) + b;
        InorderDelete(r, key);
        NoKey(a + [e], key);
        RemoveKeyAfter(a + [e], b, key);
      }
  }

  /** Deleting the root's own key leaves the entries to its left and to its
      right. */
  lemma {:induction false} InorderDeleteRoot<V>(t: Tree<V>)
    requires Ordered(t) && t.Node?
    ensures Inorder(DeleteRoot(t)) == RemoveKey(Inorder(t), t.entry.key)
    decreases t, 0
  {
    RemoveRootKey(t);
    if t.left.Node? && t.right.Node? {
      RemoveMax(t.left);
    } else if t.left.Nil? {
      assert Inorder(t.left) == [];
    }
  }

  lemma {:induction false} RemoveRootKey<V>(t: Tree<V>)
    requires Ordered(t) && t.Node?
    ensures RemoveKey(Inorder(t), t.entry.key) == Inorder(t.left) + Inorder(t.right)
  {
    var Node(l, _, e, r) := t;
    var a, b, s := Inorder(l), Inorder(r), Inorder(t);
    InorderKeys(l);
    NoKey(a, e.key);
    forall j | 0 <= j < |a|
      ensures s[j].key != e.key
    {
      assert s[j] == a[j];
    }
    IndexOfIs(s, e.key, |a|);
    assert s[..|a|] == a && s[|a| + 1..] == b;
  }

  /** Deleting the largest key drops the last entry. */
  lemma {:induction false} RemoveMax<V>(l: Tree<V>)
    requires Ordered(l) && l.Node?
    ensures Inorder(DeleteTree(l, MaxEntry(l).key)) + [MaxEntry(l)] == Inorder(l)
    decreases l, 2
  {
    var me, a := MaxEntry(l), Inorder(l);
    MaxEntrySpec(l);
    InorderDelete(l, me.key);
    OrderedSorted(l);
    IndexOfIs(a, me.key, |a| - 1);
    assert a == a[..|a| - 1] + [me];
  }

  lemma HasKeyIff<V>(t: Tree<V>, k: int)
    ensures HasKey(Inorder(t), k) <==> k in KeysOf(t)
  {
    InorderKeys(t);
    if HasKey(Inorder(t), k) {
      var j :| 0 <= j < |Inorder(t)| && Inorder(t)[j].key == k;
      assert Inorder(t)[j] in Inorder(t);
    }
  }

  lemma {:induction false} EntryInInorder<V>(t: Tree<V>, p: seq<Dir>)
    requires ValidPath(t, p) && Subtree(t, p).Node?
    ensures Subtree(t, p).entry in Inorder(t)
    decreases |p|
  {
    if p != [] {
      EntryInInorder(Child(t, p[0]), p[1..]);
    }
  }

  /** `find` returns the entry held by the node the search reaches. */
  lemma LookupAt<V>(t: Tree<V>, p: seq<Dir>)
    requires Ordered(t) && ValidPath(t, p) && Subtree(t, p).Node?
    ensures Lookup(Inorder(t), Subtree(t, p).entry.key) == Ok(Subtree(t, p).entry)
  {
    var s, e := Inorder(t), Subtree(t, p).entry;
    EntryInInorder(t, p);
    OrderedSorted(t);
    SortedDistinct(s);
    var j :| 0 <= j < |s| && s[j] == e;
    var r := Lookup(s, e.key);
    var i :| 0 <= i < |s| && s[i] == r.value;
  }

  lemma NoKey<V>(s: seq<HashEntry<int, V>>, key: int)
    requires forall e :: e in s ==> e.key != key
    ensures forall i :: 0 <= i < |s| ==> s[i].key != key
  {
    forall i | 0 <= i < |s|
      ensures s[i].key != key
    {
      assert s[i] in s;
    }
  }
}

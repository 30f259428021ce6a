/**
 * The `LinkedList` bucket: singly linked nodes with `head`, `tail` and a
 * `count`. The ghost sequence `Nodes` lists the nodes reachable from `head`
 * in order and the ghost sequence `Contents` the entries they hold.
 *
 * `delete` as written never updates `tail`; `DeleteAsWritten` models it and
 * `LostInsert` shows the entry a later `insert_tail` then loses. `Delete` is
 * the corrected operation the separate-chaining map uses.
 */
module LinkedLists {
  import opened Base
  import opened ChainSpec

  class LinkedListNode<K, V> {
    var data: HashEntry<K, V>
    var next: LinkedListNode?<K, V>

    constructor (data: HashEntry<K, V>)
      ensures this.data == data && next == null
    {
      this.data := data;
      next := null;
    }
  }

  /** Each node's `next` is the node after it, and the last one's is null. */
  ghost predicate Chained<K, V>(ns: seq<LinkedListNode<K, V>>)
    reads ns`next
  {
    forall i {:trigger ns[i].next} :: 0 <= i < |ns| ==>
      ns[i].next == if i + 1 < |ns| then ns[i + 1] else null
  }

  /** Node i holds entry i. */
  ghost predicate Holds<K, V>(ns: seq<LinkedListNode<K, V>>, c: seq<HashEntry<K, V>>)
    reads ns`data
  {
    |ns| == |c| && forall i {:trigger ns[i].data} :: 0 <= i < |ns| ==> ns[i].data == c[i]
  }

  ghost predicate Distinct<T>(ns: seq<T>)
  {
    forall i, j :: 0 <= i < j < |ns| ==> ns[i] != ns[j]
  }

  class LinkedList<K(==), V> {
    var head: LinkedListNode?<K, V>
    var tail: LinkedListNode?<K, V>
    var count: int
    ghost var Nodes: seq<LinkedListNode<K, V>>
    ghost var Contents: seq<HashEntry<K, V>>
    ghost var Repr: set<object>

    /** The chain from `head`, its entries and the counter; `tail` aside. */
    ghost predicate Shape()
      reads this, Repr
    {
      && this in Repr
      && (forall i :: 0 <= i < |Nodes| ==> Nodes[i] in Repr)
      && (if Nodes == [] then head == null else head == Nodes[0])
      && Chained(Nodes)
      && Distinct(Nodes)
      && Holds(Nodes, Contents)
      && count == |Nodes|
    }

    /** `tail` is the last node reachable from `head`: what `insert_tail`
        relies on. */
    ghost predicate Valid()
      reads this, Repr
    {
      Shape() && tail == if Nodes == [] then null else Nodes[|Nodes| - 1]
    }

    constructor ()
      ensures Valid() && fresh(Repr) && Contents == []
    {
      head, tail, count := null, null, 0;
      Nodes, Contents := [], [];
      Repr := {this};
    }

    /** `__len__`: the maintained counter is the number of reachable nodes. */
    function Length(): (n: int)
      reads this, Repr
      requires Shape()
      ensures n == |Contents|
    {
      count
    }

    /** `__iter__`: the entries from `head` along `next`. */
    method Items() returns (s: seq<HashEntry<K, V>>)
      requires Shape()
      ensures s == Contents
    {
      s := [];
      var current := head;
      ghost var i := 0;
      while current != null
        invariant 0 <= i <= |Nodes| && current == (if i < |Nodes| then Nodes[i] else null)
        invariant s == Contents[..i]
        decreases |Nodes| - i
      {
        s := s + [current.data];
        current := current.next;
        i := i + 1;
      }
    }

    /** `find`: the first entry with the same key, or KeyError. */
    method Find(key: K) returns (r: Result<HashEntry<K, V>>)
      requires Shape()
      ensures r == Lookup(Contents, key)
    {
      var current := head;
      ghost var i := 0;
      while current != null
        invariant 0 <= i <= |Nodes| && current == (if i < |Nodes| then Nodes[i] else null)
        invariant forall j :: 0 <= j < i ==> Contents[j].key != key
        decreases |Nodes| - i
      {
        if IsSame(current.data.key, key) {
          return Ok(current.data);
        }
        current := current.next;
        i := i + 1;
      }
      return Err(KeyError);
    }

    /** `insert_tail`: link a new node after `tail`. */
    method InsertTail(data: HashEntry<K, V>)
      requires Valid()
      modifies Repr
      ensures Valid() && fresh(Repr - old(Repr))
      ensures Contents == old(Contents) + [data]
    {
      var node := new LinkedListNode(data);
      if tail != null {
        tail.next := node;
        tail := node;
      } else {
        head := node;
        tail := node;
      }
      count := count + 1;
      Nodes, Contents := Nodes + [node], Contents + [data];
      Repr := Repr + {node};
    }

    /** `append_at_end` delegates to `insert_tail`. */
    method AppendAtEnd(item: HashEntry<K, V>)
      requires Valid()
      modifies Repr
      ensures Valid() && fresh(Repr - old(Repr))
      ensures Contents == old(Contents) + [item]
    {
      InsertTail(item);
    }

    /** `insert`: overwrite the entry of the node holding the key, or
        `insert_tail` when no node does. */
    method Insert(item: HashEntry<K, V>)
      requires Valid()
      modifies Repr
      ensures Valid() && fresh(Repr - old(Repr))
      ensures Contents == Upsert(old(Contents), item)
    {
      var current := head;
      ghost var i := 0;
      while current != null && !IsSame(current.data.key, item.key)
        invariant 0 <= i <= |Nodes| && current == (if i < |Nodes| then Nodes[i] else null)
        invariant forall j :: 0 <= j < i ==> Contents[j].key != item.key
        decreases |Nodes| - i
      {
        current := current.next;
        i := i + 1;
      }
      if current != null {
        current.data := item;
        Contents := Contents[i := item];
        assert IndexOf(old(Contents), item.key) == i;
      } else {
        InsertTail(item);
      }
    }

    /** `delete`, corrected: as `delete`, and when the unlinked node was the
        tail, `tail` moves back to the previous node (or to null). */
    method Delete(key: K) returns (r: Result<()>)
      requires Valid()
      modifies Repr
      ensures Valid() && Repr == old(Repr)
      ensures r.Ok? <==> HasKey(old(Contents), key)
      ensures r.Err? ==> r.error == KeyError
      ensures Contents == RemoveKey(old(Contents), key)
    {
      var current := head;
      var previous := head;
      ghost var i := 0;
      while current != null && !IsSame(current.data.key, key)
        invariant 0 <= i <= |Nodes| && current == (if i < |Nodes| then Nodes[i] else null)
        invariant previous == (if i == 0 then head else Nodes[i - 1])
        invariant forall j :: 0 <= j < i ==> Contents[j].key != key
        decreases |Nodes| - i
      {
        previous := current;
        current := current.next;
        i := i + 1;
      }
      if current == null {
        return Err(KeyError);
      }
      assert IndexOf(Contents, key) == i;
      var first, last := current == head, current == tail;
      Splice(previous, current, i);
      if last {
        tail := if first then null else previous;
      }
      r := Ok(());
    }

    /** `delete` as written: the node is unlinked and `count` decremented, but
        `tail` is left alone, so after removing the last node it points at a
        node no longer reachable from `head`. */
    method DeleteAsWritten(key: K) returns (r: Result<()>)
      requires Valid()
      modifies Repr
      ensures Shape() && Repr == old(Repr) && tail == old(tail)
      ensures r.Ok? <==> HasKey(old(Contents), key)
      ensures r.Err? ==> r.error == KeyError && Valid()
      ensures Contents == RemoveKey(old(Contents), key)
      ensures r.Ok? && IndexOf(old(Contents), key) == |old(Contents)| - 1 ==> !Valid()
    {
      var current := head;
      var previous := head;
      ghost var i := 0;
      while current != null && !IsSame(current.data.key, key)
        invariant 0 <= i <= |Nodes| && current == (if i < |Nodes| then Nodes[i] else null)
        invariant previous == (if i == 0 then head else Nodes[i - 1])
        invariant forall j :: 0 <= j < i ==> Contents[j].key != key
        decreases |Nodes| - i
      {
        previous := current;
        current := current.next;
        i := i + 1;
      }
      if current == null {
        return Err(KeyError);
      }
      assert IndexOf(Contents, key) == i;
      Splice(previous, current, i);
      r := Ok(());
    }

    /** The unlinking both versions of `delete` share: node i leaves the
        chain from `head` and `count` drops by one; `tail` is not touched. */
    method Splice(previous: LinkedListNode?<K, V>, current: LinkedListNode<K, V>, ghost i: int)
      requires Shape() && 0 <= i < |Nodes| && current == Nodes[i]
      requires previous == if i == 0 then head else Nodes[i - 1]
      modifies Repr
      ensures Shape() && Repr == old(Repr) && tail == old(tail)
      ensures Nodes == old(Nodes[..i] + Nodes[i + 1..]) && current !in Nodes
      ensures Contents == old(Contents[..i] + Contents[i + 1..])
    {
      ghost var ns, c := Nodes, Contents;
      label L:
      if current == head {
        head := current.next;
      } else {
        previous.next := current.next;
      }
      count := count - 1;
      Nodes, Contents := ns[..i] + ns[i + 1..], c[..i] + c[i + 1..];
      forall j | 0 <= j < |Nodes|
        ensures Nodes[j] == ns[if j < i then j else j + 1]
      {
      }
      forall j | 0 <= j < |Nodes|
        ensures Nodes[j].next == if j + 1 < |Nodes| then Nodes[j + 1] else null
      {
        if j + 1 == i {
          assert Nodes[j] == previous && Nodes[j].next == old@L(ns[i].next);
        } else {
          var k := if j < i then j else j + 1;
          assert Nodes[j] == ns[k] != previous;
          assert Nodes[j].next == old@L(ns[k].next);
        }
      }
      forall a, b | 0 <= a < b < |Nodes|
        ensures Nodes[a] != Nodes[b]
      {
        assert Nodes[a] == ns[if a < i then a else a + 1];
      }
      forall j | 0 <= j < |Nodes|
        ensures Nodes[j].data == Contents[j]
      {
        var k := if j < i then j else j + 1;
        assert Nodes[j].data == old@L(ns[k].data);
      }
    }
  }

  /** Deleting the only entry with `delete` as written and then adding one
      with `insert_tail` as written: the new node is linked after the stale
      `tail`, `head` stays null, and the list counts one entry that iterating
      it never yields. */
  method LostInsert() returns (count: int, headIsNull: bool)
    ensures count == 1 && headIsNull
  {
    var l := new LinkedList<int, int>();
    l.Insert(HashEntry(7, 7, 70));
    var r := l.DeleteAsWritten(7);
    // `insert_tail` as written: `tail` is still set, so the new node goes
    // after it.
    var node := new LinkedListNode(HashEntry(8, 8, 80));
    assert l.tail != null;
    l.tail.next := node;
    l.tail := node;
    l.count := l.count + 1;
    count, headIsNull := l.count, l.head == null;
  }

  /** The same steps with the corrected `Delete`: the new entry is the one
      entry the list holds. */
  method KeptInsert() returns (count: int, items: seq<HashEntry<int, int>>)
    ensures count == 1 && items == [HashEntry(8, 8, 80)]
  {
    var l := new LinkedList<int, int>();
    l.Insert(HashEntry(7, 7, 70));
    var r := l.Delete(7);
    l.InsertTail(HashEntry(8, 8, 80));
    count := l.Length();
    items := l.Items();
  }
}

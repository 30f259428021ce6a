/**
 * The chain protocol the separate-chaining maps rely on, dispatched on the
 * three chain classes, and a row of chains that share no object.
 */
module ChainProtocol {
  import opened Base
  import opened ChainSpec
  import opened DynamicArrays
  import opened LinkedLists
  import opened BinarySearchTrees
  import opened BucketTables

  /** The concrete map classes, each fixing the chain kind its buckets use. */
  datatype Binding = DynamicArrayHashMap | LinkedListHashMap | BSTHashMap

  /** One bucket: an object of one of the three chain classes. */
  datatype Chain<V> =
    | DA(arr: DynamicArray<int, V>)
    | LL(list: LinkedList<int, V>)
    | BT(tree: BinarySearchTree<V>)

  function KindOf<V>(c: Chain<V>): Binding
  {
    match c
    case DA(_) => DynamicArrayHashMap
    case LL(_) => LinkedListHashMap
    case BT(_) => BSTHashMap
  }

  function Obj<V>(c: Chain<V>): object
  {
    match c
    case DA(a) => a
    case LL(l) => l
    case BT(t) => t
  }

  /** The objects a chain owns. */
  ghost function Footprint<V>(c: Chain<V>): set<object>
    reads Obj(c)
  {
    match c
    case DA(a) => {a}
    case LL(l) => l.Repr
    case BT(t) => t.Repr
  }

  /** The chain's own invariant. */
  ghost predicate ChainValid<V>(c: Chain<V>)
    reads Obj(c), Footprint(c)
  {
    && Obj(c) in Footprint(c)
    && match c
       case DA(_) => true
       case LL(l) => l.Valid()
       case BT(t) => t.Valid()
  }

  /** The entries the chain yields when iterated. */
  ghost function Entries<V>(c: Chain<V>): seq<HashEntry<int, V>>
    reads Obj(c)
  {
    match c
    case DA(a) => a.lst
    case LL(l) => l.Contents
    case BT(t) => t.Contents()
  }

  /** `insert` on the entries of a chain of kind `b`. */
  function Put<V>(b: Binding, s: seq<HashEntry<int, V>>, item: HashEntry<int, V>): seq<HashEntry<int, V>>
  {
    if b == BSTHashMap then InsertSorted(s, item) else Upsert(s, item)
  }

  /** `append_at_end` on the entries of a chain of kind `b`; the tree has no
      faster route and inserts. */
  function Appended<V>(b: Binding, s: seq<HashEntry<int, V>>, item: HashEntry<int, V>): seq<HashEntry<int, V>>
  {
    if b == BSTHashMap then InsertSorted(s, item) else s + [item]
  }

  /** What a chain of kind `b` keeps of its entries. */
  ghost predicate Keeps<V>(b: Binding, s: seq<HashEntry<int, V>>)
  {
    DistinctKeys(s) && (b == BSTHashMap ==> Sorted(s))
  }

  /** Every chain kind's `insert` is an update of the bucket's mapping. */
  lemma PutSpec<V>(b: Binding, s: seq<HashEntry<int, V>>, item: HashEntry<int, V>)
    requires Keeps(b, s)
    ensures Keeps(b, Put(b, s, item))
    ensures MapOf(Put(b, s, item)) == MapOf(s)[item.key := item.value]
    ensures |Put(b, s, item)| == |s| + (if item.key in MapOf(s) then 0 else 1)
    ensures forall e :: e in Put(b, s, item) ==> e in s || e == item
  {
    if b == BSTHashMap {
      InsertSortedSpec(s, item);
      SortedDistinct(Put(b, s, item));
    } else {
      UpsertSpec(s, item);
    }
  }

  /** With no entry for the key yet, `append_at_end` does what `insert` does. */
  lemma AppendedIsPut<V>(b: Binding, s: seq<HashEntry<int, V>>, item: HashEntry<int, V>)
    requires !HasKey(s, item.key)
    ensures Appended(b, s, item) == Put(b, s, item)
  {
    if b != BSTHashMap {
      AppendIsUpsert(s, item);
    }
  }

  lemma ChainKeeps<V>(c: Chain<V>)
    requires ChainValid(c) && DistinctKeys(Entries(c))
    ensures Keeps(KindOf(c), Entries(c))
  {
    if c.BT? {
      c.tree.SortedContents();
    }
  }

  // ---------------------------------------------------------------------
  // The chain protocol, dispatched on the chain kind

  /** `self.chain()`: a new empty chain of kind `b`. */
  method NewChain<V>(b: Binding) returns (c: Chain<V>)
    ensures KindOf(c) == b && ChainValid(c) && Entries(c) == [] && fresh(Footprint(c))
  {
    match b
    case DynamicArrayHashMap =>
      var a := new DynamicArray<int, V>();
      c := DA(a);
    case LinkedListHashMap =>
      var l := new LinkedList<int, V>();
      c := LL(l);
    case BSTHashMap =>
      var t := new BinarySearchTree<V>();
      c := BT(t);
  }

  /** `len(chain)`. */
  function ChainLength<V>(c: Chain<V>): (n: int)
    reads Obj(c), Footprint(c)
    requires ChainValid(c)
    ensures n == |Entries(c)|
  {
    match c
    case DA(a) => a.Length()
    case LL(l) => l.Length()
    case BT(t) => t.Length()
  }

  /** Iterating a chain. */
  method ChainItems<V>(c: Chain<V>) returns (s: seq<HashEntry<int, V>>)
    requires ChainValid(c)
    ensures s == Entries(c)
  {
    match c
    case DA(a) => s := a.Items();
    case LL(l) => s := l.Items();
    case BT(t) => s := t.Items();
  }

  /** `chain.find(key)`. */
  method ChainFind<V>(c: Chain<V>, key: int) returns (r: Result<HashEntry<int, V>>)
    requires ChainValid(c)
    ensures r == Lookup(Entries(c), key)
  {
    match c
    case DA(a) => r := a.Find(key);
    case LL(l) => r := l.Find(key);
    case BT(t) => r := t.Find(key);
  }

  /** `chain.insert(item)`. */
  method ChainInsert<V>(c: Chain<V>, item: HashEntry<int, V>)
    requires ChainValid(c)
    modifies Footprint(c)
    ensures ChainValid(c) && fresh(Footprint(c) - old(Footprint(c)))
    ensures Entries(c) == Put(KindOf(c), old(Entries(c)), item)
  {
    match c
    case DA(a) => a.Insert(item);
    case LL(l) => l.Insert(item);
    case BT(t) => t.Insert(item);
  }

  /** `chain.append_at_end(item)`. */
  method ChainAppend<V>(c: Chain<V>, item: HashEntry<int, V>)
    requires ChainValid(c)
    modifies Footprint(c)
    ensures ChainValid(c) && fresh(Footprint(c) - old(Footprint(c)))
    ensures Entries(c) == Appended(KindOf(c), old(Entries(c)), item)
  {
    match c
    case DA(a) => a.AppendAtEnd(item);
    case LL(l) => l.AppendAtEnd(item);
    case BT(t) => t.AppendAtEnd(item);
  }

  /** `chain.delete(key)`: KeyError when no entry holds the key. */
  method ChainDelete<V>(c: Chain<V>, key: int) returns (r: Result<()>)
    requires ChainValid(c)
    modifies Footprint(c)
    ensures ChainValid(c) && Footprint(c) == old(Footprint(c))
    ensures r.Ok? <==> HasKey(old(Entries(c)), key)
    ensures r.Err? ==> r.error == KeyError
    ensures Entries(c) == RemoveKey(old(Entries(c)), key)
  {
    match c
    case DA(a) => r := a.Delete(key);
    case LL(l) => r := l.Delete(key);
    case BT(t) => r := t.Delete(key);
  }

  // ---------------------------------------------------------------------
  // A row of chains

  /** The chains `cs` are valid chains of kind `b` holding `bs`, they lie
      inside `r`, and no two share an object. */
  ghost predicate Chains<V>(b: Binding, cs: seq<Chain<V>>, bs: seq<seq<HashEntry<int, V>>>, r: set<object>)
    reads r
  {
    && |cs| == |bs|
    && (forall i {:trigger Obj(cs[i])} :: 0 <= i < |cs| ==> Obj(cs[i]) in r)
    && (forall i {:trigger Footprint(cs[i])} :: 0 <= i < |cs| ==> Footprint(cs[i]) <= r)
    && (forall i {:trigger KindOf(cs[i])} :: 0 <= i < |cs| ==> KindOf(cs[i]) == b)
    && (forall i {:trigger ChainValid(cs[i])} :: 0 <= i < |cs| ==> ChainValid(cs[i]))
    && (forall i {:trigger Entries(cs[i])} :: 0 <= i < |cs| ==> Entries(cs[i]) == bs[i])
    && (forall i, j {:trigger Footprint(cs[i]), Footprint(cs[j])} :: 0 <= i < j < |cs| ==> Footprint(cs[i]) !! Footprint(cs[j]))
  }

  /** `[self.chain() for _ in range(n)]`. */
  method NewSlots<V>(b: Binding, n: nat) returns (cs: seq<Chain<V>>, ghost r: set<object>)
    ensures |cs| == n && fresh(r) && Chains(b, cs, EmptyBuckets(n), r)
  {
    cs, r := [], {};
    while |cs| < n
      invariant |cs| <= n && fresh(r) && Chains(b, cs, EmptyBuckets(|cs|), r)
    {
      var c := NewChain<V>(b);
      cs, r := cs + [c], r + Footprint(c);
    }
  }

  /** A tree chain of the row keeps its entries in key order. */
  lemma RowKeeps<V>(b: Binding, cs: seq<Chain<V>>, bs: seq<seq<HashEntry<int, V>>>, r: set<object>, k: int)
    requires Chains(b, cs, bs, r) && 0 <= k < |cs| && DistinctKeys(bs[k])
    ensures Keeps(b, bs[k])
  {
    ChainKeeps(cs[k]);
  }

  /** `len(chain)` for chain k of a row. */
  function RowLength<V>(b: Binding, cs: seq<Chain<V>>, ghost bs: seq<seq<HashEntry<int, V>>>, ghost r: set<object>, k: int): (n: int)
    reads r
    requires Chains(b, cs, bs, r) && 0 <= k < |cs|
    ensures n == |bs[k]|
  {
    ChainLength(cs[k])
  }

  /** `chain.insert(item)` on chain k of a row. */
  method RowInsert<V>(b: Binding, cs: seq<Chain<V>>, ghost bs: seq<seq<HashEntry<int, V>>>, ghost r: set<object>,
                      k: int, item: HashEntry<int, V>)
    requires Chains(b, cs, bs, r) && 0 <= k < |cs|
    modifies Footprint(cs[k])
    ensures Chains(b, cs, bs[k := Put(b, bs[k], item)], r + Footprint(cs[k]))
    ensures fresh(Footprint(cs[k]) - r)
  {
    ChainInsert(cs[k], item);
    forall i | 0 <= i < |cs| && i != k
      ensures Footprint(cs[i]) == old(Footprint(cs[i])) && Footprint(cs[i]) !! old(Footprint(cs[k]))
      ensures ChainValid(cs[i]) && Entries(cs[i]) == bs[i]
    {
      // chain i lies outside what the call may change
      assert old(ChainValid(cs[i]) && Footprint(cs[i]) !! Footprint(cs[k]));
      assert Obj(cs[i]) in r - old(Footprint(cs[k]));
    }
  }

  /** `chain.append_at_end(item)` on chain k of a row. */
  method RowAppend<V>(b: Binding, cs: seq<Chain<V>>, ghost bs: seq<seq<HashEntry<int, V>>>, ghost r: set<object>,
                      k: int, item: HashEntry<int, V>)
    requires Chains(b, cs, bs, r) && 0 <= k < |cs|
    modifies Footprint(cs[k])
    ensures Chains(b, cs, bs[k := Appended(b, bs[k], item)], r + Footprint(cs[k]))
    ensures fresh(Footprint(cs[k]) - r)
  {
    ChainAppend(cs[k], item);
    forall i | 0 <= i < |cs| && i != k
      ensures Footprint(cs[i]) == old(Footprint(cs[i])) && Footprint(cs[i]) !! old(Footprint(cs[k]))
      ensures ChainValid(cs[i]) && Entries(cs[i]) == bs[i]
    {
      // chain i lies outside what the call may change
      assert old(ChainValid(cs[i]) && Footprint(cs[i]) !! Footprint(cs[k]));
      assert Obj(cs[i]) in r - old(Footprint(cs[k]));
    }
  }

  /** `chain.delete(key)` on chain k of a row. */
  method RowDelete<V>(b: Binding, cs: seq<Chain<V>>, ghost bs: seq<seq<HashEntry<int, V>>>, ghost r: set<object>,
                      k: int, key: int) returns (res: Result<()>)
    requires Chains(b, cs, bs, r) && 0 <= k < |cs|
    modifies Footprint(cs[k])
    ensures Chains(b, cs, bs[k := RemoveKey(bs[k], key)], r)
    ensures res.Ok? <==> HasKey(bs[k], key)
    ensures res.Err? ==> res.error == KeyError
  {
    res := ChainDelete(cs[k], key);
    forall i | 0 <= i < |cs| && i != k
      ensures Footprint(cs[i]) == old(Footprint(cs[i])) && Footprint(cs[i]) !! old(Footprint(cs[k]))
      ensures ChainValid(cs[i]) && Entries(cs[i]) == bs[i]
    {
      // chain i lies outside what the call may change
      assert old(ChainValid(cs[i]) && Footprint(cs[i]) !! Footprint(cs[k]));
      assert Obj(cs[i]) in r - old(Footprint(cs[k]));
    }
  }
}

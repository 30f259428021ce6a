/**
 * Separate chaining: a table of `size` buckets, each a chain of one of the
 * three kinds (dynamic array, linked list, binary search tree). An entry for
 * key k lives in bucket `hash(k) mod size`; a bucket that reaches the maximum
 * chain size doubles the table and every entry is moved to its new bucket.
 * Keys are integers, so that all three kinds (the tree needs an order) share
 * one map class.
 */
module SeparateChaining {
  import opened Base
  import opened ChainSpec
  import opened DynamicArrays
  import opened LinkedLists
  import opened BinarySearchTrees
  import opened BucketTables

  import opened ChainProtocol

  // ---------------------------------------------------------------------

  /** The invariant of a separate-chaining map, over the values of its
      fields: the chains in `cs` are of kind `b` and hold the buckets `bs`,
      every entry sits in the bucket its hash selects, keys are distinct
      within a bucket, and `len` counts the entries. */
  ghost predicate MapInv<V>(b: Binding, hash: int -> int, cs: seq<Chain<V>>, bs: seq<seq<HashEntry<int, V>>>,
                            r: set<object>, len: int)
    reads r
  {
    Chains(b, cs, bs, r) && Table(bs, hash) && len == Total(bs)
  }

  class SeparateChainingHashMap<V> {
    const binding: Binding
    const hash: int -> int
    const maxChainSize: int
    var size: int
    var len: int
    var slots: seq<Chain<V>>
    /** The entries of each slot. */
    ghost var Buckets: seq<seq<HashEntry<int, V>>>
    /** The objects of the chains. */
    ghost var ChainRepr: set<object>
    ghost var Repr: set<object>

    ghost predicate Valid()
      reads this, Repr
    {
      && Repr == {this} + ChainRepr && this !in ChainRepr
      && size == |slots|
      && MapInv(binding, hash, slots, Buckets, ChainRepr, len)
    }

    /** The mapping the table represents. */
    ghost function Contents(): map<int, V>
      reads this
    {
      ContentsOf(Buckets)
    }

    /** `_need_increase`: a chain of this length calls for a larger table. */
    predicate NeedIncrease(chainSize: int)
    {
      chainSize >= maxChainSize
    }

    /** Setting `key` would add it to a chain that then reaches the maximum. */
    ghost predicate Grows(key: int)
      reads this
      requires |Buckets| == size > 0
    {
      key !in Contents() && NeedIncrease(|Buckets[hash(key) % size]| + 1)
    }

    constructor (binding: Binding, hash: int -> int, initialSize: int, maxChainSize: int)
      requires initialSize > 0
      ensures Valid() && fresh(Repr)
      ensures this.binding == binding && this.hash == hash && this.maxChainSize == maxChainSize
      ensures size == initialSize && len == 0 && Contents() == map[]
      ensures Buckets == EmptyBuckets(initialSize)
    {
      this.binding := binding;
      this.hash := hash;
      this.maxChainSize := maxChainSize;
      size, len := initialSize, 0;
      new;
      var cs, r := NewSlots<V>(binding, initialSize);
      EmptyTable<V>(hash, initialSize);
      slots, Buckets, ChainRepr, Repr := cs, EmptyBuckets(initialSize), r, {this} + r;
    }

    /** `__init__`: the size check of the base class. */
    static method Create(binding: Binding, hash: int -> int, initialSize: int, maxChainSize: int)
      returns (r: Result<SeparateChainingHashMap<V>>)
      ensures r.Ok? <==> initialSize > 0
      ensures r.Err? ==> r.error == ValueError
      ensures r.Ok? ==> fresh(r.value) && r.value.Valid() && r.value.Contents() == map[]
      ensures r.Ok? ==> r.value.size == initialSize && r.value.len == 0
      ensures r.Ok? ==> r.value.binding == binding && r.value.hash == hash && r.value.maxChainSize == maxChainSize
    {
      var checked := CheckInitialSize(initialSize);
      if checked.Err? {
        return Err(checked.error);
      }
      var m := new SeparateChainingHashMap(binding, hash, initialSize, maxChainSize);
      return Ok(m);
    }

    /** `__len__`. */
    function Length(): (n: int)
      reads this, Repr
      requires Valid()
      ensures n == |Contents()|
    {
      ContentsSize(Buckets, hash);
      len
    }

    /** `__getitem__`: the value of `key`, or KeyError from the chain. */
    method Get(key: int) returns (r: Result<V>)
      requires Valid()
      ensures r == if key in Contents() then Ok(Contents()[key]) else Err(KeyError)
    {
      var h := hash(key);
      var idx := h % size;
      var chain := slots[idx];
      var found := ChainFind(chain, key);
      ContentsAt(Buckets, hash, key);
      LookupMapOf(Buckets[idx], key);
      if found.Err? {
        return Err(KeyError);
      }
      return Ok(found.value.value);
    }

    /** `__setitem__`: insert into the key's chain; a new key adds one to the
        length and, when its chain reaches the maximum, doubles the table. */
    method Set(key: int, value: V)
      requires Valid()
      modifies Repr
      ensures Valid() && fresh(Repr - old(Repr))
      ensures Contents() == old(Contents())[key := value]
      ensures len == old(len) + (if key in old(Contents()) then 0 else 1)
      ensures size == if old(Grows(key)) then 2 * old(size) else old(size)
      ensures !old(Grows(key)) ==> Buckets == old(Buckets[hash(key) % size :=
        Put(binding, Buckets[hash(key) % size], HashEntry(hash(key), key, value))])
    {
      var before, after := InsertIntoChain(key, value);
      if before != after {
        if NeedIncrease(after) {
          IncreaseSize();
        }
      }
    }

    /** The chain step of `__setitem__`: insert into the key's chain, measure
        the chain before and after, and count a new key. */
    method InsertIntoChain(key: int, value: V) returns (before: int, after: int)
      requires Valid()
      modifies Repr
      ensures Valid() && fresh(Repr - old(Repr)) && size == old(size)
      ensures Buckets == old(Buckets[hash(key) % size :=
        Put(binding, Buckets[hash(key) % size], HashEntry(hash(key), key, value))])
      ensures Contents() == old(Contents())[key := value]
      ensures before == |old(Buckets[hash(key) % size])| && after == |Buckets[hash(key) % size]|
      ensures after == before + (if key in old(Contents()) then 0 else 1)
      ensures len == old(len) + (if key in old(Contents()) then 0 else 1)
    {
      before, after, len, Buckets, ChainRepr := InsertIntoRow(binding, hash, slots, Buckets, ChainRepr, len, key, value);
      Repr := {this} + ChainRepr;
    }

    /** `__delitem__`: remove `key` from its chain; KeyError when absent. */
    method Delete(key: int) returns (r: Result<()>)
      requires Valid()
      modifies Repr
      ensures Valid() && Repr == old(Repr) && size == old(size)
      ensures r.Ok? <==> key in old(Contents())
      ensures r.Err? ==> r.error == KeyError && Buckets == old(Buckets)
      ensures Contents() == old(Contents()) - {key}
      ensures len == old(len) - (if r.Ok? then 1 else 0)
      ensures Buckets == old(Buckets[hash(key) % size := RemoveKey(Buckets[hash(key) % size], key)])
    {
      r, len, Buckets := DeleteFromRow(binding, hash, slots, Buckets, ChainRepr, len, key);
    }

    /** `__iter__`: the keys chain by chain, each chain in its own order. */
    method Keys() returns (ks: seq<int>)
      requires Valid()
      ensures ks == KeysIn(Buckets)
      ensures |ks| == |Contents()| && forall k :: k in ks <==> k in Contents()
    {
      ks := RowKeys(binding, slots, Buckets, ChainRepr);
      KeysInSpec(Buckets);
      ContentsSize(Buckets, hash);
    }

    /** `_increase_size`: a table of twice the size, every entry appended to
        the chain its cached hash selects there. */
    method IncreaseSize()
      requires Valid()
      modifies this
      ensures Valid() && fresh(Repr - old(Repr))
      ensures Contents() == old(Contents()) && len == old(len) && size == 2 * old(size)
    {
      var newSize := size * 2;
      var newSlots, nb, nr := Rehash(binding, hash, slots, Buckets, ChainRepr, len, newSize);
      slots, size, Buckets, ChainRepr, Repr := newSlots, newSize, nb, nr, {this} + nr;
    }
  }

  /** `__setitem__` up to the resize, on the values of the map's fields:
      insert into the key's chain and, when the chain grew, count one more
      entry. */
  method InsertIntoRow<V>(b: Binding, hash: int -> int, cs: seq<Chain<V>>, ghost bs: seq<seq<HashEntry<int, V>>>,
                          ghost r: set<object>, n: int, key: int, value: V)
    returns (before: int, after: int, n': int, ghost bs': seq<seq<HashEntry<int, V>>>, ghost r': set<object>)
    requires MapInv(b, hash, cs, bs, r, n)
    modifies r
    ensures MapInv(b, hash, cs, bs', r', n') && fresh(r' - r) && r <= r'
    ensures bs' == bs[hash(key) % |bs| := Put(b, bs[hash(key) % |bs|], HashEntry(hash(key), key, value))]
    ensures ContentsOf(bs') == ContentsOf(bs)[key := value]
    ensures before == |bs[hash(key) % |bs|]| && after == |bs'[hash(key) % |bs|]|
    ensures after == before + (if key in ContentsOf(bs) then 0 else 1)
    ensures n' == n + (if key in ContentsOf(bs) then 0 else 1)
  {
    var h := hash(key);
    var idx := h % |cs|;
    var entry := HashEntry(h, key, value);
    before := RowLength(b, cs, bs, r, idx);
    RowKeeps(b, cs, bs, r, idx);
    PutSpec(b, bs[idx], entry);
    TableSet(bs, hash, key, value, Put(b, bs[idx], entry));
    RowInsert(b, cs, bs, r, idx, entry);
    bs', r' := bs[idx := Put(b, bs[idx], entry)], r + Footprint(cs[idx]);
    after := RowLength(b, cs, bs', r', idx);
    n' := n;
    if before != after {
      n' := n + 1;
    }
  }

  /** `__delitem__` on the values of the map's fields: delete from the key's
      chain (KeyError when absent) and, when the chain shrank, count one
      entry less. */
  method DeleteFromRow<V>(b: Binding, hash: int -> int, cs: seq<Chain<V>>, ghost bs: seq<seq<HashEntry<int, V>>>,
                          ghost r: set<object>, n: int, key: int)
    returns (res: Result<()>, n': int, ghost bs': seq<seq<HashEntry<int, V>>>)
    requires MapInv(b, hash, cs, bs, r, n)
    modifies r
    ensures MapInv(b, hash, cs, bs', r, n')
    ensures bs' == bs[hash(key) % |bs| := RemoveKey(bs[hash(key) % |bs|], key)]
    ensures ContentsOf(bs') == ContentsOf(bs) - {key}
    ensures res.Ok? <==> key in ContentsOf(bs)
    ensures res.Err? ==> res.error == KeyError && bs' == bs
    ensures n' == n - (if res.Ok? then 1 else 0)
  {
    var idx := hash(key) % |cs|;
    var before := RowLength(b, cs, bs, r, idx);
    TableDelete(bs, hash, key);
    res := RowDelete(b, cs, bs, r, idx, key);
    bs', n' := bs[idx := RemoveKey(bs[idx], key)], n;
    if res.Ok? {
      var after := RowLength(b, cs, bs', r, idx);
      if before != after {
        n' := n - 1;
      }
    }
  }

  /** `__iter__` over a row: the keys of each chain in turn. */
  method RowKeys<V>(b: Binding, cs: seq<Chain<V>>, ghost bs: seq<seq<HashEntry<int, V>>>, ghost r: set<object>)
    returns (ks: seq<int>)
    requires Chains(b, cs, bs, r)
    ensures ks == KeysIn(bs)
  {
    ks := [];
    var i := 0;
    while i < |cs|
      invariant 0 <= i <= |cs| && ks == KeysIn(bs[..i])
    {
      var items := ChainItems(cs[i]);
      var keys := EntryKeys(items);
      ks := ks + keys;
      assert bs[..i + 1][..i] == bs[..i];
      i := i + 1;
    }
    assert bs[..i] == bs;
  }

  /** The keys of one chain's entries, in order. */
  method EntryKeys<V>(items: seq<HashEntry<int, V>>) returns (ks: seq<int>)
    ensures ks == KeysOfEntries(items)
  {
    ks := [];
    var j := 0;
    while j < |items|
      invariant 0 <= j <= |items| && ks == KeysOfEntries(items[..j])
    {
      ks := ks + [items[j].key];
      assert items[..j + 1][..j] == items[..j];
      j := j + 1;
    }
    assert items[..j] == items;
  }

  /** The body of `_increase_size` up to the reassignment: `new_size` fresh
      chains, then every old entry moved into them. */
  method Rehash<V>(b: Binding, hash: int -> int, cs: seq<Chain<V>>, ghost bs: seq<seq<HashEntry<int, V>>>,
                   ghost r: set<object>, ghost n: int, newSize: int)
    returns (newSlots: seq<Chain<V>>, ghost nb: seq<seq<HashEntry<int, V>>>, ghost nr: set<object>)
    requires MapInv(b, hash, cs, bs, r, n) && newSize > 0
    ensures fresh(nr) && MapInv(b, hash, newSlots, nb, nr, n) && |newSlots| == newSize
    ensures ContentsOf(nb) == ContentsOf(bs)
  {
    ghost var nr0;
    newSlots, nr0 := NewSlots<V>(b, newSize);
    EmptyTable<V>(hash, newSize);
    nb, nr := MoveAll(b, hash, cs, bs, r, newSlots, EmptyBuckets(newSize), nr0);
  }

  /** The loops of `_increase_size`: every entry of every old chain, in
      order, appended to the new chain its cached hash value selects. The
      old chains are only read. */
  method MoveAll<V>(b: Binding, hash: int -> int, cs: seq<Chain<V>>, ghost bs: seq<seq<HashEntry<int, V>>>,
                    ghost r: set<object>, newSlots: seq<Chain<V>>, ghost nb: seq<seq<HashEntry<int, V>>>,
                    ghost nr: set<object>)
    returns (ghost nb': seq<seq<HashEntry<int, V>>>, ghost nr': set<object>)
    requires Chains(b, cs, bs, r) && Table(bs, hash)
    requires Chains(b, newSlots, nb, nr) && Table(nb, hash) && ContentsOf(nb) == map[] && Total(nb) == 0
    requires r !! nr
    modifies nr
    ensures Chains(b, newSlots, nb', nr') && fresh(nr' - nr) && nr <= nr' && |nb'| == |nb|
    ensures Table(nb', hash) && ContentsOf(nb') == ContentsOf(bs) && Total(nb') == Total(bs)
  {
    nb', nr' := nb, nr;
    assert bs[..0] == [];
    var i := 0;
    while i < |cs|
      invariant 0 <= i <= |cs| && Chains(b, cs, bs, r) && r !! nr'
      invariant Chains(b, newSlots, nb', nr') && fresh(nr' - nr) && nr <= nr' && |nb'| == |nb|
      invariant Table(nb', hash) && ContentsOf(nb') == ContentsOf(bs[..i]) && Total(nb') == Total(bs[..i])
    {
      var items := ChainItems(cs[i]);
      nb', nr' := MoveBucket(b, hash, bs, i, items, newSlots, nb', nr');
      i := i + 1;
    }
    assert bs[..i] == bs;
  }

  /** The inner loop of `_increase_size`: each entry of old bucket i, in
      order, appended to the new chain its cached hash value selects. */
  method MoveBucket<V>(b: Binding, hash: int -> int, ghost bs: seq<seq<HashEntry<int, V>>>, i: int,
                       items: seq<HashEntry<int, V>>, newSlots: seq<Chain<V>>,
                       ghost nb: seq<seq<HashEntry<int, V>>>, ghost nr: set<object>)
    returns (ghost nb': seq<seq<HashEntry<int, V>>>, ghost nr': set<object>)
    requires Table(bs, hash) && 0 <= i < |bs| && items == bs[i]
    requires Chains(b, newSlots, nb, nr) && Table(nb, hash)
    requires ContentsOf(nb) == ContentsOf(bs[..i]) && Total(nb) == Total(bs[..i])
    modifies nr
    ensures Chains(b, newSlots, nb', nr') && fresh(nr' - nr) && nr <= nr' && |nb'| == |nb|
    ensures Table(nb', hash) && ContentsOf(nb') == ContentsOf(bs[..i + 1]) && Total(nb') == Total(bs[..i + 1])
  {
    nb', nr' := nb, nr;
    var j := 0;
    while j < |items|
      invariant 0 <= j <= |items| && nr <= nr' && fresh(nr' - nr)
      invariant Chains(b, newSlots, nb', nr') && |nb'| == |nb|
      invariant Table(nb', hash) && ContentsOf(nb') == Moved(bs, i, j) && Total(nb') == Total(bs[..i]) + j
    {
      nb', nr' := MoveEntry(b, hash, bs, i, j, items[j], newSlots, nb', nr');
      j := j + 1;
    }
    RehashNext(bs, i);
  }

  /** One step of the inner loop of `_increase_size`: `append_at_end` of
      entry j of old bucket i on the new chain its cached hash selects. */
  method MoveEntry<V>(b: Binding, hash: int -> int, ghost bs: seq<seq<HashEntry<int, V>>>, i: int, j: int,
                      item: HashEntry<int, V>, newSlots: seq<Chain<V>>,
                      ghost nb: seq<seq<HashEntry<int, V>>>, ghost nr: set<object>)
    returns (ghost nb': seq<seq<HashEntry<int, V>>>, ghost nr': set<object>)
    requires Table(bs, hash) && 0 <= i < |bs| && 0 <= j < |bs[i]| && item == bs[i][j]
    requires Chains(b, newSlots, nb, nr) && Table(nb, hash)
    requires ContentsOf(nb) == Moved(bs, i, j) && Total(nb) == Total(bs[..i]) + j
    modifies nr
    ensures Chains(b, newSlots, nb', nr') && fresh(nr' - nr) && nr <= nr' && |nb'| == |nb|
    ensures Table(nb', hash) && ContentsOf(nb') == Moved(bs, i, j + 1) && Total(nb') == Total(bs[..i]) + j + 1
  {
    var t := item.hashValue % |newSlots|;
    RehashFresh(bs, hash, nb, i, j);
    MapOfKeys(nb[t], item.key);
    RowKeeps(b, newSlots, nb, nr, t);
    AppendedIsPut(b, nb[t], item);
    PutSpec(b, nb[t], item);
    RehashStep(bs, hash, nb, i, j, Put(b, nb[t], item));
    TotalReplace(nb, t, Put(b, nb[t], item));
    RowAppend(b, newSlots, nb, nr, t, item);
    nb', nr' := nb[t := Appended(b, nb[t], item)], nr + Footprint(newSlots[t]);
  }

  /** Five slots, maximum chain size 3, three keys whose hash codes all select
      slot 0: the third insertion brings that chain to 3 and doubles the table. */
  method ResizeScenario() returns (size: int, len: int)
    ensures size == 10 && len == 3
  {
    var m := new SeparateChainingHashMap<int>(DynamicArrayHashMap, k => 5 * k, 5, 3);
    SetFirst(m);
    SetSecond(m);
    SetThird(m);
    size, len := m.size, m.len;
  }

  /** The third insertion: chain 0 reaches 3 entries and the table doubles. */
  method SetThird(m: SeparateChainingHashMap<int>)
    requires m.Valid() && m.binding == DynamicArrayHashMap && m.maxChainSize == 3
    requires m.size == 5 && m.len == 2 && 2 !in m.Contents()
    requires m.Buckets[0] == [HashEntry(0, 0, 0), HashEntry(5, 1, 1)]
    requires forall k :: m.hash(k) == 5 * k
    modifies m.Repr
    ensures m.size == 10 && m.len == 3
  {
    m.Set(2, 2);
  }

  /** The first insertion of the scenario: key 0 into an empty chain. */
  method SetFirst(m: SeparateChainingHashMap<int>)
    requires m.Valid() && m.binding == DynamicArrayHashMap && m.maxChainSize == 3
    requires m.size == 5 && m.len == 0 && m.Buckets == EmptyBuckets(5)
    requires forall k :: m.hash(k) == 5 * k
    modifies m.Repr
    ensures m.Valid() && fresh(m.Repr - old(m.Repr))
    ensures m.size == 5 && m.len == 1 && m.Contents() == map[0 := 0]
    ensures m.Buckets[0] == [HashEntry(0, 0, 0)]
  {
    EmptyTable<int>(m.hash, 5);
    m.Set(0, 0);
  }

  /** The second insertion: key 1 joins key 0 in chain 0, still below 3. */
  method SetSecond(m: SeparateChainingHashMap<int>)
    requires m.Valid() && m.binding == DynamicArrayHashMap && m.maxChainSize == 3
    requires m.size == 5 && m.len == 1 && m.Contents() == map[0 := 0]
    requires m.Buckets[0] == [HashEntry(0, 0, 0)]
    requires forall k :: m.hash(k) == 5 * k
    modifies m.Repr
    ensures m.Valid() && fresh(m.Repr - old(m.Repr))
    ensures m.size == 5 && m.len == 2 && 2 !in m.Contents()
    ensures m.Buckets[0] == [HashEntry(0, 0, 0), HashEntry(5, 1, 1)]
  {
    assert IndexOf([HashEntry(0, 0, 0)], 1) == 1;
    m.Set(1, 1);
    assert m.Contents() == map[0 := 0, 1 := 1];
  }
}

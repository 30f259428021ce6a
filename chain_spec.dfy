/**
 * What a bucket of the separate-chaining maps holds, stated on the sequence
 * of entries the bucket yields when iterated. The three bucket kinds are
 * proved against these functions: `Upsert` and `RemoveKey` for the dynamic
 * array and the linked list, `InsertSorted` and `RemoveKey` for the binary
 * search tree.
 */
module ChainSpec {
  import opened Base

  /** Position of the first entry whose key is `key`, or |s| if none is. */
  function IndexOf<K(==), V>(s: seq<HashEntry<K, V>>, key: K): (i: nat)
    ensures i <= |s|
    ensures i < |s| ==> s[i].key == key
    ensures forall j :: 0 <= j < i ==> s[j].key != key
  {
    if s == [] then 0
    else if IsSame(s[0].key, key) then 0
    else 1 + IndexOf(s[1..], key)
  }

  ghost predicate HasKey<K, V>(s: seq<HashEntry<K, V>>, key: K)
  {
    exists j :: 0 <= j < |s| && s[j].key == key
  }

  /** `find`: the first entry holding `key`, or KeyError. */
  function Lookup<K(==), V>(s: seq<HashEntry<K, V>>, key: K): (r: Result<HashEntry<K, V>>)
    ensures r.Ok? <==> HasKey(s, key)
    ensures r.Ok? ==> r.value in s && r.value.key == key
    ensures r.Err? ==> r.error == KeyError
  {
    var i := IndexOf(s, key);
    if i < |s| then Ok(s[i]) else Err(KeyError)
  }

  ghost predicate DistinctKeys<K, V>(s: seq<HashEntry<K, V>>)
  {
    forall i, j :: 0 <= i < |s| && 0 <= j < |s| && s[i].key == s[j].key ==> i == j
  }

  /** Strictly ascending keys: the order a binary search tree yields. */
  ghost predicate Sorted<V>(s: seq<HashEntry<int, V>>)
  {
    forall i, j :: 0 <= i < j < |s| ==> s[i].key < s[j].key
  }

  /** The mapping a bucket represents. */
  ghost function MapOf<K, V>(s: seq<HashEntry<K, V>>): map<K, V>
  {
    if s == [] then map[] else MapOf(s[..|s| - 1])[s[|s| - 1].key := s[|s| - 1].value]
  }

  /** `insert` of the dynamic array and the linked list: replace the entry
      with the same key where it stands, or append. */
  function Upsert<K(==), V>(s: seq<HashEntry<K, V>>, item: HashEntry<K, V>): seq<HashEntry<K, V>>
  {
    var i := IndexOf(s, item.key);
    if i < |s| then s[i := item] else s + [item]
  }

  /** `delete`: drop the first entry holding `key`; nothing if none does. */
  function RemoveKey<K(==), V>(s: seq<HashEntry<K, V>>, key: K): seq<HashEntry<K, V>>
  {
    var i := IndexOf(s, key);
    if i < |s| then s[..i] + s[i + 1..] else s
  }

  /** `insert` of the binary search tree, seen through its in-order sequence:
      the entry goes to its place in key order, replacing an equal key. */
  function InsertSorted<V>(s: seq<HashEntry<int, V>>, item: HashEntry<int, V>): seq<HashEntry<int, V>>
  {
    if s == [] then [item]
    else if item.key == s[0].key then [item] + s[1..]
    else if item.key < s[0].key then [item] + s
    else [s[0]] + InsertSorted(s[1..], item)
  }

  // ---------------------------------------------------------------------

  lemma SortedDistinct<V>(s: seq<HashEntry<int, V>>)
    requires Sorted(s)
    ensures DistinctKeys(s)
  {
  }

  /** The mapping holds exactly the keys of the entries ... */
  lemma {:induction false} MapOfKeys<K, V>(s: seq<HashEntry<K, V>>, key: K)
    ensures key in MapOf(s) <==> HasKey(s, key)
  {
    if s != [] {
      var t := s[..|s| - 1];
      MapOfKeys(t, key);
      if HasKey(t, key) {
        var j :| 0 <= j < |t| && t[j].key == key;
        assert s[j].key == key;
      }
      if HasKey(s, key) && s[|s| - 1].key != key {
        var j :| 0 <= j < |s| && s[j].key == key;
        assert t[j].key == key;
      }
    }
  }

  /** ... and, with distinct keys, maps each to its entry's value. */
  lemma {:induction false} MapOfAt<K, V>(s: seq<HashEntry<K, V>>, j: int)
    requires DistinctKeys(s) && 0 <= j < |s|
    ensures s[j].key in MapOf(s) && MapOf(s)[s[j].key] == s[j].value
  {
    var t := s[..|s| - 1];
    if j < |s| - 1 {
      assert t[j] == s[j];
      MapOfAt(t, j);
    }
  }

  lemma {:induction false} MapOfSize<K, V>(s: seq<HashEntry<K, V>>)
    requires DistinctKeys(s)
    ensures |MapOf(s)| == |s|
  {
    if s != [] {
      var t := s[..|s| - 1];
      MapOfSize(t);
      MapOfKeys(t, s[|s| - 1].key);
    }
  }

  /** `find` agrees with the mapping. */
  lemma LookupMapOf<K, V>(s: seq<HashEntry<K, V>>, key: K)
    requires DistinctKeys(s)
    ensures Lookup(s, key).Ok? <==> key in MapOf(s)
    ensures key in MapOf(s) ==> Lookup(s, key).value.value == MapOf(s)[key]
  {
    MapOfKeys(s, key);
    var i := IndexOf(s, key);
    if i < |s| {
      MapOfAt(s, i);
    }
  }

  /** Two bucket sequences that hold the same entries, except that `item`
      is in the second in place of whatever the first held for its key. */
  lemma MapOfByEntries<K, V>(s: seq<HashEntry<K, V>>, t: seq<HashEntry<K, V>>, item: HashEntry<K, V>)
    requires DistinctKeys(s) && DistinctKeys(t) && item in t
    requires forall e :: e in t ==> e in s || e == item
    requires forall e :: e in s && e.key != item.key ==> e in t
    ensures MapOf(t) == MapOf(s)[item.key := item.value]
  {
    var m := MapOf(s)[item.key := item.value];
    forall k | k in MapOf(t)
      ensures k in m && MapOf(t)[k] == m[k]
    {
      MapOfKeys(t, k);
      var j :| 0 <= j < |t| && t[j].key == k;
      MapOfAt(t, j);
      assert t[j] in t;
      if t[j] != item {
        var j' :| 0 <= j' < |s| && s[j'] == t[j];
        MapOfAt(s, j');
      }
    }
    forall k | k in m
      ensures k in MapOf(t)
    {
      if k == item.key {
        var j :| 0 <= j < |t| && t[j] == item;
        MapOfKeys(t, k);
      } else {
        MapOfKeys(s, k);
        var j :| 0 <= j < |s| && s[j].key == k;
        assert s[j] in s;
        var j' :| 0 <= j' < |t| && t[j'] == s[j];
        MapOfKeys(t, k);
      }
    }
  }

  /** Upsert: the key maps to the new value, the length grows exactly when
      the key is new, and every other entry stays. */
  lemma UpsertSpec<K, V>(s: seq<HashEntry<K, V>>, item: HashEntry<K, V>)
    requires DistinctKeys(s)
    ensures DistinctKeys(Upsert(s, item))
    ensures MapOf(Upsert(s, item)) == MapOf(s)[item.key := item.value]
    ensures |Upsert(s, item)| == |s| + (if item.key in MapOf(s) then 0 else 1)
    ensures forall e :: e in Upsert(s, item) ==> e in s || e == item
  {
    var t := Upsert(s, item);
    var i := IndexOf(s, item.key);
    MapOfKeys(s, item.key);
    if i < |s| {
      forall e | e in t
        ensures e in s || e == item
      {
        var j :| 0 <= j < |t| && t[j] == e;
        if j != i { assert t[j] == s[j]; }
      }
      forall e | e in s && e.key != item.key
        ensures e in t
      {
        var j :| 0 <= j < |s| && s[j] == e;
        assert t[j] == e;
      }
    } else {
      assert forall j :: 0 <= j < |s| ==> t[j] == s[j];
    }
    assert t[if i < |s| then i else |s|] == item;
    MapOfByEntries(s, t, item);
    MapOfSize(s);
    MapOfSize(t);
  }

  /** RemoveKey: the key leaves the mapping, the length drops exactly when it
      was there, and the other entries keep their order. */
  lemma RemoveKeySpec<K, V>(s: seq<HashEntry<K, V>>, key: K)
    requires DistinctKeys(s)
    ensures DistinctKeys(RemoveKey(s, key))
    ensures MapOf(RemoveKey(s, key)) == MapOf(s) - {key}
    ensures |RemoveKey(s, key)| == |s| - (if key in MapOf(s) then 1 else 0)
    ensures forall e :: e in RemoveKey(s, key) ==> e in s
  {
    var i := IndexOf(s, key);
    MapOfKeys(s, key);
    if i < |s| {
      var a, b := s[..i], s[i + 1..];
      assert s == a + [s[i]] + b;
      DropOne(a, s[i], b);
      MapOfSplit(a, s[i], b);
      MapOfKeys(a + b, key);
    } else {
      assert MapOf(s) - {key} == MapOf(s);
    }
  }

  /** Dropping one entry keeps the keys distinct and removes that key. */
  lemma DropOne<K, V>(a: seq<HashEntry<K, V>>, e: HashEntry<K, V>, b: seq<HashEntry<K, V>>)
    requires DistinctKeys(a + [e] + b)
    ensures DistinctKeys(a + b) && !HasKey(a + b, e.key)
    ensures forall x :: x in a + b ==> x in a + [e] + b
  {
    var s := a + [e] + b;
    var t := a + b;
    assert forall j :: 0 <= j < |t| ==> t[j] == s[if j < |a| then j else j + 1];
    forall i, j | 0 <= i < |t| && 0 <= j < |t| && t[i].key == t[j].key
      ensures i == j
    {
      assert s[if i < |a| then i else i + 1].key == s[if j < |a| then j else j + 1].key;
    }
    forall j | 0 <= j < |t|
      ensures t[j].key != e.key
    {
      assert s[|a|] == e;
      assert s[if j < |a| then j else j + 1] == t[j];
    }
  }

  /** Taking one entry out of the middle of a bucket. */
  lemma {:induction false} MapOfSplit<K, V>(a: seq<HashEntry<K, V>>, e: HashEntry<K, V>, b: seq<HashEntry<K, V>>)
    requires DistinctKeys(a + [e] + b)
    ensures MapOf(a + [e] + b) == MapOf(a + b)[e.key := e.value]
  {
    if b == [] {
      assert a + [e] + b == a + [e] && (a + [e])[..|a|] == a && a + b == a;
    } else {
      var b' := b[..|b| - 1];
      var l := b[|b| - 1];
      var s := a + [e] + b;
      assert s[..|s| - 1] == a + [e] + b' && s[|s| - 1] == l;
      assert (a + b)[..|a + b| - 1] == a + b' && (a + b)[|a + b| - 1] == l;
      assert DistinctKeys(a + [e] + b') by {
        assert forall j :: 0 <= j < |a + [e] + b'| ==> (a + [e] + b')[j] == s[j];
      }
      MapOfSplit(a, e, b');
      assert l.key != e.key by {
        assert s[|a|] == e;
      }
    }
  }

  /** `append_at_end` is `insert` whenever the key is absent, which is the
      only way the maps use it. */
  lemma AppendIsUpsert<K, V>(s: seq<HashEntry<K, V>>, item: HashEntry<K, V>)
    requires !HasKey(s, item.key)
    ensures Upsert(s, item) == s + [item]
  {
  }

  lemma {:induction false} InsertSortedElements<V>(s: seq<HashEntry<int, V>>, item: HashEntry<int, V>)
    ensures forall e :: e in InsertSorted(s, item) ==> e in s || e == item
    ensures forall e :: e in s && e.key != item.key ==> e in InsertSorted(s, item)
    ensures item in InsertSorted(s, item)
  {
    if s != [] && item.key > s[0].key {
      InsertSortedElements(s[1..], item);
      assert forall e :: e in s ==> e == s[0] || e in s[1..];
    } else if s != [] && item.key == s[0].key {
      assert forall e :: e in s ==> e == s[0] || e in s[1..];
    }
  }

  /** InsertSorted keeps ascending order. */
  lemma {:induction false} InsertSortedSorted<V>(s: seq<HashEntry<int, V>>, item: HashEntry<int, V>)
    requires Sorted(s)
    ensures Sorted(InsertSorted(s, item))
  {
    if s != [] && item.key > s[0].key {
      var rest := s[1..];
      InsertSortedSorted(rest, item);
      InsertSortedElements(rest, item);
      var t := InsertSorted(rest, item);
      forall j | 0 <= j < |t|
        ensures s[0].key < t[j].key
      {
        assert t[j] in t;
        if t[j] != item {
          var m :| 0 <= m < |rest| && rest[m] == t[j];
          assert s[m + 1] == t[j];
        }
      }
    }
  }

  /** InsertSorted is an upsert on the mapping that keeps the order. */
  lemma InsertSortedSpec<V>(s: seq<HashEntry<int, V>>, item: HashEntry<int, V>)
    requires Sorted(s)
    ensures Sorted(InsertSorted(s, item))
    ensures MapOf(InsertSorted(s, item)) == MapOf(s)[item.key := item.value]
    ensures |InsertSorted(s, item)| == |s| + (if item.key in MapOf(s) then 0 else 1)
    ensures forall e :: e in InsertSorted(s, item) ==> e in s || e == item
  {
    var t := InsertSorted(s, item);
    InsertSortedSorted(s, item);
    InsertSortedElements(s, item);
    SortedDistinct(s);
    SortedDistinct(t);
    MapOfByEntries(s, t, item);
    MapOfSize(s);
    MapOfSize(t);
  }

  /** A sorted bucket is determined by its entries: InsertSorted is the only
      sorted sequence that holds the entries of the upsert. */
  lemma {:induction false} SortedUnique<V>(a: seq<HashEntry<int, V>>, b: seq<HashEntry<int, V>>)
    requires Sorted(a) && Sorted(b)
    requires forall e :: e in a <==> e in b
    ensures a == b
  {
    assert b == [] || b[0] in b;
    if a != [] {
      assert a[0] in a;
      var m :| 0 <= m < |b| && b[m] == a[0];
      assert b[0] in b;
      var i :| 0 <= i < |a| && a[i] == b[0];
      assert a[0].key <= a[i].key == b[0].key <= b[m].key == a[0].key;
      assert a[0] == b[0];
      SameTail(a, b);
      SameTail(b, a);
      SortedUnique(a[1..], b[1..]);
      assert a == [a[0]] + a[1..] && b == [b[0]] + b[1..];
    }
  }

  lemma SameTail<V>(a: seq<HashEntry<int, V>>, b: seq<HashEntry<int, V>>)
    requires Sorted(a) && Sorted(b) && a != [] && b != [] && a[0] == b[0]
    requires forall e :: e in a ==> e in b
    ensures forall e :: e in a[1..] ==> e in b[1..]
  {
    forall e | e in a[1..]
      ensures e in b[1..]
    {
      var j :| 0 <= j < |a| - 1 && a[1..][j] == e;
      assert e == a[j + 1] && a[0].key < e.key;
      assert e in a;
      var j' :| 0 <= j' < |b| && b[j'] == e;
      assert b[1..][j' - 1] == e;
    }
  }
}

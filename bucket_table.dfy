/**
 * The bucket table of the separate-chaining maps, seen as a sequence of
 * buckets, each the sequence of entries that bucket yields. An entry lives
 * in bucket `hash_value mod size` and caches the hash of its key; the map the
 * table represents is the union of the maps of its buckets.
 */
module BucketTables {
  import opened Base
  import opened ChainSpec

  /** Every entry of the first |bs| buckets (of a table of n buckets) carries
      its key's hash and sits in bucket `hash_value mod n`. */
  ghost predicate Placed<V>(bs: seq<seq<HashEntry<int, V>>>, hash: int -> int, n: int)
    requires n > 0
  {
    forall i, e :: 0 <= i < |bs| && e in bs[i] ==> e.hashValue == hash(e.key) && e.hashValue % n == i
  }

  /** A well-formed table: at least one bucket, entries placed by their hash,
      no key twice within a bucket. */
  ghost predicate Table<V>(bs: seq<seq<HashEntry<int, V>>>, hash: int -> int)
  {
    |bs| > 0 && Placed(bs, hash, |bs|) && (forall i :: 0 <= i < |bs| ==> DistinctKeys(bs[i]))
  }

  /** The mapping the table represents. */
  ghost function ContentsOf<V>(bs: seq<seq<HashEntry<int, V>>>): map<int, V>
  {
    if bs == [] then map[] else ContentsOf(bs[..|bs| - 1]) + MapOf(bs[|bs| - 1])
  }

  /** The number of entries over all buckets. */
  function Total<V>(bs: seq<seq<HashEntry<int, V>>>): nat
  {
    if bs == [] then 0 else Total(bs[..|bs| - 1]) + |bs[|bs| - 1]|
  }

  /** The keys of a bucket in the order it yields them. */
  function KeysOfEntries<V>(s: seq<HashEntry<int, V>>): seq<int>
  {
    if s == [] then [] else KeysOfEntries(s[..|s| - 1]) + [s[|s| - 1].key]
  }

  /** The keys of the table, bucket after bucket: what iteration yields. */
  function KeysIn<V>(bs: seq<seq<HashEntry<int, V>>>): seq<int>
  {
    if bs == [] then [] else KeysIn(bs[..|bs| - 1]) + KeysOfEntries(bs[|bs| - 1])
  }

  /** A table of n empty buckets. */
  function EmptyBuckets<V>(n: nat): (bs: seq<seq<HashEntry<int, V>>>)
    ensures |bs| == n && forall i :: 0 <= i < n ==> bs[i] == []
  {
    seq(n, _ => [])
  }

  // ---------------------------------------------------------------------
  // Where a key is found

  lemma {:induction false} PrefixAt<V>(bs: seq<seq<HashEntry<int, V>>>, hash: int -> int, n: int, k: int)
    requires n > 0 && Placed(bs, hash, n)
    ensures k in ContentsOf(bs) <==> hash(k) % n < |bs| && k in MapOf(bs[hash(k) % n])
    ensures k in ContentsOf(bs) ==> ContentsOf(bs)[k] == MapOf(bs[hash(k) % n])[k]
    decreases |bs|
  {
    if bs != [] {
      var pre, last := bs[..|bs| - 1], bs[|bs| - 1];
      assert Placed(pre, hash, n) by {
        forall i, e: HashEntry<int, V> | 0 <= i < |pre| && e in pre[i]
          ensures e.hashValue == hash(e.key) && e.hashValue % n == i
        {
          assert pre[i] == bs[i];
        }
      }
      PrefixAt(pre, hash, n, k);
      MapOfKeys(last, k);
      if k in MapOf(last) {
        var j :| 0 <= j < |last| && last[j].key == k;
        assert last[j] in bs[|bs| - 1];
      }
    }
  }

  /** In a well-formed table a key can only be in the bucket its hash selects. */
  lemma ContentsAt<V>(bs: seq<seq<HashEntry<int, V>>>, hash: int -> int, k: int)
    requires Table(bs, hash)
    ensures k in ContentsOf(bs) <==> k in MapOf(bs[hash(k) % |bs|])
    ensures k in ContentsOf(bs) ==> ContentsOf(bs)[k] == MapOf(bs[hash(k) % |bs|])[k]
  {
    PrefixAt(bs, hash, |bs|, k);
  }

  /** Key k is in the table iff its bucket holds an entry with key k. */
  lemma ContentsHasKey<V>(bs: seq<seq<HashEntry<int, V>>>, hash: int -> int, k: int)
    requires Table(bs, hash)
    ensures k in ContentsOf(bs) <==> HasKey(bs[hash(k) % |bs|], k)
  {
    ContentsAt(bs, hash, k);
    MapOfKeys(bs[hash(k) % |bs|], k);
  }

  // ---------------------------------------------------------------------
  // Size and keys

  lemma {:induction false} PrefixSize<V>(bs: seq<seq<HashEntry<int, V>>>, hash: int -> int, n: int)
    requires n > 0 && Placed(bs, hash, n) && forall i :: 0 <= i < |bs| ==> DistinctKeys(bs[i])
    ensures |ContentsOf(bs)| == Total(bs)
    decreases |bs|
  {
    if bs != [] {
      var pre, last := bs[..|bs| - 1], bs[|bs| - 1];
      assert Placed(pre, hash, n) by {
        forall i, e: HashEntry<int, V> | 0 <= i < |pre| && e in pre[i]
          ensures e.hashValue == hash(e.key) && e.hashValue % n == i
        {
          assert pre[i] == bs[i];
        }
      }
      assert forall i :: 0 <= i < |pre| ==> DistinctKeys(pre[i]) by {
        forall i | 0 <= i < |pre| ensures DistinctKeys(pre[i]) {
          assert pre[i] == bs[i];
        }
      }
      PrefixSize(pre, hash, n);
      MapOfSize(last);
      LastDisjoint(bs, hash, n);
      DisjointUnionSize(ContentsOf(pre), MapOf(last));
    }
  }

  /** The keys of the last bucket are not among those of the buckets before it. */
  lemma LastDisjoint<V>(bs: seq<seq<HashEntry<int, V>>>, hash: int -> int, n: int)
    requires n > 0 && Placed(bs, hash, n) && bs != []
    ensures ContentsOf(bs[..|bs| - 1]).Keys * MapOf(bs[|bs| - 1]).Keys == {}
  {
    var pre, last := bs[..|bs| - 1], bs[|bs| - 1];
    forall k | k in ContentsOf(pre) && k in MapOf(last) ensures false {
      PrefixAt(bs, hash, n, k);
      MapOfKeys(last, k);
      var j :| 0 <= j < |last| && last[j].key == k;
      assert last[j] in bs[|bs| - 1];
      assert Placed(pre, hash, n) by {
        forall i, e: HashEntry<int, V> | 0 <= i < |pre| && e in pre[i]
          ensures e.hashValue == hash(e.key) && e.hashValue % n == i
        {
          assert pre[i] == bs[i];
        }
      }
      PrefixAt(pre, hash, n, k);
    }
  }

  lemma DisjointUnionSize<V>(a: map<int, V>, b: map<int, V>)
    requires a.Keys * b.Keys == {}
    ensures |a + b| == |a| + |b|
  {
    assert (a + b).Keys == a.Keys + b.Keys;
  }

  /** The table holds as many keys as its buckets hold entries. */
  lemma ContentsSize<V>(bs: seq<seq<HashEntry<int, V>>>, hash: int -> int)
    requires Table(bs, hash)
    ensures |ContentsOf(bs)| == Total(bs)
  {
    PrefixSize(bs, hash, |bs|);
  }

  lemma {:induction false} KeysOfEntriesSpec<V>(s: seq<HashEntry<int, V>>)
    ensures |KeysOfEntries(s)| == |s|
    ensures forall k :: k in KeysOfEntries(s) <==> k in MapOf(s)
  {
    if s != [] {
      KeysOfEntriesSpec(s[..|s| - 1]);
    }
  }

  /** Iteration yields exactly the keys of the table, one per entry. */
  lemma {:induction false} KeysInSpec<V>(bs: seq<seq<HashEntry<int, V>>>)
    ensures |KeysIn(bs)| == Total(bs)
    ensures forall k :: k in KeysIn(bs) <==> k in ContentsOf(bs)
  {
    if bs != [] {
      KeysInSpec(bs[..|bs| - 1]);
      KeysOfEntriesSpec(bs[|bs| - 1]);
    }
  }

  lemma EmptyTable<V>(hash: int -> int, n: nat)
    requires n > 0
    ensures Table(EmptyBuckets<V>(n), hash)
    ensures ContentsOf(EmptyBuckets<V>(n)) == map[] && Total(EmptyBuckets<V>(n)) == 0
  {
    var bs := EmptyBuckets<V>(n);
    EmptyPrefix(bs, n);
    assert bs[..|bs|] == bs;
  }

  lemma {:induction false} EmptyPrefix<V>(bs: seq<seq<HashEntry<int, V>>>, m: nat)
    requires m <= |bs| && forall i :: 0 <= i < |bs| ==> bs[i] == []
    ensures ContentsOf(bs[..m]) == map[] && Total(bs[..m]) == 0
  {
    if m > 0 {
      EmptyPrefix(bs, m - 1);
      assert bs[..m][..m - 1] == bs[..m - 1];
    }
  }

  // ---------------------------------------------------------------------
  // Replacing one bucket

  lemma {:induction false} TotalReplace<V>(bs: seq<seq<HashEntry<int, V>>>, i: int, b: seq<HashEntry<int, V>>)
    requires 0 <= i < |bs|
    ensures Total(bs[i := b]) == Total(bs) - |bs[i]| + |b|
    decreases |bs|
  {
    var t := bs[i := b];
    if i < |bs| - 1 {
      assert t[..|t| - 1] == bs[..|bs| - 1][i := b];
      TotalReplace(bs[..|bs| - 1], i, b);
    } else {
      assert t[..|t| - 1] == bs[..|bs| - 1];
    }
  }

  /** A bucket whose entries come from the old bucket or are placed there by
      their hash keeps the table well formed. */
  lemma TableReplace<V>(bs: seq<seq<HashEntry<int, V>>>, hash: int -> int, i: int, b: seq<HashEntry<int, V>>)
    requires Table(bs, hash) && 0 <= i < |bs| && DistinctKeys(b)
    requires forall e :: e in b ==> e in bs[i] || (e.hashValue == hash(e.key) && e.hashValue % |bs| == i)
    ensures Table(bs[i := b], hash)
  {
    var t := bs[i := b];
    forall j, e: HashEntry<int, V> | 0 <= j < |t| && e in t[j]
      ensures e.hashValue == hash(e.key) && e.hashValue % |t| == j
    {
      if j != i {
        assert e in bs[j];
      } else if e in bs[i] {
      }
    }
  }

  /** `set` on the table: the bucket of `key` now maps `key` to `value`. */
  lemma SetBucket<V>(bs: seq<seq<HashEntry<int, V>>>, hash: int -> int, key: int, value: V, b: seq<HashEntry<int, V>>)
    requires Table(bs, hash) && Table(bs[hash(key) % |bs| := b], hash)
    requires MapOf(b) == MapOf(bs[hash(key) % |bs|])[key := value]
    ensures ContentsOf(bs[hash(key) % |bs| := b]) == ContentsOf(bs)[key := value]
  {
    var i := hash(key) % |bs|;
    var t := bs[i := b];
    forall k ensures (k in ContentsOf(t) <==> k in ContentsOf(bs)[key := value])
      && (k in ContentsOf(t) ==> ContentsOf(t)[k] == ContentsOf(bs)[key := value][k])
    {
      ContentsAt(bs, hash, k);
      ContentsAt(t, hash, k);
    }
  }

  /** `delete` on the table: the bucket of `key` no longer maps `key`. */
  lemma DeleteBucket<V>(bs: seq<seq<HashEntry<int, V>>>, hash: int -> int, key: int, b: seq<HashEntry<int, V>>)
    requires Table(bs, hash) && Table(bs[hash(key) % |bs| := b], hash)
    requires MapOf(b) == MapOf(bs[hash(key) % |bs|]) - {key}
    ensures ContentsOf(bs[hash(key) % |bs| := b]) == ContentsOf(bs) - {key}
  {
    var i := hash(key) % |bs|;
    var t := bs[i := b];
    forall k ensures (k in ContentsOf(t) <==> k in ContentsOf(bs) - {key})
      && (k in ContentsOf(t) ==> ContentsOf(t)[k] == (ContentsOf(bs) - {key})[k])
    {
      ContentsAt(bs, hash, k);
      ContentsAt(t, hash, k);
    }
  }

  /** `__setitem__` on the table: the key's bucket becomes `b`, which maps the
      key to the value and otherwise holds what the bucket held. */
  lemma TableSet<V>(bs: seq<seq<HashEntry<int, V>>>, hash: int -> int, key: int, value: V, b: seq<HashEntry<int, V>>)
    requires Table(bs, hash)
    requires var i := hash(key) % |bs|;
      && DistinctKeys(b) && MapOf(b) == MapOf(bs[i])[key := value]
      && |b| == |bs[i]| + (if key in MapOf(bs[i]) then 0 else 1)
      && forall e :: e in b ==> e in bs[i] || e == HashEntry(hash(key), key, value)
    ensures var t := bs[hash(key) % |bs| := b];
      && Table(t, hash) && ContentsOf(t) == ContentsOf(bs)[key := value]
      && Total(t) == Total(bs) + (if key in ContentsOf(bs) then 0 else 1)
      && (key in ContentsOf(bs) <==> key in MapOf(bs[hash(key) % |bs|]))
  {
    var i := hash(key) % |bs|;
    TableReplace(bs, hash, i, b);
    SetBucket(bs, hash, key, value, b);
    TotalReplace(bs, i, b);
    ContentsAt(bs, hash, key);
  }

  /** `__delitem__` on the table: the key leaves its bucket and the mapping;
      the bucket shrinks exactly when the key was there. */
  lemma TableDelete<V>(bs: seq<seq<HashEntry<int, V>>>, hash: int -> int, key: int)
    requires Table(bs, hash)
    ensures var i := hash(key) % |bs|; var t := bs[i := RemoveKey(bs[i], key)];
      && Table(t, hash) && ContentsOf(t) == ContentsOf(bs) - {key}
      && Total(t) == Total(bs) - (if key in ContentsOf(bs) then 1 else 0)
      && |t[i]| == |bs[i]| - (if key in ContentsOf(bs) then 1 else 0)
      && (HasKey(bs[i], key) <==> key in ContentsOf(bs))
  {
    var i := hash(key) % |bs|;
    var b := RemoveKey(bs[i], key);
    RemoveKeySpec(bs[i], key);
    TableReplace(bs, hash, i, b);
    DeleteBucket(bs, hash, key, b);
    TotalReplace(bs, i, b);
    ContentsHasKey(bs, hash, key);
    ContentsAt(bs, hash, key);
  }

  // ---------------------------------------------------------------------
  // Rehashing into a table of another size

  /** What the entries moved so far represent: every bucket before i, and
      the first j entries of bucket i. */
  ghost function Moved<V>(bs: seq<seq<HashEntry<int, V>>>, i: int, j: int): map<int, V>
    requires 0 <= i < |bs| && 0 <= j <= |bs[i]|
  {
    ContentsOf(bs[..i]) + MapOf(bs[i][..j])
  }

  /** The next entry to move is not yet in the new table. */
  lemma RehashFresh<V>(bs: seq<seq<HashEntry<int, V>>>, hash: int -> int, nb: seq<seq<HashEntry<int, V>>>, i: int, j: int)
    requires Table(bs, hash) && Table(nb, hash) && 0 <= i < |bs| && 0 <= j < |bs[i]|
    requires ContentsOf(nb) == Moved(bs, i, j)
    ensures !HasKey(nb[bs[i][j].hashValue % |nb|], bs[i][j].key)
  {
    var e := bs[i][j];
    assert e in bs[i];
    assert Placed(bs[..i], hash, |bs|) by {
      forall a, x: HashEntry<int, V> | 0 <= a < i && x in bs[..i][a]
        ensures x.hashValue == hash(x.key) && x.hashValue % |bs| == a
      {
        assert bs[..i][a] == bs[a];
      }
    }
    PrefixAt(bs[..i], hash, |bs|, e.key);
    MapOfKeys(bs[i][..j], e.key);
    ContentsHasKey(nb, hash, e.key);
  }

  /** Moving the next entry into its bucket of the new table. */
  lemma RehashStep<V>(bs: seq<seq<HashEntry<int, V>>>, hash: int -> int, nb: seq<seq<HashEntry<int, V>>>,
                      i: int, j: int, b: seq<HashEntry<int, V>>)
    requires Table(bs, hash) && Table(nb, hash) && 0 <= i < |bs| && 0 <= j < |bs[i]|
    requires ContentsOf(nb) == Moved(bs, i, j)
    requires var e := bs[i][j];
      && DistinctKeys(b) && MapOf(b) == MapOf(nb[e.hashValue % |nb|])[e.key := e.value]
      && (forall x :: x in b ==> x in nb[e.hashValue % |nb|] || x == e)
    ensures var t := nb[bs[i][j].hashValue % |nb| := b];
      Table(t, hash) && ContentsOf(t) == Moved(bs, i, j + 1)
  {
    var e := bs[i][j];
    assert e in bs[i];
    assert e.hashValue == hash(e.key);
    TableReplace(nb, hash, e.hashValue % |nb|, b);
    SetBucket(nb, hash, e.key, e.value, b);
    MovedStep(bs, i, j);
  }

  /** Moving one more entry of bucket i adds its binding. */
  lemma MovedStep<V>(bs: seq<seq<HashEntry<int, V>>>, i: int, j: int)
    requires 0 <= i < |bs| && 0 <= j < |bs[i]|
    ensures Moved(bs, i, j + 1) == Moved(bs, i, j)[bs[i][j].key := bs[i][j].value]
  {
    assert bs[i][..j + 1][..j] == bs[i][..j];
  }

  /** Moving on to the next old bucket. */
  lemma RehashNext<V>(bs: seq<seq<HashEntry<int, V>>>, i: int)
    requires 0 <= i < |bs|
    ensures ContentsOf(bs[..i + 1]) == Moved(bs, i, |bs[i]|)
    ensures Total(bs[..i + 1]) == Total(bs[..i]) + |bs[i]|
  {
    assert bs[..i + 1][..i] == bs[..i];
    assert bs[i][..|bs[i]|] == bs[i];
  }
}

/**
 * The `DynamicArray` bucket: a Python list of entries updated in place,
 * modelled as a sequence field the methods reassign.
 */
module DynamicArrays {
  import opened Base
  import opened ChainSpec

  class DynamicArray<K(==), V> {
    var lst: seq<HashEntry<K, V>>

    constructor ()
      ensures lst == []
    {
      lst := [];
    }

    /** `__len__`. */
    function Length(): (n: nat)
      reads this
      ensures n == |lst|
    {
      |lst|
    }

    /** `__iter__`: the entries in list order. */
    method Items() returns (s: seq<HashEntry<K, V>>)
      ensures s == lst
    {
      s := [];
      for i := 0 to |lst|
        invariant s == lst[..i]
      {
        s := s + [lst[i]];
      }
    }

    /** `find`: the first entry with the same key, or KeyError. */
    method Find(key: K) returns (r: Result<HashEntry<K, V>>)
      ensures r == Lookup(lst, key)
    {
      for i := 0 to |lst|
        invariant forall j :: 0 <= j < i ==> lst[j].key != key
      {
        if IsSame(lst[i].key, key) {
          return Ok(lst[i]);
        }
      }
      return Err(KeyError);
    }

    /** `insert`: overwrite the entry with the same key where it stands, or
        append when there is none. */
    method Insert(item: HashEntry<K, V>)
      modifies this
      ensures lst == Upsert(old(lst), item)
    {
      var i := 0;
      while i < |lst|
        invariant 0 <= i <= |lst| && lst == old(lst)
        invariant forall j :: 0 <= j < i ==> lst[j].key != item.key
      {
        if IsSame(item.key, lst[i].key) {
          lst := lst[i := item];
          return;
        }
        i := i + 1;
      }
      lst := lst + [item];
    }

    /** `delete`: remove the first entry with the key, the others keeping
        their order; KeyError with the list untouched when there is none. */
    method Delete(key: K) returns (r: Result<()>)
      modifies this
      ensures r.Ok? <==> HasKey(old(lst), key)
      ensures r.Err? ==> r.error == KeyError
      ensures lst == RemoveKey(old(lst), key)
    {
      var i := 0;
      while i < |lst|
        invariant 0 <= i <= |lst| && lst == old(lst)
        invariant forall j :: 0 <= j < i ==> lst[j].key != key
      {
        if IsSame(key, lst[i].key) {
          lst := lst[..i] + lst[i + 1..];
          return Ok(());
        }
        i := i + 1;
      }
      return Err(KeyError);
    }

    /** `append_at_end`: the fast path used while resizing. */
    method AppendAtEnd(item: HashEntry<K, V>)
      modifies this
      ensures lst == old(lst) + [item]
    {
      lst := lst + [item];
    }
  }
}

/**
 * Open addressing (linear probing, quadratic probing, double hashing): one
 * flat array of tri-state slots walked along a probe sequence.
 *
 * The first part states, on plain sequences of slots, what the table holds
 * and the invariant that makes lookups with tombstones correct; the class
 * `OpenAddressingHashMap` then updates an array of slots in place and is
 * proved against those functions.
 */
module OpenAddressing {
  import opened Base
  import opened Probing

  /** A slot never used, a tombstone left by a deletion, or a live entry. */
  datatype Slot<K, V> = Empty | Deleted | Occupied(entry: HashEntry<K, V>)

  /** The resize factor as an exact fraction num/den. */
  datatype Ratio = Ratio(num: int, den: int)
  type ResizeFactor = r: Ratio | r.den > 0 witness Ratio(0, 1)

  /** The constructor accepts a resize factor strictly between 0 and 1. */
  function ValidResizeFactor(f: ResizeFactor): (ok: bool)
    ensures ok <==> 0.0 < (f.num as real) / (f.den as real) < 1.0
  {
    var q := (f.num as real) / (f.den as real);
    assert q * (f.den as real) == f.num as real;
    0 < f.num < f.den
  }

  /** `len / size >= resize_factor`, compared without rounding. */
  function NeedIncrease(len: int, size: int, f: ResizeFactor): (grow: bool)
    requires size > 0
    ensures grow <==> (len as real) / (size as real) >= (f.num as real) / (f.den as real)
  {
    var a, b := (len as real) / (size as real), (f.num as real) / (f.den as real);
    assert a * (size as real) == len as real && b * (f.den as real) == f.num as real;
    assert a * (size as real) * (f.den as real) == (len * f.den) as real;
    assert b * (size as real) * (f.den as real) == (f.num * size) as real;
    len * f.den >= f.num * size
  }

  // ---------------------------------------------------------------------
  // What a sequence of slots holds

  /** The slot holds the entry the probe loops are looking for. */
  predicate Matches<K(==), V>(slot: Slot<K, V>, h: int, key: K)
  {
    slot.Occupied? && h == slot.entry.hashValue && IsSame(slot.entry.key, key)
  }

  /** Number of slots holding an entry. */
  function LiveCount<K, V>(s: seq<Slot<K, V>>): (n: nat)
    ensures n <= |s|
  {
    if s == [] then 0
    else LiveCount(s[..|s| - 1]) + (if s[|s| - 1].Occupied? then 1 else 0)
  }

  /** The keys of the live entries in slot order: what iteration yields. */
  function KeysOf<K, V>(s: seq<Slot<K, V>>): seq<K>
  {
    if s == [] then []
    else KeysOf(s[..|s| - 1]) + (if s[|s| - 1].Occupied? then [s[|s| - 1].entry.key] else [])
  }

  /** The mapping the slots represent. */
  ghost function ContentsOf<K, V>(s: seq<Slot<K, V>>): map<K, V>
  {
    if s == [] then map[] else Put(ContentsOf(s[..|s| - 1]), s[|s| - 1])
  }

  /** Add the entry of a slot, if it holds one. */
  ghost function Put<K, V>(m: map<K, V>, slot: Slot<K, V>): map<K, V>
  {
    if slot.Occupied? then m[slot.entry.key := slot.entry.value] else m
  }

  /** Remove the key of a slot, if it holds one. */
  ghost function Drop<K, V>(m: map<K, V>, slot: Slot<K, V>): map<K, V>
  {
    if slot.Occupied? then m - {slot.entry.key} else m
  }

  ghost predicate DistinctKeys<K, V>(s: seq<Slot<K, V>>)
  {
    forall i, j ::
      (0 <= i < |s| && 0 <= j < |s| && s[i].Occupied? && s[j].Occupied?
       && s[i].entry.key == s[j].entry.key) ==> i == j
  }

  ghost predicate NoTombstones<K, V>(s: seq<Slot<K, V>>)
  {
    forall j :: 0 <= j < |s| ==> !s[j].Deleted?
  }

  /** Every entry carries the hash code of its own key. */
  ghost predicate HashesCached<K, V>(s: seq<Slot<K, V>>, hash: K -> int)
  {
    forall j :: 0 <= j < |s| && s[j].Occupied? ==> s[j].entry.hashValue == hash(s[j].entry.key)
  }

  /** The entry in slot j sits at probe number pos[j] of its own probe
      sequence, and every slot probed before it is not EMPTY. */
  ghost predicate OnPath<K, V>(s: seq<Slot<K, V>>, p: Strategy, pos: seq<nat>, j: int)
    requires |s| > 0 && WellFormed(p) && |pos| == |s| && 0 <= j < |s| && s[j].Occupied?
  {
    var h := s[j].entry.hashValue;
    Probe(p, h, |s|, pos[j]) == j
    && forall i: nat :: i < pos[j] ==> !s[Probe(p, h, |s|, i)].Empty?
  }

  /** The invariant of an open-addressing table. */
  ghost predicate Table<K, V>(s: seq<Slot<K, V>>, p: Strategy, pos: seq<nat>, hash: K -> int)
  {
    && |s| > 0 && WellFormed(p) && |pos| == |s|
    && DistinctKeys(s) && HashesCached(s, hash)
    && forall j :: 0 <= j < |s| && s[j].Occupied? ==> OnPath(s, p, pos, j)
  }

  /** Probe i of `key` ends a walk: an EMPTY slot, or the key itself. */
  ghost predicate StopsAt<K, V>(s: seq<Slot<K, V>>, p: Strategy, h: int, key: K, i: nat)
    requires |s| > 0 && WellFormed(p)
  {
    var slot := s[Probe(p, h, |s|, i)];
    slot.Empty? || Matches(slot, h, key)
  }

  /** The `while True` probe loop for `key` ends at all. */
  ghost predicate ProbeStops<K, V>(s: seq<Slot<K, V>>, p: Strategy, h: int, key: K)
    requires |s| > 0 && WellFormed(p)
  {
    exists i: nat :: StopsAt(s, p, h, key, i)
  }

  /** Probe n is the first probe that ends the walk. */
  ghost predicate FirstStop<K, V>(s: seq<Slot<K, V>>, p: Strategy, h: int, key: K, n: nat)
    requires |s| > 0 && WellFormed(p)
  {
    StopsAt(s, p, h, key, n) && forall i: nat :: i < n ==> !StopsAt(s, p, h, key, i)
  }

  /** Probe n is the first EMPTY slot of the walk for hash code h: where the
      inner loop of `_increase_size` puts an entry. */
  ghost predicate FirstEmpty<K, V>(s: seq<Slot<K, V>>, p: Strategy, h: int, n: nat)
    requires |s| > 0 && WellFormed(p)
  {
    s[Probe(p, h, |s|, n)].Empty? && forall i: nat :: i < n ==> !s[Probe(p, h, |s|, i)].Empty?
  }

  /** The walk for hash code h meets an EMPTY slot at all. */
  ghost predicate HasEmptyProbe<K, V>(s: seq<Slot<K, V>>, p: Strategy, h: int)
    requires |s| > 0 && WellFormed(p)
  {
    exists n: nat :: s[Probe(p, h, |s|, n)].Empty?
  }

  ghost function FirstEmptyProbe<K, V>(s: seq<Slot<K, V>>, p: Strategy, h: int): (n: nat)
    requires |s| > 0 && WellFormed(p) && HasEmptyProbe(s, p, h)
    ensures FirstEmpty(s, p, h, n)
  {
    FirstEmptyExists(s, p, h);
    var n: nat :| FirstEmpty(s, p, h, n); n
  }

  /** `s` with entry `e` stored at the first EMPTY slot of the walk for the
      hash code of its key, computed afresh. */
  ghost function Placed<K, V>(s: seq<Slot<K, V>>, p: Strategy, hash: K -> int, e: HashEntry<K, V>)
    : (t: seq<Slot<K, V>>)
    requires |s| > 0 && WellFormed(p) && HasEmptyProbe(s, p, hash(e.key))
    ensures |t| == |s|
  {
    s[Probe(p, hash(e.key), |s|, FirstEmptyProbe(s, p, hash(e.key))) := Occupied(e)]
  }

  /** A table of n EMPTY slots. */
  function Empties<K, V>(n: nat): (s: seq<Slot<K, V>>)
    ensures |s| == n && forall j :: 0 <= j < n ==> s[j].Empty?
  {
    seq(n, _ => Empty)
  }

  /** Placing the live entries of `src[j..]` into `s` one after the other,
      in slot order, each finds an EMPTY slot on its walk: what the
      `for idx in ...: if slot is EMPTY` loop of `_increase_size` needs in
      order to end for every entry. */
  ghost predicate Refits<K, V>(src: seq<Slot<K, V>>, j: nat, s: seq<Slot<K, V>>, p: Strategy,
                               hash: K -> int)
    requires |s| > 0 && WellFormed(p) && j <= |src|
    decreases |src| - j
  {
    if j == |src| then true
    else if src[j].Occupied? then
      HasEmptyProbe(s, p, hash(src[j].entry.key))
      && Refits(src, j + 1, Placed(s, p, hash, src[j].entry), p, hash)
    else Refits(src, j + 1, s, p, hash)
  }

  /** The slots `_increase_size` builds from `s` by placing the live entries
      of `src[j..]`. */
  ghost function Reinserted<K, V>(src: seq<Slot<K, V>>, j: nat, s: seq<Slot<K, V>>, p: Strategy,
                                  hash: K -> int): (t: seq<Slot<K, V>>)
    requires |s| > 0 && WellFormed(p) && j <= |src| && Refits(src, j, s, p, hash)
    ensures |t| == |s|
    decreases |src| - j
  {
    if j == |src| then s
    else if src[j].Occupied? then Reinserted(src, j + 1, Placed(s, p, hash, src[j].entry), p, hash)
    else Reinserted(src, j + 1, s, p, hash)
  }

  /** Growth on inserting `e` can be completed: its walk meets an EMPTY slot,
      and the table with `e` placed refits into `newSize` EMPTY slots. */
  ghost predicate ResizeFits<K, V>(s: seq<Slot<K, V>>, p: Strategy, hash: K -> int,
                                   e: HashEntry<K, V>, newSize: nat)
    requires |s| > 0 && WellFormed(p) && newSize > 0
  {
    HasEmptyProbe(s, p, hash(e.key)) && Refits(Placed(s, p, hash, e), 0, Empties(newSize), p, hash)
  }

  // ---------------------------------------------------------------------
  // Lemmas about the contents

  lemma {:induction false} LeastEmpty<K, V>(s: seq<Slot<K, V>>, p: Strategy, h: int, m: nat)
    returns (n: nat)
    requires |s| > 0 && WellFormed(p) && s[Probe(p, h, |s|, m)].Empty?
    ensures n <= m && FirstEmpty(s, p, h, n)
    decreases m
  {
    if i: nat :| i < m && s[Probe(p, h, |s|, i)].Empty? {
      n := LeastEmpty(s, p, h, i);
    } else {
      n := m;
    }
  }

  lemma FirstEmptyExists<K, V>(s: seq<Slot<K, V>>, p: Strategy, h: int)
    requires |s| > 0 && WellFormed(p) && HasEmptyProbe(s, p, h)
    ensures exists n: nat :: FirstEmpty(s, p, h, n)
  {
    var m: nat :| s[Probe(p, h, |s|, m)].Empty?;
    var n := LeastEmpty(s, p, h, m);
  }

  /** The first EMPTY probe is unique, so `Placed` is where the loop stops. */
  lemma FirstEmptyIs<K, V>(s: seq<Slot<K, V>>, p: Strategy, h: int, n: nat)
    requires |s| > 0 && WellFormed(p) && FirstEmpty(s, p, h, n)
    ensures HasEmptyProbe(s, p, h) && FirstEmptyProbe(s, p, h) == n
  {
    var m := FirstEmptyProbe(s, p, h);
  }

  lemma {:induction false} SlotOfKey<K, V>(s: seq<Slot<K, V>>, k: K) returns (j: nat)
    requires k in ContentsOf(s)
    ensures j < |s| && s[j].Occupied? && s[j].entry.key == k
    ensures ContentsOf(s)[k] == s[j].entry.value
  {
    var last := s[|s| - 1];
    if last.Occupied? && last.entry.key == k {
      j := |s| - 1;
    } else {
      j := SlotOfKey(s[..|s| - 1], k);
    }
  }

  lemma {:induction false} ContentsOfOccupied<K, V>(s: seq<Slot<K, V>>, j: int)
    requires DistinctKeys(s) && 0 <= j < |s| && s[j].Occupied?
    ensures s[j].entry.key in ContentsOf(s)
    ensures ContentsOf(s)[s[j].entry.key] == s[j].entry.value
  {
    var pre := s[..|s| - 1];
    if j < |s| - 1 {
      assert pre[j] == s[j];
      ContentsOfOccupied(pre, j);
      assert s[|s| - 1].Occupied? ==> s[|s| - 1].entry.key != s[j].entry.key;
    }
  }

  /** The key in slot j is not held by any slot before j. */
  lemma KeyNotEarlier<K, V>(s: seq<Slot<K, V>>, j: int)
    requires DistinctKeys(s) && 0 <= j < |s| && s[j].Occupied?
    ensures s[j].entry.key !in ContentsOf(s[..j])
  {
    if s[j].entry.key in ContentsOf(s[..j]) {
      var i := SlotOfKey(s[..j], s[j].entry.key);
    }
  }

  /** Writing one slot: its old key leaves the mapping, its new entry enters. */
  lemma {:induction false} ContentsOfUpdate<K, V>(s: seq<Slot<K, V>>, j: int, x: Slot<K, V>)
    requires 0 <= j < |s| && DistinctKeys(s) && DistinctKeys(s[j := x])
    ensures ContentsOf(s[j := x]) == Put(Drop(ContentsOf(s), s[j]), x)
  {
    var n := |s|;
    var t := s[j := x];
    var pre := s[..n - 1];
    if j == n - 1 {
      assert t[..n - 1] == pre;
      if s[j].Occupied? {
        KeyNotEarlier(s, j);
      }
    } else {
      assert t[..n - 1] == pre[j := x];
      ContentsOfUpdate(pre, j, x);
      var last := s[n - 1];
      assert t[n - 1] == last;
      assert last.Occupied? && s[j].Occupied? ==> last.entry.key != s[j].entry.key;
      assert last.Occupied? && x.Occupied? ==> t[n - 1].entry.key != t[j].entry.key;
    }
  }

  lemma {:induction false} LiveCountUpdate<K, V>(s: seq<Slot<K, V>>, j: int, x: Slot<K, V>)
    requires 0 <= j < |s|
    ensures LiveCount(s[j := x])
         == LiveCount(s) - (if s[j].Occupied? then 1 else 0) + (if x.Occupied? then 1 else 0)
  {
    var n := |s|;
    if j == n - 1 {
      assert s[j := x][..n - 1] == s[..n - 1];
    } else {
      assert s[j := x][..n - 1] == s[..n - 1][j := x];
      LiveCountUpdate(s[..n - 1], j, x);
    }
  }

  /** With distinct keys the live counter is the size of the mapping. */
  lemma {:induction false} ContentsSize<K, V>(s: seq<Slot<K, V>>)
    requires DistinctKeys(s)
    ensures |ContentsOf(s)| == LiveCount(s)
  {
    if s != [] {
      var n := |s|;
      assert DistinctKeys(s[..n - 1]);
      ContentsSize(s[..n - 1]);
      if s[n - 1].Occupied? {
        KeyNotEarlier(s, n - 1);
      }
    }
  }

  /** Iteration yields each key of the mapping exactly once. */
  lemma {:induction false} KeysOfContents<K, V>(s: seq<Slot<K, V>>)
    requires DistinctKeys(s)
    ensures |KeysOf(s)| == LiveCount(s)
    ensures forall k :: k in KeysOf(s) <==> k in ContentsOf(s)
  {
    if s != [] {
      var n := |s|;
      assert DistinctKeys(s[..n - 1]);
      KeysOfContents(s[..n - 1]);
    }
  }

  lemma {:induction false} EmptySlotExists<K, V>(s: seq<Slot<K, V>>) returns (j: nat)
    requires NoTombstones(s) && LiveCount(s) < |s|
    ensures j < |s| && s[j].Empty?
  {
    var n := |s|;
    if s[n - 1].Empty? {
      j := n - 1;
    } else {
      j := EmptySlotExists(s[..n - 1]);
    }
  }

  /** Tombstones are walked past, so the first probe that ends the walk for
      `key` holds `key` exactly when the table maps `key`. */
  lemma SearchStopsAtKey<K, V>(s: seq<Slot<K, V>>, p: Strategy, pos: seq<nat>,
                                    hash: K -> int, key: K, n: nat)
    requires Table(s, p, pos, hash)
    requires FirstStop(s, p, hash(key), key, n)
    ensures Matches(s[Probe(p, hash(key), |s|, n)], hash(key), key) <==> key in ContentsOf(s)
    ensures Matches(s[Probe(p, hash(key), |s|, n)], hash(key), key)
        ==> ContentsOf(s)[key] == s[Probe(p, hash(key), |s|, n)].entry.value
  {
    var h := hash(key);
    var idx := Probe(p, h, |s|, n);
    if Matches(s[idx], h, key) {
      ContentsOfOccupied(s, idx);
    }
    if key in ContentsOf(s) {
      var j := SlotOfKey(s, key);
      assert OnPath(s, p, pos, j);
      var m := pos[j];
      assert Probe(p, h, |s|, m) == j;
      assert StopsAt(s, p, h, key, m);
      if n < m {
        assert !s[Probe(p, h, |s|, n)].Empty?;
      }
    }
  }

  /** A walk over a table that every probe path covers ends as soon as one
      slot is EMPTY. */
  lemma EmptySlotStopsWalk<K, V>(s: seq<Slot<K, V>>, p: Strategy, h: int, key: K, j: int)
    requires |s| > 0 && WellFormed(p) && Covering(p, |s|)
    requires 0 <= j < |s| && s[j].Empty?
    ensures ProbeStops(s, p, h, key)
  {
    assert Reaches(p, h, |s|, j);
    var i: nat :| Probe(p, h, |s|, i) == j;
    assert StopsAt(s, p, h, key, i);
  }

  /** So without deletions every walk ends, for linear probing and double
      hashing: the live entries alone never fill the table. */
  lemma WalkEndsWithoutTombstones<K, V>(s: seq<Slot<K, V>>, p: Strategy, h: int, key: K)
    requires |s| > 0 && WellFormed(p) && !p.Quadratic?
    requires NoTombstones(s) && LiveCount(s) < |s|
    ensures ProbeStops(s, p, h, key)
  {
    var j := EmptySlotExists(s);
    LinearAndDoubleHashingCover(p, |s|);
    EmptySlotStopsWalk(s, p, h, key, j);
  }

  /** Filling the first EMPTY slot of a new key's walk keeps the invariant. */
  lemma PlaceKeepsTable<K, V>(s: seq<Slot<K, V>>, p: Strategy, pos: seq<nat>,
                              hash: K -> int, n: nat, e: HashEntry<K, V>)
    requires Table(s, p, pos, hash)
    requires e.hashValue == hash(e.key) && e.key !in ContentsOf(s)
    requires s[Probe(p, e.hashValue, |s|, n)].Empty?
    requires forall i: nat :: i < n ==> !s[Probe(p, e.hashValue, |s|, i)].Empty?
    ensures var idx := Probe(p, e.hashValue, |s|, n);
      && Table(s[idx := Occupied(e)], p, pos[idx := n], hash)
      && ContentsOf(s[idx := Occupied(e)]) == ContentsOf(s)[e.key := e.value]
      && LiveCount(s[idx := Occupied(e)]) == LiveCount(s) + 1
  {
    var idx := Probe(p, e.hashValue, |s|, n);
    var t := s[idx := Occupied(e)];
    forall i, j | 0 <= i < |t| && 0 <= j < |t| && t[i].Occupied? && t[j].Occupied?
        && t[i].entry.key == t[j].entry.key
      ensures i == j
    {
      if i != idx { ContentsOfOccupied(s, i); }
      if j != idx { ContentsOfOccupied(s, j); }
    }
    forall j | 0 <= j < |t| && t[j].Occupied?
      ensures OnPath(t, p, pos[idx := n], j)
    {
      if j != idx {
        assert OnPath(s, p, pos, j);
      }
    }
    ContentsOfUpdate(s, idx, Occupied(e));
    LiveCountUpdate(s, idx, Occupied(e));
  }

  /** Overwriting the value of a live entry keeps the invariant. */
  lemma OverwriteKeepsTable<K, V>(s: seq<Slot<K, V>>, p: Strategy, pos: seq<nat>,
                                  hash: K -> int, idx: int, v: V)
    requires Table(s, p, pos, hash) && 0 <= idx < |s| && s[idx].Occupied?
    ensures var t := s[idx := Occupied(s[idx].entry.(value := v))];
      && Table(t, p, pos, hash)
      && ContentsOf(t) == ContentsOf(s)[s[idx].entry.key := v]
      && LiveCount(t) == LiveCount(s)
  {
    var t := s[idx := Occupied(s[idx].entry.(value := v))];
    forall j | 0 <= j < |t| && t[j].Occupied?
      ensures OnPath(t, p, pos, j)
    {
      assert OnPath(s, p, pos, j);
    }
    ContentsOfUpdate(s, idx, t[idx]);
    LiveCountUpdate(s, idx, t[idx]);
  }

  /** Turning a live entry into a tombstone keeps the invariant: later walks
      still pass the slot, because a tombstone is not EMPTY. */
  lemma DeleteKeepsTable<K, V>(s: seq<Slot<K, V>>, p: Strategy, pos: seq<nat>,
                               hash: K -> int, idx: int)
    requires Table(s, p, pos, hash) && 0 <= idx < |s| && s[idx].Occupied?
    ensures var t := s[idx := Deleted];
      && Table(t, p, pos, hash)
      && ContentsOf(t) == ContentsOf(s) - {s[idx].entry.key}
      && LiveCount(t) == LiveCount(s) - 1
  {
    var t := s[idx := Deleted];
    forall j | 0 <= j < |t| && t[j].Occupied?
      ensures OnPath(t, p, pos, j)
    {
      assert OnPath(s, p, pos, j);
    }
    ContentsOfUpdate(s, idx, Deleted);
    LiveCountUpdate(s, idx, Deleted);
  }

  /** One step of the outer loop of `_increase_size`: slot j is placed, or
      skipped when it holds no entry. */
  lemma ReinsertStep<K, V>(src: seq<Slot<K, V>>, j: nat, s: seq<Slot<K, V>>, p: Strategy,
                           hash: K -> int)
    requires |s| > 0 && WellFormed(p) && j < |src| && Refits(src, j, s, p, hash)
    ensures src[j].Occupied? ==> HasEmptyProbe(s, p, hash(src[j].entry.key))
    ensures var t := if src[j].Occupied? then Placed(s, p, hash, src[j].entry) else s;
      Refits(src, j + 1, t, p, hash) && Reinserted(src, j + 1, t, p, hash) == Reinserted(src, j, s, p, hash)
  {
  }

  lemma PrefixStep<K, V>(s: seq<Slot<K, V>>, j: int)
    requires 0 <= j < |s|
    ensures ContentsOf(s[..j + 1]) == Put(ContentsOf(s[..j]), s[j])
    ensures LiveCount(s[..j + 1]) == LiveCount(s[..j]) + (if s[j].Occupied? then 1 else 0)
  {
    assert s[..j + 1][..j] == s[..j];
  }

  /** Where every probe path covers the new table, the live entries refit
      as long as they do not outnumber its slots. */
  lemma {:induction false} CoveringRefits<K, V>(src: seq<Slot<K, V>>, j: nat, s: seq<Slot<K, V>>,
                                                p: Strategy, hash: K -> int)
    requires |s| > 0 && WellFormed(p) && Covering(p, |s|) && j <= |src| && NoTombstones(s)
    requires LiveCount(s) + LiveCount(src) - LiveCount(src[..j]) <= |s|
    ensures Refits(src, j, s, p, hash)
    decreases |src| - j
  {
    if j < |src| {
      assert src[..j + 1][..j] == src[..j];
      PrefixLiveCount(src, j + 1);
      if src[j].Occupied? {
        var h := hash(src[j].entry.key);
        var free := EmptySlotExists(s);
        assert Reaches(p, h, |s|, free);
        var n := FirstEmptyProbe(s, p, h);
        var t := Placed(s, p, hash, src[j].entry);
        LiveCountUpdate(s, Probe(p, h, |s|, n), Occupied(src[j].entry));
        CoveringRefits(src, j + 1, t, p, hash);
      } else {
        CoveringRefits(src, j + 1, s, p, hash);
      }
    }
  }

  /** Entries whose first probe in the new table is their old index refit
      into EMPTY slots. */
  lemma {:induction false} HomeSlotsRefit<K, V>(src: seq<Slot<K, V>>, j: nat, s: seq<Slot<K, V>>,
                                                p: Strategy, hash: K -> int)
    requires |s| > 0 && WellFormed(p) && j <= |src| <= |s|
    requires forall i :: j <= i < |src| ==> s[i].Empty?
    requires forall i :: j <= i < |src| && src[i].Occupied? ==>
      Probe(p, hash(src[i].entry.key), |s|, 0) == i
    ensures Refits(src, j, s, p, hash)
    decreases |src| - j
  {
    if j < |src| {
      if src[j].Occupied? {
        var h := hash(src[j].entry.key);
        assert FirstEmpty(s, p, h, 0);
        FirstEmptyIs(s, p, h, 0);
        HomeSlotsRefit(src, j + 1, s[j := Occupied(src[j].entry)], p, hash);
      } else {
        HomeSlotsRefit(src, j + 1, s, p, hash);
      }
    }
  }

  /** Below a resize factor under 1 the live entries leave a slot free. */
  lemma BelowFactorBelowSize(len: int, size: int, f: ResizeFactor)
    requires size > 0 && ValidResizeFactor(f) && !NeedIncrease(len, size, f)
    ensures len < size
  {
    assert len * f.den < f.num * size < f.den * size;
  }

  /** `after` is `before` with probe n of the walk for `key` set to the entry
      (key, value), probe n being where that walk first stops. */
  ghost predicate WrittenAt<K, V>(before: seq<Slot<K, V>>, after: seq<Slot<K, V>>, p: Strategy,
                                  key: K, h: int, value: V, n: nat)
    requires |before| > 0 && WellFormed(p)
  {
    && FirstStop(before, p, h, key, n)
    && after == before[Probe(p, h, |before|, n) := Occupied(HashEntry(h, key, value))]
  }

  /** `after` is `before` with the slot of `key` turned into a tombstone. */
  ghost predicate DeletedAt<K, V>(before: seq<Slot<K, V>>, after: seq<Slot<K, V>>, key: K, idx: int)
    requires 0 <= idx < |before|
  {
    before[idx].Occupied? && before[idx].entry.key == key && after == before[idx := Deleted]
  }

  // ---------------------------------------------------------------------
  // The map

  /** An open-addressing hash map. The probe strategy selects the subclass
      (linear, quadratic, double hashing); `hash` stands for Python's `hash()`. */
  class OpenAddressingHashMap<K(==), V> {
    const hash: K -> int
    const probing: Strategy
    const resizeFactor: ResizeFactor
    var size: int
    var len: int
    var slots: array<Slot<K, V>>
    /** For each live slot, the probe number at which its entry sits. */
    ghost var pos: seq<nat>

    /** Everything but the bound on the live entries. */
    ghost predicate Inv()
      reads this, slots
    {
      && size == slots.Length
      && ValidResizeFactor(resizeFactor)
      && Table(slots[..], probing, pos, hash)
      && len == LiveCount(slots[..])
    }

    /** The invariant between operations: the live entries never fill the table. */
    ghost predicate Valid()
      reads this, slots
    {
      Inv() && len < size
    }

    ghost function Contents(): map<K, V>
      reads this, slots
    {
      ContentsOf(slots[..])
    }

    /** Inserting `key` would push the load to the resize factor. */
    ghost predicate Grows(key: K)
      reads this, slots
      requires Valid()
    {
      key !in Contents() && NeedIncrease(len + 1, size, resizeFactor)
    }

    constructor (hash: K -> int, probing: Strategy, initialSize: int, resizeFactor: ResizeFactor)
      requires WellFormed(probing) && initialSize > 0 && ValidResizeFactor(resizeFactor)
      ensures Valid() && fresh(slots)
      ensures this.hash == hash && this.probing == probing && this.resizeFactor == resizeFactor
      ensures size == initialSize && len == 0
      ensures forall j :: 0 <= j < size ==> slots[j].Empty?
      ensures Contents() == map[]
    {
      this.hash := hash;
      this.probing := probing;
      this.resizeFactor := resizeFactor;
      size := initialSize;
      len := 0;
      slots := new Slot<K, V>[initialSize](_ => Empty);
      pos := seq(initialSize, _ => 0);
      new;
      EmptyContents(slots[..]);
    }

    /** `__init__`: the size check of the base class, then the resize factor check. */
    static method Create(hash: K -> int, probing: Strategy, initialSize: int, resizeFactor: ResizeFactor)
      returns (r: Result<OpenAddressingHashMap<K, V>>)
      requires WellFormed(probing)
      ensures r.Ok? <==> initialSize > 0 && ValidResizeFactor(resizeFactor)
      ensures r.Err? ==> r.error == ValueError
      ensures r.Ok? ==> fresh(r.value) && r.value.Valid() && r.value.Contents() == map[]
      ensures r.Ok? ==> r.value.size == initialSize && r.value.len == 0
      ensures r.Ok? ==> r.value.hash == hash && r.value.probing == probing
      ensures r.Ok? ==> r.value.resizeFactor == resizeFactor
    {
      var checked := CheckInitialSize(initialSize);
      if checked.Err? {
        return Err(checked.error);
      }
      if !ValidResizeFactor(resizeFactor) {
        return Err(ValueError);
      }
      var m := new OpenAddressingHashMap(hash, probing, initialSize, resizeFactor);
      return Ok(m);
    }

    /** `__len__`. */
    function Length(): (n: int)
      reads this, slots
      requires Valid()
      ensures n == |Contents()|
    {
      ContentsSize(slots[..]);
      len
    }

    /** `__getitem__`: walk the probe sequence; an EMPTY slot ends the search,
        tombstones and other keys are passed over. */
    method Get(key: K) returns (r: Result<V>)
      requires Valid() && ProbeStops(slots[..], probing, hash(key), key)
      ensures r == if key in Contents() then Ok(Contents()[key]) else Err(KeyError)
    {
      var h := hash(key);
      ghost var stop: nat :| StopsAt(slots[..], probing, h, key, stop);
      var i: nat := 0;
      while true
        invariant i <= stop
        invariant forall i': nat :: i' < i ==> !StopsAt(slots[..], probing, h, key, i')
        decreases stop - i
      {
        var idx := Probe(probing, h, size, i);
        var slot := slots[idx];
        if slot.Empty? {
          SearchStopsAtKey(slots[..], probing, pos, hash, key, i);
          return Err(KeyError);
        }
        if slot.Occupied? && h == slot.entry.hashValue && IsSame(slot.entry.key, key) {
          SearchStopsAtKey(slots[..], probing, pos, hash, key, i);
          return Ok(slot.entry.value);
        }
        i := i + 1;
      }
    }

    /** `__setitem__`: overwrite the value where the walk finds the key, or
        fill the first EMPTY slot of the walk (tombstones are not reused) and
        double the table once the load reaches the resize factor. */
    method Set(key: K, value: V)
      requires Valid() && ProbeStops(slots[..], probing, hash(key), key)
      requires Grows(key) ==> ResizeFits(slots[..], probing, hash, HashEntry(hash(key), key, value), 2 * size)
      modifies this, slots
      ensures Valid()
      ensures Contents() == old(Contents())[key := value]
      ensures len == old(len) + (if key in old(Contents()) then 0 else 1)
      ensures size == if old(Grows(key)) then 2 * old(size) else old(size)
      ensures old(Grows(key)) ==> fresh(slots) && NoTombstones(slots[..])
      ensures old(Grows(key)) ==> slots[..] == Reinserted(
        Placed(old(slots[..]), probing, hash, HashEntry(hash(key), key, value)),
        0, Empties(2 * old(size)), probing, hash)
      ensures !old(Grows(key)) ==> slots == old(slots)
      ensures !old(Grows(key)) ==>
        exists n: nat :: WrittenAt(old(slots[..]), slots[..], probing, key, hash(key), value, n)
      ensures NoTombstones(old(slots[..])) ==> NoTombstones(slots[..])
    {
      var h := hash(key);
      var entry := HashEntry(h, key, value);
      ghost var s0 := slots[..];
      ghost var stop: nat :| StopsAt(s0, probing, h, key, stop);
      var i: nat := 0;
      while true
        invariant unchanged(this) && unchanged(slots)
        invariant i <= stop
        invariant forall i': nat :: i' < i ==> !StopsAt(s0, probing, h, key, i')
        decreases stop - i
      {
        var idx := Probe(probing, h, size, i);
        var slot := slots[idx];
        if slot.Occupied? && h == slot.entry.hashValue && IsSame(slot.entry.key, key) {
          SearchStopsAtKey(s0, probing, pos, hash, key, i);
          OverwriteKeepsTable(s0, probing, pos, hash, idx, value);
          slots[idx] := Occupied(slot.entry.(value := value));
          assert slots[..] == s0[idx := Occupied(s0[idx].entry.(value := value))];
          assert WrittenAt(s0, slots[..], probing, key, h, value, i);
          return;
        }
        if slot.Empty? {
          SearchStopsAtKey(s0, probing, pos, hash, key, i);
          forall i': nat | i' < i
            ensures !s0[Probe(probing, h, |s0|, i')].Empty?
          {
            assert !StopsAt(s0, probing, h, key, i');
          }
          assert FirstEmpty(s0, probing, h, i);
          FirstEmptyIs(s0, probing, h, i);
          assert Placed(s0, probing, hash, entry) == s0[idx := Occupied(entry)];
          FillEmpty(idx, i, entry);
          assert !old(Grows(key)) ==> WrittenAt(s0, slots[..], probing, key, h, value, i);
          return;
        }
        i := i + 1;
      }
    }

    /** The EMPTY-slot branch of `__setitem__`: store the new entry at probe n
        of its walk, count it, and resize once the load reaches the factor. */
    method FillEmpty(idx: int, ghost n: nat, entry: HashEntry<K, V>)
      requires Valid() && entry.hashValue == hash(entry.key) && entry.key !in Contents()
      requires idx == Probe(probing, entry.hashValue, size, n) && slots[idx].Empty?
      requires forall i: nat :: i < n ==> !slots[Probe(probing, entry.hashValue, size, i)].Empty?
      requires NeedIncrease(len + 1, size, resizeFactor) ==>
        Refits(slots[..][idx := Occupied(entry)], 0, Empties(2 * size), probing, hash)
      modifies this, slots
      ensures Valid() && len == old(len) + 1
      ensures Contents() == old(Contents())[entry.key := entry.value]
      ensures size == if NeedIncrease(old(len) + 1, old(size), resizeFactor) then 2 * old(size) else old(size)
      ensures NeedIncrease(old(len) + 1, old(size), resizeFactor) ==> fresh(slots) && NoTombstones(slots[..])
      ensures NeedIncrease(old(len) + 1, old(size), resizeFactor) ==> slots[..] == Reinserted(
        old(slots[..])[idx := Occupied(entry)], 0, Empties(2 * old(size)), probing, hash)
      ensures !NeedIncrease(old(len) + 1, old(size), resizeFactor) ==>
        slots == old(slots) && slots[..] == old(slots[..])[idx := Occupied(entry)]
      ensures NoTombstones(old(slots[..])) ==> NoTombstones(slots[..])
    {
      PlaceKeepsTable(slots[..], probing, pos, hash, n, entry);
      slots[idx] := Occupied(entry);
      pos := pos[idx := n];
      len := len + 1;
      if NeedIncrease(len, size, resizeFactor) {
        IncreaseSize();
      } else {
        BelowFactorBelowSize(len, size, resizeFactor);
      }
    }

    /** `__delitem__`: the slot holding the key becomes a tombstone; a key
        not in the map is a KeyError. */
    method Delete(key: K) returns (r: Result<()>)
      requires Valid() && ProbeStops(slots[..], probing, hash(key), key)
      modifies this, slots
      ensures Valid()
      ensures r.Ok? <==> key in old(Contents())
      ensures r.Err? ==> r.error == KeyError
      ensures Contents() == old(Contents()) - {key}
      ensures len == old(len) - (if r.Ok? then 1 else 0)
      ensures slots == old(slots) && size == old(size)
      ensures r.Err? ==> slots[..] == old(slots[..])
      ensures r.Ok? ==> exists idx :: 0 <= idx < size && DeletedAt(old(slots[..]), slots[..], key, idx)
    {
      var h := hash(key);
      ghost var s0 := slots[..];
      ghost var stop: nat :| StopsAt(s0, probing, h, key, stop);
      var i: nat := 0;
      while true
        invariant unchanged(this) && unchanged(slots)
        invariant i <= stop
        invariant forall i': nat :: i' < i ==> !StopsAt(s0, probing, h, key, i')
        decreases stop - i
      {
        var idx := Probe(probing, h, size, i);
        var slot := slots[idx];
        if slot.Empty? {
          SearchStopsAtKey(s0, probing, pos, hash, key, i);
          return Err(KeyError);
        }
        if slot.Occupied? && h == slot.entry.hashValue && IsSame(slot.entry.key, key) {
          SearchStopsAtKey(s0, probing, pos, hash, key, i);
          DeleteKeepsTable(s0, probing, pos, hash, idx);
          slots[idx] := Deleted;
          assert slots[..] == s0[idx := Deleted];
          assert DeletedAt(s0, slots[..], key, idx);
          len := len - 1;
          return Ok(());
        }
        i := i + 1;
      }
    }

    /** `_increase_size`: a table of twice the size, every live entry placed
        at the first EMPTY slot of its walk there; tombstones are dropped. */
    method IncreaseSize()
      requires Inv() && Refits(slots[..], 0, Empties(2 * size), probing, hash)
      modifies this
      ensures Valid() && fresh(slots)
      ensures slots[..] == Reinserted(old(slots[..]), 0, Empties(2 * old(size)), probing, hash)
      ensures size == 2 * old(size) && len == old(len)
      ensures Contents() == old(Contents()) && NoTombstones(slots[..])
    {
      var newSlots;
      ghost var newPos;
      newSlots, newPos := Refit(slots[..], probing, hash, size * 2);
      slots := newSlots;
      size := size * 2;
      pos := newPos;
    }

    /** `__iter__`: the keys of the live slots, in slot order. */
    method Keys() returns (ks: seq<K>)
      requires Valid()
      ensures ks == KeysOf(slots[..])
      ensures |ks| == |Contents()|
      ensures forall k :: k in ks <==> k in Contents()
    {
      ks := [];
      for j := 0 to size
        invariant ks == KeysOf(slots[..j])
      {
        assert slots[..j + 1][..j] == slots[..j];
        if slots[j].Occupied? {
          ks := ks + [slots[j].entry.key];
        }
      }
      assert slots[..size] == slots[..];
      KeysOfContents(slots[..]);
      ContentsSize(slots[..]);
    }
  }

  /** The loops of `_increase_size`: a fresh array of `newSize` EMPTY slots
      into which every live entry of the old slots `src` is placed, in slot
      order. */
  method Refit<K, V>(src: seq<Slot<K, V>>, p: Strategy, hash: K -> int, newSize: int)
    returns (a: array<Slot<K, V>>, ghost pos: seq<nat>)
    requires newSize > 0 && WellFormed(p) && DistinctKeys(src) && HashesCached(src, hash)
    requires Refits(src, 0, Empties(newSize), p, hash)
    ensures fresh(a) && a[..] == Reinserted(src, 0, Empties(newSize), p, hash)
    ensures Table(a[..], p, pos, hash) && NoTombstones(a[..])
    ensures ContentsOf(a[..]) == ContentsOf(src) && LiveCount(a[..]) == LiveCount(src)
  {
    a := new Slot<K, V>[newSize](_ => Empty);
    pos := seq(newSize, _ => 0);
    EmptyContents(a[..]);
    assert a[..] == Empties(newSize);
    var j := 0;
    while j < |src|
      invariant 0 <= j <= |src|
      invariant fresh(a) && a.Length == newSize
      invariant Table(a[..], p, pos, hash) && NoTombstones(a[..])
      invariant ContentsOf(a[..]) == ContentsOf(src[..j])
      invariant LiveCount(a[..]) == LiveCount(src[..j])
      invariant Refits(src, j, a[..], p, hash)
      invariant Reinserted(src, j, a[..], p, hash) == Reinserted(src, 0, Empties(newSize), p, hash)
    {
      pos := RefitSlot(a, pos, src, j, p, hash);
      j := j + 1;
    }
    assert src[..j] == src;
  }

  /** One turn of the outer loop of `_increase_size`: the entry of old slot
      j, if any, is placed into `a`. */
  method RefitSlot<K, V>(a: array<Slot<K, V>>, ghost pos: seq<nat>, src: seq<Slot<K, V>>, j: nat,
                         p: Strategy, hash: K -> int)
    returns (ghost pos': seq<nat>)
    requires j < |src| && DistinctKeys(src) && HashesCached(src, hash)
    requires Table(a[..], p, pos, hash) && NoTombstones(a[..])
    requires ContentsOf(a[..]) == ContentsOf(src[..j]) && Refits(src, j, a[..], p, hash)
    modifies a
    ensures Table(a[..], p, pos', hash) && NoTombstones(a[..])
    ensures ContentsOf(a[..]) == ContentsOf(src[..j + 1])
    ensures LiveCount(a[..]) == old(LiveCount(a[..])) + LiveCount(src[..j + 1]) - LiveCount(src[..j])
    ensures Refits(src, j + 1, a[..], p, hash)
    ensures Reinserted(src, j + 1, a[..], p, hash) == Reinserted(src, j, old(a[..]), p, hash)
  {
    ReinsertStep(src, j, a[..], p, hash);
    PrefixStep(src, j);
    if src[j].Occupied? {
      KeyNotEarlier(src, j);
      pos' := PlaceEntry(a, p, pos, hash, src[j].entry);
    } else {
      pos' := pos;
    }
  }

  /** The inner loop of `_increase_size`: the hash code of the entry's key is
      computed afresh and the entry goes to the first EMPTY slot of its walk. */
  method PlaceEntry<K, V>(a: array<Slot<K, V>>, p: Strategy, ghost pos: seq<nat>,
                          hash: K -> int, e: HashEntry<K, V>)
    returns (ghost pos': seq<nat>)
    requires Table(a[..], p, pos, hash) && HasEmptyProbe(a[..], p, hash(e.key))
    requires e.hashValue == hash(e.key) && e.key !in ContentsOf(a[..])
    modifies a
    ensures exists n: nat :: (FirstEmpty(old(a[..]), p, hash(e.key), n)
      && a[..] == old(a[..])[Probe(p, hash(e.key), a.Length, n) := Occupied(e)])
    ensures a[..] == Placed(old(a[..]), p, hash, e)
    ensures Table(a[..], p, pos', hash)
    ensures ContentsOf(a[..]) == old(ContentsOf(a[..]))[e.key := e.value]
    ensures LiveCount(a[..]) == old(LiveCount(a[..])) + 1
    ensures NoTombstones(old(a[..])) ==> NoTombstones(a[..])
  {
    var h := hash(e.key);
    ghost var target := FirstEmptyProbe(a[..], p, h);
    var i: nat := 0;
    var idx := Probe(p, h, a.Length, 0);
    while !a[idx].Empty?
      invariant i <= target && idx == Probe(p, h, a.Length, i)
      invariant forall i': nat :: i' < i ==> !a[Probe(p, h, a.Length, i')].Empty?
      decreases target - i
    {
      i := i + 1;
      idx := Probe(p, h, a.Length, i);
    }
    ghost var t := a[..];
    assert FirstEmpty(t, p, h, i);
    FirstEmptyIs(t, p, h, i);
    PlaceKeepsTable(t, p, pos, hash, i, e);
    a[idx] := Occupied(e);
    pos' := pos[idx := i];
  }

  lemma {:induction false} EmptyContents<K, V>(s: seq<Slot<K, V>>)
    requires forall j :: 0 <= j < |s| ==> s[j].Empty?
    ensures ContentsOf(s) == map[] && LiveCount(s) == 0 && NoTombstones(s) && DistinctKeys(s)
  {
    if s != [] {
      EmptyContents(s[..|s| - 1]);
    }
  }

  lemma {:induction false} PrefixLiveCount<K, V>(s: seq<Slot<K, V>>, j: int)
    requires 0 <= j <= |s|
    ensures LiveCount(s[..j]) <= LiveCount(s)
  {
    if j < |s| {
      assert s[..|s| - 1][..j] == s[..j];
      PrefixLiveCount(s[..|s| - 1], j);
    } else {
      assert s[..j] == s;
    }
  }

  /** For linear probing and double hashing the growth requirement of `Set`
      always holds: a new key's walk stops, so it meets an EMPTY slot, and
      every walk covers the doubled table. */
  lemma CoveringResizeFits<K, V>(s: seq<Slot<K, V>>, p: Strategy, pos: seq<nat>, hash: K -> int,
                                 key: K, value: V)
    requires Table(s, p, pos, hash) && !p.Quadratic?
    requires ProbeStops(s, p, hash(key), key) && key !in ContentsOf(s)
    ensures ResizeFits(s, p, hash, HashEntry(hash(key), key, value), 2 * |s|)
  {
    var i: nat :| StopsAt(s, p, hash(key), key, i);
    var idx := Probe(p, hash(key), |s|, i);
    if s[idx].Occupied? {
      ContentsOfOccupied(s, idx);
    }
    assert s[idx].Empty?;
    var t := Placed(s, p, hash, HashEntry(hash(key), key, value));
    LinearAndDoubleHashingCover(p, 2 * |s|);
    EmptyContents(Empties<K, V>(2 * |s|));
    assert t[..0] == [];
    CoveringRefits(t, 0, Empties(2 * |s|), p, hash);
  }

  /** The slots of the resize test before its k-th insertion, under quadratic
      probing with hash(i) == i: key i (value 0) sits in slot i, for i < k. */
  function Layout(k: int, n: nat): (s: seq<Slot<int, int>>)
    ensures |s| == n
  {
    seq(n, j => if j < k then Occupied(HashEntry(j, j, 0)) else Empty)
  }

  /** Quadratic probing can complete the growth of the resize test: every
      key's first probe in 20 slots is its old slot. */
  lemma QuadraticResizeFits(hash: int -> int)
    requires forall x :: hash(x) == x
    ensures ResizeFits(Layout(7, 10), Quadratic, hash, HashEntry(7, 7, 0), 20)
  {
    var s := Layout(7, 10);
    assert Probe(Quadratic, 7, 10, 0) == 7;
    assert FirstEmpty(s, Quadratic, 7, 0);
    FirstEmptyIs(s, Quadratic, 7, 0);
    var t := Placed(s, Quadratic, hash, HashEntry(7, 7, 0));
    assert t == Layout(8, 10);
    forall i | 0 <= i < 10 && t[i].Occupied?
      ensures Probe(Quadratic, hash(t[i].entry.key), 20, 0) == i
    {
      assert hash(t[i].entry.key) == i;
    }
    HomeSlotsRefit(t, 0, Empties(20), Quadratic, hash);
  }

  /** Ten slots, resize factor 0.8, keys 0..7 with Python's hash of a small
      int (the int itself): the eighth insertion brings the load to 0.8 and
      doubles the table, under each of the three probe sequences. */
  method ResizeScenario(p: Strategy) returns (size: int, len: int)
    requires WellFormed(p)
    ensures size == 20 && len == 8
  {
    var m := new OpenAddressingHashMap<int, int>(x => x, p, 10, Ratio(4, 5));
    assert m.slots[..] == Layout(0, 10);
    var k := 0;
    while k < 8
      invariant 0 <= k <= 8
      invariant fresh(m) && fresh(m.slots)
      invariant m.Valid() && NoTombstones(m.slots[..])
      invariant m.probing == p && m.resizeFactor == Ratio(4, 5) && forall x :: m.hash(x) == x
      invariant m.len == k && m.size == (if k == 8 then 20 else 10)
      invariant forall x :: x in m.Contents() ==> 0 <= x < k
      invariant p.Quadratic? && k < 8 ==> m.slots[..] == Layout(k, 10)
    {
      InsertKey(m, k);
      k := k + 1;
    }
    size, len := m.size, m.len;
  }

  /** Insertion number k + 1 of the resize test. */
  method InsertKey(m: OpenAddressingHashMap<int, int>, k: int)
    requires 0 <= k < 8 && m.Valid() && NoTombstones(m.slots[..])
    requires m.resizeFactor == Ratio(4, 5) && forall x :: m.hash(x) == x
    requires m.len == k && m.size == 10
    requires forall x :: x in m.Contents() ==> 0 <= x < k
    requires m.probing.Quadratic? ==> m.slots[..] == Layout(k, 10)
    modifies m, m.slots
    ensures fresh(m.slots) || m.slots == old(m.slots)
    ensures m.Valid() && NoTombstones(m.slots[..])
    ensures m.len == k + 1 && m.size == (if k == 7 then 20 else 10)
    ensures forall x :: x in m.Contents() ==> 0 <= x <= k
    ensures m.probing.Quadratic? && k < 7 ==> m.slots[..] == Layout(k + 1, 10)
  {
    ghost var s0 := m.slots[..];
    assert k !in m.Contents();
    assert m.Grows(k) <==> k == 7;
    if m.probing.Quadratic? {
      assert Probe(Quadratic, k, 10, 0) == k;
      assert StopsAt(s0, Quadratic, k, k, 0);
      if k == 7 {
        QuadraticResizeFits(m.hash);
      }
    } else {
      WalkEndsWithoutTombstones(s0, m.probing, k, k);
      CoveringResizeFits(s0, m.probing, m.pos, m.hash, k, 0);
    }
    m.Set(k, 0);
    if m.probing.Quadratic? && k < 7 {
      ghost var n: nat :| WrittenAt(s0, m.slots[..], Quadratic, k, k, 0, n);
      assert StopsAt(s0, Quadratic, k, k, 0);
      assert n == 0;
      assert m.slots[..] == Layout(k + 1, 10);
    }
  }

  /** Two slots, resize factor 0.9: inserting and deleting key 0 and then
      key 1 leaves both slots tombstones, and from then on no walk ends:
      every later lookup, insertion or deletion probes forever. */
  method TombstoneScenario() returns (s: seq<Slot<int, int>>)
    ensures |s| == 2 && s[0] == Deleted && s[1] == Deleted
    ensures forall h, key, i: nat :: !StopsAt(s, Linear, h, key, i)
    ensures forall h, key :: !ProbeStops(s, Linear, h, key)
  {
    var m := new OpenAddressingHashMap<int, int>(x => x, Linear, 2, Ratio(9, 10));
    assert m.hash(0) == 0 && m.hash(1) == 1;
    ghost var s0 := m.slots[..];
    assert StopsAt(s0, Linear, 0, 0, 0);
    m.Set(0, 0);
    ghost var n0: nat :| WrittenAt(s0, m.slots[..], Linear, 0, 0, 0, n0);
    assert n0 == 0;
    assert m.slots[..] == [Occupied(HashEntry(0, 0, 0)), Empty];

    ghost var s1 := m.slots[..];
    assert StopsAt(s1, Linear, 0, 0, 0);
    var r := m.Delete(0);
    assert m.slots[..] == [Deleted, Empty];

    ghost var s2 := m.slots[..];
    assert StopsAt(s2, Linear, 1, 1, 0);
    m.Set(1, 0);
    ghost var n1: nat :| WrittenAt(s2, m.slots[..], Linear, 1, 1, 0, n1);
    assert n1 == 0;
    assert m.slots[..] == [Deleted, Occupied(HashEntry(1, 1, 0))];

    ghost var s3 := m.slots[..];
    assert StopsAt(s3, Linear, 1, 1, 0);
    r := m.Delete(1);
    assert m.slots[..] == [Deleted, Deleted];
    s := m.slots[..];
    forall h: int, key: int, i: nat
      ensures !StopsAt(s, Linear, h, key, i)
    {
      assert s[Probe(Linear, h, 2, i)] == Deleted;
    }
  }
}

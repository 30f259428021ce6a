# pyhashmaps in Dafny

This project models the collision-resolution core of `pyhashmaps`, a library of six
hash maps built on two engines, and proves what each operation does to the map it
represents.

- **Open addressing** (`open_addressing.dfy`, `probing.dfy`). The table is an array of
  tri-state slots (`Empty`, `Deleted`, `Occupied(entry)`) plus a live counter. `get`,
  `set` and `delete` walk a probe sequence. The three sequences of the subclasses are
  closed-form index functions (`Probing.Probe`), written as the generators compute them:
  - linear probing visits `(h + i) mod size`;
  - quadratic probing is cumulative, `(h mod size + 0² + … + (i-1)²) mod size`, so its
    first two probes hit the same slot;
  - double hashing is linear probing from the shifted start
    `h mod size + (prime - h mod prime) mod size`.

  Tombstones are walked past and never reused. Growth doubles the array and places only
  the live entries. The class `OpenAddressingHashMap` updates an `array` in place. It is
  proved against `ContentsOf(slots[..])` under an invariant: a ghost `pos` records, for
  every live slot, at which probe of its own key's sequence the entry sits, and every
  earlier probe of that sequence is a non-EMPTY slot.
- **Separate chaining** (`separate_chaining.dfy`, `bucket_table.dfy`,
  `chain_protocol.dfy`). The table is a sequence of chains. An entry sits in chain
  `hash_value mod size`. The table counter moves only when a chain's length moves, and
  a chain reaching `max_chain_size` doubles the table. The three concrete map classes
  differ only in the chain class, which is a `Binding` value here. The map class works
  through the chain protocol (`ChainProtocol`). That protocol dispatches to the three
  chain classes and keeps them disjoint in memory.
- **Chains** (`dynamic_array.dfy`, `linked_list.dfy`, `bst.dfy`, `bst_tree.dfy`,
  `chain_spec.dfy`). Each chain is proved against a function on the sequence of entries
  it yields:
  - `DynamicArray` is a sequence field the methods reassign;
  - `LinkedList` is heap nodes with `head`, `tail` and `count`, and ghost `Nodes` and
    `Contents` sequences;
  - `BinarySearchTree` is heap nodes with `left`, `right` and `parent` links, and a ghost
    `Tree` of node references that every node's four fields must mirror.

  `insert` and `delete` are proved against `Upsert` / `InsertSorted` and `RemoveKey`.
  Their effect on the bucket's mapping is proved once in `ChainSpec`.
- **Shared pieces** (`base.dfy`): `HashEntry`, `is_same`, the `KeyError` / `ValueError`
  results, and the size check of the base constructor.

Two details of the code shape the model:

- Quadratic probing is modelled as the cumulative sum the generator computes
  (`open_addressing.py:154-159`): probe n is `(h + 0² + 1² + … + (n-1)²) mod size`.
- The open-addressing `_increase_size` recomputes `hash(key)` for every moved entry
  (`open_addressing.py:123`) rather than reusing the cached hash code. `PlaceEntry` does
  the same. Its precondition `e.hashValue == hash(e.key)` is the invariant
  `HashesCached` that makes the two agree. The separate-chaining `_increase_size` does
  use the cached `hash_value`, and `MoveEntry` models exactly that.

## Model

| member | source | states |
|---|---|---|
| Base.CheckInitialSize | src/pyhashmaps/base.py:74-78 | an initial size is accepted exactly when it is positive, and then kept as the size; anything else is a ValueError |
| ChainSpec.IndexOf | src/pyhashmaps/chains.py:44-48 | the scan stops at the first entry whose key is the sought key; no entry before it holds that key |
| ChainSpec.Lookup | src/pyhashmaps/chains.py:44-48 | `find` succeeds exactly when some entry holds the key, and returns an entry of the bucket with that key; otherwise KeyError |
| ChainSpec.SortedDistinct | src/pyhashmaps/chains.py:146-172 | a bucket in strictly ascending key order never holds a key twice |
| ChainSpec.MapOfKeys | src/pyhashmaps/base.py:36-55 | a key is in the bucket's mapping exactly when some entry of the bucket holds it |
| ChainSpec.MapOfAt | src/pyhashmaps/base.py:29-33 | with distinct keys, every entry's key maps to that entry's value |
| ChainSpec.MapOfSize | src/pyhashmaps/chains.py:38-39 | with distinct keys, the bucket's length is the number of keys it maps |
| ChainSpec.LookupMapOf | src/pyhashmaps/chains.py:44-48 | `find` succeeds exactly for the keys of the mapping and returns the value the mapping gives |
| ChainSpec.UpsertSpec | src/pyhashmaps/chains.py:50-56 | `insert` keeps keys distinct, maps the key to the new value, grows the bucket by one exactly when the key was new, and brings in no entry but the new one |
| ChainSpec.RemoveKeySpec | src/pyhashmaps/chains.py:58-63 | `delete` removes the key from the mapping, shrinks the bucket by one exactly when the key was there, and keeps only old entries |
| ChainSpec.AppendIsUpsert | src/pyhashmaps/base.py:57-65 | when no entry holds the key, appending at the end is what `insert` does |
| ChainSpec.InsertSortedSpec | src/pyhashmaps/chains.py:146-172 | tree `insert`, seen on the in-order sequence, keeps ascending order, maps the key to the new value, grows by one exactly for a new key, and brings in no other entry |
| ChainSpec.SortedUnique | src/pyhashmaps/chains.py:195-202 | two ascending sequences with the same entries are equal, so the in-order sequence of a tree is fixed by its entries |
| DynamicArrays.DynamicArray.constructor | src/pyhashmaps/chains.py:35-36 | a new dynamic array holds no entry |
| DynamicArrays.DynamicArray.Length | src/pyhashmaps/chains.py:38-39 | `len` is the number of entries in the list |
| DynamicArrays.DynamicArray.Items | src/pyhashmaps/chains.py:41-42 | iteration yields the list in order |
| DynamicArrays.DynamicArray.Find | src/pyhashmaps/chains.py:44-48 | the result is `Lookup` of the list: the entry with the key, or KeyError |
| DynamicArrays.DynamicArray.Insert | src/pyhashmaps/chains.py:50-56 | the new list is `Upsert` of the old one: the matching entry is replaced at its index, else the item is appended |
| DynamicArrays.DynamicArray.Delete | src/pyhashmaps/chains.py:58-63 | Ok exactly when an entry held the key; the new list is the old one without the first such entry, the others in order; KeyError leaves the list as it was |
| DynamicArrays.DynamicArray.AppendAtEnd | src/pyhashmaps/chains.py:65-66 | the item is appended |
| LinkedLists.LinkedListNode.constructor | src/pyhashmaps/chains.py:8-15 | a new node holds its entry and has no successor |
| LinkedLists.LinkedList.constructor | src/pyhashmaps/chains.py:70-73 | a new list is valid and empty |
| LinkedLists.LinkedList.Length | src/pyhashmaps/chains.py:75-76 | the maintained `count` equals the number of nodes reachable from `head` |
| LinkedLists.LinkedList.Items | src/pyhashmaps/chains.py:78-82 | iteration yields the entries of the nodes from `head` along `next` |
| LinkedLists.LinkedList.Find | src/pyhashmaps/chains.py:84-90 | the result is `Lookup` of the entries: the first node's entry with the key, or KeyError |
| LinkedLists.LinkedList.InsertTail | src/pyhashmaps/chains.py:119-126 | with `tail` the last reachable node, the new entry is added at the end and the list stays valid |
| LinkedLists.LinkedList.AppendAtEnd | src/pyhashmaps/chains.py:128-129 | as `insert_tail` |
| LinkedLists.LinkedList.Insert | src/pyhashmaps/chains.py:92-100 | the entries become `Upsert` of the old ones: the node holding the key gets the new entry, else a node is added at the tail |
| LinkedLists.LinkedList.Delete | src/pyhashmaps/chains.py:102-117 | corrected `delete`: Ok exactly when a node held the key; that node is unlinked, `count` drops and `tail` stays the last node; KeyError otherwise |
| LinkedLists.LinkedList.DeleteAsWritten | src/pyhashmaps/chains.py:102-117 | `delete` as written: entries and count are right, but `tail` is unchanged, and removing the last node leaves the list invalid |
| LinkedLists.LinkedList.Splice | src/pyhashmaps/chains.py:105-115 | unlinking node i removes exactly that node and its entry from the chain from `head` |
| LinkedLists.LostInsert | src/pyhashmaps/chains.py:102-126 | insert, delete that key as written, insert another: `count` is 1 while `head` is null, so the new entry is unreachable |
| LinkedLists.KeptInsert | src/pyhashmaps/chains.py:102-126 | the same steps with the corrected `Delete`: the list holds exactly the new entry |
| BstTrees.BSTNode.constructor | src/pyhashmaps/chains.py:18-31 | a new node holds its entry and has no links |
| BstTrees.InorderKeys | src/pyhashmaps/chains.py:195-202 | the in-order sequence holds exactly the keys of the tree |
| BstTrees.OrderedSorted | src/pyhashmaps/chains.py:195-202 | in-order traversal of a search-ordered tree is in strictly ascending key order |
| BstTrees.SearchSpec | src/pyhashmaps/chains.py:204-214 | the search reaches a node exactly when the key is in the tree, and that node holds the key |
| BstTrees.SearchAlong | src/pyhashmaps/chains.py:206-212 | each step down by key keeps the search result unchanged |
| BstTrees.SearchFindsRoot | src/pyhashmaps/chains.py:204-214 | in an ordered tree, searching for a node's key reaches that node |
| BstTrees.MaxEntrySpec | src/pyhashmaps/chains.py:236-239 | the rightmost entry holds the largest key, is the last in order, and its node has at most one child |
| BstTrees.KeysInsert | src/pyhashmaps/chains.py:146-172 | insertion adds exactly the item's key and keeps the search order |
| BstTrees.InorderInsert | src/pyhashmaps/chains.py:146-172 | insertion puts the entry at its place in key order and replaces an equal key |
| BstTrees.InsertFound | src/pyhashmaps/chains.py:155-158 | when the walk meets the key, overwriting that node's entry is the insertion; the length is unchanged |
| BstTrees.InsertLeaf | src/pyhashmaps/chains.py:159-172 | when the walk runs out, a leaf hung at the missing child is the insertion; the length grows by one |
| BstTrees.InsertSize | src/pyhashmaps/chains.py:146-172 | insertion adds one entry exactly when the key is new |
| BstTrees.KeysDelete | src/pyhashmaps/chains.py:174-193 | deletion removes exactly the key and keeps the search order |
| BstTrees.KeysDeleteRoot | src/pyhashmaps/chains.py:177-193 | removing a found node (all three cases) removes exactly its key and keeps the order |
| BstTrees.DeleteSize | src/pyhashmaps/chains.py:174-193 | deletion removes one entry exactly when the key is present |
| BstTrees.DeleteMissing | src/pyhashmaps/chains.py:204-214 | deleting a key the tree does not hold changes nothing |
| BstTrees.DeleteFound | src/pyhashmaps/chains.py:174-187 | with the node found, replacing it by its deletion result is the deletion, which drops exactly that key |
| BstTrees.DeleteTwoChildren | src/pyhashmaps/chains.py:189-193 | with two children, deleting the largest key on the left keeps the node in place, and moving that entry into it is the deletion |
| BstTrees.DeletePredecessor | src/pyhashmaps/chains.py:189-193 | the predecessor `find_biggest_node` reaches has at most one child; deleting its key unlinks its node and leaves the found node where it was |
| BstTrees.InorderDelete | src/pyhashmaps/chains.py:174-193 | deletion drops the entry with the key from the in-order sequence and keeps the others in order |
| BstTrees.InorderDeleteRoot | src/pyhashmaps/chains.py:177-193 | removing a found node leaves the entries on its left followed by those on its right |
| BstTrees.RemoveMax | src/pyhashmaps/chains.py:236-239 | deleting the largest key drops exactly the last in-order entry |
| BstTrees.RemoveLinks | src/pyhashmaps/chains.py:222-234 | replacing a node by its only child rewires just two links: the child's `parent` becomes the node's parent, and the parent points at the child |
| BstTrees.LinkSetEntry | src/pyhashmaps/chains.py:156-158 | overwriting a node's entry changes that node's data and no link |
| BstTrees.HasKeyIff | src/pyhashmaps/chains.py:195-202 | a key occurs in the in-order sequence exactly when it is in the tree |
| BstTrees.LookupAt | src/pyhashmaps/chains.py:143-144 | `find` of a node's key in order returns that node's entry |
| BinarySearchTrees.BinarySearchTree.constructor | src/pyhashmaps/chains.py:133-135 | a new tree is valid and empty |
| BinarySearchTrees.BinarySearchTree.Length | src/pyhashmaps/chains.py:137-138 | the maintained `count` is the number of nodes |
| BinarySearchTrees.BinarySearchTree.SortedContents | src/pyhashmaps/chains.py:195-202 | a valid tree's in-order entries are in strictly ascending key order |
| BinarySearchTrees.BinarySearchTree.InorderTraversal | src/pyhashmaps/chains.py:195-202 | the recursion from a node yields the in-order sequence of that node's subtree |
| BinarySearchTrees.BinarySearchTree.Items | src/pyhashmaps/chains.py:140-141 | iteration yields the entries, in ascending key order |
| BinarySearchTrees.BinarySearchTree.FindNode | src/pyhashmaps/chains.py:204-214 | the walk follows the search path; it returns the node holding the key exactly when the key is present, KeyError otherwise |
| BinarySearchTrees.BinarySearchTree.Find | src/pyhashmaps/chains.py:143-144 | the result is `Lookup` of the in-order entries |
| BinarySearchTrees.BinarySearchTree.Insert | src/pyhashmaps/chains.py:146-172 | the entries become `InsertSorted` of the old ones, and order and parent links hold again; the tree becomes `InsertTree` of the old one for some new node: overwrite on an equal key, else one new leaf at the end of the search path |
| BinarySearchTrees.BinarySearchTree.SetEntry | src/pyhashmaps/chains.py:156-158 | overwriting one node's entry changes the ghost tree at that node only; no other node's data changes |
| BinarySearchTrees.BinarySearchTree.AttachLeaf | src/pyhashmaps/chains.py:160-171 | the new node becomes the missing child, its parent is set, and `count` grows by one |
| BinarySearchTrees.BinarySearchTree.Delete | src/pyhashmaps/chains.py:174-193 | Ok exactly when the key is present; the entries become `RemoveKey` of the old ones, the tree becomes `DeleteTree`, and order and links hold again; KeyError otherwise |
| BinarySearchTrees.BinarySearchTree.DeleteNode | src/pyhashmaps/chains.py:177-193 | with the node found, the three cases together perform `DeleteTree` for its key |
| BinarySearchTrees.BinarySearchTree.DeleteWithTwoChildren | src/pyhashmaps/chains.py:189-193 | the predecessor is deleted by key and its entry copied into the node, which is `DeleteTree` of the node's key |
| BinarySearchTrees.BinarySearchTree.ReassignNodes | src/pyhashmaps/chains.py:222-234 | the child takes the node's place below its parent, or becomes the root; `count` drops by one |
| BinarySearchTrees.BinarySearchTree.AppendAtEnd | src/pyhashmaps/chains.py:241-244 | `append_at_end` is `insert` |
| BinarySearchTrees.BinarySearchTree.IsRightChildSpec | src/pyhashmaps/chains.py:216-220 | in a valid tree, `is_right_child` holds exactly when the node is its parent's right child |
| BinarySearchTrees.BinarySearchTree.FindBiggestNode | src/pyhashmaps/chains.py:236-239 | following `right` reaches the node without a right child that holds the largest entry of the subtree |
| BinarySearchTrees.DeleteScenario | src/pyhashmaps/chains.py:174-193 | keys 5, 3, 8, 1, 4, 7, 9 inserted and 5 (two children) deleted: iteration yields 1, 3, 4, 7, 8, 9, and the root holds 4, the largest key left of 5 |
| BinarySearchTrees.BuildScenario | src/pyhashmaps/chains.py:146-172 | inserting 5, 3, 8, 1, 4, 7, 9 gives a valid tree with 5 at the root, 3 and 8 below it and 1, 4, 7, 9 as leaves, whose in-order keys are 1, 3, 4, 5, 7, 8, 9 |
| BinarySearchTrees.RootDelete | src/pyhashmaps/chains.py:189-193 | deleting 5 from that tree moves 4, the largest key on its left, into the root and removes 4's leaf |
| BucketTables.EmptyBuckets | src/pyhashmaps/separate_chaining.py:26 | the initial table has `size` empty buckets |
| BucketTables.EmptyTable | src/pyhashmaps/separate_chaining.py:24-26 | a table of empty buckets is well formed, maps nothing and holds no entry |
| BucketTables.ContentsAt | src/pyhashmaps/separate_chaining.py:35-40 | a key is in the table exactly when the bucket `hash(key) mod size` maps it, and to the same value |
| BucketTables.ContentsHasKey | src/pyhashmaps/separate_chaining.py:35-40 | a key is in the table exactly when the bucket its hash selects holds an entry with that key |
| BucketTables.ContentsSize | src/pyhashmaps/separate_chaining.py:53-54 | the number of keys in the table equals the total length of its buckets |
| BucketTables.KeysOfEntriesSpec | src/pyhashmaps/separate_chaining.py:32-33 | a bucket yields one key per entry, exactly the keys it maps |
| BucketTables.KeysInSpec | src/pyhashmaps/separate_chaining.py:30-33 | iteration yields one key per entry, exactly the keys of the table |
| BucketTables.SetBucket | src/pyhashmaps/separate_chaining.py:42-50 | updating the key's bucket with the key updates the table's mapping the same way |
| BucketTables.DeleteBucket | src/pyhashmaps/separate_chaining.py:59-66 | removing the key from its bucket removes it from the table's mapping |
| BucketTables.TableSet | src/pyhashmaps/separate_chaining.py:42-54 | `__setitem__` on the buckets keeps the table well formed, maps the key to the value, and adds one entry exactly when the key was new |
| BucketTables.TableDelete | src/pyhashmaps/separate_chaining.py:59-70 | `__delitem__` on the buckets keeps the table well formed and removes the key; the bucket and the total shrink by one exactly when the key was present |
| BucketTables.RehashFresh | src/pyhashmaps/separate_chaining.py:88-91 | the entry about to be moved is not yet in its new bucket, as `append_at_end` requires |
| BucketTables.RehashStep | src/pyhashmaps/separate_chaining.py:88-91 | appending the next old entry to bucket `hash_value mod new_size` keeps the new table well formed and adds exactly that entry's binding |
| BucketTables.RehashNext | src/pyhashmaps/separate_chaining.py:88-91 | after a whole old bucket is moved, the new table holds all buckets up to and including it |
| ChainProtocol.PutSpec | src/pyhashmaps/base.py:51-52 | each chain kind's `insert` updates the bucket's mapping, grows it by one exactly for a new key, and keeps what that kind keeps (tree: ascending order) |
| ChainProtocol.AppendedIsPut | src/pyhashmaps/base.py:57-65 | for an absent key, `append_at_end` of every chain kind is `insert` |
| ChainProtocol.NewChain | src/pyhashmaps/separate_chaining.py:26 | `self.chain()` makes a valid empty chain of the map's kind |
| ChainProtocol.ChainLength | src/pyhashmaps/base.py:45-46 | `len(chain)` is the number of entries the chain yields |
| ChainProtocol.ChainItems | src/pyhashmaps/base.py:42-43 | iterating a chain yields its entries |
| ChainProtocol.ChainFind | src/pyhashmaps/base.py:48-49 | `chain.find` is `Lookup` of its entries |
| ChainProtocol.ChainInsert | src/pyhashmaps/base.py:51-52 | `chain.insert` turns the entries into `Put` of the old ones |
| ChainProtocol.ChainAppend | src/pyhashmaps/base.py:57-65 | `chain.append_at_end` turns the entries into `Appended` of the old ones |
| ChainProtocol.ChainDelete | src/pyhashmaps/base.py:54-55 | `chain.delete` is Ok exactly when the key is held, and the entries become `RemoveKey` of the old ones |
| ChainProtocol.NewSlots | src/pyhashmaps/separate_chaining.py:26 | the list comprehension gives `n` valid, empty, pairwise disjoint chains |
| ChainProtocol.RowLength | src/pyhashmaps/separate_chaining.py:49-51 | `len(chain)` of chain k of the table is the length of bucket k |
| ChainProtocol.RowInsert | src/pyhashmaps/separate_chaining.py:47-50 | inserting into chain k changes bucket k to `Put` of it and leaves every other chain as it was |
| ChainProtocol.RowAppend | src/pyhashmaps/separate_chaining.py:91 | appending to chain k changes bucket k only |
| ChainProtocol.RowDelete | src/pyhashmaps/separate_chaining.py:63-66 | deleting from chain k changes bucket k to `RemoveKey` of it, and nothing else; KeyError exactly when the key is absent |
| SeparateChaining.SeparateChainingHashMap.constructor | src/pyhashmaps/separate_chaining.py:16-28 | a new map has `size` empty chains, length 0 and no key |
| SeparateChaining.SeparateChainingHashMap.Create | src/pyhashmaps/base.py:74-78 | construction fails with ValueError exactly when the initial size is not positive; otherwise an empty valid map of that size |
| SeparateChaining.SeparateChainingHashMap.Length | src/pyhashmaps/base.py:80-81 | the maintained counter is the number of keys in the map |
| SeparateChaining.SeparateChainingHashMap.Get | src/pyhashmaps/separate_chaining.py:35-40 | the value the map gives the key, or KeyError when it has none |
| SeparateChaining.SeparateChainingHashMap.Set | src/pyhashmaps/separate_chaining.py:42-57 | the key maps to the value; the counter grows exactly for a new key; the size doubles exactly when a new key brings its chain to `max_chain_size`; otherwise only that key's bucket changes |
| SeparateChaining.SeparateChainingHashMap.InsertIntoChain | src/pyhashmaps/separate_chaining.py:43-54 | insert into bucket `hash mod size` only; the chain grows by one exactly for a new key, and the counter moves with it |
| SeparateChaining.SeparateChainingHashMap.Delete | src/pyhashmaps/separate_chaining.py:59-70 | Ok exactly when the key is present; it leaves the map and the counter drops by one; only its bucket changes; KeyError changes nothing |
| SeparateChaining.SeparateChainingHashMap.Keys | src/pyhashmaps/separate_chaining.py:30-33 | the keys chain after chain: one per entry, exactly the keys of the map |
| SeparateChaining.SeparateChainingHashMap.IncreaseSize | src/pyhashmaps/separate_chaining.py:84-94 | the size doubles; the map, the counter and the invariant (each entry in bucket `hash_value mod size`) are kept |
| SeparateChaining.InsertIntoRow | src/pyhashmaps/separate_chaining.py:43-54 | the key's bucket becomes `Put` of it; the mapping is updated; before and after are the chain's lengths; the counter grows exactly when they differ |
| SeparateChaining.DeleteFromRow | src/pyhashmaps/separate_chaining.py:60-70 | the key's bucket becomes `RemoveKey` of it; Ok exactly when the key was present; the counter drops exactly then |
| SeparateChaining.RowKeys | src/pyhashmaps/separate_chaining.py:30-33 | the nested loops yield `KeysIn` of the buckets |
| SeparateChaining.EntryKeys | src/pyhashmaps/separate_chaining.py:32-33 | the inner loop yields the keys of one chain in order |
| SeparateChaining.Rehash | src/pyhashmaps/separate_chaining.py:85-92 | new chains of the new size hold exactly the old mapping, well placed for the new size |
| SeparateChaining.MoveAll | src/pyhashmaps/separate_chaining.py:88-91 | moving every old chain gives a well-formed new table with the same mapping and the same number of entries |
| SeparateChaining.MoveBucket | src/pyhashmaps/separate_chaining.py:89-91 | moving one old chain adds exactly its bindings to the new table |
| SeparateChaining.MoveEntry | src/pyhashmaps/separate_chaining.py:90-91 | `append_at_end` of one entry into new chain `hash_value mod new_size` adds exactly its binding |
| SeparateChaining.ResizeScenario | src/pyhashmaps/separate_chaining.py:53-57 | size 5, maximum chain size 3, three keys hashing to one chain: the size becomes 10 and the length 3 |
| OpenAddressing.ValidResizeFactor | src/pyhashmaps/open_addressing.py:39-40 | a resize factor is accepted exactly when it lies strictly between 0 and 1 |
| OpenAddressing.NeedIncrease | src/pyhashmaps/open_addressing.py:114-115 | growth is needed exactly when `len / size >= resize_factor`, compared exactly |
| OpenAddressing.ContentsSize | src/pyhashmaps/open_addressing.py:84 | with distinct keys, the number of live slots is the number of keys |
| OpenAddressing.KeysOfContents | src/pyhashmaps/open_addressing.py:46-49 | iteration yields one key per live slot, exactly the keys of the mapping |
| OpenAddressing.SearchStopsAtKey | src/pyhashmaps/open_addressing.py:51-64 | tombstones and other keys are walked past, so the first slot that ends the walk holds the key exactly when the map has it, with its value |
| OpenAddressing.EmptySlotStopsWalk | src/pyhashmaps/open_addressing.py:54-58 | when every probe path covers the table, one EMPTY slot ends every walk |
| OpenAddressing.WalkEndsWithoutTombstones | src/pyhashmaps/open_addressing.py:140-188 | with linear probing or double hashing and no tombstones, the live entries never fill the table, so every walk ends |
| OpenAddressing.PlaceKeepsTable | src/pyhashmaps/open_addressing.py:82-84 | filling the first EMPTY slot of a new key's walk keeps the invariant, adds the binding and one live slot |
| OpenAddressing.OverwriteKeepsTable | src/pyhashmaps/open_addressing.py:75-81 | overwriting a live entry's value keeps the invariant and the count, and remaps only that key |
| OpenAddressing.DeleteKeepsTable | src/pyhashmaps/open_addressing.py:98-104 | a tombstone in place of a live entry keeps the invariant, removes that key and one live slot |
| OpenAddressing.BelowFactorBelowSize | src/pyhashmaps/open_addressing.py:114-115 | below a factor under 1, the live entries leave a slot free |
| OpenAddressing.OpenAddressingHashMap.constructor | src/pyhashmaps/open_addressing.py:37-42 | a new table has `size` EMPTY slots, length 0 and no key |
| OpenAddressing.OpenAddressingHashMap.Create | src/pyhashmaps/open_addressing.py:37-42 | ValueError exactly when the size is not positive or the factor is outside (0, 1); otherwise an empty valid table |
| OpenAddressing.OpenAddressingHashMap.Length | src/pyhashmaps/base.py:80-81 | the maintained counter is the number of keys |
| OpenAddressing.OpenAddressingHashMap.Get | src/pyhashmaps/open_addressing.py:51-64 | the value the map gives the key, or KeyError when it has none |
| OpenAddressing.OpenAddressingHashMap.Set | src/pyhashmaps/open_addressing.py:66-88 | the key maps to the value; the counter grows exactly for a new key; without growth only the slot where the walk first stops is written; growth doubles the size, drops all tombstones, and lays the slots out as `_increase_size` places them (`Reinserted`) |
| OpenAddressing.OpenAddressingHashMap.FillEmpty | src/pyhashmaps/open_addressing.py:82-88 | the new entry goes into the EMPTY slot, the counter grows, and the table doubles exactly when the load reaches the factor, into the layout `Reinserted` gives |
| OpenAddressing.OpenAddressingHashMap.Delete | src/pyhashmaps/open_addressing.py:90-106 | Ok exactly when the key is present; its slot alone becomes a tombstone and the counter drops; KeyError leaves every slot as it was |
| OpenAddressing.OpenAddressingHashMap.IncreaseSize | src/pyhashmaps/open_addressing.py:117-131 | twice the size, the same mapping and counter, no tombstones, and every live entry placed in slot order at the first EMPTY slot of its walk (`Reinserted`) |
| OpenAddressing.Refit | src/pyhashmaps/open_addressing.py:118-128 | the two loops build a fresh array of the new size that is exactly `Reinserted` of the old slots, satisfies the table invariant, and holds the same mapping and number of entries |
| OpenAddressing.CoveringRefits | src/pyhashmaps/open_addressing.py:124-128 | where every walk covers the new table, the placement loop finds an EMPTY slot for every entry as long as the entries do not outnumber the slots |
| OpenAddressing.HomeSlotsRefit | src/pyhashmaps/open_addressing.py:124-128 | entries whose first probe in the new table is their old slot index all find an EMPTY slot |
| OpenAddressing.CoveringResizeFits | src/pyhashmaps/open_addressing.py:82-88 | for linear probing and double hashing, the growth requirement of `Set` always holds for a new key whose walk stops |
| OpenAddressing.QuadraticResizeFits | tests/test_open_addressing_hashmap.py:28-34 | in the resize test under quadratic probing, the eighth insertion's growth can be completed: each key goes to its own slot of the doubled table |
| OpenAddressing.FirstEmptyIs | src/pyhashmaps/open_addressing.py:124-128 | the first EMPTY probe of a walk is unique, so it is where the placement loop breaks |
| OpenAddressing.OpenAddressingHashMap.Keys | src/pyhashmaps/open_addressing.py:46-49 | the keys of the live slots in slot order, exactly the keys of the map |
| OpenAddressing.PlaceEntry | src/pyhashmaps/open_addressing.py:122-128 | with the hash code recomputed, the entry is written into the first EMPTY probe of its walk and no other slot changes; the invariant holds and exactly its binding is added |
| OpenAddressing.EmptyContents | src/pyhashmaps/open_addressing.py:42 | an all-EMPTY array maps nothing and has no live slot |
| OpenAddressing.ResizeScenario | tests/test_open_addressing_hashmap.py:28-34 | under each of the three probe sequences: ten slots, factor 0.8, keys 0..7 with `hash(i) == i` inserted, then size 20 and length 8 |
| OpenAddressing.TombstoneScenario | src/pyhashmaps/open_addressing.py:82-106 | two slots: insert and delete two keys, and both slots are tombstones, on which no linear walk ever ends |
| Probing.PyMod | src/pyhashmaps/open_addressing.py:178 | Python's `%`: the result takes the sign of the divisor, lies strictly inside it, and differs from the dividend by a multiple of it |
| Probing.Hash2 | src/pyhashmaps/open_addressing.py:177-178 | `prime - h % prime` lies in [1, prime] for a positive prime (in [prime, 0) for a negative one) |
| Probing.Probe | src/pyhashmaps/open_addressing.py:141-188 | every probe index lies in [0, size) |
| Probing.LinearProbeFormula | src/pyhashmaps/open_addressing.py:141-147 | linear probe i is `(h + i) mod size` |
| Probing.SumOfSquaresClosedForm | src/pyhashmaps/open_addressing.py:150-159 | the quadratic offset after n probes is (n-1)n(2n-1)/6 |
| Probing.QuadraticProbeFormula | src/pyhashmaps/open_addressing.py:150-159 | quadratic probes 0 and 1 are both the home slot, and probe n is `(h + (n-1)n(2n-1)/6) mod size` |
| Probing.DoubleHashingIsShiftedLinear | src/pyhashmaps/open_addressing.py:180-188 | double-hashing probe i is linear probe i from `h mod size + h2 mod size` |
| Probing.LinearProbesDistinct | src/pyhashmaps/open_addressing.py:141-147 | the first `size` linear probes are pairwise distinct |
| Probing.LinearReaches | src/pyhashmaps/open_addressing.py:141-147 | every slot is one of the first `size` linear probes |
| Probing.LinearAndDoubleHashingCover | src/pyhashmaps/open_addressing.py:140-188 | linear probing and double hashing reach every slot from every hash code |
| Probing.QuadraticMissesSlotsOfFive | src/pyhashmaps/open_addressing.py:150-159 | quadratic probing does not cover 5 slots: from slot 0 it never reaches slot 2 |
| Probing.QuadraticModFive | src/pyhashmaps/open_addressing.py:150-159 | the cumulative quadratic offsets are 0, 1 or 4 modulo 5 |

## Left out

- The built-in `hash()` and the TypeError for unhashable keys: `hash` is a deterministic function given to the constructor.
- `__sizeof__` of both engines: it measures pointer sizes through ctypes, a foreign call.
- `__repr__`: string formatting only.
- The inherited `MutableMapping` mixins (`update`, `get`, `items`, `values`, `clear`, `__contains__`, `__eq__`) and construction from a mapping or iterable: their code is not part of this model.
- The float resize factor: it is an exact fraction `num/den`, and `len / size >= factor` is compared as `len * den >= num * size`.
- Mutating a key after insertion: keys are immutable values, so `is_same` is equality.
- `protocols.py` and `__init__.py`: they hold no logic.
- Laziness of the generators (`__iter__`, `inorder_traversal`, `_probing_sequence`): iteration returns a sequence, and a probe sequence is an index function.
- Separate-chaining keys are `int`, so that one map class serves all three chain kinds; the tree chain needs a strict total order consistent with equality, and `<` on `int` is one.
- The three concrete map classes of each engine are values (`Binding`, `Strategy`) of one class, not subclasses.
- OpenAddressing.OpenAddressingHashMap.Get, Set and Delete require `ProbeStops`: some probe of the key's walk is EMPTY or holds the key. The source's `while True` loops never end otherwise. `TombstoneScenario` builds such a table. `WalkEndsWithoutTombstones` proves the condition for linear probing and double hashing on tables without tombstones. Under quadratic probing the condition stays with the caller, even without tombstones (`QuadraticMissesSlotsOfFive` shows a walk that misses slots).
- OpenAddressing.OpenAddressingHashMap.Set, FillEmpty and IncreaseSize require, when they resize, `Refits`: placing the live entries one after the other, each meets an EMPTY slot on its walk in the new table. Otherwise the `for idx in ...` loop of `_increase_size` never ends. `CoveringResizeFits` proves the requirement always holds for linear probing and double hashing. For quadratic probing it depends on the keys (`QuadraticMissesSlotsOfFive` shows a walk that misses slots). `QuadraticResizeFits` proves it for the resize test.
- OpenAddressing.OpenAddressingHashMap.Create requires a nonzero prime for double hashing. The source builds `DoubleHashingHashMap(prime_number=0)`, and every later lookup, insertion or deletion then raises ZeroDivisionError in `_hash_func2` (`open_addressing.py:178`). That error path is not modelled.
- ChainProtocol.ChainDelete, ChainProtocol.RowDelete, SeparateChaining.DeleteFromRow and SeparateChaining.SeparateChainingHashMap.Delete: a map bound to linked-list chains deletes with the corrected `LinkedList.Delete`, which keeps `tail` on the last node. As written, `delete` (`chains.py:102-117`) leaves `tail` stale, so these members' `Valid()` does not hold for the source after the last node of a chain is deleted (see Findings).
- SeparateChaining.SeparateChainingHashMap.Set and IncreaseSize: after a resize they state the new mapping, the counter and the placement invariant (every entry in chain `hash_value mod size`), not the order of entries within each new chain.
- `BinarySearchTree.find_node` loops forever when neither `<`, `>` nor `is_same` holds; with `int` keys one always holds, so that case does not arise. Its `elif key > …` is modelled as the `else` it then is.
- The bodies of `__setitem__`, `__delitem__` and `_increase_size` of the separate-chaining map are split into methods on the values of the map's fields (`InsertIntoRow`, `DeleteFromRow`, `Rehash`, `MoveAll`, `MoveBucket`, `MoveEntry`). The counter is updated on a local and then assigned.
- The scenario steps `SeparateChaining.SetFirst`, `SetSecond`, `SetThird`, `BinarySearchTrees.InsertFirst`, `InsertMiddle`, `InsertLast`, `InsertKey`, `RemoveStep`, `ShapedInsert`, `ShapedInorder`, `FullInorder` and `OpenAddressing.InsertKey` only split the scenarios into short steps; they model nothing of their own.
- Methods that change heap objects name whole objects (or whole fields of a set of nodes) in `modifies`, not single fields where the source writes only one.

## Findings

| source | as written | input that shows it | evidently intended | confidence | as-written member | corrected member |
|---|---|---|---|---|---|---|
| src/pyhashmaps/chains.py:102-117 | `LinkedList.delete` never updates `tail`, and `insert_tail` (119-126) links new nodes after `tail` | insert key 7, delete key 7, insert key 8: `count` is 1 but `head` is null, so key 8 cannot be found or iterated. In a `LinkedListHashMap`, deleting the only key of a chain and then setting a new key that hashes to the same chain raises `len` and the chain's `count`, but `__getitem__` then raises KeyError for that key and `__iter__` skips it (`separate_chaining.py:42-57`) | unlinking the last node moves `tail` back to the previous node, or to null | high (proved; not executed) | LinkedLists.LinkedList.DeleteAsWritten, LinkedLists.LostInsert | LinkedLists.LinkedList.Delete, LinkedLists.KeptInsert |

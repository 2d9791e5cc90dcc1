# Separate-chaining hash table (hashtable.c) in Dafny

This project models the string-keyed hash table of `hashtable.c`. Keys are C strings and values are C `int`s. Each bucket holds a singly linked chain of nodes. New keys are linked in at the head of their chain. The table doubles its bucket array once it holds more than twice as many nodes as buckets.

Modules:

- `Hashing` (`hashing.dfy`): the polynomial rolling hash `hash`. `Hash` is a pure function that runs the C loop's step from the front of the key. `ComputeHash` is the loop itself, proved equal to `Hash`. `HashIsPolyMod` proves that the wrapping loop equals the exact polynomial reduced once modulo 2^32.
- `Chains` (`chains.dfy`): the table's contents as values. A bucket array is a `seq<Chain>`. A chain is the `seq<Node>` met by following `next` from the bucket head. This module defines what each operation does to those values: `PushEntry` (link at the head), `Overwrite` (value update in place), `Unlink` (remove the first match) and `Rehash` (the array `resizeHashTable` builds). Its lemmas prove that each of these refines the matching operation on a `map<Key, Int32>` and keeps the structural invariant `Inv`, which says:
  - every node sits in bucket `hash(key) % size`;
  - no key occurs twice;
  - looking a key up in its bucket gives what the map gives;
  - `count` equals both the number of keys and the number of nodes.
- `HashTables` (`hashtable.dfy`): the `HashTable` struct as a class. It has the fields `size`, `count` and `table: array<Chain>`, plus a ghost `Contents` map. Its methods mirror `createHashTable`, `getFromHashTable`, `insertIntoHashTable`, `removeFromHashTable`, `resizeHashTable` and `traverseHashTable`. Each method states the exact new bucket array and the new abstract map.
- `Driver` (`driver.dfy`): the sample `main` as a client. It proves the concrete traversal output before and after removing "key2". It also has a client showing the update and removal semantics.

Modelling choices:

- `char` is taken as signed, as on x86. A key byte of 128 or more contributes `byte - 256` to the hash (`CharValue`). `unsigned int` wrap-around is written out as `% 2^32`.
- Key bytes are 1..255, because NUL ends a C string.
- The chain walks of get, insert and remove are one method, `Scan`. The `prev` pointer of `removeFromHashTable` is the position just before the match. Unlinking is the splice `chain[..p] + chain[p+1..]`, proved equal to `Unlink`.
- The two nested loops of `resizeHashTable` are `MoveNodes`, proved to build `Rehash(old buckets, newSize)`. `Resize` then adopts the new array and size.

## Model

| member | source | states |
|---|---|---|
| Hashing.CharValue | hashtable.c:50 | `*key` promoted from a signed char: a value in -128..127, never 0, with the same low 8 bits as the byte |
| Hashing.HashSnoc | hashtable.c:47-53 | the hash of the empty key is 0; appending byte `c` to `s` gives `(hash(s) * 31 + c) mod 2^32` |
| Hashing.HashIsPolyMod | hashtable.c:47-53 | the wrapping loop equals the exact Horner polynomial in 31 of the key's bytes, reduced modulo 2^32, so it depends only on the bytes |
| Hashing.ComputeHash | hashtable.c:47-53 | the `while (*key)` loop returns `Hash(key)` |
| Chains.Index | hashtable.c:57 | the bucket index `hash(key) % size` is below `size` |
| Chains.LookupHit | hashtable.c:59-62 | the scan returns the value of the first node whose key matches |
| Chains.LookupMiss | hashtable.c:59-65 | the scan finds nothing exactly when no node of the chain has the key |
| Chains.LookupAppend | hashtable.c:59-65 | scanning a concatenation finds the match in the first part if there is one, otherwise in the second |
| Chains.OverwriteAt | hashtable.c:71-75 | updating a present key changes only the value of the first matching node; every node keeps its position |
| Chains.OverwriteLookup | hashtable.c:71-75 | after the update, the key reads the new value and every other key reads what it did before |
| Chains.OverwriteRefines | hashtable.c:69-76 | an update of a present key keeps the invariant, binds the new value in the map and leaves `count` unchanged |
| Chains.PushFresh | hashtable.c:84-88 | linking a node whose key is absent at the head of its chain keeps placement and uniqueness, adds one node, and changes no other key's lookup |
| Chains.PushNewRefines | hashtable.c:78-88 | inserting a new key keeps the invariant, adds that binding to the map and increments `count` |
| Chains.PushAllSnoc | hashtable.c:130-136 | moving one more node into the new array links it at the head of its chain at the new size |
| Chains.PushAllFresh | hashtable.c:128-137 | relinking nodes with distinct keys into a fresh array of `n` buckets places each one by `hash % n`, keeps them distinct, keeps their number, and makes every lookup agree with the node list |
| Chains.RehashRefines | hashtable.c:120-143 | resizing keeps the map and `count`, and re-establishes placement at the new size |
| Chains.UnlinkAt | hashtable.c:101-108 | removing a present key deletes exactly its first node; the other nodes keep their relative order |
| Chains.UnlinkLookup | hashtable.c:97-117 | after removal the key is not found and every other key reads what it did before |
| Chains.UnlinkShape | hashtable.c:97-117 | removal keeps keys distinct, keeps only nodes that were there, and shortens the chain by one exactly when the key was present |
| Chains.UnlinkAbsent | hashtable.c:97-117 | removing an absent key leaves the chain unchanged |
| Chains.UnlinkAbstracts | hashtable.c:97-117 | after removing a key from its bucket, every lookup agrees with the map minus that key |
| Chains.ReplaceChain | hashtable.c:104-107 | putting back a relinked chain whose keys are distinct and all belong to that bucket keeps placement and uniqueness |
| Chains.UnlinkRefines | hashtable.c:97-117 | removing a present key keeps the invariant, deletes the key from the map and decrements `count` |
| Chains.FlattenUpdateLength | hashtable.c:88 | replacing one chain changes the total node count by the change in that chain's length |
| Chains.FlattenEmpty | hashtable.c:38 | a freshly allocated bucket array holds no nodes |
| Chains.FlattenPlacedBelow | hashtable.c:162-168 | the nodes visited in the first `i` buckets all hash below `i` |
| Chains.FlattenLookup | hashtable.c:161-169 | in a placed table, scanning all nodes in traversal order finds what the key's own bucket holds |
| Chains.FlattenDistinct | hashtable.c:69-88 | keys are unique across the whole table, not only within a chain |
| Chains.FlattenPrefixIsPrefix | hashtable.c:162-168 | visiting the first `i` buckets produces a prefix of the full traversal |
| Chains.FlattenSegment | hashtable.c:162-168 | bucket `i`'s chain appears head to tail and contiguously in the traversal, right after buckets 0 to i-1 |
| Chains.Traversal | hashtable.c:161-169 | a traversal visits `count` nodes: every key of the map exactly once with its value, and nothing else, in ascending bucket order |
| HashTables.Scan | hashtable.c:59-65 | the chain walk returns the position of the first node with the key, or none when no node has it |
| HashTables.MoveNodes | hashtable.c:121-137 | the nested loops build a fresh array equal to `Rehash(old buckets, new size)` |
| HashTables.HashTable.constructor | hashtable.c:30-44 | a new table has `size == 10`, `count == 0`, all buckets empty and an empty map |
| HashTables.HashTable.Get | hashtable.c:56-66 | reads only; returns the node for `key` exactly when the key is in the map, carrying the map's value |
| HashTables.HashTable.Insert | hashtable.c:69-94 | the map becomes `old[key := value]`. A present key: its node is overwritten in place, and `count`, `size` and the array stay. A new key: it is linked at the head of its chain and `count` grows by 1. The table is rehashed into `2*size` buckets exactly when `count > 2*size` afterwards |
| HashTables.HashTable.Remove | hashtable.c:97-117 | the map loses `key`; `count` drops by 1 exactly when the key was present; the bucket becomes `Unlink` of itself, which is unchanged for an absent key |
| HashTables.HashTable.Resize | hashtable.c:120-143 | the table adopts a fresh array of `newSize` buckets equal to `Rehash` of the old one; `count` and the map are unchanged |
| HashTables.HashTable.Traverse | hashtable.c:161-169 | reads only; returns the nodes bucket by bucket, head to tail: `count` of them, keys distinct, each with its map value, every key present, bucket indices ascending |
| Driver.DemoBuckets | hashtable.c:180-182 | "key1", "key2" and "key3" hash to 3288498, 3288499 and 3288500, that is, buckets 8, 9 and 0 of ten |
| Driver.DemoInserts | hashtable.c:177-182 | after the three inserts, buckets 0, 8 and 9 hold key3, key1 and key2, and all other buckets are empty |
| Driver.DemoRemove | hashtable.c:189 | removing "key2" empties bucket 9 and leaves the rest |
| Driver.Demo | hashtable.c:176-193 | the two traversals of `main` yield (key3,30), (key1,10), (key2,20) and then (key3,30), (key1,10) |
| Driver.UpdateThenRemove | hashtable.c:69-117 | insert then get returns the value; a second insert replaces it without changing `count`; remove makes the key absent and drops `count` to 0; a second remove changes nothing |

## Left out

- Allocation failure (`malloc`/`calloc`/`strdup` returning NULL, then `exit(1)`) is not modelled. Allocation always succeeds.
- `destroyHashTable` and every `free` are not modelled. Keys are immutable values owned by their nodes, so ownership, copying and use-after-free do not arise.
- `printKeyValue`, `printf` and the callback pointer of `traverseHashTable` are not modelled. `Traverse` returns the sequence of (key, value) pairs the callback would be called with, in call order.
- Chains are modelled as sequences, not as linked `Node` objects. Relinking `next` pointers is modelled as sequence surgery: prepend, position update, splice. Pointer aliasing is not captured. In particular, `getFromHashTable` returns a pointer through which a caller could change a stored value. `HashTable.Get` returns a copy of the node.
- HashTables.HashTable.Get: does not model that the returned `Node*` aliases the stored node.
- Platforms where `char` is unsigned are not modelled. There, bytes of 128 or more would add `byte` rather than `byte - 256` to the hash.
- HashTables.HashTable.Insert: requires `size <= INT_MAX / 2` when the key is new, because the C code then evaluates `size * 2` in `int` and overflows beyond that bound.

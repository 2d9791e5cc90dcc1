/**
  The `HashTable` of hashtable.c: a bucket array with its `size` and `count`,
  updated in place.  Every method keeps `Valid()` and says how it changes the
  abstract contents `Contents` and the concrete buckets.
 */
module HashTables {
  import opened Wrappers
  import opened Hashing
  import opened Chains

  const INITIAL_SIZE: nat := 10
  const INT_MAX: int := 0x7FFF_FFFF
  /** The largest size for which `size * 2` is still a C `int`. */
  const MAX_SIZE: nat := INT_MAX / 2

  /**
    The `while (node != NULL)` walk with `strcmp` over one chain: the position
    of the first node whose key is `key`, or None when no node has it.
   */
  method Scan(chain: Chain, key: Key) returns (pos: Option<nat>)
    ensures pos.Some? ==> pos.value < |chain| && chain[pos.value].key == key
    ensures pos.Some? ==> forall q :: 0 <= q < pos.value ==> chain[q].key != key
    ensures pos.None? ==> forall q :: 0 <= q < |chain| ==> chain[q].key != key
  {
    var j := 0;
    while j < |chain|
      invariant 0 <= j <= |chain|
      invariant forall q :: 0 <= q < j ==> chain[q].key != key
    {
      if chain[j].key == key {
        return Some(j);
      }
      j := j + 1;
    }
    return None;
  }

  /**
    The loops of `resizeHashTable`: every node, bucket by bucket and head to
    tail, is linked in at the head of its chain in a fresh array of `newSize`
    buckets, indexed at the new size.
   */
  method MoveNodes(buckets: array<Chain>, newSize: nat) returns (newTable: array<Chain>)
    requires newSize > 0
    ensures fresh(newTable)
    ensures newTable[..] == Rehash(buckets[..], newSize)
  {
    ghost var bs := buckets[..];
    ghost var empty := EmptyBuckets(newSize);
    newTable := new Chain[newSize](_ => []);
    assert newTable[..] == empty;
    var i := 0;
    while i < buckets.Length
      modifies newTable
      invariant 0 <= i <= buckets.Length
      invariant newTable[..] == PushAll(empty, Flatten(bs[..i]))
    {
      var node := buckets[i];
      var j := 0;
      assert Flatten(bs[..i]) + node[..0] == Flatten(bs[..i]);
      while j < |node|
        modifies newTable
        invariant 0 <= j <= |node|
        invariant newTable[..] == PushAll(empty, Flatten(bs[..i]) + node[..j])
      {
        var h := ComputeHash(node[j].key);
        var index := h as int % newSize;
        ghost var moved := Flatten(bs[..i]) + node[..j];
        PushAllSnoc(empty, moved, node[j]);
        assert Flatten(bs[..i]) + node[..j + 1] == moved + [node[j]];
        assert index == Index(node[j].key, |PushAll(empty, moved)|);
        ghost var before := newTable[..];
        newTable[index] := [node[j]] + newTable[index];
        assert newTable[..] == before[index := [node[j]] + before[index]];
        j := j + 1;
      }
      assert node[..j] == bs[i];
      FlattenStep(bs, i);
      i := i + 1;
    }
    assert bs[..buckets.Length] == bs;
  }

  class HashTable {
    var size: nat
    var count: nat
    var table: array<Chain>
    /** The key-to-value map the table represents. */
    ghost var Contents: map<Key, Int32>

    /** The buckets, placed and duplicate-free, represent Contents. */
    ghost predicate Consistent()
      reads this, table
    {
      && table.Length == size
      && 0 < size <= INT_MAX
      && Inv(table[..], Contents, count)
    }

    /** Between operations the table is also never more than twice as full as it has buckets. */
    ghost predicate Valid()
      reads this, table
    {
      Consistent() && count <= 2 * size
    }

    /** `createHashTable`: ten empty buckets. */
    constructor ()
      ensures Valid() && fresh(table)
      ensures size == INITIAL_SIZE && count == 0 && Contents == map[]
      ensures forall i :: 0 <= i < size ==> table[i] == []
    {
      size := INITIAL_SIZE;
      count := 0;
      table := new Chain[INITIAL_SIZE](_ => []);
      Contents := map[];
      new;
      assert table[..] == EmptyBuckets(INITIAL_SIZE);
      FlattenEmpty(INITIAL_SIZE);
    }

    /** `getFromHashTable`: the node holding `key`, found in bucket `hash(key) % size`. */
    method Get(key: Key) returns (node: Option<Node>)
      requires Valid()
      ensures node == if key in Contents then Some(Node(key, Contents[key])) else None
    {
      var h := ComputeHash(key);
      var index := h as int % size;
      var chain := table[index];
      var pos := Scan(chain, key);
      assert Lookup(table[..][Index(key, size)], key) == MapGet(Contents, key);
      if pos.Some? {
        LookupHit(chain, key, pos.value);
        node := Some(chain[pos.value]);
      } else {
        LookupMiss(chain, key);
        node := None;
      }
    }

    /**
      `insertIntoHashTable`: overwrite the value of a present key in place, or
      link a new node at the head of its chain and grow the table once it holds
      more than twice as many nodes as buckets.
     */
    method Insert(key: Key, value: Int32)
      requires Valid()
      requires key !in Contents ==> size <= MAX_SIZE
      modifies this, table
      ensures Valid()
      ensures Contents == old(Contents)[key := value]
      ensures key in old(Contents) ==>
                && size == old(size) && count == old(count) && table == old(table)
                && table[..] == old(table[..])[Index(key, size) := Overwrite(old(table[..])[Index(key, size)], key, value)]
      ensures key !in old(Contents) ==> count == old(count) + 1
      ensures key !in old(Contents) && count <= 2 * old(size) ==>
                && size == old(size) && table == old(table)
                && table[..] == PushEntry(old(table[..]), Node(key, value))
      ensures key !in old(Contents) && count > 2 * old(size) ==>
                && size == 2 * old(size) && fresh(table)
                && table[..] == Rehash(PushEntry(old(table[..]), Node(key, value)), size)
    {
      var h := ComputeHash(key);
      var index := h as int % size;
      ghost var bs := table[..];
      var pos := Scan(table[index], key);
      assert Lookup(bs[Index(key, size)], key) == MapGet(Contents, key);
      if pos.Some? {
        LookupHit(table[index], key, pos.value);
        OverwriteAt(table[index], key, value, pos.value);
        OverwriteRefines(bs, Contents, count, key, value);
        table[index] := table[index][pos.value := Node(key, value)];
        Contents := Contents[key := value];
        return;
      }
      LookupMiss(table[index], key);
      PushNewRefines(bs, Contents, count, Node(key, value));
      table[index] := [Node(key, value)] + table[index];
      count := count + 1;
      Contents := Contents[key := value];
      assert table[..] == PushEntry(bs, Node(key, value));
      if count > size * 2 {
        Resize(size * 2);
      }
    }

    /**
      `removeFromHashTable`: unlink the node holding `key` from its chain;
      removing an absent key changes nothing.
     */
    method Remove(key: Key)
      requires Valid()
      modifies this`count, this`Contents, table
      ensures Valid() && size == old(size) && table == old(table)
      ensures Contents == old(Contents) - {key}
      ensures count == if key in old(Contents) then old(count) - 1 else old(count)
      ensures table[..] == old(table[..])[Index(key, size) := Unlink(old(table[..])[Index(key, size)], key)]
    {
      var h := ComputeHash(key);
      var index := h as int % size;
      ghost var bs := table[..];
      var pos := Scan(table[index], key);
      assert Lookup(bs[Index(key, size)], key) == MapGet(Contents, key);
      if pos.Some? {
        var p := pos.value;
        LookupHit(table[index], key, p);
        UnlinkAt(table[index], key, p);
        UnlinkRefines(bs, Contents, count, key);
        table[index] := table[index][..p] + table[index][p + 1..];
        count := count - 1;
        Contents := Contents - {key};
      } else {
        LookupMiss(table[index], key);
        UnlinkAbsent(table[index], key);
        assert table[..] == bs[index := Unlink(bs[index], key)];
      }
    }

    /**
      `resizeHashTable`: move every node into a fresh array of `newSize`
      buckets, then adopt that array and size.
     */
    method Resize(newSize: nat)
      requires Consistent() && 0 < newSize <= INT_MAX
      modifies this
      ensures Consistent() && fresh(table)
      ensures size == newSize && count == old(count) && Contents == old(Contents)
      ensures table[..] == Rehash(old(table[..]), newSize)
    {
      var newTable := MoveNodes(table, newSize);
      RehashRefines(table[..], Contents, count, newSize);
      table := newTable;
      size := newSize;
    }

    /**
      `traverseHashTable`: the (key, value) pairs the callback is called with,
      in call order.
     */
    method Traverse() returns (visited: Chain)
      requires Valid()
      ensures visited == Flatten(table[..])
      ensures |visited| == count && DistinctKeys(visited)
      ensures forall p :: 0 <= p < |visited| ==> MapGet(Contents, visited[p].key) == Some(visited[p].value)
      ensures forall k :: k in Contents ==> exists p :: 0 <= p < |visited| && visited[p].key == k
      ensures forall p, q :: 0 <= p < q < |visited| ==> Index(visited[p].key, size) <= Index(visited[q].key, size)
    {
      visited := [];
      var i := 0;
      while i < size
        invariant 0 <= i <= size
        invariant visited == Flatten(table[..][..i])
      {
        var node := table[i];
        var j := 0;
        while j < |node|
          invariant 0 <= j <= |node|
          invariant visited == Flatten(table[..][..i]) + node[..j]
        {
          assert node[..j + 1] == node[..j] + [node[j]];
          visited := visited + [node[j]];
          j := j + 1;
        }
        assert node[..j] == table[..][i];
        FlattenStep(table[..], i);
        i := i + 1;
      }
      assert table[..][..size] == table[..];
      Traversal(table[..], Contents, count);
    }
  }
}

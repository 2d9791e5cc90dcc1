/**
  The sample caller `main` of hashtable.c, and the update and removal
  behaviour a caller sees, written as clients of the table that state what
  they observe.
 */
module Driver {
  import opened Wrappers
  import opened Hashing
  import opened Chains
  import opened HashTables

  /** The keys "key1", "key2" and "key3" as bytes. */
  const KEY1: Key := [107, 101, 121, 49]
  const KEY2: Key := [107, 101, 121, 50]
  const KEY3: Key := [107, 101, 121, 51]

  /** "key1", "key2" and "key3" land in buckets 8, 9 and 0 of the initial ten. */
  lemma DemoBuckets()
    ensures Hash(KEY1) == 3288498 && Hash(KEY2) == 3288499 && Hash(KEY3) == 3288500
    ensures Index(KEY1, INITIAL_SIZE) == 8 && Index(KEY2, INITIAL_SIZE) == 9 && Index(KEY3, INITIAL_SIZE) == 0
  {
  }


  lemma {:induction false} FlattenSkipEmpty(bs: Buckets, i: nat, j: nat)
    requires i <= j <= |bs|
    requires forall b :: i <= b < j ==> bs[b] == []
    ensures Flatten(bs[..j]) == Flatten(bs[..i])
    decreases j - i
  {
    if i < j {
      FlattenStep(bs, j - 1);
      FlattenSkipEmpty(bs, i, j - 1);
    }
  }

  /** The traversal of the table `main` builds, before and after removing "key2". */
  lemma DemoTraversal(bs: Buckets, n1: Node, n2: Node, n3: Node)
    requires |bs| == 10 && bs[0] == [n3] && bs[8] == [n1]
    requires forall b :: 1 <= b < 8 ==> bs[b] == []
    ensures bs[9] == [n2] ==> Flatten(bs) == [n3, n1, n2]
    ensures bs[9] == [] ==> Flatten(bs) == [n3, n1]
  {
    assert bs[..0] == [];
    FlattenStep(bs, 0);
    FlattenSkipEmpty(bs, 1, 8);
    FlattenStep(bs, 8);
    FlattenStep(bs, 9);
    assert bs[..10] == bs;
  }

  /** The first half of `main`: a new table after inserting ("key1", 10), ("key2", 20), ("key3", 30). */
  method DemoInserts() returns (t: HashTable)
    ensures fresh(t) && fresh(t.table) && t.Valid() && t.size == INITIAL_SIZE
    ensures t.table[0] == [Node(KEY3, 30)] && t.table[8] == [Node(KEY1, 10)] && t.table[9] == [Node(KEY2, 20)]
    ensures forall b :: 1 <= b < 8 ==> t.table[b] == []
  {
    DemoBuckets();
    t := new HashTable();
    var n1, n2, n3 := Node(KEY1, 10), Node(KEY2, 20), Node(KEY3, 30);
    ghost var empty := t.table[..];
    t.Insert(KEY1, 10);
    assert [n1] + empty[8] == [n1];
    assert t.size == 10 && t.count == 1 && t.table[..] == empty[8 := [n1]];
    t.Insert(KEY2, 20);
    assert [n2] + empty[9] == [n2];
    assert t.size == 10 && t.count == 2 && t.table[..] == empty[8 := [n1]][9 := [n2]];
    t.Insert(KEY3, 30);
    assert [n3] + empty[0] == [n3];
    assert t.table[..] == empty[8 := [n1]][9 := [n2]][0 := [n3]];
  }

  /** The second half of `main`: removing "key2" empties bucket 9 and leaves the rest. */
  method DemoRemove(t: HashTable)
    requires t.Valid() && t.size == INITIAL_SIZE
    requires t.table[0] == [Node(KEY3, 30)] && t.table[8] == [Node(KEY1, 10)] && t.table[9] == [Node(KEY2, 20)]
    requires forall b :: 1 <= b < 8 ==> t.table[b] == []
    modifies t, t.table
    ensures t.Valid() && t.size == INITIAL_SIZE && t.table == old(t.table)
    ensures t.table[0] == [Node(KEY3, 30)] && t.table[8] == [Node(KEY1, 10)] && t.table[9] == []
    ensures forall b :: 1 <= b < 8 ==> t.table[b] == []
  {
    DemoBuckets();
    ghost var full := t.table[..];
    assert Unlink(full[9], KEY2) == [];
    t.Remove(KEY2);
    assert t.table[..] == full[9 := []];
  }

  /**
    `main`: create a table, insert ("key1", 10), ("key2", 20), ("key3", 30),
    traverse, remove "key2", traverse again.
   */
  method Demo() returns (before: Chain, after: Chain)
    ensures before == [Node(KEY3, 30), Node(KEY1, 10), Node(KEY2, 20)]
    ensures after == [Node(KEY3, 30), Node(KEY1, 10)]
  {
    var t := DemoInserts();
    var n1, n2, n3 := Node(KEY1, 10), Node(KEY2, 20), Node(KEY3, 30);
    DemoTraversal(t.table[..], n1, n2, n3);
    before := t.Traverse();
    DemoRemove(t);
    DemoTraversal(t.table[..], n1, n2, n3);
    after := t.Traverse();
  }

  /**
    Update and removal as a caller sees them: a second insert of a key
    replaces its value without adding a node, and removing it twice makes it
    absent once and is harmless the second time.
   */
  method UpdateThenRemove(key: Key, v1: Int32, v2: Int32)
    returns (first: Option<Node>, second: Option<Node>, removed: Option<Node>, counts: seq<nat>)
    ensures first == Some(Node(key, v1)) && second == Some(Node(key, v2)) && removed == None
    ensures counts == [1, 1, 0, 0]
  {
    var t := new HashTable();
    t.Insert(key, v1);
    first := t.Get(key);
    var c1 := t.count;
    t.Insert(key, v2);
    second := t.Get(key);
    var c2 := t.count;
    t.Remove(key);
    removed := t.Get(key);
    var c3 := t.count;
    t.Remove(key);
    counts := [c1, c2, c3, t.count];
  }
}

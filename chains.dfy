/**
  The contents of a separate-chaining table as values: a bucket array is a
  sequence of chains, a chain is the sequence of nodes reached from a bucket
  head by following `next`, head first.  This module defines what the table
  operations do to these values and proves that each of them refines the
  corresponding operation on a finite map.
 */
module Chains {
  import opened Wrappers
  import opened Hashing

  /** The C `int` stored as a value. */
  newtype Int32 = x: int | -0x8000_0000 <= x < 0x8000_0000

  /** A `Node` without its `next` pointer: its successor is the next element of its chain. */
  datatype Node = Node(key: Key, value: Int32)

  type Chain = seq<Node>
  type Buckets = seq<Chain>

  /** The bucket of `key` in a table of `size` buckets: `hash(key) % size`. */
  function Index(key: Key, size: nat): (i: nat)
    requires size > 0
    ensures i < size
  {
    Hash(key) as int % size
  }

  /** The value of the first node of `chain` whose key equals `key` (the `strcmp` scan). */
  function Lookup(chain: Chain, key: Key): Option<Int32>
  {
    if chain == [] then None
    else if chain[0].key == key then Some(chain[0].value)
    else Lookup(chain[1..], key)
  }

  function MapGet(m: map<Key, Int32>, key: Key): Option<Int32>
  {
    if key in m then Some(m[key]) else None
  }

  /** Every node sits in the bucket its key hashes to at the current size. */
  ghost predicate Placed(bs: Buckets)
  {
    forall i, p :: 0 <= i < |bs| && 0 <= p < |bs[i]| ==> Index(bs[i][p].key, |bs|) == i
  }

  predicate DistinctKeys(c: Chain)
  {
    forall p, q :: 0 <= p < q < |c| ==> c[p].key != c[q].key
  }

  ghost predicate ChainsDistinct(bs: Buckets)
  {
    forall i :: 0 <= i < |bs| ==> DistinctKeys(bs[i])
  }

  /** Looking a key up in its bucket gives what the map gives. */
  ghost predicate Abstracts(bs: Buckets, m: map<Key, Int32>)
    requires |bs| > 0
  {
    forall k :: Lookup(bs[Index(k, |bs|)], k) == MapGet(m, k)
  }

  /** All nodes, bucket by bucket in ascending order, head to tail within a bucket. */
  function Flatten(bs: Buckets): Chain
    decreases |bs|
  {
    if bs == [] then [] else Flatten(bs[..|bs| - 1]) + bs[|bs| - 1]
  }

  /**
    The structural invariant of a table with contents `m` and node counter
    `count`: placement, no key twice, lookups agree with `m`, and `count` is
    both the number of keys and the number of nodes.
   */
  ghost predicate Inv(bs: Buckets, m: map<Key, Int32>, count: int)
  {
    && |bs| > 0
    && Placed(bs)
    && ChainsDistinct(bs)
    && Abstracts(bs, m)
    && count == |m|
    && count == |Flatten(bs)|
  }

  function EmptyBuckets(n: nat): (r: Buckets)
    ensures |r| == n
    ensures forall i :: 0 <= i < n ==> r[i] == []
  {
    seq(n, _ => [])
  }

  /** Link `e` in at the head of its bucket's chain. */
  function PushEntry(bs: Buckets, e: Node): (r: Buckets)
    requires |bs| > 0
    ensures |r| == |bs|
  {
    var i := Index(e.key, |bs|);
    bs[i := [e] + bs[i]]
  }

  /** Push the nodes of `es` one after another, first to last. */
  function PushAll(bs: Buckets, es: Chain): (r: Buckets)
    requires |bs| > 0
    ensures |r| == |bs|
    decreases |es|
  {
    if es == [] then bs else PushEntry(PushAll(bs, es[..|es| - 1]), es[|es| - 1])
  }

  lemma PushAllSnoc(bs: Buckets, es: Chain, e: Node)
    requires |bs| > 0
    ensures PushAll(bs, es + [e]) == PushEntry(PushAll(bs, es), e)
  {
  }

  /** The bucket array `resizeHashTable` builds: every node, in traversal order, pushed into a fresh array of `n` buckets. */
  function Rehash(bs: Buckets, n: nat): (r: Buckets)
    requires n > 0
  {
    PushAll(EmptyBuckets(n), Flatten(bs))
  }

  /** Set the value of the first node with key `key`, leaving every node in place. */
  function Overwrite(c: Chain, key: Key, v: Int32): (r: Chain)
    ensures |r| == |c|
    ensures forall p :: 0 <= p < |c| ==> r[p].key == c[p].key
  {
    if c == [] then []
    else if c[0].key == key then [Node(key, v)] + c[1..]
    else [c[0]] + Overwrite(c[1..], key, v)
  }

  /** Unlink the first node with key `key`; the other nodes keep their order. */
  function Unlink(c: Chain, key: Key): Chain
  {
    if c == [] then []
    else if c[0].key == key then c[1..]
    else [c[0]] + Unlink(c[1..], key)
  }

  // ---------------------------------------------------------------------------
  // Chains

  lemma {:induction false} LookupMiss(c: Chain, k: Key)
    ensures Lookup(c, k) == None <==> forall p :: 0 <= p < |c| ==> c[p].key != k
    decreases |c|
  {
    if c != [] {
      LookupMiss(c[1..], k);
      if c[0].key != k {
        forall p | 0 < p < |c| ensures c[p].key == c[1..][p - 1].key { }
      }
    }
  }

  lemma {:induction false} LookupHit(c: Chain, k: Key, p: nat)
    requires p < |c| && c[p].key == k
    requires forall q :: 0 <= q < p ==> c[q].key != k
    ensures Lookup(c, k) == Some(c[p].value)
    decreases p
  {
    if p > 0 {
      LookupHit(c[1..], k, p - 1);
    }
  }

  lemma {:induction false} LookupAppend(a: Chain, b: Chain, k: Key)
    ensures Lookup(a + b, k) == if Lookup(a, k).Some? then Lookup(a, k) else Lookup(b, k)
    decreases |a|
  {
    if a != [] {
      assert (a + b)[1..] == a[1..] + b;
      LookupAppend(a[1..], b, k);
    } else {
      assert a + b == b;
    }
  }

  lemma {:induction false} OverwriteAt(c: Chain, k: Key, v: Int32, p: nat)
    requires p < |c| && c[p].key == k
    requires forall q :: 0 <= q < p ==> c[q].key != k
    ensures Overwrite(c, k, v) == c[p := Node(k, v)]
    decreases p
  {
    if p > 0 {
      OverwriteAt(c[1..], k, v, p - 1);
      assert c[p := Node(k, v)] == [c[0]] + c[1..][p - 1 := Node(k, v)];
    }
  }

  lemma {:induction false} UnlinkAt(c: Chain, k: Key, p: nat)
    requires p < |c| && c[p].key == k
    requires forall q :: 0 <= q < p ==> c[q].key != k
    ensures Unlink(c, k) == c[..p] + c[p + 1..]
    decreases p
  {
    if p > 0 {
      UnlinkAt(c[1..], k, p - 1);
      assert c[..p] == [c[0]] + c[1..][..p - 1];
      assert c[p + 1..] == c[1..][p..];
    }
  }

  /** Removing a key that is absent from a chain leaves the chain as it was. */
  lemma {:induction false} UnlinkAbsent(c: Chain, k: Key)
    requires Lookup(c, k) == None
    ensures Unlink(c, k) == c
    decreases |c|
  {
    if c != [] {
      UnlinkAbsent(c[1..], k);
    }
  }

  /** In a chain without repeated keys, Lookup finds a node wherever it is. */
  lemma LookupDistinct(c: Chain, p: nat)
    requires DistinctKeys(c) && p < |c|
    ensures Lookup(c, c[p].key) == Some(c[p].value)
  {
    LookupHit(c, c[p].key, p);
  }

  // ---------------------------------------------------------------------------
  // Flattening

  lemma {:induction false} FlattenUpdateLength(bs: Buckets, i: nat, c: Chain)
    requires i < |bs|
    ensures |Flatten(bs[i := c])| == |Flatten(bs)| - |bs[i]| + |c|
    decreases |bs|
  {
    var n := |bs|;
    if i == n - 1 {
      assert bs[i := c][..n - 1] == bs[..n - 1];
    } else {
      assert bs[i := c][..n - 1] == bs[..n - 1][i := c];
      FlattenUpdateLength(bs[..n - 1], i, c);
    }
  }

  lemma {:induction false} FlattenEmpty(n: nat)
    ensures Flatten(EmptyBuckets(n)) == []
    decreases n
  {
    if n > 0 {
      assert EmptyBuckets(n)[..n - 1] == EmptyBuckets(n - 1);
      FlattenEmpty(n - 1);
    }
  }

  lemma FlattenStep(bs: Buckets, i: nat)
    requires i < |bs|
    ensures Flatten(bs[..i + 1]) == Flatten(bs[..i]) + bs[i]
  {
    assert bs[..i + 1][..i] == bs[..i];
  }

  /** A node among the first `i` buckets of a placed table hashes below `i`. */
  lemma {:induction false} FlattenPlacedBelow(bs: Buckets, i: nat)
    requires |bs| > 0 && Placed(bs) && i <= |bs|
    ensures forall p :: 0 <= p < |Flatten(bs[..i])| ==> Index(Flatten(bs[..i])[p].key, |bs|) < i
    decreases i
  {
    if i > 0 {
      FlattenStep(bs, i - 1);
      FlattenPlacedBelow(bs, i - 1);
      var a := Flatten(bs[..i - 1]);
      forall p | |a| <= p < |Flatten(bs[..i])|
        ensures Index(Flatten(bs[..i])[p].key, |bs|) == i - 1
      {
        assert Flatten(bs[..i])[p] == bs[i - 1][p - |a|];
      }
    }
  }

  lemma {:induction false} FlattenPrefixLookup(bs: Buckets, i: nat, k: Key)
    requires |bs| > 0 && Placed(bs) && i <= |bs|
    ensures Lookup(Flatten(bs[..i]), k) == if Index(k, |bs|) < i then Lookup(bs[Index(k, |bs|)], k) else None
    decreases i
  {
    if i == 0 {
      assert bs[..0] == [];
    } else {
      FlattenStep(bs, i - 1);
      FlattenPrefixLookup(bs, i - 1, k);
      LookupAppend(Flatten(bs[..i - 1]), bs[i - 1], k);
      if Index(k, |bs|) != i - 1 {
        LookupMiss(bs[i - 1], k);
      }
    }
  }

  /** In a placed table, scanning all nodes in traversal order finds what the key's own bucket holds. */
  lemma FlattenLookup(bs: Buckets, k: Key)
    requires |bs| > 0 && Placed(bs)
    ensures Lookup(Flatten(bs), k) == Lookup(bs[Index(k, |bs|)], k)
  {
    FlattenPrefixLookup(bs, |bs|, k);
    assert bs[..|bs|] == bs;
  }

  lemma {:induction false} FlattenPrefixDistinct(bs: Buckets, i: nat)
    requires |bs| > 0 && Placed(bs) && ChainsDistinct(bs) && i <= |bs|
    ensures DistinctKeys(Flatten(bs[..i]))
    decreases i
  {
    if i > 0 {
      FlattenStep(bs, i - 1);
      FlattenPrefixDistinct(bs, i - 1);
      FlattenPlacedBelow(bs, i - 1);
      var a, b := Flatten(bs[..i - 1]), bs[i - 1];
      var f := Flatten(bs[..i]);
      forall p, q | 0 <= p < q < |f| ensures f[p].key != f[q].key {
        if q >= |a| && p < |a| {
          assert f[p] == a[p] && f[q] == b[q - |a|];
          assert Index(f[q].key, |bs|) == i - 1;
        } else if p >= |a| {
          assert f[p] == b[p - |a|] && f[q] == b[q - |a|];
        }
      }
    }
  }

  /** Keys are unique across the whole table, not only within each chain. */
  lemma FlattenDistinct(bs: Buckets)
    requires |bs| > 0 && Placed(bs) && ChainsDistinct(bs)
    ensures DistinctKeys(Flatten(bs))
  {
    FlattenPrefixDistinct(bs, |bs|);
    assert bs[..|bs|] == bs;
  }

  lemma {:induction false} FlattenPrefixOrdered(bs: Buckets, i: nat)
    requires |bs| > 0 && Placed(bs) && i <= |bs|
    ensures forall p, q :: 0 <= p < q < |Flatten(bs[..i])| ==>
      Index(Flatten(bs[..i])[p].key, |bs|) <= Index(Flatten(bs[..i])[q].key, |bs|)
    decreases i
  {
    if i > 0 {
      FlattenStep(bs, i - 1);
      FlattenPrefixOrdered(bs, i - 1);
      FlattenPlacedBelow(bs, i - 1);
      var a, b := Flatten(bs[..i - 1]), bs[i - 1];
      var f := Flatten(bs[..i]);
      forall p, q | 0 <= p < q < |f| ensures Index(f[p].key, |bs|) <= Index(f[q].key, |bs|) {
        if q >= |a| {
          assert f[q] == b[q - |a|];
          if p < |a| {
            assert f[p] == a[p];
          } else {
            assert f[p] == b[p - |a|];
          }
        } else {
          assert f[p] == a[p] && f[q] == a[q];
        }
      }
    }
  }

  lemma {:induction false} FlattenPrefixIsPrefix(bs: Buckets, i: nat)
    requires i <= |bs|
    ensures |Flatten(bs[..i])| <= |Flatten(bs)|
    ensures Flatten(bs)[..|Flatten(bs[..i])|] == Flatten(bs[..i])
    decreases |bs| - i
  {
    if i < |bs| {
      FlattenStep(bs, i);
      FlattenPrefixIsPrefix(bs, i + 1);
    } else {
      assert bs[..i] == bs;
    }
  }

  /**
    Traversal order: bucket `i`'s chain appears, head to tail and contiguous,
    right after the nodes of buckets 0 to i - 1.
   */
  lemma FlattenSegment(bs: Buckets, i: nat)
    requires i < |bs|
    ensures |Flatten(bs[..i])| + |bs[i]| <= |Flatten(bs)|
    ensures Flatten(bs)[|Flatten(bs[..i])|..|Flatten(bs[..i])| + |bs[i]|] == bs[i]
  {
    FlattenStep(bs, i);
    FlattenPrefixIsPrefix(bs, i + 1);
    var a := Flatten(bs[..i]);
    var f := Flatten(bs);
    assert f[..|a| + |bs[i]|] == a + bs[i];
    assert f[|a|..|a| + |bs[i]|] == (a + bs[i])[|a|..];
  }

  /**
    What a traversal of a table with contents `m` visits: `count` nodes, every
    key of `m` exactly once with its value and nothing else, in ascending bucket order.
   */
  lemma Traversal(bs: Buckets, m: map<Key, Int32>, count: int)
    requires Inv(bs, m, count)
    ensures |Flatten(bs)| == count
    ensures DistinctKeys(Flatten(bs))
    ensures forall p :: 0 <= p < |Flatten(bs)| ==> MapGet(m, Flatten(bs)[p].key) == Some(Flatten(bs)[p].value)
    ensures forall k :: k in m ==> exists p :: 0 <= p < |Flatten(bs)| && Flatten(bs)[p].key == k
    ensures forall p, q :: 0 <= p < q < |Flatten(bs)| ==>
      Index(Flatten(bs)[p].key, |bs|) <= Index(Flatten(bs)[q].key, |bs|)
  {
    var f := Flatten(bs);
    FlattenDistinct(bs);
    forall p | 0 <= p < |f| ensures MapGet(m, f[p].key) == Some(f[p].value) {
      LookupDistinct(f, p);
      FlattenLookup(bs, f[p].key);
    }
    forall k | k in m ensures exists p :: 0 <= p < |f| && f[p].key == k {
      FlattenLookup(bs, k);
      assert MapGet(m, k) == Some(m[k]);
      LookupMiss(f, k);
    }
    FlattenPrefixOrdered(bs, |bs|);
    assert bs[..|bs|] == bs;
  }

  // ---------------------------------------------------------------------------
  // Insertion, update, removal and rehashing refine the map operations

  /** Pushing a node whose key is absent from its bucket keeps placement and uniqueness and adds exactly that binding. */
  lemma PushFresh(bs: Buckets, e: Node)
    requires |bs| > 0 && Placed(bs) && ChainsDistinct(bs)
    requires Lookup(bs[Index(e.key, |bs|)], e.key) == None
    ensures Placed(PushEntry(bs, e)) && ChainsDistinct(PushEntry(bs, e))
    ensures |Flatten(PushEntry(bs, e))| == |Flatten(bs)| + 1
    ensures forall k :: Lookup(PushEntry(bs, e)[Index(k, |bs|)], k) ==
                        if k == e.key then Some(e.value) else Lookup(bs[Index(k, |bs|)], k)
  {
    var i := Index(e.key, |bs|);
    var c := [e] + bs[i];
    var r: Buckets := PushEntry(bs, e);
    assert r == bs[i := c];
    LookupMiss(bs[i], e.key);
    forall p, q | 0 <= p < q < |c| ensures c[p].key != c[q].key {
      if p == 0 {
        assert c[q] == bs[i][q - 1];
      } else {
        assert c[p] == bs[i][p - 1] && c[q] == bs[i][q - 1];
      }
    }
    forall j: int, p: int | 0 <= j < |r| && 0 <= p < |r[j]| ensures Index(r[j][p].key, |r|) == j {
      if j == i && p > 0 {
        assert r[j][p] == bs[i][p - 1];
      }
    }
    FlattenUpdateLength(bs, i, c);
    forall k ensures Lookup(r[Index(k, |bs|)], k) == if k == e.key then Some(e.value) else Lookup(bs[Index(k, |bs|)], k) {
      if Index(k, |bs|) == i {
        assert c[1..] == bs[i];
      }
    }
  }

  /** A new key linked at the head of its chain: the map gains that key and `count` grows by one. */
  lemma PushNewRefines(bs: Buckets, m: map<Key, Int32>, count: int, e: Node)
    requires Inv(bs, m, count) && e.key !in m
    ensures Inv(PushEntry(bs, e), m[e.key := e.value], count + 1)
  {
    assert Lookup(bs[Index(e.key, |bs|)], e.key) == MapGet(m, e.key);
    PushFresh(bs, e);
    var r, m' := PushEntry(bs, e), m[e.key := e.value];
    forall k ensures Lookup(r[Index(k, |r|)], k) == MapGet(m', k) {
      assert Lookup(bs[Index(k, |bs|)], k) == MapGet(m, k);
    }
  }

  /** Overwriting changes the value found for `key`, if it is present, and no other lookup. */
  lemma {:induction false} OverwriteLookup(c: Chain, key: Key, v: Int32, k: Key)
    ensures Lookup(Overwrite(c, key, v), k) ==
            if k == key && Lookup(c, key).Some? then Some(v) else Lookup(c, k)
    decreases |c|
  {
    if c != [] {
      if c[0].key == key {
        assert ([Node(key, v)] + c[1..])[1..] == c[1..];
      } else {
        assert ([c[0]] + Overwrite(c[1..], key, v))[1..] == Overwrite(c[1..], key, v);
        OverwriteLookup(c[1..], key, v, k);
      }
    }
  }

  /** Unlinking `key` from a chain without repeated keys makes it absent and leaves every other lookup as it was. */
  lemma {:induction false} UnlinkLookup(c: Chain, key: Key, k: Key)
    requires DistinctKeys(c)
    ensures Lookup(Unlink(c, key), k) == if k == key then None else Lookup(c, k)
    decreases |c|
  {
    if c != [] {
      assert DistinctKeys(c[1..]) by {
        forall p, q | 0 <= p < q < |c[1..]| ensures c[1..][p].key != c[1..][q].key {
          assert c[1..][p] == c[p + 1] && c[1..][q] == c[q + 1];
        }
      }
      if c[0].key == key {
        if k == key {
          LookupMiss(c[1..], k);
          forall p | 0 <= p < |c[1..]| ensures c[1..][p].key != k {
            assert c[1..][p] == c[p + 1];
          }
        }
      } else {
        assert ([c[0]] + Unlink(c[1..], key))[1..] == Unlink(c[1..], key);
        UnlinkLookup(c[1..], key, k);
      }
    }
  }

  lemma {:induction false} UnlinkShape(c: Chain, key: Key)
    requires DistinctKeys(c)
    ensures DistinctKeys(Unlink(c, key))
    ensures forall x :: x in Unlink(c, key) ==> x in c
    ensures |Unlink(c, key)| == if Lookup(c, key).Some? then |c| - 1 else |c|
    decreases |c|
  {
    if c != [] {
      assert DistinctKeys(c[1..]) by {
        forall p, q | 0 <= p < q < |c[1..]| ensures c[1..][p].key != c[1..][q].key {
          assert c[1..][p] == c[p + 1] && c[1..][q] == c[q + 1];
        }
      }
      if c[0].key != key {
        UnlinkShape(c[1..], key);
        var u := Unlink(c[1..], key);
        var r := [c[0]] + u;
        forall p, q | 0 <= p < q < |r| ensures r[p].key != r[q].key {
          if p == 0 {
            assert r[q] == u[q - 1] && r[q] in c[1..];
          } else {
            assert r[p] == u[p - 1] && r[q] == u[q - 1];
          }
        }
      }
    }
  }

  /** Overwriting a present key's node in place: the map binds the new value, `count` is unchanged. */
  lemma OverwriteRefines(bs: Buckets, m: map<Key, Int32>, count: int, key: Key, v: Int32)
    requires Inv(bs, m, count) && key in m
    ensures Inv(bs[Index(key, |bs|) := Overwrite(bs[Index(key, |bs|)], key, v)], m[key := v], count)
  {
    var i := Index(key, |bs|);
    var c := bs[i];
    var c' := Overwrite(c, key, v);
    var r, m' := bs[i := c'], m[key := v];
    assert Lookup(c, key) == MapGet(m, key);
    FlattenUpdateLength(bs, i, c');
    assert Placed(r) by {
      forall j: int, q: int | 0 <= j < |r| && 0 <= q < |r[j]| ensures Index(r[j][q].key, |r|) == j {
        assert r[j][q].key == bs[j][q].key;
      }
    }
    assert DistinctKeys(c') by {
      forall p, q | 0 <= p < q < |c'| ensures c'[p].key != c'[q].key {
        assert c'[p].key == c[p].key && c'[q].key == c[q].key;
      }
    }
    forall k ensures Lookup(r[Index(k, |r|)], k) == MapGet(m', k) {
      assert Lookup(bs[Index(k, |bs|)], k) == MapGet(m, k);
      OverwriteLookup(c, key, v, k);
    }
  }

  /** Replacing one chain by a chain of distinct keys that all belong there keeps placement and uniqueness. */
  lemma ReplaceChain(bs: Buckets, i: nat, c: Chain)
    requires |bs| > 0 && Placed(bs) && ChainsDistinct(bs) && i < |bs|
    requires DistinctKeys(c) && forall x :: x in c ==> Index(x.key, |bs|) == i
    ensures Placed(bs[i := c]) && ChainsDistinct(bs[i := c])
  {
  }


  lemma UnlinkAbstracts(bs: Buckets, m: map<Key, Int32>, key: Key)
    requires |bs| > 0 && Abstracts(bs, m) && DistinctKeys(bs[Index(key, |bs|)])
    ensures Abstracts(bs[Index(key, |bs|) := Unlink(bs[Index(key, |bs|)], key)], m - {key})
  {
    var i := Index(key, |bs|);
    var r: Buckets := bs[i := Unlink(bs[i], key)];
    forall k ensures Lookup(r[Index(k, |r|)], k) == MapGet(m - {key}, k) {
      assert Lookup(bs[Index(k, |bs|)], k) == MapGet(m, k);
      UnlinkLookup(bs[i], key, k);
    }
  }

  /** Unlinking a present key's node: the map loses that key, `count` drops by one. */
  lemma UnlinkRefines(bs: Buckets, m: map<Key, Int32>, count: int, key: Key)
    requires Inv(bs, m, count) && key in m
    ensures Inv(bs[Index(key, |bs|) := Unlink(bs[Index(key, |bs|)], key)], m - {key}, count - 1)
  {
    var i := Index(key, |bs|);
    var c := bs[i];
    var c' := Unlink(c, key);
    assert Lookup(c, key) == MapGet(m, key);
    UnlinkShape(c, key);
    FlattenUpdateLength(bs, i, c');
    forall x | x in c' ensures Index(x.key, |bs|) == i {
      assert x in c;
    }
    ReplaceChain(bs, i, c');
    UnlinkAbstracts(bs, m, key);
  }

  lemma {:induction false} PushAllFresh(n: nat, es: Chain)
    requires n > 0 && DistinctKeys(es)
    ensures Placed(PushAll(EmptyBuckets(n), es)) && ChainsDistinct(PushAll(EmptyBuckets(n), es))
    ensures |Flatten(PushAll(EmptyBuckets(n), es))| == |es|
    ensures forall k :: Lookup(PushAll(EmptyBuckets(n), es)[Index(k, n)], k) == Lookup(es, k)
    decreases |es|
  {
    var z := EmptyBuckets(n);
    if es == [] {
      FlattenEmpty(n);
    } else {
      var init, e := es[..|es| - 1], es[|es| - 1];
      assert es == init + [e];
      var prev := PushAll(z, init);
      PushAllFresh(n, init);
      LookupMiss(init, e.key);
      PushFresh(prev, e);
      forall k ensures Lookup(PushEntry(prev, e)[Index(k, n)], k) == Lookup(es, k) {
        LookupAppend(init, [e], k);
      }
    }
  }

  /**
    Rehashing into `n` buckets keeps every binding and the node count, and
    re-establishes placement at the new size.
   */
  lemma RehashRefines(bs: Buckets, m: map<Key, Int32>, count: int, n: nat)
    requires Inv(bs, m, count) && n > 0
    ensures |Rehash(bs, n)| == n
    ensures Inv(Rehash(bs, n), m, count)
  {
    var f := Flatten(bs);
    FlattenDistinct(bs);
    PushAllFresh(n, f);
    var r := Rehash(bs, n);
    forall k ensures Lookup(r[Index(k, |r|)], k) == MapGet(m, k) {
      FlattenLookup(bs, k);
    }
  }
}

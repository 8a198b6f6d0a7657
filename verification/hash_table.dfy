/** A model of `HashTable<K, V>`: an array of buckets, each bucket a chain of key-value
    nodes (separate chaining), which is replaced by a larger array and refilled when more
    than 80% of the capacity is in use.

    Keys are compared with `==`, which in the source is reference comparison: the type
    parameter `K` stands for key references, and `hash(k)` for `k.hashCode()`. Each
    bucket's linked chain is modelled as the sequence of its nodes, head first; an empty
    (`null`) bucket is the empty sequence. */
module HashTables {
  import opened Wrappers

  /** The capacity of a new table. */
  const InitialCapacity := 16

  /** A key-value pair; its `next` link is its position in the bucket's sequence. */
  datatype Node<K, V> = Node(key: K, value: V)

  // ---------------------------------------------------------------------------
  // Bucket index

  function Abs(x: int): int {
    if x < 0 then -x else x
  }

  /** Java's `%` on `int`: it truncates toward zero, so the remainder has the sign of the
      dividend `a` and the magnitude of `|a|` modulo `b`. */
  function JavaRem(a: int, b: int): (r: int)
    requires b > 0
    ensures -b < r < b
    ensures a >= 0 ==> r >= 0
    ensures a < 0 ==> r <= 0
    ensures Abs(r) == Abs(a) % b
  {
    if a >= 0 then a % b else -((-a) % b)
  }

  /** `Math.abs(key.hashCode() % capacity)`: the bucket of a key whose hash code is `h`. */
  function BucketIndex(h: int, capacity: int): (i: int)
    requires capacity > 0
    ensures 0 <= i < capacity
    ensures i == Abs(h) % capacity
  {
    Abs(JavaRem(h, capacity))
  }

  // ---------------------------------------------------------------------------
  // Chains

  /** The value of the first node of `chain` with key `k`, if there is one. */
  function Find<K(==), V>(chain: seq<Node<K, V>>, k: K): Option<V> {
    if chain == [] then None
    else if chain[0].key == k then Some(chain[0].value)
    else Find(chain[1..], k)
  }

  /** No two nodes of `chain` have the same key. */
  ghost predicate NoDupKeys<K, V>(chain: seq<Node<K, V>>) {
    forall i, j :: 0 <= i < j < |chain| ==> chain[i].key != chain[j].key
  }

  /** What `put` leaves in a bucket: the first node with key `k` gets value `v`; when no
      node has key `k`, a new node is linked after the last one. */
  function ChainPut<K(==), V>(chain: seq<Node<K, V>>, k: K, v: V): (r: seq<Node<K, V>>)
    ensures |r| == |chain| + (if Find(chain, k).None? then 1 else 0)
  {
    if chain == [] then [Node(k, v)]
    else if chain[0].key == k then [Node(k, v)] + chain[1..]
    else [chain[0]] + ChainPut(chain[1..], k, v)
  }

  /** After a put, looking up `k` finds the new value, and every other key finds what it
      found before. */
  lemma {:induction false} ChainPutFind<K, V>(chain: seq<Node<K, V>>, k: K, v: V, k2: K)
    ensures Find(ChainPut(chain, k, v), k2) == if k2 == k then Some(v) else Find(chain, k2)
  {
    if chain != [] && chain[0].key != k {
      ChainPutFind(chain[1..], k, v, k2);
      assert ChainPut(chain, k, v)[1..] == ChainPut(chain[1..], k, v);
    } else if chain != [] {
      assert ChainPut(chain, k, v)[1..] == chain[1..];
    }
  }

  /** Every node of a put chain is an old node or the new `Node(k, v)`. */
  lemma {:induction false} ChainPutNodes<K, V>(chain: seq<Node<K, V>>, k: K, v: V, n: Node<K, V>)
    requires n in ChainPut(chain, k, v)
    ensures n == Node(k, v) || n in chain
  {
    if chain != [] && chain[0].key != k && n != chain[0] {
      assert n in ChainPut(chain[1..], k, v);
      ChainPutNodes(chain[1..], k, v, n);
    }
  }

  /** Putting a key keeps the keys of a chain distinct. */
  lemma {:induction false} ChainPutNoDup<K, V>(chain: seq<Node<K, V>>, k: K, v: V)
    requires NoDupKeys(chain)
    ensures NoDupKeys(ChainPut(chain, k, v))
  {
    if chain != [] && chain[0].key != k {
      var tail := chain[1..];
      var t := ChainPut(tail, k, v);
      ChainPutNoDup(tail, k, v);
      forall j | 0 <= j < |t|
        ensures t[j].key != chain[0].key
      {
        ChainPutNodes(tail, k, v, t[j]);
      }
      assert ChainPut(chain, k, v) == [chain[0]] + t;
    }
  }

  /** When position `i` holds the first node with key `k`, a lookup finds that node's value
      and a put overwrites that node's value. */
  lemma {:induction false} FirstMatch<K, V>(chain: seq<Node<K, V>>, k: K, v: V, i: int)
    requires 0 <= i < |chain| && chain[i].key == k
    requires forall q :: 0 <= q < i ==> chain[q].key != k
    ensures Find(chain, k) == Some(chain[i].value)
    ensures ChainPut(chain, k, v) == chain[i := Node(k, v)]
  {
    if i > 0 {
      FirstMatch(chain[1..], k, v, i - 1);
      assert chain[i := Node(k, v)] == [chain[0]] + chain[1..][i - 1 := Node(k, v)];
    }
  }

  /** When no node has key `k`, a lookup finds nothing and a put appends `Node(k, v)`. */
  lemma {:induction false} NoMatch<K, V>(chain: seq<Node<K, V>>, k: K, v: V)
    requires forall q :: 0 <= q < |chain| ==> chain[q].key != k
    ensures Find(chain, k) == None
    ensures ChainPut(chain, k, v) == chain + [Node(k, v)]
  {
    if chain != [] {
      NoMatch(chain[1..], k, v);
      assert chain + [Node(k, v)] == [chain[0]] + (chain[1..] + [Node(k, v)]);
    }
  }

  /** A lookup finds nothing when no node has the key. */
  lemma {:induction false} FindAbsent<K, V>(chain: seq<Node<K, V>>, k: K)
    requires forall n :: n in chain ==> n.key != k
    ensures Find(chain, k) == None
  {
    if chain != [] {
      FindAbsent(chain[1..], k);
    }
  }

  // ---------------------------------------------------------------------------
  // The table as a whole

  /** The entry of key `k` in `buckets`, found the way `put` finds it. */
  ghost function Lookup<K, V>(hash: K -> int, buckets: seq<seq<Node<K, V>>>, k: K): Option<V>
    requires |buckets| > 0
  {
    Find(buckets[BucketIndex(hash(k), |buckets|)], k)
  }

  /** `buckets` stores exactly the map `m`: every node sits in the bucket of its key, no
      bucket holds a key twice, and looking a key up finds its value in `m`, or nothing
      when the key is not in `m`. */
  ghost predicate Represents<K(!new), V>(hash: K -> int, buckets: seq<seq<Node<K, V>>>, m: map<K, V>) {
    && |buckets| > 0
    && (forall i, n :: 0 <= i < |buckets| && n in buckets[i] ==> BucketIndex(hash(n.key), |buckets|) == i)
    && (forall i :: 0 <= i < |buckets| ==> NoDupKeys(buckets[i]))
    && (forall k :: Lookup(hash, buckets, k) == if k in m then Some(m[k]) else None)
  }

  /** A table of empty buckets stores the empty map. */
  lemma EmptyRepresents<K(!new), V>(hash: K -> int, buckets: seq<seq<Node<K, V>>>)
    requires |buckets| > 0 && forall i :: 0 <= i < |buckets| ==> buckets[i] == []
    ensures Represents(hash, buckets, map[])
  {
    forall k ensures Lookup(hash, buckets, k) == None {
      assert buckets[BucketIndex(hash(k), |buckets|)] == [];
    }
  }

  /** Putting `k` into its bucket stores the map with `k` set to `v`. */
  lemma PutRepresents<K(!new), V>(hash: K -> int, buckets: seq<seq<Node<K, V>>>, m: map<K, V>, k: K, v: V)
    requires Represents(hash, buckets, m)
    ensures var b := BucketIndex(hash(k), |buckets|);
      Represents(hash, buckets[b := ChainPut(buckets[b], k, v)], m[k := v])
  {
    var b := BucketIndex(hash(k), |buckets|);
    var after := buckets[b := ChainPut(buckets[b], k, v)];
    forall i, n: Node<K, V> | 0 <= i < |after| && n in after[i]
      ensures BucketIndex(hash(n.key), |after|) == i
    {
      if i == b {
        ChainPutNodes(buckets[b], k, v, n);
      }
    }
    ChainPutNoDup(buckets[b], k, v);
    forall k2 ensures Lookup(hash, after, k2) == if k2 in m[k := v] then Some(m[k := v][k2]) else None {
      ChainPutFind(buckets[b], k, v, k2);
      assert Lookup(hash, buckets, k2) == if k2 in m then Some(m[k2]) else None;
    }
  }

  /** The head node of a non-empty bucket is an entry of the map, and dropping it from the
      bucket stores the map without its key. */
  lemma DropHeadRepresents<K(!new), V>(hash: K -> int, buckets: seq<seq<Node<K, V>>>, m: map<K, V>, i: int)
    requires Represents(hash, buckets, m)
    requires 0 <= i < |buckets| && buckets[i] != []
    ensures buckets[i][0].key in m && m[buckets[i][0].key] == buckets[i][0].value
    ensures Represents(hash, buckets[i := buckets[i][1..]], m - {buckets[i][0].key})
  {
    var head := buckets[i][0];
    var after := buckets[i := buckets[i][1..]];
    assert BucketIndex(hash(head.key), |buckets|) == i by {
      assert head in buckets[i];
    }
    assert Lookup(hash, buckets, head.key) == Some(head.value);
    forall i', n: Node<K, V> | 0 <= i' < |after| && n in after[i']
      ensures BucketIndex(hash(n.key), |after|) == i'
    {
      assert n in buckets[i'];
    }
    assert NoDupKeys(after[i]) by {
      assert NoDupKeys(buckets[i]);
    }
    forall k ensures Lookup(hash, after, k) == if k in m - {head.key} then Some((m - {head.key})[k]) else None {
      assert Lookup(hash, buckets, k) == if k in m then Some(m[k]) else None;
      if k == head.key {
        forall n: Node<K, V> | n in after[i] ensures n.key != k {
          var j :| 0 <= j < |after[i]| && after[i][j] == n;
          assert buckets[i][j + 1] == n;
        }
        FindAbsent(after[i], k);
      }
    }
  }

  /** A table whose buckets are all empty stores nothing. */
  lemma AllEmptyRepresents<K(!new), V>(hash: K -> int, buckets: seq<seq<Node<K, V>>>, m: map<K, V>)
    requires Represents(hash, buckets, m)
    requires forall i :: 0 <= i < |buckets| ==> buckets[i] == []
    ensures m == map[]
  {
    forall k ensures k !in m {
      assert buckets[BucketIndex(hash(k), |buckets|)] == [];
    }
    assert m.Keys == {};
  }

  /** The number of nodes in all buckets together. */
  ghost function TotalNodes<K, V>(buckets: seq<seq<Node<K, V>>>): nat {
    if buckets == [] then 0 else |buckets[0]| + TotalNodes(buckets[1..])
  }

  /** Unlinking the head of a bucket removes one node. */
  lemma {:induction false} TotalNodesDropHead<K, V>(buckets: seq<seq<Node<K, V>>>, i: int)
    requires 0 <= i < |buckets| && buckets[i] != []
    ensures TotalNodes(buckets[i := buckets[i][1..]]) == TotalNodes(buckets) - 1
  {
    if i > 0 {
      TotalNodesDropHead(buckets[1..], i - 1);
      assert buckets[i := buckets[i][1..]][1..] == buckets[1..][i - 1 := buckets[i][1..]];
    } else {
      assert buckets[i := buckets[i][1..]][1..] == buckets[1..];
    }
  }

  /** Empty buckets hold no nodes. */
  lemma {:induction false} TotalNodesEmpty<K, V>(buckets: seq<seq<Node<K, V>>>)
    requires forall i :: 0 <= i < |buckets| ==> buckets[i] == []
    ensures TotalNodes(buckets) == 0
  {
    if buckets != [] {
      TotalNodesEmpty(buckets[1..]);
    }
  }

  /** A table that stores `m` holds exactly one node per entry of `m`, so a `size` equal to
      the number of entries is also the number of nodes. */
  lemma {:induction false} NodeCount<K(!new), V>(hash: K -> int, buckets: seq<seq<Node<K, V>>>, m: map<K, V>)
    requires Represents(hash, buckets, m)
    ensures TotalNodes(buckets) == |m|
    decreases TotalNodes(buckets)
  {
    if i :| 0 <= i < |buckets| && buckets[i] != [] {
      var k := buckets[i][0].key;
      DropHeadRepresents(hash, buckets, m, i);
      TotalNodesDropHead(buckets, i);
      NodeCount(hash, buckets[i := buckets[i][1..]], m - {k});
      assert m.Keys == (m - {k}).Keys + {k};
    } else {
      AllEmptyRepresents(hash, buckets, m);
      TotalNodesEmpty(buckets);
    }
  }

  /** `orig` is split between `moved` and `pending`: every entry of `orig` is in exactly
      one of them, and neither holds anything else. */
  ghost predicate Split<K(!new), V>(orig: map<K, V>, moved: map<K, V>, pending: map<K, V>) {
    && (forall k :: k in moved ==> k in orig && moved[k] == orig[k] && k !in pending)
    && (forall k :: k in pending ==> k in orig && pending[k] == orig[k])
    && (forall k :: k in orig ==> k in moved || k in pending)
  }

  /** Moving the entry of `k` from `pending` to `moved` keeps the split, and moves one entry
      from one count to the other. */
  lemma SplitMove<K(!new), V>(orig: map<K, V>, moved: map<K, V>, pending: map<K, V>, k: K)
    requires Split(orig, moved, pending) && k in pending
    ensures Split(orig, moved[k := pending[k]], pending - {k})
    ensures k !in moved && |pending - {k}| == |pending| - 1
  {
    assert pending.Keys == (pending - {k}).Keys + {k};
  }

  /** Once nothing is pending, everything has moved. */
  lemma SplitDone<K(!new), V>(orig: map<K, V>, moved: map<K, V>)
    requires Split(orig, moved, map[])
    ensures moved == orig
  {
    assert moved.Keys == orig.Keys;
  }

  /** With at most one entry past the threshold, the capacity after a resize is above the
      threshold again, so the puts that refill the table never resize it. */
  lemma ResizeRoom(size: int, capacity: int)
    requires capacity >= InitialCapacity && size * 5 <= capacity * 4 + 5
    ensures capacity * 9 / 5 > capacity
    ensures size * 5 <= (capacity * 9 / 5) * 4
  {
    var grown := capacity * 9 / 5;
    assert grown * 5 + (capacity * 9) % 5 == capacity * 9;
  }

  // ---------------------------------------------------------------------------
  // The table

  class HashTable<K(==,!new), V> {
    /** `hashCode` of the keys. */
    const hash: K -> int
    var capacity: int
    var table: array<seq<Node<K, V>>>
    var size: int
    /** The key-value pairs the table stores. */
    ghost var contents: map<K, V>

    /** The table stores `contents` in `capacity` buckets, and `size` counts its entries. */
    ghost predicate Consistent()
      reads this, table
    {
      && capacity >= InitialCapacity
      && table.Length == capacity
      && size == |contents|
      && Represents(hash, table[..], contents)
    }

    /** Consistent, and no more than 80% full (`size > capacity * THRESHOLD` fails). */
    ghost predicate Valid()
      reads this, table
    {
      Consistent() && size * 5 <= capacity * 4
    }

    /** `HashTable()`: an empty table of the initial capacity. */
    constructor (hash: K -> int)
      ensures Valid() && fresh(table)
      ensures this.hash == hash && capacity == InitialCapacity && contents == map[] && size == 0
      ensures table.Length == InitialCapacity && forall i :: 0 <= i < table.Length ==> table[i] == []
    {
      this.hash := hash;
      capacity := InitialCapacity;
      table := new seq<Node<K, V>>[InitialCapacity](_ => []);
      size := 0;
      contents := map[];
      new;
      EmptyRepresents(hash, table[..]);
    }

    /** `HashTable(Node<K, V> element)`: an empty table into which `element` is put; a
        `null` key (`None`) is refused by `put` and leaves the table empty. */
    constructor WithElement(hash: K -> int, element: Node<Option<K>, V>)
      ensures Valid() && this.hash == hash && capacity == InitialCapacity
      ensures contents == if element.key.Some? then map[element.key.value := element.value] else map[]
    {
      this.hash := hash;
      capacity := InitialCapacity;
      table := new seq<Node<K, V>>[InitialCapacity](_ => []);
      size := 0;
      contents := map[];
      new;
      EmptyRepresents(hash, table[..]);
      var _ := Put(element.key, element.value);
    }

    /** `put(key, value)`: maps `key` to `value` and returns the value it replaced. A `null`
        key changes nothing. A new key is linked at the end of its bucket; when it takes the
        table past 80% of its capacity, the table is resized. */
    method Put(key: Option<K>, value: V) returns (previous: Option<V>)
      requires Valid()
      modifies this, table
      ensures Valid()
      ensures key.None? ==>
        && previous == None && contents == old(contents) && size == old(size)
        && capacity == old(capacity) && table == old(table) && table[..] == old(table[..])
      ensures key.Some? ==> contents == old(contents)[key.value := value]
      ensures key.Some? ==> previous == if key.value in old(contents) then Some(old(contents)[key.value]) else None
      ensures key.Some? ==> size == old(size) + if key.value in old(contents) then 0 else 1
      ensures key.Some? && (key.value in old(contents) || (old(size) + 1) * 5 <= old(capacity) * 4) ==>
        && capacity == old(capacity) && table == old(table)
        && var b := BucketIndex(hash(key.value), old(capacity));
           table[..] == old(table[..])[b := ChainPut(old(table[b]), key.value, value)]
      ensures key.Some? && key.value !in old(contents) && (old(size) + 1) * 5 > old(capacity) * 4 ==>
        capacity == old(capacity) * 9 / 5 && fresh(table)
      decreases if key.Some? && key.value !in contents && (size + 1) * 5 > capacity * 4 then 5 else 0
    {
      if key.None? {
        // processNullKey only prints a warning.
        return None;
      }
      var k := key.value;
      var b := BucketIndex(hash(k), capacity);
      var newNode := Node(k, value);
      ghost var before := table[..];
      PutRepresents(hash, before, contents, k, value);
      assert Lookup(hash, before, k) == Find(before[b], k);
      var chain := table[b];
      if chain == [] {
        NoMatch(chain, k, value);
        table[b] := [newNode];
      } else {
        var current := Walk(chain, k);
        if current < |chain| {
          FirstMatch(chain, k, value, current);
          previous := Some(chain[current].value);
          table[b] := chain[current := newNode];
          contents := contents[k := value];
          assert table[..] == before[b := ChainPut(before[b], k, value)];
          return;
        }
        NoMatch(chain, k, value);
        table[b] := chain + [newNode];
      }
      assert table[..] == before[b := ChainPut(before[b], k, value)];
      size := size + 1;
      contents := contents[k := value];
      if size * 5 > capacity * 4 {
        Resize();
      }
      previous := None;
    }

    /** The walk of `put` along a non-empty chain: from the head, it stops at the first node
        whose key is `k`, or else at the last node. The result is the position of the
        matching node, or `|chain|` when there is none. */
    method Walk(chain: seq<Node<K, V>>, k: K) returns (current: int)
      requires chain != []
      ensures 0 <= current <= |chain|
      ensures forall q :: 0 <= q < current ==> chain[q].key != k
      ensures current < |chain| ==> chain[current].key == k
    {
      current := 0;
      if chain[current].key == k {
        return;
      }
      while current + 1 < |chain|
        invariant 0 <= current < |chain|
        invariant forall q :: 0 <= q <= current ==> chain[q].key != k
      {
        current := current + 1;
        if chain[current].key == k {
          return;
        }
      }
      current := |chain|;
    }

    /** `resize()`: replaces the table with an empty one of 1.8 times the capacity and puts
        every node of the old table into it, bucket by bucket and each chain from its head,
        unlinking each node from the old bucket once it is put. */
    method Resize()
      requires Consistent() && size * 5 <= capacity * 4 + 5
      modifies this, table
      ensures Valid() && contents == old(contents) && size == old(size)
      ensures old(capacity) < capacity == old(capacity) * 9 / 5 && fresh(table)
      decreases 4
    {
      // printResizeWarning only prints.
      var oldTable := table;
      ResizeRoom(size, capacity);
      capacity := capacity * 9 / 5;
      ghost var orig := contents;
      size := 0;
      contents := map[];
      table := new seq<Node<K, V>>[capacity](_ => []);
      EmptyRepresents(hash, table[..]);
      Refill(oldTable, orig);
    }

    /** The loops of `resize()`: puts every node of the old table, which stores `orig`, into
        the new, empty table, bucket by bucket. */
    method Refill(oldTable: array<seq<Node<K, V>>>, ghost orig: map<K, V>)
      requires Valid() && contents == map[] && oldTable != table
      requires Represents(hash, oldTable[..], orig) && |orig| * 5 <= capacity * 4
      modifies this, table, oldTable
      ensures Valid() && contents == orig && capacity == old(capacity) && table == old(table)
      ensures forall q :: 0 <= q < oldTable.Length ==> oldTable[q] == []
      decreases 3
    {
      ghost var pending := orig;
      var i := 0;
      while i < oldTable.Length
        invariant 0 <= i <= oldTable.Length
        invariant Valid() && capacity == old(capacity) && table == old(table)
        invariant Represents(hash, oldTable[..], pending)
        invariant forall q :: 0 <= q < i ==> oldTable[q] == []
        invariant Split(orig, contents, pending)
        invariant size + |pending| == |orig|
      {
        pending := Drain(oldTable, i, orig, pending);
        i := i + 1;
      }
      AllEmptyRepresents(hash, oldTable[..], pending);
      SplitDone(orig, contents);
    }

    /** The inner loop of `resize()`: puts the nodes of bucket `i` of the old table into the
        new table, head first, unlinking each from the old bucket once it is put. `pending`
        holds the entries still in the old table, and the result those left afterwards. */
    method Drain(oldTable: array<seq<Node<K, V>>>, i: int, ghost orig: map<K, V>, ghost pending: map<K, V>)
        returns (ghost left: map<K, V>)
      requires Valid() && oldTable != table && 0 <= i < oldTable.Length
      requires Represents(hash, oldTable[..], pending) && Split(orig, contents, pending)
      requires (size + |pending|) * 5 <= capacity * 4
      modifies this, table, oldTable
      ensures Valid() && capacity == old(capacity) && table == old(table)
      ensures oldTable[i] == [] && forall q :: 0 <= q < oldTable.Length && q != i ==> oldTable[q] == old(oldTable[q])
      ensures Represents(hash, oldTable[..], left) && Split(orig, contents, left)
      ensures size + |left| == old(size) + |pending|
      decreases 2
    {
      left := pending;
      while oldTable[i] != []
        invariant Valid() && capacity == old(capacity) && table == old(table)
        invariant forall q :: 0 <= q < oldTable.Length && q != i ==> oldTable[q] == old(oldTable[q])
        invariant Represents(hash, oldTable[..], left) && Split(orig, contents, left)
        invariant size + |left| == old(size) + |pending|
        decreases |oldTable[i]|
      {
        left := MoveHead(oldTable, i, orig, left);
      }
    }

    /** One step of `resize()`: puts the head node of bucket `i` of the old table into the
        new table and unlinks it from the old bucket. `pending` holds the entries still in
        the old table, and the result holds those left after the step. */
    method MoveHead(oldTable: array<seq<Node<K, V>>>, i: int, ghost orig: map<K, V>, ghost pending: map<K, V>)
        returns (ghost left: map<K, V>)
      requires Valid() && oldTable != table && 0 <= i < oldTable.Length && oldTable[i] != []
      requires Represents(hash, oldTable[..], pending) && Split(orig, contents, pending)
      requires (size + |pending|) * 5 <= capacity * 4
      modifies this, table, oldTable
      ensures Valid() && capacity == old(capacity) && table == old(table)
      ensures oldTable[..] == old(oldTable[..])[i := old(oldTable[i])[1..]]
      ensures Represents(hash, oldTable[..], left) && Split(orig, contents, left)
      ensures size + |left| == old(size) + |pending|
      decreases 1
    {
      var currentNode := oldTable[i][0];
      ghost var rest := oldTable[..][i := oldTable[i][1..]];
      DropHeadRepresents(hash, oldTable[..], pending, i);
      SplitMove(orig, contents, pending, currentNode.key);
      assert currentNode.key !in contents && (size + 1) * 5 <= capacity * 4;
      var _ := Put(Some(currentNode.key), currentNode.value);
      oldTable[i] := oldTable[i][1..];
      assert oldTable[..] == rest;
      left := pending - {currentNode.key};
    }
  }
}

/** The LRU cache: a recency queue of (key, value) entries, most recently used first,
    together with a chained hash table of 1009 buckets in which every queued key is
    listed in the bucket `key % 1009`.

    The C queue is a doubly linked list with front and rear pointers; here it is the
    sequence of its entries read from the front. A hash-table entry holds a key and a
    pointer to the queue node of that key; with the keys of the queue distinct, the
    pointer is determined by the key, so a bucket is the sequence of the keys it chains,
    read from its head. */
module LruCache {
  import opened CType

  const HASH_TABLE_SIZE: nat := 1009
  const MAX_STRING_LENGTH: nat := 200
  const MAX_CAPACITY: nat := 1000

  datatype Entry = Entry(key: nat, value: string)

  /** `LRUCache`: `cacheCapacity`, `currentCacheSize`, the queue and the buckets. */
  datatype Cache = Cache(capacity: int, size: int, queue: seq<Entry>, table: seq<seq<nat>>)

  // ---------------------------------------------------------------------------
  // Input check and hashing

  /** `isValidIntegerString`: scans the string up to its end and gives up at the first
      character that is not a decimal digit; the empty string is refused. */
  method IsValidIntegerString(s: string) returns (ok: bool)
    ensures ok <==> s != [] && AllDigits(s)
  {
    if |s| == 0 {
      return false;
    }
    var i := 0;
    while i < |s|
      invariant 0 <= i <= |s|
      invariant forall k :: 0 <= k < i ==> IsDigit(s[k])
    {
      if !IsDigit(s[i]) {
        return false;
      }
      i := i + 1;
    }
    return true;
  }

  /** `calculateHashIndex(key)`: C's `key % HASH_TABLE_SIZE`, whose quotient is truncated
      toward zero, so the remainder takes the sign of the key; for the non-negative keys
      the shell produces it is a bucket index. */
  function HashIndex(key: int): (b: int)
    ensures key >= 0 ==> 0 <= b < HASH_TABLE_SIZE
    ensures key < 0 ==> -(HASH_TABLE_SIZE as int) < b <= 0
  {
    if key >= 0 then key % 1009 else -((-key) % 1009)
  }

  /** Keys of the table size apart share a bucket; the first HASH_TABLE_SIZE keys each
      have their own. */
  lemma HashIndexSpread(key: nat)
    ensures HashIndex(key + HASH_TABLE_SIZE) == HashIndex(key)
    ensures key < HASH_TABLE_SIZE ==> HashIndex(key) == key
  {
  }

  /** `strncpy(value, source, MAX_STRING_LENGTH)` followed by
      `value[MAX_STRING_LENGTH - 1] = '\0'`: the stored copy is the whole value when it
      fits and exactly its first MAX_STRING_LENGTH - 1 characters otherwise. */
  function Truncate(s: string): (t: string)
    ensures |t| <= MAX_STRING_LENGTH - 1 && |t| <= |s|
    ensures t == s[..|t|]
    ensures |s| <= MAX_STRING_LENGTH - 1 ==> t == s
    ensures |s| >= MAX_STRING_LENGTH ==> t == s[..MAX_STRING_LENGTH - 1]
  {
    BoundedCopy(s, MAX_STRING_LENGTH)
  }

  // ---------------------------------------------------------------------------
  // The invariant

  function Keys(q: seq<Entry>): (ks: seq<nat>)
    ensures |ks| == |q| && forall i :: 0 <= i < |q| ==> ks[i] == q[i].key
  {
    seq(|q|, i requires 0 <= i < |q| => q[i].key)
  }

  predicate KeysDistinct(q: seq<Entry>) {
    forall i, j :: 0 <= i < j < |q| ==> q[i].key != q[j].key
  }

  /** Every key chained in the table, with multiplicity. */
  ghost function TableKeys(t: seq<seq<nat>>): multiset<nat> {
    if |t| == 0 then multiset{} else TableKeys(t[..|t| - 1]) + multiset(t[|t| - 1])
  }

  /** HASH_TABLE_SIZE buckets, each key chained in the bucket it hashes to. */
  ghost predicate BucketsPlaced(t: seq<seq<nat>>) {
    |t| == HASH_TABLE_SIZE &&
    forall b, j :: 0 <= b < |t| && 0 <= j < |t[b]| ==> HashIndex(t[b][j]) == b
  }

  /** The cache invariant: a capacity from 1 to 1000, no more entries than that and as
      many as `currentCacheSize` says, distinct keys, stored values that fit the value
      buffer, and a table that chains exactly the queued keys, each in its bucket. */
  ghost predicate Valid(c: Cache) {
    && 1 <= c.capacity <= MAX_CAPACITY
    && c.size == |c.queue| <= c.capacity
    && KeysDistinct(c.queue)
    && (forall e :: e in c.queue ==> |e.value| < MAX_STRING_LENGTH)
    && BucketsPlaced(c.table)
    && TableKeys(c.table) == multiset(Keys(c.queue))
  }

  /** The value the cache holds for a key, without touching recency. */
  function Held(q: seq<Entry>, key: nat): (r: Option<string>)
    ensures r.None? <==> forall i :: 0 <= i < |q| ==> q[i].key != key
    ensures r.Some? ==> Entry(key, r.value) in q
  {
    if q == [] then None
    else if q[0].key == key then Some(q[0].value)
    else Held(q[1..], key)
  }
  // ---------------------------------------------------------------------------
  // Table bookkeeping

  lemma {:induction false} TableKeysUpdate(t: seq<seq<nat>>, b: nat, x: seq<nat>)
    requires b < |t|
    ensures TableKeys(t[b := x]) + multiset(t[b]) == TableKeys(t) + multiset(x)
    decreases |t|
  {
    var n := |t|;
    var u := t[b := x];
    if b == n - 1 {
      assert u[..n - 1] == t[..n - 1];
    } else {
      assert u[..n - 1] == t[..n - 1][b := x];
      TableKeysUpdate(t[..n - 1], b, x);
      assert t[..n - 1][b] == t[b];
      MultisetShuffle(TableKeys(t[..n - 1][b := x]), multiset(t[n - 1]), multiset(t[b]), TableKeys(t[..n - 1]), multiset(x));
    }
  }

  /** Replacing a chain by one with an extra key adds the key to the table's keys, and
      replacing it by one with a key fewer removes it. */
  lemma MultisetReplace(total: multiset<nat>, total': multiset<nat>, before: multiset<nat>, after: multiset<nat>, key: nat, grows: bool)
    requires total' + before == total + after
    requires grows ==> after == before + multiset{key}
    requires !grows ==> key in before && after == before - multiset{key}
    ensures grows ==> total' == total + multiset{key}
    ensures !grows ==> total' == total - multiset{key}
  {
    forall y
      ensures total'[y] == (if grows then (total + multiset{key})[y] else (total - multiset{key})[y])
    {
      assert (total' + before)[y] == (total + after)[y];
    }
  }

  lemma {:induction false} TableKeysHas(t: seq<seq<nat>>, b: nat, k: nat)
    requires b < |t| && k in t[b]
    ensures k in TableKeys(t)
    decreases |t|
  {
    var n := |t|;
    if b < n - 1 {
      assert t[..n - 1][b] == t[b];
      TableKeysHas(t[..n - 1], b, k);
    }
  }

  lemma {:induction false} TableKeysFrom(t: seq<seq<nat>>, k: nat) returns (b: nat)
    requires k in TableKeys(t)
    ensures b < |t| && k in t[b]
    decreases |t|
  {
    var n := |t|;
    if k in multiset(t[n - 1]) {
      b := n - 1;
    } else {
      b := TableKeysFrom(t[..n - 1], k);
      assert t[..n - 1][b] == t[b];
    }
  }

  /** In a valid cache a key is queued exactly when it is chained in its bucket. */
  lemma QueuedIffChained(c: Cache, key: nat)
    requires Valid(c)
    ensures key in Keys(c.queue) <==> key in c.table[HashIndex(key)]
  {
    if key in c.table[HashIndex(key)] {
      TableKeysHas(c.table, HashIndex(key), key);
      assert key in multiset(Keys(c.queue));
    }
    if key in Keys(c.queue) {
      assert key in TableKeys(c.table);
      var b := TableKeysFrom(c.table, key);
      var j :| 0 <= j < |c.table[b]| && c.table[b][j] == key;
      assert HashIndex(c.table[b][j]) == b;
    }
  }

  /** The table holds as many entries as the queue: `currentCacheSize` counts both. */
  lemma SizeCountsBoth(c: Cache)
    requires Valid(c)
    ensures |TableKeys(c.table)| == |c.queue| == c.size
  {
  }

  /** `insertNodeInHashTable`: a new entry at the head of the key's bucket. */
  function TableInsert(t: seq<seq<nat>>, key: nat): (r: seq<seq<nat>>)
    requires BucketsPlaced(t)
    ensures BucketsPlaced(r)
    ensures r[HashIndex(key)] == [key] + t[HashIndex(key)]
    ensures forall b :: 0 <= b < |t| && b != HashIndex(key) ==> r[b] == t[b]
    ensures TableKeys(r) == TableKeys(t) + multiset{key}
  {
    var b := HashIndex(key);
    TableInsertKeys(t, b, key);
    TableInsertPlaced(t, key);
    t[b := [key] + t[b]]
  }

  lemma TableInsertKeys(t: seq<seq<nat>>, b: nat, key: nat)
    requires b < |t|
    ensures TableKeys(t[b := [key] + t[b]]) == TableKeys(t) + multiset{key}
  {
    TableKeysUpdate(t, b, [key] + t[b]);
    assert multiset([key] + t[b]) == multiset(t[b]) + multiset{key};
    MultisetReplace(TableKeys(t), TableKeys(t[b := [key] + t[b]]), multiset(t[b]), multiset([key] + t[b]), key, true);
  }

  lemma TableInsertPlaced(t: seq<seq<nat>>, key: nat)
    requires BucketsPlaced(t)
    ensures BucketsPlaced(t[HashIndex(key) := [key] + t[HashIndex(key)]])
  {
    var b := HashIndex(key);
    var r := t[b := [key] + t[b]];
    forall c, j | 0 <= c < |r| && 0 <= j < |r[c]|
      ensures HashIndex(r[c][j]) == c
    {
      if c == b && j > 0 {
        assert r[c][j] == t[b][j - 1];
      }
    }
  }

  /** The unlinking loop of `deleteNodeFromHashTable` on one chain (a bucket read from
      its head): the first entry with the key goes; a chain without the key is kept. */
  function ChainDelete(chain: seq<nat>, key: nat): (r: seq<nat>)
    ensures key !in chain ==> r == chain
  {
    if chain == [] then []
    else if chain[0] == key then chain[1..]
    else
      assert chain == [chain[0]] + chain[1..];
      [chain[0]] + ChainDelete(chain[1..], key)
  }

  /** The chain loses one occurrence of the key and nothing else. */
  lemma {:induction false} ChainDeleteCount(chain: seq<nat>, key: nat)
    ensures multiset(ChainDelete(chain, key)) == multiset(chain) - multiset{key}
  {
    if chain != [] {
      assert chain == [chain[0]] + chain[1..];
      if chain[0] != key {
        ChainDeleteCount(chain[1..], key);
      }
    }
  }

  /** Only the first entry with the key is unlinked; every other entry stays where it was
      relative to the others. */
  lemma {:induction false} ChainDeleteFirst(chain: seq<nat>, key: nat, i: nat)
    requires i < |chain| && chain[i] == key
    requires forall j :: 0 <= j < i ==> chain[j] != key
    ensures ChainDelete(chain, key) == chain[..i] + chain[i + 1..]
  {
    if i > 0 {
      var tail := chain[1..];
      assert forall j :: 0 <= j < i - 1 ==> tail[j] != key by {
        forall j | 0 <= j < i - 1
          ensures tail[j] != key
        {
          assert tail[j] == chain[j + 1];
        }
      }
      ChainDeleteFirst(tail, key, i - 1);
      assert chain == [chain[0]] + tail;
      ConsSplit(chain[0], tail, i - 1);
    }
  }

  lemma ConsSplit(x: nat, t: seq<nat>, k: nat)
    requires k < |t|
    ensures ([x] + t)[..k + 1] + ([x] + t)[k + 2..] == [x] + (t[..k] + t[k + 1..])
  {
    assert ([x] + t)[..k + 1] == [x] + t[..k];
    assert ([x] + t)[k + 2..] == t[k + 1..];
  }

  /** `deleteNodeFromHashTable`: only the key's bucket changes, losing the first entry
      with the key; a key its bucket does not chain changes nothing. */
  function TableDelete(t: seq<seq<nat>>, key: nat): (r: seq<seq<nat>>)
    requires BucketsPlaced(t)
    ensures BucketsPlaced(r)
    ensures r[HashIndex(key)] == ChainDelete(t[HashIndex(key)], key)
    ensures forall b :: 0 <= b < |t| && b != HashIndex(key) ==> r[b] == t[b]
    ensures key in t[HashIndex(key)] ==> TableKeys(r) == TableKeys(t) - multiset{key}
    ensures key !in t[HashIndex(key)] ==> r == t
  {
    var b := HashIndex(key);
    var x := ChainDelete(t[b], key);
    TableDeletePlaced(t, key);
    if key in t[b] then
      TableDeleteKeys(t, b, key);
      t[b := x]
    else
      assert t[b := x] == t;
      t[b := x]
  }

  lemma TableDeleteKeys(t: seq<seq<nat>>, b: nat, key: nat)
    requires b < |t| && key in t[b]
    ensures TableKeys(t[b := ChainDelete(t[b], key)]) == TableKeys(t) - multiset{key}
  {
    var x := ChainDelete(t[b], key);
    ChainDeleteCount(t[b], key);
    TableKeysUpdate(t, b, x);
    MultisetReplace(TableKeys(t), TableKeys(t[b := x]), multiset(t[b]), multiset(x), key, false);
  }

  lemma TableDeletePlaced(t: seq<seq<nat>>, key: nat)
    requires BucketsPlaced(t)
    ensures BucketsPlaced(t[HashIndex(key) := ChainDelete(t[HashIndex(key)], key)])
  {
    var b := HashIndex(key);
    var x := ChainDelete(t[b], key);
    var r := t[b := x];
    forall c, j | 0 <= c < |r| && 0 <= j < |r[c]|
      ensures HashIndex(r[c][j]) == c
    {
      if c == b {
        ChainDeleteCount(t[b], key);
        assert r[c][j] in multiset(x);
        assert r[c][j] in t[b];
        var m :| 0 <= m < |t[b]| && t[b][m] == r[c][j];
      }
    }
  }

  // ---------------------------------------------------------------------------
  // Queue operations

  /** `moveQueueNodeToFront`: the entry at position i comes first and the others keep
      their relative order (nothing moves when it is already the front). */
  function MoveToFront(q: seq<Entry>, i: nat): (r: seq<Entry>)
    requires i < |q|
    ensures |r| == |q| && r[0] == q[i]
    ensures r[1..] == q[..i] + q[i + 1..]
    ensures multiset(r) == multiset(q)
    ensures multiset(Keys(r)) == multiset(Keys(q))
    ensures KeysDistinct(q) ==> KeysDistinct(r)
  {
    MoveToFrontFacts(q, i);
    MoveToFrontKeys(q, i);
    [q[i]] + (q[..i] + q[i + 1..])
  }

  lemma MoveToFrontFacts(q: seq<Entry>, i: nat)
    requires i < |q|
    ensures var r := [q[i]] + (q[..i] + q[i + 1..]);
      multiset(r) == multiset(q) && (KeysDistinct(q) ==> KeysDistinct(r))
  {
    assert q == q[..i] + [q[i]] + q[i + 1..];
    if KeysDistinct(q) {
      MoveToFrontDistinct(q, i);
    }
  }

  lemma MoveToFrontDistinct(q: seq<Entry>, i: nat)
    requires i < |q| && KeysDistinct(q)
    ensures KeysDistinct([q[i]] + (q[..i] + q[i + 1..]))
  {
    var r := [q[i]] + (q[..i] + q[i + 1..]);
    forall a, b | 0 <= a < b < |r|
      ensures r[a].key != r[b].key
    {
      var ia := if a == 0 then i else if a - 1 < i then a - 1 else a;
      var ib := if b - 1 < i then b - 1 else b;
      assert r[a] == q[ia] && r[b] == q[ib];
    }
  }

  lemma MoveToFrontKeys(q: seq<Entry>, i: nat)
    requires i < |q|
    ensures multiset(Keys([q[i]] + (q[..i] + q[i + 1..]))) == multiset(Keys(q))
  {
    var ks := Keys(q);
    assert Keys([q[i]] + (q[..i] + q[i + 1..])) == [ks[i]] + (ks[..i] + ks[i + 1..]);
    assert ks == ks[..i] + [ks[i]] + ks[i + 1..];
  }

  /** `insertQueueNodeAtFront` */
  function InsertFront(q: seq<Entry>, e: Entry): (r: seq<Entry>)
    ensures |r| == |q| + 1 && r[0] == e && r[1..] == q
    ensures multiset(Keys(r)) == multiset(Keys(q)) + multiset{e.key}
  {
    assert Keys([e] + q) == [e.key] + Keys(q);
    [e] + q
  }

  /** `removeQueueNodeFromRear`: the rear entry is detached and returned. It dereferences
      the rear node, so the queue must not be empty. */
  function RemoveRear(q: seq<Entry>): (r: (seq<Entry>, Entry))
    requires q != []
    ensures r.0 + [r.1] == q
    ensures multiset(Keys(r.0)) == multiset(Keys(q)) - multiset{r.1.key}
  {
    var front := q[..|q| - 1];
    assert Keys(q) == Keys(front) + [q[|q| - 1].key];
    assert front + [q[|q| - 1]] == q;
    (front, q[|q| - 1])
  }

  // ---------------------------------------------------------------------------
  // Creating a cache

  /** `createLruCache(capacity)`: NULL for a capacity outside 1..1000, otherwise an empty
      cache with every bucket empty. */
  function CreateLruCache(capacity: int): (r: Option<Cache>)
    ensures r.None? <==> capacity <= 0 || capacity > MAX_CAPACITY
    ensures r.Some? ==> Valid(r.value) && r.value.capacity == capacity && r.value.queue == []
    ensures r.Some? ==> forall b :: 0 <= b < |r.value.table| ==> r.value.table[b] == []
  {
    if capacity <= 0 || capacity > MAX_CAPACITY then None
    else
      var t := seq(HASH_TABLE_SIZE, _ => []);
      EmptyTable(t);
      Some(Cache(capacity, 0, [], t))
  }

  lemma {:induction false} EmptyTable(t: seq<seq<nat>>)
    requires forall b :: 0 <= b < |t| ==> t[b] == []
    ensures TableKeys(t) == multiset{}
    decreases |t|
  {
    if |t| > 0 {
      EmptyTable(t[..|t| - 1]);
    }
  }

  // ---------------------------------------------------------------------------
  // The reference: a plain recency list

  /** The first position of the list holding the key. */
  function Position(q: seq<Entry>, key: nat): (r: Option<nat>)
    ensures r.Some? ==> r.value < |q| && q[r.value].key == key
    ensures r.Some? ==> forall j :: 0 <= j < r.value ==> q[j].key != key
    ensures r.None? <==> forall i :: 0 <= i < |q| ==> q[i].key != key
  {
    if q == [] then None
    else if q[0].key == key then Some(0)
    else
      match Position(q[1..], key)
      case None => None
      case Some(i) => Some(i + 1)
  }

  /** With distinct keys, a position holding the key is the first one. */
  lemma PositionUnique(q: seq<Entry>, key: nat, i: nat)
    requires KeysDistinct(q) && i < |q| && q[i].key == key
    ensures Position(q, key) == Some(i)
  {
  }

  /** What `Held` reads is the value at the key's first position. */
  lemma {:induction false} HeldAtPosition(q: seq<Entry>, key: nat)
    ensures Position(q, key).Some? ==> Held(q, key) == Some(q[Position(q, key).value].value)
    ensures Position(q, key).None? ==> Held(q, key).None?
  {
    if q != [] && q[0].key != key {
      HeldAtPosition(q[1..], key);
    }
  }

  /** A get on the plain list: a hit moves the entry to the front. */
  function RefGet(q: seq<Entry>, key: nat): (seq<Entry>, Option<string>) {
    match Position(q, key)
    case None => (q, None)
    case Some(i) => ([q[i]] + (q[..i] + q[i + 1..]), Some(q[i].value))
  }

  /** A put on the plain list of at most `capacity` entries: a present key is replaced and
      moves to the front; a new key drops the rear entry when the list is full and then
      enters at the front. */
  function RefPut(q: seq<Entry>, capacity: nat, key: nat, value: string): seq<Entry>
    requires 1 <= capacity && |q| <= capacity
  {
    match Position(q, key)
    case Some(i) => [Entry(key, value)] + (q[..i] + q[i + 1..])
    case None => [Entry(key, value)] + (if |q| == capacity then q[..|q| - 1] else q)
  }

  /** Every entry the put keeps, other than the key's, is still in the list. */
  lemma {:induction false} RefPutKeeps(q: seq<Entry>, capacity: nat, key: nat, value: string, e: Entry)
    requires 1 <= capacity && |q| <= capacity
    requires e in q && e.key != key
    requires Position(q, key).None? && |q| == capacity ==> e != q[|q| - 1]
    ensures e in RefPut(q, capacity, key, value)
  {
    var r := RefPut(q, capacity, key, value);
    var m :| 0 <= m < |q| && q[m] == e;
    match Position(q, key)
    case Some(i) =>
      assert m != i;
      if m < i {
        assert r[m + 1] == q[m];
      } else {
        assert r[m] == q[m];
      }
    case None =>
      assert r[m + 1] == q[m];
  }

  /** Every entry after a put, other than the new front, was in the list before. */
  lemma RefPutFrom(q: seq<Entry>, capacity: nat, key: nat, value: string, j: nat)
    requires 1 <= capacity && |q| <= capacity
    requires 0 < j < |RefPut(q, capacity, key, value)|
    ensures RefPut(q, capacity, key, value)[j] in q
    ensures Position(q, key).None? && |q| == capacity ==> RefPut(q, capacity, key, value)[j] in q[..|q| - 1]
  {
    var r := RefPut(q, capacity, key, value);
    match Position(q, key)
    case Some(i) =>
      assert r[j] == (q[..i] + q[i + 1..])[j - 1];
    case None =>
      if |q| == capacity {
        assert r[j] == q[..|q| - 1][j - 1];
      } else {
        assert r[j] == q[j - 1];
      }
  }

  /** A put keeps the keys distinct and at most `capacity` entries. */
  lemma RefPutDistinct(q: seq<Entry>, capacity: nat, key: nat, value: string)
    requires 1 <= capacity && |q| <= capacity && KeysDistinct(q)
    ensures |RefPut(q, capacity, key, value)| <= capacity
    ensures KeysDistinct(RefPut(q, capacity, key, value))
  {
    var r := RefPut(q, capacity, key, value);
    forall a, b | 0 <= a < b < |r|
      ensures r[a].key != r[b].key
    {
      if a == 0 {
        RefPutFront(q, capacity, key, value, b);
      } else {
        RefPutOrder(q, capacity, key, value, a, b);
      }
    }
  }

  /** No entry behind the front carries the key just put. */
  lemma RefPutFront(q: seq<Entry>, capacity: nat, key: nat, value: string, b: nat)
    requires 1 <= capacity && |q| <= capacity && KeysDistinct(q)
    requires 0 < b < |RefPut(q, capacity, key, value)|
    ensures RefPut(q, capacity, key, value)[b].key != key
  {
    var r := RefPut(q, capacity, key, value);
    match Position(q, key)
    case Some(i) =>
      var ib := if b - 1 < i then b - 1 else b;
      assert r[b] == q[ib];
      assert q[i].key == key && ib != i;
    case None =>
      assert r[b] == q[b - 1];
  }

  /** The entries after the front keep their order. */
  lemma RefPutOrder(q: seq<Entry>, capacity: nat, key: nat, value: string, a: nat, b: nat)
    requires 1 <= capacity && |q| <= capacity && KeysDistinct(q)
    requires 0 < a < b < |RefPut(q, capacity, key, value)|
    ensures RefPut(q, capacity, key, value)[a].key != RefPut(q, capacity, key, value)[b].key
  {
    var r := RefPut(q, capacity, key, value);
    match Position(q, key)
    case Some(i) =>
      var ia := if a - 1 < i then a - 1 else a;
      var ib := if b - 1 < i then b - 1 else b;
      assert r[a] == q[ia] && r[b] == q[ib];
    case None =>
      assert r[a] == q[a - 1] && r[b] == q[b - 1];
  }

  /** After a put, a get of the same key finds the new value at the front. */
  lemma RefPutThenGet(q: seq<Entry>, capacity: nat, key: nat, value: string)
    requires 1 <= capacity && |q| <= capacity
    ensures RefGet(RefPut(q, capacity, key, value), key).1 == Some(value)
  {
  }

  /** A put leaves the value held for every other key, except the one a full list evicts. */
  lemma RefPutKeepsOthers(q: seq<Entry>, capacity: nat, key: nat, value: string, other: nat)
    requires 1 <= capacity && |q| <= capacity && KeysDistinct(q) && other != key
    requires Position(q, key).None? && |q| == capacity ==> other != q[|q| - 1].key
    ensures Held(RefPut(q, capacity, key, value), other) == Held(q, other)
  {
    var r := RefPut(q, capacity, key, value);
    RefPutDistinct(q, capacity, key, value);
    match Position(q, other)
    case None =>
      forall j | 0 <= j < |r|
        ensures r[j].key != other
      {
        if j > 0 {
          RefPutFrom(q, capacity, key, value, j);
        }
      }
    case Some(m) =>
      HeldAtPosition(q, other);
      RefPutKeeps(q, capacity, key, value, q[m]);
      var j :| 0 <= j < |r| && r[j] == q[m];
      PositionUnique(r, other, j);
      HeldAtPosition(r, other);
  }

  /** A full list that takes a new key no longer holds its rear key. */
  lemma RefPutEvictsRear(q: seq<Entry>, capacity: nat, key: nat, value: string)
    requires 1 <= capacity && |q| == capacity && KeysDistinct(q) && Position(q, key).None?
    ensures Held(RefPut(q, capacity, key, value), q[|q| - 1].key).None?
  {
    var r := RefPut(q, capacity, key, value);
    forall j | 0 < j < |r|
      ensures r[j].key != q[|q| - 1].key
    {
      RefPutFrom(q, capacity, key, value, j);
      var m :| 0 <= m < |q| - 1 && q[..|q| - 1][m] == r[j];
      assert q[m] == r[j];
    }
  }

  /** A get does not change the value held for any key. */
  lemma RefGetKeepsHeld(q: seq<Entry>, key: nat, other: nat)
    requires KeysDistinct(q)
    ensures Held(RefGet(q, key).0, other) == Held(q, other)
  {
    if Position(q, key).Some? {
      var i := Position(q, key).value;
      MoveToFrontFacts(q, i);
      SameEntriesSameHeld(q, RefGet(q, key).0, other);
    }
  }

  /** Two lists with the same entries and distinct keys hold the same values. */
  lemma SameEntriesSameHeld(q: seq<Entry>, r: seq<Entry>, key: nat)
    requires KeysDistinct(q) && KeysDistinct(r) && multiset(r) == multiset(q)
    ensures Held(r, key) == Held(q, key)
  {
    HeldAtPosition(q, key);
    HeldAtPosition(r, key);
    if Position(q, key).Some? {
      var m := Position(q, key).value;
      assert q[m] in multiset(r);
      var j :| 0 <= j < |r| && r[j] == q[m];
      PositionUnique(r, key, j);
    } else {
      forall j | 0 <= j < |r|
        ensures r[j].key != key
      {
        assert r[j] in multiset(q);
      }
    }
  }

  // ---------------------------------------------------------------------------
  // The cache operations

  /** `searchQueueNodeInHashTable`: the queue position of the node the key's bucket
      points to, found through the bucket; none when the bucket does not chain the key. */
  function Search(c: Cache, key: nat): (r: Option<nat>)
    requires Valid(c)
    ensures r == Position(c.queue, key)
  {
    QueuedIffChained(c, key);
    if key in c.table[HashIndex(key)] then
      var i :| 0 <= i < |Keys(c.queue)| && Keys(c.queue)[i] == key;
      PositionUnique(c.queue, key, i);
      Some(i)
    else None
  }

  /** `getValueFromCache`: NULL and no change for an absent key; otherwise the stored
      value, and the entry moves to the front of the queue, the table untouched. */
  function Get(c: Cache, key: nat): (r: (Cache, Option<string>))
    requires Valid(c)
    ensures Valid(r.0)
    ensures r.1 == Held(c.queue, key)
    ensures r.0.queue == RefGet(c.queue, key).0 && r.1 == RefGet(c.queue, key).1
    ensures r.0.capacity == c.capacity && r.0.size == c.size && r.0.table == c.table
  {
    HeldAtPosition(c.queue, key);
    match Search(c, key)
    case None => (c, None)
    case Some(i) =>
      MoveKeepsValid(c, i);
      (c.(queue := MoveToFront(c.queue, i)), Some(c.queue[i].value))
  }

  /** Moving an entry to the front keeps the cache invariant. */
  lemma MoveKeepsValid(c: Cache, i: nat)
    requires Valid(c) && i < |c.queue|
    ensures Valid(c.(queue := MoveToFront(c.queue, i)))
  {
    var r := MoveToFront(c.queue, i);
    assert forall e :: e in r <==> e in c.queue by {
      forall e
        ensures e in r <==> e in c.queue
      {
        assert e in r <==> e in multiset(r);
      }
    }
  }

  /** The hit branch of `putKeyValueInCache`: the entry at position i takes the truncated
      value and moves to the front. */
  function PutExisting(c: Cache, i: nat, value: string): (r: Cache)
    requires Valid(c) && i < |c.queue|
    ensures Valid(r) && r.capacity == c.capacity && r.size == c.size && r.table == c.table
    ensures r.queue == [Entry(c.queue[i].key, Truncate(value))] + (c.queue[..i] + c.queue[i + 1..])
  {
    var q := c.queue[i := Entry(c.queue[i].key, Truncate(value))];
    UpdateValue(c.queue, i, Truncate(value));
    assert q[..i] == c.queue[..i] && q[i + 1..] == c.queue[i + 1..];
    c.(queue := MoveToFront(q, i))
  }

  /** Overwriting the value at position i keeps the keys. */
  lemma UpdateValue(q: seq<Entry>, i: nat, value: string)
    requires i < |q|
    ensures Keys(q[i := Entry(q[i].key, value)]) == Keys(q)
    ensures KeysDistinct(q) ==> KeysDistinct(q[i := Entry(q[i].key, value)])
  {
  }

  /** The eviction step of `putKeyValueInCache` on a full cache: the rear entry leaves the
      queue and its key leaves the table, and the size drops by one. */
  function Evict(c: Cache): (r: Cache)
    requires Valid(c) && c.size == c.capacity
    ensures Valid(r) && r.capacity == c.capacity && r.size == c.size - 1
    ensures r.queue == c.queue[..|c.queue| - 1]
  {
    var (q, lru) := RemoveRear(c.queue);
    EvictFacts(c);
    Cache(c.capacity, c.size - 1, q, TableDelete(c.table, lru.key))
  }

  lemma EvictFacts(c: Cache)
    requires Valid(c) && c.size == c.capacity
    ensures c.queue[|c.queue| - 1].key in c.table[HashIndex(c.queue[|c.queue| - 1].key)]
    ensures KeysDistinct(c.queue[..|c.queue| - 1])
  {
    var key := c.queue[|c.queue| - 1].key;
    QueuedIffChained(c, key);
    assert Keys(c.queue)[|c.queue| - 1] == key;
  }

  /** The miss branch of `putKeyValueInCache` once there is room: the new entry goes to
      the front of the queue and the head of its bucket. */
  function PutNew(c: Cache, key: nat, value: string): (r: Cache)
    requires Valid(c) && c.size < c.capacity
    requires forall i :: 0 <= i < |c.queue| ==> c.queue[i].key != key
    ensures Valid(r) && r.capacity == c.capacity && r.size == c.size + 1
    ensures r.queue == [Entry(key, Truncate(value))] + c.queue
  {
    var q := InsertFront(c.queue, Entry(key, Truncate(value)));
    NewKeyDistinct(c.queue, Entry(key, Truncate(value)));
    Cache(c.capacity, c.size + 1, q, TableInsert(c.table, key))
  }

  lemma NewKeyDistinct(q: seq<Entry>, e: Entry)
    requires KeysDistinct(q) && forall i :: 0 <= i < |q| ==> q[i].key != e.key
    ensures KeysDistinct([e] + q)
  {
    var r := [e] + q;
    forall a, b | 0 <= a < b < |r|
      ensures r[a].key != r[b].key
    {
      assert r[b] == q[b - 1];
      if a > 0 {
        assert r[a] == q[a - 1];
      }
    }
  }

  /** `putKeyValueInCache(cache, key, value)`. A key already present gets the truncated
      value and moves to the front, the size unchanged. A new key first evicts the rear
      (least recently used) entry from the queue and the table when the cache is full,
      then enters at the front of the queue and the head of its bucket. The queue ends up
      as the plain recency list would. */
  function Put(c: Cache, key: nat, value: string): (r: Cache)
    requires Valid(c)
    ensures Valid(r) && r.capacity == c.capacity
    ensures r.queue == RefPut(c.queue, c.capacity, key, Truncate(value))
  {
    match Search(c, key)
    case Some(i) => PutExisting(c, i, value)
    case None =>
      if c.size == c.capacity then
        var c1 := Evict(c);
        PrefixLacks(c.queue, c1.queue, key);
        PutNew(c1, key, value)
      else PutNew(c, key, value)
  }

  lemma PrefixLacks(q: seq<Entry>, p: seq<Entry>, key: nat)
    requires q != [] && p == q[..|q| - 1] && forall i :: 0 <= i < |q| ==> q[i].key != key
    ensures forall i :: 0 <= i < |p| ==> p[i].key != key
  {
  }

  // ---------------------------------------------------------------------------
  // Properties of the cache

  /** After a put, a get of the same key finds the truncated value. */
  lemma PutThenGet(c: Cache, key: nat, value: string)
    requires Valid(c)
    ensures Get(Put(c, key, value), key).1 == Some(Truncate(value))
  {
    RefPutThenGet(c.queue, c.capacity, key, Truncate(value));
  }

  /** A put leaves what the cache holds for every other key alone, except the least
      recently used key a full cache evicts for a new one. */
  lemma PutKeepsOthers(c: Cache, key: nat, value: string, other: nat)
    requires Valid(c) && other != key
    requires Held(c.queue, key).None? && c.size == c.capacity ==> other != c.queue[|c.queue| - 1].key
    ensures Held(Put(c, key, value).queue, other) == Held(c.queue, other)
  {
    HeldAtPosition(c.queue, key);
    RefPutKeepsOthers(c.queue, c.capacity, key, Truncate(value), other);
  }

  /** A full cache that takes a new key no longer holds its least recently used key. */
  lemma PutEvictsRear(c: Cache, key: nat, value: string)
    requires Valid(c) && Held(c.queue, key).None? && c.size == c.capacity
    ensures Held(Put(c, key, value).queue, c.queue[|c.queue| - 1].key).None?
  {
    HeldAtPosition(c.queue, key);
    RefPutEvictsRear(c.queue, c.capacity, key, Truncate(value));
  }

  /** A get does not change what the cache holds for any key. */
  lemma GetKeepsHeld(c: Cache, key: nat, other: nat)
    requires Valid(c)
    ensures Held(Get(c, key).0.queue, other) == Held(c.queue, other)
  {
    RefGetKeepsHeld(c.queue, key, other);
  }
}

/** The hash map of hashmap.c. Every entry lives in two intrusive structures: the singly linked
    chain of its bucket and the doubly linked list in insertion order. The invariant ties both to
    one ghost sequence: the list is that sequence, and the chain of bucket b is the sequence
    filtered by bucket, newest entry first. */
module HashMap {
  import opened OrderedMap
  import opened CTypes

  class HEntry<V> {
    var prev: HEntry?<V>
    var next: HEntry?<V>
    var chain: HEntry?<V>
    const key: Key
    var value: Ptr<V>

    /** `hentry_create` */
    constructor (key: Key, value: Ptr<V>)
      ensures this.key == key && this.value == value
      ensures prev == null && next == null && chain == null
    {
      this.key, this.value := key, value;
      prev, next, chain := null, null, null;
    }

    /** `hentry_destroy`, up to the release of the memory */
    method Destroy()
      modifies this
      ensures value == Null && chain == null && prev == null && next == null
    {
      value := Null;
      chain := null;
      prev := null;
      next := null;
    }
  }

  function Bucket(key: Key, capacity: nat): (b: nat)
    requires capacity > 0
    ensures b < capacity
  {
    key % capacity
  }

  ghost function Without<T>(s: seq<T>, i: nat): (r: seq<T>)
    requires i < |s|
    ensures |r| == |s| - 1
    ensures forall j {:trigger r[j]} :: 0 <= j < |r| ==> r[j] == s[if j < i then j else j + 1]
  {
    s[..i] + s[i + 1..]
  }

  // ---------------------------------------------------------------- chains as filtered sequences

  /** The entries of bucket b among order[m..n], newest first. */
  ghost function Bucketed<V>(order: seq<HEntry<V>>, m: nat, n: nat, capacity: nat, b: nat): (c: seq<HEntry<V>>)
    requires m <= n <= |order| && capacity > 0
    ensures forall k :: 0 <= k < |c| ==> c[k] in order && Bucket(c[k].key, capacity) == b
  {
    if m == n then []
    else
      var rest := Bucketed(order, m, n - 1, capacity, b);
      if Bucket(order[n - 1].key, capacity) == b then [order[n - 1]] + rest else rest
  }

  /** Those are the entries whose key is b modulo the number of buckets. */
  lemma {:induction false} BucketedMeans<V>(order: seq<HEntry<V>>, n: nat, capacity: nat, b: nat, e: HEntry<V>)
    requires n <= |order| && capacity > 0
    ensures e in Bucketed(order, 0, n, capacity, b) <==> e in order[..n] && e.key % capacity == b
    decreases n
  {
    if n > 0 {
      BucketedMeans(order, n - 1, capacity, b, e);
      assert order[..n] == order[..n - 1] + [order[n - 1]];
    }
  }

  /** An entry behind the first n does not matter to them. */
  lemma {:induction false} BucketedBefore<V>(order: seq<HEntry<V>>, longer: seq<HEntry<V>>, n: nat,
                                             capacity: nat, b: nat)
    requires n <= |order| && n <= |longer| && capacity > 0
    requires forall j :: 0 <= j < n ==> longer[j] == order[j]
    ensures Bucketed(longer, 0, n, capacity, b) == Bucketed(order, 0, n, capacity, b)
    decreases n
  {
    if n > 0 {
      BucketedBefore(order, longer, n - 1, capacity, b);
    }
  }

  /** The entries behind order[i] move up by one when it is left out. */
  lemma {:induction false} BucketedBehind<V>(order: seq<HEntry<V>>, i: nat, n: nat, capacity: nat, b: nat)
    requires i <= n < |order| && capacity > 0
    ensures Bucketed(Without(order, i), i, n, capacity, b) == Bucketed(order, i + 1, n + 1, capacity, b)
    decreases n
  {
    if i < n {
      assert Without(order, i)[n - 1] == order[n];
      BucketedBehind(order, i, n - 1, capacity, b);
    }
  }

  lemma {:induction false} BucketedSplit<V>(order: seq<HEntry<V>>, m: nat, k: nat, n: nat, capacity: nat, b: nat)
    requires m <= k <= n <= |order| && capacity > 0
    ensures Bucketed(order, m, n, capacity, b)
         == Bucketed(order, k, n, capacity, b) + Bucketed(order, m, k, capacity, b)
    decreases n
  {
    if k == n {
      assert [] + Bucketed(order, m, k, capacity, b) == Bucketed(order, m, k, capacity, b);
    } else {
      BucketedSplit(order, m, k, n - 1, capacity, b);
      if Bucket(order[n - 1].key, capacity) == b {
        assert [order[n - 1]] + (Bucketed(order, k, n - 1, capacity, b) + Bucketed(order, m, k, capacity, b))
            == ([order[n - 1]] + Bucketed(order, k, n - 1, capacity, b)) + Bucketed(order, m, k, capacity, b);
      }
    }
  }

  lemma {:induction false} BucketedHas<V>(order: seq<HEntry<V>>, m: nat, n: nat, capacity: nat, i: nat)
    requires m <= i < n <= |order| && capacity > 0
    ensures order[i] in Bucketed(order, m, n, capacity, Bucket(order[i].key, capacity))
    decreases n
  {
    if i < n - 1 {
      BucketedHas(order, m, n - 1, capacity, i);
    }
  }

  ghost predicate Apart<V>(order: seq<HEntry<V>>, i: nat, j: nat)
    requires i < |order| && j < |order|
  {
    order[i].key != order[j].key
  }

  ghost predicate DistinctKeys<V>(order: seq<HEntry<V>>) {
    forall i, j {:trigger Apart(order, i, j)} :: 0 <= i < j < |order| ==> Apart(order, i, j)
  }

  ghost predicate DistinctRefs<V>(order: seq<HEntry<V>>) {
    forall i, j :: 0 <= i < j < |order| ==> order[i] != order[j]
  }

  lemma KeysTellApart<V>(order: seq<HEntry<V>>)
    requires DistinctKeys(order)
    ensures DistinctRefs(order)
  {
    forall i, j | 0 <= i < j < |order| ensures order[i] != order[j] {
      assert Apart(order, i, j);
    }
  }

  lemma WithoutKeys<V>(order: seq<HEntry<V>>, i: nat)
    requires DistinctKeys(order) && i < |order|
    ensures DistinctKeys(Without(order, i)) && order[i] !in Without(order, i)
  {
    KeysTellApart(order);
    var order' := Without(order, i);
    forall a, b | 0 <= a < b < |order'| ensures Apart(order', a, b) {
      assert Apart(order, if a < i then a else a + 1, if b < i then b else b + 1);
    }
  }

  lemma OneMoreKey<V>(order: seq<HEntry<V>>, entry: HEntry<V>)
    requires DistinctKeys(order) && forall e :: e in order ==> e.key != entry.key
    ensures DistinctKeys(order + [entry])
  {
    var order' := order + [entry];
    forall a, b | 0 <= a < b < |order'| ensures Apart(order', a, b) {
      assert order[a] in order;
      assert b < |order| ==> Apart(order, a, b);
    }
  }

  /** The entries of a bucket come from the given range and none comes twice. */
  lemma {:induction false} BucketedDistinct<V>(order: seq<HEntry<V>>, m: nat, n: nat, capacity: nat, b: nat)
    requires m <= n <= |order| && capacity > 0 && DistinctKeys(order)
    ensures var c := Bucketed(order, m, n, capacity, b);
      && (forall e :: e in c ==> e in order[m..n])
      && forall i, j :: 0 <= i < j < |c| ==> c[i] != c[j]
    decreases n
  {
    if m < n {
      BucketedDistinct(order, m, n - 1, capacity, b);
      assert order[m..n] == order[m..n - 1] + [order[n - 1]];
      KeysTellApart(order);
      assert order[n - 1] !in order[m..n - 1];
    }
  }

  ghost predicate ChainLinked<V>(start: HEntry?<V>, c: seq<HEntry<V>>)
    reads c`chain
  {
    && start == (if c == [] then null else c[0])
    && forall k {:trigger c[k].chain} :: 0 <= k < |c| ==> c[k].chain == if k + 1 < |c| then c[k + 1] else null
  }

  /** `prev` and `next` of order[i] point at its neighbours. */
  ghost predicate LinkedAt<V>(order: seq<HEntry<V>>, i: nat)
    requires i < |order|
    reads order`next, order`prev
  {
    && order[i].next == (if i + 1 < |order| then order[i + 1] else null)
    && order[i].prev == if i > 0 then order[i - 1] else null
  }

  ghost predicate OrderLinked<V>(order: seq<HEntry<V>>, head: HEntry?<V>, tail: HEntry?<V>)
    reads order`next, order`prev
  {
    && head == (if order == [] then null else order[0])
    && tail == (if order == [] then null else order[|order| - 1])
    && forall i {:trigger LinkedAt(order, i)} :: 0 <= i < |order| ==> LinkedAt(order, i)
  }

  /** The chains from bucket b on hold exactly the first n entries of the order. A recursive
      definition, so that the solver looks at a chain only where a lemma below points at it. */
  ghost predicate ChainsFrom<V>(entries: array<HEntry?<V>>, order: seq<HEntry<V>>, n: nat, b: nat)
    requires n <= |order| && b <= entries.Length
    reads entries, order`chain
    decreases entries.Length - b
  {
    b == entries.Length
    || (ChainLinked(entries[b], Bucketed(order, 0, n, entries.Length, b)) && ChainsFrom(entries, order, n, b + 1))
  }

  ghost predicate ChainsLinked<V>(entries: array<HEntry?<V>>, order: seq<HEntry<V>>, n: nat)
    requires n <= |order|
    reads entries, order`chain
  {
    entries.Length > 0 && ChainsFrom(entries, order, n, 0)
  }

  lemma {:induction false} ChainAt<V>(entries: array<HEntry?<V>>, order: seq<HEntry<V>>, n: nat, a: nat, b: nat)
    requires n <= |order| && a <= b < entries.Length && ChainsFrom(entries, order, n, a)
    ensures ChainLinked(entries[b], Bucketed(order, 0, n, entries.Length, b))
    decreases b - a
  {
    if a < b {
      ChainAt(entries, order, n, a + 1, b);
    }
  }

  lemma {:induction false} AllChains<V>(entries: array<HEntry?<V>>, order: seq<HEntry<V>>, n: nat, a: nat)
    requires n <= |order| && a <= entries.Length
    requires forall b :: a <= b < entries.Length ==> ChainLinked(entries[b], Bucketed(order, 0, n, entries.Length, b))
    ensures ChainsFrom(entries, order, n, a)
    decreases entries.Length - a
  {
    if a < entries.Length {
      AllChains(entries, order, n, a + 1);
    }
  }

  /** Puts order[n] in front of its chain. */
  method PushChain<V>(entries: array<HEntry?<V>>, ghost order: seq<HEntry<V>>, ghost n: nat, entry: HEntry<V>)
    requires n < |order| && order[n] == entry && DistinctKeys(order) && ChainsLinked(entries, order, n)
    modifies entries, entry`chain
    ensures ChainsLinked(entries, order, n + 1)
  {
    var bucket := Bucket(entry.key, entries.Length);
    var start := entries[bucket];
    forall b | 0 <= b < entries.Length
      ensures ChainLinked(entries[b], Bucketed(order, 0, n, entries.Length, b))
    {
      ChainAt(entries, order, n, 0, b);
    }
    entry.chain := start;
    entries[bucket] := entry;
    forall b | 0 <= b < entries.Length
      ensures ChainLinked(entries[b], Bucketed(order, 0, n + 1, entries.Length, b))
    {
      ghost var c := Bucketed(order, 0, n, entries.Length, b);
      assert old(ChainLinked(entries[b], c));
      BucketedDistinct(order, 0, n, entries.Length, b);
      KeysTellApart(order);
      forall k | 0 <= k < |c| ensures c[k] != entry {
        assert c[k] in order[0..n];
      }
    }
    AllChains(entries, order, n + 1, 0);
  }

  lemma BucketedPieces<V>(order: seq<HEntry<V>>, i: nat, capacity: nat, b: nat)
    returns (c1: seq<HEntry<V>>, c0: seq<HEntry<V>>)
    requires i < |order| && capacity > 0
    ensures Bucketed(Without(order, i), 0, |order| - 1, capacity, b) == c1 + c0
    ensures Bucketed(order, 0, |order|, capacity, b)
         == c1 + (if Bucket(order[i].key, capacity) == b then [order[i]] + c0 else c0)
  {
    c1 := Bucketed(order, i + 1, |order|, capacity, b);
    c0 := Bucketed(order, 0, i, capacity, b);
    BucketedSplit(order, 0, i + 1, |order|, capacity, b);
    BucketedAround(order, i, capacity, b);
  }

  lemma BucketedAround<V>(order: seq<HEntry<V>>, i: nat, capacity: nat, b: nat)
    requires i < |order| && capacity > 0
    ensures Bucketed(Without(order, i), 0, |order| - 1, capacity, b)
         == Bucketed(order, i + 1, |order|, capacity, b) + Bucketed(order, 0, i, capacity, b)
  {
    var n := |order|;
    var order' := Without(order, i);
    BucketedSplit(order', 0, i, n - 1, capacity, b);
    BucketedBehind(order, i, n - 1, capacity, b);
    BucketedBefore(order, order', i, capacity, b);
  }

  /** Cuts the entry at place k out of the chain of a bucket. */
  method CutChain<V>(entries: array<HEntry?<V>>, bucket: nat, ghost c: seq<HEntry<V>>, ghost k: nat,
                     previous: HEntry?<V>, entry: HEntry<V>)
    requires bucket < entries.Length && k < |c| && ChainLinked(entries[bucket], c)
    requires entry == c[k] && previous == (if k > 0 then c[k - 1] else null)
    requires forall i, j :: 0 <= i < j < |c| ==> c[i] != c[j]
    modifies entries, c`chain
    ensures ChainLinked(entries[bucket], Without(c, k))
    ensures forall b :: 0 <= b < entries.Length && b != bucket ==> entries[b] == old(entries[b])
  {
    if previous != null {
      previous.chain := entry.chain;
    }
    if entry == entries[bucket] {
      entries[bucket] := entry.chain;
    }
  }

  /** Leaving out order[i] takes it out of its own chain and changes no other. */
  lemma BucketedWithout<V>(order: seq<HEntry<V>>, i: nat, capacity: nat, b: nat, k: nat)
    requires i < |order| && capacity > 0 && DistinctKeys(order)
    requires var c := Bucketed(order, 0, |order|, capacity, b);
      Bucket(order[i].key, capacity) == b ==> k < |c| && c[k] == order[i]
    ensures var c, order' := Bucketed(order, 0, |order|, capacity, b), Without(order, i);
      Bucketed(order', 0, |order'|, capacity, b)
      == if Bucket(order[i].key, capacity) == b then Without(c, k) else c
  {
    var c1, c0 := BucketedPieces(order, i, capacity, b);
    if Bucket(order[i].key, capacity) == b {
      var c := Bucketed(order, 0, |order|, capacity, b);
      assert c[|c1|] == order[i];
      BucketedDistinct(order, 0, |order|, capacity, b);
      assert k == |c1|;
      assert c[..k] == c1 && c[k + 1..] == c0;
    }
  }

  class Map<V> {
    var entries: array<HEntry?<V>>
    var head: HEntry?<V>
    var tail: HEntry?<V>
    var capacity: nat
    var size: nat
    ghost var order: seq<HEntry<V>>
    ghost var relinks: nat

    ghost predicate Valid()
      reads this, entries, order
    {
      && entries.Length == capacity && size == |order|
      && DistinctKeys(order)
      && OrderLinked(order, head, tail)
      && ChainsLinked(entries, order, |order|)
    }

    ghost function Repr(): set<object>
      reads this
    {
      {this, entries} + (set e | e in order)
    }

    /** The abstract ordered map. */
    ghost function Items(): (s: seq<Entry<V>>)
      reads this, order
      ensures |s| == |order|
      ensures forall i {:trigger s[i]} :: 0 <= i < |s| ==> s[i] == Entry(order[i].key, order[i].value)
    {
      seq(|order|, i requires 0 <= i < |order| reads this, order => Entry(order[i].key, order[i].value))
    }

    ghost function Status(): Load
      reads this
    {
      Load(size, capacity, relinks)
    }

    ghost function Now(): Moment<V>
      reads this, order
    {
      Moment(Items(), Status())
    }

    /** The walk along a bucket's chain that get, contains, set and remove share: the entry with
        the key, at place k of its chain, and the entry before it. */
    method Locate(key: Key) returns (previous: HEntry?<V>, entry: HEntry?<V>, ghost k: nat)
      requires Valid()
      ensures entry == null ==> forall e :: e in order ==> e.key != key
      ensures var c := Bucketed(order, 0, |order|, capacity, Bucket(key, capacity));
        entry != null ==>
          && k < |c| && entry == c[k] && entry.key == key && entry in order
          && previous == if k > 0 then c[k - 1] else null
    {
      ghost var c := Bucketed(order, 0, |order|, capacity, Bucket(key, capacity));
      var bucket := Bucket(key, capacity);
      previous := null;
      ChainAt(entries, order, |order|, 0, bucket);
      entry := entries[bucket];
      k := 0;
      while entry != null
        invariant k <= |c| && entry == if k < |c| then c[k] else null
        invariant previous == if k > 0 then c[k - 1] else null
        invariant forall j :: 0 <= j < k ==> c[j].key != key
        decreases |c| - k
      {
        if entry.key == key {
          return;
        }
        previous := entry;
        entry := entry.chain;
        k := k + 1;
      }
      forall e | e in order ensures e.key != key {
        var i :| 0 <= i < |order| && order[i] == e;
        BucketedHas(order, 0, |order|, capacity, i);
      }
    }

    lemma ItemsDistinct()
      requires DistinctKeys(order)
      ensures Distinct(Items())
    {
      forall i, j | 0 <= i < j < |order| ensures Items()[i].key != Items()[j].key {
        assert Apart(order, i, j);
      }
    }

    /** The position of a stored entry, and what the map operations mean there. */
    lemma FindEntry(entry: HEntry<V>, v: Ptr<V>) returns (i: nat)
      requires Valid() && entry in order
      ensures i < |order| && order[i] == entry
      ensures Has(Items(), entry.key) && OrderedMap.Get(Items(), entry.key) == entry.value
      ensures OrderedMap.Remove(Items(), entry.key) == Without(Items(), i)
      ensures OrderedMap.Set(Items(), entry.key, v) == Items()[i := Entry(entry.key, v)]
    {
      i :| 0 <= i < |order| && order[i] == entry;
      ItemsDistinct();
      Holds(Items(), i, v);
    }

    lemma FindNothing(key: Key, v: Ptr<V>)
      requires Valid() && forall e :: e in order ==> e.key != key
      ensures !Has(Items(), key) && OrderedMap.Get(Items(), key) == Null
      ensures OrderedMap.Set(Items(), key, v) == Items() + [Entry(key, v)] && OrderedMap.Remove(Items(), key) == Items()
    {
      Lacks(Items(), key, v);
    }

    /** `hashheaderget` */
    method Get(key: Key) returns (value: Ptr<V>)
      requires Valid()
      ensures value == OrderedMap.Get(Items(), key)
    {
      var previous, entry, k := Locate(key);
      if entry != null {
        var _ := FindEntry(entry, Null);
        return entry.value;
      }
      FindNothing(key, Null);
      return Null;
    }

    /** `hashheadercontains` */
    method Contains(key: Key) returns (found: bool)
      requires Valid()
      ensures found == Has(Items(), key)
    {
      var previous, entry, k := Locate(key);
      if entry != null {
        var _ := FindEntry(entry, Null);
        return true;
      }
      FindNothing(key, Null);
      return false;
    }

    /** The loop of `hashheaderresize`. */
    method RelinkAll(entries': array<HEntry?<V>>)
      requires entries'.Length > 0 && forall b :: 0 <= b < entries'.Length ==> entries'[b] == null
      requires DistinctKeys(order) && OrderLinked(order, head, tail)
      modifies entries', this`relinks, order`chain
      ensures ChainsLinked(entries', order, |order|) && relinks == old(relinks) + |order|
    {
      var entry := head;
      AllChains(entries', order, 0, 0);
      ghost var i := 0;
      while entry != null
        invariant i <= |order| && entry == if i < |order| then order[i] else null
        invariant OrderLinked(order, head, tail)
        invariant relinks == old(relinks) + i
        invariant ChainsLinked(entries', order, i)
        decreases |order| - i
      {
        PushChain(entries', order, i, entry);
        assert LinkedAt(order, i);
        relinks := relinks + 1;
        entry := entry.next;
        i := i + 1;
      }
    }

    /** `hashheaderresize`: rebuilds every chain from the order list, if there is memory for the buckets. */
    method Resize(capacity': nat, memory: bool) returns (ok: bool)
      requires capacity' > 0
      requires size == |order| && DistinctKeys(order) && OrderLinked(order, head, tail)
      modifies this`entries, this`capacity, this`relinks, order`chain
      ensures ok == memory
      ensures !ok ==> unchanged(this) && unchanged(order)
      ensures ok ==> Valid() && fresh(entries)
      ensures ok ==> Status() == Resized(old(Status()), capacity')
      ensures Items() == old(Items())
    {
      if !memory {
        return false;
      }
      var entries' := new HEntry?<V>[capacity'](_ => null);
      RelinkAll(entries');
      entries := entries';
      capacity := capacity';
      return true;
    }

    /** Links a new entry behind the last one of the order list. */
    method LinkLast(entry: HEntry<V>)
      requires DistinctRefs(order) && OrderLinked(order, head, tail)
      requires entry !in order && entry.prev == null && entry.next == null
      modifies this`head, this`tail, this`order, entry`prev, order`next
      ensures order == old(order) + [entry] && OrderLinked(order, head, tail)
    {
      if head == null {
        head := entry;
      }
      if tail != null {
        assert forall i :: 0 <= i < |order| - 1 ==> order[i] != tail;
        tail.next := entry;
        entry.prev := tail;
      }
      tail := entry;
      order := order + [entry];
      forall i | 0 <= i < |order| ensures LinkedAt(order, i) {
        if i < |order| - 1 {
          assert old(LinkedAt(order, i));
        }
      }
    }

    /** Links a new entry into its chain and into the order list. */
    method Join(entry: HEntry<V>)
      requires Valid() && entry !in order && entry.prev == null && entry.next == null
      requires forall e :: e in order ==> e.key != entry.key
      modifies this`head, this`tail, this`size, this`order, entries, entry`chain, entry`prev, order`next
      ensures Valid() && order == old(order) + [entry] && size == old(size) + 1
    {
      OneMoreKey(order, entry);
      KeysTellApart(order);
      JoinChain(entry);
      Follow(entry);
    }

    /** Puts a new entry into its chain. */
    method JoinChain(entry: HEntry<V>)
      requires DistinctKeys(order + [entry]) && ChainsLinked(entries, order, |order|)
      modifies entries, entry`chain
      ensures ChainsLinked(entries, order + [entry], |order| + 1)
    {
      ChainsExtend(entry);
      PushChain(entries, order + [entry], |order|, entry);
    }

    /** Puts a new entry that is in its chain into the order list. */
    method Follow(entry: HEntry<V>)
      requires entries.Length == capacity && size == |order|
      requires DistinctKeys(order + [entry]) && DistinctRefs(order) && OrderLinked(order, head, tail)
      requires ChainsLinked(entries, order + [entry], |order| + 1)
      requires entry !in order && entry.prev == null && entry.next == null
      modifies this`head, this`tail, this`size, this`order, entry`prev, order`next
      ensures Valid() && order == old(order) + [entry] && size == old(size) + 1
    {
      ghost var longer := order + [entry];
      LinkLast(entry);
      assert ChainsLinked(entries, longer, |longer|);
      size := size + 1;
    }

    method Link(entry: HEntry<V>)
      requires Valid() && entry !in order && entry.prev == null && entry.next == null
      requires forall e :: e in order ==> e.key != entry.key
      modifies this`head, this`tail, this`size, this`order, entries, entry`chain, entry`prev, order`next
      ensures Valid() && order == old(order) + [entry] && size == old(size) + 1
      ensures Items() == old(Items()) + [Entry(entry.key, entry.value)]
    {
      Join(entry);
      ghost var s := old(Items()) + [Entry(entry.key, entry.value)];
      forall j | 0 <= j < |order| ensures s[j] == Entry(order[j].key, order[j].value) {
        assert j < |order| - 1 ==> order[j] == old(order)[j];
      }
      ItemsAre(s);
    }

    lemma ChainsExtend(entry: HEntry<V>)
      requires ChainsLinked(entries, order, |order|)
      ensures ChainsLinked(entries, order + [entry], |order|)
    {
      var order' := order + [entry];
      forall b | 0 <= b < entries.Length
        ensures ChainLinked(entries[b], Bucketed(order', 0, |order|, entries.Length, b))
      {
        ChainAt(entries, order, |order|, 0, b);
        BucketedBefore(order, order', |order|, entries.Length, b);
      }
      AllChains(entries, order', |order|, 0);
    }

    /** `hashheaderset`, where there is `memory`. `errno` is what the C variable tells: some allocation
        failed. When it was only that of the resize, the entry has been stored all the same. */
    method Set(key: Key, value: Ptr<V>, memory: Memory) returns (evicted: Ptr<V>, errno: bool)
      requires Valid()
      modifies Repr()
      ensures Valid() && fresh(Repr() - old(Repr()))
      ensures evicted == OrderedMap.Get(old(Items()), key)
      ensures errno == (Finds(old(Now()), key, memory) != Enough) && (errno ==> evicted == Null)
      ensures Has(old(Items()), key) ==> order == old(order) && Repr() == old(Repr())
      ensures SetEffect(old(Now()), key, value, Finds(old(Now()), key, memory), Now())
    {
      var previous, entry, k := Locate(key);
      if entry != null {
        evicted := Overwrite(entry, value);
        return evicted, false;
      }
      FindNothing(key, value);
      errno := Append(key, value, memory);
      return Null, errno;
    }

    /** The part of `hashheaderset` that stores a new key. */
    method Append(key: Key, value: Ptr<V>, memory: Memory) returns (errno: bool)
      requires Valid() && forall e :: e in order ==> e.key != key
      modifies Repr()
      ensures Valid() && fresh(Repr() - old(Repr()))
      ensures errno == (FindsNew(old(Status()), memory) != Enough)
      ensures Items() == if memory == NoEntry then old(Items()) else old(Items()) + [Entry(key, value)]
      ensures match FindsNew(old(Status()), memory)
        case Enough => Status() == Insert(old(Status()), true)
        case NoEntry => Status() == old(Status())
        case NoBuckets => Status() == Insert(old(Status()), false) && Crowded(Status())
    {
      if memory == NoEntry {
        return true;
      }
      Store(key, value);
      errno := Relieve(memory == Enough);
    }

    method Store(key: Key, value: Ptr<V>)
      requires Valid() && forall e :: e in order ==> e.key != key
      modifies Repr()
      ensures Valid() && fresh(Repr() - old(Repr()))
      ensures Items() == old(Items()) + [Entry(key, value)] && Status() == old(Status()).(size := old(size) + 1)
    {
      var entry := new HEntry(key, value);
      Link(entry);
    }

    /** The end of `hashheaderset`: the resize, if one is due. */
    method Relieve(memory: bool) returns (errno: bool)
      requires Valid()
      modifies Repr()
      ensures Valid() && (entries == old(entries) || fresh(entries))
      ensures order == old(order) && Items() == old(Items())
      ensures var l := old(Status());
        && errno == (Crowded(l) && !memory)
        && Status() == if Crowded(l) && memory then Resized(l, l.capacity * 2) else l
    {
      errno := false;
      if 4 * size > 3 * capacity {
        var ok := Resize(capacity * 2, memory);
        errno := !ok;
      }
    }

    method Overwrite(entry: HEntry<V>, value: Ptr<V>) returns (evicted: Ptr<V>)
      requires Valid() && entry in order
      modifies entry`value
      ensures Valid() && OrderedMap.Has(old(Items()), entry.key)
      ensures evicted == OrderedMap.Get(old(Items()), entry.key)
      ensures Items() == OrderedMap.Set(old(Items()), entry.key, value)
    {
      ghost var i := FindEntry(entry, value);
      ghost var s := Items();
      KeysTellApart(order);
      evicted := entry.value;
      entry.value := value;
      ItemsAre(s[i := Entry(entry.key, value)]);
    }

    /** Takes an entry, at place k of its chain, out of the chain and leaves the other chains alone. */
    method CutBucket(previous: HEntry?<V>, entry: HEntry<V>, bucket: nat, ghost k: nat)
      requires entries.Length == capacity && DistinctKeys(order) && ChainsLinked(entries, order, |order|)
      requires bucket < capacity
      requires var c := Bucketed(order, 0, |order|, capacity, bucket);
        k < |c| && entry == c[k] && previous == if k > 0 then c[k - 1] else null
      modifies entries, order`chain
      ensures var c := Bucketed(order, 0, |order|, capacity, bucket);
        ChainLinked(entries[bucket], Without(c, k))
      ensures forall b {:trigger Bucketed(order, 0, |order|, capacity, b)} :: 0 <= b < capacity && b != bucket ==>
        ChainLinked(entries[b], Bucketed(order, 0, |order|, capacity, b))
    {
      ghost var mine := Bucketed(order, 0, |order|, capacity, bucket);
      BucketedDistinct(order, 0, |order|, capacity, bucket);
      forall b | 0 <= b < capacity ensures ChainLinked(entries[b], Bucketed(order, 0, |order|, capacity, b)) {
        ChainAt(entries, order, |order|, 0, b);
      }
      CutChain(entries, bucket, mine, k, previous, entry);
      forall b | 0 <= b < capacity && b != bucket
        ensures ChainLinked(entries[b], Bucketed(order, 0, |order|, capacity, b))
      {
        ghost var c := Bucketed(order, 0, |order|, capacity, b);
        assert old(ChainLinked(entries[b], c));
        assert forall j :: 0 <= j < |c| ==> c[j] !in mine;
      }
    }

    /** Takes order[i] out of its chain: the chains are those of the order without it. */
    method Unchain(previous: HEntry?<V>, entry: HEntry<V>, ghost k: nat, ghost i: nat)
      requires entries.Length == capacity && DistinctKeys(order) && ChainsLinked(entries, order, |order|)
      requires i < |order| && order[i] == entry
      requires var c := Bucketed(order, 0, |order|, capacity, Bucket(entry.key, capacity));
        k < |c| && entry == c[k] && previous == if k > 0 then c[k - 1] else null
      modifies entries, order`chain
      ensures ChainsLinked(entries, Without(order, i), |order| - 1)
    {
      CutBucket(previous, entry, Bucket(entry.key, capacity), k);
      ChainsWithout(i, k);
    }

    lemma ChainsWithout(i: nat, k: nat)
      requires entries.Length == capacity > 0 && DistinctKeys(order) && i < |order|
      requires var bucket := Bucket(order[i].key, capacity);
        var c := Bucketed(order, 0, |order|, capacity, bucket);
        k < |c| && c[k] == order[i] && ChainLinked(entries[bucket], Without(c, k))
      requires forall b {:trigger Bucketed(order, 0, |order|, capacity, b)} ::
        0 <= b < capacity && b != Bucket(order[i].key, capacity) ==>
        ChainLinked(entries[b], Bucketed(order, 0, |order|, capacity, b))
      ensures ChainsLinked(entries, Without(order, i), |order| - 1)
    {
      forall b | 0 <= b < capacity
        ensures ChainLinked(entries[b], Bucketed(Without(order, i), 0, |order| - 1, capacity, b))
      {
        ChainWithout(i, k, b);
      }
      AllChains(entries, Without(order, i), |order| - 1, 0);
    }

    lemma ChainWithout(i: nat, k: nat, b: nat)
      requires entries.Length == capacity > 0 && DistinctKeys(order) && i < |order| && b < capacity
      requires var c := Bucketed(order, 0, |order|, capacity, b);
        if b == Bucket(order[i].key, capacity)
        then k < |c| && c[k] == order[i] && ChainLinked(entries[b], Without(c, k))
        else ChainLinked(entries[b], c)
      ensures ChainLinked(entries[b], Bucketed(Without(order, i), 0, |order| - 1, capacity, b))
    {
      BucketedWithout(order, i, capacity, b, k);
    }

    /** Takes order[i] out of the doubly linked list. */
    method Unlink(entry: HEntry<V>, ghost i: nat)
      requires DistinctRefs(order) && OrderLinked(order, head, tail) && i < |order| && order[i] == entry
      modifies this`head, this`tail, this`order, order`next, order`prev
      ensures order == Without(old(order), i) && OrderLinked(order, head, tail)
    {
      assert LinkedAt(order, i);
      if entry == head {
        head := entry.next;
      }
      if entry == tail {
        tail := entry.prev;
      }
      if entry.prev != null {
        entry.prev.next := entry.next;
      }
      if entry.next != null {
        entry.next.prev := entry.prev;
      }
      order := Without(order, i);
      forall j | 0 <= j < |order| ensures LinkedAt(order, j) {
        assert old(LinkedAt(order, if j < i then j else j + 1));
      }
    }

    /** Takes order[i], which is in no chain any more, out of the order list. */
    method Drop(entry: HEntry<V>, ghost i: nat)
      requires entries.Length == capacity && size == |order| && i < |order| && order[i] == entry
      requires DistinctRefs(order) && DistinctKeys(Without(order, i)) && OrderLinked(order, head, tail)
      requires ChainsLinked(entries, Without(order, i), |order| - 1)
      modifies this`head, this`tail, this`order, this`size, order`next, order`prev
      ensures Valid() && order == Without(old(order), i)
    {
      ghost var rest := Without(order, i);
      Unlink(entry, i);
      assert ChainsLinked(entries, rest, |rest|);
      size := size - 1;
    }

    /** Takes an entry out of both structures; what must be known of the order without it is given. */
    method Detach(previous: HEntry?<V>, entry: HEntry<V>, ghost k: nat, ghost i: nat)
      requires Valid() && i < |order| && order[i] == entry
      requires var c := Bucketed(order, 0, |order|, capacity, Bucket(entry.key, capacity));
        k < |c| && entry == c[k] && previous == if k > 0 then c[k - 1] else null
      requires DistinctRefs(order) && DistinctKeys(Without(order, i)) && entry !in Without(order, i)
      modifies this`head, this`tail, this`order, this`size, entries, order`chain, order`next, order`prev
      ensures Valid() && order == Without(old(order), i) && entry !in order
    {
      Unchain(previous, entry, k, i);
      Drop(entry, i);
    }

    /** `hashheaderremove` */
    method Remove(key: Key) returns (evicted: Ptr<V>)
      requires Valid()
      modifies Repr()
      ensures Valid() && fresh(Repr() - old(Repr()))
      ensures evicted == OrderedMap.Get(old(Items()), key)
      ensures Items() == OrderedMap.Remove(old(Items()), key)
      ensures Status() == old(Status()).(size := |Items()|)
    {
      var previous, entry, k := Locate(key);
      if entry == null {
        FindNothing(key, Null);
        return Null;
      }
      ghost var i := FindEntry(entry, Null);
      evicted := RemoveEntry(previous, entry, k, i);
    }

    method RemoveEntry(previous: HEntry?<V>, entry: HEntry<V>, ghost k: nat, ghost i: nat) returns (evicted: Ptr<V>)
      requires Valid() && i < |order| && order[i] == entry
      requires var c := Bucketed(order, 0, |order|, capacity, Bucket(entry.key, capacity));
        k < |c| && entry == c[k] && previous == if k > 0 then c[k - 1] else null
      modifies Repr()
      ensures Valid() && order == Without(old(order), i) && entries == old(entries)
      ensures capacity == old(capacity) && relinks == old(relinks)
      ensures evicted == old(entry.value) && Items() == Without(old(Items()), i)
    {
      TakeOut(previous, entry, k, i);
      evicted := entry.value;
      entry.Destroy();
    }

    /** Takes an entry out of both structures and leaves all values alone. */
    method TakeOut(previous: HEntry?<V>, entry: HEntry<V>, ghost k: nat, ghost i: nat)
      requires Valid() && i < |order| && order[i] == entry
      requires var c := Bucketed(order, 0, |order|, capacity, Bucket(entry.key, capacity));
        k < |c| && entry == c[k] && previous == if k > 0 then c[k - 1] else null
      modifies this`head, this`tail, this`order, this`size, entries, order`chain, order`next, order`prev
      ensures Valid() && order == Without(old(order), i) && entry !in order
      ensures Items() == Without(old(Items()), i)
    {
      ghost var s := Without(Items(), i);
      WithoutKeys(order, i);
      KeysTellApart(order);
      Detach(previous, entry, k, i);
      forall j | 0 <= j < |order| ensures s[j] == Entry(order[j].key, order[j].value) {
        assert order[j] == old(order)[if j < i then j else j + 1];
      }
      ItemsAre(s);
    }

    lemma ItemsAre(s: seq<Entry<V>>)
      requires |s| == |order| && forall j :: 0 <= j < |s| ==> s[j] == Entry(order[j].key, order[j].value)
      ensures Items() == s
    {
    }

    /** The first loop of `hashheaderclear`. */
    method DestroyAll()
      requires DistinctRefs(order) && OrderLinked(order, head, tail)
      modifies order
    {
      var entry := head;
      ghost var i := 0;
      forall j | 0 <= j < |order| ensures order[j].next == if j + 1 < |order| then order[j + 1] else null {
        assert LinkedAt(order, j);
      }
      while entry != null
        invariant i <= |order| && entry == if i < |order| then order[i] else null
        invariant forall j {:trigger order[j].next} :: i <= j < |order| ==>
          order[j].next == if j + 1 < |order| then order[j + 1] else null
        decreases |order| - i
      {
        var next := entry.next;
        entry.Destroy();
        entry := next;
        i := i + 1;
      }
    }

    /** `hashheaderclear` */
    method Clear()
      requires Valid()
      modifies Repr()
      ensures Valid() && Repr() <= old(Repr())
      ensures Items() == [] && Status() == old(Status()).(size := 0)
    {
      KeysTellApart(order);
      DestroyAll();
      for b := 0 to entries.Length
        modifies entries
        invariant forall c :: 0 <= c < b ==> entries[c] == null
      {
        entries[b] := null;
      }
      head := null;
      tail := null;
      size := 0;
      order := [];
      assert DistinctKeys(order) && OrderLinked(order, head, tail);
      AllChains(entries, order, 0, 0);
    }

    constructor Empty()
      ensures fresh(entries) && entries.Length == 0 && order == [] && head == null && tail == null
      ensures Status() == Load(0, 0, 0)
    {
      entries := new HEntry?<V>[0];
      head, tail, capacity, size := null, null, 0, 0;
      order, relinks := [], 0;
    }

    /** `hashheadercreate`: null if there is no memory for its header or none for its buckets. */
    static method Create(header: bool, buckets: bool) returns (m: Map?<V>)
      ensures m != null <==> header && buckets
      ensures m != null ==> fresh(m.Repr()) && m.Valid() && m.Items() == [] && m.Status() == FRESH
    {
      if !header {
        return null;
      }
      m := new Map.Empty();
      var ok := m.Resize(16, buckets);
      if !ok {
        return null;
      }
    }

    /** `hashheadermerge`: adds the entries of `other`, in their order. Where there is no memory, for the
        room the map needs to begin with or for one of the sets, the first n of them are merged;
        `other` is never changed. */
    method Merge(other: Map<V>, room: bool, memory: seq<Memory>) returns (ok: bool, ghost found: Memory, ghost n: nat)
      requires Valid() && other.Valid() && Repr() !! other.Repr()
      modifies Repr()
      ensures Valid() && fresh(Repr() - old(Repr()))
      ensures Kept(other, old(other.Items()), old(other.order)) && other.entries == old(other.entries)
      ensures ok == (found == Enough) && MergeFinds(old(Now()), old(other.Items()), room, memory, found, n)
      ensures MergeEffect(old(Now()), old(other.Items()), found, n, Now())
    {
      ghost var a, o, theirs := Now(), other.Items(), other.order;
      ok := Reserve(size + other.size, room, other, o, theirs);
      if !ok {
        found, n := NoBuckets, 0;
        NoRoom(a, o, memory);
        return;
      }
      ok, found, n := MergeAll(other, room, memory, a, o, theirs);
    }

    /** `hashheadermerge` of a map with itself: every set overwrites a value with itself. */
    method MergeSelf(room: bool, memory: seq<Memory>) returns (ok: bool)
      requires Valid()
      modifies Repr()
      ensures Valid() && fresh(Repr() - old(Repr()))
      ensures ok == (room || old(capacity) >= 2 * old(size))
      ensures Items() == old(Items()) && order == old(order)
      ensures Status() == if ok then Room(old(Status()), old(size)) else old(Status())
      ensures var found, n := if ok then Enough else NoBuckets, if ok then old(size) else 0;
        && MergeFinds(old(Now()), old(Items()), room, memory, found, n)
        && MergeEffect(old(Now()), old(Items()), found, n, Now())
    {
      ItemsDistinct();
      MergesWithItself(Now(), room, memory);
      if capacity < size + size {
        ok := Resize(size + size, room);
        if !ok {
          return false;
        }
      }
      ok := SetAll(memory);
    }

    /** The loop of it; n sets have been made. */
    method SetAll(memory: seq<Memory>) returns (ok: bool)
      requires Valid()
      modifies Repr()
      ensures ok && Valid() && Repr() == old(Repr())
      ensures Items() == old(Items()) && order == old(order) && Status() == old(Status())
    {
      var entry, n := head, 0;
      while entry != null
        invariant Valid() && Repr() == old(Repr()) && order == old(order)
        invariant Items() == old(Items()) && Status() == old(Status())
        invariant 0 <= n <= |order| && entry == if n < |order| then order[n] else null
        decreases |order| - n
      {
        ghost var i := FindEntry(entry, entry.value);
        var evicted, errno := Set(entry.key, entry.value, Supply(memory, n));
        if evicted.Null? && errno {
          return false;
        }
        assert LinkedAt(order, n);
        entry := entry.next;
        n := n + 1;
      }
      return true;
    }

    /** The part of `hashheadermerge` that makes room. */
    method Reserve(total: nat, room: bool, ghost other: Map<V>, ghost o: seq<Entry<V>>, ghost theirs: seq<HEntry<V>>)
      returns (ok: bool)
      requires Valid() && Kept(other, o, theirs) && Repr() !! other.Repr() && total == size + |o|
      modifies Repr()
      ensures Valid() && order == old(order) && fresh(Repr() - old(Repr()))
      ensures Repr() !! other.Repr() && Kept(other, o, theirs)
      ensures ok == (room || old(capacity) >= total) && Items() == old(Items())
      ensures Status() == if ok then Room(old(Status()), |o|) else old(Status())
    {
      assert forall e :: e in other.order ==> e in other.Repr();
      assert forall e :: e in order ==> e in Repr();
      assert forall e :: e in other.order ==> e !in order;
      ok := true;
      if capacity < total {
        ok := Resize(total, room);
      }
    }

    static ghost predicate Kept(other: Map<V>, items: seq<Entry<V>>, order: seq<HEntry<V>>)
      reads other, other.entries, other.order
    {
      other.Valid() && other.Items() == items && other.order == order
    }

    /** The rest, when there is room. */
    method MergeAll(other: Map<V>, ghost room: bool, memory: seq<Memory>,
                    ghost a: Moment<V>, ghost o: seq<Entry<V>>, ghost theirs: seq<HEntry<V>>)
      returns (ok: bool, ghost found: Memory, ghost n: nat)
      requires Valid() && Kept(other, o, theirs) && Repr() !! other.Repr()
      requires Now() == Moment(a.entries, Room(a.load, |o|)) && (room || a.load.capacity >= a.load.size + |o|)
      modifies Repr()
      ensures Valid() && fresh(Repr() - old(Repr())) && Kept(other, o, theirs)
      ensures ok == (found == Enough) && MergeFinds(a, o, room, memory, found, n)
      ensures MergeEffect(a, o, found, n, Now())
    {
      ItemsDistinct();
      other.ItemsDistinct();
      ghost var stages := MergeStages(Now(), o);
      ok, found, n := MergeEach(other, memory, o, theirs, stages);
      StopIsFound(stages, a, o, room, memory, found, n, Now());
      StopIsMerge(stages, a, o, memory, found, n, Now());
    }

    /** The loop of `hashheadermerge`; i sets have been made. */
    method MergeEach(other: Map<V>, memory: seq<Memory>, ghost o: seq<Entry<V>>, ghost theirs: seq<HEntry<V>>,
                     ghost stages: seq<Moment<V>>)
      returns (ok: bool, ghost found: Memory, ghost n: nat)
      requires Valid() && Kept(other, o, theirs) && Repr() !! other.Repr()
      requires Stages(stages, Now(), o)
      modifies Repr()
      ensures Valid() && fresh(Repr() - old(Repr())) && Kept(other, o, theirs)
      ensures ok == (found == Enough) && StopsAt(stages, o, memory, found, n, Now())
    {
      var entry, i := other.head, 0;
      while entry != null
        invariant Valid() && fresh(Repr() - old(Repr())) && Repr() !! other.Repr()
        invariant Kept(other, o, theirs)
        invariant 0 <= i <= |o| && entry == if i < |o| then theirs[i] else null
        invariant Now() == stages[i] && FoundBefore(stages, o, memory, i)
        decreases |o| - i
      {
        ghost var mine := Repr();
        var failed, next;
        failed, next, found, n := MergeStage(other, entry, memory, i, o, theirs, stages);
        assert fresh(Repr() - mine) && fresh(mine - old(Repr()));
        if failed {
          return false, found, n;
        }
        entry := next;
        i := i + 1;
      }
      return true, Enough, i;
    }

    /** One iteration of it, which brings the merge to its next stage or stops it. */
    method MergeStage(other: Map<V>, entry: HEntry<V>, memory: seq<Memory>, i: nat, ghost o: seq<Entry<V>>,
                      ghost theirs: seq<HEntry<V>>, ghost stages: seq<Moment<V>>)
      returns (failed: bool, next: HEntry?<V>, ghost found: Memory, ghost n: nat)
      requires Valid() && Kept(other, o, theirs) && Repr() !! other.Repr()
      requires i < |o| == |theirs| && entry == theirs[i] && |stages| == |o| + 1
      requires Stages(stages, stages[0], o) && Now() == stages[i] && FoundBefore(stages, o, memory, i)
      modifies Repr()
      ensures Valid() && fresh(Repr() - old(Repr())) && Repr() !! other.Repr()
      ensures Kept(other, o, theirs)
      ensures if failed then found != Enough && StopsAt(stages, o, memory, found, n, Now())
        else Now() == stages[i + 1] && FoundBefore(stages, o, memory, i + 1)
      ensures next == if i + 1 < |o| then theirs[i + 1] else null
    {
      failed, next := MergeOne(other, entry, Supply(memory, i), o, theirs, i);
      StageOrStop(stages, o, memory, i, Now());
      found := Finds(stages[i], o[i].key, Supply(memory, i));
      n := if found == NoEntry then i else i + 1;
    }

    /** The call of set in it, for the i-th entry of a map that shares no memory with this one. */
    method MergeOne(other: Map<V>, entry: HEntry<V>, memory: Memory,
                    ghost o: seq<Entry<V>>, ghost theirs: seq<HEntry<V>>, ghost i: nat)
      returns (failed: bool, next: HEntry?<V>)
      requires Valid() && Kept(other, o, theirs) && Repr() !! other.Repr()
      requires i < |o| == |theirs| && entry == theirs[i]
      modifies Repr()
      ensures Valid() && fresh(Repr() - old(Repr())) && Repr() !! other.Repr()
      ensures Kept(other, o, theirs)
      ensures failed == (Finds(old(Now()), o[i].key, memory) != Enough)
      ensures SetEffect(old(Now()), o[i].key, o[i].value, Finds(old(Now()), o[i].key, memory), Now())
      ensures next == if i + 1 < |o| then theirs[i + 1] else null
    {
      var evicted, errno := Set(entry.key, entry.value, memory);
      failed := evicted.Null? && errno;
      assert LinkedAt(other.order, i);
      next := entry.next;
    }

    /** The merge of a clone with its original. */
    method CopyTo(clone: Map<V>, room: bool, memory: seq<Memory>) returns (ok: bool)
      requires Valid() && clone.Valid() && clone.Repr() !! Repr() && clone.Now() == Moment([], FRESH)
      modifies clone.Repr()
      ensures clone.Valid() && fresh(clone.Repr() - old(clone.Repr()))
      ensures Items() == old(Items())
      ensures ok <==> MergeFinds(Moment([], FRESH), Items(), room, memory, Enough, |Items()|)
      ensures ok ==> clone.Items() == Items() && Roomy(clone.Status())
    {
      ghost var found, n, s, k := Enough, 0, Items(), |NewKeys([], Items())|;
      ItemsDistinct();
      MergeIntoEmpty(s);
      MergeStaysRoomy(FRESH, |s|, k);
      ok, found, n := clone.Merge(this, room, memory);
      assert s[..|s|] == s;
      OneFinding(Moment([], FRESH), s, room, memory, found, n);
    }

    /** `hashheaderclone`: null exactly if some allocation failed. */
    method Clone(header: bool, buckets: bool, room: bool, memory: seq<Memory>) returns (clone: Map?<V>)
      requires Valid()
      ensures clone != null <==>
        header && buckets && MergeFinds(Moment([], FRESH), Items(), room, memory, Enough, |Items()|)
      ensures clone != null ==>
        fresh(clone.Repr()) && clone.Valid() && clone.Items() == Items() && Roomy(clone.Status())
    {
      clone := Create(header, buckets);
      if clone == null {
        return null;
      }
      var ok := CopyTo(clone, room, memory);
      if !ok {
        return null;
      }
    }
  }

  /** The iterator of `hashheaderiterator` and `hashheadernext_entry`. */
  class Cursor<V> {
    var index: nat
    var iterable: HEntry?<V>
    var current: HEntry?<V>
    ghost const order: seq<HEntry<V>>
    /** How many entries have been yielded, and whether the end has been reported. */
    ghost var yielded: nat
    ghost var ended: bool

    ghost predicate Valid()
      reads this
    {
      && yielded <= |order| && (ended ==> yielded == |order|)
      && iterable == (if yielded < |order| then order[yielded] else null)
      && current == (if ended || yielded == 0 then null else order[yielded - 1])
      && index == if yielded == 0 then 0 else yielded - 1
    }

    constructor (m: Map<V>)
      requires m.Valid()
      ensures Valid() && order == m.order && yielded == 0 && !ended
    {
      index := 0;
      iterable := m.head;
      current := null;
      order := m.order;
      yielded, ended := 0, false;
    }

    /** Yields order[k] with index k on call k, then null for ever. */
    method Next() returns (e: HEntry?<V>)
      requires Valid() && forall i {:trigger LinkedAt(order, i)} :: 0 <= i < |order| ==> LinkedAt(order, i)
      modifies this
      ensures Valid() && e == current
      ensures if old(yielded) < |order| then
          e == order[old(yielded)] && index == old(yielded) && yielded == old(yielded) + 1 && !ended
        else e == null && yielded == old(yielded) && ended && index == old(index)
    {
      var entry := iterable;
      var first := current == null && index == 0;
      if entry != null {
        assert LinkedAt(order, yielded);
        iterable := entry.next;
        current := entry;
        if !first {
          index := index + 1;
        }
        yielded := yielded + 1;
      } else {
        current := null;
        ended := true;
      }
      return current;
    }
  }

  /** The loop of the documentation: every entry once, in insertion order, with its position. */
  method Traverse<V>(m: Map<V>) returns (visited: seq<(nat, Entry<V>)>)
    requires m.Valid()
    ensures |visited| == |m.Items()|
    ensures forall i :: 0 <= i < |visited| ==> visited[i] == (i, m.Items()[i])
  {
    visited := [];
    var cursor := new Cursor(m);
    var entry := cursor.Next();
    while entry != null
      invariant cursor.Valid() && cursor.order == m.order && fresh(cursor)
      invariant entry == cursor.current && (entry == null <==> cursor.ended)
      invariant entry != null ==> cursor.index == |visited|
      invariant cursor.yielded == if entry == null then |visited| else |visited| + 1
      invariant forall i :: 0 <= i < |visited| ==> visited[i] == (i, m.Items()[i])
      decreases !cursor.ended, |m.order| - |visited|
    {
      visited := visited + [(cursor.index, Entry(entry.key, entry.value))];
      entry := cursor.Next();
    }
  }
}

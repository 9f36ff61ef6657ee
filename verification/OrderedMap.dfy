/** Insertion-ordered maps as sequences of entries: what the hash map is proved to implement. */
module OrderedMap {
  import opened CTypes

  type Key = U32

  datatype Entry<+V> = Entry(key: Key, value: Ptr<V>)

  /** Keys are distinct. */
  ghost predicate Distinct<V>(s: seq<Entry<V>>) {
    forall i, j :: 0 <= i < j < |s| ==> s[i].key != s[j].key
  }

  /** The position of the key, or |s|. */
  function Find<V>(s: seq<Entry<V>>, k: Key): (i: nat)
    ensures i <= |s|
    ensures i < |s| ==> s[i].key == k
    ensures forall j :: 0 <= j < i ==> s[j].key != k
  {
    FindFrom(s, k, 0)
  }

  function FindFrom<V>(s: seq<Entry<V>>, k: Key, m: nat): (i: nat)
    requires m <= |s|
    ensures m <= i <= |s|
    ensures i < |s| ==> s[i].key == k
    ensures forall j :: m <= j < i ==> s[j].key != k
    decreases |s| - m
  {
    if m == |s| || s[m].key == k then m else FindFrom(s, k, m + 1)
  }

  /** The operations scan from index m; each is used with m = 0. */
  function GetFrom<V>(s: seq<Entry<V>>, k: Key, m: nat): Ptr<V>
    requires m <= |s|
    decreases |s| - m
  {
    if m == |s| then Null else if s[m].key == k then s[m].value else GetFrom(s, k, m + 1)
  }

  function HasFrom<V>(s: seq<Entry<V>>, k: Key, m: nat): bool
    requires m <= |s|
    decreases |s| - m
  {
    m < |s| && (s[m].key == k || HasFrom(s, k, m + 1))
  }

  function SetFrom<V>(s: seq<Entry<V>>, k: Key, v: Ptr<V>, m: nat): seq<Entry<V>>
    requires m <= |s|
    decreases |s| - m
  {
    if m == |s| then s + [Entry(k, v)]
    else if s[m].key == k then s[m := Entry(k, v)]
    else SetFrom(s, k, v, m + 1)
  }

  function RemoveFrom<V>(s: seq<Entry<V>>, k: Key, m: nat): seq<Entry<V>>
    requires m <= |s|
    decreases |s| - m
  {
    if m == |s| then s
    else if s[m].key == k then s[..m] + s[m + 1..]
    else RemoveFrom(s, k, m + 1)
  }

  function Get<V>(s: seq<Entry<V>>, k: Key): Ptr<V> {
    GetFrom(s, k, 0)
  }

  predicate Has<V>(s: seq<Entry<V>>, k: Key) {
    HasFrom(s, k, 0)
  }

  /** A new key goes last, a known one keeps its place. */
  function Set<V>(s: seq<Entry<V>>, k: Key, v: Ptr<V>): seq<Entry<V>> {
    SetFrom(s, k, v, 0)
  }

  function Remove<V>(s: seq<Entry<V>>, k: Key): seq<Entry<V>> {
    RemoveFrom(s, k, 0)
  }

  lemma {:induction false} ScansStopAtFind<V>(s: seq<Entry<V>>, k: Key, v: Ptr<V>, m: nat)
    requires m <= |s|
    ensures var i := FindFrom(s, k, m);
      && HasFrom(s, k, m) == (i < |s|)
      && GetFrom(s, k, m) == (if i < |s| then s[i].value else Null)
      && SetFrom(s, k, v, m) == (if i < |s| then s[i := Entry(k, v)] else s + [Entry(k, v)])
      && RemoveFrom(s, k, m) == (if i < |s| then s[..i] + s[i + 1..] else s)
    decreases |s| - m
  {
    if m < |s| && s[m].key != k {
      ScansStopAtFind(s, k, v, m + 1);
    }
  }

  function Merge<V>(s: seq<Entry<V>>, other: seq<Entry<V>>): seq<Entry<V>>
    decreases |other|
  {
    if other == [] then s
    else
      var last := other[|other| - 1];
      Set(Merge(s, other[..|other| - 1]), last.key, last.value)
  }

  // ---------------------------------------------------------------- meaning as a map

  function Keys<V>(s: seq<Entry<V>>): seq<Key> {
    seq(|s|, i requires 0 <= i < |s| => s[i].key)
  }

  /** All four operations where the key is stored. */
  lemma Holds<V>(s: seq<Entry<V>>, i: nat, v: Ptr<V>)
    requires Distinct(s) && i < |s|
    ensures var k := s[i].key;
      && Has(s, k) && Find(s, k) == i && Get(s, k) == s[i].value
      && Set(s, k, v) == s[i := Entry(k, v)] && Remove(s, k) == s[..i] + s[i + 1..]
  {
    ScansStopAtFind(s, s[i].key, v, 0);
  }

  /** All four operations where it is not. */
  lemma Lacks<V>(s: seq<Entry<V>>, k: Key, v: Ptr<V>)
    requires forall i :: 0 <= i < |s| ==> s[i].key != k
    ensures !Has(s, k) && Get(s, k) == Null && Set(s, k, v) == s + [Entry(k, v)] && Remove(s, k) == s
  {
    ScansStopAtFind(s, k, v, 0);
  }

  /** Two maps with the same entry, or none, for the key. */
  lemma Agree<V>(s: seq<Entry<V>>, t: seq<Entry<V>>, k: Key)
    requires Distinct(s) && Distinct(t)
    requires forall i :: 0 <= i < |s| && s[i].key == k ==> s[i] in t
    requires forall i :: 0 <= i < |t| && t[i].key == k ==> t[i] in s
    ensures Has(t, k) == Has(s, k) && Get(t, k) == Get(s, k)
  {
    if i: nat :| i < |s| && s[i].key == k {
      var j :| 0 <= j < |t| && t[j] == s[i];
      Holds(s, i, Null);
      Holds(t, j, Null);
    } else {
      Lacks(s, k, Null);
      Lacks(t, k, Null);
    }
  }

  lemma SetKeeps<V>(s: seq<Entry<V>>, k: Key, v: Ptr<V>)
    requires Distinct(s)
    ensures var t, i := Set(s, k, v), Find(s, k);
      && Distinct(t) && i < |t| && t[i] == Entry(k, v) && Keys(t) == (if Has(s, k) then Keys(s) else Keys(s) + [k])
      && (forall j :: 0 <= j < |s| && j != i ==> j < |t| && t[j] == s[j])
      && forall j :: 0 <= j < |t| && j != i ==> j < |s| && s[j] == t[j]
  {
    ScansStopAtFind(s, k, v, 0);
  }

  /** Setting a key changes that key only, keeps keys distinct and keeps an old key's place; a new
      key goes last. */
  lemma SetMeans<V>(s: seq<Entry<V>>, k: Key, v: Ptr<V>, other: Key)
    requires Distinct(s)
    ensures var t := Set(s, k, v);
      && Distinct(t) && Keys(t) == (if Has(s, k) then Keys(s) else Keys(s) + [k])
      && Has(t, k) && Get(t, k) == v
      && (other != k ==> Has(t, other) == Has(s, other) && Get(t, other) == Get(s, other))
  {
    SetKeeps(s, k, v);
    Holds(Set(s, k, v), Find(s, k), v);
    if other != k {
      Agree(s, Set(s, k, v), other);
    }
  }

  /** Removing a key removes that key only and keeps the others in order. */
  lemma RemoveMeans<V>(s: seq<Entry<V>>, k: Key, other: Key)
    requires Distinct(s)
    ensures var t, i := Remove(s, k), Find(s, k);
      && Distinct(t) && !Has(t, k)
      && Keys(t) == (if i < |s| then Keys(s)[..i] + Keys(s)[i + 1..] else Keys(s))
      && (other != k ==> Has(t, other) == Has(s, other) && Get(t, other) == Get(s, other))
  {
    var i := Find(s, k);
    ScansStopAtFind(s, k, Null, 0);
    if i < |s| {
      var t := Remove(s, k);
      RemoveAt(s, i);
      Lacks(t, k, Null);
      if other != k {
        Agree(s, t, other);
      }
    }
  }

  lemma RemoveAt<V>(s: seq<Entry<V>>, i: nat)
    requires Distinct(s) && i < |s|
    ensures var t := s[..i] + s[i + 1..];
      && Distinct(t) && Keys(t) == Keys(s)[..i] + Keys(s)[i + 1..]
      && (forall j :: 0 <= j < |t| ==> t[j] in s && t[j].key != s[i].key)
      && forall j :: 0 <= j < |s| && j != i ==> s[j] in t
  {
    var t := s[..i] + s[i + 1..];
    forall j | 0 <= j < |s| && j != i ensures s[j] in t {
      assert s[j] == t[if j < i then j else j - 1];
    }
  }

  /** The keys of `other` that s does not have. */
  function NewKeys<V>(s: seq<Entry<V>>, other: seq<Entry<V>>): seq<Key>
    decreases |other|
  {
    if other == [] then []
    else
      var last := other[|other| - 1];
      NewKeys(s, other[..|other| - 1]) + if Has(s, last.key) then [] else [last.key]
  }

  lemma AppendMeans<V>(rest: seq<Entry<V>>, last: Entry<V>)
    requires Distinct(rest + [last])
    ensures Distinct(rest) && Set(rest, last.key, last.value) == rest + [last] && !Has(rest, last.key)
  {
    var s := rest + [last];
    assert forall i :: 0 <= i < |rest| ==> s[i] == rest[i] && s[i].key != s[|rest|].key;
    Lacks(rest, last.key, last.value);
  }

  /** The new keys follow the old ones, in the order of `other`. */
  lemma {:induction false} MergeKeys<V>(s: seq<Entry<V>>, other: seq<Entry<V>>)
    requires Distinct(s) && Distinct(other)
    ensures Distinct(Merge(s, other)) && Keys(Merge(s, other)) == Keys(s) + NewKeys(s, other)
    decreases |other|
  {
    if other != [] {
      var rest, last := other[..|other| - 1], other[|other| - 1];
      assert other == rest + [last];
      AppendMeans(rest, last);
      MergeKeys(s, rest);
      MergeMeans(s, rest, last.key);
      SetKeeps(Merge(s, rest), last.key, last.value);
    }
  }

  /** Merging is the union in which `other` wins. */
  lemma {:induction false} MergeMeans<V>(s: seq<Entry<V>>, other: seq<Entry<V>>, k: Key)
    requires Distinct(s) && Distinct(other)
    ensures Distinct(Merge(s, other))
    ensures Has(Merge(s, other), k) <==> Has(s, k) || Has(other, k)
    ensures Get(Merge(s, other), k) == if Has(other, k) then Get(other, k) else Get(s, k)
    decreases |other|
  {
    if other != [] {
      var rest, last := other[..|other| - 1], other[|other| - 1];
      assert other == rest + [last];
      AppendMeans(rest, last);
      MergeMeans(s, rest, k);
      SetMeans(Merge(s, rest), last.key, last.value, k);
      SetMeans(rest, last.key, last.value, k);
    }
  }

  lemma {:induction false} MergeIntoEmpty<V>(other: seq<Entry<V>>)
    requires Distinct(other)
    ensures Merge([], other) == other
    decreases |other|
  {
    if other != [] {
      var rest, last := other[..|other| - 1], other[|other| - 1];
      MergeIntoEmpty(rest);
      assert other == rest + [last];
      AppendMeans(rest, last);
    }
  }

  /** Merging a map with itself changes nothing, at any stage. */
  lemma {:induction false} MergeWithItself<V>(s: seq<Entry<V>>, n: nat)
    requires Distinct(s) && n <= |s|
    ensures Merge(s, s[..n]) == s
    decreases n
  {
    if n > 0 {
      MergeWithItself(s, n - 1);
      assert s[..n][..n - 1] == s[..n - 1];
      Holds(s, n - 1, s[n - 1].value);
    }
  }

  lemma MissingIsNull<V>(s: seq<Entry<V>>, k: Key)
    ensures !Has(s, k) ==> Get(s, k) == Null
  {
    ScansStopAtFind(s, k, Null, 0);
  }

  // ---------------------------------------------------------------- runs

  datatype Op<+V> = SetOp(key: Key, value: Ptr<V>) | RemoveOp(key: Key) | ClearOp

  function Apply<V>(s: seq<Entry<V>>, op: Op<V>): seq<Entry<V>> {
    match op
    case SetOp(k, v) => Set(s, k, v)
    case RemoveOp(k) => Remove(s, k)
    case ClearOp => []
  }

  function ApplyAll<V>(ops: seq<Op<V>>): seq<Entry<V>> {
    if ops == [] then [] else Apply(ApplyAll(ops[..|ops| - 1]), ops[|ops| - 1])
  }

  /** What a lookup must give: the value of the last set of the key that no later remove of the
      key and no later clear has undone. */
  function LastSet<V>(ops: seq<Op<V>>, k: Key): (bool, Ptr<V>) {
    if ops == [] then (false, Null)
    else
      match ops[|ops| - 1]
      case ClearOp => (false, Null)
      case SetOp(k', v) => if k' == k then (true, v) else LastSet(ops[..|ops| - 1], k)
      case RemoveOp(k') => if k' == k then (false, Null) else LastSet(ops[..|ops| - 1], k)
  }

  lemma {:induction false} RunsAreMaps<V>(ops: seq<Op<V>>, k: Key)
    ensures var s := ApplyAll(ops); Distinct(s) && (Has(s, k), Get(s, k)) == LastSet(ops, k)
    decreases |ops|
  {
    if ops != [] {
      var rest, op := ops[..|ops| - 1], ops[|ops| - 1];
      RunsAreMaps(rest, k);
      match op
      case ClearOp =>
      case SetOp(k', v) => SetMeans(ApplyAll(rest), k', v, k);
      case RemoveOp(k') =>
        RemoveMeans(ApplyAll(rest), k', k);
        MissingIsNull(ApplyAll(ops), k);
    }
  }

  // ---------------------------------------------------------------- load and cost

  /** Entries, buckets, and the number of entries relinked by all resizes so far. */
  datatype Load = Load(size: nat, capacity: nat, relinks: nat)

  const FRESH := Load(0, 16, 0)

  /** The load factor is above .75. */
  predicate Crowded(l: Load) {
    4 * l.size > 3 * l.capacity
  }

  predicate Roomy(l: Load) {
    l.capacity >= 16 && !Crowded(l)
  }

  function Resized(l: Load, capacity: nat): Load {
    Load(l.size, capacity, l.relinks + l.size)
  }

  /** A new entry; `memory` tells whether a resize, if one is due, gets its buckets. */
  function Insert(l: Load, memory: bool): Load {
    var l' := l.(size := l.size + 1);
    if Crowded(l') && memory then Resized(l', l.capacity * 2) else l'
  }

  datatype LoadOp = InsertNew(memory: bool) | Overwrite | RemoveOld | RemoveMissing | ClearAll

  function Cost(l: Load, op: LoadOp): Load {
    match op
    case InsertNew(memory) => Insert(l, memory)
    case Overwrite => l
    case RemoveOld => l.(size := if l.size > 0 then l.size - 1 else 0)
    case RemoveMissing => l
    case ClearAll => l.(size := 0)
  }

  function CostAll(l: Load, ops: seq<LoadOp>): Load {
    if ops == [] then l else Cost(CostAll(l, ops[..|ops| - 1]), ops[|ops| - 1])
  }

  function Sets(ops: seq<LoadOp>): nat {
    if ops == [] then 0
    else Sets(ops[..|ops| - 1]) + if ops[|ops| - 1].InsertNew? || ops[|ops| - 1].Overwrite? then 1 else 0
  }

  /** Four times the potential max(0, 2 size - 3/4 capacity). */
  function Potential4(l: Load): nat {
    if 8 * l.size > 3 * l.capacity then 8 * l.size - 3 * l.capacity else 0
  }

  /** The next operation inserts a key for which a resize is due. */
  predicate Due(l: Load, op: LoadOp) {
    op.InsertNew? && Crowded(l.(size := l.size + 1))
  }

  /** How many resizes got their memory. */
  function Resizes(ops: seq<LoadOp>): nat {
    if ops == [] then 0
    else
      var rest, op := ops[..|ops| - 1], ops[|ops| - 1];
      Resizes(rest) + if Due(CostAll(FRESH, rest), op) && op.memory then 1 else 0
  }

  /** How many did not. */
  function Failures(ops: seq<LoadOp>): nat {
    if ops == [] then 0
    else
      var rest, op := ops[..|ops| - 1], ops[|ops| - 1];
      Failures(rest) + if Due(CostAll(FRESH, rest), op) && !op.memory then 1 else 0
  }

  function Doubled(n: nat): nat {
    if n == 0 then 16 else 2 * Doubled(n - 1)
  }

  /** The books after n sets, with f failed and r successful resizes and e == f r. */
  predicate Balanced(l: Load, n: nat, f: nat, r: nat, e: nat) {
    && l.capacity == Doubled(r) && l.size <= n
    && (r > 0 ==> 3 * l.capacity < 8 * n)
    && 4 * l.size <= 3 * l.capacity + 4 * f
    && 4 * l.relinks + Potential4(l) <= 12 * n + 4 * e
    && 4 * l.relinks + 48 <= 3 * l.capacity + 4 * r + 4 * e
  }

  /** What an operation does to the books. */
  lemma CostBalances(l: Load, op: LoadOp, n: nat, f: nat, r: nat, e: nat)
    requires Balanced(l, n, f, r, e)
    ensures var n' := if op.InsertNew? || op.Overwrite? then n + 1 else n;
      if !Due(l, op) then Balanced(Cost(l, op), n', f, r, e)
      else if op.memory then Balanced(Cost(l, op), n', f, r + 1, e + f)
      else Balanced(Cost(l, op), n', f + 1, r, e + r)
  {
    DoubledFrom(r);
  }

  /** The product of both numbers, summed up along the run. */
  function Extra(ops: seq<LoadOp>): nat {
    if ops == [] then 0
    else
      var rest, op := ops[..|ops| - 1], ops[|ops| - 1];
      Extra(rest) + if !Due(CostAll(FRESH, rest), op) then 0 else if op.memory then Failures(rest) else Resizes(rest)
  }

  lemma Products(f: nat, r: nat)
    ensures (f + 1) * r == f * r + r && f * (r + 1) == f * r + f
  {
  }

  lemma {:induction false} ExtraIsProduct(ops: seq<LoadOp>)
    ensures Extra(ops) == Failures(ops) * Resizes(ops)
    ensures Failures(ops) == 0 || Resizes(ops) == 0 ==> Extra(ops) == 0
    decreases |ops|
  {
    if ops != [] {
      var rest := ops[..|ops| - 1];
      ExtraIsProduct(rest);
      Products(Failures(rest), Resizes(rest));
    }
  }

  lemma {:induction false} StaysBalanced(ops: seq<LoadOp>)
    ensures Balanced(CostAll(FRESH, ops), Sets(ops), Failures(ops), Resizes(ops), Extra(ops))
    decreases |ops|
  {
    if ops != [] {
      var rest, op := ops[..|ops| - 1], ops[|ops| - 1];
      StaysBalanced(rest);
      CostBalances(CostAll(FRESH, rest), op, Sets(rest), Failures(rest), Resizes(rest), Extra(rest));
    }
  }

  lemma {:induction false} DoubledFrom(r: nat)
    ensures Doubled(r) >= 16
    ensures r >= 4 ==> Doubled(r) >= 256 && 204 * r <= 3 * Doubled(r) + 50
  {
    if r > 4 {
      DoubledFrom(r - 1);
    } else {
      assert Doubled(2) == 64;
    }
  }

  lemma BalancedMeans(l: Load, n: nat, f: nat, r: nat, e: nat)
    requires Balanced(l, n, f, r, e) && (r == 0 ==> e == 0)
    ensures l.relinks <= 3 * n + e && l.capacity == Doubled(r) >= 16 && (r > 0 ==> 3 * Doubled(r) < 8 * n)
    ensures if r == 0 then l.relinks == 0 else l.relinks + 12 < 2 * n + r + e
    ensures f == 0 ==> Roomy(l)
  {
    DoubledFrom(r);
  }

  /** However sets, overwrites, removes and clears are mixed and whichever resizes fail: the first
      of r successful resizes relinks something, all of them, with f failed ones and n sets, fewer
      than 2n + r + f r - 12 entries, and r is at most logarithmic in n. That is at most 3n when
      (f + 1) r <= n + 12. When no resize fails, the load stays at or below .75. */
  lemma RelinksAreAmortized(ops: seq<LoadOp>)
    ensures var l, n, f, r := CostAll(FRESH, ops), Sets(ops), Failures(ops), Resizes(ops);
      && (if r == 0 then l.relinks == 0 else l.relinks + 12 < 2 * n + r + f * r)
      && (r + f * r <= n + 12 ==> l.relinks <= 3 * n)
      && l.relinks <= 3 * n + f * r
      && l.capacity == Doubled(r) >= 16 && (r > 0 ==> 3 * Doubled(r) < 8 * n)
      && (f == 0 ==> Roomy(l))
  {
    var e := Extra(ops);
    assert e == Failures(ops) * Resizes(ops) && (Resizes(ops) == 0 ==> e == 0) by {
      ExtraIsProduct(ops);
    }
    StaysBalanced(ops);
    BalancedMeans(CostAll(FRESH, ops), Sets(ops), Failures(ops), Resizes(ops), e);
  }

  // ---------------------------------------------------------------- how many failures three per set survive

  /** The most failures with which three relinked entries per set still suffice. */
  const SPARE := 50

  /** The books of a run with at most 50 failures. Until the third resize they foresee what the
      failures that are left may cost: each lets the map grow by one more entry before a resize. */
  predicate Lean(l: Load, n: nat, f: nat, r: nat)
    requires f <= SPARE
  {
    var left := SPARE - f;
    if r == 0 then l.relinks == 0 && l.size + left <= 62
    else if r == 1 then
      && l.relinks <= n && l.relinks + left <= 120 && l.relinks + 2 * left <= 143
      && l.relinks + l.size + left <= 144 && l.relinks + 2 * (l.size + left) <= 191
    else if r == 2 then
      l.relinks <= 2 * n && l.relinks + left <= 145 && l.relinks + l.size + left <= 193
    else if r == 3 then l.relinks <= 3 * n && l.relinks <= 194
    else l.relinks <= 3 * n
  }

  // The arithmetic of one resize, when s entries are in the map before the insert.

  lemma FirstResize(s: nat, n: nat, f: nat)
    requires f <= SPARE && s + (SPARE - f) <= 62 && s <= n
    ensures Lean(Load(s + 1, 32, s + 1), n + 1, f, 1)
  {
  }

  lemma LaterResize(relinks: nat, s: nat, n: nat, r: nat, c: nat, e: nat)
    requires r >= 4 && s <= n && c == Doubled(r) && 4 * (s + 1) > 3 * c
    requires 4 * relinks + 48 <= 3 * c + 4 * r + 4 * e && e <= SPARE * r
    ensures relinks + s + 1 <= 3 * (n + 1)
  {
    DoubledFrom(r);
  }

  lemma FourthResize(relinks: nat, s: nat, n: nat, c: nat)
    requires s <= n && c == Doubled(3) && 4 * (s + 1) > 3 * c && relinks <= 194
    ensures relinks + s + 1 <= 3 * (n + 1)
  {
    assert Doubled(1) == 32;
  }

  lemma ResizeKeepsLean(l: Load, n: nat, f: nat, r: nat, e: nat)
    requires f <= SPARE && Balanced(l, n, f, r, e) && e <= SPARE * r && Lean(l, n, f, r)
    requires Due(l, InsertNew(true))
    ensures Lean(Insert(l, true), n + 1, f, r + 1)
  {
    if r == 0 {
      FirstResize(l.size, n, f);
    } else if r == 3 {
      FourthResize(l.relinks, l.size, n, l.capacity);
    } else if r >= 4 {
      LaterResize(l.relinks, l.size, n, r, l.capacity, e);
    }
  }

  lemma CostKeepsLean(l: Load, op: LoadOp, n: nat, f: nat, r: nat)
    requires f <= SPARE && l.size <= n && l.capacity == Doubled(r) && Lean(l, n, f, r)
    ensures var n' := if op.InsertNew? || op.Overwrite? then n + 1 else n;
      if !Due(l, op) then Lean(Cost(l, op), n', f, r)
      else !op.memory && f < SPARE ==> Lean(Cost(l, op), n', f + 1, r)
  {
    if 1 <= r <= 2 {
      assert Doubled(0) == 16;
    }
  }

  /** Both, for a run with at most 50 failures so far and after the operation. */
  lemma StepKeepsLean(l: Load, op: LoadOp, n: nat, f: nat, r: nat, e: nat)
    requires f <= SPARE && Balanced(l, n, f, r, e) && e <= SPARE * r && Lean(l, n, f, r)
    ensures var n' := if op.InsertNew? || op.Overwrite? then n + 1 else n;
      var f', r' := if Due(l, op) && !op.memory then f + 1 else f, if Due(l, op) && op.memory then r + 1 else r;
      f' <= SPARE ==> Lean(Cost(l, op), n', f', r')
  {
    if Due(l, op) && op.memory {
      ResizeKeepsLean(l, n, f, r, e);
    } else {
      CostKeepsLean(l, op, n, f, r);
    }
  }

  lemma ExtraBound(ops: seq<LoadOp>)
    requires Failures(ops) <= SPARE
    ensures Extra(ops) <= SPARE * Resizes(ops)
  {
    ExtraIsProduct(ops);
    TimesMonotone(Failures(ops), SPARE, Resizes(ops));
  }

  lemma TimesMonotone(f: nat, g: nat, r: nat)
    requires f <= g
    ensures f * r <= g * r
  {
  }

  lemma CostOne(l: Load, ops: seq<LoadOp>, op: LoadOp)
    ensures CostAll(l, ops + [op]) == Cost(CostAll(l, ops), op)
    ensures Sets(ops + [op]) == Sets(ops) + if op.InsertNew? || op.Overwrite? then 1 else 0
    ensures Resizes(ops + [op]) == Resizes(ops) + if Due(CostAll(FRESH, ops), op) && op.memory then 1 else 0
    ensures Failures(ops + [op]) == Failures(ops) + if Due(CostAll(FRESH, ops), op) && !op.memory then 1 else 0
  {
    assert (ops + [op])[..|ops|] == ops;
  }

  /** The figures of a run: load, sets, failures, resizes. */
  predicate Figures(ops: seq<LoadOp>, l: Load, n: nat, f: nat, r: nat) {
    l == CostAll(FRESH, ops) && n == Sets(ops) && f == Failures(ops) && r == Resizes(ops)
  }

  lemma FiguresOfMore(ops: seq<LoadOp>, op: LoadOp, l: Load, n: nat, f: nat, r: nat)
    requires Figures(ops, l, n, f, r)
    ensures Figures(ops + [op], Cost(l, op), if op.InsertNew? || op.Overwrite? then n + 1 else n,
                    if Due(l, op) && !op.memory then f + 1 else f, if Due(l, op) && op.memory then r + 1 else r)
  {
    CostOne(FRESH, ops, op);
  }

  lemma {:induction false} StaysLean(ops: seq<LoadOp>, l: Load, n: nat, f: nat, r: nat)
    requires Figures(ops, l, n, f, r) && f <= SPARE
    ensures Lean(l, n, f, r)
    decreases |ops|
  {
    if ops != [] {
      var rest, op := ops[..|ops| - 1], ops[|ops| - 1];
      var l0, n0, f0, r0 := CostAll(FRESH, rest), Sets(rest), Failures(rest), Resizes(rest);
      FiguresOfMore(rest, op, l0, n0, f0, r0);
      assert ops == rest + [op];
      StaysLean(rest, l0, n0, f0, r0);
      StaysBalanced(rest);
      ExtraBound(rest);
      StepKeepsLean(l0, op, n0, f0, r0, Extra(rest));
    }
  }

  /** Three relinked entries per set suffice in every run with at most 50 failed resizes. */
  lemma ThreeSuffice(ops: seq<LoadOp>)
    requires Failures(ops) <= SPARE
    ensures CostAll(FRESH, ops).relinks <= 3 * Sets(ops)
  {
    StaysLean(ops, CostAll(FRESH, ops), Sets(ops), Failures(ops), Resizes(ops));
  }

  // ---------------------------------------------------------------- what set and merge do

  datatype Moment<+V> = Moment(entries: seq<Entry<V>>, load: Load)

  /** What there is for a call that asks for memory: enough, nothing for a new entry, or nothing for
      the buckets of a resize. */
  datatype Memory = Enough | NoEntry | NoBuckets

  /** What a set finds where there is `memory`. A known key asks for none, a new one asks for buckets
      only if a resize is due. */
  function Finds<V>(a: Moment<V>, key: Key, memory: Memory): Memory {
    if Has(a.entries, key) then Enough else FindsNew(a.load, memory)
  }

  function FindsNew(l: Load, memory: Memory): Memory {
    if memory == NoBuckets && !Due(l, InsertNew(true)) then Enough else memory
  }

  /** What a set does that found `found`. A new key is stored also when only the resize that it makes
      due found no memory. */
  ghost predicate SetEffect<V>(a: Moment<V>, key: Key, value: Ptr<V>, found: Memory, b: Moment<V>) {
    if Has(a.entries, key) then found == Enough && b == Moment(Set(a.entries, key, value), a.load)
    else
      match found
      case Enough => b == Moment(Set(a.entries, key, value), Insert(a.load, true))
      case NoEntry => b == a
      case NoBuckets => b == Moment(Set(a.entries, key, value), Insert(a.load, false)) && Crowded(b.load)
  }

  /** A set reports an error if and only if the key is new and there is no memory for its entry, or
      none for the resize that the entry makes due. The value is there afterwards unless there was no
      memory for an entry. With enough memory the buckets double exactly when more than three
      quarters of them would be taken, and then at most three quarters are. */
  lemma SetWithMemory<V>(a: Moment<V>, key: Key, value: Ptr<V>, memory: Memory, b: Moment<V>)
    requires Distinct(a.entries) && SetEffect(a, key, value, Finds(a, key, memory), b)
    ensures var added, due := !Has(a.entries, key), 4 * (a.load.size + 1) > 3 * a.load.capacity;
      && (Finds(a, key, memory) != Enough <==> added && (memory == NoEntry || (memory == NoBuckets && due)))
      && (if added && memory == NoEntry then b == a else Has(b.entries, key) && Get(b.entries, key) == value)
      && b.load.capacity == if added && memory == Enough && due then 2 * a.load.capacity else a.load.capacity
    ensures memory == Enough && a.load.capacity >= 2 && 4 * a.load.size <= 3 * a.load.capacity ==>
      4 * b.load.size <= 3 * b.load.capacity
  {
    SetMeans(a.entries, key, value, key);
  }

  /** That a set which reports an error has stored nothing holds, whatever memory there is, if and
      only if the key is known or no resize is due. */
  lemma ErrorMeansUnchanged<V>(a: Moment<V>, key: Key, value: Ptr<V>)
    ensures (forall memory, b ::
               SetEffect(a, key, value, Finds(a, key, memory), b) && Finds(a, key, memory) != Enough ==>
               b.entries == a.entries)
      <==> Has(a.entries, key) || !Due(a.load, InsertNew(false))
  {
    if !Has(a.entries, key) && Due(a.load, InsertNew(false)) {
      ScansStopAtFind(a.entries, key, value, 0);
      var b := Moment(Set(a.entries, key, value), Insert(a.load, false));
      assert Finds(a, key, NoBuckets) == NoBuckets;
      assert SetEffect(a, key, value, Finds(a, key, NoBuckets), b) && |b.entries| == |a.entries| + 1;
    }
  }

  /** The moments of a merge that finds all the memory it needs, one entry after the other. */
  ghost predicate StageAt<V>(stages: seq<Moment<V>>, other: seq<Entry<V>>, i: nat)
    requires |stages| == |other| + 1 && i < |other|
  {
    SetEffect(stages[i], other[i].key, other[i].value, Enough, stages[i + 1])
  }

  ghost predicate Stages<V>(stages: seq<Moment<V>>, a: Moment<V>, other: seq<Entry<V>>) {
    && |stages| == |other| + 1 && stages[0] == a
    && forall i {:trigger StageAt(stages, other, i)} :: 0 <= i < |other| ==> StageAt(stages, other, i)
  }

  lemma {:induction false} MergeStages<V>(a: Moment<V>, other: seq<Entry<V>>) returns (stages: seq<Moment<V>>)
    ensures Stages(stages, a, other)
    decreases |other|
  {
    if other == [] {
      stages := [a];
    } else {
      var rest, last := other[..|other| - 1], other[|other| - 1];
      var before := MergeStages(a, rest);
      var m := before[|rest|];
      var load := if Has(m.entries, last.key) then m.load else Insert(m.load, true);
      stages := before + [Moment(Set(m.entries, last.key, last.value), load)];
      forall i | 0 <= i < |other| ensures StageAt(stages, other, i) {
        assert i < |rest| ==> StageAt(before, rest, i);
      }
    }
  }

  /** A load after k more entries, with memory for every resize. */
  function Inserted(l: Load, k: nat): Load {
    if k == 0 then l else Insert(Inserted(l, k - 1), true)
  }

  lemma {:induction false} StageIsMerge<V>(stages: seq<Moment<V>>, a: Moment<V>, other: seq<Entry<V>>, n: nat)
    requires Stages(stages, a, other) && n <= |other| && Distinct(a.entries) && Distinct(other)
    ensures stages[n] == Moment(Merge(a.entries, other[..n]), Inserted(a.load, |NewKeys(a.entries, other[..n])|))
    decreases n
  {
    if n > 0 {
      StageIsMerge(stages, a, other, n - 1);
      assert StageAt(stages, other, n - 1);
      assert other[..n][..n - 1] == other[..n - 1];
      NewToStage(a.entries, other, n - 1);
    }
  }

  /** What was merged before a key of `other` does not tell whether the key is new. */
  lemma NewToStage<V>(s: seq<Entry<V>>, other: seq<Entry<V>>, n: nat)
    requires n < |other| && Distinct(s) && Distinct(other)
    ensures Has(Merge(s, other[..n]), other[n].key) == Has(s, other[n].key)
  {
    MergeMeans(s, other[..n], other[n].key);
    AppendMeans(other[..n], other[n]);
  }

  /** The room a merge makes for `offered` entries before it adds the first one. */
  function Room(l: Load, offered: nat): Load {
    if l.capacity < l.size + offered then Resized(l, l.size + offered) else l
  }

  /** What there is for the i-th set of a merge. */
  function Supply(memory: seq<Memory>, i: nat): Memory {
    if i < |memory| then memory[i] else Enough
  }

  /** The first n sets of a merge find all the memory they need. */
  ghost predicate FoundBefore<V>(stages: seq<Moment<V>>, other: seq<Entry<V>>, memory: seq<Memory>, n: nat)
    requires n <= |stages| && n <= |other|
  {
    forall i :: 0 <= i < n ==> Finds(stages[i], other[i].key, Supply(memory, i)) == Enough
  }

  /** Where the loop of a merge stops. */
  ghost predicate StopsAt<V>(stages: seq<Moment<V>>, other: seq<Entry<V>>, memory: seq<Memory>,
                             found: Memory, n: nat, b: Moment<V>)
    requires |stages| == |other| + 1
  {
    match found
    case Enough => n == |other| && b == stages[n] && FoundBefore(stages, other, memory, n)
    case NoEntry =>
      && n < |other| && b == stages[n] && FoundBefore(stages, other, memory, n)
      && Finds(b, other[n].key, Supply(memory, n)) == NoEntry
    case NoBuckets =>
      && 0 < n <= |other| && FoundBefore(stages, other, memory, n - 1)
      && Finds(stages[n - 1], other[n - 1].key, Supply(memory, n - 1)) == NoBuckets
      && b == Moment(stages[n].entries, Insert(stages[n - 1].load, false)) && Crowded(b.load)
  }

  /** A set either brings the merge to its next stage or stops it. */
  lemma StageOrStop<V>(stages: seq<Moment<V>>, other: seq<Entry<V>>, memory: seq<Memory>, n: nat, b: Moment<V>)
    requires |stages| == |other| + 1 && n < |other| && Stages(stages, stages[0], other)
    requires FoundBefore(stages, other, memory, n)
    requires SetEffect(stages[n], other[n].key, other[n].value, Finds(stages[n], other[n].key, Supply(memory, n)), b)
    ensures var found := Finds(stages[n], other[n].key, Supply(memory, n));
      if found == Enough then b == stages[n + 1] && FoundBefore(stages, other, memory, n + 1)
      else StopsAt(stages, other, memory, found, if found == NoEntry then n else n + 1, b)
  {
    assert StageAt(stages, other, n);
  }

  /** What a merge does that found `found` and added n entries: without memory for an entry or a
      resize it stops there, without memory for the room it starts with nothing changes. */
  ghost predicate MergeEffect<V>(a: Moment<V>, other: seq<Entry<V>>, found: Memory, n: nat, b: Moment<V>) {
    && n <= |other| && b.entries == Merge(a.entries, other[..n])
    && var l := Room(a.load, |other|);
      match found
      case Enough => n == |other| && b.load == Inserted(l, |NewKeys(a.entries, other)|)
      case NoEntry =>
        && n < |other| && !Has(a.entries, other[n].key)
        && b.load == Inserted(l, |NewKeys(a.entries, other[..n])|)
      case NoBuckets =>
        if n == 0 then b == a && a.load.capacity < a.load.size + |other|
        else
          && !Has(a.entries, other[n - 1].key) && Crowded(b.load)
          && b.load == Insert(Inserted(l, |NewKeys(a.entries, other[..n - 1])|), false)
  }

  /** The moment at which i entries have been merged, all with memory. */
  function StageOf<V>(a: Moment<V>, other: seq<Entry<V>>, i: nat): Moment<V>
    requires i <= |other|
  {
    Moment(Merge(a.entries, other[..i]), Inserted(Room(a.load, |other|), |NewKeys(a.entries, other[..i])|))
  }

  function StageFinds<V>(a: Moment<V>, other: seq<Entry<V>>, memory: seq<Memory>, i: nat): Memory
    requires i < |other|
  {
    Finds(StageOf(a, other, i), other[i].key, Supply(memory, i))
  }

  ghost predicate AllFind<V>(a: Moment<V>, other: seq<Entry<V>>, memory: seq<Memory>, n: nat)
    requires n <= |other|
  {
    forall i :: 0 <= i < n ==> StageFinds(a, other, memory, i) == Enough
  }

  /** What a merge finds, and how many entries it adds, where there is room or not, and `memory` for
      the sets. */
  ghost predicate MergeFinds<V>(a: Moment<V>, other: seq<Entry<V>>, room: bool, memory: seq<Memory>,
                                found: Memory, n: nat)
  {
    if a.load.capacity < a.load.size + |other| && !room then found == NoBuckets && n == 0
    else
      match found
      case Enough => n == |other| && AllFind(a, other, memory, n)
      case NoEntry => n < |other| && AllFind(a, other, memory, n) && StageFinds(a, other, memory, n) == NoEntry
      case NoBuckets =>
        && 0 < n <= |other| && AllFind(a, other, memory, n - 1)
        && StageFinds(a, other, memory, n - 1) == NoBuckets
  }

  lemma NoRoom<V>(a: Moment<V>, other: seq<Entry<V>>, memory: seq<Memory>)
    requires a.load.capacity < a.load.size + |other|
    ensures MergeEffect(a, other, NoBuckets, 0, a) && MergeFinds(a, other, false, memory, NoBuckets, 0)
  {
  }

  lemma FoundInStages<V>(stages: seq<Moment<V>>, a: Moment<V>, other: seq<Entry<V>>, memory: seq<Memory>, n: nat)
    requires Distinct(a.entries) && Distinct(other) && n <= |other|
    requires Stages(stages, Moment(a.entries, Room(a.load, |other|)), other) && FoundBefore(stages, other, memory, n)
    ensures AllFind(a, other, memory, n)
  {
    forall i | 0 <= i < n ensures StageFinds(a, other, memory, i) == Enough {
      StageIsMerge(stages, Moment(a.entries, Room(a.load, |other|)), other, i);
    }
  }

  lemma StopIsFound<V>(stages: seq<Moment<V>>, a: Moment<V>, other: seq<Entry<V>>, room: bool, memory: seq<Memory>,
                       found: Memory, n: nat, b: Moment<V>)
    requires Distinct(a.entries) && Distinct(other) && (room || a.load.capacity >= a.load.size + |other|)
    requires Stages(stages, Moment(a.entries, Room(a.load, |other|)), other)
    requires StopsAt(stages, other, memory, found, n, b)
    ensures MergeFinds(a, other, room, memory, found, n)
  {
    var k := if found == NoBuckets then n - 1 else n;
    FoundInStages(stages, a, other, memory, k);
    StageIsMerge(stages, Moment(a.entries, Room(a.load, |other|)), other, k);
  }

  lemma StopIsMerge<V>(stages: seq<Moment<V>>, a: Moment<V>, other: seq<Entry<V>>, memory: seq<Memory>,
                       found: Memory, n: nat, b: Moment<V>)
    requires Distinct(a.entries) && Distinct(other)
    requires Stages(stages, Moment(a.entries, Room(a.load, |other|)), other)
    requires StopsAt(stages, other, memory, found, n, b)
    ensures MergeEffect(a, other, found, n, b)
  {
    var m := Moment(a.entries, Room(a.load, |other|));
    StageIsMerge(stages, m, other, n);
    if n > 0 {
      StageIsMerge(stages, m, other, n - 1);
      NewToStage(a.entries, other, n - 1);
    }
    if n < |other| {
      NewToStage(a.entries, other, n);
    }
    assert other[..|other|] == other;
  }

  /** A merge cannot both succeed and fail. */
  lemma OneFinding<V>(a: Moment<V>, other: seq<Entry<V>>, room: bool, memory: seq<Memory>, found: Memory, n: nat)
    requires MergeFinds(a, other, room, memory, found, n)
    ensures MergeFinds(a, other, room, memory, Enough, |other|) <==> found == Enough
  {
  }

  /** A merge with room for all entries and memory for every set and every resize succeeds; one that
      succeeds had memory for every new entry. */
  lemma MergeWithMemory<V>(a: Moment<V>, other: seq<Entry<V>>, room: bool, memory: seq<Memory>,
                           found: Memory, n: nat)
    requires Distinct(a.entries) && Distinct(other) && MergeFinds(a, other, room, memory, found, n)
    ensures var fits := room || a.load.size + |other| <= a.load.capacity;
      && (fits && (forall i :: 0 <= i < |memory| ==> memory[i] == Enough) ==> found == Enough && n == |other|)
      && (found == Enough ==> fits)
    ensures found == Enough ==>
      forall i :: 0 <= i < |other| && i < |memory| && !Has(a.entries, other[i].key) ==> memory[i] != NoEntry
  {
    forall i | 0 <= i < |other| && i < |memory| && found == Enough && !Has(a.entries, other[i].key)
      ensures memory[i] != NoEntry
    {
      NewToStage(a.entries, other, i);
      assert StageFinds(a, other, memory, i) == Enough;
    }
  }

  /** Every merge finds something, and has the effect that goes with it. */
  lemma MergeHappens<V>(a: Moment<V>, other: seq<Entry<V>>, room: bool, memory: seq<Memory>)
    returns (found: Memory, n: nat, b: Moment<V>)
    requires Distinct(a.entries) && Distinct(other)
    ensures MergeFinds(a, other, room, memory, found, n) && MergeEffect(a, other, found, n, b)
  {
    if a.load.capacity < a.load.size + |other| && !room {
      NoRoom(a, other, memory);
      return NoBuckets, 0, a;
    }
    var stages := MergeStages(Moment(a.entries, Room(a.load, |other|)), other);
    found, n, b := StopsSomewhere(stages, other, memory, 0);
    StopIsFound(stages, a, other, room, memory, found, n, b);
    StopIsMerge(stages, a, other, memory, found, n, b);
  }

  /** The rest of its loop, when the first k entries have been merged. */
  lemma {:induction false} StopsSomewhere<V>(stages: seq<Moment<V>>, other: seq<Entry<V>>, memory: seq<Memory>, k: nat)
    returns (found: Memory, n: nat, b: Moment<V>)
    requires |stages| == |other| + 1 && Stages(stages, stages[0], other)
    requires k <= |other| && FoundBefore(stages, other, memory, k)
    ensures StopsAt(stages, other, memory, found, n, b)
    decreases |other| - k
  {
    if k == |other| {
      found, n, b := Enough, k, stages[k];
    } else {
      found, b := SetHappens(stages[k], other[k].key, other[k].value, Supply(memory, k));
      StageOrStop(stages, other, memory, k, b);
      n := if found == NoEntry then k else k + 1;
      if found == Enough {
        found, n, b := StopsSomewhere(stages, other, memory, k + 1);
      }
    }
  }

  lemma SetHappens<V>(a: Moment<V>, key: Key, value: Ptr<V>, memory: Memory) returns (found: Memory, b: Moment<V>)
    ensures found == Finds(a, key, memory) && SetEffect(a, key, value, found, b)
  {
    found := Finds(a, key, memory);
    var load := if Has(a.entries, key) then a.load else Insert(a.load, found == Enough);
    b := if found == NoEntry then a else Moment(Set(a.entries, key, value), load);
  }

  /** A merge of a map with itself makes room at most, and asks for nothing else. */
  lemma MergesWithItself<V>(a: Moment<V>, room: bool, memory: seq<Memory>)
    requires Distinct(a.entries) && a.load.size == |a.entries|
    ensures var s := a.entries;
      if a.load.capacity < 2 * |s| && !room then
        MergeEffect(a, s, NoBuckets, 0, a) && MergeFinds(a, s, room, memory, NoBuckets, 0)
      else
        && MergeEffect(a, s, Enough, |s|, Moment(s, Room(a.load, |s|)))
        && MergeFinds(a, s, room, memory, Enough, |s|)
  {
    var s := a.entries;
    assert s[..|s|] == s;
    MergeWithItself(s, |s|);
    MergeKeys(s, s);
    assert |Keys(s)| + |NewKeys(s, s)| == |Keys(s)|;
    forall i | 0 <= i < |s| ensures StageFinds(a, s, memory, i) == Enough {
      NewToStage(s, s, i);
      Holds(s, i, Null);
    }
  }

  /** What a merge with memory makes of the load, in numbers: the buckets become as many as both maps
      have entries, if they were fewer, and double at most once. */
  lemma {:induction false} MergedLoad(l: Load, offered: nat, k: nat)
    requires l.capacity >= 16 && 4 * l.size <= 3 * l.capacity && k <= offered
    ensures var l', m := Inserted(Room(l, offered), k),
        if l.capacity < l.size + offered then l.size + offered else l.capacity;
      var moved, full := if l.capacity < l.size + offered then l.size else 0, 4 * (l.size + k) > 3 * m;
      && l'.size == l.size + k && l'.capacity == (if full then 2 * m else m)
      && l'.relinks == l.relinks + moved + if full then 3 * m / 4 + 1 else 0
    decreases k
  {
    if k > 0 {
      MergedLoad(l, offered, k - 1);
    }
  }

  /** A merge that makes room and inserts leaves the load at or below .75. */
  lemma {:induction false} MergeStaysRoomy(l: Load, offered: nat, k: nat)
    requires Roomy(l)
    ensures Roomy(Inserted(Room(l, offered), k))
    decreases k
  {
    if k > 0 {
      MergeStaysRoomy(l, offered, k - 1);
    }
  }
}

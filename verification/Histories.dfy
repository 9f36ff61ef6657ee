/** Whole histories of calls on a fresh map, in which any call may be short of memory: what the map
    then holds, and how many entries all resizes together have relinked. */
module Histories {
  import opened CTypes
  import opened OrderedMap

  /** A call, what memory it found, and how many entries of the other map a merge has added. */
  datatype Call<+V> =
    | SetCall(key: Key, value: Ptr<V>, found: Memory)
    | RemoveCall(key: Key)
    | ClearCall
    | MergeCall(other: seq<Entry<V>>, found: Memory, merged: nat)

  /** The contracts of set, remove, clear and merge. */
  ghost predicate Effect<V>(a: Moment<V>, call: Call<V>, b: Moment<V>) {
    match call
    case SetCall(k, v, found) => SetEffect(a, k, v, found, b)
    case RemoveCall(k) => b.entries == Remove(a.entries, k) && b.load == a.load.(size := |b.entries|)
    case ClearCall => b == Moment([], a.load.(size := 0))
    case MergeCall(other, found, n) => Distinct(other) && MergeEffect(a, other, found, n, b)
  }

  /** Calls on a fresh map, and the map before, between and after them. */
  ghost predicate History<V>(calls: seq<Call<V>>, moments: seq<Moment<V>>)
    decreases |calls|
  {
    |moments| == |calls| + 1 &&
    if calls == [] then moments[0] == Moment([], FRESH)
    else
      && Effect(moments[|calls| - 1], calls[|calls| - 1], moments[|calls|])
      && History(calls[..|calls| - 1], moments[..|calls|])
  }

  // ---------------------------------------------------------------- where there is memory

  /** A call as it is made, and the memory there is for it. */
  datatype Request<+V> =
    | SetRequest(key: Key, value: Ptr<V>, memory: Memory)
    | RemoveRequest(key: Key)
    | ClearRequest
    | MergeRequest(other: seq<Entry<V>>, room: bool, supply: seq<Memory>)

  /** The call that a request turns out to be. */
  ghost predicate Answers<V>(a: Moment<V>, request: Request<V>, call: Call<V>) {
    match request
    case SetRequest(k, v, memory) => call == SetCall(k, v, Finds(a, k, memory))
    case RemoveRequest(k) => call == RemoveCall(k)
    case ClearRequest => call == ClearCall
    case MergeRequest(other, room, memory) =>
      call.MergeCall? && call.other == other && MergeFinds(a, other, room, memory, call.found, call.merged)
  }

  ghost predicate AllAnswered<V>(requests: seq<Request<V>>, calls: seq<Call<V>>, moments: seq<Moment<V>>) {
    && |calls| == |requests| && |moments| == |calls| + 1
    && forall i :: 0 <= i < |calls| ==> Answers(moments[i], requests[i], calls[i])
  }

  /** The other map of a merge is a map. */
  ghost predicate Possible<V>(request: Request<V>) {
    request.MergeRequest? ==> Distinct(request.other)
  }

  lemma RequestHappens<V>(a: Moment<V>, request: Request<V>) returns (call: Call<V>, b: Moment<V>)
    requires Distinct(a.entries) && Possible(request)
    ensures Answers(a, request, call) && Effect(a, call, b)
  {
    match request
    case SetRequest(k, v, memory) =>
      var found, m := SetHappens(a, k, v, memory);
      call, b := SetCall(k, v, found), m;
    case RemoveRequest(k) =>
      var entries := Remove(a.entries, k);
      call, b := RemoveCall(k), Moment(entries, a.load.(size := |entries|));
    case ClearRequest =>
      call, b := ClearCall, Moment([], a.load.(size := 0));
    case MergeRequest(other, room, memory) =>
      var found, n, m := MergeHappens(a, other, room, memory);
      call, b := MergeCall(other, found, n), m;
  }

  /** Whatever is called and whatever memory there is, a history follows. */
  lemma {:induction false} EveryRunHappens<V>(requests: seq<Request<V>>)
    returns (calls: seq<Call<V>>, moments: seq<Moment<V>>)
    requires forall i :: 0 <= i < |requests| ==> Possible(requests[i])
    ensures History(calls, moments) && AllAnswered(requests, calls, moments)
    decreases |requests|
  {
    if requests == [] {
      calls, moments := [], [Moment([], FRESH)];
    } else {
      var n := |requests| - 1;
      var calls', moments' := EveryRunHappens(requests[..n]);
      HistoryEntries(calls', moments');
      RunsAreMaps(Effective(calls'), 0);
      var call, b := RequestHappens(moments'[n], requests[n]);
      calls, moments := calls' + [call], moments' + [b];
      LongerHistory(calls', moments', call, b);
      OneMoreAnswered(requests, calls', moments', call, b);
    }
  }

  lemma LongerHistory<V>(calls: seq<Call<V>>, moments: seq<Moment<V>>, call: Call<V>, b: Moment<V>)
    requires History(calls, moments) && Effect(moments[|calls|], call, b)
    ensures History(calls + [call], moments + [b])
  {
    var n, calls', moments' := |calls|, calls + [call], moments + [b];
    assert calls'[..n] == calls && moments'[..n + 1] == moments;
    assert moments'[n] == moments[n] && moments'[n + 1] == b;
  }

  lemma OneMoreAnswered<V>(requests: seq<Request<V>>, calls: seq<Call<V>>, moments: seq<Moment<V>>,
                           call: Call<V>, b: Moment<V>)
    requires |requests| == |calls| + 1 && AllAnswered(requests[..|calls|], calls, moments)
    requires Answers(moments[|calls|], requests[|calls|], call)
    ensures AllAnswered(requests, calls + [call], moments + [b])
  {
    forall i | 0 <= i <= |calls| ensures Answers((moments + [b])[i], requests[i], (calls + [call])[i]) {
      assert i < |calls| ==> Answers(moments[i], requests[..|calls|][i], calls[i]);
    }
  }

  // ---------------------------------------------------------------- entries

  function SetOps<V>(other: seq<Entry<V>>): (ops: seq<Op<V>>)
    ensures |ops| == |other|
  {
    seq(|other|, i requires 0 <= i < |other| => SetOp(other[i].key, other[i].value))
  }

  /** What a call does to the map: a set for which there is no memory for an entry does nothing, one
      for which only the resize finds none counts, and so do the entries merged before memory ran
      out. */
  function Effects<V>(call: Call<V>): seq<Op<V>> {
    match call
    case SetCall(k, v, found) => if found == NoEntry then [] else [SetOp(k, v)]
    case RemoveCall(k) => [RemoveOp(k)]
    case ClearCall => [ClearOp]
    case MergeCall(other, _, n) => SetOps(if n <= |other| then other[..n] else other)
  }

  function Effective<V>(calls: seq<Call<V>>): seq<Op<V>> {
    if calls == [] then [] else Effective(calls[..|calls| - 1]) + Effects(calls[|calls| - 1])
  }

  lemma OneMoreOp<V>(ops: seq<Op<V>>, op: Op<V>)
    ensures ApplyAll(ops + [op]) == Apply(ApplyAll(ops), op)
  {
    assert (ops + [op])[..|ops|] == ops;
  }

  /** A merge is a run of sets. */
  lemma {:induction false} MergeIsSets<V>(ops: seq<Op<V>>, other: seq<Entry<V>>)
    ensures ApplyAll(ops + SetOps(other)) == Merge(ApplyAll(ops), other)
    decreases |other|
  {
    if other == [] {
      assert ops + SetOps(other) == ops;
    } else {
      var rest, last := other[..|other| - 1], other[|other| - 1];
      MergeIsSets(ops, rest);
      OneMoreOp(ops + SetOps(rest), SetOp(last.key, last.value));
      assert ops + SetOps(other) == ops + SetOps(rest) + [SetOp(last.key, last.value)];
    }
  }

  lemma CallEntries<V>(ops: seq<Op<V>>, a: Moment<V>, call: Call<V>, b: Moment<V>)
    requires Effect(a, call, b) && a.entries == ApplyAll(ops)
    ensures b.entries == ApplyAll(ops + Effects(call))
  {
    match call
    case SetCall(k, v, found) => SetEntries(ops, a, k, v, found, b);
    case RemoveCall(k) => OneMoreOp(ops, RemoveOp(k));
    case ClearCall => OneMoreOp(ops, ClearOp);
    case MergeCall(other, _, n) => MergeIsSets(ops, other[..n]);
  }

  lemma SetEntries<V>(ops: seq<Op<V>>, a: Moment<V>, k: Key, v: Ptr<V>, found: Memory, b: Moment<V>)
    requires SetEffect(a, k, v, found, b) && a.entries == ApplyAll(ops)
    ensures b.entries == ApplyAll(ops + Effects(SetCall(k, v, found)))
  {
    if found == NoEntry {
      assert ops + [] == ops;
    } else {
      OneMoreOp(ops, SetOp(k, v));
    }
  }

  /** A history is a run of the ordered map. */
  lemma {:induction false} HistoryEntries<V>(calls: seq<Call<V>>, moments: seq<Moment<V>>)
    requires History(calls, moments)
    ensures moments[|calls|].entries == ApplyAll(Effective(calls))
    decreases |calls|
  {
    if calls != [] {
      var n := |calls| - 1;
      HistoryEntries(calls[..n], moments[..n + 1]);
      CallEntries(Effective(calls[..n]), moments[n], calls[n], moments[n + 1]);
    }
  }

  // ---------------------------------------------------------------- load

  function SetCalls<V>(calls: seq<Call<V>>): nat {
    if calls == [] then 0 else SetCalls(calls[..|calls| - 1]) + if calls[|calls| - 1].SetCall? then 1 else 0
  }

  function MergeCalls<V>(calls: seq<Call<V>>): nat {
    if calls == [] then 0 else MergeCalls(calls[..|calls| - 1]) + if calls[|calls| - 1].MergeCall? then 1 else 0
  }

  /** How many entries all merges offered. */
  function Offered<V>(calls: seq<Call<V>>): nat {
    if calls == [] then 0
    else Offered(calls[..|calls| - 1]) + if calls[|calls| - 1].MergeCall? then |calls[|calls| - 1].other| else 0
  }

  /** A resize that an insert made due found no memory. */
  predicate ResizeFails<V>(call: Call<V>) {
    match call
    case SetCall(_, _, found) => found == NoBuckets
    case MergeCall(_, found, n) => found == NoBuckets && n > 0
    case _ => false
  }

  function FailedCalls<V>(calls: seq<Call<V>>): nat {
    if calls == [] then 0
    else FailedCalls(calls[..|calls| - 1]) + if ResizeFails(calls[|calls| - 1]) then 1 else 0
  }

  /** Which operation a call was, as far as the load is concerned. */
  lemma CallLoad<V>(a: Moment<V>, call: Call<V>, b: Moment<V>) returns (op: LoadOp)
    requires Effect(a, call, b) && !call.MergeCall? && Distinct(a.entries) && a.load.size == |a.entries|
    ensures Distinct(b.entries) && b.load.size == |b.entries| && b.load == Cost(a.load, op)
    ensures op.InsertNew? || op.Overwrite? <==> call.SetCall?
    ensures Due(a.load, op) && !op.memory <==> ResizeFails(call)
  {
    match call
    case SetCall(k, v, found) =>
      SetKeeps(a.entries, k, v);
      ScansStopAtFind(a.entries, k, v, 0);
      op := if Has(a.entries, k) || found == NoEntry then Overwrite else InsertNew(found == Enough);
    case RemoveCall(k) =>
      ScansStopAtFind(a.entries, k, Null, 0);
      RemoveMeans(a.entries, k, k);
      op := if Has(a.entries, k) then RemoveOld else RemoveMissing;
    case ClearCall =>
      op := ClearAll;
  }

  /** The load of a history without merges is that of a run of operations with the same number of
      sets and of failed resizes. */
  lemma {:induction false} HistoryLoad<V>(calls: seq<Call<V>>, moments: seq<Moment<V>>) returns (ops: seq<LoadOp>)
    requires History(calls, moments) && MergeCalls(calls) == 0
    ensures var last := moments[|calls|];
      && Distinct(last.entries) && last.load.size == |last.entries|
      && last.load == CostAll(FRESH, ops)
      && Sets(ops) == SetCalls(calls) && Failures(ops) == FailedCalls(calls)
    decreases |calls|
  {
    if calls == [] {
      ops := [];
    } else {
      var n := |calls| - 1;
      var rest := HistoryLoad(calls[..n], moments[..n + 1]);
      var op := CallLoad(moments[n], calls[n], moments[n + 1]);
      ops := rest + [op];
      CostOne(FRESH, rest, op);
    }
  }

  /** There is memory for everything that the call may ask for. */
  ghost predicate Plenty<V>(request: Request<V>) {
    match request
    case SetRequest(_, _, memory) => memory == Enough
    case MergeRequest(_, room, supply) => room && forall memory <- supply :: memory == Enough
    case _ => true
  }

  lemma PlentySuffices<V>(a: Moment<V>, request: Request<V>, call: Call<V>)
    requires Plenty(request) && Answers(a, request, call)
    ensures (call.SetCall? || call.MergeCall?) ==> call.found == Enough
    ensures !ResizeFails(call)
  {
    if request.MergeRequest? {
      forall i: nat ensures Supply(request.supply, i) == Enough {
        assert i < |request.supply| ==> request.supply[i] in request.supply;
      }
    }
  }

  /** With memory for everything, no call fails. */
  lemma {:induction false} NothingFails<V>(requests: seq<Request<V>>, calls: seq<Call<V>>, moments: seq<Moment<V>>)
    requires AllAnswered(requests, calls, moments)
    requires forall i :: 0 <= i < |requests| ==> Plenty(requests[i])
    ensures FailedCalls(calls) == 0
    ensures forall i :: 0 <= i < |calls| && (calls[i].SetCall? || calls[i].MergeCall?) ==> calls[i].found == Enough
    decreases |calls|
  {
    if calls != [] {
      var n := |calls| - 1;
      PlentySuffices(moments[n], requests[n], calls[n]);
      forall i | 0 <= i < n ensures Answers(moments[..n + 1][i], requests[..n][i], calls[..n][i]) {
        assert Answers(moments[i], requests[i], calls[i]);
      }
      NothingFails(requests[..n], calls[..n], moments[..n + 1]);
    }
  }

  // ---------------------------------------------------------------- load with merges

  /** A merge is a step that makes room and then inserts and overwrites. */
  datatype Step = One(op: LoadOp) | MakeRoom(offered: nat)

  /** The books of a run: the load, the sets so far, the entries that merges offered, the failed
      and the successful resizes of inserts, the merges, and what the failures are charged with. */
  datatype Account = Account(load: Load, sets: nat, offered: nat, failed: nat, doubled: nat, rooms: nat, charge: nat)

  const OPENED := Account(FRESH, 0, 0, 0, 0, 0, 0)

  /** After f failures a resize may relink f more entries than the sets have paid for, and one that
      makes room for a merge 4f more. */
  function Book(x: Account, step: Step): Account {
    match step
    case MakeRoom(offered) =>
      x.(load := Room(x.load, offered), offered := x.offered + offered, rooms := x.rooms + 1,
         charge := x.charge + 4 * x.failed)
    case One(op) =>
      var due := Due(x.load, op);
      x.(load := Cost(x.load, op),
         sets := if op.InsertNew? || op.Overwrite? then x.sets + 1 else x.sets,
         failed := if due && !op.memory then x.failed + 1 else x.failed,
         doubled := if due && op.memory then x.doubled + 1 else x.doubled,
         charge := if due && op.memory then x.charge + x.failed else x.charge)
  }

  function BookAll(steps: seq<Step>): Account {
    if steps == [] then OPENED else Book(BookAll(steps[..|steps| - 1]), steps[|steps| - 1])
  }

  predicate Sound(x: Account) {
    && x.load.capacity >= Doubled(x.doubled) && x.load.size <= x.sets
    && (x.doubled > 0 ==> 3 * Doubled(x.doubled) < 8 * x.sets)
    && 4 * x.load.size <= 3 * x.load.capacity + 4 * x.failed
    && 4 * x.load.relinks + Potential4(x.load) <= 12 * x.sets + 12 * x.offered + 4 * x.charge
  }

  lemma RoomKeepsSound(x: Account, offered: nat)
    requires Sound(x)
    ensures Sound(Book(x, MakeRoom(offered)))
  {
  }

  lemma CostKeepsSound(x: Account, op: LoadOp)
    requires Sound(x)
    ensures Sound(Book(x, One(op)))
  {
    DoubledFrom(x.doubled);
  }

  lemma BookKeepsSound(x: Account, step: Step)
    requires Sound(x)
    ensures Sound(Book(x, step))
  {
    match step
    case MakeRoom(offered) => RoomKeepsSound(x, offered);
    case One(op) => CostKeepsSound(x, op);
  }

  lemma {:induction false} StaysSound(steps: seq<Step>)
    ensures Sound(BookAll(steps))
    decreases |steps|
  {
    if steps != [] {
      var rest := steps[..|steps| - 1];
      StaysSound(rest);
      BookKeepsSound(BookAll(rest), steps[|steps| - 1]);
    }
  }

  /** The product, as the sum that the resizes add up. */
  function Times(f: nat, w: nat): nat {
    if w == 0 then 0 else Times(f, w - 1) + f
  }

  lemma {:induction false} TimesIsProduct(f: nat, w: nat)
    ensures Times(f, w) == f * w
    decreases w
  {
    if w > 0 {
      TimesIsProduct(f, w - 1);
      Products(f, w - 1);
    }
  }

  /** Of at most `failures` failures each is charged with every resize. */
  predicate Charged(x: Account, failures: nat) {
    x.failed <= failures ==> x.charge <= Times(failures, x.doubled + 4 * x.rooms)
  }

  lemma BookKeepsCharged(x: Account, step: Step, failures: nat)
    requires Charged(x, failures)
    ensures Charged(Book(x, step), failures)
  {
    var w := x.doubled + 4 * x.rooms;
    assert Times(failures, w + 2) == Times(failures, w) + 2 * failures;
  }

  lemma {:induction false} StaysCharged(steps: seq<Step>, failures: nat)
    ensures Charged(BookAll(steps), failures)
    decreases |steps|
  {
    if steps != [] {
      var rest := steps[..|steps| - 1];
      StaysCharged(rest, failures);
      BookKeepsCharged(BookAll(rest), steps[|steps| - 1], failures);
    }
  }

  lemma {:induction false} TimesMore(f: nat, w: nat, more: nat)
    ensures Times(f, w) <= Times(f, w + more)
    decreases more
  {
    if more > 0 {
      TimesMore(f, w, more - 1);
    }
  }

  /** Runs of at most n sets and m merges that offered at most o entries, mixed with removes and
      clears, whichever resizes fail. */
  lemma RelinksWithMerges(steps: seq<Step>, x: Account, n: nat, o: nat, m: nat)
    requires x == BookAll(steps) && x.sets <= n + o && x.offered <= o && x.rooms <= m
    ensures x.load.relinks <= 3 * n + 6 * o + Times(x.failed, x.doubled + 4 * m)
    ensures x.load.capacity >= Doubled(x.doubled) && (x.doubled > 0 ==> 3 * Doubled(x.doubled) < 8 * (n + o))
    ensures x.failed == 0 ==> Roomy(x.load)
  {
    StaysSound(steps);
    StaysCharged(steps, x.failed);
    TimesMore(x.failed, x.doubled + 4 * x.rooms, 4 * (m - x.rooms));
    SoundMeans(x, Times(x.failed, x.doubled + 4 * m));
  }

  lemma SoundMeans(x: Account, charge: nat)
    requires Sound(x) && x.charge <= charge
    ensures x.load.relinks <= 3 * (x.sets + x.offered) + charge
    ensures x.load.capacity >= Doubled(x.doubled) && (x.doubled > 0 ==> 3 * Doubled(x.doubled) < 8 * x.sets)
    ensures x.failed == 0 ==> Roomy(x.load)
  {
    DoubledFrom(x.doubled);
  }

  lemma BookOne(steps: seq<Step>, step: Step)
    ensures BookAll(steps + [step]) == Book(BookAll(steps), step)
  {
    assert (steps + [step])[..|steps|] == steps;
  }

  /** A run with k more inserts that find memory. */
  lemma {:induction false} MoreInserts(steps: seq<Step>, k: nat) returns (more: seq<Step>)
    ensures var x, y := BookAll(steps), BookAll(more);
      && y.load == Inserted(x.load, k) && y.load.size == x.load.size + k
      && y.sets == x.sets + k && y.offered == x.offered && y.failed == x.failed && y.rooms == x.rooms
    decreases k
  {
    if k == 0 {
      more := steps;
    } else {
      var before := MoreInserts(steps, k - 1);
      BookOne(before, One(InsertNew(true)));
      more := before + [One(InsertNew(true))];
    }
  }

  lemma {:induction false} NewKeysFit<V>(s: seq<Entry<V>>, other: seq<Entry<V>>)
    ensures |NewKeys(s, other)| <= |other|
    decreases |other|
  {
    if other != [] {
      NewKeysFit(s, other[..|other| - 1]);
    }
  }

  /** How many entries a merge has added that the map did not have, and whether it stopped because
      the last of them found no memory for a resize. */
  lemma MergeAdds<V>(a: Moment<V>, other: seq<Entry<V>>, found: Memory, n: nat, b: Moment<V>)
    returns (k: nat, failed: bool)
    requires MergeEffect(a, other, found, n, b) && Distinct(a.entries) && Distinct(other)
    ensures Distinct(b.entries) && failed == (found == NoBuckets && n > 0)
    ensures |b.entries| == |a.entries| + if failed then k + 1 else k
    ensures b == a || b.load == var l := Inserted(Room(a.load, |other|), k); if failed then Insert(l, false) else l
    ensures failed ==> k < |other| && Crowded(b.load) && b != a
    ensures k <= |other| && (b == a ==> k == 0)
  {
    failed := found == NoBuckets && n > 0;
    var added := other[..n];
    assert Distinct(added);
    MergeKeys(a.entries, added);
    assert |Keys(b.entries)| == |b.entries| && |Keys(a.entries)| == |a.entries|;
    NewKeysFit(a.entries, added);
    k := |NewKeys(a.entries, added)|;
    assert found == Enough ==> added == other;
    if failed {
      assert added[..n - 1] == other[..n - 1];
      k := k - 1;
    }
  }

  /** A merge as steps: at most as many sets as entries were offered. */
  lemma MergeSteps<V>(a: Moment<V>, call: Call<V>, b: Moment<V>, steps: seq<Step>) returns (more: seq<Step>)
    requires Effect(a, call, b) && call.MergeCall? && Distinct(a.entries) && a.load.size == |a.entries|
    requires BookAll(steps).load == a.load
    ensures Distinct(b.entries) && b.load.size == |b.entries|
    ensures var x, y, offered := BookAll(steps), BookAll(more), |call.other|;
      && y.load == b.load && y.sets <= x.sets + offered && y.offered <= x.offered + offered
      && y.failed == (if ResizeFails(call) then x.failed + 1 else x.failed) && y.rooms <= x.rooms + 1
  {
    var k, failed := MergeAdds(a, call.other, call.found, call.merged, b);
    if b == a {
      more := steps;
    } else {
      var room := MakeRoom(|call.other|);
      BookOne(steps, room);
      more := MoreInserts(steps + [room], k);
      if failed {
        BookOne(more, One(InsertNew(false)));
        more := more + [One(InsertNew(false))];
      }
    }
  }

  /** A history as steps. */
  lemma {:induction false} HistorySteps<V>(calls: seq<Call<V>>, moments: seq<Moment<V>>) returns (steps: seq<Step>)
    requires History(calls, moments)
    ensures var last, x := moments[|calls|], BookAll(steps);
      && Distinct(last.entries) && last.load.size == |last.entries| && x.load == last.load
      && x.sets <= SetCalls(calls) + Offered(calls) && x.offered <= Offered(calls)
      && x.failed == FailedCalls(calls) && x.rooms <= MergeCalls(calls)
    decreases |calls|
  {
    steps := [];
    if calls != [] {
      var i := |calls| - 1;
      var before := HistorySteps(calls[..i], moments[..i + 1]);
      if calls[i].MergeCall? {
        steps := MergeSteps(moments[i], calls[i], moments[i + 1], before);
      } else {
        var op := CallLoad(moments[i], calls[i], moments[i + 1]);
        BookOne(before, One(op));
        steps := before + [One(op)];
      }
    }
  }

  // ---------------------------------------------------------------- main results

  /** After any history of calls on a fresh map, keys are distinct, size counts them, and a lookup
      finds the last set of the key that took effect and that nothing later has undone. */
  lemma HistoriesMean<V>(calls: seq<Call<V>>, moments: seq<Moment<V>>, k: Key)
    requires History(calls, moments)
    ensures var last := moments[|calls|];
      && Distinct(last.entries) && last.load.size == |last.entries|
      && (Has(last.entries, k), Get(last.entries, k)) == LastSet(Effective(calls), k)
  {
    HistoryEntries(calls, moments);
    RunsAreMaps(Effective(calls), k);
    var _ := HistorySteps(calls, moments);
  }

  /** What n sets and m merges that offered o entries have relinked, mixed with removes and clears,
      f resizes of inserts having failed and r having succeeded: at most 3n + 6o + f (r + 4m)
      entries, where r is logarithmic in n + o. If f is 0, the load is at or below .75. */
  lemma HistoriesRelink<V>(calls: seq<Call<V>>, moments: seq<Moment<V>>) returns (r: nat)
    requires History(calls, moments)
    ensures var l, n, o := moments[|calls|].load, SetCalls(calls), Offered(calls);
      var f, m := FailedCalls(calls), MergeCalls(calls);
      && l.relinks <= 3 * n + 6 * o + f * (r + 4 * m)
      && l.capacity >= Doubled(r) && (r > 0 ==> 3 * Doubled(r) < 8 * (n + o))
      && (f == 0 ==> Roomy(l))
  {
    var steps := HistorySteps(calls, moments);
    var x := BookAll(steps);
    r := x.doubled;
    RelinksWithMerges(steps, x, SetCalls(calls), Offered(calls), MergeCalls(calls));
    TimesIsProduct(x.failed, r + 4 * MergeCalls(calls));
  }

  /** Sets of the keys 0, 1, and so on. From the 13th entry on a resize is due, and for all of
      0 to 62 there is no memory for it. */
  function StarvedCalls<V>(n: nat): (calls: seq<Call<V>>)
    requires n <= 97
    ensures |calls| == n
    ensures forall i :: 0 <= i < n ==> calls[i] == SetCall(i, Null, if 12 <= i < 63 then NoBuckets else Enough)
  {
    seq(n, i requires 0 <= i < n => SetCall(i, Null, if 12 <= i < 63 then NoBuckets else Enough))
  }

  /** 63 entries in 16 buckets; the next three inserts relink all of them. */
  function StarvedLoad(n: nat): Load {
    if n <= 63 then Load(n, 16, 0)
    else if n == 64 then Load(n, 32, 64)
    else if n == 65 then Load(n, 64, 129)
    else if n <= 96 then Load(n, 128, 195)
    else Load(n, 256, 292)
  }

  function StarvedMoment<V>(n: nat): (m: Moment<V>)
    requires n <= 97
    ensures |m.entries| == n && m.load == StarvedLoad(n)
    ensures forall i :: 0 <= i < n ==> m.entries[i] == Entry(i, Null)
  {
    Moment(seq(n, i requires 0 <= i < n => Entry(i, Null)), StarvedLoad(n))
  }

  function StarvedMoments<V>(n: nat): (moments: seq<Moment<V>>)
    requires n <= 97
    ensures |moments| == n + 1
    ensures forall i :: 0 <= i <= n ==> moments[i] == StarvedMoment<V>(i)
  {
    seq(n + 1, i requires 0 <= i <= n => StarvedMoment<V>(i))
  }

  lemma StarvedStep<V>(n: nat)
    requires n < 97
    ensures Effect(StarvedMoment<V>(n), StarvedCalls<V>(n + 1)[n], StarvedMoment<V>(n + 1))
  {
    var a, b := StarvedMoment<V>(n), StarvedMoment<V>(n + 1);
    Lacks(a.entries, n, Null);
    assert b.entries == a.entries + [Entry(n, Null)];
  }

  /** The thirteenth key of a fresh map is stored although the set reports that memory was short. */
  lemma StoredDespiteError<V>()
    ensures var a, b := StarvedMoment<V>(12), StarvedMoment<V>(13);
      SetEffect(a, 12, Null, NoBuckets, b) && !Has(a.entries, 12) && Has(b.entries, 12)
  {
    StarvedStep<V>(12);
    var a, b := StarvedMoment<V>(12), StarvedMoment<V>(13);
    Lacks(a.entries, 12, Null);
    Holds(b.entries, 12, Null);
  }

  lemma {:induction false} StarvedHistory<V>(n: nat, calls: seq<Call<V>>, moments: seq<Moment<V>>)
    requires n <= 97 && calls == StarvedCalls(n) && moments == StarvedMoments(n)
    ensures History(calls, moments)
    decreases n
  {
    if n > 0 {
      StarvedStep<V>(n - 1);
      assert calls[n - 1] == StarvedCalls<V>(n)[n - 1];
      assert moments[n - 1] == StarvedMoment<V>(n - 1) && moments[n] == StarvedMoment<V>(n);
      StarvedHistory(n - 1, calls[..n - 1], moments[..n]);
    }
  }

  lemma {:induction false} StarvedCounts<V>(n: nat, calls: seq<Call<V>>)
    requires n <= 97 && calls == StarvedCalls(n)
    ensures SetCalls(calls) == n && MergeCalls(calls) == 0
    ensures FailedCalls(calls) == if n <= 12 then 0 else if n <= 63 then n - 12 else 51
    decreases n
  {
    if n > 0 {
      StarvedCounts(n - 1, calls[..n - 1]);
    }
  }

  /** 97 sets of distinct keys, 51 of which find no memory for their resize: 292 entries are
      relinked. */
  lemma StarvedRelinks<V>() returns (calls: seq<Call<V>>, moments: seq<Moment<V>>)
    ensures History(calls, moments) && |calls| == SetCalls(calls) == 97 && MergeCalls(calls) == 0
    ensures forall i :: 0 <= i < |calls| ==> calls[i].SetCall?
    ensures forall i, j :: 0 <= i < j < |calls| ==> calls[i].key != calls[j].key
    ensures FailedCalls(calls) == 51 && moments[97].load == Load(97, 256, 292)
  {
    var n := 97;
    calls, moments := StarvedCalls(n), StarvedMoments(n);
    StarvedHistory(n, calls, moments);
    StarvedCounts(n, calls);
  }

  /** Without merges, three relinked entries per set suffice in every history with at most f failed
      resizes if and only if f is at most 50. */
  lemma ThreePerSet<V(!new)>(f: nat)
    ensures (forall calls: seq<Call<V>>, moments: seq<Moment<V>> ::
               History(calls, moments) && MergeCalls(calls) == 0 && FailedCalls(calls) <= f ==>
               moments[|calls|].load.relinks <= 3 * SetCalls(calls))
      <==> f <= 50
  {
    if f <= 50 {
      forall calls: seq<Call<V>>, moments: seq<Moment<V>> |
        History(calls, moments) && MergeCalls(calls) == 0 && FailedCalls(calls) <= f
        ensures moments[|calls|].load.relinks <= 3 * SetCalls(calls)
      {
        var ops := HistoryLoad(calls, moments);
        ThreeSuffice(ops);
      }
    } else {
      var calls, moments := StarvedRelinks<V>();
    }
  }
}

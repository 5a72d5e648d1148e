/** Whole runs of the store against the lossy reference map. */
module StoreRuns {
  import opened Bytes
  import opened Decimal
  import opened StoreSpec
  import opened Store

  /** `op` answered and left the view as the reference does, less the keys eviction dropped. */
  ghost predicate Refined(v: View, now: Time, op: Op, answer: Answer, v': View, dropped: set<Key>) {
    answer == Apply(v, now, op).0 && v' == Apply(v, now, op).1 - dropped && Spares(op, dropped)
  }

  /** Hit and miss counters moved by exactly the reads of `op`. */
  ghost predicate Counted(v: View, op: Op, hits: nat, misses: nat, hits': nat, misses': nat) {
    hits' == hits + HitsOf(v, op) && hits' + misses' == hits + misses + ReadsOf(op)
  }

  ghost predicate StepOf(store: Store, now: Time, op: Op, answer: Answer, v: View, dropped: set<Key>,
                         hits: nat, misses: nat, used: nat)
    reads store
  {
    && store.Valid() && Refined(v, now, op, answer, LiveView(store.table, now), dropped)
    && Counted(v, op, hits, misses, store.hits, store.misses)
    && Roomy(op, dropped, store.maxMemory, used, store.usedBytes)
  }

  /** The store grows by at most what is written, and nothing is dropped as long as that fits. */
  ghost predicate Roomy(op: Op, dropped: set<Key>, budget: Option<nat>, used: nat, used': nat) {
    used' <= used + Written(op) && (budget.None? || used + Written(op) <= budget.value ==> dropped == {})
  }

  lemma NoneDropped(v: View)
    ensures v - {} == v
  {}

  method ExecuteGet(store: Store, now: Time, op: Op) returns (answer: Answer, ghost dropped: set<Key>)
    requires store.Valid() && op.Get?
    modifies store
    ensures StepOf(store, now, op, answer, LiveView(old(store.table), now), dropped,
                   old(store.hits), old(store.misses), old(store.usedBytes))
  {
    dropped := {};
    var r := store.Get(now, op.key);
    answer := Found(r);
  }

  method ExecuteGetDel(store: Store, now: Time, op: Op) returns (answer: Answer, ghost dropped: set<Key>)
    requires store.Valid() && op.GetDel?
    modifies store
    ensures StepOf(store, now, op, answer, LiveView(old(store.table), now), dropped,
                   old(store.hits), old(store.misses), old(store.usedBytes))
  {
    dropped := {};
    var r := store.GetDel(now, op.key);
    answer := Found(r);
    NoneDropped(LiveView(store.table, now));
  }

  method ExecuteGetEx(store: Store, now: Time, op: Op) returns (answer: Answer, ghost dropped: set<Key>)
    requires store.Valid() && op.GetEx?
    modifies store
    ensures StepOf(store, now, op, answer, LiveView(old(store.table), now), dropped,
                   old(store.hits), old(store.misses), old(store.usedBytes))
  {
    dropped := {};
    var r := store.GetEx(now, op.key, op.change);
    answer := Found(r);
    NoneDropped(LiveView(store.table, now));
  }

  method ExecuteMGet(store: Store, now: Time, op: Op) returns (answer: Answer, ghost dropped: set<Key>)
    requires store.Valid() && op.MGet?
    modifies store
    ensures StepOf(store, now, op, answer, LiveView(old(store.table), now), dropped,
                   old(store.hits), old(store.misses), old(store.usedBytes))
  {
    dropped := {};
    var r := store.MGet(now, op.keys);
    answer := Values(r);
    NoneDropped(LiveView(store.table, now));
  }

  method ExecuteDel(store: Store, now: Time, op: Op) returns (answer: Answer, ghost dropped: set<Key>)
    requires store.Valid() && op.Del?
    modifies store
    ensures StepOf(store, now, op, answer, LiveView(old(store.table), now), dropped,
                   old(store.hits), old(store.misses), old(store.usedBytes))
  {
    dropped := {};
    var r := store.Del(now, op.keys);
    answer := Number(r);
    NoneDropped(LiveView(store.table, now));
  }

  method ExecuteExists(store: Store, now: Time, op: Op) returns (answer: Answer, ghost dropped: set<Key>)
    requires store.Valid() && op.Exists?
    modifies store
    ensures StepOf(store, now, op, answer, LiveView(old(store.table), now), dropped,
                   old(store.hits), old(store.misses), old(store.usedBytes))
  {
    dropped := {};
    var r := store.Exists(now, op.keys);
    answer := Number(r);
  }

  method ExecuteDeadline(store: Store, now: Time, op: Op) returns (answer: Answer, ghost dropped: set<Key>)
    requires store.Valid() && (op.Persist? || op.Expire?)
    modifies store
    ensures StepOf(store, now, op, answer, LiveView(old(store.table), now), dropped,
                   old(store.hits), old(store.misses), old(store.usedBytes))
  {
    dropped := {};
    match op {
      case Persist(k) =>
        var r := store.Persist(now, k);
        answer := Flag(r);
      case Expire(k, d) =>
        var r := store.Expire(now, k, d);
        answer := Flag(r);
    }
  }

  method ExecuteTtl(store: Store, now: Time, op: Op) returns (answer: Answer, ghost dropped: set<Key>)
    requires store.Valid() && (op.TtlSeconds? || op.PttlMillis?)
    modifies store
    ensures StepOf(store, now, op, answer, LiveView(old(store.table), now), dropped,
                   old(store.hits), old(store.misses), old(store.usedBytes))
  {
    dropped := {};
    match op {
      case TtlSeconds(k) =>
        var r := store.TtlSeconds(now, k);
        answer := Number(r);
      case PttlMillis(k) =>
        var r := store.PttlMillis(now, k);
        answer := Number(r);
    }
  }

  method ExecuteSet(store: Store, now: Time, op: Op) returns (answer: Answer, ghost dropped: set<Key>)
    requires store.Valid() && op.Set?
    modifies store
    ensures StepOf(store, now, op, answer, LiveView(old(store.table), now), dropped,
                   old(store.hits), old(store.misses), old(store.usedBytes))
  {
    InsertAtMost(store.table, op.key, Entry(op.value, None, true));
    var applied, prior;
    applied, prior, dropped := store.Set(now, op.key, op.value, op.expiry, op.condition, op.wantOld);
    answer := SetOutcome(applied, prior);
  }

  method ExecuteIncr(store: Store, now: Time, op: Op) returns (answer: Answer, ghost dropped: set<Key>)
    requires store.Valid() && op.IncrBy?
    modifies store
    ensures StepOf(store, now, op, answer, LiveView(old(store.table), now), dropped,
                   old(store.hits), old(store.misses), old(store.usedBytes))
  {
    answer, dropped := store.IncrBy(now, op.key, op.delta);
    if answer.Incremented? {
      PrintLength(answer.n);
      InsertAtMost(old(store.table), op.key, Entry(Print(answer.n), None, true));
    }
  }

  method ExecuteBulk(store: Store, now: Time, op: Op) returns (answer: Answer, ghost dropped: set<Key>)
    requires store.Valid() && (op.MSet? || op.Clear?)
    modifies store
    ensures StepOf(store, now, op, answer, LiveView(old(store.table), now), dropped,
                   old(store.hits), old(store.misses), old(store.usedBytes))
  {
    dropped := {};
    match op {
      case MSet(pairs) =>
        dropped := store.MSet(pairs, now);
        answer := Done;
      case Clear =>
        store.Clear();
        answer := Done;
    }
  }

  /** Any operation: the reference's answer and view, less what eviction dropped to make room. */
  method Execute(store: Store, now: Time, op: Op) returns (answer: Answer, ghost dropped: set<Key>)
    requires store.Valid()
    modifies store
    ensures StepOf(store, now, op, answer, LiveView(old(store.table), now), dropped,
                   old(store.hits), old(store.misses), old(store.usedBytes))
  {
    if op.Get? {
      answer, dropped := ExecuteGet(store, now, op);
    } else if op.GetDel? {
      answer, dropped := ExecuteGetDel(store, now, op);
    } else if op.GetEx? {
      answer, dropped := ExecuteGetEx(store, now, op);
    } else if op.MGet? {
      answer, dropped := ExecuteMGet(store, now, op);
    } else if op.Del? {
      answer, dropped := ExecuteDel(store, now, op);
    } else if op.Exists? {
      answer, dropped := ExecuteExists(store, now, op);
    } else if op.Persist? || op.Expire? {
      answer, dropped := ExecuteDeadline(store, now, op);
    } else if op.TtlSeconds? || op.PttlMillis? {
      answer, dropped := ExecuteTtl(store, now, op);
    } else if op.Set? {
      answer, dropped := ExecuteSet(store, now, op);
    } else if op.IncrBy? {
      answer, dropped := ExecuteIncr(store, now, op);
    } else {
      answer, dropped := ExecuteBulk(store, now, op);
    }
  }

  // ------------------------------------------------------------------- runs

  datatype Call = Call(now: Time, op: Op)

  /** Time never goes backwards. */
  ghost predicate Timely(calls: seq<Call>) {
    forall i, j :: 0 <= i < j < |calls| ==> calls[i].now <= calls[j].now
  }

  /** The eager-expiry reference map, losing `drops[i]` after call `i`. */
  ghost function Reference(v: View, calls: seq<Call>, drops: seq<set<Key>>): (seq<Answer>, View)
    requires |calls| == |drops|
  {
    if calls == [] then ([], v)
    else
      var last := |calls| - 1;
      var (answers, before) := Reference(v, calls[..last], drops[..last]);
      var (answer, after) := Apply(Purge(before, calls[last].now), calls[last].now, calls[last].op);
      (answers + [answer], after - drops[last])
  }

  /** Each loss spares the key its call has just written, and without a budget nothing is lost. */
  ghost predicate FairDrops(calls: seq<Call>, drops: seq<set<Key>>, budget: Option<nat>) {
    |calls| == |drops| && forall i :: 0 <= i < |calls| ==> FairDrop(calls[i].op, drops[i], budget)
  }

  ghost predicate FairDrop(op: Op, dropped: set<Key>, budget: Option<nat>) {
    Spares(op, dropped) && (budget.None? ==> dropped == {})
  }

  /** What the first `n` calls can have written. */
  function WrittenBy(calls: seq<Call>, n: nat): nat
    requires n <= |calls|
  {
    if n == 0 then 0 else WrittenBy(calls, n - 1) + Written(calls[n - 1].op)
  }

  /** As long as all that was ever written fits in the budget, nothing is lost. */
  ghost predicate NoNeedlessDrops(calls: seq<Call>, drops: seq<set<Key>>, budget: Option<nat>) {
    |drops| <= |calls| && forall i :: 0 <= i < |drops| ==> DropAt(calls, drops, budget, i)
  }

  ghost predicate DropAt(calls: seq<Call>, drops: seq<set<Key>>, budget: Option<nat>, i: nat)
    requires i < |drops| <= |calls|
  {
    budget.Some? && WrittenBy(calls, i + 1) <= budget.value ==> drops[i] == {}
  }

  lemma NoNeedlessSnoc(calls: seq<Call>, drops: seq<set<Key>>, budget: Option<nat>, d: set<Key>)
    requires NoNeedlessDrops(calls, drops, budget) && |drops| < |calls|
    requires budget.Some? && WrittenBy(calls, |drops| + 1) <= budget.value ==> d == {}
    ensures NoNeedlessDrops(calls, drops + [d], budget)
  {
    forall i | 0 <= i < |drops| + 1 ensures DropAt(calls, drops + [d], budget, i) {
      if i < |drops| { assert DropAt(calls, drops, budget, i); }
    }
  }

  lemma FairDropsSnoc(calls: seq<Call>, drops: seq<set<Key>>, budget: Option<nat>, i: nat, dropped: set<Key>)
    requires i < |calls| && FairDrops(calls[..i], drops, budget) && FairDrop(calls[i].op, dropped, budget)
    ensures FairDrops(calls[..i + 1], drops + [dropped], budget)
  {
    forall j | 0 <= j < i + 1 ensures FairDrop(calls[..i + 1][j].op, (drops + [dropped])[j], budget) {
      if j < i {
        assert FairDrop(calls[..i][j].op, drops[j], budget);
      }
    }
  }

  /**
   * Any run, with sweeps of any size in between: the answers and the final view are those of the
   * reference map that loses only `drops`, never the key just written, nothing unbudgeted, and
   * nothing as long as all that was ever written fits in the budget.
   */
  method RunCalls(store: Store, calls: seq<Call>, sweeps: seq<nat>)
    returns (answers: seq<Answer>, ghost drops: seq<set<Key>>)
    requires store.Valid() && store.table == map[] && Timely(calls) && |sweeps| == |calls|
    modifies store
    ensures store.Valid() && FairDrops(calls, drops, store.maxMemory) && NoNeedlessDrops(calls, drops, store.maxMemory)
    ensures answers == Reference(map[], calls, drops).0
    ensures calls != [] ==> LiveView(store.table, calls[|calls| - 1].now) == Reference(map[], calls, drops).1
  {
    answers, drops := [], [];
    ghost var view: View := map[];
    ghost var now: Time := 0;
    assert calls[..0] == [] && LiveView(store.table, now) == view;
    for i := 0 to |calls|
      invariant store.Valid() && |drops| == i && FairDrops(calls[..i], drops, store.maxMemory)
      invariant Reference(map[], calls[..i], drops) == (answers, view) && LiveView(store.table, now) == view
      invariant NoNeedlessDrops(calls, drops, store.maxMemory) && store.usedBytes <= WrittenBy(calls, i)
      invariant i < |calls| ==> now <= calls[i].now
      invariant i > 0 ==> now == calls[i - 1].now
    {
      ghost var dropped;
      var answer;
      answer, dropped := Turn(store, calls, i, sweeps[i], answers, drops, view, now);
      FairDropsSnoc(calls, drops, store.maxMemory, i, dropped);
      NoNeedlessSnoc(calls, drops, store.maxMemory, dropped);
      answers, drops, now := answers + [answer], drops + [dropped], calls[i].now;
      view := LiveView(store.table, now);
    }
    assert calls[..|calls|] == calls;
  }

  /** One sweep and one call, against one turn of the reference. */
  method Turn(store: Store, calls: seq<Call>, i: nat, sweep: nat,
              ghost answers: seq<Answer>, ghost drops: seq<set<Key>>, ghost view: View, ghost before: Time)
    returns (answer: Answer, ghost dropped: set<Key>)
    requires store.Valid() && i < |calls| && |drops| == i && before <= calls[i].now
    requires Reference(map[], calls[..i], drops) == (answers, view) && LiveView(store.table, before) == view
    modifies store
    ensures store.Valid() && FairDrop(calls[i].op, dropped, store.maxMemory)
    ensures Roomy(calls[i].op, dropped, store.maxMemory, old(store.usedBytes), store.usedBytes)
    ensures Reference(map[], calls[..i + 1], drops + [dropped])
            == (answers + [answer], LiveView(store.table, calls[i].now))
  {
    var call := calls[i];
    ViewLater(store.table, before, call.now);
    var _, _ := store.ActiveExpireSweep(call.now, sweep);
    answer, dropped := Execute(store, call.now, call.op);
    ReferenceTurn(calls, drops, i, dropped);
  }

  lemma ReferenceTurn(calls: seq<Call>, drops: seq<set<Key>>, i: nat, dropped: set<Key>)
    requires i == |drops| < |calls|
    ensures var before := Reference(map[], calls[..i], drops);
            var r := Apply(Purge(before.1, calls[i].now), calls[i].now, calls[i].op);
            Reference(map[], calls[..i + 1], drops + [dropped]) == (before.0 + [r.0], r.1 - dropped)
  {
    assert calls[..i + 1][..i] == calls[..i] && (drops + [dropped])[..i] == drops;
  }

  // --------------------------------------------------------------- counters

  /** The reference view after the first `i` calls. */
  ghost function ViewAt(calls: seq<Call>, drops: seq<set<Key>>, i: nat): View
    requires i <= |calls| == |drops|
  {
    Reference(map[], calls[..i], drops[..i]).1
  }

  /** What call `i` answers. */
  ghost function AnswerAt(calls: seq<Call>, drops: seq<set<Key>>, i: nat): Answer
    requires i < |calls| == |drops|
  {
    Reference(map[], calls[..i + 1], drops[..i + 1]).0[|Reference(map[], calls[..i + 1], drops[..i + 1]).0| - 1]
  }

  /** `op` cannot change what is stored under `k`. */
  ghost predicate LeavesAlone(op: Op, k: Key) {
    match op
    case Set(k', _, _, _, _) => k' != k
    case Clear => false
    case Persist(k') => k' != k
    case GetDel(k') => k' != k
    case GetEx(k', change) => k' != k || change.None?
    case Del(keys) => k !in keys
    case Expire(k', _) => k' != k
    case IncrBy(k', _) => k' != k
    case MSet(pairs) => forall i :: 0 <= i < |pairs| ==> pairs[i].0 != k
    case _ => true
  }

  ghost predicate SameAt(v: View, v': View, k: Key) {
    (k in v <==> k in v') && (k in v ==> v'[k] == v[k])
  }

  lemma {:induction false} PutAllElsewhere(v: View, pairs: seq<(Key, Value)>, k: Key)
    requires forall i :: 0 <= i < |pairs| ==> pairs[i].0 != k
    ensures SameAt(v, PutAll(v, pairs), k)
  {
    if pairs != [] {
      PutAllElsewhere(v, pairs[..|pairs| - 1], k);
    }
  }

  lemma ApplyElsewhere(v: View, now: Time, op: Op, k: Key)
    requires LeavesAlone(op, k)
    ensures SameAt(v, Apply(v, now, op).1, k)
  {
    if op.MSet? {
      PutAllElsewhere(v, op.pairs, k);
    } else if op.Del? {
      KeySetMembers(op.keys, k);
    }
  }

  /** The deadline `k` carries after call `i` is still ahead at time `now`. */
  ghost predicate Unexpired(v: View, k: Key, now: Time) {
    DeadlineOf(v, k).Some? ==> now < DeadlineOf(v, k).value
  }

  /** Between calls `i` and `j` the key is only ever incremented, and does not expire. */
  ghost predicate OnlyCounted(calls: seq<Call>, drops: seq<set<Key>>, k: Key, i: nat, j: nat)
    requires i <= j <= |calls| == |drops|
  {
    var v := ViewAt(calls, drops, i);
    forall m :: i <= m < j ==> CountedAt(calls, v, k, m)
  }

  ghost predicate CountedAt(calls: seq<Call>, v: View, k: Key, m: nat)
    requires m < |calls|
  {
    ((calls[m].op.IncrBy? && calls[m].op.key == k) || LeavesAlone(calls[m].op, k)) && Unexpired(v, k, calls[m].now)
  }

  lemma PurgeKeeps(v: View, k: Key, now: Time)
    requires Unexpired(v, k, now)
    ensures SameAt(v, Purge(v, now), k)
  {}

  /** One increment: the number moves by delta, or nothing at all changes; the deadline stays. */
  lemma IncrCounts(v: View, k: Key, delta: int, now: Time)
    requires CounterValue(v, k).Some? && Unexpired(v, k, now)
    ensures var (answer, v') := Incr(v, k, delta, now);
            && DeadlineOf(v', k) == DeadlineOf(v, k)
            && (answer.Incremented? ==> CounterValue(v', k) == Some(CounterValue(v, k).value + delta))
            && (!answer.Incremented? ==> v' == v)
  {
    ParsePrint(CounterValue(v, k).value + delta);
  }

  lemma TurnAt(calls: seq<Call>, drops: seq<set<Key>>, m: nat)
    requires m < |calls| == |drops| && drops[m] == {}
    ensures var call := calls[m];
            (AnswerAt(calls, drops, m), ViewAt(calls, drops, m + 1))
            == Apply(Purge(ViewAt(calls, drops, m), call.now), call.now, call.op)
  {
    ReferenceTurn(calls, drops[..m], m, {});
    assert drops[..m] + [{}] == drops[..m + 1];
    var r := Apply(Purge(ViewAt(calls, drops, m), calls[m].now), calls[m].now, calls[m].op);
    assert r.1 - {} == r.1;
  }

  /** From `v` to `v'` the counter moves by `gain` and keeps its deadline. */
  ghost predicate MovesBy(v: View, v': View, k: Key, gain: int) {
    && CounterValue(v, k).Some? && CounterValue(v', k) == Some(CounterValue(v, k).value + gain)
    && DeadlineOf(v', k) == DeadlineOf(v, k)
  }

  function Sum(gains: seq<int>, i: nat, j: nat): int
    requires i <= j <= |gains|
  {
    if i == j then 0 else Sum(gains, i, j - 1) + gains[j - 1]
  }

  /** Steps that move the counter as long as it is one and still has its first deadline add up. */
  lemma {:induction false} StepsAddUp(views: seq<View>, gains: seq<int>, k: Key, i: nat, j: nat)
    requires i <= j <= |gains| < |views| && CounterValue(views[i], k).Some?
    requires forall m :: i <= m < j ==> MovesOn(views, gains, k, i, m)
    ensures MovesBy(views[i], views[j], k, Sum(gains, i, j))
    decreases j
  {
    if i < j {
      StepsAddUp(views, gains, k, i, j - 1);
      assert MovesOn(views, gains, k, i, j - 1);
    }
  }

  ghost predicate MovesOn(views: seq<View>, gains: seq<int>, k: Key, i: nat, m: nat)
    requires i <= m < |gains| < |views|
  {
    CounterValue(views[m], k).Some? && DeadlineOf(views[m], k) == DeadlineOf(views[i], k) ==>
      MovesBy(views[m], views[m + 1], k, gains[m])
  }

  ghost function Views(calls: seq<Call>, drops: seq<set<Key>>): seq<View>
    requires |calls| == |drops|
  {
    seq(|calls| + 1, i requires 0 <= i <= |calls| => ViewAt(calls, drops, i))
  }

  /** By how much each call moved the counter: its delta if it is an increment that succeeded. */
  ghost function Gains(calls: seq<Call>, drops: seq<set<Key>>, k: Key): seq<int>
    requires |calls| == |drops|
  {
    seq(|calls|, m requires 0 <= m < |calls| => GainAt(calls, drops, k, m))
  }

  /**
   * Counters count: in an unbudgeted store, whatever runs on other keys, a live counter moves by
   * exactly the increments that succeeded, stays an i64, and keeps its deadline.
   */
  lemma CounterIsSumOfIncrements(calls: seq<Call>, drops: seq<set<Key>>, k: Key, i: nat, j: nat)
    requires i <= j <= |calls| && FairDrops(calls, drops, None)
    requires CounterValue(ViewAt(calls, drops, i), k).Some? && OnlyCounted(calls, drops, k, i, j)
    ensures MovesBy(ViewAt(calls, drops, i), ViewAt(calls, drops, j), k, Sum(Gains(calls, drops, k), i, j))
    ensures InI64(CounterValue(ViewAt(calls, drops, j), k).value)
  {
    var views, gains := Views(calls, drops), Gains(calls, drops, k);
    forall m | i <= m < j ensures MovesOn(views, gains, k, i, m) {
      CounterMovesOn(calls, drops, k, i, j, m);
    }
    StepsAddUp(views, gains, k, i, j);
    CounterInRange(ViewAt(calls, drops, j), k);
  }

  lemma CounterMovesOn(calls: seq<Call>, drops: seq<set<Key>>, k: Key, i: nat, j: nat, m: nat)
    requires i <= m < j <= |calls| && FairDrops(calls, drops, None) && OnlyCounted(calls, drops, k, i, j)
    ensures MovesOn(Views(calls, drops), Gains(calls, drops, k), k, i, m)
  {
    var v := ViewAt(calls, drops, i);
    assert CountedAt(calls, v, k, m) && FairDrop(calls[m].op, drops[m], None);
    CounterMovesFrom(calls, drops, k, v, m);
    var views := Views(calls, drops);
    assert views[i] == v && views[m] == ViewAt(calls, drops, m) && views[m + 1] == ViewAt(calls, drops, m + 1);
  }

  lemma CounterMovesFrom(calls: seq<Call>, drops: seq<set<Key>>, k: Key, v: View, m: nat)
    requires m < |calls| == |drops| && drops[m] == {} && CountedAt(calls, v, k, m)
    ensures var w := ViewAt(calls, drops, m);
            CounterValue(w, k).Some? && DeadlineOf(w, k) == DeadlineOf(v, k) ==>
              MovesBy(w, ViewAt(calls, drops, m + 1), k, GainAt(calls, drops, k, m))
  {
    var w := ViewAt(calls, drops, m);
    if CounterValue(w, k).Some? && DeadlineOf(w, k) == DeadlineOf(v, k) {
      CountedMoves(calls, v, w, k, m);
      CounterTurnAt(calls, drops, k, m);
    }
  }

  lemma CountedMoves(calls: seq<Call>, v: View, v': View, k: Key, m: nat)
    requires m < |calls| && CountedAt(calls, v, k, m) && DeadlineOf(v, k) == DeadlineOf(v', k)
    ensures CountedAt(calls, v', k, m)
  {}

  lemma CounterInRange(v: View, k: Key)
    ensures CounterValue(v, k).Some? ==> InI64(CounterValue(v, k).value)
  {}

  /** The number by which call `m` moved the counter. */
  ghost function GainAt(calls: seq<Call>, drops: seq<set<Key>>, k: Key, m: nat): int
    requires m < |calls| == |drops|
  {
    var op := calls[m].op;
    if op.IncrBy? && op.key == k && AnswerAt(calls, drops, m).Incremented? then op.delta else 0
  }

  lemma CounterTurnAt(calls: seq<Call>, drops: seq<set<Key>>, k: Key, m: nat)
    requires m < |calls| == |drops| && drops[m] == {}
    requires CounterValue(ViewAt(calls, drops, m), k).Some? && CountedAt(calls, ViewAt(calls, drops, m), k, m)
    ensures var v, v' := ViewAt(calls, drops, m), ViewAt(calls, drops, m + 1);
            && CounterValue(v', k) == Some(CounterValue(v, k).value + GainAt(calls, drops, k, m))
            && DeadlineOf(v', k) == DeadlineOf(v, k)
  {
    TurnAt(calls, drops, m);
    CounterTurn(ViewAt(calls, drops, m), calls[m].now, calls[m].op, k);
  }

  lemma CounterTurn(v: View, now: Time, op: Op, k: Key)
    requires CounterValue(v, k).Some? && Unexpired(v, k, now)
    requires (op.IncrBy? && op.key == k) || LeavesAlone(op, k)
    ensures var (answer, v') := Apply(Purge(v, now), now, op);
            var gain := if op.IncrBy? && op.key == k && answer.Incremented? then op.delta else 0;
            CounterValue(v', k) == Some(CounterValue(v, k).value + gain) && DeadlineOf(v', k) == DeadlineOf(v, k)
  {
    PurgeKeeps(v, k, now);
    if op.IncrBy? && op.key == k {
      IncrCounts(Purge(v, now), k, op.delta, now);
    } else {
      ApplyElsewhere(Purge(v, now), now, op, k);
    }
  }
}

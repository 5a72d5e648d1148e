/** What each operation means to a client, key by key, and what that comes to over whole runs. */
module StoreLaws {
  import opened Bytes
  import opened Decimal
  import opened StoreSpec
  import S = Store
  import opened StoreRuns

  /** Nothing but `k` is touched. */
  ghost predicate OthersSame(v: View, v': View, k: Key) {
    forall j :: j != k ==> SameAt(v, v', j)
  }

  /** `k` holds exactly `x` until `d`; at `d` and after it is gone. */
  ghost predicate HoldsUntil(v: View, k: Key, x: Value, d: Time, now: Time) {
    if now < d then k in v && v[k].value == x && v[k].deadline == Some(d) else k !in v
  }

  ghost predicate HoldsForever(v: View, k: Key, x: Value) {
    k in v && v[k].value == x && v[k].deadline == None
  }

  // -------------------------------------------------------------- single calls

  /** SET: when it applies, what it answers, and which deadline the key then has. */
  lemma SetLaw(v: View, now: Time, k: Key, x: Value, e: Expiry, c: Condition, wantOld: bool)
    ensures var (answer, v') := Apply(v, now, Set(k, x, e, c, wantOld));
            && answer.SetOutcome? && OthersSame(v, v', k)
            && (answer.applied <==> !(c == IfExists && k !in v) && !(c == IfNotExists && k in v))
            && answer.oldValue == (if wantOld && k in v then Some(v[k].value) else None)
            && (!answer.applied ==> v' == v)
            && (answer.applied && e == NoExpiry ==> HoldsForever(v', k, x))
            && (answer.applied && e == KeepTtl && k !in v ==> HoldsForever(v', k, x))
            && (answer.applied && e == KeepTtl && k in v && v[k].deadline.None? ==> HoldsForever(v', k, x))
            && (answer.applied && e == KeepTtl && k in v && v[k].deadline.Some? ==>
                  HoldsUntil(v', k, x, v[k].deadline.value, now))
            && (answer.applied && e.At? ==> HoldsUntil(v', k, x, e.deadline, now))
  {}

  lemma GetLaw(v: View, now: Time, k: Key)
    ensures Apply(v, now, Get(k)) == (Found(if k in v then Some(v[k].value) else None), v)
  {}

  lemma GetDelLaw(v: View, now: Time, k: Key)
    ensures var (answer, v') := Apply(v, now, GetDel(k));
            && answer == Found(if k in v then Some(v[k].value) else None) && k !in v' && OthersSame(v, v', k)
  {}

  /** GETEX: the value is read; the deadline changes only if asked, and then as asked. */
  lemma GetExLaw(v: View, now: Time, k: Key, change: Option<Expiry>)
    ensures var (answer, v') := Apply(v, now, GetEx(k, change));
            && answer == Found(if k in v then Some(v[k].value) else None) && OthersSame(v, v', k)
            && (change == None || k !in v ==> v' == v)
            && (k in v && change == Some(KeepTtl) && (v[k].deadline.Some? ==> now < v[k].deadline.value) ==> v' == v)
            && (k in v && change == Some(NoExpiry) ==> HoldsForever(v', k, v[k].value))
            && (k in v && change.Some? && change.value.At? ==>
                  HoldsUntil(v', k, v[k].value, change.value.deadline, now))
  {}

  lemma PersistLaw(v: View, now: Time, k: Key)
    ensures var (answer, v') := Apply(v, now, Persist(k));
            && OthersSame(v, v', k) && answer == Flag(k in v && v[k].deadline.Some?)
            && (if k in v then HoldsForever(v', k, v[k].value) else k !in v')
  {}

  lemma ExpireLaw(v: View, now: Time, k: Key, d: Time)
    ensures var (answer, v') := Apply(v, now, Expire(k, d));
            && OthersSame(v, v', k) && answer == Flag(k in v)
            && (if k in v then HoldsUntil(v', k, v[k].value, d, now) else k !in v')
  {}

  lemma CountIsDifference(v: View, gone: set<Key>)
    ensures |v.Keys * gone| == |v.Keys| - |(v - gone).Keys|
  {
    assert (v - gone).Keys == v.Keys - gone;
    assert v.Keys == (v.Keys - gone) + v.Keys * gone;
  }

  lemma WithoutKeys(v: View, keys: seq<Key>)
    ensures forall j :: j in keys ==> j !in v - KeySet(keys)
    ensures forall j :: j !in keys ==> SameAt(v, v - KeySet(keys), j)
    ensures CountRemoved(v, keys) == |v.Keys| - |(v - KeySet(keys)).Keys|
  {
    forall j ensures j in KeySet(keys) <==> j in keys { KeySetMembers(keys, j); }
    CountRemovedIsDistinctPresent(v, keys);
    CountIsDifference(v, KeySet(keys));
  }

  lemma DelIs(v: View, now: Time, keys: seq<Key>)
    ensures Apply(v, now, Del(keys)) == (Number(CountRemoved(v, keys)), v - KeySet(keys))
  {}

  /** DEL: every listed key is gone, no other is touched, and the answer is how many there were. */
  lemma DelLaw(v: View, now: Time, keys: seq<Key>, r: (Answer, View))
    requires r == Apply(v, now, Del(keys))
    ensures (forall j :: j in keys ==> j !in r.1) && (forall j :: j !in keys ==> SameAt(v, r.1, j))
    ensures r.0 == Number(|v.Keys| - |r.1.Keys|)
  {
    DelIs(v, now, keys);
    WithoutKeys(v, keys);
  }

  /** EXISTS counts each position of the list that names a live key. */
  lemma {:induction false} ExistsLaw(v: View, now: Time, keys: seq<Key>)
    ensures Apply(v, now, Exists(keys)) == (Number(|Positions(v, keys)|), v)
  {
    if keys == [] {
      assert Positions(v, keys) == {};
    } else {
      var last := |keys| - 1;
      ExistsLaw(v, now, keys[..last]);
      PositionsGrow(v, keys);
    }
  }

  ghost function Positions(v: View, keys: seq<Key>): set<int> {
    set i | 0 <= i < |keys| && keys[i] in v
  }

  lemma PositionsGrow(v: View, keys: seq<Key>)
    requires keys != []
    ensures var last := |keys| - 1;
            |Positions(v, keys)| == |Positions(v, keys[..last])| + if keys[last] in v then 1 else 0
  {
    var last := |keys| - 1;
    var fewer := Positions(v, keys[..last]);
    if keys[last] in v {
      assert Positions(v, keys) == fewer + {last};
    } else {
      assert Positions(v, keys) == fewer;
    }
  }

  lemma MGetLaw(v: View, now: Time, keys: seq<Key>)
    ensures var (answer, v') := Apply(v, now, MGet(keys));
            && v' == v && answer.Values? && |answer.values| == |keys|
            && forall i :: 0 <= i < |keys| ==> answer.values[i] == if keys[i] in v then Some(v[keys[i]].value) else None
  {}

  lemma {:induction false} PutAllLast(v: View, pairs: seq<(Key, Value)>, i: nat)
    requires i < |pairs| && forall j :: i < j < |pairs| ==> pairs[j].0 != pairs[i].0
    ensures HoldsForever(PutAll(v, pairs), pairs[i].0, pairs[i].1)
  {
    var last := |pairs| - 1;
    if i < last {
      PutAllLast(v, pairs[..last], i);
      assert pairs[last].0 != pairs[i].0;
    }
  }

  lemma MSetIs(v: View, now: Time, pairs: seq<(Key, Value)>)
    ensures Apply(v, now, MSet(pairs)) == (Done, PutAll(v, pairs))
  {}

  /** MSET: a key holds the last value given for it, without a deadline; no other key is touched. */
  lemma MSetLaw(v: View, now: Time, pairs: seq<(Key, Value)>, v': View)
    requires v' == Apply(v, now, MSet(pairs)).1
    ensures forall i :: 0 <= i < |pairs| && (forall j :: i < j < |pairs| ==> pairs[j].0 != pairs[i].0) ==>
              HoldsForever(v', pairs[i].0, pairs[i].1)
    ensures forall k :: (forall i :: 0 <= i < |pairs| ==> pairs[i].0 != k) ==> SameAt(v, v', k)
  {
    MSetIs(v, now, pairs);
    forall i | 0 <= i < |pairs| && (forall j :: i < j < |pairs| ==> pairs[j].0 != pairs[i].0)
      ensures HoldsForever(v', pairs[i].0, pairs[i].1)
    {
      PutAllLast(v, pairs, i);
    }
    forall k | (forall i :: 0 <= i < |pairs| ==> pairs[i].0 != k) ensures SameAt(v, v', k) {
      PutAllElsewhere(v, pairs, k);
    }
  }

  /** TTL and PTTL: whole milliseconds left, and the nearest whole second to those. */
  lemma TtlLaw(v: View, now: Time, k: Key)
    requires k in v ==> SlotLive(v[k], now)
    ensures var ms, sec := Apply(v, now, PttlMillis(k)).0, Apply(v, now, TtlSeconds(k)).0;
            && ms.Number? && sec.Number? && Apply(v, now, PttlMillis(k)).1 == v && Apply(v, now, TtlSeconds(k)).1 == v
            && (k !in v ==> ms.n == sec.n == -2)
            && (k in v && v[k].deadline.None? ==> ms.n == sec.n == -1)
            && (k in v && v[k].deadline.Some? ==>
                  && now + ms.n * 1_000_000 <= v[k].deadline.value < now + (ms.n + 1) * 1_000_000
                  && -500 <= ms.n - sec.n * 1000 < 500 && sec.n >= 0)
  {}

  /** INCR and its kin: a key that is not there counts as 0; what is stored is the decimal text. */
  lemma IncrLaw(v: View, now: Time, k: Key, delta: int)
    requires k in v ==> SlotLive(v[k], now)
    ensures var (answer, v') := Apply(v, now, IncrBy(k, delta));
            var was := if k in v then ParseI64(v[k].value) else Some(0);
            && OthersSame(v, v', k)
            && (was.None? ==> answer == IncrFailed(NotAnInteger) && v' == v)
            && (was.Some? && !InI64(was.value + delta) ==> answer == IncrFailed(Overflow) && v' == v)
            && (was.Some? && InI64(was.value + delta) ==>
                  && answer == Incremented(was.value + delta)
                  && k in v' && v'[k].value == Print(was.value + delta)
                  && v'[k].deadline == if k in v then v[k].deadline else None)
  {}

  lemma ClearLaw(v: View, now: Time)
    ensures Apply(v, now, Clear) == (Done, map[])
  {}

  /** Time alone removes a key exactly when its deadline has been reached. */
  lemma PurgeLaw(v: View, now: Time, k: Key)
    ensures var v' := Purge(v, now);
            && (k in v' ==> k in v && v'[k] == v[k])
            && (k in v ==> (k !in v' <==> v[k].deadline.Some? && v[k].deadline.value <= now))
  {}

  /** The table shows an entry until its deadline is reached. */
  lemma LiveLaw(m: S.Table, now: Time, k: Key)
    ensures k in S.LiveView(m, now) <==> k in m && (m[k].expiresAt.Some? ==> now < m[k].expiresAt.value)
    ensures k in S.LiveView(m, now) ==> S.LiveView(m, now)[k] == Slot(m[k].value, m[k].expiresAt)
  {}

  /** An entry is charged its key, its value and 96 bytes. */
  lemma ChargeLaw(k: Key, e: S.Entry)
    ensures S.Total(map[k := e]) == |k| + |e.value| + 96
  {
    var m := map[k := e];
    S.TotalRemove(m, k);
    assert m - {k} == map[];
  }

  // -------------------------------------------------------------------- runs

  /** Calls `i` to `j` leave a key alone. */
  ghost predicate Untouched(calls: seq<Call>, k: Key, i: nat, j: nat)
    requires i <= j <= |calls|
  {
    forall m :: i <= m < j ==> LeavesAlone(calls[m].op, k)
  }

  /** What call `i` wrote is there after call `j`, and as long after that as its deadline allows. */
  lemma {:induction false} WrittenStays(calls: seq<Call>, drops: seq<set<Key>>, k: Key, s: Slot, i: nat, j: nat)
    requires i <= j <= |calls| && FairDrops(calls, drops, None) && Untouched(calls, k, i, j)
    requires k in ViewAt(calls, drops, i) && ViewAt(calls, drops, i)[k] == s
    requires forall m :: i <= m < j ==> SlotLive(s, calls[m].now)
    ensures k in ViewAt(calls, drops, j) && ViewAt(calls, drops, j)[k] == s
    decreases j
  {
    if i < j {
      var m := j - 1;
      WrittenStays(calls, drops, k, s, i, m);
      assert LeavesAlone(calls[m].op, k) && FairDrop(calls[m].op, drops[m], None);
      StaysOneCall(calls, drops, k, s, m);
    }
  }

  lemma StaysOneCall(calls: seq<Call>, drops: seq<set<Key>>, k: Key, s: Slot, m: nat)
    requires m < |calls| == |drops| && drops[m] == {} && LeavesAlone(calls[m].op, k) && SlotLive(s, calls[m].now)
    requires k in ViewAt(calls, drops, m) && ViewAt(calls, drops, m)[k] == s
    ensures k in ViewAt(calls, drops, m + 1) && ViewAt(calls, drops, m + 1)[k] == s
  {
    TurnAt(calls, drops, m);
    ApplyElsewhere(Purge(ViewAt(calls, drops, m), calls[m].now), calls[m].now, calls[m].op, k);
  }

  /**
   * Unbudgeted, what a plain SET wrote is live, without a deadline, at every time after it until an
   * operation names the key.
   */
  lemma PlainSetLasts(calls: seq<Call>, drops: seq<set<Key>>, i: nat, j: nat, k: Key, x: Value, wantOld: bool, t: Time)
    requires i < j <= |calls| && FairDrops(calls, drops, None) && Untouched(calls, k, i + 1, j)
    requires calls[i].op == Set(k, x, NoExpiry, Always, wantOld)
    ensures HoldsForever(Purge(ViewAt(calls, drops, j), t), k, x)
  {
    assert FairDrop(calls[i].op, drops[i], None);
    TurnAt(calls, drops, i);
    SetLaw(Purge(ViewAt(calls, drops, i), calls[i].now), calls[i].now, k, x, NoExpiry, Always, wantOld);
    WrittenStays(calls, drops, k, Slot(x, None), i + 1, j);
  }

  /** And what a SET with a deadline wrote is live until exactly then. */
  lemma TimedSetLasts(calls: seq<Call>, drops: seq<set<Key>>, i: nat, j: nat, k: Key, x: Value, d: Time, wantOld: bool,
                      t: Time)
    requires i < j <= |calls| && FairDrops(calls, drops, None) && Untouched(calls, k, i + 1, j)
    requires calls[i].op == Set(k, x, At(d), Always, wantOld)
    requires forall m :: i <= m < j ==> calls[m].now < d
    ensures var v := Purge(ViewAt(calls, drops, j), t);
            (k in v <==> t < d) && (k in v ==> v[k] == Slot(x, Some(d)))
  {
    assert FairDrop(calls[i].op, drops[i], None);
    TurnAt(calls, drops, i);
    SetLaw(Purge(ViewAt(calls, drops, i), calls[i].now), calls[i].now, k, x, At(d), Always, wantOld);
    WrittenStays(calls, drops, k, Slot(x, Some(d)), i + 1, j);
  }
}

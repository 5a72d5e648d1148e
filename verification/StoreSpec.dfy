/** What the cache means to its clients: a map with deadlines that expires eagerly. */
module StoreSpec {
  import opened Bytes
  import opened Decimal

  type Value = seq<byte>

  /** A live entry as a client can observe it. */
  datatype Slot = Slot(value: Value, deadline: Option<Time>)

  type View = map<Key, Slot>

  datatype Expiry = NoExpiry | KeepTtl | At(deadline: Time)

  datatype Condition = Always | IfExists | IfNotExists

  datatype Op =
    | Get(key: Key)
    | Set(key: Key, value: Value, expiry: Expiry, condition: Condition, wantOld: bool)
    | Clear
    | Persist(key: Key)
    | GetDel(key: Key)
    | GetEx(key: Key, change: Option<Expiry>)
    | Del(keys: seq<Key>)
    | Exists(keys: seq<Key>)
    | TtlSeconds(key: Key)
    | PttlMillis(key: Key)
    | Expire(key: Key, deadline: Time)
    | IncrBy(key: Key, delta: int)
    | MGet(keys: seq<Key>)
    | MSet(pairs: seq<(Key, Value)>)

  datatype IncrError = NotAnInteger | Overflow

  datatype Answer =
    | Done
    | Found(value: Option<Value>)
    | SetOutcome(applied: bool, oldValue: Option<Value>)
    | Flag(yes: bool)
    | Number(n: int)
    | Incremented(n: int)
    | IncrFailed(why: IncrError)
    | Values(values: seq<Option<Value>>)

  predicate SlotLive(s: Slot, now: Time) { s.deadline.Some? ==> now < s.deadline.value }

  /** What is left of a view at a later time. */
  function Purge(v: View, now: Time): View {
    map k | k in v && SlotLive(v[k], now) :: v[k]
  }

  /** A write; a deadline already reached means the key is gone. */
  function Put(v: View, k: Key, s: Slot, now: Time): View {
    if SlotLive(s, now) then v[k := s] else v - {k}
  }

  function Lookup(v: View, k: Key): Option<Value> { if k in v then Some(v[k].value) else None }

  function DeadlineOf(v: View, k: Key): Option<Time> { if k in v then v[k].deadline else None }

  function NewDeadline(v: View, k: Key, e: Expiry): Option<Time> {
    match e
    case NoExpiry => None
    case KeepTtl => DeadlineOf(v, k)
    case At(d) => Some(d)
  }

  predicate Allowed(v: View, k: Key, c: Condition) {
    match c
    case Always => true
    case IfExists => k in v
    case IfNotExists => k !in v
  }

  function KeySet(keys: seq<Key>): set<Key> {
    if keys == [] then {} else KeySet(keys[..|keys| - 1]) + {keys[|keys| - 1]}
  }

  lemma {:induction false} KeySetMembers(keys: seq<Key>, k: Key)
    ensures k in KeySet(keys) <==> k in keys
  {
    if keys != [] {
      KeySetMembers(keys[..|keys| - 1], k);
      assert keys == keys[..|keys| - 1] + [keys[|keys| - 1]];
    }
  }

  /** How many keys of a list a delete removes: those present, each once. */
  function CountRemoved(v: View, keys: seq<Key>): nat {
    if keys == [] then 0
    else
      var init, last := keys[..|keys| - 1], keys[|keys| - 1];
      CountRemoved(v, init) + if last in v && last !in KeySet(init) then 1 else 0
  }

  lemma {:induction false} CountRemovedIsDistinctPresent(v: View, keys: seq<Key>)
    ensures CountRemoved(v, keys) == |v.Keys * KeySet(keys)|
  {
    if keys != [] {
      var init, last := keys[..|keys| - 1], keys[|keys| - 1];
      CountRemovedIsDistinctPresent(v, init);
      CountMore(v.Keys, KeySet(init), last);
    }
  }

  lemma CountMore(all: set<Key>, done: set<Key>, k: Key)
    ensures |all * (done + {k})| == |all * done| + if k in all && k !in done then 1 else 0
  {
    if k in all && k !in done {
      assert all * (done + {k}) == all * done + {k};
    } else {
      assert all * (done + {k}) == all * done;
    }
  }

  function CountPresent(v: View, keys: seq<Key>): nat {
    if keys == [] then 0
    else CountPresent(v, keys[..|keys| - 1]) + if keys[|keys| - 1] in v then 1 else 0
  }

  function LookupAll(v: View, keys: seq<Key>): seq<Option<Value>> {
    seq(|keys|, i requires 0 <= i < |keys| => Lookup(v, keys[i]))
  }

  function PutAll(v: View, pairs: seq<(Key, Value)>): View {
    if pairs == [] then v
    else
      var (k, x) := pairs[|pairs| - 1];
      PutAll(v, pairs[..|pairs| - 1])[k := Slot(x, None)]
  }

  const PER_ENTRY_OVERHEAD_BYTES: nat := 96

  /** The accounted size of an entry. */
  function WriteBytes(k: Key, x: Value): nat { |k| + |x| + PER_ENTRY_OVERHEAD_BYTES }

  function PairsBytes(pairs: seq<(Key, Value)>): nat {
    if pairs == [] then 0
    else PairsBytes(pairs[..|pairs| - 1]) + WriteBytes(pairs[|pairs| - 1].0, pairs[|pairs| - 1].1)
  }

  const MAX_I64_DIGITS: nat := 20

  /** How many bytes an operation can add to the store. */
  function Written(op: Op): nat {
    match op
    case Set(k, x, _, _, _) => WriteBytes(k, x)
    case IncrBy(k, _) => |k| + MAX_I64_DIGITS + PER_ENTRY_OVERHEAD_BYTES
    case MSet(pairs) => PairsBytes(pairs)
    case _ => 0
  }

  function Millis(d: nat): nat { d / 1_000_000 }

  function RemainingMillis(v: View, k: Key, now: Time): int {
    if k !in v then -2
    else if v[k].deadline.None? then -1
    else if v[k].deadline.value <= now then 0
    else Millis(v[k].deadline.value - now)
  }

  function RemainingSeconds(v: View, k: Key, now: Time): int {
    var ms := RemainingMillis(v, k, now);
    if ms < 0 then ms else (ms + 500) / 1000
  }

  /** The number a counter key currently stands for; a missing key counts as zero. */
  function CounterValue(v: View, k: Key): Option<int> {
    if k in v then ParseI64(v[k].value) else Some(0)
  }

  function Incr(v: View, k: Key, delta: int, now: Time): (Answer, View) {
    match CounterValue(v, k)
    case None => (IncrFailed(NotAnInteger), v)
    case Some(n) =>
      if !InI64(n + delta) then (IncrFailed(Overflow), v)
      else (Incremented(n + delta), Put(v, k, Slot(Print(n + delta), DeadlineOf(v, k)), now))
  }

  /** One operation on a view that is already purged at `now`. */
  function Apply(v: View, now: Time, op: Op): (Answer, View) {
    match op
    case Get(k) => (Found(Lookup(v, k)), v)
    case Set(k, x, e, c, wantOld) =>
      var prior := if wantOld then Lookup(v, k) else None;
      if Allowed(v, k, c) then (SetOutcome(true, prior), Put(v, k, Slot(x, NewDeadline(v, k, e)), now))
      else (SetOutcome(false, prior), v)
    case Clear => (Done, map[])
    case Persist(k) =>
      if DeadlineOf(v, k).Some? then (Flag(true), v[k := Slot(v[k].value, None)]) else (Flag(false), v)
    case GetDel(k) => (Found(Lookup(v, k)), v - {k})
    case GetEx(k, change) =>
      (Found(Lookup(v, k)),
       if k in v && change.Some? then Put(v, k, Slot(v[k].value, NewDeadline(v, k, change.value)), now) else v)
    case Del(keys) => (Number(CountRemoved(v, keys)), v - KeySet(keys))
    case Exists(keys) => (Number(CountPresent(v, keys)), v)
    case TtlSeconds(k) => (Number(RemainingSeconds(v, k, now)), v)
    case PttlMillis(k) => (Number(RemainingMillis(v, k, now)), v)
    case Expire(k, d) =>
      if k in v then (Flag(true), Put(v, k, Slot(v[k].value, Some(d)), now)) else (Flag(false), v)
    case IncrBy(k, delta) => Incr(v, k, delta, now)
    case MGet(keys) => (Values(LookupAll(v, keys)), v)
    case MSet(pairs) => (Done, PutAll(v, pairs))
  }

  /** The key an operation has just written, which eviction must spare. */
  ghost predicate Spares(op: Op, dropped: set<Key>) {
    match op
    case Set(k, _, _, _, _) => k !in dropped
    case IncrBy(k, _) => k !in dropped
    case MSet(pairs) => if pairs == [] then dropped == {} else pairs[|pairs| - 1].0 !in dropped
    case _ => dropped == {}
  }

  /** Counter bumps of the read operations. */
  function HitsOf(v: View, op: Op): nat {
    match op
    case Get(k) => if k in v then 1 else 0
    case GetDel(k) => if k in v then 1 else 0
    case GetEx(k, _) => if k in v then 1 else 0
    case MGet(keys) => CountPresent(v, keys)
    case _ => 0
  }

  function ReadsOf(op: Op): nat {
    match op
    case Get(_) => 1
    case GetDel(_) => 1
    case GetEx(_, _) => 1
    case MGet(keys) => |keys|
    case _ => 0
  }
}

/** The cache's side of the post-commit queue: what the delivered writes leave in the store. */
module Replay {
  import opened Bytes
  import opened CommitQueue
  import Dispatch
  import SetOptions
  import StoreSpec
  import StoreLaws
  import StoreRuns
  import S = Store

  /** What a write performed at `at` has left by `now`. */
  ghost predicate LeftBy(op: Op, at: Time, v: StoreSpec.View, now: Time) {
    match op
    case Set(key, value, None) => StoreLaws.HoldsForever(v, key, value)
    case Set(key, value, Some(ttl)) => ttl > 0 && StoreLaws.HoldsUntil(v, key, value, at + ttl * 1_000_000_000, now)
    case Del(key) => key !in v
  }

  /** No later write is about the same key. */
  ghost predicate LastOfItsKey(ops: seq<Op>, i: nat) {
    i < |ops| && forall j :: i < j < |ops| ==> ops[j].key != ops[i].key
  }

  /** Each key is as the last of the first `n` writes about it left it. */
  ghost predicate LastWritesHold(ops: seq<Op>, clocks: seq<SetOptions.Clock>, n: nat, v: StoreSpec.View, now: Time)
    requires n <= |ops| == |clocks|
  {
    forall i: nat :: LastOfItsKey(ops[..n], i) ==> LeftBy(ops[i], clocks[i].mono, v, now)
  }

  lemma LeftStill(op: Op, at: Time, v: StoreSpec.View, now: Time, w: StoreSpec.View, later: Time)
    requires LeftBy(op, at, v, now) && now <= later
    requires StoreRuns.SameAt(StoreSpec.Purge(v, later), w, op.key)
    ensures LeftBy(op, at, w, later)
  {}

  lemma StillLast(ops: seq<Op>, n: nat, i: nat)
    requires i < n < |ops| && LastOfItsKey(ops[..n + 1], i)
    ensures LastOfItsKey(ops[..n], i) && ops[n].key != ops[i].key
  {
    assert ops[..n + 1][n] == ops[n];
    forall j | i < j < n ensures ops[..n][j].key != ops[..n][i].key {
      assert ops[..n + 1][j].key != ops[..n + 1][i].key;
    }
  }

  lemma LeftNow(op: Op, now: Time, v: StoreSpec.View, w: StoreSpec.View)
    requires DoesWrite(op, now, v, w)
    ensures LeftBy(op, now, w, now)
  {}

  lemma Elsewhere(op: Op, now: Time, v: StoreSpec.View, w: StoreSpec.View, k: Key)
    requires DoesWrite(op, now, v, w) && k != op.key
    ensures StoreRuns.SameAt(v, w, k)
  {}

  /** One more write: it leaves what it writes, and everything else as it was. */
  lemma OneMoreWrite(ops: seq<Op>, clocks: seq<SetOptions.Clock>, n: nat, v: StoreSpec.View, now: Time,
                     later: Time, w: StoreSpec.View)
    requires n < |ops| == |clocks| && now <= later == clocks[n].mono
    requires LastWritesHold(ops, clocks, n, v, now)
    requires DoesWrite(ops[n], later, StoreSpec.Purge(v, later), w)
    ensures LastWritesHold(ops, clocks, n + 1, w, later)
  {
    forall i: nat | LastOfItsKey(ops[..n + 1], i) ensures LeftBy(ops[i], clocks[i].mono, w, later) {
      if i < n {
        StillLast(ops, n, i);
        Elsewhere(ops[n], later, StoreSpec.Purge(v, later), w, ops[i].key);
        LeftStill(ops[i], clocks[i].mono, v, now, w, later);
      } else {
        LeftNow(ops[n], later, StoreSpec.Purge(v, later), w);
      }
    }
  }

  /** One command as the queue sends it, received by the server. */
  method Receive(store: S.Store, op: Op, clock: SetOptions.Clock, fold: Dispatch.Fold)
    requires store.Valid() && store.maxMemory.None? && Sendable(op) && Folds(fold)
    modifies store
    ensures store.Valid()
    ensures DoesWrite(op, clock.mono, S.LiveView(old(store.table), clock.mono), S.LiveView(store.table, clock.mono))
  {
    CommandIsRead(op, clock, fold);
    ghost var v := S.LiveView(store.table, clock.mono);
    ghost var w := WriteOf(op, clock);
    WriteOfWrites(op, clock, v);
    var reply, read;
    ghost var dropped;
    reply, read, dropped := Dispatch.DispatchWrite(store, CommandOf(op), clock, fold);
    Dispatch.ReadsAsOne(CommandOf(op), clock, fold, w, read.value);
    StoreRuns.NoneDropped(StoreSpec.Apply(v, clock.mono, w).1);
  }

  ghost predicate Ticking(clocks: seq<SetOptions.Clock>) {
    forall i, j :: 0 <= i < j < |clocks| ==> clocks[i].mono <= clocks[j].mono
  }

  ghost predicate AllSendable(ops: seq<Op>) {
    forall i :: 0 <= i < |ops| ==> Sendable(ops[i])
  }

  /**
   * Any writes, repeated or not, received in order by an unbudgeted cache, whatever it held: in the end
   * each key they name is exactly as the last of them about it says.
   */
  method ReceiveAll(store: S.Store, ops: seq<Op>, clocks: seq<SetOptions.Clock>, fold: Dispatch.Fold)
    requires store.Valid() && store.maxMemory.None? && Folds(fold) && |clocks| == |ops| > 0
    requires AllSendable(ops) && Ticking(clocks)
    modifies store
    ensures store.Valid()
    ensures var now := clocks[|ops| - 1].mono; LastWritesHold(ops, clocks, |ops|, S.LiveView(store.table, now), now)
  {
    ghost var now := clocks[0].mono;
    for i := 0 to |ops|
      invariant store.Valid() && now == ClockBefore(clocks, i)
      invariant LastWritesHold(ops, clocks, i, S.LiveView(store.table, now), now)
    {
      ReceiveNext(store, ops, clocks, fold, i, now);
      now := clocks[i].mono;
    }
  }

  /** The clock of the write before write `i`, or of the first. */
  ghost function ClockBefore(clocks: seq<SetOptions.Clock>, i: nat): Time
    requires 0 < |clocks| && i <= |clocks|
  {
    clocks[if i == 0 then 0 else i - 1].mono
  }

  method ReceiveNext(store: S.Store, ops: seq<Op>, clocks: seq<SetOptions.Clock>, fold: Dispatch.Fold, i: nat,
                     ghost now: Time)
    requires store.Valid() && store.maxMemory.None? && Folds(fold) && i < |ops| == |clocks|
    requires AllSendable(ops) && Ticking(clocks) && now == ClockBefore(clocks, i)
    requires LastWritesHold(ops, clocks, i, S.LiveView(store.table, now), now)
    modifies store
    ensures store.Valid()
    ensures LastWritesHold(ops, clocks, i + 1, S.LiveView(store.table, clocks[i].mono), clocks[i].mono)
  {
    ghost var v, later := S.LiveView(store.table, now), clocks[i].mono;
    S.ViewLater(store.table, now, later);
    Receive(store, ops[i], clocks[i], fold);
    OneMoreWrite(ops, clocks, i, v, now, later, S.LiveView(store.table, later));
  }

  ghost function After(v: StoreSpec.View, op: Op, clock: SetOptions.Clock): StoreSpec.View
    requires Sendable(op)
  {
    StoreSpec.Apply(StoreSpec.Purge(v, clock.mono), clock.mono, WriteOf(op, clock)).1
  }

  lemma AfterWrites(v: StoreSpec.View, op: Op, clock: SetOptions.Clock)
    requires Sendable(op)
    ensures DoesWrite(op, clock.mono, StoreSpec.Purge(v, clock.mono), After(v, op, clock))
  {
    WriteOfWrites(op, clock, StoreSpec.Purge(v, clock.mono));
  }

  /** A retried write performed twice leaves exactly what performing it once, the second time, would. */
  lemma TwiceIsOnce(op: Op, v: StoreSpec.View, clock: SetOptions.Clock, again: SetOptions.Clock)
    requires Sendable(op) && clock.mono <= again.mono
    ensures After(After(v, op, clock), op, again) == After(v, op, again)
  {
    AfterWrites(v, op, clock);
    AfterWrites(After(v, op, clock), op, again);
    AfterWrites(v, op, again);
    SameAfter(op, v, clock.mono, After(v, op, clock), again.mono, After(After(v, op, clock), op, again),
              After(v, op, again));
  }

  lemma SameAfter(op: Op, v: StoreSpec.View, now: Time, once: StoreSpec.View, later: Time, twice: StoreSpec.View,
                  direct: StoreSpec.View)
    requires now <= later
    requires DoesWrite(op, now, StoreSpec.Purge(v, now), once)
    requires DoesWrite(op, later, StoreSpec.Purge(once, later), twice)
    requires DoesWrite(op, later, StoreSpec.Purge(v, later), direct)
    ensures twice == direct
  {
    forall k ensures StoreRuns.SameAt(twice, direct, k) {
      if k == op.key {
        SameWritten(op, later, StoreSpec.Purge(once, later), twice, StoreSpec.Purge(v, later), direct);
      } else {
        Elsewhere(op, now, StoreSpec.Purge(v, now), once, k);
        Elsewhere(op, later, StoreSpec.Purge(once, later), twice, k);
        Elsewhere(op, later, StoreSpec.Purge(v, later), direct, k);
      }
    }
    SameEverywhere(twice, direct);
  }

  lemma SameWritten(op: Op, now: Time, a: StoreSpec.View, a': StoreSpec.View, b: StoreSpec.View, b': StoreSpec.View)
    requires DoesWrite(op, now, a, a') && DoesWrite(op, now, b, b')
    ensures StoreRuns.SameAt(a', b', op.key)
  {}

  lemma SameEverywhere(a: StoreSpec.View, b: StoreSpec.View)
    requires forall k :: StoreRuns.SameAt(a, b, k)
    ensures a == b
  {
    forall k ensures k in a <==> k in b { assert StoreRuns.SameAt(a, b, k); }
    forall k | k in a ensures a[k] == b[k] { assert StoreRuns.SameAt(a, b, k); }
  }
}

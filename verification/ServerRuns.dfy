/** The store and its cursor registry together: SCAN's promise on the running code. */
module ServerRuns {
  import opened Bytes
  import opened StoreSpec
  import S = Store
  import opened StoreRuns
  import Scan
  import opened ScanRuns
  import Keyspace
  import Glob

  /** `Next` continues the scan being followed; `OtherScan` is anyone else's call, with any cursor. */
  datatype Action = Do(op: Op) | Sweep(sampleSize: nat) | OtherScan(cursor: nat, count: nat) | Next(count: nat)

  datatype Timed = Timed(now: Time, action: Action)

  ghost predicate InOrder(start: Time, actions: seq<Timed>) {
    && (actions != [] ==> start <= actions[0].now)
    && forall i, j :: 0 <= i < j < |actions| ==> actions[i].now <= actions[j].now
  }

  // ------------------------------------------------------------ the reference

  /** One action on a view already purged; scans and sweeps change nothing a client stored. */
  ghost function After(v: View, a: Timed, dropped: set<Key>): View {
    (if a.action.Do? then Apply(v, a.now, a.action.op).1 else v) - dropped
  }

  /** The reference view after `i` actions, from `v`, losing `drops[j]` at action `j`. */
  ghost function ViewAfter(v: View, actions: seq<Timed>, drops: seq<set<Key>>, i: nat): View
    requires i <= |actions| && i <= |drops|
    decreases i, 0
  {
    if i == 0 then v
    else After(ViewBefore(v, actions, drops, i - 1), actions[i - 1], drops[i - 1])
  }

  /** What is live when action `i` begins. */
  ghost function ViewBefore(v: View, actions: seq<Timed>, drops: seq<set<Key>>, i: nat): View
    requires i < |actions| && i <= |drops|
    decreases i, 1
  {
    Purge(ViewAfter(v, actions, drops, i), actions[i].now)
  }

  lemma {:induction false} LaterDropsDoNotMatter(v: View, actions: seq<Timed>, drops: seq<set<Key>>, d: set<Key>,
                                i: nat)
    requires i <= |actions| && i <= |drops|
    ensures ViewAfter(v, actions, drops + [d], i) == ViewAfter(v, actions, drops, i)
  {
    if i > 0 {
      LaterDropsDoNotMatter(v, actions, drops, d, i - 1);
    }
  }

  ghost predicate WellBehaved(a: Timed, dropped: set<Key>, budget: Option<nat>) {
    if a.action.Do? then FairDrop(a.action.op, dropped, budget) else dropped == {}
  }

  // ------------------------------------------------------------- runs that grow

  lemma {:induction false} MyPrefix(events: seq<ScanRuns.Event>, e: ScanRuns.Event, i: nat)
    requires i <= |events|
    ensures My(events + [e], i) == My(events, i)
  {
    if i > 0 {
      MyPrefix(events, e, i - 1);
    }
  }

  lemma {:induction false} SeenPrefix(events: seq<ScanRuns.Event>, e: ScanRuns.Event, i: nat)
    requires i <= |events|
    ensures Seen(events + [e], i) == Seen(events, i)
  {
    if i > 0 {
      SeenPrefix(events, e, i - 1);
    }
  }

  lemma RunGrows(worlds: seq<World>, events: seq<ScanRuns.Event>, e: ScanRuns.Event, w': World)
    requires RunOk(worlds, events) && worlds[0].nextId + |events| + 1 < Scan.U64
    requires StepOk(worlds[|events|], e, w', My(events, |events|))
    ensures RunOk(worlds + [w'], events + [e])
  {
    forall i | 0 <= i < |events + [e]| ensures StepAt(worlds + [w'], events + [e], i) {
      if i < |events| { assert StepAt(worlds, events, i); }
      RunGrowsAt(worlds, events, e, w', i);
    }
    assert (worlds + [w'])[0] == worlds[0];
  }

  lemma CursorGrows(events: seq<ScanRuns.Event>, e: ScanRuns.Event)
    ensures My(events + [e], |events| + 1) == NextCursor(e, My(events, |events|))
  {
    MyPrefix(events, e, |events|);
  }

  lemma RunGrowsAt(worlds: seq<World>, events: seq<ScanRuns.Event>, e: ScanRuns.Event, w': World, i: nat)
    requires i <= |events| && |worlds| == |events| + 1
    requires if i < |events| then StepAt(worlds, events, i) else StepOk(worlds[i], e, w', My(events, i))
    ensures StepAt(worlds + [w'], events + [e], i)
  {
    MyPrefix(events, e, i);
  }

  /** A step ends when the next action begins. */
  lemma StepLater(w: World, e: ScanRuns.Event, w': World, w'': World, my: nat)
    requires StepOk(w, e, w', my) && w''.cursors == w'.cursors && w''.nextId == w'.nextId && w'.now <= w''.now
    ensures StepOk(w, e, w'', my)
  {
    if !e.Elsewhere? {
      var cursor := if e.Mine? then my else e.cursor;
      var keys, mid :| ScanWith(w, w', cursor, e.count, e.next, e.page, keys, mid);
      assert ScanWith(w, w'', cursor, e.count, e.next, e.page, keys, mid);
    }
  }

  // --------------------------------------------------------------- one action

  /** The event of the run model that records an action. */
  ghost predicate Records(e: ScanRuns.Event, a: Action) {
    match a
    case Do(_) => e.Elsewhere?
    case Sweep(_) => e.Elsewhere?
    case OtherScan(cursor, count) => e.Other? && e.cursor == cursor && e.count == count
    case Next(count) => e.Mine? && e.count == count
  }

  /** One action of the running server is one step of the run model and one of the reference map. */
  method Act(store: S.Store, registry: Scan.ScanRegistry, a: Timed, my: nat)
    returns (next: nat, page: seq<Key>, ghost dropped: set<Key>, ghost event: ScanRuns.Event)
    requires store.Valid() && Kept(Keyspace.WorldOf(store, registry, a.now), my) && registry.nextId + 1 < Scan.U64
    modifies store, registry
    ensures store.Valid() && Kept(Keyspace.WorldOf(store, registry, a.now), next)
    ensures old(registry.nextId) <= registry.nextId <= old(registry.nextId) + 1
    ensures StepOk(old(Keyspace.WorldOf(store, registry, a.now)), event, Keyspace.WorldOf(store, registry, a.now), my)
    ensures Records(event, a.action) && next == NextCursor(event, my) && Keys(page) == Delivered(event)
    ensures WellBehaved(a, dropped, store.maxMemory)
    ensures S.LiveView(store.table, a.now) == After(S.LiveView(old(store.table), a.now), a, dropped)
  {
    ghost var before := Keyspace.WorldOf(store, registry, a.now);
    next, page, dropped, event := my, [], {}, Elsewhere;
    NoneDropped(S.LiveView(store.table, a.now));
    match a.action {
      case Do(op) =>
        var answer;
        answer, dropped := Execute(store, a.now, op);
      case Sweep(sampleSize) =>
        var _, _ := store.ActiveExpireSweep(a.now, sampleSize);
      case OtherScan(cursor, count) =>
        var n, p := Keyspace.ScanStore(store, registry, a.now, cursor, count);
        event := Other(cursor, count, n, p);
        ScanKeeps(before, Keyspace.WorldOf(store, registry, a.now), cursor, count, n, p, my);
      case Next(count) =>
        next, page := Keyspace.ScanStore(store, registry, a.now, my, count);
        event := Mine(count, next, page);
        ScanKeeps(before, Keyspace.WorldOf(store, registry, a.now), my, count, next, page, my);
    }
  }

  /** What the MATCH pattern of a scan lets through; without one, everything. */
  ghost predicate Selects(pattern: Option<seq<byte>>, k: Key) {
    pattern.Some? ==> Glob.Denotes(Glob.Tokens(pattern.value), k)
  }

  /** The filter of the SCAN command on one page. */
  method Filter(page: seq<Key>, pattern: Option<seq<byte>>) returns (shown: seq<Key>)
    ensures forall k :: k in shown <==> k in page && Selects(pattern, k)
  {
    if pattern.None? {
      return page;
    }
    shown := Keyspace.Matching(page, pattern.value);
  }

  // ------------------------------------------------------------ whole programs

  /** When action `i` begins, or the last one ended. */
  ghost function TimeAt(start: Time, actions: seq<Timed>, i: nat): Time
    requires i <= |actions|
  {
    if i < |actions| then actions[i].now else if i == 0 then start else actions[i - 1].now
  }

  /** Entry `i` of the log: what action `i` found live, how it is recorded, and what it evicted. */
  ghost predicate LogAt(v: View, actions: seq<Timed>, worlds: seq<World>, events: seq<ScanRuns.Event>,
                        drops: seq<set<Key>>, budget: Option<nat>, i: nat)
    requires i < |events| == |drops| <= |actions| && i < |worlds|
  {
    && worlds[i].now == actions[i].now && worlds[i].live == ViewBefore(v, actions, drops, i).Keys
    && Records(events[i], actions[i].action) && WellBehaved(actions[i], drops[i], budget)
  }

  /** A log of the program so far: a run of the scan model over the views of the reference map. */
  ghost predicate Log(v: View, actions: seq<Timed>, worlds: seq<World>, events: seq<ScanRuns.Event>,
                      drops: seq<set<Key>>, budget: Option<nat>)
  {
    && |events| == |drops| <= |actions| && RunOk(worlds, events)
    && forall i :: 0 <= i < |events| ==> LogAt(v, actions, worlds, events, drops, budget, i)
  }

  lemma LogGrows(v: View, actions: seq<Timed>, worlds: seq<World>, events: seq<ScanRuns.Event>, drops: seq<set<Key>>,
                 budget: Option<nat>, e: ScanRuns.Event, d: set<Key>, w': World)
    requires Log(v, actions, worlds, events, drops, budget) && |events| < |actions|
    requires RunOk(worlds + [w'], events + [e])
    requires worlds[|events|].now == actions[|events|].now
    requires worlds[|events|].live == ViewBefore(v, actions, drops, |events|).Keys
    requires Records(e, actions[|events|].action) && WellBehaved(actions[|events|], d, budget)
    ensures Log(v, actions, worlds + [w'], events + [e], drops + [d], budget)
  {
    forall i | 0 <= i < |events| + 1 ensures LogAt(v, actions, worlds + [w'], events + [e], drops + [d], budget, i) {
      LaterDropsDoNotMatter(v, actions, drops, d, i);
      if i < |events| { assert LogAt(v, actions, worlds, events, drops, budget, i); }
    }
  }

  /** Exactly the keys delivered so far that the pattern selects. */
  ghost predicate ShowsSeen(shown: seq<Key>, events: seq<ScanRuns.Event>, pattern: Option<seq<byte>>) {
    forall k :: k in shown <==> k in Seen(events, |events|) && Selects(pattern, k)
  }

  lemma ShowsMore(shown: seq<Key>, more: seq<Key>, page: seq<Key>, events: seq<ScanRuns.Event>, e: ScanRuns.Event,
                  pattern: Option<seq<byte>>)
    requires ShowsSeen(shown, events, pattern) && Keys(page) == Delivered(e)
    requires forall k :: k in more <==> k in page && Selects(pattern, k)
    ensures ShowsSeen(shown + more, events + [e], pattern)
  {
    SeenPrefix(events, e, |events|);
    forall k ensures k in shown + more <==> k in Seen(events + [e], |events| + 1) && Selects(pattern, k) {
      assert k in page <==> k in Keys(page);
    }
  }

  /** The view when action `n` begins, or when the program has ended. */
  ghost function ViewAt(v: View, actions: seq<Timed>, drops: seq<set<Key>>, n: nat): View
    requires n <= |actions| && n <= |drops|
  {
    if n < |actions| then ViewBefore(v, actions, drops, n) else ViewAfter(v, actions, drops, n)
  }

  /** After `|events|` actions the scan holds `my`, and `w` is the world. */
  ghost predicate Logged(v: View, start: Time, actions: seq<Timed>, worlds: seq<World>, events: seq<ScanRuns.Event>,
                         drops: seq<set<Key>>, budget: Option<nat>, my: nat, w: World)
  {
    && Log(v, actions, worlds, events, drops, budget) && worlds[0].nextId + |actions| < Scan.U64
    && my == My(events, |events|) && worlds[|events|] == w && w.now == TimeAt(start, actions, |events|)
    && w.live == ViewAt(v, actions, drops, |events|).Keys
  }

  /** One more action, which ends in `mid`, and the wait for the next, which ends in `w'`. */
  lemma LoggedTurn(v: View, start: Time, actions: seq<Timed>, worlds: seq<World>, events: seq<ScanRuns.Event>,
                   drops: seq<set<Key>>,
                   budget: Option<nat>, my: nat, e: ScanRuns.Event, d: set<Key>, mid: World, w': World)
    requires |events| < |actions| && |worlds| == |events| + 1 && |drops| == |events| && InOrder(start, actions)
    requires Logged(v, start, actions, worlds, events, drops, budget, my, worlds[|events|])
    requires StepOk(worlds[|events|], e, mid, my) && mid.now == actions[|events|].now
    requires Records(e, actions[|events|].action) && WellBehaved(actions[|events|], d, budget)
    requires w'.cursors == mid.cursors && w'.nextId == mid.nextId && w'.now == TimeAt(start, actions, |events| + 1)
    requires w'.live == ViewAt(v, actions, drops + [d], |events| + 1).Keys
    ensures Logged(v, start, actions, worlds + [w'], events + [e], drops + [d], budget, NextCursor(e, my), w')
  {
    StepLater(worlds[|events|], e, mid, w', my);
    RunGrows(worlds, events, e, w');
    CursorGrows(events, e);
    LogGrows(v, actions, worlds, events, drops, budget, e, d, w');
  }

  /** What the action leaves, seen when the next one begins. */
  lemma ViewTurn(v: View, start: Time, actions: seq<Timed>, drops: seq<set<Key>>, d: set<Key>, view: View, i: nat)
    requires i == |drops| < |actions| && view == After(ViewBefore(v, actions, drops, i), actions[i], d)
    requires Purge(view, actions[i].now) == view
    ensures Purge(view, TimeAt(start, actions, i + 1)) == ViewAt(v, actions, drops + [d], i + 1)
  {
    LaterDropsDoNotMatter(v, actions, drops, d, i);
    assert (drops + [d])[i] == d;
    assert ViewBefore(v, actions, drops + [d], i) == ViewBefore(v, actions, drops, i);
    assert ViewAfter(v, actions, drops + [d], i + 1) == view;
  }

  /** The state of a program after `n` of its actions. */
  ghost predicate Underway(store: S.Store, registry: Scan.ScanRegistry, v: View, start: Time, actions: seq<Timed>,
                           worlds: seq<World>, events: seq<ScanRuns.Event>, drops: seq<set<Key>>, my: nat, n: nat)
    reads store, registry
  {
    && store.Valid() && n == |events| == |drops| <= |actions| && |worlds| == n + 1
    && worlds[n] == Keyspace.WorldOf(store, registry, TimeAt(start, actions, n))
    && Logged(v, start, actions, worlds, events, drops, store.maxMemory, my, worlds[n])
    && S.LiveView(store.table, TimeAt(start, actions, n)) == ViewAt(v, actions, drops, n)
  }

  method DriveOne(store: S.Store, registry: Scan.ScanRegistry, actions: seq<Timed>, i: nat, my: nat, ghost v: View,
                  ghost start: Time,
                  ghost worlds: seq<World>, ghost events: seq<ScanRuns.Event>, ghost drops: seq<set<Key>>)
    returns (next: nat, page: seq<Key>, ghost event: ScanRuns.Event, ghost dropped: set<Key>, ghost w': World)
    requires i < |actions| && InOrder(start, actions)
    requires Underway(store, registry, v, start, actions, worlds, events, drops, my, i)
    modifies store, registry
    ensures Underway(store, registry, v, start, actions,
                     worlds + [w'], events + [event], drops + [dropped], next, i + 1)
    ensures Keys(page) == Delivered(event)
  {
    var a := actions[i];
    RunKeeps(worlds, events, i);
    next, page, dropped, event := Act(store, registry, a, my);
    ghost var mid, later := Keyspace.WorldOf(store, registry, a.now), TimeAt(start, actions, i + 1);
    w' := Keyspace.WorldOf(store, registry, later);
    S.ViewLater(store.table, a.now, later);
    S.ViewLater(store.table, a.now, a.now);
    ViewTurn(v, start, actions, drops, dropped, S.LiveView(store.table, a.now), i);
    LoggedTurn(v, start, actions, worlds, events, drops, store.maxMemory, my, event, dropped, mid, w');
  }

  /**
   * The running server under any program of operations, sweeps and scans. The log is a run of the
   * scan model over the views of the reference map; a finished scan has shown a stable key exactly
   * when its pattern selects it and nobody else drew it through the scan's cursor (`Missed`).
   */
  method Drive(store: S.Store, registry: Scan.ScanRegistry, start: Time, actions: seq<Timed>,
               pattern: Option<seq<byte>>)
    returns (shown: seq<Key>, ghost worlds: seq<World>, ghost events: seq<ScanRuns.Event>, ghost drops: seq<set<Key>>)
    requires store.Valid() && Scan.WellKept(registry.cursors, registry.nextId)
    requires registry.nextId + |actions| < Scan.U64 && InOrder(start, actions)
    modifies store, registry
    ensures store.Valid() && |events| == |actions|
    ensures Log(S.LiveView(old(store.table), start), actions, worlds, events, drops, store.maxMemory)
    ensures worlds[|actions|] == Keyspace.WorldOf(store, registry, TimeAt(start, actions, |actions|))
    ensures S.LiveView(store.table, TimeAt(start, actions, |actions|))
            == ViewAfter(S.LiveView(old(store.table), start), actions, drops, |actions|)
    ensures ShowsSeen(shown, events, pattern)
    ensures Finished(events) ==>
              forall k :: Stable(worlds, k) ==> (k in shown <==> Selects(pattern, k) && !Missed(worlds, events, k))
  {
    ghost var v := S.LiveView(store.table, start);
    ghost var first := TimeAt(start, actions, 0);
    S.ViewLater(store.table, start, first);
    shown, worlds, events, drops := [], [Keyspace.WorldOf(store, registry, first)], [], [];
    var my := 0;
    for i := 0 to |actions|
      invariant Underway(store, registry, v, start, actions, worlds, events, drops, my, i)
      invariant ShowsSeen(shown, events, pattern)
    {
      ghost var event, dropped, w';
      var page;
      my, page, event, dropped, w' := DriveOne(store, registry, actions, i, my, v, start, worlds, events, drops);
      var more := Filter(page, pattern);
      ShowsMore(shown, more, page, events, event, pattern);
      shown, worlds, events, drops := shown + more, worlds + [w'], events + [event], drops + [dropped];
    }
    ShownExactly(worlds, events, shown, pattern);
  }

  lemma ShownExactly(worlds: seq<World>, events: seq<ScanRuns.Event>, shown: seq<Key>, pattern: Option<seq<byte>>)
    requires RunOk(worlds, events) && ShowsSeen(shown, events, pattern)
    ensures Finished(events) ==>
              forall k :: Stable(worlds, k) ==> (k in shown <==> Selects(pattern, k) && !Missed(worlds, events, k))
  {
    if Finished(events) {
      forall k | Stable(worlds, k) ensures k in shown <==> Selects(pattern, k) && !Missed(worlds, events, k) {
        ScanMissesExactly(worlds, events, k);
      }
    }
  }

  /** With MATCH and a cursor nobody else is served through, a stable key is shown exactly when it matches. */
  lemma ScanMatchIsExactOnStableKeys(worlds: seq<World>, events: seq<ScanRuns.Event>, shown: seq<Key>,
                                pattern: seq<byte>, k: Key)
    requires RunOk(worlds, events) && Finished(events) && Stable(worlds, k) && Unshared(worlds, events, |events|)
    requires ShowsSeen(shown, events, Some(pattern))
    ensures k in shown <==> Glob.Denotes(Glob.Tokens(pattern), k)
  {
    ScanNeverMisses(worlds, events, k);
  }
}

/** Whole runs: one client's scan interleaved with anything else the server does. */
module ScanRuns {
  import opened Bytes
  import opened Scan

  /** The registry, the clock, and the keys live in the store at that instant. */
  datatype World = World(cursors: Cursors, nextId: nat, now: Time, live: set<Key>)

  /**
   * `Elsewhere` is any store mutation, expiry or passage of time; `Other` a scan call by anyone
   * else; `Mine` a call of the scan being followed, which passes the cursor it was last given.
   */
  datatype Event =
    | Elsewhere
    | Other(cursor: nat, count: nat, next: nat, page: seq<Key>)
    | Mine(count: nat, next: nat, page: seq<Key>)

  /** An iteration over the live keys of a hash map: each once, in some order. */
  ghost predicate Lists(keys: seq<Key>, live: set<Key>) {
    Distinct(keys) && forall k :: k in keys <==> k in live
  }

  ghost predicate Distinct(keys: seq<Key>) { forall i, j :: 0 <= i < j < |keys| ==> keys[i] != keys[j] }

  ghost predicate ScanWith(w: World, w': World, cursor: nat, count: nat, next: nat, page: seq<Key>,
                           keys: seq<Key>, mid: Cursors) {
    && Lists(keys, w.live)
    && ScanRel(w.cursors, w.nextId, w.now, cursor, count, keys, mid, w'.cursors, w'.nextId, next, page)
  }

  /** A scan call at `w.now`; `w'` is the world when the next event begins. */
  ghost predicate ScanStep(w: World, w': World, cursor: nat, count: nat, next: nat, page: seq<Key>) {
    && w.now <= w'.now
    && exists keys, mid :: ScanWith(w, w', cursor, count, next, page, keys, mid)
  }

  ghost predicate StepOk(w: World, e: Event, w': World, my: nat) {
    match e
    case Elsewhere => w'.cursors == w.cursors && w'.nextId == w.nextId && w.now <= w'.now
    case Other(cursor, count, next, page) => ScanStep(w, w', cursor, count, next, page)
    case Mine(count, next, page) => ScanStep(w, w', my, count, next, page)
  }

  /** Someone else passes the followed scan's cursor while it is live, and is given its next page. */
  ghost predicate Takes(w: World, e: Event, my: nat) {
    e.Other? && e.cursor == my && Hits(w.cursors, my, w.now)
  }

  /** The cursor the followed scan holds before event `i`. */
  ghost function My(events: seq<Event>, i: nat): nat
    requires i <= |events|
  {
    if i == 0 then 0 else NextCursor(events[i - 1], My(events, i - 1))
  }

  ghost function Keys(page: seq<Key>): set<Key> { set k | k in page }

  ghost function Delivered(e: Event): set<Key> { if e.Mine? then Keys(e.page) else {} }

  ghost function NextCursor(e: Event, my: nat): nat { if e.Mine? then e.next else my }

  /** Everything the followed scan has been given before event `i`. */
  ghost function Seen(events: seq<Event>, i: nat): set<Key>
    requires i <= |events|
  {
    if i == 0 then {}
    else Seen(events, i - 1) + Delivered(events[i - 1])
  }

  ghost predicate StepAt(worlds: seq<World>, events: seq<Event>, i: nat)
    requires i < |events| < |worlds|
  {
    StepOk(worlds[i], events[i], worlds[i + 1], My(events, i))
  }

  /** A run: any interleaving, with fewer than 2^64 scans started since the server came up. */
  ghost predicate RunOk(worlds: seq<World>, events: seq<Event>) {
    && |worlds| == |events| + 1
    && WellKept(worlds[0].cursors, worlds[0].nextId) && worlds[0].nextId + |events| < U64
    && forall i :: 0 <= i < |events| ==> StepAt(worlds, events, i)
  }

  /**
   * An account of the followed scan: what it was given before it last had to restart, what it was
   * given since, and what others took through its cursor since.
   */
  datatype Account = Account(earlier: set<Key>, given: set<Key>, taken: set<Key>)

  ghost function NextAccount(w: World, e: Event, my: nat, a: Account): Account {
    if e.Mine? then
      if Hits(w.cursors, my, w.now) then a.(given := a.given + Keys(e.page))
      else Account(a.earlier + a.given, Keys(e.page), {})
    else if Takes(w, e, my) then a.(taken := a.taken + Keys(e.page))
    else a
  }

  /** The account before event `i`. */
  ghost function AccountAt(worlds: seq<World>, events: seq<Event>, i: nat): Account
    requires i <= |events| < |worlds|
  {
    if i == 0 then Account({}, {}, {})
    else NextAccount(worlds[i - 1], events[i - 1], My(events, i - 1), AccountAt(worlds, events, i - 1))
  }

  /** What is behind the cursor was given to this scan or taken by others, and never both. */
  ghost predicate Adds(s: ScanState, a: Account) {
    && s.position <= |s.snapshot| && Distinct(s.snapshot)
    && a.given + a.taken == Keys(s.snapshot[..s.position]) && a.given !! a.taken
  }

  /** While the cursor is registered the account adds up, and a stable key is in the snapshot. */
  ghost predicate Accounted(cursors: Cursors, my: nat, a: Account, k: Key) {
    my != 0 && my in cursors ==> Adds(cursors[my], a) && k in cursors[my].snapshot
  }

  ghost predicate Kept(w: World, my: nat) {
    WellKept(w.cursors, w.nextId) && my <= w.nextId
  }

  // ------------------------------------------------------------- registry facts

  lemma ScanKeeps(w: World, w': World, cursor: nat, count: nat, next: nat, page: seq<Key>, my: nat)
    requires Kept(w, my) && w.nextId + 1 < U64 && ScanStep(w, w', cursor, count, next, page)
    ensures Kept(w', my) && next <= w'.nextId && w.nextId <= w'.nextId <= w.nextId + 1
  {
    var keys, mid :| ScanWith(w, w', cursor, count, next, page, keys, mid);
    if Hits(w.cursors, cursor, w.now) {
      ResumeKeeps(w.cursors, w.nextId, w.now, cursor, count, w'.cursors, next, page);
    } else {
      KeptAfterEviction(w.cursors, w.nextId, w.now, mid);
      var s := ScanState(keys, 0, w.now);
      if PageEnd(s, count) < |keys| {
        KeptAfterInsert(mid, w'.nextId, s.(position := PageEnd(s, count)));
      }
    }
  }

  lemma ResumeKeeps(before: Cursors, nextId: nat, now: Time, cursor: nat, count: nat, after: Cursors, next: nat,
                    page: seq<Key>)
    requires WellKept(before, nextId) && ResumeRel(before, now, cursor, count, after, next, page)
    ensures WellKept(after, nextId) && next <= nextId
  {
    var s := before[cursor];
    if PageEnd(s, count) < |s.snapshot| {
      assert after.Keys == before.Keys;
      assert |after| == |after.Keys| == |before.Keys| == |before|;
    } else {
      RemoveOne(before, cursor);
    }
  }

  /** Someone else's call leaves a cursor it does not take from alone, or removes it altogether. */
  lemma OthersLeaveItAlone(w: World, w': World, e: Event, my: nat)
    requires Kept(w, my) && w.nextId + 1 < U64 && my != 0 && e.Other? && StepOk(w, e, w', my) && !Takes(w, e, my)
    ensures my in w'.cursors ==> my in w.cursors && w'.cursors[my] == w.cursors[my]
  {
    var keys, mid :| ScanWith(w, w', e.cursor, e.count, e.next, e.page, keys, mid);
    if !Hits(w.cursors, e.cursor, w.now) {
      KeptAfterEviction(w.cursors, w.nextId, w.now, mid);
    }
  }

  /** A page moves from ahead of the cursor to behind it, and no key was behind it already. */
  lemma PageMoves(s: ScanState, count: nat)
    requires s.position <= |s.snapshot| && Distinct(s.snapshot)
    ensures Keys(s.snapshot[..PageEnd(s, count)]) == Keys(s.snapshot[..s.position]) + Keys(Page(s, count))
    ensures Keys(s.snapshot[..s.position]) !! Keys(Page(s, count))
  {
    assert s.snapshot[..PageEnd(s, count)] == s.snapshot[..s.position] + Page(s, count);
  }

  lemma Settles(s: ScanState, count: nat, a: Account, a': Account, now: Time)
    requires Adds(s, a)
    requires a' == a.(given := a.given + Keys(Page(s, count))) || a' == a.(taken := a.taken + Keys(Page(s, count)))
    ensures Adds(s.(position := PageEnd(s, count), lastUsed := now), a')
  {
    PageMoves(s, count);
  }

  /** A call on a live cursor, by its owner or by anyone else. */
  lemma HitAccounts(w: World, w': World, my: nat, e: Event, a: Account, k: Key)
    requires Kept(w, my) && StepOk(w, e, w', my) && Hits(w.cursors, my, w.now) && Accounted(w.cursors, my, a, k)
    requires e.Mine? || Takes(w, e, my)
    ensures Accounted(w'.cursors, my, NextAccount(w, e, my, a), k)
    ensures e.Mine? && e.next == 0 ==>
              var a' := NextAccount(w, e, my, a); a'.given !! a'.taken && k in a'.given + a'.taken
  {
    var s := w.cursors[my];
    var keys, mid :| ScanWith(w, w', my, e.count, e.next, e.page, keys, mid);
    Settles(s, e.count, a, NextAccount(w, e, my, a), w.now);
    assert PageEnd(s, e.count) == |s.snapshot| ==> s.snapshot[..PageEnd(s, e.count)] == s.snapshot;
  }

  /** The followed scan restarts: its account begins again with a snapshot of everything live. */
  lemma RestartAccounts(w: World, w': World, my: nat, e: Event, a: Account, k: Key)
    requires Kept(w, my) && w.nextId + 1 < U64 && e.Mine? && StepOk(w, e, w', my) && !Hits(w.cursors, my, w.now)
    requires k in w.live
    ensures Accounted(w'.cursors, e.next, NextAccount(w, e, my, a), k)
    ensures e.next == 0 ==> k in NextAccount(w, e, my, a).given && NextAccount(w, e, my, a).taken == {}
  {
    var keys, mid :| ScanWith(w, w', my, e.count, e.next, e.page, keys, mid);
    KeptAfterEviction(w.cursors, w.nextId, w.now, mid);
    var s := ScanState(keys, 0, w.now);
    assert keys[..0] == [] && Keys([]) == {};
    Settles(s, e.count, Account({}, {}, {}), Account({}, {} + Keys(e.page), {}), w.now);
    assert {} + Keys(e.page) == Keys(e.page);
    assert PageEnd(s, e.count) == |keys| ==> keys[..|keys|] == keys;
  }

  // -------------------------------------------------------------- never misses

  lemma StepKeeps(w: World, e: Event, w': World, my: nat)
    requires Kept(w, my) && w.nextId + 1 < U64 && StepOk(w, e, w', my)
    ensures Kept(w', NextCursor(e, my)) && w.nextId <= w'.nextId <= w.nextId + 1
  {
    if e.Other? {
      ScanKeeps(w, w', e.cursor, e.count, e.next, e.page, my);
    } else if e.Mine? {
      ScanKeeps(w, w', my, e.count, e.next, e.page, my);
    }
  }

  lemma StepAccounts(w: World, e: Event, w': World, my: nat, a: Account, k: Key)
    requires Kept(w, my) && w.nextId + 1 < U64 && StepOk(w, e, w', my)
    requires k in w.live && Accounted(w.cursors, my, a, k)
    ensures Accounted(w'.cursors, NextCursor(e, my), NextAccount(w, e, my, a), k)
    ensures e.Mine? && e.next == 0 ==>
              var a' := NextAccount(w, e, my, a); a'.given !! a'.taken && k in a'.given + a'.taken
  {
    if e.Mine? {
      if Hits(w.cursors, my, w.now) {
        HitAccounts(w, w', my, e, a, k);
        HitKeepsCursor(w, w', my, e);
      } else {
        RestartAccounts(w, w', my, e, a, k);
      }
    } else if Takes(w, e, my) {
      HitAccounts(w, w', my, e, a, k);
    } else if e.Other? && my != 0 {
      OthersLeaveItAlone(w, w', e, my);
    }
  }

  lemma HitKeepsCursor(w: World, w': World, my: nat, e: Event)
    requires e.Mine? && StepOk(w, e, w', my) && Hits(w.cursors, my, w.now)
    ensures e.next == 0 || e.next == my
  {
    var keys, mid :| ScanWith(w, w', my, e.count, e.next, e.page, keys, mid);
  }

  lemma {:induction false} RunKeeps(worlds: seq<World>, events: seq<Event>, i: nat)
    requires RunOk(worlds, events) && i <= |events|
    ensures Kept(worlds[i], My(events, i)) && worlds[i].nextId <= worlds[0].nextId + i
  {
    if i > 0 {
      var j := i - 1;
      RunKeeps(worlds, events, j);
      assert StepAt(worlds, events, j);
      StepKeeps(worlds[j], events[j], worlds[j + 1], My(events, j));
    }
  }

  /** The account of a finished scan covers the key, on one side only. */
  ghost predicate Closed(a: Account, k: Key) { a.given !! a.taken && k in a.given + a.taken }

  ghost predicate AccountedAt(worlds: seq<World>, events: seq<Event>, k: Key, i: nat)
    requires i <= |events| < |worlds|
  {
    && Accounted(worlds[i].cursors, My(events, i), AccountAt(worlds, events, i), k)
    && (i > 0 && events[i - 1].Mine? && events[i - 1].next == 0 ==> Closed(AccountAt(worlds, events, i), k))
  }

  lemma AccountsTurn(worlds: seq<World>, events: seq<Event>, k: Key, i: nat)
    requires RunOk(worlds, events) && i < |events| && k in worlds[i].live && AccountedAt(worlds, events, k, i)
    ensures AccountedAt(worlds, events, k, i + 1)
  {
    RunKeeps(worlds, events, i);
    assert StepAt(worlds, events, i);
    StepAccounts(worlds[i], events[i], worlds[i + 1], My(events, i), AccountAt(worlds, events, i), k);
  }

  lemma {:induction false} RunAccounts(worlds: seq<World>, events: seq<Event>, k: Key, i: nat)
    requires RunOk(worlds, events) && i <= |events|
    requires forall j :: 0 <= j < i ==> k in worlds[j].live
    ensures AccountedAt(worlds, events, k, i)
  {
    if i > 0 {
      RunAccounts(worlds, events, k, i - 1);
      AccountsTurn(worlds, events, k, i - 1);
    }
  }

  /** The account leaves out nothing that was delivered. */
  lemma {:induction false} SeenIsAccounted(worlds: seq<World>, events: seq<Event>, i: nat)
    requires i <= |events| < |worlds|
    ensures Seen(events, i) == AccountAt(worlds, events, i).earlier + AccountAt(worlds, events, i).given
  {
    if i > 0 {
      SeenIsAccounted(worlds, events, i - 1);
    }
  }

  /** A scan that has just been told it is complete. */
  ghost predicate Finished(events: seq<Event>) {
    events != [] && events[|events| - 1].Mine? && events[|events| - 1].next == 0
  }

  /** Live before every event of the run, from the scan's first call to its last. */
  ghost predicate Stable(worlds: seq<World>, k: Key) {
    forall j :: 0 <= j < |worlds| - 1 ==> k in worlds[j].live
  }

  /** The key went to someone else who used this scan's cursor, and had not been delivered before. */
  ghost predicate Missed(worlds: seq<World>, events: seq<Event>, k: Key)
    requires |events| < |worlds|
  {
    var a := AccountAt(worlds, events, |events|);
    k in a.taken && k !in a.earlier
  }

  /**
   * What a finished scan misses, whatever ran in between and whoever used its cursor: a stable key
   * exactly when another caller drew it through this cursor since the scan last restarted, and it
   * had not been delivered before that restart.
   */
  lemma ScanMissesExactly(worlds: seq<World>, events: seq<Event>, k: Key)
    requires RunOk(worlds, events) && Finished(events) && Stable(worlds, k)
    ensures k !in Seen(events, |events|) <==> Missed(worlds, events, k)
  {
    RunAccounts(worlds, events, k, |events|);
    SeenIsAccounted(worlds, events, |events|);
  }

  /** Nobody else is served through this scan's cursor before event `n`. */
  ghost predicate Unshared(worlds: seq<World>, events: seq<Event>, n: nat)
    requires n <= |events| < |worlds|
  {
    forall i :: 0 <= i < n ==> !TakesAt(worlds, events, i)
  }

  ghost predicate TakesAt(worlds: seq<World>, events: seq<Event>, i: nat)
    requires i < |events| < |worlds|
  {
    Takes(worlds[i], events[i], My(events, i))
  }

  lemma {:induction false} NothingTaken(worlds: seq<World>, events: seq<Event>, n: nat)
    requires n <= |events| < |worlds| && Unshared(worlds, events, n)
    ensures AccountAt(worlds, events, n).taken == {}
  {
    if n > 0 {
      NothingTaken(worlds, events, n - 1);
      assert !TakesAt(worlds, events, n - 1);
    }
  }

  /** SCAN never misses: unless its cursor served someone else, a finished scan has every stable key. */
  lemma ScanNeverMisses(worlds: seq<World>, events: seq<Event>, k: Key)
    requires RunOk(worlds, events) && Finished(events) && Stable(worlds, k) && Unshared(worlds, events, |events|)
    ensures k in Seen(events, |events|)
  {
    ScanMissesExactly(worlds, events, k);
    NothingTaken(worlds, events, |events|);
  }

  // ------------------------------------------- why cursors are not shared

  /** Three keys, and a registry whose cursor 1, if there is one, stands at `position` in them. */
  ghost function Three(a: Key, b: Key, c: Key, position: nat): World {
    var live := {a, b, c};
    if position == 0 then World(map[], 0, 0, live)
    else if position == 3 then World(map[], 1, 0, live)
    else World(map[1 := ScanState([a, b, c], position, 0)], 1, 0, live)
  }

  lemma StartOnThree(a: Key, b: Key, c: Key)
    requires a != b && b != c && a != c
    ensures ScanStep(Three(a, b, c, 0), Three(a, b, c, 1), 0, 1, 1, [a])
  {
    var keys, none: Cursors := [a, b, c], map[];
    assert Retained(none, 0) == none;
    assert EvictRel(none, 0, none);
    assert Page(ScanState(keys, 0, 0), 1) == [a];
    assert Lists(keys, {a, b, c});
    assert ScanWith(Three(a, b, c, 0), Three(a, b, c, 1), 0, 1, 1, [a], keys, none);
  }

  lemma ResumeOnThree(a: Key, b: Key, c: Key, position: nat, next: nat, page: seq<Key>)
    requires a != b && b != c && a != c
    requires (position == 1 && next == 1 && page == [b]) || (position == 2 && next == 0 && page == [c])
    ensures ScanStep(Three(a, b, c, position), Three(a, b, c, position + 1), 1, 1, next, page)
  {
    var keys, none: Cursors := [a, b, c], map[];
    var w, w' := Three(a, b, c, position), Three(a, b, c, position + 1);
    assert Lists(keys, {a, b, c});
    assert PageEnd(ScanState(keys, position, 0), 1) == position + 1;
    assert keys[position..position + 1] == [keys[position]] == page;
    assert ResumeRel(w.cursors, 0, 1, 1, w'.cursors, next, page);
    assert ScanWith(w, w', 1, 1, next, page, keys, none);
  }

  lemma SeenOfThree(e: Event, f: Event, g: Event)
    ensures Seen([e, f, g], 3) == Delivered(e) + Delivered(f) + Delivered(g)
  {
    var events, n: nat := [e, f, g], 3;
    assert Seen(events, n - 3) == {};
    assert Seen(events, n - 2) == Delivered(e);
    assert Seen(events, n - 1) == Delivered(e) + Delivered(f);
  }

  /** Someone else takes the middle page: what this scan is handed lacks `b`. */
  lemma MiddlePageLost(a: Key, b: Key, c: Key, events: seq<Event>)
    requires a != b && b != c
    requires events == [Mine(1, 1, [a]), Other(1, 1, 1, [b]), Mine(1, 0, [c])]
    ensures Finished(events) && b !in Seen(events, |events|)
  {
    SeenOfThree(events[0], events[1], events[2]);
    assert events == [events[0], events[1], events[2]];
  }

  /**
   * The proviso matters: when someone else passes this scan's cursor, a stable key is missed,
   * although every step is one the registry takes.
   */
  lemma SharedCursorMisses(a: Key, b: Key, c: Key, worlds: seq<World>, events: seq<Event>)
    requires a != b && b != c && a != c
    requires worlds == [Three(a, b, c, 0), Three(a, b, c, 1), Three(a, b, c, 2), Three(a, b, c, 3)]
    requires events == [Mine(1, 1, [a]), Other(1, 1, 1, [b]), Mine(1, 0, [c])]
    ensures RunOk(worlds, events) && Finished(events) && Stable(worlds, b) && b !in Seen(events, |events|)
  {
    MiddlePageLost(a, b, c, events);
    SharedCursorRuns(a, b, c, worlds, events);
  }

  lemma SharedCursorRuns(a: Key, b: Key, c: Key, worlds: seq<World>, events: seq<Event>)
    requires a != b && b != c && a != c
    requires worlds == [Three(a, b, c, 0), Three(a, b, c, 1), Three(a, b, c, 2), Three(a, b, c, 3)]
    requires events == [Mine(1, 1, [a]), Other(1, 1, 1, [b]), Mine(1, 0, [c])]
    ensures RunOk(worlds, events)
  {
    StartOnThree(a, b, c);
    ResumeOnThree(a, b, c, 1, 1, [b]);
    ResumeOnThree(a, b, c, 2, 0, [c]);
    assert My(events, 0) == 0;
    assert My(events, 1) == 1;
    assert My(events, 2) == 1;
    forall i | 0 <= i < 3 ensures StepAt(worlds, events, i) {
      assert i == 0 || i == 1 || i == 2;
    }
  }

  // --------------------------------------------- exactness without restarts

  /** The pages of the followed scan before event `i`, laid end to end. */
  ghost function Pages(events: seq<Event>, i: nat): seq<Key>
    requires i <= |events|
  {
    if i == 0 then [] else Pages(events, i - 1) + if events[i - 1].Mine? then events[i - 1].page else []
  }

  /** How many calls the followed scan has made before event `i`. */
  ghost function Calls(events: seq<Event>, i: nat): nat
    requires i <= |events|
  {
    if i == 0 then 0 else Calls(events, i - 1) + if events[i - 1].Mine? then 1 else 0
  }

  /** When the followed scan last called, before event `i`. */
  ghost function LastCall(worlds: seq<World>, events: seq<Event>, i: nat): Time
    requires i <= |events| < |worlds|
  {
    if i == 0 then 0 else if events[i - 1].Mine? then worlds[i - 1].now else LastCall(worlds, events, i - 1)
  }

  ghost predicate Starts(w: World, e: Event, my: nat) {
    (e.Other? && !Hits(w.cursors, e.cursor, w.now)) || (e.Mine? && !Hits(w.cursors, my, w.now))
  }

  /**
   * A run of one scan with a fixed count: it opens the run, nobody else uses its cursor, at most 63
   * cursors are registered whenever any scan starts, and less than 60 s pass between its calls.
   */
  ghost predicate Undisturbed(worlds: seq<World>, events: seq<Event>, count: nat) {
    && RunOk(worlds, events) && events != [] && events[0].Mine?
    && forall i :: 0 <= i < |events| ==> UndisturbedAt(worlds, events, count, i)
  }

  ghost predicate UndisturbedAt(worlds: seq<World>, events: seq<Event>, count: nat, i: nat)
    requires i < |events| < |worlds|
  {
    && (events[i].Mine? ==> events[i].count == count && (i < |events| - 1 ==> events[i].next != 0))
    && (Starts(worlds[i], events[i], My(events, i)) ==> |worlds[i].cursors| < MAX_LIVE_CURSORS)
    && (0 < i ==> worlds[i].now - LastCall(worlds, events, i) < CURSOR_IDLE_EXPIRY)
    && !TakesAt(worlds, events, i)
  }

  function Stride(count: nat): nat { if count == 0 then 1 else count }

  /** Midway: the cursor is registered on the start snapshot, exactly as far as the pages reach. */
  ghost predicate OnTrack(w: World, my: nat, keys: seq<Key>, pages: seq<Key>, calls: nat, count: nat, lastCall: Time) {
    && my != 0 && my in w.cursors
    && var s := w.cursors[my];
       && s.snapshot == keys && s.lastUsed == lastCall
       && s.position == calls * Stride(count) < |keys| && pages == keys[..s.position]
  }

  /** Done: the pages are the snapshot, in as many calls as it has strides. */
  ghost predicate Complete(my: nat, keys: seq<Key>, pages: seq<Key>, calls: nat, count: nat) {
    my == 0 && pages == keys && FewestCalls(calls, |keys|, count)
  }

  /** `calls` is the least positive number of strides that cover `n` keys. */
  ghost predicate FewestCalls(calls: nat, n: nat, count: nat) {
    && 1 <= calls && n <= calls * Stride(count)
    && forall c :: 1 <= c && n <= c * Stride(count) ==> calls <= c
  }

  lemma FewestCallsIs(n: nat, count: nat, calls: nat)
    requires calls * Stride(count) < n <= (calls + 1) * Stride(count) || (n == 0 && calls == 0)
    ensures FewestCalls(calls + 1, n, count)
  {
    var d := Stride(count);
    assert n <= (calls + 1) * d;
    forall c | 1 <= c && n <= c * d ensures calls + 1 <= c {
      if c <= calls { MulMonotone(c, calls, d); }
    }
  }

  lemma MulMonotone(a: nat, b: nat, d: nat)
    requires a <= b
    ensures a * d <= b * d
  {}

  lemma TakePage(keys: seq<Key>, position: nat, now: Time, calls: nat, count: nat)
    requires position == calls * Stride(count) && (position < |keys| || (position == 0 && calls == 0))
    ensures var s := ScanState(keys, position, now);
            && keys[..position] + Page(s, count) == keys[..PageEnd(s, count)]
            && (PageEnd(s, count) < |keys| ==> PageEnd(s, count) == (calls + 1) * Stride(count))
            && (PageEnd(s, count) == |keys| ==> FewestCalls(calls + 1, |keys|, count))
  {
    var s := ScanState(keys, position, now);
    assert (calls + 1) * Stride(count) == position + Stride(count);
    if PageEnd(s, count) == |keys| {
      FewestCallsIs(|keys|, count, calls);
    }
  }

  lemma OwnCallOnTrack(w: World, w': World, my: nat, e: Event, keys: seq<Key>, pages: seq<Key>, calls: nat,
                       count: nat, lastCall: Time)
    requires Kept(w, my) && OnTrack(w, my, keys, pages, calls, count, lastCall)
    requires w.now - lastCall < CURSOR_IDLE_EXPIRY
    requires e.Mine? && e.count == count && StepOk(w, e, w', my)
    ensures e.next == 0 ==> Complete(0, keys, pages + e.page, calls + 1, count)
    ensures e.next != 0 ==> OnTrack(w', e.next, keys, pages + e.page, calls + 1, count, w.now)
  {
    var ks, mid :| ScanWith(w, w', my, count, e.next, e.page, ks, mid);
    var s := w.cursors[my];
    TakePage(keys, s.position, s.lastUsed, calls, count);
    assert keys[..|keys|] == keys;
  }

  lemma OthersKeepTrack(w: World, w': World, my: nat, e: Event, keys: seq<Key>, pages: seq<Key>, calls: nat,
                        count: nat, lastCall: Time)
    requires Kept(w, my) && w.nextId + 1 < U64 && OnTrack(w, my, keys, pages, calls, count, lastCall)
    requires w.now - lastCall < CURSOR_IDLE_EXPIRY
    requires !e.Mine? && StepOk(w, e, w', my) && !Takes(w, e, my)
    requires Starts(w, e, my) ==> |w.cursors| < MAX_LIVE_CURSORS
    ensures OnTrack(w', my, keys, pages, calls, count, lastCall)
  {
    if e.Other? {
      var ks, mid :| ScanWith(w, w', e.cursor, e.count, e.next, e.page, ks, mid);
      if !Hits(w.cursors, e.cursor, w.now) {
        NothingLiveEvicted(w.cursors, w.now, mid);
        KeptAfterEviction(w.cursors, w.nextId, w.now, mid);
      }
    }
  }

  /** Below capacity, eviction removes stale cursors only. */
  lemma NothingLiveEvicted(before: Cursors, now: Time, after: Cursors)
    requires |before| < MAX_LIVE_CURSORS && EvictRel(before, now, after)
    ensures after == Retained(before, now)
  {
    var live := Retained(before, now);
    assert live.Keys <= before.Keys;
    CardLe(live.Keys, before.Keys);
    assert |after.Keys| == |live.Keys|;
    SubsetEq(after.Keys, live.Keys);
  }

  lemma CardLe(a: set<nat>, b: set<nat>)
    requires a <= b
    ensures |a| <= |b|
  {
    assert b == a + (b - a);
  }

  lemma SubsetEq(a: set<nat>, b: set<nat>)
    requires a <= b && |a| == |b|
    ensures a == b
  {
    assert b == a + (b - a);
  }

  lemma FirstCallOnTrack(w: World, w': World, e: Event, count: nat) returns (keys: seq<Key>)
    requires Kept(w, 0) && w.nextId + 1 < U64 && e.Mine? && e.count == count && StepOk(w, e, w', 0)
    ensures Lists(keys, w.live)
    ensures e.next == 0 ==> Complete(0, keys, [] + e.page, 1, count)
    ensures e.next != 0 ==> OnTrack(w', e.next, keys, [] + e.page, 1, count, w.now)
  {
    var mid: Cursors;
    keys, mid :| ScanWith(w, w', 0, count, e.next, e.page, keys, mid);
    KeptAfterEviction(w.cursors, w.nextId, w.now, mid);
    TakePage(keys, 0, w.now, 0, count);
    assert keys[..0] == [] && keys[..|keys|] == keys;
  }

  /** Where the scan stands after event `i - 1`. */
  ghost predicate TrackedAt(worlds: seq<World>, events: seq<Event>, count: nat, keys: seq<Key>, i: nat)
    requires 0 < i <= |events| < |worlds|
  {
    if events[i - 1].Mine? && events[i - 1].next == 0
    then Complete(0, keys, Pages(events, i), Calls(events, i), count)
    else OnTrack(worlds[i], My(events, i), keys, Pages(events, i), Calls(events, i), count, LastCall(worlds, events, i))
  }

  lemma FirstTracked(worlds: seq<World>, events: seq<Event>, count: nat) returns (keys: seq<Key>)
    requires Undisturbed(worlds, events, count)
    ensures Lists(keys, worlds[0].live) && TrackedAt(worlds, events, count, keys, 1)
  {
    RunKeeps(worlds, events, 0);
    assert StepAt(worlds, events, 0) && UndisturbedAt(worlds, events, count, 0);
    keys := FirstCallOnTrack(worlds[0], worlds[1], events[0], count);
    var n: nat := 1;
    assert Pages(events, n - 1) == [] && Calls(events, n - 1) == 0;
    assert Pages(events, n) == [] + events[0].page && Calls(events, n) == 1;
    assert My(events, 1) == events[0].next && LastCall(worlds, events, 1) == worlds[0].now;
  }

  lemma TrackTurn(worlds: seq<World>, events: seq<Event>, count: nat, keys: seq<Key>, j: nat)
    requires Undisturbed(worlds, events, count) && 0 < j < |events|
    requires TrackedAt(worlds, events, count, keys, j)
    ensures TrackedAt(worlds, events, count, keys, j + 1)
  {
    var w, e, w', my := worlds[j], events[j], worlds[j + 1], My(events, j);
    var pages, calls, last := Pages(events, j), Calls(events, j), LastCall(worlds, events, j);
    RunKeeps(worlds, events, j);
    assert StepAt(worlds, events, j);
    assert UndisturbedAt(worlds, events, count, j) && UndisturbedAt(worlds, events, count, j - 1);
    assert !TakesAt(worlds, events, j);
    if e.Mine? {
      OwnCallOnTrack(w, w', my, e, keys, pages, calls, count, last);
    } else {
      assert pages + [] == pages;
      OthersKeepTrack(w, w', my, e, keys, pages, calls, count, last);
    }
  }

  /** An undisturbed scan delivers its start snapshot, each key once, in the fewest calls. */
  lemma UndisturbedScanIsExact(worlds: seq<World>, events: seq<Event>, count: nat) returns (keys: seq<Key>)
    requires Undisturbed(worlds, events, count) && Finished(events)
    ensures Lists(keys, worlds[0].live) && Pages(events, |events|) == keys
    ensures FewestCalls(Calls(events, |events|), |keys|, count)
  {
    keys := FirstTracked(worlds, events, count);
    for i := 1 to |events|
      invariant TrackedAt(worlds, events, count, keys, i)
    {
      TrackTurn(worlds, events, count, keys, i);
    }
  }
}

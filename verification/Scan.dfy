/** The SCAN cursor registry, and what one scan sees across any interleaving. */
module Scan {
  import opened Bytes

  const MAX_LIVE_CURSORS: nat := 64
  const CURSOR_IDLE_EXPIRY: nat := 60_000_000_000  // 60 s in nanoseconds
  const U64: nat := 0x1_0000_0000_0000_0000

  datatype ScanState = ScanState(snapshot: seq<Key>, position: nat, lastUsed: Time)

  type Cursors = map<nat, ScanState>

  /** Registered cursors are nonzero, and each still has a page to give. */
  ghost predicate WellKept(cursors: Cursors, nextId: nat) {
    && |cursors| <= MAX_LIVE_CURSORS && nextId < U64
    && forall id :: id in cursors ==> 0 < id <= nextId && cursors[id].position < |cursors[id].snapshot|
  }

  predicate IsStale(s: ScanState, now: Time) { now - s.lastUsed >= CURSOR_IDLE_EXPIRY }

  function Retained(cursors: Cursors, now: Time): Cursors {
    map id | id in cursors && !IsStale(cursors[id], now) :: cursors[id]
  }

  /** `wrapping_add(1).max(1)`. */
  function BumpId(id: nat): nat {
    var n := (id + 1) % U64;
    if n == 0 then 1 else n
  }

  function PageEnd(s: ScanState, count: nat): (end: nat)
    requires s.position <= |s.snapshot|
    ensures s.position <= end <= |s.snapshot|
  {
    var step := if count == 0 then 1 else count;
    if s.position + step <= |s.snapshot| then s.position + step else |s.snapshot|
  }

  function Page(s: ScanState, count: nat): seq<Key>
    requires s.position <= |s.snapshot|
  {
    s.snapshot[s.position..PageEnd(s, count)]
  }

  /** Stale cursors go; of the rest, the least recently used go until one slot is free. */
  ghost predicate EvictRel(before: Cursors, now: Time, after: Cursors) {
    var live := Retained(before, now);
    && after.Keys <= live.Keys && (forall id :: id in after ==> after[id] == before[id])
    && |after| == (if |live| < MAX_LIVE_CURSORS then |live| else MAX_LIVE_CURSORS - 1)
    && forall gone, kept :: gone in live && gone !in after && kept in after ==>
         live[gone].lastUsed <= live[kept].lastUsed
  }

  /** A call that takes a fresh snapshot; `mid` is the registry after eviction. */
  ghost predicate StartRel(before: Cursors, id: nat, now: Time, count: nat, keys: seq<Key>,
                           mid: Cursors, after: Cursors, cursor: nat, page: seq<Key>) {
    var s := ScanState(keys, 0, now);
    && EvictRel(before, now, mid)
    && page == Page(s, count)
    && if PageEnd(s, count) < |keys|
       then cursor == id && after == mid[id := s.(position := PageEnd(s, count))]
       else cursor == 0 && after == mid
  }

  /** A call that finds its cursor. */
  ghost predicate ResumeRel(before: Cursors, now: Time, cursor: nat, count: nat,
                            after: Cursors, next: nat, page: seq<Key>)
  {
    cursor in before && before[cursor].position <= |before[cursor].snapshot| &&
    var s := before[cursor];
    && page == Page(s, count)
    && if PageEnd(s, count) < |s.snapshot|
       then next == cursor && after == before[cursor := s.(position := PageEnd(s, count), lastUsed := now)]
       else next == 0 && after == before - {cursor}
  }

  predicate Hits(cursors: Cursors, cursor: nat, now: Time) {
    cursor != 0 && cursor in cursors && !IsStale(cursors[cursor], now)
  }

  /** One `scan` call, from (`before`, `id`) to (`after`, `id'`), restarting on `keys` if it must. */
  ghost predicate ScanRel(before: Cursors, id: nat, now: Time, cursor: nat, count: nat, keys: seq<Key>,
                          mid: Cursors, after: Cursors, id': nat, next: nat, page: seq<Key>) {
    if Hits(before, cursor, now)
    then id' == id && ResumeRel(before, now, cursor, count, after, next, page)
    else id' == BumpId(id) && StartRel(before, id', now, count, keys, mid, after, next, page)
  }

  class ScanRegistry {
    var cursors: Cursors
    var nextId: nat

    constructor ()
      ensures cursors == map[] && nextId == 0
    {
      cursors, nextId := map[], 0;
    }

    /**
     * `ScanRegistry::scan`: resume a live cursor, otherwise restart on `keys`.
     */
    method Scan(now: Time, cursor: nat, count: nat, keys: seq<Key>)
      returns (next: nat, page: seq<Key>, ghost mid: Cursors)
      requires WellKept(cursors, nextId) && nextId + 1 < U64
      modifies this
      ensures WellKept(cursors, nextId)
      ensures ScanRel(old(cursors), old(nextId), now, cursor, count, keys, mid, cursors, nextId, next, page)
    {
      mid := cursors;
      if cursor != 0 && cursor in cursors {
        var s := cursors[cursor];
        if now - s.lastUsed < CURSOR_IDLE_EXPIRY {
          var end := PageEnd(s, count);
          page := Page(s, count);
          if end >= |s.snapshot| {
            cursors := cursors - {cursor};
            return 0, page, mid;
          } else {
            cursors := cursors[cursor := s.(position := end, lastUsed := now)];
            return cursor, page, mid;
          }
        }
      }
      next, page, mid := Start(now, keys, count);
    }

    method Start(now: Time, keys: seq<Key>, count: nat) returns (next: nat, page: seq<Key>, ghost mid: Cursors)
      requires WellKept(cursors, nextId) && nextId + 1 < U64
      modifies this
      ensures WellKept(cursors, nextId) && nextId == BumpId(old(nextId))
      ensures StartRel(old(cursors), nextId, now, count, keys, mid, cursors, next, page)
    {
      EvictStaleAndOverCapacity(now);
      mid := cursors;
      KeptAfterEviction(old(cursors), nextId, now, cursors);
      nextId := BumpId(nextId);
      var s := ScanState(keys, 0, now);
      page := Page(s, count);
      s := s.(position := PageEnd(s, count));
      next := 0;
      if s.position < |s.snapshot| {
        KeptAfterInsert(cursors, nextId, s);
        cursors := cursors[nextId := s];
        next := nextId;
      }
    }

    method EvictStaleAndOverCapacity(now: Time)
      modifies this`cursors
      ensures EvictRel(old(cursors), now, cursors)
    {
      cursors := Retained(cursors, now);
      ghost var live := cursors;
      while |cursors| >= MAX_LIVE_CURSORS
        invariant cursors.Keys <= live.Keys && forall id :: id in cursors ==> cursors[id] == live[id]
        invariant cursors == live || |cursors| >= MAX_LIVE_CURSORS - 1
        invariant forall gone, kept :: gone in live && gone !in cursors && kept in cursors ==>
                    live[gone].lastUsed <= live[kept].lastUsed
        decreases |cursors|
      {
        var oldest := Oldest();
        RemoveOne(cursors, oldest);
        cursors := cursors - {oldest};
      }
    }

    /** Any least recently used cursor; ties go either way. */
    method Oldest() returns (oldest: nat)
      requires cursors != map[]
      ensures oldest in cursors && forall id :: id in cursors ==> cursors[oldest].lastUsed <= cursors[id].lastUsed
    {
      var left := cursors.Keys;
      oldest :| oldest in left;
      while left != {}
        invariant left <= cursors.Keys && oldest in cursors
        invariant forall id :: id in cursors && id !in left ==> cursors[oldest].lastUsed <= cursors[id].lastUsed
        decreases left
      {
        var id :| id in left;
        left := left - {id};
        if cursors[id].lastUsed < cursors[oldest].lastUsed {
          oldest := id;
        }
      }
    }
  }

  /** Eviction leaves room for one more cursor. */
  lemma KeptAfterEviction(before: Cursors, nextId: nat, now: Time, after: Cursors)
    requires WellKept(before, nextId) && nextId + 1 < U64 && EvictRel(before, now, after)
    ensures WellKept(after, BumpId(nextId)) && |after| < MAX_LIVE_CURSORS && BumpId(nextId) == nextId + 1
  {
    assert (nextId + 1) % U64 == nextId + 1;
    forall id | id in after ensures 0 < id <= nextId && after[id].position < |after[id].snapshot| {
      assert id in before && after[id] == before[id];
    }
  }

  lemma KeptAfterInsert(m: Cursors, id: nat, s: ScanState)
    requires WellKept(m, id) && |m| < MAX_LIVE_CURSORS && 0 < id && s.position < |s.snapshot|
    ensures WellKept(m[id := s], id)
  {
    assert m[id := s].Keys == m.Keys + {id};
    assert |m[id := s]| <= |m| + 1;
  }

}

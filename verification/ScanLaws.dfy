/** What a single SCAN call does, said without the registry's own tests: when it resumes, when it restarts. */
module ScanLaws {
  import opened Bytes
  import opened Scan
  import opened ScanRuns

  /** Sixty seconds, in nanoseconds. */
  predicate Idle(s: ScanState, now: Time) { now >= s.lastUsed + 60_000_000_000 }

  function AtLeastOne(count: nat): nat { if count < 1 then 1 else count }

  function Least(a: nat, b: nat): nat { if a < b then a else b }

  lemma {:induction false} LengthOfListing(keys: seq<Key>, live: set<Key>)
    requires Lists(keys, live)
    ensures |keys| == |live|
  {
    if keys == [] {
      assert live == {};
    } else {
      var init, last := keys[..|keys| - 1], keys[|keys| - 1];
      assert keys == init + [last];
      forall k ensures k in init <==> k in live - {last} {
        if k in init {
          var i :| 0 <= i < |init| && init[i] == k;
          assert keys[i] == k;
        }
      }
      LengthOfListing(init, live - {last});
    }
  }

  /** The call answers from a listing of what is live now, and hands out a new cursor if more is left. */
  ghost predicate Restarts(w: World, w': World, count: nat, next: nat, page: seq<Key>) {
    && Keys(page) <= w.live && Distinct(page) && |page| == Least(AtLeastOne(count), |w.live|)
    && (next == 0 <==> |page| == |w.live|)
    && (next != 0 ==>
          && next !in w.cursors && next in w'.cursors && w'.cursors[next].lastUsed == w.now
          && Lists(w'.cursors[next].snapshot, w.live) && page <= w'.cursors[next].snapshot
          && w'.cursors[next].position == |page|)
  }

  lemma ListingPage(keys: seq<Key>, live: set<Key>, now: Time, count: nat)
    requires Lists(keys, live)
    ensures var page := Page(ScanState(keys, 0, now), count);
            && Keys(page) <= live && Distinct(page) && |page| == Least(AtLeastOne(count), |live|)
            && page <= keys && |page| == PageEnd(ScanState(keys, 0, now), count)
  {
    LengthOfListing(keys, live);
    var page := Page(ScanState(keys, 0, now), count);
    assert page == keys[..|page|];
    forall k | k in Keys(page) ensures k in live {
      assert k in keys;
    }
  }

  /** Without a usable cursor, none, unknown or idle for 60 s, the scan restarts on what is live now. */
  lemma UnusableCursorRestarts(w: World, w': World, cursor: nat, count: nat, next: nat, page: seq<Key>)
    requires ScanStep(w, w', cursor, count, next, page) && Kept(w, 0) && w.nextId + 1 < U64
    requires cursor == 0 || cursor !in w.cursors || Idle(w.cursors[cursor], w.now)
    ensures Restarts(w, w', count, next, page)
    ensures cursor in w.cursors ==> next != cursor && cursor !in w'.cursors
  {
    var keys, mid :| ScanWith(w, w', cursor, count, next, page, keys, mid);
    KeptAfterEviction(w.cursors, w.nextId, w.now, mid);
    ListingPage(keys, w.live, w.now, count);
    LengthOfListing(keys, w.live);
    NewCursorIsNew(w, w', cursor, count, next, page, keys, mid);
  }

  lemma NewCursorIsNew(w: World, w': World, cursor: nat, count: nat, next: nat, page: seq<Key>, keys: seq<Key>,
                       mid: Cursors)
    requires Kept(w, 0) && w.nextId + 1 < U64 && ScanWith(w, w', cursor, count, next, page, keys, mid)
    requires !Hits(w.cursors, cursor, w.now)
    ensures next == 0 || next == w.nextId + 1
  {
    KeptAfterEviction(w.cursors, w.nextId, w.now, mid);
  }

  /** A cursor used less than 60 s ago gives the next page of its own snapshot, whatever is live now. */
  lemma YoungCursorResumes(w: World, w': World, cursor: nat, count: nat, next: nat, page: seq<Key>)
    requires ScanStep(w, w', cursor, count, next, page) && Kept(w, 0)
    requires cursor != 0 && cursor in w.cursors && !Idle(w.cursors[cursor], w.now)
    ensures var s := w.cursors[cursor];
            var end := Least(s.position + AtLeastOne(count), |s.snapshot|);
            && page == s.snapshot[s.position..end] && page != []
            && (if end == |s.snapshot| then next == 0 && w'.cursors == w.cursors - {cursor}
                else next == cursor && w'.cursors == w.cursors[cursor := ScanState(s.snapshot, end, w.now)])
  {
    var keys, mid :| ScanWith(w, w', cursor, count, next, page, keys, mid);
  }

  /** What a restart throws out is idle, or, with 64 cursors in use, no younger than anything it keeps. */
  lemma RestartEvictsOldest(w: World, w': World, cursor: nat, count: nat, next: nat, page: seq<Key>,
                            gone: nat, kept: nat)
    requires ScanStep(w, w', cursor, count, next, page) && Kept(w, 0) && w.nextId + 1 < U64
    requires cursor == 0 || cursor !in w.cursors || Idle(w.cursors[cursor], w.now)
    requires gone in w.cursors && !Idle(w.cursors[gone], w.now) && gone !in w'.cursors
    ensures |w.cursors| == 64
    ensures kept in w.cursors && kept in w'.cursors ==> w.cursors[gone].lastUsed <= w.cursors[kept].lastUsed
  {
    var keys, mid :| ScanWith(w, w', cursor, count, next, page, keys, mid);
    KeptAfterEviction(w.cursors, w.nextId, w.now, mid);
    var live := Retained(w.cursors, w.now);
    assert gone in live && gone !in mid;
    assert live.Keys <= w.cursors.Keys;
    CardLe(live.Keys, w.cursors.Keys);
    if |live| < MAX_LIVE_CURSORS {
      assert |mid.Keys| == |live.Keys|;
      SubsetEq(mid.Keys, live.Keys);
    }
  }

  /** Nothing idle survives a restart. */
  lemma RestartDropsIdle(w: World, w': World, cursor: nat, count: nat, next: nat, page: seq<Key>, id: nat)
    requires ScanStep(w, w', cursor, count, next, page) && Kept(w, 0) && w.nextId + 1 < U64
    requires cursor == 0 || cursor !in w.cursors || Idle(w.cursors[cursor], w.now)
    requires id in w.cursors && Idle(w.cursors[id], w.now)
    ensures id !in w'.cursors
  {
    var keys, mid :| ScanWith(w, w', cursor, count, next, page, keys, mid);
    KeptAfterEviction(w.cursors, w.nextId, w.now, mid);
  }
}

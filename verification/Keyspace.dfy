/** SCAN and KEYS on the actual store: where the registry's key listings come from. */
module Keyspace {
  import opened Bytes
  import Store
  import Scan
  import ScanRuns
  import ScanLaws
  import Glob

  /** The live keys, in whatever order the map iterates. */
  method LiveKeys(store: Store.Store, now: nat) returns (keys: seq<Key>)
    ensures ScanRuns.Lists(keys, Store.LiveView(store.table, now).Keys)
  {
    var left := store.table.Keys;
    keys := [];
    while left != {}
      invariant left <= store.table.Keys
      invariant forall k :: k in keys <==> k in store.table.Keys - left && Store.IsLive(store.table[k], now)
      invariant ScanRuns.Distinct(keys)
      decreases left
    {
      var k :| k in left;
      left := left - {k};
      if Store.IsLive(store.table[k], now) {
        keys := keys + [k];
      }
    }
  }

  ghost function WorldOf(store: Store.Store, registry: Scan.ScanRegistry, now: nat): ScanRuns.World
    reads store, registry
  {
    ScanRuns.World(registry.cursors, registry.nextId, now, Store.LiveView(store.table, now).Keys)
  }

  /** Whether a call has to start over: no cursor, an unknown one, or one idle for 60 s. */
  predicate Unusable(registry: Scan.ScanRegistry, now: nat, cursor: nat)
    reads registry
  {
    cursor == 0 || cursor !in registry.cursors || ScanLaws.Idle(registry.cursors[cursor], now)
  }

  /**
   * `Store::scan` is exactly one scan step of the run model: it restarts on the keys live now if the
   * cursor is unusable, and otherwise continues the cursor's own snapshot.
   */
  method ScanStore(store: Store.Store, registry: Scan.ScanRegistry, now: nat, cursor: nat, count: nat)
    returns (next: nat, page: seq<Key>)
    requires Scan.WellKept(registry.cursors, registry.nextId) && registry.nextId + 1 < Scan.U64
    modifies registry
    ensures Scan.WellKept(registry.cursors, registry.nextId)
    ensures ScanRuns.ScanStep(old(WorldOf(store, registry, now)), WorldOf(store, registry, now),
                              cursor, count, next, page)
    ensures old(Unusable(registry, now, cursor)) ==>
              ScanLaws.Restarts(old(WorldOf(store, registry, now)), WorldOf(store, registry, now), count, next, page)
    ensures !old(Unusable(registry, now, cursor)) ==>
              var s := old(registry.cursors)[cursor];
              page == s.snapshot[s.position..ScanLaws.Least(s.position + ScanLaws.AtLeastOne(count), |s.snapshot|)]
  {
    ghost var before := WorldOf(store, registry, now);
    var keys := LiveKeys(store, now);
    ghost var mid;
    ghost var unusable := Unusable(registry, now, cursor);
    next, page, mid := registry.Scan(now, cursor, count, keys);
    ghost var after := WorldOf(store, registry, now);
    assert ScanRuns.ScanWith(before, after, cursor, count, next, page, keys, mid);
    if unusable {
      ScanLaws.UnusableCursorRestarts(before, after, cursor, count, next, page);
    } else {
      ScanLaws.YoungCursorResumes(before, after, cursor, count, next, page);
    }
  }

  /** The MATCH filter keeps the matching keys of a page, in page order. */
  ghost predicate Filtered(page: seq<Key>, pattern: seq<byte>, kept: seq<Key>) {
    if page == [] then kept == []
    else
      var init, last := page[..|page| - 1], page[|page| - 1];
      if Glob.Denotes(Glob.Tokens(pattern), last)
      then kept != [] && kept[|kept| - 1] == last && Filtered(init, pattern, kept[..|kept| - 1])
      else Filtered(init, pattern, kept)
  }

  method Matching(page: seq<Key>, pattern: seq<byte>) returns (kept: seq<Key>)
    ensures Filtered(page, pattern, kept)
    ensures forall k :: k in kept <==> k in page && Glob.Denotes(Glob.Tokens(pattern), k)
    ensures ScanRuns.Distinct(page) ==> ScanRuns.Distinct(kept)
  {
    kept := [];
    for i := 0 to |page|
      invariant Filtered(page[..i], pattern, kept)
      invariant ScanRuns.Distinct(page) ==> ScanRuns.Distinct(kept)
      invariant forall k :: k in kept <==> k in page[..i] && Glob.Denotes(Glob.Tokens(pattern), k)
    {
      var hit := Glob.GlobMatch(pattern, page[i]);
      assert page[..i + 1][..i] == page[..i] && page[..i + 1] == page[..i] + [page[i]];
      if hit {
        assert (kept + [page[i]])[..|kept|] == kept;
        kept := kept + [page[i]];
      }
    }
    assert page[..|page|] == page;
  }

  /** KEYS lists exactly the live keys that match, each once. */
  method KeysCommand(store: Store.Store, now: nat, pattern: seq<byte>) returns (keys: seq<Key>)
    ensures ScanRuns.Distinct(keys)
    ensures forall k :: k in keys <==> k in Store.LiveView(store.table, now) && Glob.Denotes(Glob.Tokens(pattern), k)
  {
    var all := LiveKeys(store, now);
    keys := Matching(all, pattern);
  }
}

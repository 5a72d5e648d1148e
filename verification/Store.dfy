/** The store itself: lazy and swept expiry, byte accounting, CLOCK eviction under a budget. */
module Store {
  import opened Bytes
  import opened Decimal
  import opened StoreSpec

  const DEFAULT_SAMPLE_SIZE: nat := 20

  datatype Entry = Entry(value: Value, expiresAt: Option<Time>, clockBit: bool)

  type Table = map<Key, Entry>

  function EntryBytes(k: Key, e: Entry): nat { WriteBytes(k, e.value) }

  predicate IsLive(e: Entry, now: Time) { e.expiresAt.Some? ==> now < e.expiresAt.value }

  function SlotOf(e: Entry): Slot { Slot(e.value, e.expiresAt) }

  /** What the table shows a client at `now`. */
  function LiveView(m: Table, now: Time): View {
    map k | k in m && IsLive(m[k], now) :: SlotOf(m[k])
  }

  /** Accounted size of a table. */
  ghost function Total(m: Table): nat {
    if m == map[] then 0
    else
      var k :| k in m;
      EntryBytes(k, m[k]) + Total(m - {k})
  }

  lemma {:induction false} TotalRemove(m: Table, k: Key)
    requires k in m
    ensures Total(m) == EntryBytes(k, m[k]) + Total(m - {k})
    decreases |m|
  {
    var x :| x in m && Total(m) == EntryBytes(x, m[x]) + Total(m - {x});
    if x != k {
      TotalRemove(m - {x}, k);
      assert m - {x} - {k} == m - {k} - {x};
      TotalRemove(m - {k}, x);
    }
  }

  lemma TotalInsert(m: Table, k: Key, e: Entry)
    ensures Total(m[k := e]) == EntryBytes(k, e) + Total(m - {k})
  {
    TotalRemove(m[k := e], k);
    assert m[k := e] - {k} == m - {k};
  }

  /** Equal except for clock bits. */
  ghost predicate SameButBits(m: Table, m': Table) {
    m.Keys == m'.Keys && forall k :: k in m ==> m'[k] == m[k].(clockBit := m'[k].clockBit)
  }

  lemma {:induction false} TotalIgnoresBits(m: Table, m': Table)
    requires SameButBits(m, m')
    ensures Total(m) == Total(m')
    decreases |m|
  {
    if m == map[] {
      assert m' == map[];
    } else {
      var k :| k in m;
      TotalRemove(m, k);
      TotalRemove(m', k);
      TotalIgnoresBits(m - {k}, m' - {k});
    }
  }

  lemma ViewIgnoresBits(m: Table, m': Table, now: Time)
    requires SameButBits(m, m')
    ensures LiveView(m, now) == LiveView(m', now)
  {}

  lemma ViewRemove(m: Table, gone: set<Key>, now: Time)
    ensures LiveView(m - gone, now) == LiveView(m, now) - gone
  {}

  lemma ViewInsert(m: Table, k: Key, e: Entry, now: Time)
    ensures LiveView(m[k := e], now) == Put(LiveView(m, now), k, SlotOf(e), now)
  {}

  /** Later views follow from earlier ones: time only removes. */
  lemma ViewLater(m: Table, now: Time, later: Time)
    requires now <= later
    ensures LiveView(m, later) == Purge(LiveView(m, now), later)
  {}

  datatype Removal = Deleted | Expired | Evicted

  class Store {
    var table: Table
    var usedBytes: nat
    const maxMemory: Option<nat>
    var hits: nat
    var misses: nat
    var evictions: nat
    ghost var inserted: nat  // keys that were new when written
    ghost var deleted: nat
    ghost var expired: nat
    ghost var flushed: nat

    ghost predicate Accounted()
      reads this
    {
      usedBytes == Total(table)
    }

    /** Every key ever inserted is present or left for a known reason. */
    ghost predicate Balanced()
      reads this
    {
      inserted == |table| + deleted + expired + flushed + evictions
    }

    /** Over budget only for the sake of a single entry. */
    ghost predicate InBudget()
      reads this
    {
      maxMemory.Some? ==> usedBytes <= maxMemory.value || |table| == 1
    }

    ghost predicate Valid()
      reads this
    {
      Accounted() && Balanced() && InBudget()
    }

    constructor (maxMemory: Option<nat>)
      ensures Valid() && this.maxMemory == maxMemory && table == map[]
      ensures hits == 0 && misses == 0 && evictions == 0
    {
      this.maxMemory := maxMemory;
      table, usedBytes := map[], 0;
      hits, misses, evictions := 0, 0, 0;
      inserted, deleted, expired, flushed := 0, 0, 0, 0;
    }

    // ------------------------------------------------------------- accounting

    method RemoveAccounted(key: Key, why: Removal) returns (removed: Option<Entry>)
      requires Accounted() && Balanced()
      modifies this`table, this`usedBytes, this`evictions, this`deleted, this`expired
      ensures Accounted() && Balanced() && table == old(table) - {key}
      ensures removed == if key in old(table) then Some(old(table)[key]) else None
      ensures usedBytes == old(usedBytes) - if removed.Some? then EntryBytes(key, removed.value) else 0
      ensures |table| == |old(table)| - if removed.Some? then 1 else 0
      ensures deleted == old(deleted) + if removed.Some? && why.Deleted? then 1 else 0
      ensures expired == old(expired) + if removed.Some? && why.Expired? then 1 else 0
      ensures evictions == old(evictions) + if removed.Some? && why.Evicted? then 1 else 0
    {
      removed := RemoveEntry(key);
      if removed.Some? {
        match why {
          case Deleted => deleted := deleted + 1;
          case Expired => expired := expired + 1;
          case Evicted => evictions := evictions + 1;
        }
      }
    }

    /** The map and its byte count, without saying why the entry goes. */
    method RemoveEntry(key: Key) returns (removed: Option<Entry>)
      requires Accounted()
      modifies this`table, this`usedBytes
      ensures Accounted() && table == old(table) - {key}
      ensures removed == if key in old(table) then Some(old(table)[key]) else None
      ensures usedBytes == old(usedBytes) - if removed.Some? then EntryBytes(key, removed.value) else 0
      ensures |table| == |old(table)| - if removed.Some? then 1 else 0
    {
      removed := None;
      if key in table {
        removed := Some(table[key]);
        TotalRemove(table, key);
        RemoveOne(table, key);
        usedBytes := usedBytes - EntryBytes(key, table[key]);
        table := table - {key};
      } else {
        assert table - {key} == table;
      }
    }

    /** Lazy expiry: an expired entry under `key` goes; no client can tell. */
    method ExpireIfNeeded(key: Key, now: Time)
      requires Valid()
      modifies this`table, this`usedBytes, this`evictions, this`deleted, this`expired
      ensures Valid() && evictions == old(evictions) && usedBytes <= old(usedBytes)
      ensures LiveView(table, now) == LiveView(old(table), now)
      ensures table == old(table) || table == old(table) - {key}
      ensures key in table <==> key in LiveView(table, now)
      ensures key in table ==> SlotOf(table[key]) == LiveView(table, now)[key]
    {
      if key in table && !IsLive(table[key], now) {
        ViewRemove(table, {key}, now);
        var _ := RemoveAccounted(key, Expired);
      }
    }

    method InsertAccounted(key: Key, entry: Entry, ghost now: Time) returns (ghost dropped: set<Key>)
      requires Valid()
      modifies this`table, this`usedBytes, this`evictions, this`inserted, this`deleted, this`expired
      ensures Valid() && key in table && SlotOf(table[key]) == SlotOf(entry)
      ensures LiveView(table, now) == Put(LiveView(old(table), now), key, SlotOf(entry), now) - dropped
      ensures key !in dropped && evictions == old(evictions) + |dropped|
      ensures dropped == {} <==> Fits(old(table)[key := entry], maxMemory)
      ensures usedBytes <= old(usedBytes) + EntryBytes(key, entry)
    {
      var e := entry.(clockBit := true);
      CardInsert(table, key, e);
      ViewInsert(table, key, e, now);
      SameSize(table, key, e, entry);
      InsertAtMost(table, key, e);
      inserted := inserted + if key in table then 0 else 1;
      InsertEntry(key, e);
      dropped := EvictToBudget(key, now);
    }

    /** The map and its byte count: a replaced entry's bytes are given back. */
    method InsertEntry(key: Key, e: Entry)
      requires Accounted()
      modifies this`table, this`usedBytes
      ensures Accounted() && table == old(table)[key := e]
    {
      TotalInsert(table, key, e);
      if key in table {
        TotalRemove(table, key);
        usedBytes := usedBytes - EntryBytes(key, table[key]);
      } else {
        assert table - {key} == table;
      }
      table := table[key := e];
      usedBytes := usedBytes + EntryBytes(key, e);
    }

    /**
     * CLOCK eviction: drop others, and only while over budget, until it holds or only the protected
     * key is left. The last one dropped was needed: with its bytes back the budget would not hold.
     */
    method EvictToBudget(protect: Key, ghost now: Time) returns (ghost dropped: set<Key>)
      requires Accounted() && Balanced() && protect in table
      modifies this`table, this`usedBytes, this`evictions, this`deleted, this`expired
      ensures Valid() && protect in table && protect !in dropped && usedBytes <= old(usedBytes)
      ensures SlotOf(table[protect]) == SlotOf(old(table)[protect])
      ensures LiveView(table, now) == LiveView(old(table), now) - dropped
      ensures dropped == {} <==> Fits(old(table), maxMemory)
      ensures dropped != {} ==> NeededLast(old(table), dropped, usedBytes, maxMemory)
      ensures evictions == old(evictions) + |dropped|
    {
      dropped := {};
      if maxMemory.None? {
        return;
      }
      AllKept(table);
      ghost var budget := maxMemory.value;
      while usedBytes > maxMemory.value && table != map[]
        invariant Accounted() && Balanced() && protect in table && protect !in dropped
        invariant LiveView(table, now) == LiveView(old(table), now) - dropped
        invariant Evicting(old(table), old(usedBytes), dropped, table, usedBytes, budget)
        invariant evictions == old(evictions) + |dropped| && SlotOf(table[protect]) == SlotOf(old(table)[protect])
        decreases |table|
      {
        ghost var before, used := table, usedBytes;
        var victim := EvictOne(protect, now);
        if victim.None? {
          break;
        }
        DropMore(LiveView(old(table), now), dropped, victim.value);
        EvictingTurn(old(table), old(usedBytes), dropped, before, used, budget,
                     victim.value, table, usedBytes, protect);
        dropped := dropped + {victim.value};
      }
    }

    /** One turn of the eviction loop: one key other than `protect` goes, if there is one. */
    method EvictOne(protect: Key, ghost now: Time) returns (victim: Option<Key>)
      requires Accounted() && Balanced() && protect in table
      modifies this`table, this`usedBytes, this`evictions, this`deleted, this`expired
      ensures Accounted() && Balanced() && protect in table
      ensures SlotOf(table[protect]) == SlotOf(old(table)[protect])
      ensures victim.None? ==> |table| == |old(table)| == 1
      ensures victim.None? ==> usedBytes == old(usedBytes) && evictions == old(evictions)
      ensures victim.None? ==> LiveView(table, now) == LiveView(old(table), now)
      ensures victim.Some? ==>
                && victim.value != protect && victim.value in old(table)
                && SameButBits(old(table) - {victim.value}, table)
                && usedBytes == old(usedBytes) - EntryBytes(victim.value, old(table)[victim.value])
                && |table| < |old(table)| && evictions == old(evictions) + 1
                && LiveView(table, now) == LiveView(old(table), now) - {victim.value}
    {
      victim := ChooseVictim(protect, now);
      if victim.Some? {
        ViewRemove(table, {victim.value}, now);
        var _ := RemoveAccounted(victim.value, Evicted);
      }
    }

    /** Choosing a victim moves clock bits only. */
    method ChooseVictim(protect: Key, ghost now: Time) returns (victim: Option<Key>)
      requires Accounted() && Balanced() && protect in table
      modifies this`table
      ensures Accounted() && Balanced() && SameButBits(old(table), table) && |table| == |old(table)|
      ensures LiveView(table, now) == LiveView(old(table), now)
      ensures victim.None? ==> |table| == 1
      ensures victim.Some? ==> victim.value != protect && victim.value in table
    {
      ghost var sample;
      victim, sample := ClockPass(protect);
      TotalIgnoresBits(old(table), table);
      ViewIgnoresBits(old(table), table, now);
      CardSame(old(table), table);
      if victim.None? {
        OnlyOneKey(table, protect);
      }
    }

    /**
     * One pass over at most `DEFAULT_SAMPLE_SIZE` entries in whatever order the map iterates.
     * Set bits are cleared as a second chance; the first clear one found is the victim, and
     * failing that an entry given its second chance.
     */
    method ClockPass(protect: Key) returns (victim: Option<Key>, ghost sample: set<Key>)
      modifies this`table
      ensures sample <= old(table).Keys && |sample| <= DEFAULT_SAMPLE_SIZE
      ensures victim.None? ==> old(table).Keys <= {protect} && table == old(table)
      ensures victim.Some? ==> victim.value in sample && victim.value != protect
      ensures victim.Some? && !old(table)[victim.value].clockBit ==>
                SecondChances(old(table), table, sample - {protect, victim.value})
      ensures victim.Some? && old(table)[victim.value].clockBit ==>
                && SecondChances(old(table), table, sample - {protect})
                && |sample| == (if |old(table)| < DEFAULT_SAMPLE_SIZE then |old(table)| else DEFAULT_SAMPLE_SIZE)
    {
      var left := table.Keys;
      var fallback: Option<Key> := None;
      sample := {};
      var n := 0;
      NoChances(table);
      while n < DEFAULT_SAMPLE_SIZE && left != {}
        invariant n == |sample| <= DEFAULT_SAMPLE_SIZE
        invariant left <= old(table).Keys && sample == old(table).Keys - left
        invariant SecondChances(old(table), table, sample - {protect})
        invariant fallback.Some? ==> fallback.value in sample && fallback.value != protect
        invariant fallback.None? ==> sample <= {protect}
        decreases left
      {
        var k :| k in left;
        SampleOne(old(table).Keys, left, k);
        left := left - {k};
        n := n + 1;
        var clear := Inspect(k, protect, old(table), sample);
        sample := sample + {k};
        if clear {
          return Some(k), sample;
        }
        if k != protect && fallback.None? {
          fallback := Some(k);
        }
      }
      SampleSize(old(table), sample);
      if fallback.None? {
        AtMostOne(sample, protect);
        assert sample - {protect} == {};
      }
      victim := fallback;
    }

    /** One entry of the pass: a clear bit makes a victim, a set one is cleared. */
    method Inspect(k: Key, protect: Key, ghost before: Table, ghost sample: set<Key>) returns (clear: bool)
      requires SecondChances(before, table, sample - {protect}) && k in before && k !in sample
      modifies this`table
      ensures clear <==> k != protect && !before[k].clockBit
      ensures SecondChances(before, table, sample + {k} - if clear then {protect, k} else {protect})
    {
      clear := k != protect && !table[k].clockBit;
      assert sample + {k} - {protect, k} == sample - {protect};
      if k == protect {
        assert sample + {k} - {protect} == sample - {protect};
      } else if table[k].clockBit {
        OneMoreChance(before, table, sample - {protect}, k);
        assert sample + {k} - {protect} == sample - {protect} + {k};
        table := table[k := table[k].(clockBit := false)];
      }
    }

    /** Active sweep: exactly the expired entries of a sample go; invisible now and ever after. */
    method ActiveExpireSweep(now: Time, sampleSize: nat) returns (count: nat, ghost sample: set<Key>)
      requires Valid()
      modifies this`table, this`usedBytes, this`evictions, this`deleted, this`expired
      ensures Valid() && forall later :: now <= later ==> LiveView(table, later) == LiveView(old(table), later)
      ensures usedBytes <= old(usedBytes)
      ensures sample <= old(table).Keys
      ensures |sample| == if |old(table)| < sampleSize then |old(table)| else sampleSize
      ensures table == old(table) - Dead(old(table), sample, now)
      ensures count == |old(table)| - |table|
    {
      var left := table.Keys;
      var n := 0;
      count, sample := 0, {};
      NothingDead(table, now);
      while n < sampleSize && left != {}
        invariant usedBytes <= old(usedBytes)
        invariant Valid() && n == |sample| <= sampleSize
        invariant left <= old(table).Keys && sample == old(table).Keys - left
        invariant table == old(table) - Dead(old(table), sample, now)
        invariant count == |old(table)| - |table|
        decreases left
      {
        var k :| k in left;
        SampleOne(old(table).Keys, left, k);
        OneMoreDead(old(table), sample, k, now);
        left := left - {k};
        n := n + 1;
        sample := sample + {k};
        if !IsLive(table[k], now) {
          var _ := RemoveAccounted(k, Expired);
          count := count + 1;
        }
      }
      SampleSize(old(table), sample);
      forall later | now <= later ensures LiveView(table, later) == LiveView(old(table), later) {
        DeadIsInvisible(old(table), sample, now, later);
      }
    }

    // ------------------------------------------------------------- operations

    /** A read sets the clock bit and nothing a client can see. */
    method Touch(key: Key, ghost now: Time)
      requires Valid() && key in table
      modifies this`table
      ensures usedBytes <= old(usedBytes)
      ensures Valid() && SameButBits(old(table), table) && LiveView(table, now) == LiveView(old(table), now)
    {
      table := table[key := table[key].(clockBit := true)];
      TotalIgnoresBits(old(table), table);
      ViewIgnoresBits(old(table), table, now);
      CardSame(old(table), table);
    }

    method ChangeDeadline(key: Key, deadline: Option<Time>, ghost now: Time)
      requires Valid() && key in table
      modifies this`table
      ensures key in table && SlotOf(table[key]) == Slot(old(table)[key].value, deadline)
      ensures usedBytes <= old(usedBytes)
      ensures Valid()
      ensures LiveView(table, now) == Put(LiveView(old(table), now), key, Slot(old(table)[key].value, deadline), now)
    {
      var e := table[key].(expiresAt := deadline);
      TotalInsert(table, key, e);
      TotalRemove(table, key);
      CardInsert(table, key, e);
      ViewInsert(table, key, e, now);
      table := table[key := e];
    }

    method Get(now: Time, key: Key) returns (r: Option<Value>)
      requires Valid()
      modifies this
      ensures usedBytes <= old(usedBytes)
      ensures Valid() && r == Lookup(LiveView(old(table), now), key)
      ensures LiveView(table, now) == LiveView(old(table), now)
      ensures hits == old(hits) + (if r.Some? then 1 else 0) && misses == old(misses) + (if r.Some? then 0 else 1)
    {
      ExpireIfNeeded(key, now);
      if key in table {
        Touch(key, now);
        hits := hits + 1;
        r := Some(table[key].value);
      } else {
        misses := misses + 1;
        r := None;
      }
    }

    method Set(now: Time, key: Key, value: Value, expiry: Expiry, condition: Condition, wantOld: bool)
      returns (applied: bool, oldValue: Option<Value>, ghost dropped: set<Key>)
      requires Valid()
      modifies this
      ensures Valid() && hits == old(hits) && misses == old(misses)
      ensures var v := LiveView(old(table), now);
              && applied == Allowed(v, key, condition)
              && oldValue == (if wantOld then Lookup(v, key) else None)
              && LiveView(table, now) ==
                 (if applied then Put(v, key, Slot(value, NewDeadline(v, key, expiry)), now) else v) - dropped
      ensures key !in dropped && evictions == old(evictions) + |dropped|
      ensures dropped == {} <==> !applied || Fits(old(table)[key := Entry(value, None, true)], maxMemory)
      ensures usedBytes <= old(usedBytes) + if applied then EntryBytes(key, Entry(value, None, true)) else 0
      ensures applied ==> key in table && table[key].value == value
      ensures applied && expiry == NoExpiry ==> table[key].expiresAt == None
      ensures applied && expiry == KeepTtl ==> table[key].expiresAt == DeadlineOf(LiveView(old(table), now), key)
      ensures applied && expiry.At? ==> table[key].expiresAt == Some(expiry.deadline)
    {
      ExpireIfNeeded(key, now);
      dropped := {};
      var exists_ := key in table;
      oldValue := if wantOld && exists_ then Some(table[key].value) else None;
      applied := match condition
        case Always => true
        case IfExists => exists_
        case IfNotExists => !exists_;
      if applied {
        var expiresAt := match expiry
          case NoExpiry => None
          case KeepTtl => if exists_ then table[key].expiresAt else None
          case At(d) => Some(d);
        SameFit(old(table), table, key, Entry(value, expiresAt, false), Entry(value, None, true), maxMemory);
        dropped := InsertAccounted(key, Entry(value, expiresAt, false), now);
      }
    }

    method Clear()
      requires Valid()
      modifies this
      ensures usedBytes <= old(usedBytes)
      ensures Valid() && table == map[] && hits == old(hits) && misses == old(misses) && evictions == old(evictions)
    {
      flushed := flushed + |table|;
      table, usedBytes := map[], 0;
    }

    method Persist(now: Time, key: Key) returns (r: bool)
      requires Valid()
      modifies this
      ensures usedBytes <= old(usedBytes)
      ensures Valid()
      ensures var v := LiveView(old(table), now);
              && r == DeadlineOf(v, key).Some?
              && LiveView(table, now) == if r then v[key := Slot(v[key].value, None)] else v
      ensures hits == old(hits) && misses == old(misses)
    {
      ExpireIfNeeded(key, now);
      r := key in table && table[key].expiresAt.Some?;
      if r {
        ChangeDeadline(key, None, now);
      }
    }

    /** Expire, then remove: the key is gone, and what it held is returned if it was live. */
    method Discard(now: Time, key: Key) returns (r: Option<Value>)
      requires Valid()
      modifies this`table, this`usedBytes, this`evictions, this`deleted, this`expired
      ensures usedBytes <= old(usedBytes)
      ensures Valid() && r == Lookup(LiveView(old(table), now), key)
      ensures LiveView(table, now) == LiveView(old(table), now) - {key}
    {
      ExpireIfNeeded(key, now);
      r := if key in table then Some(table[key].value) else None;
      ViewRemove(table, {key}, now);
      var _ := RemoveAccounted(key, Deleted);
    }

    method GetDel(now: Time, key: Key) returns (r: Option<Value>)
      requires Valid()
      modifies this
      ensures usedBytes <= old(usedBytes)
      ensures Valid() && r == Lookup(LiveView(old(table), now), key)
      ensures LiveView(table, now) == LiveView(old(table), now) - {key}
      ensures hits == old(hits) + (if r.Some? then 1 else 0) && misses == old(misses) + (if r.Some? then 0 else 1)
    {
      r := Discard(now, key);
      if r.Some? {
        hits := hits + 1;
      } else {
        misses := misses + 1;
      }
    }

    method GetEx(now: Time, key: Key, change: Option<Expiry>) returns (r: Option<Value>)
      requires Valid()
      modifies this
      ensures usedBytes <= old(usedBytes)
      ensures Valid() && r == Lookup(LiveView(old(table), now), key)
      ensures var v := LiveView(old(table), now);
              LiveView(table, now) == if r.Some? && change.Some?
                                      then Put(v, key, Slot(r.value, NewDeadline(v, key, change.value)), now) else v
      ensures hits == old(hits) + (if r.Some? then 1 else 0) && misses == old(misses) + (if r.Some? then 0 else 1)
      ensures r.Some? ==> key in table && table[key].value == r.value
      ensures r.Some? && change == Some(NoExpiry) ==> table[key].expiresAt == None
      ensures r.Some? && (change == None || change == Some(KeepTtl)) ==>
                table[key].expiresAt == LiveView(old(table), now)[key].deadline
      ensures r.Some? && change.Some? && change.value.At? ==> table[key].expiresAt == Some(change.value.deadline)
    {
      ExpireIfNeeded(key, now);
      r := if key in table then Some(table[key].value) else None;
      if r.None? {
        misses := misses + 1;
        return;
      }
      hits := hits + 1;
      if change.Some? {
        var expiresAt := match change.value
          case NoExpiry => None
          case KeepTtl => table[key].expiresAt
          case At(d) => Some(d);
        ChangeDeadline(key, expiresAt, now);
      }
    }

    method Expire(now: Time, key: Key, deadline: Time) returns (r: bool)
      requires Valid()
      modifies this
      ensures usedBytes <= old(usedBytes)
      ensures Valid() && r == (key in LiveView(old(table), now))
      ensures var v := LiveView(old(table), now);
              LiveView(table, now) == if r then Put(v, key, Slot(v[key].value, Some(deadline)), now) else v
      ensures hits == old(hits) && misses == old(misses)
    {
      ExpireIfNeeded(key, now);
      r := key in table;
      if r {
        ChangeDeadline(key, Some(deadline), now);
      }
    }

    method TtlSeconds(now: Time, key: Key) returns (r: int)
      requires Valid()
      modifies this
      ensures usedBytes <= old(usedBytes)
      ensures Valid() && r == RemainingSeconds(LiveView(old(table), now), key, now)
      ensures LiveView(table, now) == LiveView(old(table), now)
      ensures hits == old(hits) && misses == old(misses)
    {
      var ms := PttlMillis(now, key);
      r := if ms < 0 then ms else (ms + 500) / 1000;
    }

    method PttlMillis(now: Time, key: Key) returns (r: int)
      requires Valid()
      modifies this
      ensures usedBytes <= old(usedBytes)
      ensures Valid() && r == RemainingMillis(LiveView(old(table), now), key, now)
      ensures LiveView(table, now) == LiveView(old(table), now)
      ensures hits == old(hits) && misses == old(misses)
    {
      ExpireIfNeeded(key, now);
      if key !in table {
        r := -2;
      } else if table[key].expiresAt.None? {
        r := -1;
      } else {
        r := Millis(table[key].expiresAt.value - now);
      }
    }

    method IncrBy(now: Time, key: Key, delta: int) returns (r: Answer, ghost dropped: set<Key>)
      requires Valid()
      modifies this
      ensures Valid() && r == Incr(LiveView(old(table), now), key, delta, now).0
      ensures LiveView(table, now) == Incr(LiveView(old(table), now), key, delta, now).1 - dropped
      ensures key !in dropped && evictions == old(evictions) + |dropped|
      ensures hits == old(hits) && misses == old(misses)
      ensures dropped == {} <==> !r.Incremented? || Fits(old(table)[key := Entry(Print(r.n), None, true)], maxMemory)
      ensures usedBytes <= old(usedBytes) + if r.Incremented? then EntryBytes(key, Entry(Print(r.n), None, true)) else 0
      ensures r.Incremented? ==> InI64(r.n)
    {
      ghost var v := LiveView(table, now);
      var current := ReadNumber(key, now);
      dropped := {};
      Undropped(v);
      if current.None? {
        return IncrFailed(NotAnInteger), dropped;
      }
      var n := current.value + delta;
      if !InI64(n) {
        return IncrFailed(Overflow), dropped;
      }
      IncrWorks(v, key, delta, now, n);
      dropped := StoreNumber(key, n, now, old(table));
      r := Incremented(n);
    }

    /** The number a counter stands for, once an expired entry is gone. */
    method ReadNumber(key: Key, now: Time) returns (current: Option<int>)
      requires Valid()
      modifies this`table, this`usedBytes, this`evictions, this`deleted, this`expired
      ensures Valid() && evictions == old(evictions) && usedBytes <= old(usedBytes)
      ensures LiveView(table, now) == LiveView(old(table), now)
      ensures current == CounterValue(LiveView(old(table), now), key)
      ensures table == old(table) || table == old(table) - {key}
      ensures key in table ==> key in LiveView(table, now) && SlotOf(table[key]) == LiveView(table, now)[key]
    {
      ExpireIfNeeded(key, now);
      current := if key in table then ParseI64(table[key].value) else Some(0);
    }

    /** The new number of a counter, over the deadline it has; an expired entry is already gone. */
    method StoreNumber(key: Key, n: int, ghost now: Time, ghost before: Table) returns (ghost dropped: set<Key>)
      requires Valid() && (table == before || table == before - {key})
      requires key in table ==> key in LiveView(table, now) && SlotOf(table[key]) == LiveView(table, now)[key]
      modifies this`table, this`usedBytes, this`evictions, this`inserted, this`deleted, this`expired
      ensures Valid() && key !in dropped && evictions == old(evictions) + |dropped|
      ensures var v := LiveView(old(table), now);
              LiveView(table, now) == Put(v, key, Slot(Print(n), DeadlineOf(v, key)), now) - dropped
      ensures dropped == {} <==> Fits(before[key := Entry(Print(n), None, true)], maxMemory)
      ensures usedBytes <= old(usedBytes) + EntryBytes(key, Entry(Print(n), None, true))
    {
      var expiresAt := if key in table then table[key].expiresAt else None;
      var e := Entry(Print(n), expiresAt, false);
      SameFit(before, table, key, e, Entry(Print(n), None, true), maxMemory);
      dropped := InsertAccounted(key, e, now);
    }

    method DelOne(now: Time, key: Key, ghost v: View, ghost gone: set<Key>) returns (removed: nat)
      requires Valid() && LiveView(table, now) == v - gone
      modifies this`table, this`usedBytes, this`evictions, this`deleted, this`expired
      ensures usedBytes <= old(usedBytes)
      ensures Valid() && LiveView(table, now) == v - (gone + {key})
      ensures removed == if key in v && key !in gone then 1 else 0
    {
      var value := Discard(now, key);
      DropMore(v, gone, key);
      removed := if value.Some? then 1 else 0;
    }

    method Del(now: Time, keys: seq<Key>) returns (count: nat)
      requires Valid()
      modifies this
      ensures usedBytes <= old(usedBytes)
      ensures Valid() && count == CountRemoved(LiveView(old(table), now), keys)
      ensures LiveView(table, now) == LiveView(old(table), now) - KeySet(keys)
      ensures hits == old(hits) && misses == old(misses)
    {
      count := 0;
      ghost var v := LiveView(table, now);
      for i := 0 to |keys|
        invariant usedBytes <= old(usedBytes)
        invariant Valid() && hits == old(hits) && misses == old(misses)
        invariant LiveView(table, now) == v - KeySet(keys[..i]) && count == CountRemoved(v, keys[..i])
      {
        assert keys[..i + 1][..i] == keys[..i];
        var removed := DelOne(now, keys[i], v, KeySet(keys[..i]));
        count := count + removed;
      }
      assert keys[..|keys|] == keys;
    }

    method Exists(now: Time, keys: seq<Key>) returns (count: nat)
      requires Valid()
      modifies this
      ensures usedBytes <= old(usedBytes)
      ensures Valid() && count == CountPresent(LiveView(old(table), now), keys)
      ensures LiveView(table, now) == LiveView(old(table), now)
      ensures hits == old(hits) && misses == old(misses)
    {
      count := 0;
      ghost var v := LiveView(table, now);
      for i := 0 to |keys|
        invariant usedBytes <= old(usedBytes)
        invariant Valid() && hits == old(hits) && misses == old(misses)
        invariant LiveView(table, now) == v && count == CountPresent(v, keys[..i])
      {
        ExpireIfNeeded(keys[i], now);
        assert keys[..i + 1][..i] == keys[..i];
        if keys[i] in table {
          count := count + 1;
        }
      }
      assert keys[..|keys|] == keys;
    }

    method MGet(now: Time, keys: seq<Key>) returns (values: seq<Option<Value>>)
      requires Valid()
      modifies this
      ensures usedBytes <= old(usedBytes)
      ensures Valid() && values == LookupAll(LiveView(old(table), now), keys)
      ensures LiveView(table, now) == LiveView(old(table), now)
      ensures hits == old(hits) + CountPresent(LiveView(old(table), now), keys)
      ensures hits + misses == old(hits) + old(misses) + |keys|
    {
      values := [];
      ghost var v := LiveView(table, now);
      for i := 0 to |keys|
        invariant usedBytes <= old(usedBytes)
        invariant Valid() && LiveView(table, now) == v && values == LookupAll(v, keys)[..i]
        invariant hits == old(hits) + CountPresent(v, keys[..i]) && hits + misses == old(hits) + old(misses) + i
      {
        var x := Get(now, keys[i]);
        assert keys[..i + 1][..i] == keys[..i];
        values := values + [x];
      }
      assert keys[..|keys|] == keys;
    }

    method MSet(pairs: seq<(Key, Value)>, ghost now: Time) returns (ghost dropped: set<Key>)
      requires Valid()
      modifies this
      ensures Valid() && LiveView(table, now) == PutAll(LiveView(old(table), now), pairs) - dropped
      ensures if pairs == [] then dropped == {} else pairs[|pairs| - 1].0 !in dropped
      ensures hits == old(hits) && misses == old(misses)
      ensures maxMemory.None? || old(usedBytes) + PairsBytes(pairs) <= maxMemory.value ==> dropped == {}
      ensures usedBytes <= old(usedBytes) + PairsBytes(pairs)
    {
      dropped := {};
      ghost var v := LiveView(table, now);
      for i := 0 to |pairs|
        invariant Valid() && hits == old(hits) && misses == old(misses)
        invariant LiveView(table, now) == PutAll(v, pairs[..i]) - dropped
        invariant i > 0 ==> pairs[i - 1].0 !in dropped
        invariant usedBytes <= old(usedBytes) + PairsBytes(pairs[..i])
        invariant i == 0 || maxMemory.None? || old(usedBytes) + PairsBytes(pairs[..i]) <= maxMemory.value ==>
                    dropped == {}
      {
        PutAllTurn(v, pairs, i);
        dropped := MSetOne(pairs[i].0, pairs[i].1, now, PutAll(v, pairs[..i]), dropped);
      }
      assert pairs[..|pairs|] == pairs;
    }

    /** One pair, written over a view that has already lost `gone`. */
    method MSetOne(key: Key, value: Value, ghost now: Time, ghost v: View, ghost gone: set<Key>)
      returns (ghost dropped: set<Key>)
      requires Valid() && LiveView(table, now) == v - gone
      modifies this`table, this`usedBytes, this`evictions, this`inserted, this`deleted, this`expired
      ensures Valid() && LiveView(table, now) == v[key := Slot(value, None)] - dropped
      ensures key !in dropped && usedBytes <= old(usedBytes) + WriteBytes(key, value)
      ensures gone == {} && (maxMemory.None? || old(usedBytes) + WriteBytes(key, value) <= maxMemory.value) ==>
                dropped == {}
    {
      InsertAtMost(table, key, Entry(value, None, false));
      ghost var more := InsertAccounted(key, Entry(value, None, false), now);
      MSetTurn(v, gone, more, key, Slot(value, None));
      dropped := gone - {key} + more;
    }
  }

  /** Within budget, or a single entry. */
  ghost predicate Fits(m: Table, budget: Option<nat>) {
    budget.Some? ==> Total(m) <= budget.value || |m| == 1
  }

  /** With the bytes of some dropped entry back, the budget would not hold. */
  ghost predicate NeededLast(m: Table, dropped: set<Key>, used: nat, budget: Option<nat>) {
    budget.Some? && exists k :: k in dropped && k in m && used + EntryBytes(k, m[k]) > budget.value
  }

  /** `m'` is what is left of `m` without `dropped`, up to clock bits. */
  ghost predicate KeptOf(m: Table, dropped: set<Key>, m': Table) {
    dropped <= m.Keys && SameButBits(m - dropped, m')
  }

  /** From table `m` and `used0` bytes, eviction has dropped `dropped`, each of them for lack of room. */
  ghost predicate Evicting(m: Table, used0: nat, dropped: set<Key>, m': Table, used: nat, budget: nat) {
    && KeptOf(m, dropped, m') && used <= used0
    && (dropped == {} ==> used == used0 && |m'| == |m|)
    && (dropped != {} ==> NeededLast(m, dropped, used, Some(budget)) && used0 > budget && |m| > 1)
  }

  lemma AllKept(m: Table)
    ensures KeptOf(m, {}, m)
  {}

  lemma EvictingTurn(m: Table, used0: nat, dropped: set<Key>, before: Table, used: nat, budget: nat,
                     k: Key, after: Table, used': nat, protect: Key)
    requires Evicting(m, used0, dropped, before, used, budget) && used > budget
    requires k in before && k != protect && protect in before && SameButBits(before - {k}, after)
    requires used' == used - EntryBytes(k, before[k])
    ensures Evicting(m, used0, dropped + {k}, after, used', budget) && |dropped + {k}| == |dropped| + 1
  {
    EvictedOneMore(m, dropped, before, k, after, protect);
    assert used' + EntryBytes(k, m[k]) > budget;
  }

  lemma EvictedOneMore(m: Table, dropped: set<Key>, before: Table, k: Key, after: Table, protect: Key)
    requires KeptOf(m, dropped, before) && k in before && k != protect && protect in before
    requires SameButBits(before - {k}, after)
    ensures KeptOf(m, dropped + {k}, after) && k !in dropped && |dropped + {k}| == |dropped| + 1
    ensures k in m && EntryBytes(k, before[k]) == EntryBytes(k, m[k]) && |m| > 1
  {
    assert before[k] == (m - dropped)[k].(clockBit := before[k].clockBit);
    TwoKeys(m, k, protect);
  }

  lemma TwoKeys(m: Table, a: Key, b: Key)
    requires a in m && b in m && a != b
    ensures |m| > 1
  {
    RemoveOne(m, a);
    assert b in m - {a};
  }

  /** Sizes depend on values only. */
  lemma SameSize(m: Table, k: Key, e: Entry, e': Entry)
    requires e.value == e'.value
    ensures Total(m[k := e]) == Total(m[k := e']) && |m[k := e]| == |m[k := e']|
  {
    TotalInsert(m, k, e);
    TotalInsert(m, k, e');
    CardInsert(m, k, e);
    CardInsert(m, k, e');
  }

  lemma IncrWorks(v: View, k: Key, delta: int, now: Time, n: int)
    requires CounterValue(v, k) == Some(n - delta) && InI64(n)
    ensures Incr(v, k, delta, now) == (Incremented(n), Put(v, k, Slot(Print(n), DeadlineOf(v, k)), now))
  {}

  lemma Undropped(v: View)
    ensures v - {} == v
  {}

  /** Whether a write fits does not depend on whether the key had expired, nor on its deadline. */
  lemma SameFit(m: Table, m': Table, k: Key, e: Entry, e': Entry, budget: Option<nat>)
    requires (m' == m || m' == m - {k}) && e.value == e'.value
    ensures Fits(m'[k := e], budget) == Fits(m[k := e'], budget) && EntryBytes(k, e) == EntryBytes(k, e')
  {
    assert m'[k := e] == m[k := e];
    SameSize(m, k, e, e');
  }

  lemma InsertAtMost(m: Table, k: Key, e: Entry)
    ensures Total(m[k := e]) <= Total(m) + EntryBytes(k, e)
  {
    TotalInsert(m, k, e);
    if k in m {
      TotalRemove(m, k);
    } else {
      assert m - {k} == m;
    }
  }

  /** The keys of `spared` had their bits set and now have them clear; nothing else changed. */
  ghost predicate SecondChances(m: Table, m': Table, spared: set<Key>) {
    m' == Cleared(m, spared) && spared <= m.Keys && forall k :: k in spared ==> m[k].clockBit
  }

  function Cleared(m: Table, spared: set<Key>): Table {
    map k | k in m :: if k in spared then m[k].(clockBit := false) else m[k]
  }

  lemma NoChances(m: Table)
    ensures SecondChances(m, m, {})
  {}

  lemma OneMoreChance(m: Table, m': Table, spared: set<Key>, k: Key)
    requires SecondChances(m, m', spared) && k in m && k !in spared && m'[k].clockBit
    ensures SecondChances(m, m'[k := m'[k].(clockBit := false)], spared + {k})
  {}

  /** The expired ones among `sample`. */
  function Dead(m: Table, sample: set<Key>, now: Time): set<Key> {
    set k | k in sample && k in m && !IsLive(m[k], now)
  }

  lemma NothingDead(m: Table, now: Time)
    ensures m - Dead(m, {}, now) == m
  {}

  lemma OneMoreDead(m: Table, sample: set<Key>, k: Key, now: Time)
    requires k in m && k !in sample
    ensures var rest := m - Dead(m, sample, now);
            && k in rest && rest[k] == m[k]
            && m - Dead(m, sample + {k}, now) == if IsLive(m[k], now) then rest else rest - {k}
  {
    assert Dead(m, sample + {k}, now) == Dead(m, sample, now) + if IsLive(m[k], now) then {} else {k};
  }

  lemma DeadIsInvisible(m: Table, sample: set<Key>, now: Time, later: Time)
    requires now <= later
    ensures LiveView(m - Dead(m, sample, now), later) == LiveView(m, later)
  {}

  lemma SampleOne(all: set<Key>, left: set<Key>, k: Key)
    requires left <= all && k in left
    ensures all - (left - {k}) == all - left + {k} && |all - left + {k}| == |all - left| + 1
  {
    assert all - (left - {k}) == all - left + {k};
  }

  lemma SampleSize(m: Table, sample: set<Key>)
    requires sample <= m.Keys
    ensures |sample| <= |m| && (sample == m.Keys ==> |sample| == |m|)
  {
    assert m.Keys == sample + (m.Keys - sample);
    assert |m| == |m.Keys|;
  }

  lemma AtMostOne(s: set<Key>, k: Key)
    requires s <= {k}
    ensures |s| <= 1
  {
    assert s == {} || s == {k};
  }

  lemma PutAllTurn(v: View, pairs: seq<(Key, Value)>, i: nat)
    requires i < |pairs|
    ensures PutAll(v, pairs[..i + 1]) == PutAll(v, pairs[..i])[pairs[i].0 := Slot(pairs[i].1, None)]
    ensures PairsBytes(pairs[..i + 1]) == PairsBytes(pairs[..i]) + WriteBytes(pairs[i].0, pairs[i].1)
  {
    assert pairs[..i + 1][..i] == pairs[..i];
  }

  lemma MSetTurn(v: View, dropped: set<Key>, more: set<Key>, k: Key, s: Slot)
    requires k !in more
    ensures (v - dropped)[k := s] - more == v[k := s] - (dropped - {k} + more)
  {}

  lemma DropMore(v: View, dropped: set<Key>, k: Key)
    ensures v - dropped - {k} == v - (dropped + {k})
  {}

  lemma CardInsert(m: Table, k: Key, e: Entry)
    ensures |m[k := e]| == |m| + if k in m then 0 else 1
  {
    assert m[k := e].Keys == m.Keys + {k};
    assert |m[k := e].Keys| == |m.Keys + {k}|;
    assert k in m ==> m.Keys + {k} == m.Keys;
  }

  lemma CardSame(m: Table, m': Table)
    requires m.Keys == m'.Keys
    ensures |m| == |m'|
  {
    assert |m| == |m.Keys| && |m'| == |m'.Keys|;
  }

  lemma OnlyOneKey(m: Table, k: Key)
    requires k in m && m.Keys <= {k}
    ensures |m| == 1
  {
    assert m.Keys == {k};
    assert |m| == |m.Keys|;
  }
}

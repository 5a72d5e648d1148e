/** How the server reads SET and DEL, and what it does to the store on receiving them. */
module Dispatch {
  import opened Bytes
  import opened Codec
  import opened Decimal
  import opened SetOptions
  import opened StoreSpec
  import S = Store
  import StoreRuns
  import StoreLaws

  /** `upper`: what a token is after case folding. */
  type Fold = seq<byte> -> string

  /** The option words of SET. */
  function WordOf(s: string): Word {
    if s == "NX" then Nx
    else if s == "XX" then Xx
    else if s == "GET" then GetWord
    else if s == "KEEPTTL" then KeepTtlWord
    else if s == "EX" then Ex
    else if s == "PX" then Px
    else if s == "EXAT" then ExAt
    else if s == "PXAT" then PxAt
    else Unknown
  }

  /** Each word is read for what it says. */
  lemma WordsMean()
    ensures WordOf("NX") == Nx && WordOf("XX") == Xx && WordOf("GET") == GetWord && WordOf("KEEPTTL") == KeepTtlWord
    ensures WordOf("EX") == Ex && WordOf("PX") == Px && WordOf("EXAT") == ExAt && WordOf("PXAT") == PxAt
  {
    assert "XX"[0] != "NX"[0];
    assert |"GET"| == 3 && |"KEEPTTL"| == 7 && |"EXAT"| == 4 && |"PXAT"| == 4;
    assert "EX"[0] != "NX"[0] && "EX"[0] != "XX"[0];
    assert "PX"[0] != "NX"[0] && "PX"[0] != "XX"[0] && "PX"[0] != "EX"[0];
    assert "PXAT"[0] != "EXAT"[0];
  }

  function Words(fold: Fold): Upper { token => WordOf(fold(token)) }

  /** The options of a SET as the option parser returns them. */
  function AskedFor(op: Op): Options
    requires op.Set?
  {
    Options(if op.expiry.NoExpiry? then None else Some(op.expiry), op.condition, op.wantOld)
  }

  /** SET takes its key, its value and its options in that order; DEL takes keys. */
  ghost predicate ReadsAs(args: Args, clock: Clock, fold: Fold, op: Op) {
    match op
    case Set(key, value, _, _, _) =>
      && |args| >= 3 && fold(args[0]) == "SET" && args[1] == key && args[2] == value
      && Acceptable(args[3..], Words(fold))
      && Means(clock, multiset(Groups(args[3..], Words(fold)).value), AskedFor(op))
    case Del(keys) => |args| >= 2 && fold(args[0]) == "DEL" && args[1..] == keys
    case _ => false
  }

  /** A command is read in one way at most. */
  lemma ReadsAsOne(args: Args, clock: Clock, fold: Fold, op: Op, op': Op)
    requires ReadsAs(args, clock, fold, op) && ReadsAs(args, clock, fold, op')
    ensures op == op'
  {
    if op.Set? && op'.Set? {
      MeaningIsUnique(clock, multiset(Groups(args[3..], Words(fold)).value), AskedFor(op), AskedFor(op'));
      assert AskedFor(op).expiry == AskedFor(op').expiry;
    }
  }

  /** What the client is told. */
  function ReplyTo(op: Op, answer: Answer): Reply {
    match answer
    case SetOutcome(applied, oldValue) =>
      if op.Set? && op.wantOld then (if oldValue.Some? then Bulk(oldValue.value) else NullBulk)
      else if applied then Simple(Ascii("OK")) else NullBulk
    case Number(n) => Integer(n)
    case _ => NullBulk
  }

  /** SET answers the value it found if asked to, and otherwise whether it was done. */
  lemma SetAnswers(v: View, clock: Clock, op: Op)
    requires op.Set?
    ensures var reply := ReplyTo(op, Apply(v, clock.mono, op).0);
            && (op.wantOld && op.key in v ==> reply == Bulk(v[op.key].value))
            && (op.wantOld && op.key !in v ==> reply == NullBulk)
            && (!op.wantOld && op.condition == Always ==> reply == Simple(Ascii("OK")))
            && (!op.wantOld && op.condition == IfExists ==>
                  reply == if op.key in v then Simple(Ascii("OK")) else NullBulk)
            && (!op.wantOld && op.condition == IfNotExists ==>
                  reply == if op.key in v then NullBulk else Simple(Ascii("OK")))
  {}

  /** DEL answers how many keys are gone that were there. */
  lemma DelAnswers(v: View, clock: Clock, op: Op, r: (Answer, View))
    requires op.Del? && r == Apply(v, clock.mono, op)
    ensures ReplyTo(op, r.0) == Integer(|v.Keys| - |r.1.Keys|)
  {
    StoreLaws.DelLaw(v, clock.mono, op.keys, r);
  }

  /** Nothing else can be meant by these arguments. */
  ghost predicate Unreadable(args: Args, clock: Clock, fold: Fold) {
    forall op :: !ReadsAs(args, clock, fold, op)
  }

  /** The arguments of SET: too few, or options that are not legal, and the command is refused. */
  method ReadSet(args: Args, clock: Clock, fold: Fold) returns (read: Option<Op>)
    requires args != [] && fold(args[0]) == "SET"
    ensures read.Some? ==> read.value.Set? && ReadsAs(args, clock, fold, read.value)
    ensures read.None? ==> Unreadable(args, clock, fold)
  {
    if |args| < 3 {
      return None;
    }
    var parsed := ParseSetOptions(clock, args[3..], Words(fold));
    if parsed.Rejected? {
      return None;
    }
    var o := parsed.options;
    var op := Set(args[1], args[2], if o.expiry.Some? then o.expiry.value else NoExpiry, o.condition, o.wantGet);
    AskedForIs(clock, args[3..], fold, o, op);
    read := Some(op);
  }

  lemma AskedForIs(clock: Clock, opts: Args, fold: Fold, o: Options, op: Op)
    requires Groups(opts, Words(fold)).Some? && Means(clock, multiset(Groups(opts, Words(fold)).value), o)
    requires op.Set? && op.expiry == (if o.expiry.Some? then o.expiry.value else NoExpiry)
    requires op.condition == o.condition && op.wantOld == o.wantGet
    ensures AskedFor(op) == o
  {
    if o.expiry.Some? {
      var g :| g in multiset(Groups(opts, Words(fold)).value) && Sets(clock, g, o.expiry.value);
      assert !o.expiry.value.NoExpiry?;
    }
  }

  method ReadDel(args: Args, clock: Clock, fold: Fold) returns (read: Option<Op>)
    requires args != [] && fold(args[0]) == "DEL"
    ensures read.Some? ==> read.value.Del? && ReadsAs(args, clock, fold, read.value)
    ensures read.None? ==> Unreadable(args, clock, fold)
  {
    read := if |args| < 2 then None else Some(Del(args[1..]));
  }

  /** What a write that was read does to the store, and what is answered. */
  method PerformSet(store: S.Store, clock: Clock, op: Op) returns (reply: Reply, ghost dropped: set<Key>)
    requires store.Valid() && op.Set?
    modifies store
    ensures store.Valid() && (store.maxMemory.None? ==> dropped == {})
    ensures Performed(S.LiveView(old(store.table), clock.mono), clock, op, reply,
                      S.LiveView(store.table, clock.mono), dropped)
  {
    var applied, oldValue;
    applied, oldValue, dropped := store.Set(clock.mono, op.key, op.value, op.expiry, op.condition, op.wantOld);
    if op.wantOld {
      reply := if oldValue.Some? then Bulk(oldValue.value) else NullBulk;
    } else {
      reply := if applied then Simple(Ascii("OK")) else NullBulk;
    }
  }

  method PerformDel(store: S.Store, clock: Clock, op: Op) returns (reply: Reply, ghost dropped: set<Key>)
    requires store.Valid() && op.Del?
    modifies store
    ensures store.Valid() && dropped == {}
    ensures Performed(S.LiveView(old(store.table), clock.mono), clock, op, reply,
                      S.LiveView(store.table, clock.mono), dropped)
  {
    var count := store.Del(clock.mono, op.keys);
    StoreRuns.NoneDropped(S.LiveView(store.table, clock.mono));
    reply, dropped := Integer(count), {};
  }

  ghost predicate Performed(v: View, clock: Clock, op: Op, reply: Reply, v': View, dropped: set<Key>) {
    reply == ReplyTo(op, Apply(v, clock.mono, op).0) && v' == Apply(v, clock.mono, op).1 - dropped
  }

  /** The arms of the dispatcher for SET and DEL: performed if it can be read, otherwise an error. */
  method DispatchWrite(store: S.Store, args: Args, clock: Clock, fold: Fold)
    returns (reply: Reply, read: Option<Op>, ghost dropped: set<Key>)
    requires store.Valid() && args != [] && (fold(args[0]) == "SET" || fold(args[0]) == "DEL")
    modifies store
    ensures store.Valid() && (store.maxMemory.None? ==> dropped == {})
    ensures if read.Some? then ReadsAs(args, clock, fold, read.value) else Unreadable(args, clock, fold)
    ensures read.None? ==> reply.Error? && store.table == old(store.table)
    ensures read.Some? ==>
              Performed(S.LiveView(old(store.table), clock.mono), clock, read.value, reply,
                        S.LiveView(store.table, clock.mono), dropped)
  {
    dropped := {};
    if fold(args[0]) == "SET" {
      read := ReadSet(args, clock, fold);
    } else {
      read := ReadDel(args, clock, fold);
    }
    if read.None? {
      reply := Error(Ascii("ERR syntax error"));
    } else if read.value.Set? {
      reply, dropped := PerformSet(store, clock, read.value);
    } else {
      reply, dropped := PerformDel(store, clock, read.value);
    }
  }
}

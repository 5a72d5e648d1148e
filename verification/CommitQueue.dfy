/** The post-commit queue: cache writes held back until the transaction's fate is known. */
module CommitQueue {
  import opened Bytes
  import opened Codec
  import opened CodecProofs
  import opened Decimal
  import Client
  import Dispatch
  import SetOptions
  import StoreSpec
  import StoreLaws

  datatype Op = Set(key: seq<byte>, value: seq<byte>, ttl: Option<int>) | Del(key: seq<byte>)

  datatype Item = Item(subxid: nat, op: Op)

  const TOP_SUBXID: nat := 1

  /**
   * What Postgres tells a backend. `RollbackTo(level)` aborts the open subtransaction at that
   * depth and everything inside it; a commit closes open savepoints first.
   */
  datatype Event =
    | Enqueue(op: Op)
    | Savepoint
    | Release
    | RollbackTo(level: nat)
    | Commit
    | Abort

  /** The flat queue of the backend, the hook flag, and Postgres's own stack of open subxids. */
  datatype Backend = Backend(queue: seq<Item>, armed: bool, open: seq<nat>, lastId: nat, applied: seq<Op>)

  function Ops(items: seq<Item>): seq<Op> {
    seq(|items|, i requires 0 <= i < |items| => items[i].op)
  }

  /** `retain(|item| item.subxid < my)`. */
  function Older(items: seq<Item>, my: nat): seq<Item> {
    if items == [] then []
    else
      var rest := Older(items[..|items| - 1], my);
      if items[|items| - 1].subxid < my then rest + [items[|items| - 1]] else rest
  }

  /** The CommitSub loop: items of `my` now belong to `parent`. */
  function Reparent(items: seq<Item>, my: nat, parent: nat): seq<Item> {
    seq(|items|, i requires 0 <= i < |items| => if items[i].subxid == my then items[i].(subxid := parent) else items[i])
  }

  /** Events Postgres can deliver in a given state. */
  predicate Enabled(b: Backend, e: Event) {
    match e
    case Release => |b.open| > 1
    case RollbackTo(level) => 0 < level < |b.open|
    case Commit => |b.open| == 1
    case _ => |b.open| > 0
  }

  /** Between transactions: one top-level subtransaction, ids restarting. */
  function Begin(b: Backend): Backend { b.(open := [TOP_SUBXID], lastId := TOP_SUBXID) }

  /** The callbacks, guarded by whether this transaction armed them. */
  function Step(b: Backend, e: Event): Backend
    requires Enabled(b, e)
  {
    var top := b.open[|b.open| - 1];
    match e
    case Enqueue(op) => b.(queue := b.queue + [Item(top, op)], armed := true)
    case Savepoint => b.(open := b.open + [b.lastId + 1], lastId := b.lastId + 1)
    case Release =>
      var parent := b.open[|b.open| - 2];
      b.(queue := if b.armed then Reparent(b.queue, top, parent) else b.queue, open := b.open[..|b.open| - 1])
    case RollbackTo(level) =>
      b.(queue := if b.armed then Older(b.queue, b.open[level]) else b.queue, open := b.open[..level])
    case Commit =>
      if b.armed then Begin(b.(queue := [], armed := false, applied := b.applied + Ops(b.queue)))
      else Begin(b)
    case Abort => Begin(if b.armed then b.(queue := [], armed := false) else b)
  }

  // ---------------------------------------------------- the stack it refines

  /** One list of operations per open subtransaction. */
  datatype Nested = Nested(levels: seq<seq<Op>>, applied: seq<Op>)

  function SpecStep(n: Nested, e: Event): Nested
    requires n.levels != []
    requires e.Release? ==> |n.levels| > 1
    requires e.RollbackTo? ==> 0 < e.level < |n.levels|
  {
    var last := |n.levels| - 1;
    match e
    case Enqueue(op) => n.(levels := n.levels[last := n.levels[last] + [op]])
    case Savepoint => n.(levels := n.levels + [[]])
    case Release => n.(levels := n.levels[..last - 1] + [n.levels[last - 1] + n.levels[last]])
    case RollbackTo(level) => n.(levels := n.levels[..level])
    case Commit => Nested([[]], n.applied + n.levels[0])
    case Abort => Nested([[]], n.applied)
  }

  function Tag(ops: seq<Op>, id: nat): seq<Item> {
    seq(|ops|, i requires 0 <= i < |ops| => Item(id, ops[i]))
  }

  /** The stack laid flat, outermost level first, each operation tagged with its level's id. */
  ghost function Flat(open: seq<nat>, levels: seq<seq<Op>>): seq<Item>
    requires |open| == |levels|
  {
    if levels == [] then []
    else
      var last := |levels| - 1;
      Flat(open[..last], levels[..last]) + Tag(levels[last], open[last])
  }

  ghost predicate Increasing(open: seq<nat>) {
    forall i, j :: 0 <= i < j < |open| ==> open[i] < open[j]
  }

  /** The flat queue represents the stack. */
  ghost predicate Represents(b: Backend, n: Nested) {
    && 0 < |b.open| == |n.levels| && Increasing(b.open) && b.open[|b.open| - 1] <= b.lastId
    && b.queue == Flat(b.open, n.levels)
    && (!b.armed ==> b.queue == [])
    && b.applied == n.applied
  }

  ghost predicate AllBelow(items: seq<Item>, id: nat) {
    forall i :: 0 <= i < |items| ==> items[i].subxid < id
  }

  lemma {:induction false} FlatBelow(open: seq<nat>, levels: seq<seq<Op>>, id: nat)
    requires |open| == |levels| && forall i :: 0 <= i < |open| ==> open[i] < id
    ensures AllBelow(Flat(open, levels), id)
  {
    if levels != [] {
      FlatBelow(open[..|levels| - 1], levels[..|levels| - 1], id);
    }
  }

  lemma {:induction false} OlderKeeps(items: seq<Item>, id: nat)
    requires AllBelow(items, id)
    ensures Older(items, id) == items
  {
    if items != [] {
      var init := items[..|items| - 1];
      OlderKeeps(init, id);
      assert init + [items[|items| - 1]] == items;
    }
  }

  lemma {:induction false} OlderDropsTag(items: seq<Item>, ops: seq<Op>, tag: nat, id: nat)
    requires id <= tag
    ensures Older(items + Tag(ops, tag), id) == Older(items, id)
  {
    if ops == [] {
      assert items + Tag(ops, tag) == items;
    } else {
      var init := ops[..|ops| - 1];
      var all := items + Tag(ops, tag);
      assert all[..|all| - 1] == items + Tag(init, tag);
      assert all[|all| - 1].subxid == tag;
      OlderDropsTag(items, init, tag, id);
    }
  }

  /** Filtering by id cuts the stack at a level. */
  lemma {:induction false} OlderCuts(open: seq<nat>, levels: seq<seq<Op>>, level: nat)
    requires |open| == |levels| && Increasing(open) && level < |open|
    ensures Older(Flat(open, levels), open[level]) == Flat(open[..level], levels[..level])
  {
    var last := |levels| - 1;
    var o, l := open[..last], levels[..last];
    OlderDropsTag(Flat(o, l), levels[last], open[last], open[level]);
    if level == last {
      FlatBelow(o, l, open[level]);
      OlderKeeps(Flat(o, l), open[level]);
    } else {
      OlderCuts(o, l, level);
      assert o[..level] == open[..level] && l[..level] == levels[..level];
    }
  }

  /** Re-tagging the innermost level merges it into its parent. */
  lemma ReparentMerges(open: seq<nat>, levels: seq<seq<Op>>)
    requires |open| == |levels| > 1 && Increasing(open)
    ensures var last := |levels| - 1;
            Reparent(Flat(open, levels), open[last], open[last - 1])
            == Flat(open[..last], levels[..last - 1] + [levels[last - 1] + levels[last]])
  {
    var last := |levels| - 1;
    var my, parent := open[last], open[last - 1];
    var o, l := open[..last], levels[..last];
    FlatBelow(o, l, my);
    RetagTop(Flat(o, l), levels[last], my, parent);
    TagTwice(Flat(o[..last - 1], l[..last - 1]), levels[last - 1], levels[last], parent);
    var merged := levels[..last - 1] + [levels[last - 1] + levels[last]];
    assert merged[..last - 1] == l[..last - 1];
  }

  lemma RetagTop(under: seq<Item>, ops: seq<Op>, my: nat, parent: nat)
    requires AllBelow(under, my)
    ensures Reparent(under + Tag(ops, my), my, parent) == under + Tag(ops, parent)
  {}

  lemma TagTwice(under: seq<Item>, a: seq<Op>, b: seq<Op>, id: nat)
    ensures under + Tag(a, id) + Tag(b, id) == under + Tag(a + b, id)
  {}

  lemma EnqueueAppends(open: seq<nat>, levels: seq<seq<Op>>, op: Op)
    requires 0 < |open| == |levels|
    ensures var last := |levels| - 1;
            Flat(open, levels) + [Item(open[last], op)] == Flat(open, levels[last := levels[last] + [op]])
  {
    var last := |levels| - 1;
    var changed := levels[last := levels[last] + [op]];
    assert changed[..last] == levels[..last];
    assert Tag(changed[last], open[last]) == Tag(levels[last], open[last]) + [Item(open[last], op)];
  }

  /** Every callback keeps the queue a faithful image of the stack. */
  lemma StepRefines(b: Backend, n: Nested, e: Event)
    requires Represents(b, n) && Enabled(b, e)
    ensures Represents(Step(b, e), SpecStep(n, e))
  {
    match e {
      case Enqueue(op) => EnqueueAppends(b.open, n.levels, op);
      case Savepoint => SavepointRefines(b, n);
      case Release => ReleaseRefines(b, n);
      case RollbackTo(level) => OlderCuts(b.open, n.levels, level);
      case Commit => CommitRefines(b, n);
      case Abort => EmptyTop();
    }
  }

  lemma SavepointRefines(b: Backend, n: Nested)
    requires Represents(b, n)
    ensures Represents(Step(b, Savepoint), SpecStep(n, Savepoint))
  {
    var k := |b.open|;
    var open, levels := b.open + [b.lastId + 1], n.levels + [[]];
    assert open[..k] == b.open && levels[..k] == n.levels;
    assert Flat(open, levels) == Flat(b.open, n.levels) + Tag([], b.lastId + 1);
  }

  lemma ReleaseRefines(b: Backend, n: Nested)
    requires Represents(b, n) && |b.open| > 1
    ensures Represents(Step(b, Release), SpecStep(n, Release))
  {
    var last := |b.open| - 1;
    ReparentMerges(b.open, n.levels);
    assert b.queue == [] ==> Reparent(b.queue, b.open[last], b.open[last - 1]) == [];
  }

  lemma CommitRefines(b: Backend, n: Nested)
    requires Represents(b, n) && |b.open| == 1
    ensures Represents(Step(b, Commit), SpecStep(n, Commit))
  {
    OpsOfFlat(b.open, n.levels);
    assert !b.armed ==> b.applied + [] == b.applied;
    EmptyTop();
  }

  lemma FlatOfOneEmptyLevel(open: seq<nat>, levels: seq<seq<Op>>)
    requires |open| == |levels| == 1 && levels[0] == []
    ensures Flat(open, levels) == []
  {
    assert levels[..0] == [] && open[..0] == [];
  }

  lemma EmptyTop()
    ensures Flat([TOP_SUBXID], [[]]) == []
  {
    FlatOfOneEmptyLevel([TOP_SUBXID], [[]]);
  }

  lemma OpsOfFlat(open: seq<nat>, levels: seq<seq<Op>>)
    requires |open| == |levels| == 1
    ensures Ops(Flat(open, levels)) == levels[0]
  {
    assert levels[..0] == [] && open[..0] == [];
    assert Flat(open, levels) == [] + Tag(levels[0], open[0]);
  }

  /** In every reachable state the queue's ids never decrease, and unarmed means empty. */
  lemma {:induction false} FlatSorted(open: seq<nat>, levels: seq<seq<Op>>)
    requires |open| == |levels| && Increasing(open)
    ensures forall i, j :: 0 <= i < j < |Flat(open, levels)| ==>
              Flat(open, levels)[i].subxid <= Flat(open, levels)[j].subxid
  {
    if levels != [] {
      var last := |levels| - 1;
      FlatSorted(open[..last], levels[..last]);
      FlatBelow(open[..last], levels[..last], open[last]);
    }
  }

  // --------------------------------------------------------------- histories

  function Run(b: Backend, events: seq<Event>): Option<Backend>
    decreases events
  {
    if events == [] then Some(b)
    else if !Enabled(b, events[0]) then None
    else Run(Step(b, events[0]), events[1..])
  }

  ghost function SpecRun(n: Nested, events: seq<Event>): Option<Nested>
    decreases events
  {
    if events == [] then Some(n)
    else if !SpecEnabled(n, events[0]) then None
    else SpecRun(SpecStep(n, events[0]), events[1..])
  }

  ghost predicate SpecEnabled(n: Nested, e: Event) {
    match e
    case Release => |n.levels| > 1
    case RollbackTo(level) => 0 < level < |n.levels|
    case Commit => |n.levels| == 1
    case _ => |n.levels| > 0
  }

  /** Over any event sequence the two machines stay in step. */
  lemma {:induction false} RunRefines(b: Backend, n: Nested, events: seq<Event>)
    requires Represents(b, n)
    ensures Run(b, events).Some? <==> SpecRun(n, events).Some?
    ensures Run(b, events).Some? ==> Represents(Run(b, events).value, SpecRun(n, events).value)
    decreases events
  {
    if events != [] && Enabled(b, events[0]) {
      StepRefines(b, n, events[0]);
      RunRefines(Step(b, events[0]), SpecStep(n, events[0]), events[1..]);
    }
  }

  /** A transaction as the tree its savepoints make. */
  datatype Node = Do(op: Op) | Sub(commits: bool, body: seq<Node>)

  datatype Transaction = Transaction(body: seq<Node>, commits: bool)

  /** Operations all of whose enclosing subtransactions commit, in program order. */
  function Survivors(body: seq<Node>): seq<Op>
    decreases body, 0
  {
    if body == [] then [] else NodeSurvivors(body[0]) + Survivors(body[1..])
  }

  function NodeSurvivors(node: Node): seq<Op>
    decreases node, 1
  {
    match node
    case Do(op) => [op]
    case Sub(commits, body) => if commits then Survivors(body) else []
  }

  /** The events a tree produces at a given nesting depth. */
  function Script(body: seq<Node>, depth: nat): seq<Event>
    decreases body, 0
  {
    if body == [] then [] else NodeScript(body[0], depth) + Script(body[1..], depth)
  }

  function NodeScript(node: Node, depth: nat): seq<Event>
    decreases node, 1
  {
    match node
    case Do(op) => [Enqueue(op)]
    case Sub(commits, body) =>
      [Savepoint] + Script(body, depth + 1) + [if commits then Release else RollbackTo(depth)]
  }

  function TransactionScript(t: Transaction): seq<Event> {
    Script(t.body, 1) + [if t.commits then Commit else Abort]
  }

  function TransactionEffect(t: Transaction): seq<Op> {
    if t.commits then Survivors(t.body) else []
  }

  function HistoryScript(history: seq<Transaction>): seq<Event> {
    if history == [] then [] else TransactionScript(history[0]) + HistoryScript(history[1..])
  }

  /** What a history of nested transactions should do to the cache. */
  function Effect(history: seq<Transaction>): seq<Op> {
    if history == [] then [] else TransactionEffect(history[0]) + Effect(history[1..])
  }

  /** An operation as it was issued, with the fates of everything around it, outermost first. */
  datatype Issued = Issued(op: Op, around: seq<bool>)

  /** The operations of a body in the order in which they were issued. */
  ghost function IssuedIn(body: seq<Node>, around: seq<bool>): seq<Issued>
    decreases body, 0
  {
    if body == [] then [] else IssuedBy(body[0], around) + IssuedIn(body[1..], around)
  }

  ghost function IssuedBy(node: Node, around: seq<bool>): seq<Issued>
    decreases node, 1
  {
    match node
    case Do(op) => [Issued(op, around)]
    case Sub(commits, body) => IssuedIn(body, around + [commits])
  }

  ghost predicate AllCommit(around: seq<bool>) { forall i :: 0 <= i < |around| ==> around[i] }

  /** Those around which everything commits. */
  ghost function Committed(issued: seq<Issued>): seq<Op> {
    if issued == [] then []
    else (if AllCommit(issued[0].around) then [issued[0].op] else []) + Committed(issued[1..])
  }

  lemma {:induction false} CommittedAppend(a: seq<Issued>, b: seq<Issued>)
    ensures Committed(a + b) == Committed(a) + Committed(b)
    decreases a
  {
    if a == [] {
      assert a + b == b;
    } else {
      assert (a + b)[1..] == a[1..] + b;
      CommittedAppend(a[1..], b);
    }
  }

  lemma CommittedOne(op: Op, around: seq<bool>)
    ensures Committed([Issued(op, around)]) == if AllCommit(around) then [op] else []
  {
    assert [Issued(op, around)][1..] == [];
  }

  lemma {:induction false} SurvivorsCommit(body: seq<Node>, around: seq<bool>)
    ensures Committed(IssuedIn(body, around)) == if AllCommit(around) then Survivors(body) else []
    decreases body, 0
  {
    if body != [] {
      NodeSurvivorsCommit(body[0], around);
      SurvivorsCommit(body[1..], around);
      CommittedAppend(IssuedBy(body[0], around), IssuedIn(body[1..], around));
    }
  }

  lemma {:induction false} NodeSurvivorsCommit(node: Node, around: seq<bool>)
    ensures Committed(IssuedBy(node, around)) == if AllCommit(around) then NodeSurvivors(node) else []
    decreases node, 1
  {
    match node {
      case Do(op) => CommittedOne(op, around);
      case Sub(commits, body) =>
        SurvivorsCommit(body, around + [commits]);
        assert AllCommit(around + [commits]) <==> AllCommit(around) && commits by {
          assert (around + [commits])[|around|] == commits;
          assert forall i :: 0 <= i < |around| ==> (around + [commits])[i] == around[i];
        }
    }
  }

  ghost function IssuedDuring(history: seq<Transaction>): seq<Issued> {
    if history == [] then [] else IssuedIn(history[0].body, [history[0].commits]) + IssuedDuring(history[1..])
  }

  /**
   * Over any history, what reaches the cache is what was issued, in that order, less every operation inside
   * something that did not commit: a subtransaction at any depth, or the transaction itself.
   */
  lemma {:induction false} EffectIsWhatCommits(history: seq<Transaction>)
    ensures Effect(history) == Committed(IssuedDuring(history))
  {
    if history != [] {
      var t := history[0];
      SurvivorsCommit(t.body, [t.commits]);
      assert AllCommit([t.commits]) <==> t.commits by { assert [t.commits][0] == t.commits; }
      CommittedAppend(IssuedIn(t.body, [t.commits]), IssuedDuring(history[1..]));
      EffectIsWhatCommits(history[1..]);
    }
  }

  lemma {:induction false} SpecRunAppend(n: Nested, a: seq<Event>, b: seq<Event>)
    requires SpecRun(n, a).Some?
    ensures SpecRun(n, a + b) == SpecRun(SpecRun(n, a).value, b)
    decreases a
  {
    if a == [] {
      assert a + b == b;
    } else {
      assert (a + b)[0] == a[0] && (a + b)[1..] == a[1..] + b;
      SpecRunAppend(SpecStep(n, a[0]), a[1..], b);
    }
  }

  lemma SpecRunOne(n: Nested, e: Event)
    requires SpecEnabled(n, e)
    ensures SpecRun(n, [e]) == Some(SpecStep(n, e))
  {
    assert [e][1..] == [];
    assert SpecRun(SpecStep(n, e), []) == Some(SpecStep(n, e));
  }

  /** The stack with more operations on its innermost level. */
  ghost function Grown(n: Nested, ops: seq<Op>): Nested
    requires n.levels != []
  {
    n.(levels := n.levels[|n.levels| - 1 := n.levels[|n.levels| - 1] + ops])
  }

  lemma {:induction false} BodyRuns(n: Nested, body: seq<Node>, depth: nat)
    requires |n.levels| == depth > 0
    ensures SpecRun(n, Script(body, depth)) == Some(Grown(n, Survivors(body)))
    decreases body, 0
  {
    if body == [] {
      GrownByNothing(n);
    } else {
      NodeRuns(n, body[0], depth);
      var mid := Grown(n, NodeSurvivors(body[0]));
      SpecRunAppend(n, NodeScript(body[0], depth), Script(body[1..], depth));
      BodyRuns(mid, body[1..], depth);
      GrownTwice(n, NodeSurvivors(body[0]), Survivors(body[1..]));
    }
  }

  lemma GrownByNothing(n: Nested)
    requires n.levels != []
    ensures Grown(n, []) == n
  {
    var last := |n.levels| - 1;
    assert n.levels[last] + [] == n.levels[last];
    assert n.levels[last := n.levels[last]] == n.levels;
  }

  lemma GrownTwice(n: Nested, a: seq<Op>, b: seq<Op>)
    requires n.levels != []
    ensures Grown(Grown(n, a), b) == Grown(n, a + b)
  {
    var last := |n.levels| - 1;
    assert n.levels[last] + a + b == n.levels[last] + (a + b);
  }

  lemma {:induction false} NodeRuns(n: Nested, node: Node, depth: nat)
    requires |n.levels| == depth > 0
    ensures SpecRun(n, NodeScript(node, depth)) == Some(Grown(n, NodeSurvivors(node)))
    decreases node, 1
  {
    match node {
      case Do(op) => SpecRunOne(n, Enqueue(op));
      case Sub(commits, body) =>
        var inside, close := SpecStep(n, Savepoint), if commits then Release else RollbackTo(depth);
        SpecRunOne(n, Savepoint);
        BodyRuns(inside, body, depth + 1);
        var full := Grown(inside, Survivors(body));
        SpecRunAppend(n, [Savepoint], Script(body, depth + 1));
        SpecRunOne(full, close);
        SpecRunAppend(n, [Savepoint] + Script(body, depth + 1), [close]);
        CloseLevel(n, Survivors(body), commits);
    }
  }

  /** Closing a savepoint keeps or drops what it collected. */
  lemma CloseLevel(n: Nested, ops: seq<Op>, commits: bool)
    requires n.levels != []
    ensures var full := Grown(SpecStep(n, Savepoint), ops);
            SpecStep(full, if commits then Release else RollbackTo(|n.levels|)) == Grown(n, if commits then ops else [])
  {
    var full := Grown(SpecStep(n, Savepoint), ops);
    assert [] + ops == ops;
    assert full.levels == n.levels + [ops];
    GrownByNothing(n);
    var k := |n.levels|;
    assert full.levels[..k] == n.levels;
    assert n.levels[..k - 1] + [n.levels[k - 1] + ops] == n.levels[k - 1 := n.levels[k - 1] + ops];
  }

  lemma {:induction false} HistoryRuns(applied: seq<Op>, history: seq<Transaction>)
    ensures SpecRun(Nested([[]], applied), HistoryScript(history)) == Some(Nested([[]], applied + Effect(history)))
    decreases history
  {
    var n := Nested([[]], applied);
    if history == [] {
      assert applied + [] == applied;
    } else {
      var t := history[0];
      var done := applied + TransactionEffect(t);
      TransactionRuns(applied, t);
      SpecRunAppend(n, TransactionScript(t), HistoryScript(history[1..]));
      HistoryRuns(done, history[1..]);
      assert done + Effect(history[1..]) == applied + (TransactionEffect(t) + Effect(history[1..]));
    }
  }

  lemma TransactionRuns(applied: seq<Op>, t: Transaction)
    ensures SpecRun(Nested([[]], applied), TransactionScript(t)) == Some(Nested([[]], applied + TransactionEffect(t)))
  {
    var n := Nested([[]], applied);
    var fate := if t.commits then Commit else Abort;
    BodyRuns(n, t.body, 1);
    var full := Grown(n, Survivors(t.body));
    assert full.levels == [[] + Survivors(t.body)] && [] + Survivors(t.body) == Survivors(t.body);
    SpecRunOne(full, fate);
    SpecRunAppend(n, Script(t.body, 1), [fate]);
    assert applied + [] == applied;
  }

  ghost predicate Idle(b: Backend) {
    b.queue == [] && !b.armed && b.open == [TOP_SUBXID] && b.lastId == TOP_SUBXID
  }

  lemma {:induction false} RunAppend(b: Backend, x: seq<Event>, y: seq<Event>)
    requires Run(b, x).Some?
    ensures Run(b, x + y) == Run(Run(b, x).value, y)
    decreases x
  {
    if x == [] {
      assert x + y == y;
    } else {
      assert (x + y)[0] == x[0] && (x + y)[1..] == x[1..] + y;
      RunAppend(Step(b, x[0]), x[1..], y);
    }
  }

  /** One transaction, from idle to idle. */
  lemma TransactionApplies(b: Backend, t: Transaction)
    requires Idle(b)
    ensures AppliesFrom(b, Run(b, TransactionScript(t)), TransactionEffect(t))
  {
    EmptyTop();
    var n := Nested([[]], b.applied);
    var fate := if t.commits then Commit else Abort;
    BodyRuns(n, t.body, 1);
    RunRefines(b, n, Script(t.body, 1));
    RunAppend(b, Script(t.body, 1), [fate]);
    RunOne(Run(b, Script(t.body, 1)).value, fate);
    TransactionRuns(b.applied, t);
    RunRefines(b, n, TransactionScript(t));
  }

  lemma RunOne(b: Backend, e: Event)
    requires Enabled(b, e)
    ensures Run(b, [e]) == Some(Step(b, e))
  {
    assert [e][1..] == [];
    assert Run(Step(b, e), []) == Some(Step(b, e));
  }

  /**
   * Any history of nested transactions hands the cache exactly its surviving operations, in
   * commit order and within a transaction in program order, and leaves the backend idle.
   */
  lemma {:induction false} QueueAppliesExactlySurvivors(b: Backend, history: seq<Transaction>)
    requires Idle(b)
    ensures AppliesFrom(b, Run(b, HistoryScript(history)), Effect(history))
    decreases history
  {
    if history == [] {
      assert b.applied + [] == b.applied;
    } else {
      var t, rest := history[0], history[1..];
      TransactionApplies(b, t);
      var mid := Run(b, TransactionScript(t)).value;
      QueueAppliesExactlySurvivors(mid, rest);
      AppliesThen(b, TransactionScript(t), TransactionEffect(t), HistoryScript(rest), Effect(rest));
    }
  }

  /** From `b`, the backend has applied `ops` and is idle. */
  ghost predicate AppliesFrom(b: Backend, r: Option<Backend>, ops: seq<Op>) {
    r.Some? && Idle(r.value) && r.value.applied == b.applied + ops
  }

  lemma AppliesThen(b: Backend, x: seq<Event>, ops: seq<Op>, y: seq<Event>, ops': seq<Op>)
    requires AppliesFrom(b, Run(b, x), ops)
    requires AppliesFrom(Run(b, x).value, Run(Run(b, x).value, y), ops')
    ensures AppliesFrom(b, Run(b, x + y), ops + ops')
  {
    RunAppend(b, x, y);
    Assoc(b.applied, ops, ops');
  }

  // ------------------------------------------------------------ the callbacks

  /** The RESP command that carries an operation to the cache. */
  function CommandOf(op: Op): Args {
    match op
    case Set(key, value, None) => [Ascii("SET"), key, value]
    case Set(key, value, Some(ttl)) => [Ascii("SET"), key, value, Ascii("EX"), Print(ttl)]
    case Del(key) => [Ascii("DEL"), key]
  }

  // ------------------------------------------- what the cache makes of it

  /** What the SQL functions let through: no time to live, or a positive one. */
  predicate Sendable(op: Op) {
    op.Set? && op.ttl.Some? ==> 0 < op.ttl.value <= I64_MAX
  }

  /** Case folding leaves the words that are sent as they are. */
  ghost predicate Folds(fold: Dispatch.Fold) {
    fold(Ascii("SET")) == "SET" && fold(Ascii("DEL")) == "DEL" && fold(Ascii("EX")) == "EX"
  }

  /** The write that was queued: the key holds the value, for good or for `ttl` seconds, or is gone. */
  ghost predicate DoesWrite(op: Op, now: Time, v: StoreSpec.View, v': StoreSpec.View) {
    && StoreLaws.OthersSame(v, v', op.key)
    && match op
       case Set(key, value, None) => StoreLaws.HoldsForever(v', key, value)
       case Set(key, value, Some(ttl)) =>
         ttl > 0 && StoreLaws.HoldsUntil(v', key, value, now + ttl * 1_000_000_000, now)
       case Del(key) => key !in v'
  }

  /** The cache reads these arguments as a write that does what was queued. */
  ghost predicate WritesAt(args: Args, op: Op, clock: SetOptions.Clock, fold: Dispatch.Fold, v: StoreSpec.View) {
    exists w :: Dispatch.ReadsAs(args, clock, fold, w)
                && DoesWrite(op, clock.mono, v, StoreSpec.Apply(v, clock.mono, w).1)
  }

  /** Whenever they arrive, and whatever the cache then holds. */
  ghost predicate Writes(args: Args, op: Op) {
    forall clock, fold, v :: Folds(fold) ==> WritesAt(args, op, clock, fold, v)
  }

  /** The operation of the cache that a queued one becomes. */
  function WriteOf(op: Op, clock: SetOptions.Clock): StoreSpec.Op
    requires Sendable(op)
  {
    match op
    case Set(key, value, None) => StoreSpec.Set(key, value, StoreSpec.NoExpiry, StoreSpec.Always, false)
    case Set(key, value, Some(ttl)) =>
      StoreSpec.Set(key, value, StoreSpec.At(clock.mono + ttl * 1_000_000_000), StoreSpec.Always, false)
    case Del(key) => StoreSpec.Del([key])
  }

  lemma WriteOfWrites(op: Op, clock: SetOptions.Clock, v: StoreSpec.View)
    requires Sendable(op)
    ensures DoesWrite(op, clock.mono, v, StoreSpec.Apply(v, clock.mono, WriteOf(op, clock)).1)
  {
    if op.Set? {
      var w := WriteOf(op, clock);
      StoreLaws.SetLaw(v, clock.mono, w.key, w.value, w.expiry, w.condition, w.wantOld);
    } else {
      StoreLaws.DelLaw(v, clock.mono, [op.key], StoreSpec.Apply(v, clock.mono, StoreSpec.Del([op.key])));
    }
  }

  lemma CommandIsRead(op: Op, clock: SetOptions.Clock, fold: Dispatch.Fold)
    requires Sendable(op) && Folds(fold)
    ensures Dispatch.ReadsAs(CommandOf(op), clock, fold, WriteOf(op, clock))
  {
    var args := CommandOf(op);
    if op.Set? {
      if op.ttl.None? {
        assert args[3..] == [];
      } else {
        assert args[3..] == [Ascii("EX"), Print(op.ttl.value)];
        ExOption(clock, fold, op.ttl.value);
      }
    } else {
      assert args[1..] == [op.key];
    }
  }

  /** The option list `EX ttl`. */
  lemma ExOption(clock: SetOptions.Clock, fold: Dispatch.Fold, ttl: int)
    requires Folds(fold)
    ensures var opts, words := [Ascii("EX"), Print(ttl)], Dispatch.Words(fold);
            && (SetOptions.Acceptable(opts, words) <==> 0 < ttl <= I64_MAX)
            && (0 < ttl <= I64_MAX ==>
                  var at := StoreSpec.At(clock.mono + ttl * 1_000_000_000);
                  SetOptions.Means(clock, multiset(SetOptions.Groups(opts, words).value),
                                   SetOptions.Options(Some(at), StoreSpec.Always, false)))
  {
    var opts, words := [Ascii("EX"), Print(ttl)], Dispatch.Words(fold);
    Dispatch.WordsMean();
    ParsePrint(ttl);
    assert words(opts[0]) == SetOptions.Ex;
    if InI64(ttl) {
      var g := SetOptions.Deadline(SetOptions.Ex, ttl);
      assert SetOptions.FirstGroup(opts, words) == Some(g);
      SetOptions.OneGroup(opts, words);
      OneGroupBag(clock, g);
    }
  }

  lemma OneGroupBag(clock: SetOptions.Clock, g: SetOptions.Group)
    requires g.Deadline? && g.unit.Ex?
    ensures SetOptions.Legal(multiset([g])) <==> g.n > 0
    ensures g.n > 0 ==>
              var at := StoreSpec.At(clock.mono + g.n * 1_000_000_000);
              SetOptions.Means(clock, multiset([g]), SetOptions.Options(Some(at), StoreSpec.Always, false))
  {
    assert multiset([g]) == multiset{g};
    assert g in multiset{g};
    if g.n > 0 {
      assert SetOptions.Sets(clock, g, StoreSpec.At(clock.mono + g.n * 1_000_000_000));
    }
  }

  /** What is sent for an operation is read by the cache as exactly that operation's write. */
  lemma CommandWrites(op: Op)
    requires Sendable(op)
    ensures Writes(CommandOf(op), op)
  {
    forall clock, fold, v | Folds(fold) ensures WritesAt(CommandOf(op), op, clock, fold, v) {
      CommandIsRead(op, clock, fold);
      WriteOfWrites(op, clock, v);
    }
  }

  /** A time to live that is not positive, or too large for the wire, would be refused. */
  lemma OtherTtlsAreRefused(op: Op, clock: SetOptions.Clock, fold: Dispatch.Fold)
    requires Folds(fold)
    ensures Dispatch.Unreadable(CommandOf(op), clock, fold) <==> !Sendable(op)
  {
    if Sendable(op) {
      CommandIsRead(op, clock, fold);
    } else {
      assert CommandOf(op)[3..] == [Ascii("EX"), Print(op.ttl.value)];
      ExOption(clock, fold, op.ttl.value);
      assert CommandOf(op)[0] == Ascii("SET") && "SET" != "DEL";
    }
  }

  /** The network's part in the delivery of one operation: the first attempt and the retry. */
  datatype Route = Route(first: Client.Network, second: Client.Network)

  /** The deliveries of some operations, each retried if its socket turns out to be dead. */
  function CallsFor(ops: seq<Op>, routes: seq<Route>): seq<Client.Call>
    requires |routes| == |ops|
  {
    seq(|ops|, i requires 0 <= i < |ops| => Client.Call(CommandOf(ops[i]), true, routes[i].first, routes[i].second))
  }

  /** How many deliveries were not acknowledged: no answer, or an error for an answer. */
  function Failures(results: seq<Client.Result>): nat {
    if results == [] then 0
    else Failures(results[..|results| - 1]) + if results[|results| - 1].Ok? then 0 else 1
  }

  lemma {:induction false} FailuresAppend(a: seq<Client.Result>, b: seq<Client.Result>)
    ensures Failures(a + b) == Failures(a) + Failures(b)
    decreases b
  {
    if b == [] {
      assert a + b == a;
    } else {
      assert (a + b)[..|a + b| - 1] == a + b[..|b| - 1];
      FailuresAppend(a, b[..|b| - 1]);
    }
  }

  /** How far the deliveries get if the applier panics at operation `p`. */
  function Reached(count: nat, panicAt: Option<nat>): nat {
    if panicAt.Some? && panicAt.value < count then panicAt.value else count
  }

  class PostCommitQueue {
    var queue: seq<Item>
    var armed: bool
    var lost: nat  // the shared invalidations_lost counter

    constructor ()
      ensures queue == [] && !armed && lost == 0
    {
      queue, armed, lost := [], false, 0;
    }

    method Enqueue(op: Op, subxid: nat)
      modifies this`queue, this`armed
      ensures queue == old(queue) + [Item(subxid, op)] && armed
    {
      if !armed {
        armed := true;
      }
      queue := queue + [Item(subxid, op)];
    }

    /** `resp.set`: a time to live that is not positive is refused before anything is queued. */
    method SqlSet(key: seq<byte>, value: seq<byte>, ttl: Option<int>, subxid: nat) returns (ok: bool)
      requires ttl.Some? ==> InI64(ttl.value)
      modifies this`queue, this`armed
      ensures ok <==> ttl.None? || ttl.value > 0
      ensures if ok then queue == old(queue) + [Item(subxid, Set(key, value, ttl))] && Sendable(Set(key, value, ttl))
              else queue == old(queue) && armed == old(armed)
    {
      if ttl.Some? && ttl.value <= 0 {
        return false;
      }
      Enqueue(Set(key, value, ttl), subxid);
      ok := true;
    }

    method OnAbortSub(my: nat)
      modifies this`queue
      ensures queue == Older(old(queue), my)
    {
      var kept: seq<Item> := [];
      for i := 0 to |queue|
        invariant queue == old(queue) && kept == Older(queue[..i], my)
      {
        assert queue[..i + 1][..i] == queue[..i];
        if queue[i].subxid < my {
          kept := kept + [queue[i]];
        }
      }
      assert queue[..|queue|] == queue;
      queue := kept;
    }

    method OnCommitSub(my: nat, parent: nat)
      modifies this`queue
      ensures queue == Reparent(old(queue), my, parent)
    {
      for i := 0 to |queue|
        invariant |queue| == |old(queue)|
        invariant queue[..i] == Reparent(old(queue), my, parent)[..i] && queue[i..] == old(queue)[i..]
      {
        if queue[i].subxid == my {
          queue := queue[i := queue[i].(subxid := parent)];
        }
      }
    }

    method OnAbort()
      modifies this`queue, this`armed
      ensures queue == [] && !armed
    {
      queue, armed := [], false;
    }

    /** Take the queue, disarm, and deliver it. */
    method OnCommit(client: Client.Client, routes: seq<Route>, panicAt: Option<nat>)
      returns (results: seq<Client.Result>)
      requires |routes| == |queue|
      modifies this, client
      ensures queue == [] && !armed
      ensures var q := Deliveries(old(client.Me()), Ops(old(queue)), routes, panicAt, client.password);
              && Delivered(client, q, old(client.log)) && results == q.results
              && lost == old(lost) + Losses(|old(queue)|, panicAt, results)
    {
      armed := false;
      var ops := queue;
      queue := [];
      results := ApplyQueue(client, Ops(ops), routes, panicAt);
    }

    static method CountFailed(results: seq<Client.Result>) returns (failed: nat)
      ensures failed == Failures(results)
    {
      failed := 0;
      for i := 0 to |results|
        invariant failed == Failures(results[..i])
      {
        assert results[..i + 1][..i] == results[..i];
        if results[i].Err? {
          failed := failed + 1;
        }
      }
      assert results[..|results|] == results;
    }

    /** A failed delivery is counted and never stops the ones behind it; a panic counts them all. */
    method ApplyQueue(client: Client.Client, ops: seq<Op>, routes: seq<Route>, panicAt: Option<nat>)
      returns (results: seq<Client.Result>)
      requires |routes| == |ops|
      modifies this`lost, client
      ensures var q := Deliveries(old(client.Me()), ops, routes, panicAt, client.password);
              && Delivered(client, q, old(client.log)) && results == q.results
              && lost == old(lost) + Losses(|ops|, panicAt, results)
    {
      results := [];
      assert client.log + [] == client.log;
      if ops == [] {
        return;
      }
      results := Client.Session(client, CallsFor(ops, routes)[..Reached(|ops|, panicAt)]);
      var failed := CountFailed(results);
      if Reached(|ops|, panicAt) < |ops| {
        failed := |ops|;
      }
      if failed > 0 {
        lost := lost + failed;
      }
    }
  }

  /** The deliveries of some operations as a session of the client, as far as the applier gets. */
  function Deliveries(start: Client.Standing, ops: seq<Op>, routes: seq<Route>, panicAt: Option<nat>,
                      password: Option<seq<byte>>): Client.Played
    requires |routes| == |ops|
  {
    Client.Play(start, CallsFor(ops, routes)[..Reached(|ops|, panicAt)], password)
  }

  /** By how much the lost counter grows: the deliveries that failed, or everything after a panic. */
  function Losses(count: nat, panicAt: Option<nat>, results: seq<Client.Result>): nat {
    if Reached(count, panicAt) < count then count else Failures(results)
  }

  /** The deliveries that came back with an error. */
  ghost function Failed(results: seq<Client.Result>): set<int> { set i | 0 <= i < |results| && results[i].Err? }

  lemma {:induction false} FailuresAreErrors(results: seq<Client.Result>)
    ensures Failures(results) == |Failed(results)|
  {
    if results == [] {
      assert Failed(results) == {};
    } else {
      var last := |results| - 1;
      FailuresAreErrors(results[..last]);
      if results[last].Err? {
        assert Failed(results) == Failed(results[..last]) + {last};
      } else {
        assert Failed(results) == Failed(results[..last]);
      }
    }
  }

  /**
   * What is counted as lost: each delivery that came back with an error, or, if the applier panicked before
   * the end, every operation; the operations in front of the panic were still attempted.
   */
  lemma LossesAreErrors(start: Client.Standing, ops: seq<Op>, routes: seq<Route>, panicAt: Option<nat>,
                        password: Option<seq<byte>>)
    requires |routes| == |ops|
    ensures var results, n := Deliveries(start, ops, routes, panicAt, password).results, |ops|;
            if panicAt.Some? && panicAt.value < n then |results| == panicAt.value && Losses(n, panicAt, results) == n
            else |results| == n && Losses(n, panicAt, results) == |Failed(results)|
  {
    FailuresAreErrors(Deliveries(start, ops, routes, panicAt, password).results);
  }

  /** The client is where the session leaves it, and exactly its transcripts have gone to the sockets. */
  ghost predicate Delivered(client: Client.Client, q: Client.Played, before: seq<Client.Sent>)
    reads client
  {
    client.Me() == q.after && client.log == before + Client.Transcript(q.sents)
  }

  /** Every request of a transcript is read by the cache as the write that was queued. */
  ghost predicate AllWrite(sent: seq<Client.Sent>, op: Op) {
    forall i :: 0 <= i < |sent| && sent[i].what.Request? ==> Writes(sent[i].what.args, op)
  }

  /**
   * Delivery `i` put its own operation on a socket, nothing else, and that at most twice; at least
   * once if it was acknowledged. What it put there the cache reads as that operation's write.
   */
  ghost predicate SentFor(ops: seq<Op>, q: Client.Played, i: nat)
    requires i < |ops| && i < |q.sents| && i < |q.results|
  {
    && Client.Carries(q.sents[i], CommandOf(ops[i]), 2)
    && (Sendable(ops[i]) ==> AllWrite(q.sents[i], ops[i]))
    && (Client.Answered(q.results[i]) ==> Client.Requests(q.sents[i]) > 0)
  }

  /** Whatever the network does, the requests are, delivery by delivery, the operations in order. */
  lemma DeliveriesCarry(start: Client.Standing, ops: seq<Op>, routes: seq<Route>, panicAt: Option<nat>,
                        password: Option<seq<byte>>, i: nat)
    requires |routes| == |ops| && i < Reached(|ops|, panicAt)
    ensures SentFor(ops, Deliveries(start, ops, routes, panicAt, password), i)
  {
    var calls := CallsFor(ops, routes)[..Reached(|ops|, panicAt)];
    Client.PlayAt(start, calls, password, i);
    Client.CallCarries(Client.Play(start, calls[..i], password).after, calls[i], password);
    if Sendable(ops[i]) {
      CommandWrites(ops[i]);
    }
  }

  /**
   * What the counter leaves out, against an honest cache: as long as no delivery was spoilt by an
   * unread retry, an operation not counted as lost was acknowledged by the cache's own, non-error
   * answer to it.
   */
  lemma NotLostMeansAcknowledged(start: Client.Standing, calls: seq<Client.Call>, password: Option<seq<byte>>, n: nat)
    requires Client.InSync(start) && n < |calls|
    requires forall i :: 0 <= i <= n ==> Client.HonestCall(calls[i])
    requires forall i :: 0 <= i < n ==> !Client.SpoiltAt(start, calls, password, i)
    ensures var r := Client.Play(start, calls, password).results[n];
            var answer := Client.AnswerTo(Client.Play(start, calls[..n], password).after, calls[n]);
            r.Ok? ==> r.reply == answer && !answer.Error?
  {
    Client.CleanSession(start, calls, password, n);
  }

  /** A network whose first attempt, and retry, go like this; no password is set. */
  function Via(first: Client.Exchange, second: Client.Exchange): Route {
    Route(Client.Network(true, first, first), Client.Network(true, second, second))
  }

  /** The networks of the scenario below, on answers `w` and `no`. */
  function UnreadRetry(w: seq<byte>, no: seq<byte>): seq<Route> {
    var read, silent := [Client.Chunk(|w|)], Client.Exchange(Client.Written, w, []);
    [ Via(Client.Exchange(Client.Written, w, read), silent),
      Via(Client.Exchange(Client.WriteBroken(false), w, []), silent),
      Via(Client.Exchange(Client.Written, no, read), silent) ]
  }

  /**
   * The proviso matters: the second delivery's retry is not read and counts as lost; its answer then
   * acknowledges the third operation, which the cache has refused and which is not counted.
   */
  lemma RefusedButAcknowledged(ops: seq<Op>, ok: Reply, text: seq<byte>)
    requires |ops| == 3 && WellFormed(ok, 0) && !ok.Error? && WellFormed(Error(text), 0)
    ensures var routes := UnreadRetry(Write(ok), Write(Error(text)));
            && Client.HonestCall(CallsFor(ops, routes)[2]) && Client.Answer(routes[2].first.main) == Error(text)
            && var results := Deliveries(Client.Standing(None, 0), ops, routes, None, None).results;
               && results == [Client.Ok(ok), Client.Err(Client.Timeout), Client.Ok(ok)] && Failures(results) == 1
  {
    var w, no := Write(ok), Write(Error(text));
    var routes := UnreadRetry(w, no);
    var calls := CallsFor(ops, routes);
    Client.ScenarioEnds(ok, Error(text));
    Client.PrintedIsOneReply(routes[2].first.main, Error(text));
    Client.PrintedIsOneReply(routes[2].second.main, ok);
    var start := Client.Standing(None, 0);
    var p1 := Client.Standing(Some(Client.Held([], [])), 1);
    var p2 := Client.Standing(Some(Client.Held([], w)), 2);
    FirstIsRead(start, calls[0], w, ok);
    SecondIsUnread(p1, calls[1], w);
    ThirdIsStale(p2, calls[2], w, no, ok);
    ThreeTurns(start, calls, p1, p2);
    NoPanicDeliversAll(start, ops, routes, None);
    OneOfThree(ok);
  }

  lemma OneOfThree(ok: Reply)
    ensures Failures([Client.Ok(ok), Client.Err(Client.Timeout), Client.Ok(ok)]) == 1
  {
    var a, b := Client.Ok(ok), Client.Err(Client.Timeout);
    assert [a, b, a][..2] == [a, b] && [a, b][..1] == [a] && [a][..0] == [];
    assert Failures([a]) == 0;
    assert Failures([a, b]) == 1;
  }

  lemma FirstIsRead(p: Client.Standing, call: Client.Call, w: seq<byte>, ok: Reply)
    requires p == Client.Standing(None, 0) && w == Write(ok) && call.mayRetry
    requires call.first == Via(Client.Exchange(Client.Written, w, [Client.Chunk(|w|)]), call.second.main).first
    requires Client.RoundTripEnd([], call.first.main) == Client.ReadEnd(Client.Ok(ok), [], [])
    ensures var t := Client.CallTurn(p, call, None);
            t.result == Client.Ok(ok) && t.after == Client.Standing(Some(Client.Held([], [])), 1)
  {}

  lemma SecondIsUnread(p: Client.Standing, call: Client.Call, w: seq<byte>)
    requires p == Client.Standing(Some(Client.Held([], [])), 1) && call.mayRetry
    requires call.first.main == Client.Exchange(Client.WriteBroken(false), w, [])
    requires call.second.dialOk
    requires Client.RoundTripEnd([], call.second.main) == Client.ReadEnd(Client.Err(Client.Timeout), [], w)
    ensures var t := Client.CallTurn(p, call, None);
            t.result == Client.Err(Client.Timeout) && t.after == Client.Standing(Some(Client.Held([], w)), 2)
  {}

  lemma ThirdIsStale(p: Client.Standing, call: Client.Call, w: seq<byte>, no: seq<byte>, ok: Reply)
    requires p == Client.Standing(Some(Client.Held([], w)), 2) && call.mayRetry
    requires Client.RoundTripEnd(w, call.first.main).result == Client.Ok(ok)
    ensures Client.CallTurn(p, call, None).result == Client.Ok(ok)
  {}

  lemma ThreeTurns(p: Client.Standing, calls: seq<Client.Call>, p1: Client.Standing, p2: Client.Standing)
    requires |calls| == 3
    requires Client.CallTurn(p, calls[0], None).after == p1 && Client.CallTurn(p1, calls[1], None).after == p2
    ensures Client.Play(p, calls, None).results == [ Client.CallTurn(p, calls[0], None).result,
                                                     Client.CallTurn(p1, calls[1], None).result,
                                                     Client.CallTurn(p2, calls[2], None).result ]
  {
    assert calls[..0] == [] && calls[..3] == calls;
    Client.PlayTurn(p, calls, None, 0, []);
    Client.PlayTurn(p, calls, None, 1, []);
    Client.PlayTurn(p, calls, None, 2, []);
  }

  // ---------------------------------------------------------- the whole backend

  lemma CallsAppend(a: seq<Op>, b: seq<Op>, routes: seq<Route>, routes': seq<Route>)
    requires |routes| == |a| && |routes'| == |b|
    ensures CallsFor(a + b, routes + routes') == CallsFor(a, routes) + CallsFor(b, routes')
  {}

  lemma NoPanicDeliversAll(start: Client.Standing, ops: seq<Op>, routes: seq<Route>, password: Option<seq<byte>>)
    requires |routes| == |ops|
    ensures Deliveries(start, ops, routes, None, password) == Client.Play(start, CallsFor(ops, routes), password)
  {
    assert CallsFor(ops, routes)[..|ops|] == CallsFor(ops, routes);
  }

  /** What an event hands to the cache. */
  function Hands(b: Backend, e: Event): seq<Op>
    requires Enabled(b, e)
  {
    if e.Commit? && b.armed then Ops(b.queue) else []
  }

  lemma StepHands(b: Backend, e: Event)
    requires Enabled(b, e)
    ensures Step(b, e).applied == b.applied + Hands(b, e)
  {
    assert b.applied + [] == b.applied;
  }

  /** One Postgres event reaching the backend: the armed callbacks do exactly `Step`. */
  method Deliver(q: PostCommitQueue, client: Client.Client, b: Backend, e: Event, routes: seq<Route>)
    returns (b': Backend, results: seq<Client.Result>)
    requires q.queue == b.queue && q.armed == b.armed && Enabled(b, e) && |routes| == |Hands(b, e)|
    modifies q, client
    ensures b' == Step(b, e) && q.queue == b'.queue && q.armed == b'.armed
    ensures var d := Deliveries(old(client.Me()), Hands(b, e), routes, None, client.password);
            Delivered(client, d, old(client.log)) && results == d.results && q.lost == old(q.lost) + Failures(results)
  {
    b', results := Step(b, e), [];
    assert client.log + [] == client.log;
    var top := b.open[|b.open| - 1];
    if e.Enqueue? {
      q.Enqueue(e.op, top);
    } else if b.armed {
      match e {
        case Release => q.OnCommitSub(top, b.open[|b.open| - 2]);
        case RollbackTo(level) => q.OnAbortSub(b.open[level]);
        case Commit => results := q.OnCommit(client, routes, None);
        case Abort => q.OnAbort();
        case _ =>
      }
    }
  }

  function RoutesFrom(network: nat -> Route, from: nat, count: nat): (routes: seq<Route>)
    ensures |routes| == count
  {
    seq(count, i requires 0 <= i < count => network(from + i))
  }

  lemma RoutesAppend(network: nat -> Route, n: nat, m: nat)
    ensures RoutesFrom(network, 0, n + m) == RoutesFrom(network, 0, n) + RoutesFrom(network, n, m)
  {}

  /** Delivery `k` of a backend's life meets `network(k)`. */
  function AllDeliveries(start: Client.Standing, ops: seq<Op>, network: nat -> Route,
                         password: Option<seq<byte>>): Client.Played {
    Deliveries(start, ops, RoutesFrom(network, 0, |ops|), None, password)
  }

  lemma CallsJoin(ops: seq<Op>, ops': seq<Op>, network: nat -> Route)
    ensures CallsFor(ops + ops', RoutesFrom(network, 0, |ops + ops'|))
            == CallsFor(ops, RoutesFrom(network, 0, |ops|)) + CallsFor(ops', RoutesFrom(network, |ops|, |ops'|))
  {
    RoutesAppend(network, |ops|, |ops'|);
    CallsAppend(ops, ops', RoutesFrom(network, 0, |ops|), RoutesFrom(network, |ops|, |ops'|));
  }

  /** Deliveries follow one another. */
  lemma DeliveriesJoin(start: Client.Standing, ops: seq<Op>, ops': seq<Op>, network: nat -> Route,
                       password: Option<seq<byte>>)
    ensures var d := AllDeliveries(start, ops, network, password);
            var d' := Deliveries(d.after, ops', RoutesFrom(network, |ops|, |ops'|), None, password);
            AllDeliveries(start, ops + ops', network, password)
            == Client.Played(d.results + d'.results, d'.after, d.sents + d'.sents)
  {
    var routes, routes' := RoutesFrom(network, 0, |ops|), RoutesFrom(network, |ops|, |ops'|);
    NoPanicDeliversAll(start, ops, routes, password);
    NoPanicDeliversAll(Deliveries(start, ops, routes, None, password).after, ops', routes', password);
    NoPanicDeliversAll(start, ops + ops', RoutesFrom(network, 0, |ops + ops'|), password);
    CallsJoin(ops, ops', network);
    Client.PlayAppend(start, CallsFor(ops, routes), CallsFor(ops', routes'), password);
  }

  /** And so do their transcripts and their losses. */
  lemma PlayedJoin(d: Client.Played, d': Client.Played, before: seq<Client.Sent>)
    ensures before + Client.Transcript(d.sents + d'.sents)
            == before + Client.Transcript(d.sents) + Client.Transcript(d'.sents)
    ensures Failures(d.results + d'.results) == Failures(d.results) + Failures(d'.results)
  {
    Client.TranscriptAppend(d.sents, d'.sents);
    Assoc(before, Client.Transcript(d.sents), Client.Transcript(d'.sents));
    FailuresAppend(d.results, d'.results);
  }

  /** A backend in the middle of its life: what it has applied is what its client has delivered. */
  ghost predicate InLife(q: PostCommitQueue, client: Client.Client, b: Backend, network: nat -> Route,
                         results: seq<Client.Result>, start: Client.Standing, before: seq<Client.Sent>)
    reads q, client
  {
    var d := AllDeliveries(start, b.applied, network, client.password);
    && q.queue == b.queue && q.armed == b.armed && q.lost == Failures(results)
    && Delivered(client, d, before) && results == d.results
  }

  /**
   * The whole backend over a history, whatever the network does to each delivery. What goes to the
   * sockets is, delivery by delivery, the surviving writes in order, each at most twice and at least
   * once if acknowledged, in words that the cache reads as just those writes; the results are those of
   * that session of the client; and the lost counter counts exactly the deliveries that failed.
   */
  method PlayHistory(client: Client.Client, history: seq<Transaction>, network: nat -> Route)
    returns (lost: nat, results: seq<Client.Result>)
    modifies client
    ensures var ops := Effect(history);
            var d := AllDeliveries(old(client.Me()), ops, network, client.password);
            && client.Me() == d.after && client.log == old(client.log) + Client.Transcript(d.sents)
            && |d.sents| == |ops| && (forall i :: 0 <= i < |ops| ==> SentFor(ops, d, i))
            && results == d.results && lost == Failures(results)
  {
    var q := new PostCommitQueue();
    var start := Backend([], false, [TOP_SUBXID], TOP_SUBXID, []);
    var b, events := start, HistoryScript(history);
    QueueAppliesExactlySurvivors(start, history);
    assert [] + Effect(history) == Effect(history);
    ghost var before, me := client.log, client.Me();
    assert before + [] == before;
    results := [];
    while events != []
      invariant fresh(q) && Run(start, HistoryScript(history)) == Run(b, events)
      invariant InLife(q, client, b, network, results, me, before)
      decreases events
    {
      b, results := PlayEvent(q, client, b, events[0], network, results, me, before);
      events := events[1..];
    }
    lost := q.lost;
    AllSent(me, b.applied, network, client.password);
  }

  lemma AllSent(start: Client.Standing, ops: seq<Op>, network: nat -> Route, password: Option<seq<byte>>)
    ensures var d := AllDeliveries(start, ops, network, password);
            |d.sents| == |d.results| == |ops| && forall i :: 0 <= i < |ops| ==> SentFor(ops, d, i)
  {
    forall i | 0 <= i < |ops| ensures SentFor(ops, AllDeliveries(start, ops, network, password), i) {
      DeliveriesCarry(start, ops, RoutesFrom(network, 0, |ops|), None, password, i);
    }
  }

  method PlayEvent(q: PostCommitQueue, client: Client.Client, b: Backend, e: Event, network: nat -> Route,
                   results: seq<Client.Result>, ghost start: Client.Standing, ghost before: seq<Client.Sent>)
    returns (b': Backend, results': seq<Client.Result>)
    requires Enabled(b, e) && InLife(q, client, b, network, results, start, before)
    modifies q, client
    ensures b' == Step(b, e) && InLife(q, client, b', network, results', start, before)
  {
    var routes := RoutesFrom(network, |b.applied|, |Hands(b, e)|);
    ghost var d := AllDeliveries(start, b.applied, network, client.password);
    ghost var d' := Deliveries(d.after, Hands(b, e), routes, None, client.password);
    DeliveriesJoin(start, b.applied, Hands(b, e), network, client.password);
    PlayedJoin(d, d', before);
    StepHands(b, e);
    b', results' := Deliver(q, client, b, e, routes);
    results' := results + results';
  }
}

/** One server-side connection: its buffers, the readable and writable paths, and runs of events. */
module Connection {
  import opened Bytes
  import opened Codec
  import opened CodecProofs
  import opened Pipeline

  const MAX_PENDING_WRITE_BYTES: nat := 64 * 1024 * 1024
  const WRITE_PREFIX_RECLAIM_BYTES: nat := 64 * 1024

  /** Outcomes of `read`; a script that runs out would block. */
  datatype ReadResult = Data(bytes: seq<byte>) | ReadWouldBlock | ReadFailed

  /** Outcomes of `write`; `Took(n)` is the kernel accepting up to `n` of the bytes offered. */
  datatype WriteResult = Took(n: nat) | WriteWouldBlock | Interrupted | WriteFailed

  datatype FlushOutcome = Flushed | Pending | Failed

  /** Why a step kept or dropped the connection. */
  datatype Verdict = Kept | PeerGone | TooFarBehind | BrokenPipe | ClosedByRequest

  /** The bytes a script of reads delivers before it blocks, or nothing if the peer is gone. */
  function Received(incoming: seq<ReadResult>): Option<seq<byte>> {
    if incoming == [] || incoming[0].ReadWouldBlock? then Some([])
    else if incoming[0].ReadFailed? || incoming[0].bytes == [] then None
    else
      match Received(incoming[1..])
      case None => None
      case Some(more) => Some(incoming[0].bytes + more)
  }

  /** The read script gets to read `i`: everything before it delivered bytes. */
  ghost predicate ReadsTo(incoming: seq<ReadResult>, i: nat) {
    i <= |incoming| && forall j :: 0 <= j < i ==> incoming[j].Data? && incoming[j].bytes != []
  }

  /** The read loop gets to the end of the stream, or to an error. */
  ghost predicate Ends(incoming: seq<ReadResult>) {
    exists i :: 0 <= i < |incoming| && ReadsTo(incoming, i) && (incoming[i].ReadFailed? || incoming[i] == Data([]))
  }

  /** The bytes of the first `i` reads. */
  function BytesOf(incoming: seq<ReadResult>, i: nat): seq<byte>
    requires i <= |incoming|
  {
    if i == 0 then [] else (if incoming[0].Data? then incoming[0].bytes else []) + BytesOf(incoming[1..], i - 1)
  }

  /** Where the read loop stops, and with what. */
  lemma {:induction false} ReadStops(incoming: seq<ReadResult>) returns (i: nat)
    ensures ReadsTo(incoming, i)
    ensures if i == |incoming| || incoming[i].ReadWouldBlock? then Received(incoming) == Some(BytesOf(incoming, i))
            else (incoming[i].ReadFailed? || incoming[i] == Data([])) && Received(incoming) == None
    decreases incoming
  {
    i := 0;
    if incoming != [] && incoming[0].Data? && incoming[0].bytes != [] {
      var k := ReadStops(incoming[1..]);
      i := k + 1;
      forall j | 0 <= j < i ensures incoming[j].Data? && incoming[j].bytes != [] {
        if j > 0 { assert incoming[j] == incoming[1..][j - 1]; }
      }
    }
  }

  /** The peer is gone exactly when the read loop gets to the end of the stream or to an error. */
  lemma GoneMeansEnds(incoming: seq<ReadResult>)
    ensures Received(incoming) == None <==> Ends(incoming)
  {
    var stop := ReadStops(incoming);
    if Ends(incoming) {
      var i :| 0 <= i < |incoming| && ReadsTo(incoming, i) && (incoming[i].ReadFailed? || incoming[i] == Data([]));
      assert i >= stop;
      if i > stop { assert incoming[stop].Data? && incoming[stop].bytes != []; }
    }
  }

  /** What a script of writes does to `owed` bytes: how the flush ends and how many it sends. */
  function Flow(owed: nat, script: seq<WriteResult>): (flow: (FlushOutcome, nat))
    ensures flow.1 <= owed
    decreases script
  {
    if owed == 0 then (Flushed, 0)
    else if script == [] || script[0].WriteWouldBlock? then (Pending, 0)
    else if script[0].Interrupted? then Flow(owed, script[1..])
    else if script[0].WriteFailed? || script[0].n == 0 then (Failed, 0)
    else
      var n := if script[0].n <= owed then script[0].n else owed;
      var (outcome, more) := Flow(owed - n, script[1..]);
      (outcome, n + more)
  }

  /** A flush ends `Flushed` exactly when it sends all that is owed. */
  lemma {:induction false} FlushedMeansAllSent(owed: nat, script: seq<WriteResult>)
    ensures Flow(owed, script).0 == Flushed <==> Flow(owed, script).1 == owed
    decreases script
  {
    if owed > 0 && script != [] {
      if script[0].Interrupted? {
        FlushedMeansAllSent(owed, script[1..]);
      } else if script[0].Took? && script[0].n > 0 {
        FlushedMeansAllSent(owed - if script[0].n <= owed then script[0].n else owed, script[1..]);
      }
    }
  }

  /** A write that ends the connection. */
  predicate Fails(w: WriteResult) { w.WriteFailed? || w == Took(0) }

  /** How many bytes the first `i` writes offer to take. */
  function Offered(script: seq<WriteResult>, i: nat): nat
    requires i <= |script|
  {
    if i == 0 then 0 else (if script[0].Took? then script[0].n else 0) + Offered(script[1..], i - 1)
  }

  /** The flush of `owed` bytes gets to write `i`: nothing before it blocks or fails, or takes the last byte. */
  ghost predicate Reaches(owed: nat, script: seq<WriteResult>, i: nat) {
    && i <= |script| && Offered(script, i) < owed
    && forall j :: 0 <= j < i ==> !script[j].WriteWouldBlock? && !Fails(script[j])
  }

  /** The flush gets to a failed write. */
  ghost predicate Breaks(owed: nat, script: seq<WriteResult>) {
    exists i :: 0 <= i < |script| && Reaches(owed, script, i) && Fails(script[i])
  }

  /** The flush gets to a write that would block. */
  ghost predicate Blocks(owed: nat, script: seq<WriteResult>) {
    exists i :: 0 <= i <= |script| && Reaches(owed, script, i) && (i == |script| || script[i].WriteWouldBlock?)
  }

  lemma OfferedGrows(script: seq<WriteResult>, i: nat, j: nat)
    requires i <= j <= |script|
    ensures Offered(script, i) <= Offered(script, j)
  {
    if 0 < i {
      OfferedGrows(script[1..], i - 1, j - 1);
    }
  }

  /** Where the flush stops, and how. */
  lemma {:induction false} FlowStops(owed: nat, script: seq<WriteResult>) returns (i: nat)
    ensures i <= |script| && forall j :: 0 <= j < i ==> !script[j].WriteWouldBlock? && !Fails(script[j])
    ensures if Offered(script, i) >= owed then Flow(owed, script) == (Flushed, owed)
            else if i == |script| || script[i].WriteWouldBlock? then Flow(owed, script) == (Pending, Offered(script, i))
            else Fails(script[i]) && Flow(owed, script) == (Failed, Offered(script, i))
    decreases script
  {
    i := 0;
    if owed > 0 && script != [] && !script[0].WriteWouldBlock? && !Fails(script[0]) {
      var n := if script[0].Interrupted? then 0 else if script[0].n <= owed then script[0].n else owed;
      var k := FlowStops(owed - n, script[1..]);
      i := k + 1;
      forall j | 0 <= j < i ensures !script[j].WriteWouldBlock? && !Fails(script[j]) {
        if j > 0 { assert script[j] == script[1..][j - 1]; }
      }
    }
  }

  /** How a flush ends, by its script alone, and how many bytes it has sent by then. */
  lemma FlushEnds(owed: nat, script: seq<WriteResult>)
    ensures Flow(owed, script).0 == Failed <==> Breaks(owed, script)
    ensures Flow(owed, script).0 == Pending <==> Blocks(owed, script)
    ensures forall i :: 0 <= i <= |script| && Reaches(owed, script, i) ==> Offered(script, i) <= Flow(owed, script).1
  {
    var stop := FlowStops(owed, script);
    forall i | 0 <= i <= |script| && Reaches(owed, script, i)
      ensures i <= stop && Offered(script, i) <= Flow(owed, script).1
    {
      if i > stop {
        OfferedGrows(script, stop, i);
      } else {
        OfferedGrows(script, i, stop);
      }
    }
    if Offered(script, stop) < owed {
      assert Reaches(owed, script, stop);
    }
    if Breaks(owed, script) {
      var i :| 0 <= i < |script| && Reaches(owed, script, i) && Fails(script[i]);
      assert i <= stop;
    }
    if Blocks(owed, script) {
      var i :| 0 <= i <= |script| && Reaches(owed, script, i) && (i == |script| || script[i].WriteWouldBlock?);
      assert i <= stop;
    }
  }

  function Decide(outcome: FlushOutcome, closing: bool): Verdict {
    match outcome
    case Flushed => if closing then ClosedByRequest else Kept
    case Pending => Kept
    case Failed => BrokenPipe
  }

  /** What becomes of a connection that owes `owed` bytes when its readable wakeup gets to writing. */
  function Fate(owed: nat, outgoing: seq<WriteResult>, closing: bool): Verdict {
    if owed > MAX_PENDING_WRITE_BYTES then TooFarBehind else Decide(Flow(owed, outgoing).0, closing)
  }

  /** How many bytes a wakeup with that outcome sent. */
  function Paid(verdict: Verdict, owed: nat, outgoing: seq<WriteResult>): (paid: nat)
    ensures paid <= owed
  {
    if verdict.PeerGone? || verdict.TooFarBehind? then 0 else Flow(owed, outgoing).1
  }

  class Conn {
    var readBuf: seq<byte>
    var writeBuf: seq<byte>
    var writePos: nat
    var wantWrite: bool
    var closeAfterFlush: bool
    ghost var produced: seq<byte>  // every reply byte ever appended
    ghost var sent: seq<byte>      // every byte the kernel accepted

    function Unsent(): seq<byte>
      requires writePos <= |writeBuf|
      reads this
    {
      writeBuf[writePos..]
    }

    /** No reply byte is lost, duplicated or reordered. */
    ghost predicate Valid()
      reads this
    {
      writePos <= |writeBuf| && sent + Unsent() == produced
    }

    /** What holds whenever the event loop keeps a connection. */
    ghost predicate Bounded()
      requires Valid()
      reads this
    {
      writePos < WRITE_PREFIX_RECLAIM_BYTES && |Unsent()| <= MAX_PENDING_WRITE_BYTES
    }

    constructor ()
      ensures Valid() && Bounded() && !closeAfterFlush && !wantWrite && Unsent() == []
      ensures readBuf == [] && produced == [] && sent == []
    {
      readBuf, writeBuf, writePos := [], [], 0;
      wantWrite, closeAfterFlush := false, false;
      produced, sent := [], [];
    }

    /**
     * `flush_writes`: it fails, blocks or drains as its script says; what it sends, and that a parked
     * connection keeps little dead prefix, is the same as for its loop.
     */
    method FlushWrites(script: seq<WriteResult>) returns (outcome: FlushOutcome)
      requires Valid()
      modifies this`writeBuf, this`writePos, this`sent
      ensures Valid() && old(sent) <= sent && |Unsent()| <= |old(Unsent())|
      ensures outcome == Failed <==> Breaks(|old(Unsent())|, script)
      ensures outcome == Pending <==> Blocks(|old(Unsent())|, script)
      ensures (outcome, |sent| - |old(sent)|) == Flow(|old(Unsent())|, script)
      ensures outcome == Flushed ==> sent == produced && writePos == 0
      ensures outcome == Pending ==> writePos < WRITE_PREFIX_RECLAIM_BYTES && sent < produced
    {
      FlushEnds(|Unsent()|, script);
      outcome := WriteLoop(script);
    }

    method WriteLoop(script: seq<WriteResult>) returns (outcome: FlushOutcome)
      requires Valid()
      modifies this`writeBuf, this`writePos, this`sent
      ensures Valid() && old(sent) <= sent && |Unsent()| <= |old(Unsent())|
      ensures (outcome, |sent| - |old(sent)|) == Flow(|old(Unsent())|, script)
      ensures outcome == Flushed ==> sent == produced && writePos == 0
      ensures outcome == Pending ==> writePos < WRITE_PREFIX_RECLAIM_BYTES && sent < produced
    {
      var i := 0;
      ghost var flow := Flow(|Unsent()|, script);
      assert script[0..] == script;
      while writePos < |writeBuf|
        invariant Valid() && i <= |script| && old(sent) <= sent && |Unsent()| <= |old(Unsent())|
        invariant flow == (Flow(|Unsent()|, script[i..]).0, Flow(|Unsent()|, script[i..]).1 + |sent| - |old(sent)|)
        decreases |script| - i
      {
        if i == |script| || script[i].WriteWouldBlock? {
          if writePos >= WRITE_PREFIX_RECLAIM_BYTES {
            writeBuf := writeBuf[writePos..];
            writePos := 0;
          }
          return Pending;
        }
        assert script[i..][1..] == script[i + 1..];
        match script[i] {
          case Took(limit) =>
            var n := if limit <= |writeBuf| - writePos then limit else |writeBuf| - writePos;
            if n == 0 {
              return Failed;
            }
            Advance(n);
          case Interrupted =>
          case _ => return Failed;
        }
        i := i + 1;
      }
      writeBuf, writePos := [], 0;
      assert sent + [] == sent;
      outcome := Flushed;
    }

    /** The kernel took the next `n` bytes. */
    method Advance(n: nat)
      requires Valid() && n <= |Unsent()|
      modifies this`writePos, this`sent
      ensures Valid() && sent == old(sent) + old(Unsent())[..n] && Unsent() == old(Unsent())[n..]
    {
      ghost var taken := writeBuf[writePos..writePos + n];
      assert taken + writeBuf[writePos + n..] == writeBuf[writePos..];
      Assoc(sent, taken, writeBuf[writePos + n..]);
      assert Unsent()[..n] == taken;
      sent := sent + taken;
      writePos := writePos + n;
    }

    /** The read loop: append everything available, unless the peer is gone. */
    method ReadAvailable(script: seq<ReadResult>) returns (open: bool)
      modifies this`readBuf
      ensures open <==> Received(script).Some?
      ensures open ==> readBuf == old(readBuf) + Received(script).value
    {
      var i := 0;
      assert script[0..] == script;
      assert Received(script).Some? ==> readBuf + Received(script).value == old(readBuf) + Received(script).value;
      while i < |script| && !script[i].ReadWouldBlock?
        invariant 0 <= i <= |script|
        invariant Received(script).Some? <==> Received(script[i..]).Some?
        invariant Received(script).Some? ==>
                    readBuf + Received(script[i..]).value == old(readBuf) + Received(script).value
      {
        if script[i].ReadFailed? || script[i].bytes == [] {
          return false;
        }
        assert script[i..][1..] == script[i + 1..];
        if Received(script).Some? {
          Assoc(readBuf, script[i].bytes, Received(script[i + 1..]).value);
        }
        readBuf := readBuf + script[i].bytes;
        i := i + 1;
      }
      assert readBuf + [] == readBuf;
      open := true;
    }

    /** The parse/dispatch loop: exactly `Drain` of the buffer, replies appended behind what is owed. */
    method DrainCommands<S>(step: Dispatch<S>, s: S) returns (s': S, ghost d: Drained<S>)
      requires Valid()
      modifies this`readBuf, this`writeBuf, this`closeAfterFlush, this`produced
      ensures Valid() && d == Drain(step, s, old(readBuf))
      ensures s' == d.state && readBuf == d.rest
      ensures produced == old(produced) + WriteAll(d.replies)
      ensures closeAfterFlush == (old(closeAfterFlush) || d.closing)
    {
      s' := s;
      d := Drain(step, s, readBuf);
      ghost var ran: seq<Args>, replies: seq<Reply> := [], [];
      assert Then([], [], d) == d;
      assert produced + [] == produced;
      var done := false;
      while !done
        invariant Valid()
        invariant !done ==> d == Then(ran, replies, Drain(step, s', readBuf)) && closeAfterFlush == old(closeAfterFlush)
        invariant done ==> d == Drained(s', readBuf, ran, replies, d.closing)
        invariant done ==> closeAfterFlush == (old(closeAfterFlush) || d.closing)
        invariant produced == old(produced) + WriteAll(replies)
        decreases !done, |readBuf|
      {
        ghost var moreRan, moreReplies;
        s', done, moreRan, moreReplies := DrainOne(step, s');
        WriteAllAppend(replies, moreReplies);
        Assoc(old(produced), WriteAll(replies), WriteAll(moreReplies));
        ThenThen(ran, moreRan, replies, moreReplies, Drain(step, s', readBuf));
        ran, replies := ran + moreRan, replies + moreReplies;
      }
    }

    /** One turn of the loop; `done` is the `break`. */
    method DrainOne<S>(step: Dispatch<S>, s: S)
      returns (s': S, done: bool, ghost ran: seq<Args>, ghost replies: seq<Reply>)
      requires Valid()
      modifies this`readBuf, this`writeBuf, this`closeAfterFlush, this`produced
      ensures Valid() && produced == old(produced) + WriteAll(replies)
      ensures var whole := Drain(step, s, old(readBuf));
              if done
              then whole == Drained(s', readBuf, ran, replies, whole.closing)
                   && closeAfterFlush == (old(closeAfterFlush) || whole.closing)
              else whole == Then(ran, replies, Drain(step, s', readBuf))
                   && |readBuf| < |old(readBuf)| && closeAfterFlush == old(closeAfterFlush)
    {
      CommandProgress(readBuf);
      s', done, ran, replies := s, true, [], [];
      assert produced + [] == produced;
      match ParseCommand(readBuf) {
        case Incomplete =>
        case Invalid(why) =>
          Append(ProtocolError(why));
          replies := Single(ProtocolError(why));
          closeAfterFlush := true;
        case Complete(args, consumed) =>
          readBuf := readBuf[consumed..];
          done := false;
          if args != [] {
            var (next, reply) := step(s, args);
            s' := next;
            Append(reply);
            ran, replies := [args], Single(reply);
            if IsQuit(args) {
              closeAfterFlush, done := true, true;
            }
          }
      }
    }

    static ghost function Single(r: Reply): (rs: seq<Reply>)
      ensures rs == [r] && WriteAll(rs) == Write(r)
    {
      assert Write(r) + [] == Write(r);
      [r]
    }

    /** `reply.write_to(&mut conn.write_buf)`. */
    method Append(r: Reply)
      requires Valid()
      modifies this`writeBuf, this`produced
      ensures Valid() && produced == old(produced) + Write(r)
    {
      var grown := WriteTo(r, writeBuf);
      assert grown[writePos..] == writeBuf[writePos..] + Write(r);
      Assoc(sent, Unsent(), Write(r));
      writeBuf := grown;
      produced := produced + Write(r);
    }

    /** One readable wakeup; `owed` is what it had to write when it got to writing. */
    method ServiceConnection<S>(step: Dispatch<S>, s: S, incoming: seq<ReadResult>, outgoing: seq<WriteResult>)
      returns (keep: bool, s': S, ghost d: Drained<S>, ghost verdict: Verdict, ghost owed: nat)
      requires Valid()
      modifies this
      ensures Valid() && keep == (verdict == Kept)
      ensures wantWrite == old(wantWrite)
      ensures Received(incoming).None? ==>
                verdict == PeerGone && s' == s && produced == old(produced) && closeAfterFlush == old(closeAfterFlush)
      ensures Received(incoming).Some? ==>
                && d == Drain(step, s, old(readBuf) + Received(incoming).value)
                && s' == d.state && readBuf == d.rest
                && produced == old(produced) + WriteAll(d.replies)
                && closeAfterFlush == (old(closeAfterFlush) || d.closing)
                && owed == |old(Unsent())| + |WriteAll(d.replies)| && verdict == Fate(owed, outgoing, closeAfterFlush)
      ensures verdict == Kept ==> Bounded() && (closeAfterFlush ==> sent < produced)
      ensures verdict == ClosedByRequest ==> closeAfterFlush && sent == produced
      ensures old(sent) <= sent && |sent| == |old(sent)| + Paid(verdict, owed, outgoing)
    {
      owed := 0;
      var open := ReadAvailable(incoming);
      if !open {
        return false, s, Fresh(s), PeerGone, owed;
      }
      s', d := DrainCommands(step, s);
      owed := |Unsent()|;
      Ledger(old(sent), old(Unsent()), old(produced), Unsent(), produced, WriteAll(d.replies));
      keep, verdict := Settle(outgoing);
    }

    static lemma Ledger(sent: seq<byte>, unsent: seq<byte>, produced: seq<byte>, unsent': seq<byte>,
                        produced': seq<byte>, more: seq<byte>)
      requires sent + unsent == produced && sent + unsent' == produced' && produced' == produced + more
      ensures |unsent'| == |unsent| + |more|
    {
      assert |sent + unsent'| == |sent| + |unsent| + |more|;
    }

    /** The end of a readable wakeup: give up on a peer that is too far behind, otherwise flush. */
    method Settle(outgoing: seq<WriteResult>) returns (keep: bool, ghost verdict: Verdict)
      requires Valid()
      modifies this`writeBuf, this`writePos, this`sent
      ensures Valid() && keep == (verdict == Kept) && old(sent) <= sent
      ensures verdict == Fate(|old(Unsent())|, outgoing, closeAfterFlush)
      ensures |sent| == |old(sent)| + Paid(verdict, |old(Unsent())|, outgoing)
      ensures verdict == Kept ==> Bounded() && (closeAfterFlush ==> sent < produced)
      ensures verdict == ClosedByRequest ==> closeAfterFlush && sent == produced
    {
      if |writeBuf| - writePos > MAX_PENDING_WRITE_BYTES {
        return false, TooFarBehind;
      }
      keep, verdict := FlushAndDecide(outgoing);
    }

    /** Flush, then keep unless the socket failed or a requested close has been fully answered. */
    method FlushAndDecide(outgoing: seq<WriteResult>) returns (keep: bool, ghost verdict: Verdict)
      requires Valid() && |Unsent()| <= MAX_PENDING_WRITE_BYTES
      modifies this`writeBuf, this`writePos, this`sent
      ensures Valid() && keep == (verdict == Kept) && old(sent) <= sent
      ensures var flow := Flow(|old(Unsent())|, outgoing);
              verdict == Decide(flow.0, closeAfterFlush) && |sent| == |old(sent)| + flow.1
      ensures verdict == Kept ==> Bounded() && (closeAfterFlush ==> sent < produced)
      ensures verdict == ClosedByRequest ==> closeAfterFlush && sent == produced
    {
      var outcome := FlushWrites(outgoing);
      match outcome {
        case Flushed => keep := !closeAfterFlush;
        case Pending => keep := true;
        case Failed => keep := false;
      }
      verdict := Decide(outcome, closeAfterFlush);
    }

    /** Keep the poll registration in step with whether bytes are owed; re-registration may fail. */
    method ReconcileInterest(reregisterOk: bool)
      requires Valid()
      modifies this`wantWrite
      ensures reregisterOk ==> (wantWrite <==> Unsent() != [])
      ensures !reregisterOk ==> wantWrite == old(wantWrite)
    {
      var needsWrite := writePos < |writeBuf|;
      if needsWrite != wantWrite && reregisterOk {
        wantWrite := needsWrite;
      }
    }
  }

  datatype Event =
    | Readable(incoming: seq<ReadResult>, outgoing: seq<WriteResult>)
    | Writable(outgoing: seq<WriteResult>)

  /** What one event delivers. */
  function Got(event: Event): Option<seq<byte>> {
    if event.Readable? then Received(event.incoming) else None
  }

  function ArrivedIn(event: Event): seq<seq<byte>> {
    if Got(event).Some? then [Got(event).value] else []
  }

  /** The reads that the readable events of a run deliver, in order. */
  function Arrived(events: seq<Event>): seq<seq<byte>> {
    if events == [] then [] else Arrived(events[..|events| - 1]) + ArrivedIn(events[|events| - 1])
  }

  lemma {:induction false} ArrivedAppend(a: seq<Event>, b: seq<Event>)
    ensures Arrived(a + b) == Arrived(a) + Arrived(b)
    decreases b
  {
    if b == [] {
      assert a + b == a && Arrived(a) + [] == Arrived(a);
    } else {
      var init, last := b[..|b| - 1], ArrivedIn(b[|b| - 1]);
      assert (a + b)[..|a + b| - 1] == a + init;
      ArrivedAppend(a, init);
      assert Arrived(a) + Arrived(init) + last == Arrived(a) + (Arrived(init) + last);
    }
  }

  /** What one more event changes for the reference server: only delivered bytes matter. */
  ghost function Turn<S>(step: Dispatch<S>, d: Drained<S>, event: Event): Drained<S> {
    if Got(event).None? then d else Follow(d, Drain(step, d.state, d.rest + Got(event).value))
  }

  lemma ServeEvent<S>(step: Dispatch<S>, s: S, events: seq<Event>, n: nat)
    requires n < |events|
    ensures Serve(step, s, Arrived(events[..n + 1])) == Turn(step, Serve(step, s, Arrived(events[..n])), events[n])
  {
    var before, event := events[..n], events[n];
    assert events[..n + 1][..n] == before;
    if Got(event).None? {
      assert Arrived(before) + [] == Arrived(before);
    } else {
      ServeTurn(step, s, Arrived(before), Got(event).value);
    }
  }

  /** The connection has produced exactly what the reference server owes for what arrived. */
  ghost predicate InStep<S>(conn: Conn, s: S, d: Drained<S>, verdict: Verdict)
    reads conn
  {
    && conn.Valid() && s == d.state && conn.closeAfterFlush == d.closing
    && conn.produced == WriteAll(d.replies)
    && (verdict != PeerGone ==> conn.readBuf == d.rest)
    && (verdict == Kept ==> conn.Bounded() && (conn.wantWrite <==> conn.Unsent() != []))
    && (verdict == Kept && d.closing ==> conn.Unsent() != [])
    && (verdict == ClosedByRequest ==> d.closing && conn.sent == WriteAll(d.replies))
  }

  /** The reply bytes that an event adds to what is owed. */
  function Added<S>(step: Dispatch<S>, d: Drained<S>, event: Event): nat {
    if Got(event).None? then 0 else |WriteAll(Drain(step, d.state, d.rest + Got(event).value).replies)|
  }

  /** What an event comes to for a connection that then has `owed` bytes to write. */
  function Rule(event: Event, closing: bool, owed: nat): Verdict {
    if event.Writable? then Decide(Flow(owed, event.outgoing).0, closing)
    else if Received(event.incoming).None? then PeerGone
    else Fate(owed, event.outgoing, closing)
  }

  /** What an event comes to for a connection that owes `owed` bytes before it. */
  ghost function Ruling<S>(step: Dispatch<S>, d: Drained<S>, owed: nat, event: Event): Verdict {
    Rule(event, Turn(step, d, event).closing, owed + Added(step, d, event))
  }

  /** And how many bytes it sends. */
  ghost function Sending<S>(step: Dispatch<S>, d: Drained<S>, owed: nat, event: Event): (n: nat)
    ensures n <= owed + Added(step, d, event)
  {
    Paid(Ruling(step, d, owed, event), owed + Added(step, d, event), event.outgoing)
  }

  /** A run so far: the reference server, the bytes owed, the latest verdict, and the events taken. */
  datatype Ride<S> = Ride(d: Drained<S>, owed: nat, verdict: Verdict, seen: nat)

  ghost function RideOf<S>(step: Dispatch<S>, s: S, events: seq<Event>): Ride<S> {
    if events == [] then Ride(Fresh(s), 0, Kept, 0)
    else
      var r, last := RideOf(step, s, events[..|events| - 1]), events[|events| - 1];
      if r.verdict != Kept then r else RideTurn(step, r, last)
  }

  ghost function RideTurn<S>(step: Dispatch<S>, r: Ride<S>, event: Event): Ride<S> {
    Ride(Turn(step, r.d, event), r.owed + Added(step, r.d, event) - Sending(step, r.d, r.owed, event),
         Ruling(step, r.d, r.owed, event), r.seen + 1)
  }

  lemma RideNext<S>(step: Dispatch<S>, s: S, events: seq<Event>, n: nat)
    requires n < |events| && RideOf(step, s, events[..n]).verdict == Kept
    ensures RideOf(step, s, events[..n + 1]) == RideTurn(step, RideOf(step, s, events[..n]), events[n])
  {
    assert events[..n + 1][..n] == events[..n];
  }

  /** A dropped connection takes no further events. */
  lemma {:induction false} RideStops<S>(step: Dispatch<S>, s: S, events: seq<Event>, n: nat)
    requires n <= |events| && (n == |events| || RideOf(step, s, events[..n]).verdict != Kept)
    ensures RideOf(step, s, events) == RideOf(step, s, events[..n])
    decreases |events|
  {
    if n == |events| {
      assert events[..n] == events;
    } else {
      var init := events[..|events| - 1];
      assert init[..n] == events[..n];
      RideStops(step, s, init, n);
    }
  }

  lemma RideHolds<S>(step: Dispatch<S>, s: S, events: seq<Event>, n: nat)
    requires n < |events| && RideOf(step, s, events[..n]).verdict != Kept
    ensures RideOf(step, s, events[..n + 1]) == RideOf(step, s, events[..n])
  {
    assert events[..n + 1][..n] == events[..n];
  }

  ghost predicate Serves<S>(step: Dispatch<S>, s: S, events: seq<Event>, r: Ride<S>) {
    r.seen <= |events| && r.d == Serve(step, s, Arrived(events[..r.seen]))
  }

  lemma ServesTurn<S>(step: Dispatch<S>, s: S, events: seq<Event>, r: Ride<S>)
    requires Serves(step, s, events, r) && r.seen < |events|
    ensures Serves(step, s, events, RideTurn(step, r, events[r.seen]))
  {
    ServeEvent(step, s, events, r.seen);
  }

  ghost predicate ServedAt<S>(step: Dispatch<S>, s: S, events: seq<Event>, n: nat)
    requires n <= |events|
  {
    var r := RideOf(step, s, events[..n]);
    Serves(step, s, events, r) && r.seen <= n && (r.verdict == Kept ==> r.seen == n)
  }

  lemma ServedFirst<S>(step: Dispatch<S>, s: S, events: seq<Event>)
    ensures ServedAt(step, s, events, 0)
  {
    assert events[..0] == [];
  }

  lemma ServedNext<S>(step: Dispatch<S>, s: S, events: seq<Event>, n: nat)
    requires n < |events| && ServedAt(step, s, events, n)
    ensures ServedAt(step, s, events, n + 1)
  {
    var r := RideOf(step, s, events[..n]);
    if r.verdict == Kept {
      RideNext(step, s, events, n);
      ServesTurn(step, s, events, r);
    } else {
      RideHolds(step, s, events, n);
    }
  }

  /** The reference server of a run has served what the events taken delivered. */
  lemma {:induction false} RideServes<S>(step: Dispatch<S>, s: S, events: seq<Event>, n: nat)
    requires n <= |events|
    ensures ServedAt(step, s, events, n)
  {
    if n == 0 {
      ServedFirst(step, s, events);
    } else {
      RideServes(step, s, events, n - 1);
      ServedNext(step, s, events, n - 1);
    }
  }

  lemma RuleOfRead(event: Event, closing: bool, owed: nat)
    requires event.Readable? && Received(event.incoming).Some?
    ensures Rule(event, closing, owed) == Fate(owed, event.outgoing, closing)
  {}

  lemma RulingFrom<S>(step: Dispatch<S>, d: Drained<S>, owed: nat, event: Event, closing: bool, now: nat,
                      verdict: Verdict)
    requires event.Readable? && Received(event.incoming).Some?
    requires Turn(step, d, event).closing == closing && owed + Added(step, d, event) == now
    requires verdict == Fate(now, event.outgoing, closing)
    ensures Ruling(step, d, owed, event) == verdict
  {
    RuleOfRead(event, closing, now);
  }

  lemma SendingFrom<S>(step: Dispatch<S>, d: Drained<S>, owed: nat, event: Event, now: nat, verdict: Verdict)
    requires owed + Added(step, d, event) == now && Ruling(step, d, owed, event) == verdict
    ensures Sending(step, d, owed, event) == Paid(verdict, now, event.outgoing)
  {}

  /** What a read comes to, given what draining it does. */
  lemma RulingOfRead<S>(step: Dispatch<S>, d: Drained<S>, owed: nat, now: nat, event: Event, e: Drained<S>,
                        verdict: Verdict, paid: nat)
    requires event.Readable? && Received(event.incoming).Some?
    requires e == Drain(step, d.state, d.rest + Received(event.incoming).value)
    requires now == owed + |WriteAll(e.replies)| && verdict == Fate(now, event.outgoing, d.closing || e.closing)
    requires paid == Paid(verdict, now, event.outgoing)
    ensures Turn(step, d, event) == Follow(d, e)
    ensures Ruling(step, d, owed, event) == verdict && Sending(step, d, owed, event) == paid
  {
    TurnOfRead(step, d, event, e);
    RulingFrom(step, d, owed, event, d.closing || e.closing, now, verdict);
    SendingFrom(step, d, owed, event, now, verdict);
  }

  lemma TurnOfRead<S>(step: Dispatch<S>, d: Drained<S>, event: Event, e: Drained<S>)
    requires Got(event).Some? && e == Drain(step, d.state, d.rest + Got(event).value)
    ensures Turn(step, d, event) == Follow(d, e) && Added(step, d, event) == |WriteAll(e.replies)|
  {}

  lemma RulingOfEnd<S>(step: Dispatch<S>, d: Drained<S>, owed: nat, event: Event)
    requires event.Readable? && Received(event.incoming).None?
    ensures Turn(step, d, event) == d && Ruling(step, d, owed, event) == PeerGone && Sending(step, d, owed, event) == 0
  {}

  /**
   * Why an event keeps or drops a connection, by the scripts alone: `owed` bytes to write by then,
   * and a close asked for or not. 64 MiB is the most that may wait.
   */
  ghost predicate Why(event: Event, owed: nat, closing: bool, verdict: Verdict) {
    var gone := event.Readable? && Ends(event.incoming);
    var behind := event.Readable? && !gone && owed > 67_108_864;
    var breaks, blocks := Breaks(owed, event.outgoing), Blocks(owed, event.outgoing);
    match verdict
    case PeerGone => gone
    case TooFarBehind => behind
    case BrokenPipe => !gone && !behind && breaks
    case ClosedByRequest => !gone && !behind && !breaks && !blocks && closing
    case Kept => !gone && !behind && !breaks && (blocks || !closing)
  }

  lemma RuleIsWhy(event: Event, owed: nat, closing: bool, verdict: Verdict)
    ensures Rule(event, closing, owed) == verdict <==> Why(event, owed, closing, verdict)
  {
    FlushEnds(owed, event.outgoing);
    if event.Readable? {
      GoneMeansEnds(event.incoming);
    }
  }

  /** Why a turn of a run comes to its verdict. */
  ghost predicate WhyTurn<S>(step: Dispatch<S>, r: Ride<S>, event: Event, verdict: Verdict) {
    Why(event, r.owed + Added(step, r.d, event), Turn(step, r.d, event).closing, verdict)
  }

  lemma TurnIsWhy<S>(step: Dispatch<S>, r: Ride<S>, event: Event, verdict: Verdict)
    ensures RideTurn(step, r, event).verdict == verdict <==> WhyTurn(step, r, event, verdict)
  {
    RuleIsWhy(event, r.owed + Added(step, r.d, event), Turn(step, r.d, event).closing, verdict);
  }

  /** Event `n` finds the connection kept, and this is its verdict. */
  ghost predicate WhyAt<S>(step: Dispatch<S>, s: S, events: seq<Event>, n: nat, verdict: Verdict)
    requires n < |events|
  {
    var r := RideOf(step, s, events[..n]);
    r.verdict == Kept && WhyTurn(step, r, events[n], verdict)
  }

  lemma RideWhenKept<S>(step: Dispatch<S>, s: S, events: seq<Event>, n: nat)
    requires n < |events| && RideOf(step, s, events[..n]).verdict == Kept
    ensures var r, r' := RideOf(step, s, events[..n]), RideOf(step, s, events[..n + 1]);
            r' == RideTurn(step, r, events[n]) && r'.seen == n + 1
  {
    RideServes(step, s, events, n);
    RideNext(step, s, events, n);
  }

  /** The first event with a reason to drop the connection does drop it, and for that reason. */
  lemma DroppedForAReason<S>(step: Dispatch<S>, s: S, events: seq<Event>, n: nat, verdict: Verdict)
    requires n < |events| && verdict != Kept && WhyAt(step, s, events, n, verdict)
    ensures RideOf(step, s, events).verdict == verdict && RideOf(step, s, events).seen == n + 1
  {
    TurnIsWhy(step, RideOf(step, s, events[..n]), events[n], verdict);
    RideWhenKept(step, s, events, n);
    RideStops(step, s, events, n + 1);
  }

  lemma DroppedNow<S>(step: Dispatch<S>, s: S, events: seq<Event>, n: nat)
    requires n < |events| && RideOf(step, s, events[..n]).verdict == Kept
    ensures var r := RideOf(step, s, events[..n + 1]); r.seen == n + 1 && WhyAt(step, s, events, n, r.verdict)
  {
    RideWhenKept(step, s, events, n);
    TurnIsWhy(step, RideOf(step, s, events[..n]), events[n], RideOf(step, s, events[..n + 1]).verdict);
  }

  lemma NewIsKept<S>(step: Dispatch<S>, s: S, events: seq<Event>)
    ensures RideOf(step, s, events[..0]).verdict == Kept
  {
    assert events[..0] == [];
  }

  /** And a connection is only ever dropped like that: event `m` dropped this one. */
  lemma {:induction false} EveryDropHasAReason<S>(step: Dispatch<S>, s: S, events: seq<Event>, n: nat) returns (m: nat)
    requires n <= |events| && RideOf(step, s, events[..n]).verdict != Kept
    ensures m < n && RideOf(step, s, events[..n]).seen == m + 1
    ensures WhyAt(step, s, events, m, RideOf(step, s, events[..n]).verdict)
  {
    NewIsKept(step, s, events);
    m := 0;
    if n > 0 {
      if RideOf(step, s, events[..n - 1]).verdict == Kept {
        m := n - 1;
        DroppedNow(step, s, events, m);
      } else {
        RideHolds(step, s, events, n - 1);
        m := EveryDropHasAReason(step, s, events, n - 1);
      }
    }
  }

  /** The connection is dropped by the first event with a reason to, and by nothing else. */
  ghost predicate Reasoned<S>(step: Dispatch<S>, s: S, events: seq<Event>, verdict: Verdict, seen: nat) {
    && (verdict != Kept ==> 0 < seen <= |events| && WhyAt(step, s, events, seen - 1, verdict))
    && forall n, why :: 0 <= n < |events| && why != Kept && WhyAt(step, s, events, n, why) ==>
         verdict == why && seen == n + 1
  }

  lemma RunIsReasoned<S>(step: Dispatch<S>, s: S, events: seq<Event>)
    ensures Reasoned(step, s, events, RideOf(step, s, events).verdict, RideOf(step, s, events).seen)
  {
    assert events[..|events|] == events;
    if RideOf(step, s, events).verdict != Kept {
      var m := EveryDropHasAReason(step, s, events, |events|);
    }
    forall n, why | 0 <= n < |events| && why != Kept && WhyAt(step, s, events, n, why)
      ensures RideOf(step, s, events).verdict == why && RideOf(step, s, events).seen == n + 1
    {
      DroppedForAReason(step, s, events, n, why);
    }
  }

  /** The connection is where the run leaves it. */
  ghost predicate Rides<S>(conn: Conn, s: S, r: Ride<S>)
    reads conn
  {
    InStep(conn, s, r.d, r.verdict) && |conn.Unsent()| == r.owed
  }

  /**
   * Any run of wakeups on a new connection, until it is dropped or the events run out. The scripts
   * determine it all: when it is dropped and why, what it has served, and what it still owes.
   */
  method Run<S>(step: Dispatch<S>, s: S, events: seq<Event>)
    returns (conn: Conn, s': S, alive: bool, seen: nat, ghost verdict: Verdict)
    ensures var r := RideOf(step, s, events);
            && verdict == r.verdict && seen == r.seen && alive == (verdict == Kept)
            && Rides(conn, s', r)
    ensures seen <= |events| && (alive ==> seen == |events|)
    ensures InStep(conn, s', Serve(step, s, Arrived(events[..seen])), verdict)
    ensures Reasoned(step, s, events, verdict, seen)
  {
    conn := new Conn();
    s', alive, seen, verdict := s, true, 0, Kept;
    assert events[..0] == [];
    while seen < |events| && alive
      invariant fresh(conn) && seen <= |events| && alive == (verdict == Kept)
      invariant Rides(conn, s', RideOf(step, s, events[..seen]))
      invariant RideOf(step, s, events[..seen]).verdict == verdict && RideOf(step, s, events[..seen]).seen == seen
      decreases |events| - seen
    {
      RideNext(step, s, events, seen);
      s', alive, verdict := Wakeup(conn, step, s', events[seen], RideOf(step, s, events[..seen]));
      seen := seen + 1;
    }
    RideStops(step, s, events, seen);
    RideServes(step, s, events, seen);
    RunIsReasoned(step, s, events);
  }

  /** One wakeup, on a connection about to close or not, is one turn of the run. */
  method Wakeup<S>(conn: Conn, step: Dispatch<S>, s: S, event: Event, ghost r: Ride<S>)
    returns (s': S, alive: bool, ghost verdict: Verdict)
    requires r.verdict == Kept && Rides(conn, s, r)
    modifies conn
    ensures alive == (verdict == Kept) && verdict == RideTurn(step, r, event).verdict
    ensures Rides(conn, s', RideTurn(step, r, event))
  {
    match event {
      case Readable(incoming, outgoing) =>
        ghost var paid;
        s', alive, verdict, paid := WakeReadable(conn, step, s, event, r.d);
      case Writable(outgoing) => s', alive, verdict := WakeWritable(conn, step, s, event, r.d);
    }
    TurnGrows(step, r.d, event);
    assert |conn.produced| == |conn.sent| + |conn.Unsent()|;
  }

  method WakeReadable<S>(conn: Conn, step: Dispatch<S>, s: S, event: Event, ghost d: Drained<S>)
    returns (s': S, alive: bool, ghost verdict: Verdict, ghost paid: nat)
    requires event.Readable? && InStep(conn, s, d, Kept)
    modifies conn
    ensures alive == (verdict == Kept) && verdict == Ruling(step, d, |old(conn.Unsent())|, event)
    ensures InStep(conn, s', Turn(step, d, event), verdict)
    ensures |conn.sent| == |old(conn.sent)| + paid && paid == Sending(step, d, |old(conn.Unsent())|, event)
  {
    ghost var e, owed, before := d, 0, |conn.Unsent()|;
    alive, s', e, verdict, owed := conn.ServiceConnection(step, s, event.incoming, event.outgoing);
    paid := |conn.sent| - |old(conn.sent)|;
    if Received(event.incoming).Some? {
      WriteAllAppend(d.replies, e.replies);
      RulingOfRead(step, d, before, owed, event, e, verdict, paid);
    } else {
      RulingOfEnd(step, d, before, event);
    }
    if alive {
      conn.ReconcileInterest(true);
    }
  }

  method WakeWritable<S>(conn: Conn, step: Dispatch<S>, s: S, event: Event, ghost d: Drained<S>)
    returns (s': S, alive: bool, ghost verdict: Verdict)
    requires event.Writable? && InStep(conn, s, d, Kept)
    modifies conn
    ensures alive == (verdict == Kept) && verdict == Ruling(step, d, |old(conn.Unsent())|, event)
    ensures InStep(conn, s', Turn(step, d, event), verdict)
    ensures |conn.sent| == |old(conn.sent)| + Sending(step, d, |old(conn.Unsent())|, event)
  {
    s' := s;
    alive, verdict := conn.FlushAndDecide(event.outgoing);
    if alive {
      conn.ReconcileInterest(true);
    }
  }

  // ------------------------------------------------------------ healthy sockets

  /** No write of the script fails. */
  ghost predicate Healthy(script: seq<WriteResult>) {
    forall i :: 0 <= i < |script| ==> !script[i].WriteFailed? && script[i] != Took(0)
  }

  /** The peer stays, and nothing fails. */
  ghost predicate Fine(event: Event) {
    Healthy(event.outgoing) && (event.Readable? ==> Received(event.incoming).Some?)
  }

  ghost predicate AllFine(events: seq<Event>) { forall i :: 0 <= i < |events| ==> Fine(events[i]) }

  lemma {:induction false} HealthyNeverFails(owed: nat, script: seq<WriteResult>)
    requires Healthy(script)
    ensures Flow(owed, script).0 != Failed
    decreases script
  {
    if owed > 0 && script != [] && !script[0].WriteWouldBlock? {
      assert Healthy(script[1..]);
      if script[0].Interrupted? {
        HealthyNeverFails(owed, script[1..]);
      } else {
        HealthyNeverFails(owed - if script[0].n <= owed then script[0].n else owed, script[1..]);
      }
    }
  }

  /** What a turn adds to the replies, and that a close once requested stays requested. */
  lemma TurnGrows<S>(step: Dispatch<S>, d: Drained<S>, event: Event)
    ensures var d' := Turn(step, d, event);
            (d.closing ==> d'.closing) && |WriteAll(d'.replies)| == |WriteAll(d.replies)| + Added(step, d, event)
  {
    if Got(event).Some? {
      WriteAllAppend(d.replies, Drain(step, d.state, d.rest + Got(event).value).replies);
    }
  }

  lemma FineTurn<S>(step: Dispatch<S>, r: Ride<S>, event: Event)
    requires r.verdict == Kept && Fine(event) && r.owed <= |WriteAll(r.d.replies)|
    requires var d' := Turn(step, r.d, event); !d'.closing && |WriteAll(d'.replies)| <= MAX_PENDING_WRITE_BYTES
    ensures var r' := RideTurn(step, r, event); r'.verdict == Kept && r'.owed <= |WriteAll(r'.d.replies)|
  {
    TurnGrows(step, r.d, event);
    HealthyNeverFails(r.owed + Added(step, r.d, event), event.outgoing);
  }

  /** The whole run leaves the connection open, and what it answers in all fits in 64 MiB. */
  ghost predicate Modest<S>(step: Dispatch<S>, s: S, events: seq<Event>) {
    var d := Serve(step, s, Arrived(events));
    !d.closing && |WriteAll(d.replies)| <= MAX_PENDING_WRITE_BYTES
  }

  lemma ModestBefore<S>(step: Dispatch<S>, s: S, events: seq<Event>, n: nat)
    requires n < |events| && Modest(step, s, events[..n + 1])
    ensures Modest(step, s, events[..n])
  {
    ServeEvent(step, s, events, n);
    TurnGrows(step, Serve(step, s, Arrived(events[..n])), events[n]);
  }

  lemma FineNext<S>(step: Dispatch<S>, s: S, events: seq<Event>, r: Ride<S>)
    requires r.verdict == Kept && r.seen < |events| && Serves(step, s, events, r) && Fine(events[r.seen])
    requires r.owed <= |WriteAll(r.d.replies)| && Modest(step, s, events[..r.seen + 1])
    ensures var r' := RideTurn(step, r, events[r.seen]); r'.verdict == Kept && r'.owed <= |WriteAll(r'.d.replies)|
  {
    ServeEvent(step, s, events, r.seen);
    FineTurn(step, r, events[r.seen]);
  }

  /** On healthy sockets a connection that owes at most 64 MiB in all, and is not asked to close, is kept. */
  lemma {:induction false} FineRunKeeps<S>(step: Dispatch<S>, s: S, events: seq<Event>, n: nat)
    requires n <= |events| && AllFine(events) && Modest(step, s, events[..n])
    ensures var r := RideOf(step, s, events[..n]); r.verdict == Kept && r.owed <= |WriteAll(r.d.replies)|
  {
    if n == 0 {
      assert events[..0] == [];
    } else {
      ModestBefore(step, s, events, n - 1);
      FineRunKeeps(step, s, events, n - 1);
      RideServes(step, s, events, n - 1);
      RideNext(step, s, events, n - 1);
      FineNext(step, s, events, RideOf(step, s, events[..n - 1]));
    }
  }

  /**
   * A pipeline over any sockets: a kept connection has run it exactly and owes or sent its answers.
   * It is kept when the run says so; on healthy sockets, whenever the answers fit in 64 MiB.
   */
  method RunPipeline<S>(step: Dispatch<S>, s: S, ghost cmds: seq<Args>, events: seq<Event>)
    returns (conn: Conn, alive: bool)
    requires forall i :: 0 <= i < |cmds| ==> Ordinary(cmds[i])
    requires forall i :: 0 <= i < |cmds| ==> WellFormed(Answers(step, s, cmds)[i], 0)
    requires Concat(Arrived(events)) == EncodeAll(cmds)
    ensures conn.Valid() && (alive <==> RideOf(step, s, events).verdict == Kept)
    ensures alive ==>
              && !conn.closeAfterFlush && conn.readBuf == []
              && DecodeAll(conn.sent + conn.Unsent()) == Some(Answers(step, s, cmds))
    ensures AllFine(events) && |WriteAll(Answers(step, s, cmds))| <= MAX_PENDING_WRITE_BYTES ==> alive
  {
    ghost var verdict;
    var s', seen;
    conn, s', alive, seen, verdict := Run(step, s, events);
    assert alive ==> events[..seen] == events;
    PipelineIsSequential(step, s, cmds, Arrived(events));
    DecodeAllWritten(Answers(step, s, cmds));
    if AllFine(events) && |WriteAll(Answers(step, s, cmds))| <= MAX_PENDING_WRITE_BYTES {
      assert events[..|events|] == events;
      FineRunKeeps(step, s, events, |events|);
    }
  }

  lemma ArrivedPrefix(events: seq<Event>, n: nat)
    requires n <= |events|
    ensures Concat(Arrived(events[..n])) <= Concat(Arrived(events))
  {
    var a, b := events[..n], events[n..];
    assert a + b == events;
    ArrivedAppend(a, b);
    ConcatAppend(Arrived(a), Arrived(b));
  }

  /**
   * A pipeline that ends in QUIT over any sockets: a connection closed on request has sent exactly
   * the answers, QUIT's included, and one still kept at the end owes or sent them.
   */
  method RunPipelineToQuit<S>(step: Dispatch<S>, s: S, ghost cmds: seq<Args>, ghost quit: Args, events: seq<Event>)
    returns (conn: Conn, alive: bool, ghost verdict: Verdict)
    requires (forall i :: 0 <= i < |cmds| ==> Ordinary(cmds[i])) && Quits(quit)
    requires forall i :: 0 <= i <= |cmds| ==> WellFormed(Answers(step, s, cmds + [quit])[i], 0)
    requires Concat(Arrived(events)) == EncodeAll(cmds) + Encode(quit)
    ensures conn.Valid() && alive == (verdict == Kept) && verdict == RideOf(step, s, events).verdict
    ensures verdict == ClosedByRequest ==> DecodeAll(conn.sent) == Some(Answers(step, s, cmds + [quit]))
    ensures alive ==>
              && conn.closeAfterFlush && conn.readBuf == [] && conn.Unsent() != []
              && DecodeAll(conn.sent + conn.Unsent()) == Some(Answers(step, s, cmds + [quit]))
  {
    var s', seen;
    conn, s', alive, seen, verdict := Run(step, s, events);
    assert alive ==> events[..seen] == events;
    QuitDecodes(step, s, cmds, quit, events, seen);
  }

  lemma QuitDecodes<S>(step: Dispatch<S>, s: S, cmds: seq<Args>, quit: Args, events: seq<Event>, n: nat)
    requires (forall i :: 0 <= i < |cmds| ==> Ordinary(cmds[i])) && Quits(quit)
    requires forall i :: 0 <= i <= |cmds| ==> WellFormed(Answers(step, s, cmds + [quit])[i], 0)
    requires Concat(Arrived(events)) == EncodeAll(cmds) + Encode(quit) && n <= |events|
    ensures var d := Serve(step, s, Arrived(events[..n]));
            && (n == |events| ==> d.closing)
            && (d.closing ==> d.rest == [] && DecodeAll(WriteAll(d.replies)) == Some(Answers(step, s, cmds + [quit])))
  {
    ArrivedPrefix(events, n);
    assert n == |events| ==> events[..n] == events;
    PipelineToQuit(step, s, cmds, quit, Arrived(events[..n]));
    DecodeAllWritten(Answers(step, s, cmds + [quit]));
  }

  /**
   * "Stop after QUIT" is a promise about one wakeup. On any connection, whatever is in its buffer
   * and whatever it owes: after a wakeup that requested a close, the next one runs what was left
   * behind and what arrives, exactly when the bytes then owed could not all be written at once.
   */
  method QuitStopsUnlessBlocked<S>(conn: Conn, step: Dispatch<S>, s: S, incoming: seq<ReadResult>,
                                outgoing: seq<WriteResult>,
                                   later: seq<ReadResult>, outgoing': seq<WriteResult>)
    returns (kept: bool, ghost ran: seq<Args>, ghost d: Drained<S>, ghost owed: nat)
    requires conn.Valid() && Received(incoming).Some? && Drain(step, s, conn.readBuf + Received(incoming).value).closing
    modifies conn
    ensures d == Drain(step, s, old(conn.readBuf) + Received(incoming).value)
    ensures owed == |old(conn.Unsent())| + |WriteAll(d.replies)|
    ensures kept <==> owed <= MAX_PENDING_WRITE_BYTES && Flow(owed, outgoing).0 == Pending
    ensures ran == d.ran + if kept && Received(later).Some?
                           then Drain(step, d.state, d.rest + Received(later).value).ran else []
  {
    var s';
    ghost var verdict;
    kept, s', d, verdict, owed := conn.ServiceConnection(step, s, incoming, outgoing);
    KeptWhileClosing(owed, outgoing);
    ran := d.ran;
    assert ran + [] == ran;
    if kept {
      var again;
      ghost var e, owing;
      again, s', e, verdict, owing := conn.ServiceConnection(step, s', later, outgoing');
      ran := ran + if Received(later).Some? then e.ran else [];
    }
  }

  lemma KeptWhileClosing(owed: nat, outgoing: seq<WriteResult>)
    ensures Fate(owed, outgoing, true) == Kept <==> owed <= MAX_PENDING_WRITE_BYTES && Flow(owed, outgoing).0 == Pending
  {}

  /**
   * For encoded traffic: commands in front of QUIT run with it, what is behind it stays in the
   * buffer, and once the rest of it has arrived the next drain runs it all.
   */
  lemma AroundQuit<S>(step: Dispatch<S>, s: S, cmds: seq<Args>, quit: Args, later: seq<Args>, tail: seq<byte>,
                      got: seq<byte>)
    requires (forall i :: 0 <= i < |cmds| ==> Ordinary(cmds[i])) && Quits(quit)
    requires (forall i :: 0 <= i < |later| ==> Ordinary(later[i])) && tail + got == EncodeAll(later)
    ensures var d := Drain(step, s, EncodeAll(cmds) + (Encode(quit) + tail));
            && d == Quitted(step, s, cmds + [quit], tail)
            && Drain(step, d.state, d.rest + got).ran == later
  {
    DrainThroughQuit(step, s, cmds, quit, tail);
    DrainCut(step, StateAfter(step, s, cmds + [quit]), later, |EncodeAll(later)|);
    assert EncodeAll(later)[..|EncodeAll(later)|] == tail + got;
  }
}

/** The blocking loopback client: one socket, one request in flight, one retry. */
module Client {
  import opened Bytes
  import opened Codec
  import opened CodecProofs

  datatype ClientError = ConnectFailed | Io | Timeout | Closed | Protocol | Server(text: seq<byte>) | Auth

  datatype Result = Ok(reply: Reply) | Err(error: ClientError)

  predicate IsFatalToConnection(e: ClientError) { !e.Server? }

  predicate IsRetryable(e: ClientError) { e.Io? || e.Closed? || e.ConnectFailed? }

  /** What `write_all` did; a failed write may or may not have reached the server. */
  datatype WriteStep = Written | WriteTimedOut(delivered: bool) | WriteBroken(delivered: bool)

  /** What one `read` did; `Chunk(n)` delivers up to `n` of the bytes in flight. */
  datatype ReadStep = Chunk(n: nat) | PeerClosed | ReadTimedOut | ReadBroken

  /**
   * The network's part in one request: its fate, whatever bytes the peer sends back if it was
   * delivered, and the reads.
   */
  datatype Exchange = Exchange(write: WriteStep, response: seq<byte>, script: seq<ReadStep>)

  /** The network's part in one attempt. */
  datatype Network = Network(dialOk: bool, auth: Exchange, main: Exchange)

  predicate Delivered(x: Exchange) { x.write.Written? || x.write.delivered }

  /** The peer answers a request with exactly one reply. */
  predicate OneReply(x: Exchange) {
    ParseReply(x.response).Complete? && ParseReply(x.response).next == |x.response|
  }

  function Answer(x: Exchange): Reply
    requires OneReply(x)
  {
    ParseReply(x.response).value
  }

  /** A server that answers every request it receives with one reply, in order. */
  predicate Honest(net: Network) { OneReply(net.auth) && OneReply(net.main) }

  /** What the server prints is such an answer. */
  lemma PrintedIsOneReply(x: Exchange, reply: Reply)
    requires WellFormed(reply, 0) && x.response == Write(reply)
    ensures OneReply(x) && Answer(x) == reply
  {
    ReplyRoundTrip(reply, []);
    assert Write(reply) + [] == Write(reply);
  }

  /** The bytes a request puts on the socket, if it gets there. */
  function Sends(x: Exchange): seq<byte> { if Delivered(x) then x.response else [] }

  /** The error reply becomes an error value; any other reply is the answer. */
  function Judge(reply: Reply): Result {
    if reply.Error? then Err(Server(reply.text)) else Ok(reply)
  }

  /** How a wait for a reply ends: the result, what stays buffered, what stays on the wire. */
  datatype ReadEnd = ReadEnd(result: Result, buf: seq<byte>, wire: seq<byte>)

  function ReadLoop(buf: seq<byte>, wire: seq<byte>, script: seq<ReadStep>): ReadEnd
    decreases script
  {
    ReplyProgress(buf, 0, 0);
    match ParseReply(buf)
    case Complete(reply, n) => ReadEnd(Judge(reply), buf[n..], wire)
    case Invalid(_) => ReadEnd(Err(Protocol), buf, wire)
    case Incomplete =>
      if script == [] then ReadEnd(Err(Timeout), buf, wire)
      else
        var failure, n := ReadFailure(buf, wire, script[0]), Taken(wire, script[0]);
        if failure.Some? then ReadEnd(Err(failure.value), buf, wire)
        else ReadLoop(buf + wire[..n], wire[n..], script[1..])
  }

  /** How many bytes a read takes off the wire. */
  function Taken(wire: seq<byte>, step: ReadStep): (n: nat)
    ensures n <= |wire|
  {
    if !step.Chunk? then 0 else if step.n <= |wire| then step.n else |wire|
  }

  /** The error of a read that delivers nothing. */
  function ReadFailure(buf: seq<byte>, wire: seq<byte>, step: ReadStep): Option<ClientError> {
    match step
    case ReadTimedOut => Some(Timeout)
    case PeerClosed => Some(if buf == [] then Closed else Protocol)
    case ReadBroken => Some(if buf == [] then Io else Protocol)
    case Chunk(_) => if Taken(wire, step) == 0 then Some(Timeout) else None
  }

  lemma ReadLoopTurn(buf: seq<byte>, wire: seq<byte>, script: seq<ReadStep>, i: nat)
    requires i < |script| && ParseReply(buf).Incomplete?
    ensures var failure, n := ReadFailure(buf, wire, script[i]), Taken(wire, script[i]);
            ReadLoop(buf, wire, script[i..]) ==
            if failure.Some? then ReadEnd(Err(failure.value), buf, wire)
            else ReadLoop(buf + wire[..n], wire[n..], script[i + 1..])
  {
    assert script[i..][1..] == script[i + 1..];
  }

  predicate Answered(r: Result) { r.Ok? || r.error.Server? }

  /** Whatever the chunks, an answer is the first reply of the stream, and the rest stays behind it. */
  lemma {:induction false} ReadLoopDelivers(buf: seq<byte>, wire: seq<byte>, script: seq<ReadStep>)
    ensures var end, first := ReadLoop(buf, wire, script), ParseReply(buf + wire);
            && (Answered(end.result) ==>
                  first.Complete? && first.next <= |buf + wire| && end.result == Judge(first.value)
                  && end.buf + end.wire == (buf + wire)[first.next..])
            && (!Answered(end.result) ==> end.buf + end.wire == buf + wire)
    decreases script
  {
    ReplyExtends(buf, wire);
    ReplyProgress(buf, 0, 0);
    var o := ParseReply(buf);
    if o.Complete? {
      assert (buf + wire)[o.next..] == buf[o.next..] + wire;
    } else if o.Incomplete? && script != [] && script[0].Chunk? {
      var n := if script[0].n <= |wire| then script[0].n else |wire|;
      if n > 0 {
        assert wire[..n] + wire[n..] == wire;
        Assoc(buf, wire[..n], wire[n..]);
        ReadLoopDelivers(buf + wire[..n], wire[n..], script[1..]);
      }
    }
  }

  /** A retryable error is reported only if no byte of a reply was ever read. */
  lemma {:induction false} RetryableMeansNothingRead(buf: seq<byte>, wire: seq<byte>, script: seq<ReadStep>)
    ensures var end := ReadLoop(buf, wire, script);
            end.result.Err? && IsRetryable(end.result.error) ==> buf == [] && end.buf == [] && end.wire == wire
    ensures ReadLoop(buf, wire, script).result !in {Err(ConnectFailed), Err(Auth)}
    decreases script
  {
    if ParseReply(buf).Incomplete? && script != [] && script[0].Chunk? {
      var n := if script[0].n <= |wire| then script[0].n else |wire|;
      if n > 0 {
        RetryableMeansNothingRead(buf + wire[..n], wire[n..], script[1..]);
      }
    }
  }

  /** A round trip on a socket with nothing buffered and `wire` still to be read. */
  function RoundTripEnd(wire: seq<byte>, x: Exchange): ReadEnd {
    var stream := wire + Sends(x);
    match x.write
    case Written => ReadLoop([], stream, x.script)
    case WriteTimedOut(_) => ReadEnd(Err(Timeout), [], stream)
    case WriteBroken(_) => ReadEnd(Err(Io), [], stream)
  }

  /** Against any peer: a retryable error means that not one byte was read. */
  lemma RetryNeedsNothingRead(wire: seq<byte>, x: Exchange)
    ensures var end := RoundTripEnd(wire, x);
            && end.result !in {Err(ConnectFailed), Err(Auth)}
            && (end.result.Err? && IsRetryable(end.result.error) ==> end.buf == [])
  {
    RetryableMeansNothingRead([], wire + Sends(x), x.script);
  }

  /** On a socket that owed nothing: an answer is this request's own, and nothing is left behind it. */
  lemma SyncedRoundTrip(x: Exchange)
    requires OneReply(x)
    ensures var end := RoundTripEnd([], x);
            && (Answered(end.result) ==> end.result == Judge(Answer(x)) && end.buf == [] && end.wire == [])
            && (!Answered(end.result) ==> (end.buf == [] && end.wire == [] <==> !Delivered(x)))
  {
    var stream := Sends(x);
    assert [] + stream == stream && x.response[|x.response|..] == [];
    ReadLoopDelivers([], stream, x.script);
    var end := RoundTripEnd([], x);
    assert ParseReply([]) == Incomplete && x.response != [];
    assert end.buf == [] && end.wire == [] <==> end.buf + end.wire == [];
  }

  /** Whether dialing and authenticating yields a usable socket. */
  predicate LoginOk(net: Network, password: Option<seq<byte>>) {
    net.dialOk && (password.None? || var r := RoundTripEnd([], net.auth).result; r.Ok? && r.reply.Simple?)
  }

  /** What a socket holds: bytes already read and bytes still on the wire. */
  datatype Held = Held(buf: seq<byte>, wire: seq<byte>)

  /** What a new socket holds after authentication. */
  function AfterLogin(net: Network, password: Option<seq<byte>>): Held {
    if password.None? then Held([], []) else Held(RoundTripEnd([], net.auth).buf, RoundTripEnd([], net.auth).wire)
  }

  lemma HonestLogin(net: Network, password: Option<seq<byte>>)
    requires Honest(net) && LoginOk(net, password)
    ensures AfterLogin(net, password) == Held([], [])
  {
    SyncedRoundTrip(net.auth);
  }

  /** Why there is no usable socket. */
  function LoginError(net: Network): ClientError {
    if !net.dialOk then ConnectFailed
    else
      var r := RoundTripEnd([], net.auth).result;
      if Answered(r) then Auth else r.error
  }

  datatype Message = AuthRequest | Request(args: Args)
  datatype Sent = Sent(link: nat, what: Message)

  // ------------------------------------------------- the client as a function

  /** The socket a client holds, if any, and the serial number of its newest one. */
  datatype Standing = Standing(socket: Option<Held>, link: nat)

  /** What a command comes to: its result, where it leaves the client, and what was handed to sockets. */
  datatype Turn = Turn(result: Result, after: Standing, sent: seq<Sent>)

  /** A request on a socket that holds `h`; with bytes read ahead it is refused unsent. */
  function Ask(h: Held, link: nat, args: Args, net: Network): Turn {
    if h.buf != [] then Turn(Err(Protocol), Standing(Some(h), link), [])
    else
      var end := RoundTripEnd(h.wire, net.main);
      Turn(end.result, Standing(Some(Held(end.buf, end.wire)), link), [Sent(link, Request(args))])
  }

  function Login(link: nat, password: Option<seq<byte>>): seq<Sent> {
    if password.Some? then [Sent(link, AuthRequest)] else []
  }

  /** `attempt`: on the held socket, or on a new one after authentication. */
  function Attempt(p: Standing, args: Args, net: Network, password: Option<seq<byte>>): Turn {
    if p.socket.Some? then Ask(p.socket.value, p.link, args, net)
    else if !net.dialOk then Turn(Err(ConnectFailed), p, [])
    else
      var link := p.link + 1;
      if !LoginOk(net, password) then Turn(Err(LoginError(net)), Standing(None, link), Login(link, password))
      else
        var t := Ask(AfterLogin(net, password), link, args, net);
        t.(sent := Login(link, password) + t.sent)
  }

  predicate IsFatal(r: Result) { r.Err? && IsFatalToConnection(r.error) }

  /** A fatal error drops the socket. */
  function Dropped(t: Turn): Turn {
    if IsFatal(t.result) then t.(after := t.after.(socket := None)) else t
  }

  /** `command`: the second attempt's outcome is returned as it is. */
  function CommandTurn(p: Standing, args: Args, first: Network, second: Network, password: Option<seq<byte>>): Turn {
    var t := Dropped(Attempt(p, args, first, password));
    if p.socket.Some? && t.result.Err? && IsRetryable(t.result.error) then
      var u := Attempt(t.after, args, second, password);
      u.(sent := t.sent + u.sent)
    else t
  }

  datatype Call = Call(args: Args, mayRetry: bool, first: Network, second: Network)

  /** `command`, or `command_no_retry`. */
  function CallTurn(p: Standing, call: Call, password: Option<seq<byte>>): Turn {
    if call.mayRetry then CommandTurn(p, call.args, call.first, call.second, password)
    else Dropped(Attempt(p, call.args, call.first, password))
  }

  /** The results of a session, where it leaves the client, and what each call handed to sockets. */
  datatype Played = Played(results: seq<Result>, after: Standing, sents: seq<seq<Sent>>)

  function Play(p: Standing, calls: seq<Call>, password: Option<seq<byte>>): (q: Played)
    ensures |q.results| == |q.sents| == |calls|
  {
    if calls == [] then Played([], p, [])
    else
      var q := Play(p, calls[..|calls| - 1], password);
      var t := CallTurn(q.after, calls[|calls| - 1], password);
      Played(q.results + [t.result], t.after, q.sents + [t.sent])
  }

  /** The transcripts of some calls, one after the other. */
  function Transcript(sents: seq<seq<Sent>>): seq<Sent> {
    if sents == [] then [] else Transcript(sents[..|sents| - 1]) + sents[|sents| - 1]
  }

  class Client {
    const password: Option<seq<byte>>
    var connected: bool
    var readBuf: seq<byte>
    var wire: seq<byte>       // the network: reply bytes on the socket not yet read
    ghost var link: nat       // serial number of the newest socket
    ghost var log: seq<Sent>  // every request handed to a socket

    constructor (password: Option<seq<byte>>)
      ensures this.password == (if password.Some? && password.value == [] then None else password)
      ensures Me() == Standing(None, 0) && log == []
    {
      this.password := if password.Some? && password.value == [] then None else password;
      connected, readBuf, wire := false, [], [];
      link, log := 0, [];
    }

    ghost function Me(): Standing
      reads this
    {
      Standing(if connected then Some(Held(readBuf, wire)) else None, link)
    }

    /** One request on the held socket. */
    method RoundTrip(what: Message, x: Exchange) returns (r: Result)
      requires connected
      modifies this`readBuf, this`wire, this`log
      ensures old(readBuf) != [] ==>
                r == Err(Protocol) && readBuf == old(readBuf) && wire == old(wire) && log == old(log)
      ensures old(readBuf) == [] ==>
                && log == old(log) + [Sent(link, what)]
                && ReadEnd(r, readBuf, wire) == RoundTripEnd(old(wire), x)
    {
      if readBuf != [] {
        return Err(Protocol);
      }
      log := log + [Sent(link, what)];
      wire := wire + Sends(x);
      match x.write {
        case WriteTimedOut(_) => return Err(Timeout);
        case WriteBroken(_) => return Err(Io);
        case Written =>
      }
      r := AwaitReply(x.script);
    }

    /** Parse, and read more until there is a whole reply. */
    method AwaitReply(script: seq<ReadStep>) returns (r: Result)
      modifies this`readBuf, this`wire
      ensures ReadEnd(r, readBuf, wire) == ReadLoop(old(readBuf), old(wire), script)
    {
      var i := 0;
      ghost var end := ReadLoop(readBuf, wire, script);
      assert script[0..] == script;
      while true
        invariant i <= |script| && end == ReadLoop(readBuf, wire, script[i..])
        decreases |script| - i
      {
        var parsed := ParseReplyLoop(readBuf, 0, 0);
        ReplyProgress(readBuf, 0, 0);
        if parsed.Complete? {
          readBuf := readBuf[parsed.next..];
          return Judge(parsed.value);
        } else if parsed.Invalid? {
          return Err(Protocol);
        } else if i == |script| {
          return Err(Timeout);
        }
        ReadLoopTurn(readBuf, wire, script, i);
        var failure := ReadMore(script[i]);
        if failure.Some? {
          return Err(failure.value);
        }
        i := i + 1;
      }
    }

    /** One `read`. */
    method ReadMore(step: ReadStep) returns (failure: Option<ClientError>)
      modifies this`readBuf, this`wire
      ensures failure == ReadFailure(old(readBuf), old(wire), step)
      ensures failure.Some? ==> readBuf == old(readBuf) && wire == old(wire)
      ensures failure.None? ==>
                && readBuf == old(readBuf) + old(wire)[..Taken(old(wire), step)]
                && wire == old(wire)[Taken(old(wire), step)..]
    {
      match step {
        case ReadTimedOut => return Some(Timeout);
        case PeerClosed => return Some(if readBuf == [] then Closed else Protocol);
        case ReadBroken => return Some(if readBuf == [] then Io else Protocol);
        case Chunk(limit) =>
          var n := if limit <= |wire| then limit else |wire|;
          if n == 0 {
            return Some(Timeout);
          }
          readBuf, wire := readBuf + wire[..n], wire[n..];
      }
      failure := None;
    }

    /** Dial and authenticate unless a socket is already held. */
    method EnsureConnected(net: Network) returns (failure: Option<ClientError>)
      modifies this
      ensures old(connected) ==>
                failure == None && connected && unchanged(this)
      ensures !old(connected) ==>
                && (connected <==> LoginOk(net, password))
                && failure == (if connected then None else Some(LoginError(net)))
                && link == old(link) + (if net.dialOk then 1 else 0)
                && (connected ==> Held(readBuf, wire) == AfterLogin(net, password))
                && log == old(log) + (if net.dialOk then Login(link, password) else [])
    {
      if connected {
        return None;
      }
      assert log + [] == log;
      if !net.dialOk {
        return Some(ConnectFailed);
      }
      connected, readBuf, wire := true, [], [];
      link := link + 1;
      if password.Some? {
        var reply := RoundTrip(AuthRequest, net.auth);
        if !reply.Ok? || !reply.reply.Simple? {
          connected := false;
          return Some(if Answered(reply) then Auth else reply.error);
        }
      }
      failure := None;
    }

    /** `attempt`: connect if needed, then one round trip. */
    method TryOnce(args: Args, net: Network) returns (r: Result)
      modifies this
      ensures var t := Attempt(old(Me()), args, net, password);
              r == t.result && Me() == t.after && log == old(log) + t.sent
    {
      var failure := EnsureConnected(net);
      assert log + [] == log;
      if failure.Some? {
        return Err(failure.value);
      }
      r := RoundTrip(Request(args), net.main);
    }

    /** `command_no_retry`. */
    method CommandNoRetry(args: Args, net: Network) returns (r: Result)
      modifies this
      ensures var t := Dropped(Attempt(old(Me()), args, net, password));
              r == t.result && Me() == t.after && log == old(log) + t.sent
    {
      r := TryOnce(args, net);
      if r.Err? && IsFatalToConnection(r.error) {
        connected := false;
      }
    }

    /** `command`: one retry, if a socket held before turns out to be dead. */
    method Command(args: Args, first: Network, second: Network) returns (r: Result)
      modifies this
      ensures var t := CommandTurn(old(Me()), args, first, second, password);
              r == t.result && Me() == t.after && log == old(log) + t.sent
    {
      var wasReused := connected;
      r := TryOnce(args, first);
      if r.Ok? {
        return;
      }
      if IsFatalToConnection(r.error) {
        connected := false;
      }
      if wasReused && IsRetryable(r.error) {
        ghost var sent := Attempt(old(Me()), args, first, password).sent;
        r := TryOnce(args, second);
        Assoc(old(log), sent, Attempt(Standing(None, old(link)), args, second, password).sent);
      }
    }
  }

  /** Any session, against any peers, is the fold of its calls. */
  method Session(client: Client, calls: seq<Call>) returns (results: seq<Result>)
    modifies client
    ensures var q := Play(old(client.Me()), calls, client.password);
            results == q.results && client.Me() == q.after && client.log == old(client.log) + Transcript(q.sents)
  {
    results := [];
    ghost var start, before := client.Me(), client.log;
    assert before + [] == before;
    for k := 0 to |calls|
      invariant Plays(client, start, before, calls[..k], results)
    {
      var r;
      PlayTurn(start, calls, client.password, k, before);
      if calls[k].mayRetry {
        r := client.Command(calls[k].args, calls[k].first, calls[k].second);
      } else {
        r := client.CommandNoRetry(calls[k].args, calls[k].first);
      }
      results := results + [r];
    }
    assert calls[..|calls|] == calls;
  }

  ghost predicate Plays(client: Client, start: Standing, before: seq<Sent>, calls: seq<Call>, results: seq<Result>)
    reads client
  {
    var q := Play(start, calls, client.password);
    results == q.results && client.Me() == q.after && client.log == before + Transcript(q.sents)
  }

  lemma PlayTurn(p: Standing, calls: seq<Call>, password: Option<seq<byte>>, k: nat, before: seq<Sent>)
    requires k < |calls|
    ensures var q, q' := Play(p, calls[..k], password), Play(p, calls[..k + 1], password);
            var t := CallTurn(q.after, calls[k], password);
            && q' == Played(q.results + [t.result], t.after, q.sents + [t.sent])
            && before + Transcript(q'.sents) == before + Transcript(q.sents) + t.sent
  {
    assert calls[..k + 1][..k] == calls[..k];
    var q := Play(p, calls[..k], password);
    var t := CallTurn(q.after, calls[k], password);
    assert (q.sents + [t.sent])[..k] == q.sents;
    Assoc(before, Transcript(q.sents), t.sent);
  }

  // ---------------------------------------------------- sessions as sequences

  lemma PlayGrows(p: Standing, calls: seq<Call>, password: Option<seq<byte>>)
    requires calls != []
    ensures Play(p, calls[..|calls| - 1], password).results <= Play(p, calls, password).results
    ensures Play(p, calls[..|calls| - 1], password).sents <= Play(p, calls, password).sents
  {}

  lemma {:induction false} PlayPrefix(p: Standing, calls: seq<Call>, password: Option<seq<byte>>, n: nat)
    requires n <= |calls|
    ensures Play(p, calls[..n], password).results <= Play(p, calls, password).results
    ensures Play(p, calls[..n], password).sents <= Play(p, calls, password).sents
    decreases |calls|
  {
    if n == |calls| {
      assert calls[..n] == calls;
    } else {
      var init := calls[..|calls| - 1];
      PlayGrows(p, calls, password);
      PlayPrefix(p, init, password, n);
      assert init[..n] == calls[..n];
    }
  }

  /** Call `i` of a session is one turn from where the calls before it leave the client. */
  lemma PlayAt(p: Standing, calls: seq<Call>, password: Option<seq<byte>>, i: nat)
    requires i < |calls|
    ensures var q, t := Play(p, calls, password), CallTurn(Play(p, calls[..i], password).after, calls[i], password);
            q.results[i] == t.result && q.sents[i] == t.sent
  {
    PlayPrefix(p, calls, password, i + 1);
    PlayTurn(p, calls, password, i, []);
  }

  lemma {:induction false} PlayAppend(p: Standing, a: seq<Call>, b: seq<Call>, password: Option<seq<byte>>)
    ensures var q := Play(p, a, password);
            var q' := Play(q.after, b, password);
            Play(p, a + b, password) == Played(q.results + q'.results, q'.after, q.sents + q'.sents)
    decreases b
  {
    var q := Play(p, a, password);
    if b == [] {
      assert a + b == a && q.results + [] == q.results && q.sents + [] == q.sents;
    } else {
      var init, last := b[..|b| - 1], b[|b| - 1];
      PlayAppend(p, a, init, password);
      var q' := Play(q.after, init, password);
      var t := CallTurn(q'.after, last, password);
      assert (a + b)[..|a + b| - 1] == a + init && (a + b)[|a + b| - 1] == last;
      Assoc(q.results, q'.results, [t.result]);
      Assoc(q.sents, q'.sents, [t.sent]);
    }
  }

  lemma {:induction false} TranscriptAppend(a: seq<seq<Sent>>, b: seq<seq<Sent>>)
    ensures Transcript(a + b) == Transcript(a) + Transcript(b)
    decreases b
  {
    if b == [] {
      assert a + b == a;
    } else {
      var init, last := b[..|b| - 1], b[|b| - 1];
      assert (a + b)[..|a + b| - 1] == a + init;
      TranscriptAppend(a, init);
      Assoc(Transcript(a), Transcript(init), last);
    }
  }

  // ---------------------------------------------------------- what is sent

  /** How many requests, as opposed to authentications, a transcript holds. */
  function Requests(sent: seq<Sent>): nat {
    if sent == [] then 0 else Requests(sent[..|sent| - 1]) + if sent[|sent| - 1].what.Request? then 1 else 0
  }

  /** The transcript holds at most `n` requests, and all of them are this one. */
  ghost predicate Carries(sent: seq<Sent>, args: Args, n: nat) {
    Requests(sent) <= n && forall i :: 0 <= i < |sent| && sent[i].what.Request? ==> sent[i].what.args == args
  }

  lemma {:induction false} RequestsAppend(a: seq<Sent>, b: seq<Sent>)
    ensures Requests(a + b) == Requests(a) + Requests(b)
    decreases b
  {
    if b == [] {
      assert a + b == a;
    } else {
      assert (a + b)[..|a + b| - 1] == a + b[..|b| - 1];
      RequestsAppend(a, b[..|b| - 1]);
    }
  }

  /** A transcript of one message holds one request, or none. */
  lemma OneMessage(s: Sent)
    ensures Requests([s]) == if s.what.Request? then 1 else 0
  {
    assert [s][..0] == [];
  }

  /** Against any peer, an attempt sends the request at most once, and only that can have an answer. */
  lemma AttemptCarries(p: Standing, args: Args, net: Network, password: Option<seq<byte>>)
    ensures var t := Attempt(p, args, net, password);
            Carries(t.sent, args, 1) && (Answered(t.result) ==> Requests(t.sent) == 1)
  {
    var t := Attempt(p, args, net, password);
    var login := if p.socket.None? && net.dialOk then Login(p.link + 1, password) else [];
    OneMessage(Sent(p.link, Request(args)));
    OneMessage(Sent(p.link + 1, Request(args)));
    OneMessage(Sent(p.link + 1, AuthRequest));
    assert Requests(login) == 0;
    RequestsAppend(login, [Sent(p.link + 1, Request(args))]);
    assert login + [] == login;
  }

  lemma CarriesAppend(a: seq<Sent>, b: seq<Sent>, args: Args, n: nat, m: nat)
    requires Carries(a, args, n) && Carries(b, args, m)
    ensures Carries(a + b, args, n + m) && (Requests(a) > 0 || Requests(b) > 0 ==> Requests(a + b) > 0)
  {
    RequestsAppend(a, b);
  }

  /** Against any peer, a command sends its request at most twice, and an answered one at least once. */
  lemma CallCarries(p: Standing, call: Call, password: Option<seq<byte>>)
    ensures var t := CallTurn(p, call, password);
            Carries(t.sent, call.args, if call.mayRetry then 2 else 1) && (Answered(t.result) ==> Requests(t.sent) > 0)
  {
    var t := Dropped(Attempt(p, call.args, call.first, password));
    var u := Attempt(t.after, call.args, call.second, password);
    AttemptCarries(p, call.args, call.first, password);
    AttemptCarries(t.after, call.args, call.second, password);
    CarriesAppend(t.sent, u.sent, call.args, 1, 1);
  }

  /** Whether `command` retries: a socket held before failed without one byte of a reply. */
  predicate WillRetry(p: Standing, first: Network) {
    p.socket.Some? && p.socket.value.buf == [] &&
    var r := RoundTripEnd(p.socket.value.wire, first.main).result; r.Err? && IsRetryable(r.error)
  }

  /**
   * The retry rule, against any peer: the request goes out again only when the socket was held
   * before and gave no byte of a reply, and then on a new socket, behind a new authentication.
   */
  lemma RetryRule(p: Standing, args: Args, first: Network, second: Network, password: Option<seq<byte>>)
    ensures var t, once := CommandTurn(p, args, first, second, password), Attempt(p, args, first, password);
            if WillRetry(p, first) then
              && RoundTripEnd(p.socket.value.wire, first.main).buf == []
              && t.sent == [Sent(p.link, Request(args))] + Attempt(Standing(None, p.link), args, second, password).sent
            else t.sent == once.sent && t.result == once.result
  {
    if p.socket.Some? {
      RetryNeedsNothingRead(p.socket.value.wire, first.main);
    }
  }

  /** What a new socket is given: authentication if there is a password, then the request. */
  lemma NewSocketTranscript(link: nat, args: Args, net: Network, password: Option<seq<byte>>)
    ensures var t, login := Attempt(Standing(None, link), args, net, password), Login(link + 1, password);
            t.sent == [] || t.sent == login || t.sent == login + [Sent(link + 1, Request(args))]
  {
    assert Login(link + 1, password) + [] == Login(link + 1, password);
  }

  /** After a fatal error no socket is held, except by a `command` whose retry got as far as one. */
  lemma FatalErrorDrops(p: Standing, call: Call, password: Option<seq<byte>>)
    requires IsFatal(CallTurn(p, call, password).result)
    ensures CallTurn(p, call, password).after.socket.Some? <==>
              call.mayRetry && WillRetry(p, call.first) && LoginOk(call.second, password)
  {
    if p.socket.Some? {
      RetryNeedsNothingRead(p.socket.value.wire, call.first.main);
    }
  }

  // ------------------------------------------- the network's script alone

  /** How the first read of a reply goes wrong, if it does: the peer closes, resets, or stays silent. */
  predicate FirstRead(x: Exchange, step: ReadStep) { x.write.Written? && x.script != [] && x.script[0] == step }

  /** What is reported when nothing at all was read, case by case. */
  lemma FirstReadErrors(wire: seq<byte>, x: Exchange)
    ensures var r := RoundTripEnd(wire, x).result;
            && (x.write.WriteTimedOut? ==> r == Err(Timeout))
            && (x.write.WriteBroken? ==> r == Err(Io))
            && (x.write.Written? && x.script == [] ==> r == Err(Timeout))
            && (FirstRead(x, ReadTimedOut) ==> r == Err(Timeout))
            && (FirstRead(x, PeerClosed) ==> r == Err(Closed))
            && (FirstRead(x, ReadBroken) ==> r == Err(Io))
  {}

  /** And once part of a reply has been read: never an error that would be retried. */
  lemma MidReplyErrors(buf: seq<byte>, wire: seq<byte>, script: seq<ReadStep>)
    requires buf != [] && ParseReply(buf) == Incomplete
    ensures var r := ReadLoop(buf, wire, script).result;
            && (script == [] || script[0] == ReadTimedOut ==> r == Err(Timeout))
            && (script != [] && script[0] in {PeerClosed, ReadBroken} ==> r == Err(Protocol))
  {}

  lemma {:induction false} NothingRetriedMidReply(buf: seq<byte>, wire: seq<byte>, script: seq<ReadStep>)
    requires buf != []
    ensures ReadLoop(buf, wire, script).result !in {Err(Io), Err(Closed), Err(ConnectFailed)}
  {
    RetryableMeansNothingRead(buf, wire, script);
  }

  /** A round trip fails retryably exactly if the write broke or the first read found the peer gone. */
  lemma RetryableOnScript(wire: seq<byte>, x: Exchange)
    ensures var r := RoundTripEnd(wire, x).result;
            r in {Err(Io), Err(Closed), Err(ConnectFailed)} <==>
              x.write.WriteBroken? || FirstRead(x, PeerClosed) || FirstRead(x, ReadBroken)
  {
    FirstReadErrors(wire, x);
    if x.write.Written? && x.script != [] && x.script[0].Chunk? {
      var stream := wire + Sends(x);
      var n := Taken(stream, x.script[0]);
      assert [] + stream[..n] == stream[..n];
      if n > 0 {
        NothingRetriedMidReply(stream[..n], stream[n..], x.script[1..]);
      }
    }
  }

  /**
   * The retry rule by the network alone: a command is retried exactly when a socket was held, with
   * nothing read ahead, and its write broke or the first read found the peer gone. A timeout, of
   * either kind, is not retried, nor is anything on a new socket.
   */
  lemma RetriedOnScript(p: Standing, first: Network)
    ensures WillRetry(p, first) <==>
              && p.socket.Some? && p.socket.value.buf == []
              && (|| first.main.write.WriteBroken?
                  || FirstRead(first.main, PeerClosed) || FirstRead(first.main, ReadBroken))
  {
    if p.socket.Some? {
      RetryableOnScript(p.socket.value.wire, first.main);
      RetryNeedsNothingRead(p.socket.value.wire, first.main);
    }
  }

  /** A timeout on a held socket: reported after one request, and the socket is dropped. */
  lemma TimeoutIsFinal(p: Standing, args: Args, first: Network, second: Network, password: Option<seq<byte>>)
    requires p.socket.Some? && p.socket.value.buf == []
    requires first.main.write.WriteTimedOut? || FirstRead(first.main, ReadTimedOut)
    ensures CommandTurn(p, args, first, second, password)
            == Turn(Err(Timeout), Standing(None, p.link), [Sent(p.link, Request(args))])
  {
    FirstReadErrors(p.socket.value.wire, first.main);
    RetriedOnScript(p, first);
    RetryRule(p, args, first, second, password);
  }

  /** Bytes read ahead: the request is refused unsent, and the socket is dropped. */
  lemma LeftoverIsFatal(p: Standing, args: Args, first: Network, second: Network, password: Option<seq<byte>>)
    requires p.socket.Some? && p.socket.value.buf != []
    ensures CommandTurn(p, args, first, second, password) == Turn(Err(Protocol), Standing(None, p.link), [])
  {}

  /** No server: nothing is sent. A server that refuses the password: only the password is. */
  lemma LoginFailures(link: nat, args: Args, net: Network, password: Option<seq<byte>>)
    ensures var t := Attempt(Standing(None, link), args, net, password);
            && (!net.dialOk ==> t == Turn(Err(ConnectFailed), Standing(None, link), []))
            && (net.dialOk && password.Some? && Answered(RoundTripEnd([], net.auth).result)
                && !(RoundTripEnd([], net.auth).result.Ok? && RoundTripEnd([], net.auth).result.reply.Simple?) ==>
                  t == Turn(Err(Auth), Standing(None, link + 1), [Sent(link + 1, AuthRequest)]))
            && (net.dialOk && password.Some? && !Answered(RoundTripEnd([], net.auth).result) ==>
                  t == Turn(RoundTripEnd([], net.auth).result, Standing(None, link + 1), [Sent(link + 1, AuthRequest)]))
            && (net.dialOk && password.None? ==>
                  t.sent == [Sent(link + 1, Request(args))] && t.result == RoundTripEnd([], net.main).result)
  {
    assert [] + [Sent(link + 1, Request(args))] == [Sent(link + 1, Request(args))];
  }

  /** An error reply is an answer: it is reported as such, and the socket is kept, in step. */
  lemma ErrorReplyKeepsSocket(p: Standing, args: Args, net: Network, password: Option<seq<byte>>, text: seq<byte>)
    requires p.socket == Some(Held([], [])) && OneReply(net.main) && Answer(net.main) == Error(text)
    requires Answered(RoundTripEnd([], net.main).result)
    ensures Dropped(Attempt(p, args, net, password)) == Turn(Err(Server(text)), p, [Sent(p.link, Request(args))])
  {
    SyncedRoundTrip(net.main);
  }

  // ------------------------------------------------------------ honest servers

  /** A held socket owes the client nothing. */
  predicate InSync(p: Standing) { p.socket.Some? ==> p.socket.value == Held([], []) }

  predicate HonestCall(call: Call) { Honest(call.first) && Honest(call.second) }

  /** The call's retry reached the server, and its answer was not read. */
  predicate Spoilt(p: Standing, call: Call, password: Option<seq<byte>>) {
    && call.mayRetry && WillRetry(p, call.first) && LoginOk(call.second, password)
    && Delivered(call.second.main) && !Answered(CallTurn(p, call, password).result)
  }

  /** The server's answer to the call's last attempt. */
  function AnswerTo(p: Standing, call: Call): Reply
    requires HonestCall(call)
  {
    Answer(if call.mayRetry && WillRetry(p, call.first) then call.second.main else call.first.main)
  }

  lemma AttemptInSync(p: Standing, args: Args, net: Network, password: Option<seq<byte>>)
    requires Honest(net) && InSync(p)
    ensures var t := Attempt(p, args, net, password);
            && (Answered(t.result) ==> t.result == Judge(Answer(net.main)) && InSync(t.after))
            && (!Answered(t.result) ==>
                  (InSync(t.after) <==> t.after.socket.None? || !Delivered(net.main)))
  {
    SyncedRoundTrip(net.main);
    if LoginOk(net, password) { HonestLogin(net, password); }
  }

  /** Dropping a socket leaves a client in step. */
  lemma DroppedInSync(p: Standing, args: Args, net: Network, password: Option<seq<byte>>)
    requires Honest(net) && InSync(p)
    ensures var t := Dropped(Attempt(p, args, net, password));
            InSync(t.after) && (Answered(t.result) ==> t.result == Judge(Answer(net.main)))
  {
    AttemptInSync(p, args, net, password);
    UnansweredIsFatal(p, args, net, password);
  }

  lemma UnansweredIsFatal(p: Standing, args: Args, net: Network, password: Option<seq<byte>>)
    ensures var t := Attempt(p, args, net, password); IsFatal(t.result) <==> !Answered(t.result)
  {}

  /** What a call comes to, by whether it retries. */
  lemma CallCases(p: Standing, call: Call, password: Option<seq<byte>>)
    ensures var t, once := CallTurn(p, call, password), Dropped(Attempt(p, call.args, call.first, password));
            if call.mayRetry && WillRetry(p, call.first) then
              var u := Attempt(Standing(None, p.link), call.args, call.second, password);
              t.result == u.result && t.after == u.after
            else t == once
  {}

  /** The retry starts without a socket; without one afterwards, it cannot have been answered. */
  lemma RetryInSync(link: nat, args: Args, net: Network, password: Option<seq<byte>>)
    requires Honest(net)
    ensures var u := Attempt(Standing(None, link), args, net, password);
            && (Answered(u.result) ==> u.result == Judge(Answer(net.main)))
            && (InSync(u.after) <==> !(LoginOk(net, password) && Delivered(net.main) && !Answered(u.result)))
  {
    AttemptInSync(Standing(None, link), args, net, password);
  }

  /** A call to an honest server, from a client in step: its own answer, and in step unless spoilt. */
  lemma CallInSync(p: Standing, call: Call, password: Option<seq<byte>>)
    requires HonestCall(call) && InSync(p)
    ensures var t := CallTurn(p, call, password);
            && (Answered(t.result) ==> t.result == Judge(AnswerTo(p, call)))
            && (InSync(t.after) <==> !Spoilt(p, call, password))
  {
    CallCases(p, call, password);
    if call.mayRetry && WillRetry(p, call.first) {
      RetryInSync(p.link, call.args, call.second, password);
    } else {
      DroppedInSync(p, call.args, call.first, password);
    }
  }

  /** As long as no call is spoilt the client is in step, and every answer is that of its own call. */
  lemma CleanSession(p: Standing, calls: seq<Call>, password: Option<seq<byte>>, n: nat)
    requires InSync(p) && n < |calls|
    requires forall i :: 0 <= i <= n ==> HonestCall(calls[i])
    requires forall i :: 0 <= i < n ==> !SpoiltAt(p, calls, password, i)
    ensures var q, before := Play(p, calls, password), Play(p, calls[..n], password).after;
            InSync(before) && (Answered(q.results[n]) ==> q.results[n] == Judge(AnswerTo(before, calls[n])))
  {
    assert calls[..0] == [];
    for i := 0 to n
      invariant InSync(Play(p, calls[..i], password).after)
    {
      PlayTurn(p, calls, password, i, []);
      assert !SpoiltAt(p, calls, password, i);
      CallInSync(Play(p, calls[..i], password).after, calls[i], password);
    }
    PlayAt(p, calls, password, n);
    CallInSync(Play(p, calls[..n], password).after, calls[n], password);
  }

  /** Call `i` of a session is spoilt. */
  predicate SpoiltAt(p: Standing, calls: seq<Call>, password: Option<seq<byte>>, i: nat)
    requires i < |calls|
  {
    Spoilt(Play(p, calls[..i], password).after, calls[i], password)
  }

  /** The three round trips of the scenario below. */
  lemma ScenarioEnds(answerA: Reply, answerB: Reply)
    requires WellFormed(answerA, 0) && WellFormed(answerB, 0) && !answerA.Error?
    ensures var w := Write(answerA);
            && RoundTripEnd([], Exchange(Written, w, [Chunk(|w|)])) == ReadEnd(Ok(answerA), [], [])
            && RoundTripEnd([], Exchange(Written, w, [])) == ReadEnd(Err(Timeout), [], w)
            && RoundTripEnd(w, Exchange(Written, Write(answerB), [Chunk(|w|)])).result == Ok(answerA)
  {
    var w := Write(answerA);
    var both := w + Write(answerB);
    ReplyRoundTrip(answerA, []);
    assert w + [] == w && [] + w == w && w[..|w|] == w && w[|w|..] == [];
    assert both[..|w|] == w && [] + both[..|w|] == w;
    var script := [Chunk(|w|)];
    assert |w| > 0 && script[1..] == [];
    assert ReadLoop(w, [], []) == ReadEnd(Ok(answerA), [], []);
    assert ReadLoop([], w, script) == ReadLoop([] + w[..|w|], w[|w|..], script[1..]);
    assert ReadLoop([], both, script) == ReadLoop([] + both[..|w|], both[|w|..], script[1..]);
  }

  /**
   * The exception is real: a retry that times out leaves its socket held, and the next command
   * is then answered with the previous command's reply.
   */
  method StaleAnswerAfterFailedRetry(a: Args, b: Args, answerA: Reply, answerB: Reply)
    returns (first: Result, second: Result)
    requires WellFormed(answerA, 0) && WellFormed(answerB, 0) && !answerA.Error?
    ensures first == Err(Timeout) && second == Ok(answerA)
  {
    ScenarioEnds(answerA, answerB);
    var client := new Client(None);
    var w, w' := Write(answerA), Write(answerB);
    var all := [Chunk(|w|)];
    var silent := Exchange(Written, w, []);
    var spare := Network(true, silent, silent);
    first := client.Command(a, Network(true, silent, Exchange(Written, w, all)), spare);
    first := client.Command(a, Network(true, silent, Exchange(WriteBroken(false), w, [])), spare);
    second := client.Command(b, Network(true, silent, Exchange(Written, w', all)), spare);
  }
}

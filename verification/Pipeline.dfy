/** The parse-and-dispatch loop of one connection, as a function of the bytes it has received. */
module Pipeline {
  import opened Bytes
  import opened Codec
  import opened CodecProofs

  /** `dispatch` seen from the loop: any function of the shared state and one command. */
  type Dispatch<!S> = (S, Args) -> (S, Reply)

  function ReasonText(why: Reason): string {
    match why
    case LineTooLong => "line too long"
    case BadCount => "invalid multibulk length"
    case CountTooLarge => "multibulk length too large"
    case BadLength => "invalid bulk length"
    case LengthTooLarge => "bulk length too large"
    case NotABulk(_) => "expected '$'"
    case MissingCrlf => "expected CRLF after bulk data"
    case BadInteger => "invalid integer reply"
    case TooDeep => "reply nested too deep"
    case BadSigil(_) => "unexpected reply type byte"
  }

  function ProtocolError(why: Reason): Reply {
    Error(Ascii("ERR Protocol error: " + ReasonText(why)))
  }

  /** `QUIT` in any mix of ASCII cases. */
  predicate IsQuit(args: Args)
    requires args != []
  {
    var w := args[0];
    |w| == 4 && w[0] in {81, 113} && w[1] in {85, 117} && w[2] in {73, 105} && w[3] in {84, 116}
  }

  /** What draining a read buffer did: state left, bytes left, commands run, replies owed. */
  datatype Drained<S> = Drained(state: S, rest: seq<byte>, ran: seq<Args>, replies: seq<Reply>, closing: bool)

  function Then<S>(ran: seq<Args>, replies: seq<Reply>, d: Drained<S>): Drained<S> {
    d.(ran := ran + d.ran, replies := replies + d.replies)
  }

  function Drain<S>(step: Dispatch<S>, s: S, buf: seq<byte>): Drained<S>
    decreases |buf|
  {
    CommandProgress(buf);
    match ParseCommand(buf)
    case Incomplete => Drained(s, buf, [], [], false)
    case Invalid(why) => Drained(s, buf, [], [ProtocolError(why)], true)
    case Complete(args, n) =>
      if args == [] then Drain(step, s, buf[n..])
      else
        var (s', reply) := step(s, args);
        if IsQuit(args) then Drained(s', buf[n..], [args], [reply], true)
        else Then([args], [reply], Drain(step, s', buf[n..]))
  }

  /** `d`, and then what draining once more did. */
  function Follow<S>(d: Drained<S>, e: Drained<S>): Drained<S> {
    Drained(e.state, e.rest, d.ran + e.ran, d.replies + e.replies, d.closing || e.closing)
  }

  /** Successive reads, each drained when it arrives, whether or not a close has been requested. */
  function Serve<S>(step: Dispatch<S>, s: S, frags: seq<seq<byte>>): Drained<S> {
    if frags == [] then Fresh(s)
    else
      var d := Serve(step, s, frags[..|frags| - 1]);
      Follow(d, Drain(step, d.state, d.rest + frags[|frags| - 1]))
  }

  lemma ServeTurn<S>(step: Dispatch<S>, s: S, frags: seq<seq<byte>>, frag: seq<byte>)
    ensures var d := Serve(step, s, frags);
            Serve(step, s, frags + [frag]) == Follow(d, Drain(step, d.state, d.rest + frag))
  {
    assert (frags + [frag])[..|frags|] == frags;
  }

  function Fresh<S>(s: S): Drained<S> { Drained(s, [], [], [], false) }

  lemma ThenThen<S>(a: seq<Args>, b: seq<Args>, x: seq<Reply>, y: seq<Reply>, d: Drained<S>)
    ensures Then(a, x, Then(b, y, d)) == Then(a + b, x + y, d)
  {
    assert a + (b + d.ran) == a + b + d.ran && x + (y + d.replies) == x + y + d.replies;
  }

  /** Draining a prefix and then the rest is draining everything, on arbitrary bytes. */
  lemma {:induction false} DrainSplit<S>(step: Dispatch<S>, s: S, a: seq<byte>, b: seq<byte>)
    requires !Drain(step, s, a).closing
    ensures var d := Drain(step, s, a);
            Drain(step, s, a + b) == Then(d.ran, d.replies, Drain(step, d.state, d.rest + b))
    decreases |a|, 1
  {
    CommandProgress(a);
    CommandExtends(a, b);
    var outcome := ParseCommand(a);
    if outcome.Incomplete? {
      DrainNothing(step, s, a);
      ThenNothing(Drain(step, s, a + b));
    } else {
      DrainSplitTurn(step, s, a, b, outcome.value, outcome.next);
    }
  }

  lemma DrainNothing<S>(step: Dispatch<S>, s: S, buf: seq<byte>)
    requires ParseCommand(buf).Incomplete?
    ensures Drain(step, s, buf) == Drained(s, buf, [], [], false)
  {}

  lemma ThenNothing<S>(d: Drained<S>)
    ensures Then([], [], d) == d
  {
    assert [] + d.ran == d.ran && [] + d.replies == d.replies;
  }

  lemma {:induction false} DrainSplitTurn<S>(step: Dispatch<S>, s: S, a: seq<byte>, b: seq<byte>, args: Args, n: nat)
    requires !Drain(step, s, a).closing && 0 < n <= |a|
    requires ParseCommand(a) == Complete(args, n) && ParseCommand(a + b) == Complete(args, n)
    ensures var d := Drain(step, s, a);
            Drain(step, s, a + b) == Then(d.ran, d.replies, Drain(step, d.state, d.rest + b))
    decreases |a|, 0
  {
    assert (a + b)[n..] == a[n..] + b;
    DrainTurn(step, s, a, args, n);
    DrainTurn(step, s, a + b, args, n);
    if args == [] {
      DrainSplit(step, s, a[n..], b);
    } else {
      DrainSplit(step, step(s, args).0, a[n..], b);
      ThenFirst(args, step(s, args).1, Drain(step, step(s, args).0, a[n..]), step, b);
    }
  }

  lemma ThenFirst<S>(args: Args, reply: Reply, d: Drained<S>, step: Dispatch<S>, b: seq<byte>)
    ensures var e, first := Drain(step, d.state, d.rest + b), Then([args], [reply], d);
            Then([args], [reply], Then(d.ran, d.replies, e)) == Then(first.ran, first.replies, e)
  {
    ThenThen([args], d.ran, [reply], d.replies, Drain(step, d.state, d.rest + b));
  }

  lemma DrainTurn<S>(step: Dispatch<S>, s: S, buf: seq<byte>, args: Args, n: nat)
    requires ParseCommand(buf) == Complete(args, n) && n <= |buf|
    ensures args == [] ==> Drain(step, s, buf) == Drain(step, s, buf[n..])
    ensures args != [] && IsQuit(args) ==> Drain(step, s, buf).closing
    ensures args != [] && !IsQuit(args) ==>
              Drain(step, s, buf) == Then([args], [step(s, args).1], Drain(step, step(s, args).0, buf[n..]))
  {}

  /** Read `k` finds no close requested, or it is empty and finds nothing left to run. */
  ghost predicate SeamlessAt<S>(step: Dispatch<S>, s: S, frags: seq<seq<byte>>, k: nat)
    requires k < |frags|
  {
    var d := Drain(step, s, Concat(frags[..k]));
    !d.closing || (frags[k] == [] && d.rest == [])
  }

  ghost predicate Seamless<S>(step: Dispatch<S>, s: S, frags: seq<seq<byte>>) {
    forall k :: 0 <= k < |frags| ==> SeamlessAt(step, s, frags, k)
  }

  lemma SeamlessInit<S>(step: Dispatch<S>, s: S, frags: seq<seq<byte>>, n: nat)
    requires Seamless(step, s, frags) && n <= |frags|
    ensures Seamless(step, s, frags[..n])
  {
    forall k | 0 <= k < n ensures SeamlessAt(step, s, frags[..n], k) {
      assert SeamlessAt(step, s, frags, k);
      assert frags[..n][..k] == frags[..k];
    }
  }

  lemma FollowNothing<S>(step: Dispatch<S>, d: Drained<S>)
    requires d.rest == []
    ensures Follow(d, Drain(step, d.state, d.rest + [])) == d
  {
    assert d.rest + [] == [];
    DrainNothing(step, d.state, []);
    assert d.ran + [] == d.ran && d.replies + [] == d.replies;
  }

  lemma ConcatSnoc(frags: seq<seq<byte>>)
    requires frags != []
    ensures Concat(frags) == Concat(frags[..|frags| - 1]) + frags[|frags| - 1]
  {
    var init, one := frags[..|frags| - 1], [frags[|frags| - 1]];
    assert frags == init + one;
    ConcatAppend(init, one);
    ConcatOne(frags[|frags| - 1]);
  }

  lemma ConcatOne(frag: seq<byte>)
    ensures Concat([frag]) == frag
  {
    var one: seq<seq<byte>> := [frag];
    assert one[1..] == [];
    assert frag + [] == frag;
  }

  /** No read boundary is visible: unless bytes follow a close, the split into reads is irrelevant. */
  lemma {:induction false} FragmentationInvariance<S>(step: Dispatch<S>, s: S, frags: seq<seq<byte>>)
    requires Seamless(step, s, frags)
    ensures Serve(step, s, frags) == Drain(step, s, Concat(frags))
    decreases frags
  {
    if frags == [] {
      DrainNothing(step, s, []);
    } else {
      var init, last := frags[..|frags| - 1], frags[|frags| - 1];
      SeamlessInit(step, s, frags, |init|);
      FragmentationInvariance(step, s, init);
      ConcatSnoc(frags);
      var d := Drain(step, s, Concat(init));
      assert SeamlessAt(step, s, frags, |init|);
      if d.closing {
        FollowNothing(step, d);
        assert Concat(init) + [] == Concat(init);
      } else {
        DrainSplit(step, s, Concat(init), last);
      }
    }
  }

  // ------------------------------------------------------------ encoded traffic

  function EncodeAll(cmds: seq<Args>): seq<byte> {
    if cmds == [] then [] else Encode(cmds[0]) + EncodeAll(cmds[1..])
  }

  ghost predicate Ordinary(cmd: Args) {
    cmd != [] && InCaps(cmd) && !IsQuit(cmd)
  }

  /** The replies a sequential server owes for a list of commands. */
  function Answers<S>(step: Dispatch<S>, s: S, cmds: seq<Args>): (rs: seq<Reply>)
    ensures |rs| == |cmds|
  {
    if cmds == [] then []
    else
      var (s', reply) := step(s, cmds[0]);
      [reply] + Answers(step, s', cmds[1..])
  }

  /** What a drain of part of encoded traffic has done; `all` says that the part is the whole. */
  ghost predicate RanPart<S>(step: Dispatch<S>, s: S, cmds: seq<Args>, all: bool, d: Drained<S>) {
    && !d.closing && d.ran <= cmds && d.replies == Answers(step, s, d.ran)
    && (all ==> d.ran == cmds && d.rest == [])
  }

  lemma RanNothing<S>(step: Dispatch<S>, s: S, cmds: seq<Args>, buf: seq<byte>)
    requires ParseCommand(buf).Incomplete?
    ensures RanPart(step, s, cmds, false, Drain(step, s, buf))
  {
    DrainNothing(step, s, buf);
  }

  lemma RanOneMore<S>(step: Dispatch<S>, s: S, cmds: seq<Args>, all: bool, got: seq<byte>)
    requires cmds != [] && Ordinary(cmds[0])
    requires RanPart(step, step(s, cmds[0]).0, cmds[1..], all, Drain(step, step(s, cmds[0]).0, got))
    ensures RanPart(step, s, cmds, all, Drain(step, s, Encode(cmds[0]) + got))
  {
    var ran := Drain(step, step(s, cmds[0]).0, got).ran;
    DrainWhole(step, s, cmds[0], got);
    AnswersTurn(step, s, cmds[0], ran);
    PrefixCons(cmds, ran);
  }

  /** A cut behind the first command, and one through it. */
  lemma CutBehind(w: seq<byte>, tail: seq<byte>, n: nat)
    requires |w| <= n <= |w + tail|
    ensures (w + tail)[..n] == w + tail[..n - |w|]
  {}

  lemma CutThrough(cmd: Args, tail: seq<byte>, n: nat)
    requires InCaps(cmd) && n < |Encode(cmd)|
    ensures ParseCommand((Encode(cmd) + tail)[..n]).Incomplete?
  {
    assert (Encode(cmd) + tail)[..n] == Encode(cmd)[..n];
    CommandCut(cmd, n);
  }

  lemma DrainCutTurn<S>(step: Dispatch<S>, s: S, cmds: seq<Args>, n: nat)
    requires cmds != [] && Ordinary(cmds[0]) && n <= |EncodeAll(cmds)|
    requires var w, tail, s' := Encode(cmds[0]), EncodeAll(cmds[1..]), step(s, cmds[0]).0;
             n >= |w| ==> RanPart(step, s', cmds[1..], n - |w| == |tail|, Drain(step, s', tail[..n - |w|]))
    ensures RanPart(step, s, cmds, n == |EncodeAll(cmds)|, Drain(step, s, EncodeAll(cmds)[..n]))
  {
    var w, tail := Encode(cmds[0]), EncodeAll(cmds[1..]);
    if n < |w| {
      CutThrough(cmds[0], tail, n);
      RanNothing(step, s, cmds, (w + tail)[..n]);
    } else {
      CutBehind(w, tail, n);
      RanOneMore(step, s, cmds, n - |w| == |tail|, tail[..n - |w|]);
    }
  }

  /** A cut through encoded traffic: whole commands run, the partial one waits. */
  lemma {:induction false} DrainCut<S>(step: Dispatch<S>, s: S, cmds: seq<Args>, n: nat)
    requires forall i :: 0 <= i < |cmds| ==> Ordinary(cmds[i])
    requires n <= |EncodeAll(cmds)|
    ensures RanPart(step, s, cmds, n == |EncodeAll(cmds)|, Drain(step, s, EncodeAll(cmds)[..n]))
    decreases cmds
  {
    if cmds == [] {
      DrainNothing(step, s, []);
    } else {
      var w := Encode(cmds[0]);
      if n >= |w| {
        DrainCut(step, step(s, cmds[0]).0, cmds[1..], n - |w|);
      }
      DrainCutTurn(step, s, cmds, n);
    }
  }

  lemma PrefixCons(cmds: seq<Args>, ran: seq<Args>)
    requires cmds != [] && ran <= cmds[1..]
    ensures [cmds[0]] + ran <= cmds
    ensures ran == cmds[1..] ==> [cmds[0]] + ran == cmds
  {}

  lemma AnswersTurn<S>(step: Dispatch<S>, s: S, cmd: Args, ran: seq<Args>)
    ensures Answers(step, s, [cmd] + ran) == [step(s, cmd).1] + Answers(step, step(s, cmd).0, ran)
  {
    assert ([cmd] + ran)[1..] == ran;
  }

  lemma DrainWhole<S>(step: Dispatch<S>, s: S, cmd: Args, tail: seq<byte>)
    requires Ordinary(cmd)
    ensures Drain(step, s, Encode(cmd) + tail) == Then([cmd], [step(s, cmd).1], Drain(step, step(s, cmd).0, tail))
  {
    assert (Encode(cmd) + tail)[|Encode(cmd)|..] == tail;
    CommandRoundTrip(cmd, tail);
  }

  /** Any split of a pipeline into reads runs exactly its commands, in order, and owes their answers. */
  lemma PipelineIsSequential<S>(step: Dispatch<S>, s: S, cmds: seq<Args>, frags: seq<seq<byte>>)
    requires forall i :: 0 <= i < |cmds| ==> Ordinary(cmds[i])
    requires Concat(frags) == EncodeAll(cmds)
    ensures var d := Serve(step, s, frags);
            !d.closing && d.ran == cmds && d.rest == [] && d.replies == Answers(step, s, cmds)
  {
    forall k | 0 <= k < |frags| ensures SeamlessAt(step, s, frags, k) {
      ConcatPrefix(frags, k);
      DrainCut(step, s, cmds, |Concat(frags[..k])|);
    }
    FragmentationInvariance(step, s, frags);
    DrainCut(step, s, cmds, |EncodeAll(cmds)|);
    assert EncodeAll(cmds)[..|EncodeAll(cmds)|] == Concat(frags);
  }

  // --------------------------------------------------------- traffic with QUIT

  ghost predicate Quits(cmd: Args) {
    cmd != [] && InCaps(cmd) && IsQuit(cmd)
  }

  /** The state a sequential server is in after a list of commands. */
  function StateAfter<S>(step: Dispatch<S>, s: S, cmds: seq<Args>): S {
    if cmds == [] then s else StateAfter(step, step(s, cmds[0]).0, cmds[1..])
  }

  /** QUIT is the last command a drain runs; the bytes behind it stay in the buffer. */
  lemma {:induction false} DrainThroughQuit<S>(step: Dispatch<S>, s: S, cmds: seq<Args>, quit: Args, tail: seq<byte>)
    requires (forall i :: 0 <= i < |cmds| ==> Ordinary(cmds[i])) && Quits(quit)
    ensures Drain(step, s, EncodeAll(cmds) + (Encode(quit) + tail)) == Quitted(step, s, cmds + [quit], tail)
    decreases cmds
  {
    if cmds == [] {
      assert EncodeAll(cmds) + (Encode(quit) + tail) == Encode(quit) + tail;
      assert cmds + [quit] == [quit] + [];
      DrainQuit(step, s, quit, tail);
      QuittedTurn(step, s, quit, [], tail);
    } else {
      var head, rest := cmds[0], cmds[1..];
      Assoc(Encode(head), EncodeAll(rest), Encode(quit) + tail);
      DrainWhole(step, s, head, EncodeAll(rest) + (Encode(quit) + tail));
      DrainThroughQuit(step, step(s, head).0, rest, quit, tail);
      QuittedTurn(step, s, head, rest + [quit], tail);
      assert [head] + (rest + [quit]) == cmds + [quit];
    }
  }

  /** All of `cmds` answered, a close requested, and `tail` left in the buffer. */
  function Quitted<S>(step: Dispatch<S>, s: S, cmds: seq<Args>, tail: seq<byte>): Drained<S> {
    Drained(StateAfter(step, s, cmds), tail, cmds, Answers(step, s, cmds), true)
  }

  lemma QuittedTurn<S>(step: Dispatch<S>, s: S, cmd: Args, more: seq<Args>, tail: seq<byte>)
    ensures Quitted(step, s, [cmd] + more, tail)
            == Then([cmd], [step(s, cmd).1], Quitted(step, step(s, cmd).0, more, tail))
  {
    assert ([cmd] + more)[1..] == more;
    AnswersTurn(step, s, cmd, more);
  }

  lemma DrainQuit<S>(step: Dispatch<S>, s: S, quit: Args, tail: seq<byte>)
    requires Quits(quit)
    ensures Drain(step, s, Encode(quit) + tail) == Drained(step(s, quit).0, tail, [quit], [step(s, quit).1], true)
  {
    assert (Encode(quit) + tail)[|Encode(quit)|..] == tail;
    CommandRoundTrip(quit, tail);
  }

  lemma OpenInQuit<S>(step: Dispatch<S>, s: S, cmds: seq<Args>, part: seq<byte>)
    requires forall i :: 0 <= i < |cmds| ==> Ordinary(cmds[i])
    requires ParseCommand(part).Incomplete?
    ensures !Drain(step, s, EncodeAll(cmds) + part).closing
  {
    var w := EncodeAll(cmds);
    assert w[..|w|] == w;
    DrainCut(step, s, cmds, |w|);
    DrainSplit(step, s, w, part);
    assert [] + part == part;
    DrainNothing(step, Drain(step, s, w).state, part);
  }

  /** Until the last byte of QUIT is there, nothing closes. */
  lemma OpenBeforeQuit<S>(step: Dispatch<S>, s: S, cmds: seq<Args>, quit: Args, n: nat)
    requires (forall i :: 0 <= i < |cmds| ==> Ordinary(cmds[i])) && Quits(quit)
    requires n < |EncodeAll(cmds) + Encode(quit)|
    ensures !Drain(step, s, (EncodeAll(cmds) + Encode(quit))[..n]).closing
  {
    var w := EncodeAll(cmds);
    if n <= |w| {
      assert (w + Encode(quit))[..n] == w[..n];
      DrainCut(step, s, cmds, n);
    } else {
      CutBehind(w, Encode(quit), n);
      CommandCut(quit, n - |w|);
      OpenInQuit(step, s, cmds, Encode(quit)[..n - |w|]);
    }
  }

  /** A drain of a prefix of such a pipeline closes exactly when the prefix is all of it. */
  lemma DrainToQuit<S>(step: Dispatch<S>, s: S, cmds: seq<Args>, quit: Args, got: seq<byte>)
    requires (forall i :: 0 <= i < |cmds| ==> Ordinary(cmds[i])) && Quits(quit)
    requires got <= EncodeAll(cmds) + Encode(quit)
    ensures Drain(step, s, got).closing <==> got == EncodeAll(cmds) + Encode(quit)
    ensures Drain(step, s, got).closing ==> EndedByQuit(step, s, cmds, quit, Drain(step, s, got))
  {
    var whole := EncodeAll(cmds) + Encode(quit);
    assert got == whole[..|got|];
    if |got| < |whole| {
      OpenBeforeQuit(step, s, cmds, quit, |got|);
    } else {
      DrainThroughQuit(step, s, cmds, quit, []);
      assert Encode(quit) + [] == Encode(quit);
    }
  }

  ghost predicate EndedByQuit<S>(step: Dispatch<S>, s: S, cmds: seq<Args>, quit: Args, d: Drained<S>) {
    d.closing && d.rest == [] && d.ran == cmds + [quit] && d.replies == Answers(step, s, cmds + [quit])
  }

  lemma SeamlessToQuit<S>(step: Dispatch<S>, s: S, cmds: seq<Args>, quit: Args, frags: seq<seq<byte>>, k: nat)
    requires (forall i :: 0 <= i < |cmds| ==> Ordinary(cmds[i])) && Quits(quit)
    requires Concat(frags) <= EncodeAll(cmds) + Encode(quit) && k < |frags|
    ensures SeamlessAt(step, s, frags, k)
  {
    ConcatPrefix(frags, k);
    var got := Concat(frags[..k]);
    DrainToQuit(step, s, cmds, quit, got);
    if Drain(step, s, got).closing {
      NothingBehind(frags, k);
    }
  }

  /** A pipeline that ends in QUIT, however it is split, runs to its end and then asks for the close. */
  lemma PipelineToQuit<S>(step: Dispatch<S>, s: S, cmds: seq<Args>, quit: Args, frags: seq<seq<byte>>)
    requires (forall i :: 0 <= i < |cmds| ==> Ordinary(cmds[i])) && Quits(quit)
    requires Concat(frags) <= EncodeAll(cmds) + Encode(quit)
    ensures Serve(step, s, frags).closing <==> Concat(frags) == EncodeAll(cmds) + Encode(quit)
    ensures Serve(step, s, frags).closing ==> EndedByQuit(step, s, cmds, quit, Serve(step, s, frags))
  {
    forall k | 0 <= k < |frags| ensures SeamlessAt(step, s, frags, k) {
      SeamlessToQuit(step, s, cmds, quit, frags, k);
    }
    FragmentationInvariance(step, s, frags);
    DrainToQuit(step, s, cmds, quit, Concat(frags));
  }

  lemma NothingBehind(frags: seq<seq<byte>>, k: nat)
    requires k < |frags| && |Concat(frags[..k])| >= |Concat(frags)|
    ensures frags[k] == []
  {
    ConcatPrefix(frags, k + 1);
    ConcatSnoc(frags[..k + 1]);
    assert frags[..k + 1][..k] == frags[..k];
  }

  lemma ConcatPrefix(frags: seq<seq<byte>>, k: nat)
    requires k <= |frags|
    ensures |Concat(frags[..k])| <= |Concat(frags)|
    ensures Concat(frags[..k]) == Concat(frags)[..|Concat(frags[..k])|]
  {
    ConcatAppend(frags[..k], frags[k..]);
    assert frags[..k] + frags[k..] == frags;
  }

  /** Repeated `parse_reply`, as a client reading a whole stream would do. */
  function DecodeAll(buf: seq<byte>): Option<seq<Reply>>
    decreases |buf|
  {
    if buf == [] then Some([])
    else
      ReplyProgress(buf, 0, 0);
      match ParseReply(buf)
      case Complete(r, n) =>
        (match DecodeAll(buf[n..])
         case Some(rs) => Some([r] + rs)
         case None => None)
      case _ => None
  }

  lemma {:induction false} DecodeAllWritten(replies: seq<Reply>)
    requires forall i :: 0 <= i < |replies| ==> WellFormed(replies[i], 0)
    ensures DecodeAll(WriteAll(replies)) == Some(replies)
    decreases replies
  {
    if replies != [] {
      var w := WriteAll(replies);
      ReplyRoundTrip(replies[0], WriteAll(replies[1..]));
      ReplyProgress(w, 0, 0);
      assert w[|Write(replies[0])|..] == WriteAll(replies[1..]);
      DecodeAllWritten(replies[1..]);
      assert [replies[0]] + replies[1..] == replies;
    }
  }

  lemma {:induction false} WriteAllAppend(a: seq<Reply>, b: seq<Reply>)
    ensures WriteAll(a + b) == WriteAll(a) + WriteAll(b)
    decreases a
  {
    if a == [] {
      assert a + b == b;
    } else {
      assert (a + b)[1..] == a[1..] + b;
      WriteAllAppend(a[1..], b);
    }
  }

  /** Request to answer: whatever the split into reads, the client decodes the answers in order. */
  lemma PipelineDecodes<S>(step: Dispatch<S>, s: S, cmds: seq<Args>, frags: seq<seq<byte>>)
    requires forall i :: 0 <= i < |cmds| ==> Ordinary(cmds[i])
    requires forall i :: 0 <= i < |cmds| ==> WellFormed(Answers(step, s, cmds)[i], 0)
    requires Concat(frags) == EncodeAll(cmds)
    ensures DecodeAll(WriteAll(Serve(step, s, frags).replies)) == Some(Answers(step, s, cmds))
  {
    PipelineIsSequential(step, s, cmds, frags);
    DecodeAllWritten(Answers(step, s, cmds));
  }
}

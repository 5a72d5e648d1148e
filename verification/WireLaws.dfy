/** The octets on the wire, spelled with their own characters, and what a server makes of them. */
module WireLaws {
  import opened Bytes
  import opened Decimal
  import opened Codec
  import opened CodecProofs
  import opened Pipeline

  const END: seq<byte> := ['\r' as int, '\n' as int]

  /** An ASCII text is its characters' codes. */
  lemma AsciiIs(s: string)
    ensures |Ascii(s)| == |s| && forall i :: 0 <= i < |s| && s[i] < 128 as char ==> Ascii(s)[i] == s[i] as int
  {}

  // ----------------------------------------------------------------- numbers

  /** The number that digits at these places add up to. */
  ghost function PlaceSum(s: seq<byte>): int {
    if s == [] then 0 else (s[0] - '0' as int) * Pow10(|s| - 1) + PlaceSum(s[1..])
  }

  lemma {:induction false} PlaceSumSnoc(s: seq<byte>, b: byte)
    ensures PlaceSum(s + [b]) == 10 * PlaceSum(s) + (b - '0' as int)
  {
    if s == [] {
      assert s + [b] == [b] && [b][1..] == [];
    } else {
      assert (s + [b])[1..] == s[1..] + [b];
      PlaceSumSnoc(s[1..], b);
      Regroup(s[0] - '0' as int, Pow10(|s| - 1), PlaceSum(s[1..]), b - '0' as int);
    }
  }

  lemma Regroup(d: int, p: int, rest: int, last: int)
    ensures d * (10 * p) + (10 * rest + last) == 10 * (d * p + rest) + last
  {}

  /** A number is printed with the digits `0` to `9`, each counting for its place, behind `-` if negative. */
  lemma {:induction false} NumberIs(n: nat)
    ensures PlaceSum(Digits(n)) == n
    ensures forall i :: 0 <= i < |Digits(n)| ==> '0' as int <= Digits(n)[i] <= '9' as int
    ensures Print(n) == Digits(n) && (n > 0 ==> Print(0 - n) == ['-' as int] + Digits(n))
    ensures |Digits(n)| > 1 ==> Digits(n)[0] != '0' as int
  {
    if n < 10 {
      assert [ZERO + n][1..] == [];
    } else {
      NumberIs(n / 10);
      PlaceSumSnoc(Digits(n / 10), ZERO + n % 10);
    }
  }

  /** What is left of a number behind its sign, and which way it counts. */
  function Unsigned(s: seq<byte>): seq<byte> {
    if s != [] && (s[0] == '+' as int || s[0] == '-' as int) then s[1..] else s
  }

  ghost function Signed(s: seq<byte>): int {
    if s != [] && s[0] == '-' as int then 0 - PlaceSum(Unsigned(s)) else PlaceSum(Unsigned(s))
  }

  ghost predicate OnlyDigits(s: seq<byte>) { forall i :: 0 <= i < |s| ==> '0' as int <= s[i] <= '9' as int }

  /** A number is read from an optional sign and digits, with any leading zeros, if it fits 64 bits. */
  lemma NumberIsRead(s: seq<byte>)
    ensures ParseI64(s) == if Unsigned(s) != [] && OnlyDigits(Unsigned(s))
                              && -9_223_372_036_854_775_808 <= Signed(s) <= 9_223_372_036_854_775_807
                           then Some(Signed(s)) else None
  {
    DigitsAreRead(Unsigned(s));
  }

  lemma {:induction false} DigitsAreRead(s: seq<byte>)
    ensures DigitsValue(s).Some? <==> OnlyDigits(s)
    ensures DigitsValue(s).Some? ==> DigitsValue(s).value == PlaceSum(s)
  {
    if s != [] {
      var init, last := s[..|s| - 1], s[|s| - 1];
      DigitsAreRead(init);
      PlaceSumSnoc(init, last);
      assert init + [last] == s;
      assert OnlyDigits(s) <==> OnlyDigits(init) && '0' as int <= last <= '9' as int;
    }
  }

  // ----------------------------------------------------------------- printing

  function Counted(sigil: char, n: int): seq<byte>
    requires sigil < 128 as char
  {
    [sigil as int] + Print(n) + END
  }

  lemma LineIs(sigil: byte, text: seq<byte>)
    ensures Line(sigil, text) == [sigil] + text + END
  {}

  /** Each kind of reply, byte by byte. */
  lemma ReplyIs(text: seq<byte>, n: int, items: seq<Reply>)
    ensures Write(Simple(text)) == ['+' as int] + text + END
    ensures Write(Error(text)) == ['-' as int] + text + END
    ensures Write(Integer(n)) == Counted(':', n)
    ensures Write(Bulk(text)) == Counted('$', |text|) + text + END
    ensures Write(NullBulk) == Ascii("$-1\r\n") && Write(NullArray) == Ascii("*-1\r\n")
    ensures Write(Array(items)) == Counted('*', |items|) + Concat(Written(items))
  {
    NullsAre();
    ItemsAre(items);
  }

  ghost function Written(items: seq<Reply>): seq<seq<byte>> {
    seq(|items|, i requires 0 <= i < |items| => Write(items[i]))
  }

  lemma NullsAre()
    ensures Write(NullBulk) == Ascii("$-1\r\n") && Write(NullArray) == Ascii("*-1\r\n")
  {
    assert Print(-1) == Ascii("-1");
  }

  lemma ItemsAre(items: seq<Reply>)
    ensures Write(Array(items)) == Counted('*', |items|) + Concat(Written(items))
  {
    WriteAllIs(items);
    LineIs('*' as int, Print(|items|));
  }

  lemma {:induction false} WriteAllIs(items: seq<Reply>)
    ensures WriteAll(items) == Concat(Written(items))
  {
    if items != [] {
      WriteAllIs(items[1..]);
      assert Written(items)[1..] == Written(items[1..]);
    }
  }

  function Framed(arg: seq<byte>): seq<byte> { Counted('$', |arg|) + arg + END }

  ghost function AllFramed(args: Args): seq<seq<byte>> {
    seq(|args|, i requires 0 <= i < |args| => Framed(args[i]))
  }

  /** A command: how many arguments, and each with its length in front. */
  lemma CommandIs(args: Args)
    ensures Encode(args) == Counted('*', |args|) + Concat(AllFramed(args))
  {
    ArgsAre(args);
    LineIs('*' as int, Print(|args|));
  }

  lemma {:induction false} ArgsAre(args: Args)
    ensures EncodeArgs(args) == Concat(AllFramed(args))
  {
    if args != [] {
      ArgsAre(args[1..]);
      assert AllFramed(args)[1..] == AllFramed(args[1..]);
      assert EncodeArg(args[0]) == Framed(args[0]);
    }
  }

  // -------------------------------------------------------------------- limits

  lemma CountedAt(sigil: char, n: int, rest: seq<byte>) returns (line: seq<byte>, next: nat)
    requires sigil < 128 as char && InI64(n)
    ensures var buf := Counted(sigil, n) + rest;
            && buf != [] && buf[0] == sigil as int && next == |Counted(sigil, n)|
            && ReadLine(buf, 1, 0) == ReadLine(buf, 1, 1) == Complete(line, next) && ParseI64(line) == Some(n)
  {
    var buf := Counted(sigil, n) + rest;
    line, next := Print(n), 1 + |Print(n)| + 2;
    assert Counted(sigil, n) == Line(sigil as int, Print(n));
    assert buf[..|Line(sigil as int, Print(n))|] == Line(sigil as int, Print(n));
    SigilAt(buf, 0, sigil as int, Print(n));
    NumberAt(buf, 1, n, 0);
    NumberAt(buf, 1, n, 1);
  }

  /** A command may announce at most 1048576 arguments. */
  lemma CountLimit(n: int, rest: seq<byte>)
    requires InI64(n)
    ensures var o := ParseCommand(Counted('*', n) + rest);
            && (n < 0 ==> o == Invalid(BadCount)) && (n > 1_048_576 ==> o == Invalid(CountTooLarge))
            && (n == 0 ==> o == Complete([], |Counted('*', 0)|))
            && (n >= 0 && rest == [] && 0 < n <= 1_048_576 ==> o == Incomplete)
  {
    var line, next := CountedAt('*', n, rest);
  }

  /** An argument and a bulk reply may be at most 536870912 bytes long. */
  lemma LengthLimit(n: int, rest: seq<byte>)
    requires InI64(n)
    ensures var o := ParseReply(Counted('$', n) + rest);
            && (n == -1 ==> o == Complete(NullBulk, 5)) && (n < -1 ==> o == Invalid(BadLength))
            && (n > 536_870_912 ==> o == Invalid(LengthTooLarge))
            && (rest == [] && 0 <= n <= 536_870_912 ==> o == Incomplete)
    ensures var o := ParseArg(Counted('$', n) + rest, 0);
            && (n < 0 ==> o == Invalid(BadLength)) && (n > 536_870_912 ==> o == Invalid(LengthTooLarge))
            && (rest == [] && 0 <= n <= 536_870_912 ==> o == Incomplete)
  {
    NumberIs(1);
    var line, next := CountedAt('$', n, rest);
  }

  /** A line without its CRLF is waited for up to 65536 bytes. */
  lemma LineLimit(buf: seq<byte>)
    requires NoCrlf(buf) && buf != []
    ensures ParseCommand(buf) == if |buf| > 65_536 then Invalid(LineTooLong) else Incomplete
  {}

  /** `k` array headers inside each other. */
  function Nested(k: nat): seq<byte> {
    if k == 0 then [] else Ascii("*1\r\n") + Nested(k - 1)
  }

  lemma {:induction false} NestedAt(k: nat, i: nat)
    requires i <= k
    ensures |Nested(k)| == 4 * k && Nested(k)[4 * i..] == Nested(k - i)
  {
    if k == 0 {
    } else if i == 0 {
      NestedAt(k - 1, 0);
      assert Nested(k)[0..] == Nested(k);
    } else {
      NestedAt(k - 1, i - 1);
      assert Nested(k)[4 * i..] == Nested(k - 1)[4 * (i - 1)..];
    }
  }

  /** Arrays may be nested 32 deep inside an array, and no deeper. */
  lemma DepthLimit(k: nat)
    ensures ParseReply(Nested(k)) == if k > 32 then Invalid(TooDeep) else Incomplete
  {
    DepthFrom(k, 0);
  }

  lemma {:induction false} DepthFrom(k: nat, d: nat)
    requires d <= k && d <= 33
    ensures ParseReplyAt(Nested(k), 4 * d, d) == if k > 32 then Invalid(TooDeep) else Incomplete
    decreases k - d
  {
    NestedAt(k, d);
    if d == 33 {
      BelowTheLimit(Nested(k), 4 * d);
    } else if d == k {
      PastTheEnd(Nested(k), 4 * d, d);
    } else {
      DepthFrom(k, d + 1);
      NestedHeader(Nested(k), 4 * d, k - d);
      DepthTurn(Nested(k), 4 * d, d, ParseReplyAt(Nested(k), 4 * d + 4, d + 1));
    }
  }

  lemma BelowTheLimit(buf: seq<byte>, pos: nat)
    ensures ParseReplyAt(buf, pos, 33) == Invalid(TooDeep)
  {}

  lemma PastTheEnd(buf: seq<byte>, pos: nat, depth: nat)
    requires depth <= 32 && pos >= |buf|
    ensures ParseReplyAt(buf, pos, depth) == Incomplete
  {}

  ghost predicate HasHeader(buf: seq<byte>, pos: nat) {
    && pos + 4 <= |buf| && buf[pos] == STAR && ParseI64(Print(1)) == Some(1)
    && ReadLine(buf, pos + 1, pos + 1) == Complete(Print(1), pos + 4)
  }

  lemma NestedHeader(buf: seq<byte>, pos: nat, k: nat)
    requires k > 0 && pos <= |buf| && buf[pos..] == Nested(k)
    ensures HasHeader(buf, pos)
  {
    var header := Line(STAR, Print(1));
    assert header == Ascii("*1\r\n");
    assert buf[pos..][..4] == header;
    assert buf[pos..pos + 4] == header;
    SigilAt(buf, pos, STAR, Print(1));
    NumberAt(buf, pos + 1, 1, pos + 1);
  }

  lemma DepthTurn(buf: seq<byte>, pos: nat, depth: nat, inner: Outcome<Reply>)
    requires depth <= 32 && HasHeader(buf, pos)
    requires inner == ParseReplyAt(buf, pos + 4, depth + 1) && !inner.Complete?
    ensures ParseReplyAt(buf, pos, depth) == inner
  {
    OneItem(buf, pos + 4, depth + 1, inner);
    AsBody(buf, pos, depth);
  }

  lemma AsBody(buf: seq<byte>, pos: nat, depth: nat)
    requires depth <= 32 && HasHeader(buf, pos)
    ensures ParseReplyAt(buf, pos, depth) == ParseArrayBody(buf, Print(1), pos + 4, depth)
  {}

  lemma OneItem(buf: seq<byte>, pos: nat, depth: nat, inner: Outcome<Reply>)
    requires depth <= 33 && inner == ParseReplyAt(buf, pos, depth) && !inner.Complete?
    ensures ParseItems(buf, pos, depth, 1, []) == if inner.Incomplete? then Incomplete else Invalid(inner.why)
  {}

  /** What cannot be a command or a reply is refused, each for its own reason. */
  lemma Refusals(line: seq<byte>, sigil: byte, data: seq<byte>, rest: seq<byte>)
    requires NoCrlf(line) && ParseI64(line).None?
    ensures ParseCommand(['*' as int] + line + END + rest) == Invalid(BadCount)
    ensures ParseArg(['$' as int] + line + END + rest, 0) == Invalid(BadLength)
    ensures sigil != '$' as int ==> ParseArg([sigil] + rest, 0) == Invalid(NotABulk(sigil))
    ensures ParseReply([':' as int] + line + END + rest) == Invalid(BadInteger)
    ensures ParseReply(['$' as int] + line + END + rest) == Invalid(BadLength)
    ensures ParseReply(['*' as int] + line + END + rest) == Invalid(BadCount)
    ensures [sigil] !in [Ascii("+"), Ascii("-"), Ascii(":"), Ascii("$"), Ascii("*")] ==>
              ParseReply([sigil] + rest) == Invalid(BadSigil(sigil))
    ensures |data| <= 536_870_912 && |rest| >= 2 && rest[..2] != END ==>
              ParseReply(Counted('$', |data|) + data + rest) == Invalid(MissingCrlf)
  {
    HeaderLine('*' as int, line, rest);
    HeaderLine('$' as int, line, rest);
    HeaderLine(':' as int, line, rest);
    UnknownSigil(sigil, rest);
    if |data| <= 536_870_912 && |rest| >= 2 && rest[..2] != END {
      Unended(data, rest);
    }
  }

  lemma HeaderLine(sigil: byte, line: seq<byte>, rest: seq<byte>)
    requires NoCrlf(line)
    ensures var buf, next := [sigil] + line + END + rest, |line| + 3;
            && buf[0] == sigil && ReadLine(buf, 1, 0) == ReadLine(buf, 1, 1) == Complete(line, next)
  {
    var buf := [sigil] + line + END + rest;
    assert buf[1..][..|line| + 2] == line + CRLF;
    assert At(buf, 1, line + CRLF);
    LineAt(buf, 1, line, 0);
    LineAt(buf, 1, line, 1);
  }

  lemma UnknownSigil(sigil: byte, rest: seq<byte>)
    ensures sigil != '$' as int ==> ParseArg([sigil] + rest, 0) == Invalid(NotABulk(sigil))
    ensures [sigil] !in [Ascii("+"), Ascii("-"), Ascii(":"), Ascii("$"), Ascii("*")] ==>
              ParseReply([sigil] + rest) == Invalid(BadSigil(sigil))
  {
    assert Ascii("+") == [PLUS] && Ascii("-") == [MINUS] && Ascii(":") == [COLON];
    assert Ascii("$") == [DOLLAR] && Ascii("*") == [STAR];
  }

  lemma Unended(data: seq<byte>, rest: seq<byte>)
    requires |data| <= 536_870_912 && |rest| >= 2 && rest[..2] != END
    ensures ParseReply(Counted('$', |data|) + data + rest) == Invalid(MissingCrlf)
  {
    var line, next := CountedAt('$', |data|, data + rest);
    var buf := Counted('$', |data|) + (data + rest);
    Assoc(Counted('$', |data|), data, rest);
    assert buf[next..] == data + rest;
    assert buf[next + |data|] == rest[0] && buf[next + |data| + 1] == rest[1];
    assert rest[..2] == [rest[0], rest[1]];
  }

  // --------------------------------------------------------------- the server

  /** ASCII upper case. */
  function Upper(s: seq<byte>): seq<byte> {
    seq(|s|, i requires 0 <= i < |s| => if 'a' as int <= s[i] <= 'z' as int then s[i] - 32 else s[i])
  }

  /** A connection quits on the word QUIT in any case, whatever follows it, and on no other. */
  lemma QuitIs(args: Args)
    requires args != []
    ensures IsQuit(args) <==> Upper(args[0]) == Ascii("QUIT")
  {
    var w, u, quit := args[0], Upper(args[0]), Ascii("QUIT");
    assert quit == [81, 85, 73, 84];
    if |w| == 4 {
      assert u == [u[0], u[1], u[2], u[3]];
    }
  }

  /** Ordinary commands are run and answered, and then draining goes on behind them. */
  lemma {:induction false} DrainBehind<S>(step: Dispatch<S>, s: S, cmds: seq<Args>, tail: seq<byte>)
    requires forall i :: 0 <= i < |cmds| ==> Ordinary(cmds[i])
    ensures Drain(step, s, EncodeAll(cmds) + tail)
            == Then(cmds, Answers(step, s, cmds), Drain(step, StateAfter(step, s, cmds), tail))
    decreases cmds
  {
    if cmds == [] {
      assert EncodeAll(cmds) + tail == tail;
      ThenNothing(Drain(step, s, tail));
    } else {
      var head, rest := cmds[0], cmds[1..];
      Assoc(Encode(head), EncodeAll(rest), tail);
      DrainWhole(step, s, head, EncodeAll(rest) + tail);
      DrainBehind(step, step(s, head).0, rest, tail);
      ThenThen([head], rest, [step(s, head).1], Answers(step, step(s, head).0, rest),
               Drain(step, StateAfter(step, s, cmds), tail));
      assert [head] + rest == cmds;
    }
  }

  /**
   * Bytes that are no command: what came before is run and answered, nothing after is, and one error line
   * that says so is owed before the close.
   */
  lemma MalformedCloses<S>(step: Dispatch<S>, s: S, cmds: seq<Args>, bad: seq<byte>) returns (text: seq<byte>)
    requires (forall i :: 0 <= i < |cmds| ==> Ordinary(cmds[i])) && ParseCommand(bad).Invalid?
    ensures Drain(step, s, EncodeAll(cmds) + bad)
            == Drained(StateAfter(step, s, cmds), bad, cmds, Answers(step, s, cmds) + [Error(text)], true)
    ensures Ascii("ERR Protocol error: ") < text && Write(Error(text)) == ['-' as int] + text + END
  {
    DrainBehind(step, s, cmds, bad);
    text := ErrorText(ParseCommand(bad).why);
    var s' := StateAfter(step, s, cmds);
    DrainInvalid(step, s', bad);
    ThenClosed(cmds, Answers(step, s, cmds), s', bad, text);
    LineIs('-' as int, text);
  }

  function ErrorText(why: Reason): (text: seq<byte>)
    ensures Ascii("ERR Protocol error: ") < text
  {
    var s := "ERR Protocol error: " + ReasonText(why);
    assert Ascii("ERR Protocol error: ") == Ascii(s)[..|"ERR Protocol error: "|];
    Ascii(s)
  }

  lemma ThenClosed<S>(cmds: seq<Args>, answers: seq<Reply>, s: S, bad: seq<byte>, text: seq<byte>)
    ensures Then(cmds, answers, Drained(s, bad, [], [Error(text)], true))
            == Drained(s, bad, cmds, answers + [Error(text)], true)
  {}

  lemma DrainInvalid<S>(step: Dispatch<S>, s: S, bad: seq<byte>)
    requires ParseCommand(bad).Invalid?
    ensures Drain(step, s, bad)
            == Drained(s, bad, [], [Error(ErrorText(ParseCommand(bad).why))], true)
  {}

  /** An empty command is passed over in silence: a line of spaces, or an array of none. */
  lemma EmptyIsSilent<S>(step: Dispatch<S>, s: S, blanks: seq<byte>, tail: seq<byte>)
    requires forall i :: 0 <= i < |blanks| ==> blanks[i] == ' ' as int
    ensures Drain(step, s, blanks + END + tail) == Drain(step, s, tail)
    ensures Drain(step, s, Ascii("*0\r\n") + tail) == Drain(step, s, tail)
  {
    BlankIsEmpty(blanks, tail);
    Behind(step, s, blanks + END, tail);
    NoneIsEmpty(tail);
    Behind(step, s, Ascii("*0\r\n"), tail);
  }

  lemma Behind<S>(step: Dispatch<S>, s: S, front: seq<byte>, tail: seq<byte>)
    requires ParseCommand(front + tail) == Complete([], |front|)
    ensures Drain(step, s, front + tail) == Drain(step, s, tail)
  {
    assert (front + tail)[|front|..] == tail;
    DrainTurn(step, s, front + tail, [], |front|);
  }

  lemma BlankIsEmpty(blanks: seq<byte>, tail: seq<byte>)
    requires IsBlankRun(blanks)
    ensures ParseCommand(blanks + END + tail) == Complete([], |blanks + END|)
  {
    assert Spaced([], []) + blanks == blanks;
    InlineRoundTrip([], [], blanks, tail);
  }

  lemma NoneIsEmpty(tail: seq<byte>)
    ensures ParseCommand(Ascii("*0\r\n") + tail) == Complete([], 4)
  {
    CountLimit(0, tail);
    assert Counted('*', 0) == Ascii("*0\r\n");
  }
}

/** Which lines rejected for their length can still become part of a complete command or reply. */
module CodecStalls {
  import opened Bytes
  import opened Decimal
  import opened Codec
  import opened CodecProofs

  // ------------------------------------------------------------ pending lines

  /** What is held of an unfinished line, without a CR that its LF may still complete. */
  function Pending(buf: seq<byte>, body: nat): seq<byte>
    requires body <= |buf|
  {
    var held := buf[body..];
    if held != [] && held[|held| - 1] == CR then held[..|held| - 1] else held
  }

  /** The shortest way to end the line. */
  function LineEnd(buf: seq<byte>): seq<byte> {
    if buf != [] && buf[|buf| - 1] == CR then [LF] else CRLF
  }

  predicate InRange(n: Option<int>, lo: int, hi: int) { n.Some? && lo <= n.value <= hi }

  lemma LineCompletes(buf: seq<byte>, body: nat, start: nat)
    requires body < |buf| && FindCrlf(buf, body).None?
    ensures ReadLine(buf + LineEnd(buf), body, start) == Complete(Pending(buf, body), |buf + LineEnd(buf)|)
  {
    var whole := buf + LineEnd(buf);
    var end := |whole| - 2;
    FindCrlfIsFirst(buf, body);
    forall j | body <= j < end ensures !CrlfAt(whole, j) {
      assert !CrlfAt(buf, j);
    }
    FirstCrlf(whole, body, end);
    assert whole[body..end] == Pending(buf, body);
  }

  /** Whatever arrives, the finished line is what was pending, or starts with all that was held. */
  lemma LineGrows(buf: seq<byte>, more: seq<byte>, body: nat, start: nat) returns (x: seq<byte>)
    requires body < |buf| && FindCrlf(buf, body).None? && ReadLine(buf + more, body, start).Complete?
    ensures var line := ReadLine(buf + more, body, start).value;
            line == Pending(buf, body) || line == buf[body..] + x
  {
    var whole := buf + more;
    var i := FindCrlf(whole, body).value;
    FindCrlfIsFirst(buf, body);
    assert !CrlfAt(buf, i);
    assert i >= |buf| - 1;
    x := [];
    if i == |buf| - 1 {
      assert whole[body..i] == Pending(buf, body);
    } else {
      x := whole[|buf|..i];
      assert whole[body..i] == buf[body..] + x;
    }
  }

  lemma {:induction false} DigitsValueGrows(a: seq<byte>, b: seq<byte>)
    requires DigitsValue(a + b).Some?
    ensures DigitsValue(a).Some? && DigitsValue(a).value <= DigitsValue(a + b).value
    decreases b
  {
    if b == [] {
      assert a + b == a;
    } else {
      assert (a + b)[..|a + b| - 1] == a + b[..|b| - 1];
      DigitsValueGrows(a, b[..|b| - 1]);
    }
  }

  lemma {:induction false} ValueMeansDigits(s: seq<byte>)
    requires DigitsValue(s).Some?
    ensures AllDigits(s)
  {
    if s != [] {
      ValueMeansDigits(s[..|s| - 1]);
      assert s == s[..|s| - 1] + [s[|s| - 1]];
    }
  }

  lemma NumberHasNoCr(s: seq<byte>)
    requires ParseI64(s).Some?
    ensures CR !in s
  {
    var body := if s[0] == PLUS || s[0] == MINUS then s[1..] else s;
    ValueMeansDigits(body);
    assert s[0] == PLUS || s[0] == MINUS ==> s == [s[0]] + body;
  }

  /** More digits only take a number further from zero. */
  lemma NumberGrows(q: seq<byte>, x: seq<byte>, lo: int, hi: int)
    requires |q| >= 2 && I64_MIN <= lo <= 0 <= hi <= I64_MAX && InRange(ParseI64(q + x), lo, hi)
    ensures InRange(ParseI64(q), lo, hi)
  {
    var signed := q[0] == PLUS || q[0] == MINUS;
    var body := if signed then q[1..] else q;
    assert (q + x)[0] == q[0] && (signed ==> (q + x)[1..] == body + x);
    DigitsValueGrows(body, x);
  }

  /** A number line that can end in range is already in range. */
  lemma PendingInRange(buf: seq<byte>, more: seq<byte>, body: nat, start: nat, lo: int, hi: int)
    requires body + 3 <= |buf| && FindCrlf(buf, body).None? && ReadLine(buf + more, body, start).Complete?
    requires I64_MIN <= lo <= 0 <= hi <= I64_MAX && InRange(ParseI64(ReadLine(buf + more, body, start).value), lo, hi)
    ensures InRange(ParseI64(Pending(buf, body)), lo, hi)
  {
    var line, held := ReadLine(buf + more, body, start).value, buf[body..];
    var x := LineGrows(buf, more, body, start);
    if line != Pending(buf, body) {
      NumberHasNoCr(line);
      assert held[|held| - 1] in line;
      NumberGrows(held, x, lo, hi);
    }
  }

  // ----------------------------------------------------------------- commands

  /** From where an argument starts to where the next one does, if it is whole. */
  type Hop = nat -> Option<nat>

  function ArgHop(buf: seq<byte>): Hop {
    pos => if ParseArg(buf, pos).Complete? then Some(ParseArg(buf, pos).next) else None
  }

  /** The first of `count` arguments that is not whole. */
  function StallOn(hop: Hop, pos: nat, count: nat): nat
    decreases count
  {
    if count == 0 || hop(pos).None? then pos else StallOn(hop, hop(pos).value, count - 1)
  }

  /** `count` arguments in a row are whole. */
  predicate WholeOn(hop: Hop, pos: nat, count: nat)
    decreases count
  {
    count == 0 || (hop(pos).Some? && WholeOn(hop, hop(pos).value, count - 1))
  }

  /** If longer input completes them all, it completes the one that stalled. */
  lemma {:induction false} WholeNeedsStall(hop: Hop, hop': Hop, pos: nat, count: nat)
    requires forall p :: hop(p).Some? ==> hop'(p) == hop(p)
    requires !WholeOn(hop, pos, count) && WholeOn(hop', pos, count)
    ensures hop'(StallOn(hop, pos, count)).Some?
    decreases count
  {
    if hop(pos).Some? {
      WholeNeedsStall(hop, hop', hop(pos).value, count - 1);
    }
  }

  /** How many arguments are left at the stall. */
  function LeftOn(hop: Hop, pos: nat, count: nat): nat
    decreases count
  {
    if count == 0 || hop(pos).None? then count else LeftOn(hop, hop(pos).value, count - 1)
  }

  /** Completing the one that stalled, and all behind it, completes them all. */
  lemma {:induction false} StallMakesWhole(hop: Hop, hop': Hop, pos: nat, count: nat)
    requires forall p :: hop(p).Some? ==> hop'(p) == hop(p)
    requires !WholeOn(hop, pos, count) && WholeOn(hop', StallOn(hop, pos, count), LeftOn(hop, pos, count))
    ensures WholeOn(hop', pos, count)
    decreases count
  {
    if hop(pos).Some? {
      StallMakesWhole(hop, hop', hop(pos).value, count - 1);
    }
  }

  lemma {:induction false} SomeAreLeft(hop: Hop, pos: nat, count: nat)
    requires !WholeOn(hop, pos, count)
    ensures LeftOn(hop, pos, count) > 0
    decreases count
  {
    if hop(pos).Some? {
      SomeAreLeft(hop, hop(pos).value, count - 1);
    }
  }

  function StallArgs(buf: seq<byte>, pos: nat, count: nat): nat { StallOn(ArgHop(buf), pos, count) }

  /** The length held on the line at `pos` is within its cap. */
  predicate ArgViable(buf: seq<byte>, pos: nat) {
    pos < |buf| && InRange(ParseI64(Pending(buf, pos + 1)), 0, MAX_BULK_LEN)
  }

  function Blank(n: nat): (data: seq<byte>)
    ensures |data| == n
  {
    seq(n, i => SPACE)
  }

  function EmptyArgs(n: nat): (args: Args)
    ensures |args| == n && forall i :: 0 <= i < n ==> args[i] == []
  {
    seq(n, i => [])
  }

  /** The bytes that finish a stalled length line and its argument. */
  lemma ArgCompletes(buf: seq<byte>, pos: nat) returns (more: seq<byte>)
    requires ParseArg(buf, pos) == Invalid(LineTooLong) && pos + 1 < |buf| && ArgViable(buf, pos)
    ensures FillsArg(buf, more, pos)
  {
    var data := Blank(ParseI64(Pending(buf, pos + 1)).value);
    var ended, body := buf + LineEnd(buf), data + CRLF;
    more := LineEnd(buf) + body;
    Assoc(buf, LineEnd(buf), body);
    LineCompletes(buf, pos + 1, pos);
    ArgFilled(ended, pos, Pending(buf, pos + 1), data);
  }

  lemma ArgFilled(ended: seq<byte>, pos: nat, line: seq<byte>, data: seq<byte>)
    requires pos < |ended| && ended[pos] == DOLLAR && ReadLine(ended, pos + 1, pos) == Complete(line, |ended|)
    requires ParseI64(line) == Some(|data|) && |data| <= MAX_BULK_LEN
    ensures ParseArg(ended + (data + CRLF), pos) == Complete(data, |ended + (data + CRLF)|)
  {
    var body := data + CRLF;
    ReadLineExtends(ended, body, pos + 1, pos);
    AtEnd(ended, body);
    BulkAt(ended + body, |ended|, data);
  }

  /** `first` finishes the argument at `pos`, and nothing is behind it. */
  ghost predicate FillsArg(buf: seq<byte>, first: seq<byte>, pos: nat) {
    ParseArg(buf + first, pos).Complete? && ParseArg(buf + first, pos).next == |buf + first|
  }

  /** The stalled argument is finished, and the others are empty. */
  lemma ArgsFilledHere(buf: seq<byte>, first: seq<byte>, pos: nat, count: nat, args: Args) returns (more: seq<byte>)
    requires count > 0 && FillsArg(buf, first, pos)
    ensures ParseArgs(buf + more, pos, count, args).Complete?
  {
    var begun, others := buf + first, EmptyArgs(count - 1);
    var rest := EncodeArgs(others);
    more := first + rest;
    Assoc(buf, first, rest);
    var arg := ParseArg(begun, pos).value;
    SameArg(begun, rest, pos, arg, |begun|);
    AtEnd(begun, rest);
    ArgsAt(begun + rest, |begun|, others, args + [arg]);
    ArgsTurn(begun + rest, pos, count, args, arg, |begun|);
  }

  lemma ArgsFilled(buf: seq<byte>, first: seq<byte>, pos: nat, count: nat) returns (more: seq<byte>)
    requires !ParseArgs(buf, pos, count, []).Complete? && FillsArg(buf, first, StallArgs(buf, pos, count))
    ensures ParseArgs(buf + more, pos, count, []).Complete?
  {
    var hop, stall := ArgHop(buf), StallArgs(buf, pos, count);
    var left := LeftOn(hop, pos, count);
    CompleteMeansWhole(buf, pos, count, []);
    SomeAreLeft(hop, pos, count);
    more := ArgsFilledHere(buf, first, stall, left, []);
    CompleteMeansWhole(buf + more, stall, left, []);
    HopsExtend(buf, more);
    StallMakesWhole(hop, ArgHop(buf + more), pos, count);
    CompleteMeansWhole(buf + more, pos, count, []);
  }

  lemma ArgNeeds(buf: seq<byte>, more: seq<byte>, pos: nat)
    requires ParseArg(buf, pos) == Invalid(LineTooLong) && ParseArg(buf + more, pos).Complete? && pos + 1 < |buf|
    ensures ArgViable(buf, pos)
  {
    PendingInRange(buf, more, pos + 1, pos, 0, MAX_BULK_LEN);
  }

  lemma StallTurn(buf: seq<byte>, pos: nat, count: nat, args: Args, arg: seq<byte>, next: nat)
    requires ParseArgs(buf, pos, count, args) == Invalid(LineTooLong) && ParseArg(buf, pos) == Complete(arg, next)
    ensures count > 0 && ParseArgs(buf, next, count - 1, args + [arg]) == Invalid(LineTooLong)
    ensures StallArgs(buf, pos, count) == StallArgs(buf, next, count - 1)
  {}

  lemma StallHere(buf: seq<byte>, pos: nat, count: nat, args: Args)
    requires ParseArgs(buf, pos, count, args) == Invalid(LineTooLong) && !ParseArg(buf, pos).Complete?
    ensures count > 0 && pos + 1 < |buf| && ParseArg(buf, pos) == Invalid(LineTooLong)
    ensures StallArgs(buf, pos, count) == pos
  {}

  lemma SameArg(buf: seq<byte>, more: seq<byte>, pos: nat, arg: seq<byte>, next: nat)
    requires ParseArg(buf, pos) == Complete(arg, next)
    ensures ParseArg(buf + more, pos) == Complete(arg, next)
  {
    ParseArgExtends(buf, more, pos);
  }

  lemma {:induction false} CompleteMeansWhole(buf: seq<byte>, pos: nat, count: nat, args: Args)
    ensures ParseArgs(buf, pos, count, args).Complete? <==> WholeOn(ArgHop(buf), pos, count)
    decreases count
  {
    if count > 0 && ParseArg(buf, pos).Complete? {
      var arg, next := ParseArg(buf, pos).value, ParseArg(buf, pos).next;
      ArgsTurn(buf, pos, count, args, arg, next);
      CompleteMeansWhole(buf, next, count - 1, args + [arg]);
    }
  }

  lemma HopsExtend(buf: seq<byte>, more: seq<byte>)
    ensures forall p :: ArgHop(buf)(p).Some? ==> ArgHop(buf + more)(p) == ArgHop(buf)(p)
  {
    forall p: nat ensures ArgHop(buf)(p).Some? ==> ArgHop(buf + more)(p) == ArgHop(buf)(p) {
      ParseArgExtends(buf, more, p);
    }
  }

  /** Completing the command means completing the argument at which it stalled. */
  lemma ArgsNeed(buf: seq<byte>, more: seq<byte>, pos: nat, count: nat)
    requires !ParseArgs(buf, pos, count, []).Complete? && ParseArgs(buf + more, pos, count, []).Complete?
    ensures ParseArg(buf + more, StallArgs(buf, pos, count)).Complete?
  {
    CompleteMeansWhole(buf, pos, count, []);
    CompleteMeansWhole(buf + more, pos, count, []);
    HopsExtend(buf, more);
    WholeNeedsStall(ArgHop(buf), ArgHop(buf + more), pos, count);
    assert ArgHop(buf + more)(StallArgs(buf, pos, count)).Some?;
  }

  lemma {:induction false} StallIsTooLong(buf: seq<byte>, pos: nat, count: nat, args: Args)
    requires ParseArgs(buf, pos, count, args) == Invalid(LineTooLong)
    ensures var p := StallArgs(buf, pos, count); p + 1 < |buf| && ParseArg(buf, p) == Invalid(LineTooLong)
    decreases count
  {
    if ParseArg(buf, pos).Complete? {
      var arg, next := ParseArg(buf, pos).value, ParseArg(buf, pos).next;
      StallTurn(buf, pos, count, args, arg, next);
      StallIsTooLong(buf, next, count - 1, args + [arg]);
    } else {
      StallHere(buf, pos, count, args);
    }
  }

  ghost predicate CommandCanComplete(buf: seq<byte>) { exists more :: ParseCommand(buf + more).Complete? }

  /** The pending number of an array command that stalled on a line that is too long, and its cap. */
  predicate CommandIsViable(buf: seq<byte>)
    requires buf != [] && buf[0] == STAR && ParseCommand(buf) == Invalid(LineTooLong)
  {
    match ReadLine(buf, 1, 0)
    case Complete(line, next) => ArgViable(buf, StallArgs(buf, next, ParseI64(line).value))
    case _ => InRange(ParseI64(Pending(buf, 1)), 0, MAX_ARRAY_LEN)
  }

  lemma CountLineCompletes(buf: seq<byte>) returns (more: seq<byte>)
    requires buf != [] && buf[0] == STAR && ReadLine(buf, 1, 0) == Invalid(LineTooLong)
    requires InRange(ParseI64(Pending(buf, 1)), 0, MAX_ARRAY_LEN)
    ensures ParseCommand(buf + more).Complete?
  {
    var count := ParseI64(Pending(buf, 1)).value;
    var ended, rest := buf + LineEnd(buf), EncodeArgs(EmptyArgs(count));
    more := LineEnd(buf) + rest;
    Assoc(buf, LineEnd(buf), rest);
    LineCompletes(buf, 1, 0);
    ReadLineExtends(ended, rest, 1, 0);
    AtEnd(ended, rest);
    ArgsAt(ended + rest, |ended|, EmptyArgs(count), []);
  }

  /**
   * An array command rejected for a long line can still be completed if and only if the number held
   * so far on that line, zeros and all, is within its cap.
   */
  lemma TooLongCommandRecovers(buf: seq<byte>)
    requires buf != [] && buf[0] == STAR && ParseCommand(buf) == Invalid(LineTooLong)
    ensures CommandCanComplete(buf) <==> CommandIsViable(buf)
  {
    var header := ReadLine(buf, 1, 0);
    if CommandIsViable(buf) {
      var more;
      if header.Complete? {
        var next, count := header.next, ParseI64(header.value).value;
        StallIsTooLong(buf, next, count, []);
        var first := ArgCompletes(buf, StallArgs(buf, next, count));
        more := ArgsFilled(buf, first, next, count);
        ReadLineExtends(buf, more, 1, 0);
      } else {
        more := CountLineCompletes(buf);
      }
      assert ParseCommand(buf + more).Complete?;
    }
    if CommandCanComplete(buf) {
      var more :| ParseCommand(buf + more).Complete?;
      if header.Complete? {
        var next, count := header.next, ParseI64(header.value).value;
        ReadLineExtends(buf, more, 1, 0);
        ArgsNeed(buf, more, next, count);
        StallIsTooLong(buf, next, count, []);
        ArgNeeds(buf, more, StallArgs(buf, next, count));
      } else {
        PendingInRange(buf, more, 1, 0, 0, MAX_ARRAY_LEN);
      }
    }
  }

  function ZeroDigits(n: nat): (s: seq<byte>)
    ensures |s| == n && forall i :: 0 <= i < n ==> s[i] == ZERO
  {
    seq(n, i => ZERO)
  }

  lemma {:induction false} ZeroDigitsAreZero(n: nat)
    ensures DigitsValue(ZeroDigits(n)) == Some(0)
  {
    if n > 0 {
      ZeroDigitsAreZero(n - 1);
      assert ZeroDigits(n)[..n - 1] == ZeroDigits(n - 1);
    }
  }

  /** Such lines exist: a count written with too many zeros is rejected, and its CRLF makes it `*0`. */
  lemma TooManyZerosRecover(n: nat)
    requires n >= MAX_INLINE_LEN
    ensures ParseCommand([STAR] + ZeroDigits(n)) == Invalid(LineTooLong)
    ensures ParseCommand([STAR] + ZeroDigits(n) + CRLF) == Complete([], n + 3)
    ensures CommandIsViable([STAR] + ZeroDigits(n))
  {
    var buf := [STAR] + ZeroDigits(n);
    forall j ensures !CrlfAt(buf, j) {
      assert 0 < j < |buf| ==> buf[j] == ZERO;
    }
    assert FindCrlf(buf, 1).None?;
    assert buf[1..] == ZeroDigits(n) && Pending(buf, 1) == ZeroDigits(n);
    ZeroDigitsAreZero(n);
    assert ParseI64(ZeroDigits(n)) == Some(0);
    LineCompletes(buf, 1, 0);
    assert LineEnd(buf) == CRLF;
  }

  // ------------------------------------------------------------------ replies

  /** An unfinished line: where it starts, and how many arrays it is in. */
  datatype Stall = Stall(pos: nat, depth: nat)

  function StallAt(buf: seq<byte>, pos: nat, depth: nat): Stall
    decreases MAX_REPLY_DEPTH + 1 - depth, 1
  {
    var header := ReadLine(buf, pos + 1, pos + 1);
    if depth <= MAX_REPLY_DEPTH && header.Complete? && ParseI64(header.value).Some? && ParseI64(header.value).value >= 0
    then StallItems(buf, header.next, depth + 1, ParseI64(header.value).value)
    else Stall(pos, depth)
  }

  function StallItems(buf: seq<byte>, pos: nat, depth: nat, count: nat): Stall
    requires depth <= MAX_REPLY_DEPTH + 1
    decreases MAX_REPLY_DEPTH + 1 - depth, 2, count
  {
    var step := ParseReplyAt(buf, pos, depth);
    if count > 0 && step.Complete? then StallItems(buf, step.next, depth, count - 1) else StallAt(buf, pos, depth)
  }

  lemma StallInHeader(buf: seq<byte>, pos: nat, depth: nat)
    requires ParseReplyAt(buf, pos, depth) == Invalid(LineTooLong) && !ReadLine(buf, pos + 1, pos + 1).Complete?
    ensures depth <= MAX_REPLY_DEPTH && pos + 3 < |buf| && buf[pos] in {PLUS, MINUS, COLON, DOLLAR, STAR}
    ensures FindCrlf(buf, pos + 1).None? && StallAt(buf, pos, depth) == Stall(pos, depth)
  {}

  lemma StallInItems(buf: seq<byte>, pos: nat, depth: nat, line: seq<byte>, next: nat)
    requires ParseReplyAt(buf, pos, depth) == Invalid(LineTooLong)
    requires ReadLine(buf, pos + 1, pos + 1) == Complete(line, next)
    ensures pos < |buf| && buf[pos] == STAR && depth <= MAX_REPLY_DEPTH && InRange(ParseI64(line), 0, MAX_ARRAY_LEN)
    ensures ParseItems(buf, next, depth + 1, ParseI64(line).value, []) == Invalid(LineTooLong)
    ensures StallAt(buf, pos, depth) == StallItems(buf, next, depth + 1, ParseI64(line).value)
  {
    HeaderNotTooLong(buf, pos, depth);
  }

  lemma StallItemsTurn(buf: seq<byte>, pos: nat, depth: nat, count: nat, items: seq<Reply>, item: Reply, next: nat)
    requires depth <= MAX_REPLY_DEPTH + 1 && ParseItems(buf, pos, depth, count, items) == Invalid(LineTooLong)
    requires ParseReplyAt(buf, pos, depth) == Complete(item, next)
    ensures count > 0 && ParseItems(buf, next, depth, count - 1, items + [item]) == Invalid(LineTooLong)
    ensures StallItems(buf, pos, depth, count) == StallItems(buf, next, depth, count - 1)
  {}

  lemma StallItemsHere(buf: seq<byte>, pos: nat, depth: nat, count: nat, items: seq<Reply>)
    requires depth <= MAX_REPLY_DEPTH + 1 && ParseItems(buf, pos, depth, count, items) == Invalid(LineTooLong)
    requires !ParseReplyAt(buf, pos, depth).Complete?
    ensures count > 0 && depth <= MAX_REPLY_DEPTH && ParseReplyAt(buf, pos, depth) == Invalid(LineTooLong)
    ensures StallItems(buf, pos, depth, count) == StallAt(buf, pos, depth)
  {}

  lemma SameReply(buf: seq<byte>, more: seq<byte>, pos: nat, depth: nat, item: Reply, next: nat)
    requires ParseReplyAt(buf, pos, depth) == Complete(item, next)
    ensures ParseReplyAt(buf + more, pos, depth) == Complete(item, next)
  {
    ReplyAtExtends(buf, more, pos, depth);
  }

  lemma FirstItemCompletes(buf: seq<byte>, pos: nat, depth: nat, count: nat, items: seq<Reply>)
    requires depth <= MAX_REPLY_DEPTH + 1 && count > 0 && ParseItems(buf, pos, depth, count, items).Complete?
    ensures ParseReplyAt(buf, pos, depth).Complete?
  {}

  /** The bytes held of the line can be the beginning of one that its sigil allows at that depth. */
  predicate Viable(buf: seq<byte>, stall: Stall) {
    stall.pos < |buf| &&
    var n := ParseI64(Pending(buf, stall.pos + 1));
    var sigil := buf[stall.pos];
    if sigil == COLON then n.Some?
    else if sigil == DOLLAR then InRange(n, -1, MAX_BULK_LEN)
    else if sigil == STAR then InRange(n, -1, if stall.depth < MAX_REPLY_DEPTH then MAX_ARRAY_LEN else 0)
    else true
  }

  function Zeros(n: nat): (items: seq<Reply>)
    ensures |items| == n && forall i :: 0 <= i < n ==> items[i] == Integer(0)
  {
    seq(n, i => Integer(0))
  }

  /** A line of the reply ends; a bulk string or an array then gets its contents. */
  lemma LineReplyCompletes(buf: seq<byte>, pos: nat, depth: nat) returns (more: seq<byte>)
    requires depth <= MAX_REPLY_DEPTH && pos + 3 < |buf| && buf[pos] in {PLUS, MINUS, COLON, DOLLAR, STAR}
    requires FindCrlf(buf, pos + 1).None? && Viable(buf, Stall(pos, depth))
    ensures Fills(buf, more, pos, depth)
  {
    var ended, line := buf + LineEnd(buf), Pending(buf, pos + 1);
    LineCompletes(buf, pos + 1, pos + 1);
    more := LineEnd(buf);
    if buf[pos] == DOLLAR && ParseI64(line).value >= 0 {
      more := BulkCompletes(buf, ended, pos, depth, line);
    } else if buf[pos] == STAR && ParseI64(line).value >= 0 {
      more := ArrayCompletes(buf, ended, pos, depth, line);
    } else {
      LineIsWhole(ended, pos, depth, line);
    }
  }

  lemma LineIsWhole(buf: seq<byte>, pos: nat, depth: nat, line: seq<byte>)
    requires depth <= MAX_REPLY_DEPTH && pos < |buf| && buf[pos] in {PLUS, MINUS, COLON, DOLLAR, STAR}
    requires ReadLine(buf, pos + 1, pos + 1) == Complete(line, |buf|)
    requires buf[pos] == COLON ==> ParseI64(line).Some?
    requires buf[pos] in {DOLLAR, STAR} ==> ParseI64(line) == Some(-1)
    ensures ParseReplyAt(buf, pos, depth).Complete? && ParseReplyAt(buf, pos, depth).next == |buf|
  {}

  lemma BulkCompletes(buf: seq<byte>, ended: seq<byte>, pos: nat, depth: nat, line: seq<byte>) returns (more: seq<byte>)
    requires depth <= MAX_REPLY_DEPTH && pos < |buf| && buf[pos] == DOLLAR && ended == buf + LineEnd(buf)
    requires ReadLine(ended, pos + 1, pos + 1) == Complete(line, |ended|) && InRange(ParseI64(line), 0, MAX_BULK_LEN)
    ensures Fills(buf, more, pos, depth)
  {
    var data := Blank(ParseI64(line).value);
    var body := data + CRLF;
    more := LineEnd(buf) + body;
    Assoc(buf, LineEnd(buf), body);
    ReadLineExtends(ended, body, pos + 1, pos + 1);
    AtEnd(ended, body);
    BulkAt(ended + body, |ended|, data);
    BulkTurn(ended + body, pos, depth, line, |ended|, data);
  }

  lemma ArrayCompletes(buf: seq<byte>, ended: seq<byte>, pos: nat, depth: nat, line: seq<byte>)
    returns (more: seq<byte>)
    requires depth <= MAX_REPLY_DEPTH && pos < |buf| && buf[pos] == STAR && ended == buf + LineEnd(buf)
    requires ReadLine(ended, pos + 1, pos + 1) == Complete(line, |ended|) && InRange(ParseI64(line), 0, MAX_ARRAY_LEN)
    requires ParseI64(line).value > 0 ==> depth < MAX_REPLY_DEPTH
    ensures Fills(buf, more, pos, depth)
  {
    var items := Zeros(ParseI64(line).value);
    more := LineEnd(buf) + WriteAll(items);
    Assoc(buf, LineEnd(buf), WriteAll(items));
    ArrayFilled(ended, pos, depth, line, items);
  }

  lemma ArrayFilled(ended: seq<byte>, pos: nat, depth: nat, line: seq<byte>, items: seq<Reply>)
    requires depth <= MAX_REPLY_DEPTH && pos < |ended| && ended[pos] == STAR && |items| <= MAX_ARRAY_LEN
    requires ReadLine(ended, pos + 1, pos + 1) == Complete(line, |ended|) && ParseI64(line) == Some(|items|)
    requires forall i :: 0 <= i < |items| ==> WellFormed(items[i], depth + 1)
    ensures ParseReplyAt(ended + WriteAll(items), pos, depth) == Complete(Array(items), |ended + WriteAll(items)|)
  {
    var rest := WriteAll(items);
    ReadLineExtends(ended, rest, pos + 1, pos + 1);
    ItemsBehind(ended, items, depth);
    ArrayTurn(ended + rest, pos, depth, line, |ended|, items, |ended| + |rest|);
  }

  lemma ItemsBehind(ended: seq<byte>, items: seq<Reply>, depth: nat)
    requires depth <= MAX_REPLY_DEPTH && forall i :: 0 <= i < |items| ==> WellFormed(items[i], depth + 1)
    ensures ParseItems(ended + WriteAll(items), |ended|, depth + 1, |items|, [])
            == Complete(items, |ended| + |WriteAll(items)|)
  {
    AtEnd(ended, WriteAll(items));
    ItemsAt(ended + WriteAll(items), |ended|, items, depth + 1, []);
    assert [] + items == items;
  }

  /** `buf` followed by `more` holds a complete reply at `pos`, and nothing behind it. */
  ghost predicate Fills(buf: seq<byte>, more: seq<byte>, pos: nat, depth: nat) {
    ParseReplyAt(buf + more, pos, depth).Complete? && ParseReplyAt(buf + more, pos, depth).next == |buf + more|
  }

  lemma {:induction false} ReplyCompletes(buf: seq<byte>, pos: nat, depth: nat) returns (more: seq<byte>)
    requires ParseReplyAt(buf, pos, depth) == Invalid(LineTooLong) && Viable(buf, StallAt(buf, pos, depth))
    ensures Fills(buf, more, pos, depth)
    decreases MAX_REPLY_DEPTH + 1 - depth, 1
  {
    var header := ReadLine(buf, pos + 1, pos + 1);
    if header.Complete? {
      var line, next := header.value, header.next;
      StallInItems(buf, pos, depth, line, next);
      more := ItemsComplete(buf, next, depth + 1, ParseI64(line).value, []);
      ItemsMakeReply(buf, more, pos, depth, line, next, ParseI64(line).value);
    } else {
      StallInHeader(buf, pos, depth);
      more := LineReplyCompletes(buf, pos, depth);
    }
  }

  lemma ItemsMakeReply(buf: seq<byte>, more: seq<byte>, pos: nat, depth: nat, line: seq<byte>, next: nat, count: nat)
    requires pos < |buf| && buf[pos] == STAR && depth <= MAX_REPLY_DEPTH && count <= MAX_ARRAY_LEN
    requires ReadLine(buf, pos + 1, pos + 1) == Complete(line, next) && ParseI64(line) == Some(count)
    requires var o := ParseItems(buf + more, next, depth + 1, count, []); o.Complete? && o.next == |buf + more|
    ensures Fills(buf, more, pos, depth)
  {
    var all := ParseItems(buf + more, next, depth + 1, count, []);
    ReadLineExtends(buf, more, pos + 1, pos + 1);
    ItemsProgress(buf + more, next, depth + 1, count, []);
    ArrayTurn(buf + more, pos, depth, line, next, all.value, all.next);
  }

  lemma ItemsCompleteHere(buf: seq<byte>, first: seq<byte>, pos: nat, depth: nat, count: nat, items: seq<Reply>)
    returns (more: seq<byte>)
    requires depth <= MAX_REPLY_DEPTH && count > 0 && Fills(buf, first, pos, depth)
    ensures var o := ParseItems(buf + more, pos, depth, count, items); o.Complete? && o.next == |buf + more|
  {
    var begun, others := buf + first, Zeros(count - 1);
    var rest, item := WriteAll(others), ParseReplyAt(begun, pos, depth).value;
    more := first + rest;
    Assoc(buf, first, rest);
    SameReply(begun, rest, pos, depth, item, |begun|);
    AtEnd(begun, rest);
    ItemsAt(begun + rest, |begun|, others, depth, items + [item]);
    ItemsTurn(begun + rest, pos, depth, count, items, item, |begun|);
  }

  lemma {:induction false} ItemsComplete(buf: seq<byte>, pos: nat, depth: nat, count: nat, items: seq<Reply>)
    returns (more: seq<byte>)
    requires depth <= MAX_REPLY_DEPTH + 1 && ParseItems(buf, pos, depth, count, items) == Invalid(LineTooLong)
    requires Viable(buf, StallItems(buf, pos, depth, count))
    ensures var o := ParseItems(buf + more, pos, depth, count, items); o.Complete? && o.next == |buf + more|
    decreases MAX_REPLY_DEPTH + 1 - depth, 2, count
  {
    var step := ParseReplyAt(buf, pos, depth);
    if step.Complete? {
      var item, next := step.value, step.next;
      StallItemsTurn(buf, pos, depth, count, items, item, next);
      more := ItemsComplete(buf, next, depth, count - 1, items + [item]);
      SameReply(buf, more, pos, depth, item, next);
      ItemsTurn(buf + more, pos, depth, count, items, item, next);
    } else {
      StallItemsHere(buf, pos, depth, count, items);
      var first := ReplyCompletes(buf, pos, depth);
      more := ItemsCompleteHere(buf, first, pos, depth, count, items);
    }
  }

  /** The number a complete reply of each kind has on its first line. */
  lemma HeaderInRange(buf: seq<byte>, pos: nat, depth: nat)
    requires depth <= MAX_REPLY_DEPTH && pos < |buf| && ParseReplyAt(buf, pos, depth).Complete?
    ensures ReadLine(buf, pos + 1, pos + 1).Complete?
    ensures var n := ParseI64(ReadLine(buf, pos + 1, pos + 1).value);
            && (buf[pos] == COLON ==> n.Some?) && (buf[pos] == DOLLAR ==> InRange(n, -1, MAX_BULK_LEN))
            && (buf[pos] == STAR ==> InRange(n, -1, if depth < MAX_REPLY_DEPTH then MAX_ARRAY_LEN else 0))
  {
    if buf[pos] == STAR {
      DeepestArrayIsEmpty(buf, pos, depth);
    }
  }

  /** A stalled line that does complete was viable. */
  lemma LineReplyNeeds(buf: seq<byte>, more: seq<byte>, pos: nat, depth: nat)
    requires depth <= MAX_REPLY_DEPTH && pos + 3 < |buf| && buf[pos] in {PLUS, MINUS, COLON, DOLLAR, STAR}
    requires FindCrlf(buf, pos + 1).None? && ParseReplyAt(buf + more, pos, depth).Complete?
    ensures Viable(buf, Stall(pos, depth))
  {
    HeaderInRange(buf + more, pos, depth);
    if buf[pos] == COLON {
      PendingInRange(buf, more, pos + 1, pos + 1, I64_MIN, I64_MAX);
    } else if buf[pos] == DOLLAR {
      PendingInRange(buf, more, pos + 1, pos + 1, -1, MAX_BULK_LEN);
    } else if buf[pos] == STAR {
      PendingInRange(buf, more, pos + 1, pos + 1, -1, if depth < MAX_REPLY_DEPTH then MAX_ARRAY_LEN else 0);
    }
  }

  /** At the deepest level an array has no elements. */
  lemma DeepestArrayIsEmpty(buf: seq<byte>, pos: nat, depth: nat)
    requires depth <= MAX_REPLY_DEPTH && pos < |buf| && buf[pos] == STAR && ParseReplyAt(buf, pos, depth).Complete?
    ensures InRange(ParseI64(ReadLine(buf, pos + 1, pos + 1).value), -1,
                    if depth < MAX_REPLY_DEPTH then MAX_ARRAY_LEN else 0)
  {
    var header := ReadLine(buf, pos + 1, pos + 1);
    var count := ParseI64(header.value).value;
    if count > 0 && depth == MAX_REPLY_DEPTH {
      assert ParseReplyAt(buf, header.next, depth + 1) == Invalid(TooDeep);
      ItemsInvalid(buf, header.next, depth + 1, count, [], TooDeep);
    }
  }

  lemma {:induction false} ReplyNeeds(buf: seq<byte>, more: seq<byte>, pos: nat, depth: nat)
    requires ParseReplyAt(buf, pos, depth) == Invalid(LineTooLong) && ParseReplyAt(buf + more, pos, depth).Complete?
    ensures Viable(buf, StallAt(buf, pos, depth))
    decreases MAX_REPLY_DEPTH + 1 - depth, 1
  {
    var header := ReadLine(buf, pos + 1, pos + 1);
    if header.Complete? {
      var line, next := header.value, header.next;
      StallInItems(buf, pos, depth, line, next);
      ReplyNeedsItems(buf, more, pos, depth, line, next);
      ItemsNeed(buf, more, next, depth + 1, ParseI64(line).value, []);
    } else {
      StallInHeader(buf, pos, depth);
      LineReplyNeeds(buf, more, pos, depth);
    }
  }

  lemma ReplyNeedsItems(buf: seq<byte>, more: seq<byte>, pos: nat, depth: nat, line: seq<byte>, next: nat)
    requires pos < |buf| && buf[pos] == STAR && depth <= MAX_REPLY_DEPTH && InRange(ParseI64(line), 0, MAX_ARRAY_LEN)
    requires ReadLine(buf, pos + 1, pos + 1) == Complete(line, next) && ParseReplyAt(buf + more, pos, depth).Complete?
    ensures ParseItems(buf + more, next, depth + 1, ParseI64(line).value, []).Complete?
  {
    ReadLineExtends(buf, more, pos + 1, pos + 1);
  }

  lemma {:induction false} ItemsNeed(buf: seq<byte>, more: seq<byte>, pos: nat, depth: nat, count: nat,
                                items: seq<Reply>)
    requires depth <= MAX_REPLY_DEPTH + 1 && ParseItems(buf, pos, depth, count, items) == Invalid(LineTooLong)
    requires ParseItems(buf + more, pos, depth, count, items).Complete?
    ensures Viable(buf, StallItems(buf, pos, depth, count))
    decreases MAX_REPLY_DEPTH + 1 - depth, 2, count
  {
    var step := ParseReplyAt(buf, pos, depth);
    if step.Complete? {
      var item, next := step.value, step.next;
      StallItemsTurn(buf, pos, depth, count, items, item, next);
      SameReply(buf, more, pos, depth, item, next);
      ItemsTurn(buf + more, pos, depth, count, items, item, next);
      ItemsNeed(buf, more, next, depth, count - 1, items + [item]);
    } else {
      StallItemsHere(buf, pos, depth, count, items);
      FirstItemCompletes(buf + more, pos, depth, count, items);
      ReplyNeeds(buf, more, pos, depth);
    }
  }

  ghost predicate ReplyCanComplete(buf: seq<byte>) { exists more :: ParseReply(buf + more).Complete? }

  /**
   * A reply rejected for a long line can still be completed if and only if the bytes held of that
   * line are viable: anything for a simple string or an error, a number in range for the others.
   */
  lemma TooLongReplyRecovers(buf: seq<byte>)
    requires ParseReply(buf) == Invalid(LineTooLong)
    ensures ReplyCanComplete(buf) <==> Viable(buf, StallAt(buf, 0, 0))
  {
    if Viable(buf, StallAt(buf, 0, 0)) {
      var more := ReplyCompletes(buf, 0, 0);
      assert ParseReply(buf + more).Complete?;
    }
    if ReplyCanComplete(buf) {
      var more :| ParseReply(buf + more).Complete?;
      ReplyNeeds(buf, more, 0, 0);
    }
  }
}

/** What the parsers promise on arbitrary bytes, and on what the printers emit. */
module CodecProofs {
  import opened Bytes
  import opened Decimal
  import opened Codec

  // ------------------------------------------------ arbitrary bytes: progress

  lemma {:induction false} ArgsProgress(buf: seq<byte>, pos: nat, count: nat, args: Args)
    ensures var o := ParseArgs(buf, pos, count, args);
            o.Complete? ==> |o.value| == |args| + count && pos <= o.next && (o.next <= |buf| || count == 0)
    decreases count
  {
    if count > 0 && ParseArg(buf, pos).Complete? {
      var step := ParseArg(buf, pos);
      ArgsProgress(buf, step.next, count - 1, args + [step.value]);
    }
  }

  /** A complete command consumes at least one byte and never more than it was given. */
  lemma CommandProgress(buf: seq<byte>)
    ensures ParseCommand(buf).Complete? ==> 0 < ParseCommand(buf).next <= |buf|
  {
    if ParseCommand(buf).Complete? && buf[0] == STAR {
      var header := ReadLine(buf, 1, 0);
      ArgsProgress(buf, header.next, ParseI64(header.value).value, []);
    }
  }

  /** What a parsed reply is always like: within every cap, and no line holds a CRLF pair. */
  ghost predicate WellFormed(r: Reply, depth: nat)
    decreases r
  {
    depth <= MAX_REPLY_DEPTH &&
    match r
    case Simple(s) => NoCrlf(s)
    case Error(s) => NoCrlf(s)
    case Integer(n) => InI64(n)
    case NullBulk => true
    case Bulk(d) => |d| <= MAX_BULK_LEN
    case NullArray => true
    case Array(items) => |items| <= MAX_ARRAY_LEN && forall i :: 0 <= i < |items| ==> WellFormed(items[i], depth + 1)
  }

  ghost predicate NoCrlf(s: seq<byte>) { forall i :: !CrlfAt(s, i) }

  lemma {:induction false} ReplyProgress(buf: seq<byte>, pos: nat, depth: nat)
    ensures var o := ParseReplyAt(buf, pos, depth);
            o.Complete? ==> pos < o.next <= |buf| && WellFormed(o.value, depth)
    decreases MAX_REPLY_DEPTH + 1 - depth, 1
  {
    var o := ParseReplyAt(buf, pos, depth);
    if o.Complete? {
      var header := ReadLine(buf, pos + 1, pos + 1);
      LineHasNoCrlf(buf, pos + 1);
      var count := ParseI64(header.value);
      if buf[pos] == STAR && count.Some? && count.value >= 0 {
        ItemsProgress(buf, header.next, depth + 1, count.value, []);
      }
    }
  }

  /** The search skips no CRLF pair. */
  lemma {:induction false} FindCrlfIsFirst(buf: seq<byte>, from: nat)
    ensures var r := FindCrlf(buf, from);
            forall j :: from <= j && (r.Some? ==> j < r.value) ==> !CrlfAt(buf, j)
    decreases |buf| - from
  {
    if from + 1 < |buf| && !CrlfAt(buf, from) {
      FindCrlfIsFirst(buf, from + 1);
    }
  }

  lemma LineHasNoCrlf(buf: seq<byte>, body: nat)
    requires FindCrlf(buf, body).Some?
    ensures NoCrlf(buf[body..FindCrlf(buf, body).value])
  {
    var line := buf[body..FindCrlf(buf, body).value];
    FindCrlfIsFirst(buf, body);
    forall i ensures !CrlfAt(line, i) {
      assert 0 <= i ==> !CrlfAt(buf, body + i) || FindCrlf(buf, body).value <= body + i;
    }
  }

  lemma {:induction false} ItemsProgress(buf: seq<byte>, pos: nat, depth: nat, count: nat, items: seq<Reply>)
    requires depth <= MAX_REPLY_DEPTH + 1
    requires forall i :: 0 <= i < |items| ==> WellFormed(items[i], depth)
    ensures var o := ParseItems(buf, pos, depth, count, items);
            o.Complete? ==>
              && pos <= o.next && (o.next <= |buf| || count == 0) && |o.value| == |items| + count
              && forall i :: 0 <= i < |o.value| ==> WellFormed(o.value[i], depth)
    decreases MAX_REPLY_DEPTH + 1 - depth, 2, count
  {
    if count > 0 {
      ReplyProgress(buf, pos, depth);
      var step := ParseReplyAt(buf, pos, depth);
      if step.Complete? {
        ItemsProgress(buf, step.next, depth, count - 1, items + [step.value]);
      }
    }
  }

  // ------------------------------------------ arbitrary bytes: monotonicity

  /** `o'` is the outcome on a longer buffer than `o`'s. */
  ghost predicate Extends<T>(o: Outcome<T>, o': Outcome<T>) {
    o.Complete? || (o.Invalid? && o.why != LineTooLong) ==> o' == o
  }

  lemma FindCrlfExtends(buf: seq<byte>, more: seq<byte>, from: nat)
    ensures FindCrlf(buf, from).Some? ==> FindCrlf(buf + more, from) == FindCrlf(buf, from)
  {
    var r := FindCrlf(buf, from);
    FindCrlfIsFirst(buf, from);
    if r.Some? {
      forall j | from <= j < r.value ensures !CrlfAt(buf + more, j) {
        assert !CrlfAt(buf, j);
      }
      FirstCrlf(buf + more, from, r.value);
    }
  }

  /** The first CRLF pair is what the search returns. */
  lemma FirstCrlf(buf: seq<byte>, from: nat, i: nat)
    requires from <= i && CrlfAt(buf, i)
    requires forall j :: from <= j < i ==> !CrlfAt(buf, j)
    ensures FindCrlf(buf, from) == Some(i)
  {
    var r := FindCrlf(buf, from);
    FindCrlfIsFirst(buf, from);
    assert r.Some?;
    assert !(r.value < i) && !(i < r.value);
  }

  lemma ReadLineExtends(buf: seq<byte>, more: seq<byte>, body: nat, start: nat)
    ensures Extends(ReadLine(buf, body, start), ReadLine(buf + more, body, start))
  {
    FindCrlfExtends(buf, more, body);
    var r := FindCrlf(buf, body);
    if r.Some? {
      assert (buf + more)[body..r.value] == buf[body..r.value];
    }
  }

  lemma ReadBulkExtends(buf: seq<byte>, more: seq<byte>, start: nat, len: nat)
    ensures Extends(ReadBulk(buf, start, len), ReadBulk(buf + more, start, len))
  {
    if start + len + 2 <= |buf| {
      assert (buf + more)[start..start + len] == buf[start..start + len];
    }
  }

  lemma ParseArgExtends(buf: seq<byte>, more: seq<byte>, pos: nat)
    ensures Extends(ParseArg(buf, pos), ParseArg(buf + more, pos))
  {
    if pos < |buf| {
      ReadLineExtends(buf, more, pos + 1, pos);
      var header := ReadLine(buf, pos + 1, pos);
      if header.Complete? && ParseI64(header.value).Some? && ParseI64(header.value).value >= 0 {
        ReadBulkExtends(buf, more, header.next, ParseI64(header.value).value);
      }
    }
  }

  lemma {:induction false} ParseArgsExtends(buf: seq<byte>, more: seq<byte>, pos: nat, count: nat, args: Args)
    ensures Extends(ParseArgs(buf, pos, count, args), ParseArgs(buf + more, pos, count, args))
    decreases count
  {
    if count > 0 {
      ParseArgExtends(buf, more, pos);
      var step := ParseArg(buf, pos);
      if step.Complete? {
        ParseArgsExtends(buf, more, step.next, count - 1, args + [step.value]);
      }
    }
  }

  /** More bytes never change a complete command, nor an error other than a length cap. */
  lemma CommandExtends(buf: seq<byte>, more: seq<byte>)
    ensures Extends(ParseCommand(buf), ParseCommand(buf + more))
  {
    if buf != [] && buf[0] == STAR {
      ReadLineExtends(buf, more, 1, 0);
      var header := ReadLine(buf, 1, 0);
      if header.Complete? && ParseI64(header.value).Some? && ParseI64(header.value).value >= 0 {
        ParseArgsExtends(buf, more, header.next, ParseI64(header.value).value, []);
      }
    } else if buf != [] {
      ReadLineExtends(buf, more, 0, 0);
    }
  }

  lemma {:induction false} ReplyAtExtends(buf: seq<byte>, more: seq<byte>, pos: nat, depth: nat)
    ensures Extends(ParseReplyAt(buf, pos, depth), ParseReplyAt(buf + more, pos, depth))
    decreases MAX_REPLY_DEPTH + 1 - depth, 1
  {
    if depth <= MAX_REPLY_DEPTH && pos < |buf| {
      ReadLineExtends(buf, more, pos + 1, pos + 1);
      var header := ReadLine(buf, pos + 1, pos + 1);
      if header.Complete? && ParseI64(header.value).Some? && ParseI64(header.value).value >= 0 {
        var n := ParseI64(header.value).value;
        ReadBulkExtends(buf, more, header.next, n);
        ItemsExtend(buf, more, header.next, depth + 1, n, []);
      }
    }
  }

  lemma {:induction false} ItemsExtend(buf: seq<byte>, more: seq<byte>, pos: nat, depth: nat, count: nat,
                                items: seq<Reply>)
    requires depth <= MAX_REPLY_DEPTH + 1
    ensures Extends(ParseItems(buf, pos, depth, count, items), ParseItems(buf + more, pos, depth, count, items))
    decreases MAX_REPLY_DEPTH + 1 - depth, 2, count
  {
    if count > 0 {
      ReplyAtExtends(buf, more, pos, depth);
      var step := ParseReplyAt(buf, pos, depth);
      if step.Complete? {
        ItemsExtend(buf, more, step.next, depth, count - 1, items + [step.value]);
      }
    }
  }

  lemma ReplyExtends(buf: seq<byte>, more: seq<byte>)
    ensures Extends(ParseReply(buf), ParseReply(buf + more))
  {
    ReplyAtExtends(buf, more, 0, 0);
  }

  /** The exception is real: an inline line rejected as too long is accepted once its CRLF arrives. */
  lemma TooLongInlineRecovers(buf: seq<byte>) returns (more: seq<byte>)
    requires buf != [] && buf[0] != STAR && ParseCommand(buf).Invalid?
    ensures more <= CRLF || more == [LF]
    ensures ParseCommand(buf).why == LineTooLong && ParseCommand(buf + more).Complete?
  {
    FindCrlfIsFirst(buf, 0);
    more := if buf[|buf| - 1] == CR then [LF] else CRLF;
    var end := |buf + more| - 2;
    forall j | 0 <= j < end ensures !CrlfAt(buf + more, j) {
      assert !CrlfAt(buf, j);
    }
    FirstCrlf(buf + more, 0, end);
  }

  // ------------------------------------------------------ printed bytes: parse

  lemma LineAt(buf: seq<byte>, pos: nat, line: seq<byte>, start: nat)
    requires NoCrlf(line) && At(buf, pos, line + CRLF)
    ensures ReadLine(buf, pos, start) == Complete(line, pos + |line| + 2)
  {
    var w := line + CRLF;
    AtIndex(buf, pos, w, |line|);
    AtIndex(buf, pos, w, |line| + 1);
    forall j | pos <= j < pos + |line| ensures !CrlfAt(buf, j) {
      AtIndex(buf, pos, w, j - pos);
      AtIndex(buf, pos, w, j - pos + 1);
      assert !CrlfAt(line, j - pos);
    }
    FirstCrlf(buf, pos, pos + |line|);
    AtSplit(buf, pos, line, CRLF);
  }

  lemma PrintHasNoCrlf(n: int)
    ensures NoCrlf(Print(n))
  {
    var s := Print(n);
    forall i ensures !CrlfAt(s, i) {
      if 0 <= i < |s| {
        assert i > 0 || n >= 0 ==> IsDigit(s[i]);
      }
    }
  }

  lemma NumberAt(buf: seq<byte>, pos: nat, n: int, start: nat)
    requires At(buf, pos, Print(n) + CRLF) && InI64(n)
    ensures ReadLine(buf, pos, start) == Complete(Print(n), pos + |Print(n)| + 2)
    ensures ParseI64(Print(n)) == Some(n)
  {
    PrintHasNoCrlf(n);
    LineAt(buf, pos, Print(n), start);
    ParsePrint(n);
  }

  lemma SigilAt(buf: seq<byte>, pos: nat, sigil: byte, payload: seq<byte>)
    requires At(buf, pos, Line(sigil, payload))
    ensures pos < |buf| && buf[pos] == sigil && At(buf, pos + 1, payload + CRLF)
  {
    AtSplit(buf, pos, [sigil], payload + CRLF);
    AtIndex(buf, pos, [sigil], 0);
  }

  lemma BulkAt(buf: seq<byte>, pos: nat, data: seq<byte>)
    requires At(buf, pos, data + CRLF)
    ensures ReadBulk(buf, pos, |data|) == Complete(data, pos + |data| + 2)
  {
    AtSplit(buf, pos, data, CRLF);
    AtIndex(buf, pos + |data|, CRLF, 0);
    AtIndex(buf, pos + |data|, CRLF, 1);
  }

  ghost predicate InCaps(args: Args) {
    |args| <= MAX_ARRAY_LEN && forall i :: 0 <= i < |args| ==> |args[i]| <= MAX_BULK_LEN
  }

  lemma ArgTurn(buf: seq<byte>, pos: nat, line: seq<byte>, next: nat, len: nat)
    requires pos < |buf| && buf[pos] == DOLLAR && len <= MAX_BULK_LEN
    requires ReadLine(buf, pos + 1, pos) == Complete(line, next) && ParseI64(line) == Some(len)
    ensures ParseArg(buf, pos) == ReadBulk(buf, next, len)
  {}

  lemma ArgHeaderAt(buf: seq<byte>, pos: nat, arg: seq<byte>) returns (next: nat)
    requires |arg| <= MAX_BULK_LEN && At(buf, pos, EncodeArg(arg))
    ensures pos < |buf| && buf[pos] == DOLLAR && ReadLine(buf, pos + 1, pos) == Complete(Print(|arg|), next)
    ensures ParseI64(Print(|arg|)) == Some(|arg|)
    ensures At(buf, next, arg + CRLF) && next + |arg| + 2 == pos + |EncodeArg(arg)|
  {
    next := pos + |Line(DOLLAR, Print(|arg|))|;
    AtSplit(buf, pos, Line(DOLLAR, Print(|arg|)), arg + CRLF);
    SigilAt(buf, pos, DOLLAR, Print(|arg|));
    NumberAt(buf, pos + 1, |arg|, pos);
  }

  lemma ArgAt(buf: seq<byte>, pos: nat, arg: seq<byte>)
    requires |arg| <= MAX_BULK_LEN && At(buf, pos, EncodeArg(arg))
    ensures ParseArg(buf, pos) == Complete(arg, pos + |EncodeArg(arg)|)
  {
    var next := ArgHeaderAt(buf, pos, arg);
    ArgTurn(buf, pos, Print(|arg|), next, |arg|);
    BulkAt(buf, next, arg);
  }

  lemma {:induction false} ArgsAt(buf: seq<byte>, pos: nat, args: Args, acc: Args)
    requires At(buf, pos, EncodeArgs(args))
    requires forall i :: 0 <= i < |args| ==> |args[i]| <= MAX_BULK_LEN
    ensures ParseArgs(buf, pos, |args|, acc) == Complete(acc + args, pos + |EncodeArgs(args)|)
    decreases args
  {
    if args == [] {
      assert acc + args == acc;
    } else {
      var head, tail := args[0], args[1..];
      assert args == [head] + tail;
      var next := pos + |EncodeArg(head)|;
      AtSplit(buf, pos, EncodeArg(head), EncodeArgs(tail));
      ArgAt(buf, pos, head);
      ArgsAt(buf, next, tail, acc + [head]);
      ArgsTurn(buf, pos, |args|, acc, head, next);
      Assoc(acc, [head], tail);
    }
  }

  /** Every in-cap command survives encoding, whatever follows it in the buffer. */
  lemma CommandRoundTrip(args: Args, rest: seq<byte>)
    requires InCaps(args)
    ensures ParseCommand(Encode(args) + rest) == Complete(args, |Encode(args)|)
  {
    var buf := Encode(args) + rest;
    assert buf[0..|Encode(args)|] == Encode(args);
    var header := Line(STAR, Print(|args|));
    AtSplit(buf, 0, header, EncodeArgs(args));
    SigilAt(buf, 0, STAR, Print(|args|));
    NumberAt(buf, 1, |args|, 0);
    ArgsAt(buf, |header|, args, []);
    assert [] + args == args;
  }

  lemma {:induction false} ReplyAt(buf: seq<byte>, pos: nat, r: Reply, depth: nat)
    requires WellFormed(r, depth) && At(buf, pos, Write(r))
    ensures ParseReplyAt(buf, pos, depth) == Complete(r, pos + |Write(r)|)
    decreases r, 1
  {
    if r.Array? {
      var next := ArrayHeaderAt(buf, pos, r.items);
      ItemsAt(buf, next, r.items, depth + 1, []);
      assert [] + r.items == r.items;
      ArrayTurn(buf, pos, depth, Print(|r.items|), next, r.items, next + |WriteAll(r.items)|);
    } else if r.Bulk? {
      BulkReplyAt(buf, pos, r, depth);
    } else {
      LineReplyAt(buf, pos, r, depth);
    }
  }

  /** The header of a printed array; its elements start at `next`. */
  lemma ArrayHeaderAt(buf: seq<byte>, pos: nat, items: seq<Reply>) returns (next: nat)
    requires At(buf, pos, Write(Array(items))) && |items| <= MAX_ARRAY_LEN
    ensures pos < |buf| && buf[pos] == STAR && next == pos + |Line(STAR, Print(|items|))|
    ensures ReadLine(buf, pos + 1, pos + 1) == Complete(Print(|items|), next)
    ensures ParseI64(Print(|items|)) == Some(|items|)
    ensures At(buf, pos, Line(STAR, Print(|items|)))
    ensures At(buf, next, WriteAll(items)) && pos + |Write(Array(items))| == next + |WriteAll(items)|
  {
    var header := Line(STAR, Print(|items|));
    next := pos + |header|;
    AtSplit(buf, pos, header, WriteAll(items));
    SigilAt(buf, pos, STAR, Print(|items|));
    NumberAt(buf, pos + 1, |items|, pos + 1);
  }

  lemma ArrayTurn(buf: seq<byte>, pos: nat, depth: nat, line: seq<byte>, next: nat, items: seq<Reply>, after: nat)
    requires depth <= MAX_REPLY_DEPTH && pos < |buf| && buf[pos] == STAR && |items| <= MAX_ARRAY_LEN
    requires ReadLine(buf, pos + 1, pos + 1) == Complete(line, next) && ParseI64(line) == Some(|items|)
    requires ParseItems(buf, next, depth + 1, |items|, []) == Complete(items, after)
    ensures ParseReplyAt(buf, pos, depth) == Complete(Array(items), after)
  {}

  lemma ArrayTooLong(buf: seq<byte>, pos: nat, depth: nat, line: seq<byte>, next: nat, count: nat)
    requires depth <= MAX_REPLY_DEPTH && pos < |buf| && buf[pos] == STAR && count <= MAX_ARRAY_LEN
    requires ReadLine(buf, pos + 1, pos + 1) == Complete(line, next) && ParseI64(line) == Some(count)
    requires ParseItems(buf, next, depth + 1, count, []) == Invalid(LineTooLong)
    ensures ParseReplyAt(buf, pos, depth) == Invalid(LineTooLong)
  {}

  lemma ItemsTurn(buf: seq<byte>, pos: nat, depth: nat, count: nat, acc: seq<Reply>, item: Reply, next: nat)
    requires depth <= MAX_REPLY_DEPTH + 1 && count > 0
    requires ParseReplyAt(buf, pos, depth) == Complete(item, next)
    ensures ParseItems(buf, pos, depth, count, acc) == ParseItems(buf, next, depth, count - 1, acc + [item])
  {}

  lemma LineReplyAt(buf: seq<byte>, pos: nat, r: Reply, depth: nat)
    requires !r.Array? && !r.Bulk?
    requires WellFormed(r, depth) && At(buf, pos, Write(r))
    ensures ParseReplyAt(buf, pos, depth) == Complete(r, pos + |Write(r)|)
  {
    match r {
      case Simple(s) =>
        SigilAt(buf, pos, PLUS, s);
        LineAt(buf, pos + 1, s, pos + 1);
      case Error(s) =>
        SigilAt(buf, pos, MINUS, s);
        LineAt(buf, pos + 1, s, pos + 1);
      case Integer(n) =>
        SigilAt(buf, pos, COLON, Print(n));
        NumberAt(buf, pos + 1, n, pos + 1);
      case NullBulk =>
        SigilAt(buf, pos, DOLLAR, Print(-1));
        NumberAt(buf, pos + 1, -1, pos + 1);
      case NullArray =>
        SigilAt(buf, pos, STAR, Print(-1));
        NumberAt(buf, pos + 1, -1, pos + 1);
    }
  }

  lemma BulkHeaderAt(buf: seq<byte>, pos: nat, data: seq<byte>) returns (next: nat)
    requires |data| <= MAX_BULK_LEN && At(buf, pos, Write(Bulk(data)))
    ensures pos < |buf| && buf[pos] == DOLLAR && ReadLine(buf, pos + 1, pos + 1) == Complete(Print(|data|), next)
    ensures ParseI64(Print(|data|)) == Some(|data|)
    ensures At(buf, next, data + CRLF) && next + |data| + 2 == pos + |Write(Bulk(data))|
  {
    next := pos + |Line(DOLLAR, Print(|data|))|;
    AtSplit(buf, pos, Line(DOLLAR, Print(|data|)), data + CRLF);
    SigilAt(buf, pos, DOLLAR, Print(|data|));
    NumberAt(buf, pos + 1, |data|, pos + 1);
  }

  lemma BulkReplyAt(buf: seq<byte>, pos: nat, r: Reply, depth: nat)
    requires r.Bulk? && WellFormed(r, depth) && At(buf, pos, Write(r))
    ensures ParseReplyAt(buf, pos, depth) == Complete(r, pos + |Write(r)|)
  {
    var next := BulkHeaderAt(buf, pos, r.data);
    BulkAt(buf, next, r.data);
    BulkTurn(buf, pos, depth, Print(|r.data|), next, r.data);
  }

  lemma BulkTurn(buf: seq<byte>, pos: nat, depth: nat, line: seq<byte>, next: nat, data: seq<byte>)
    requires depth <= MAX_REPLY_DEPTH && pos < |buf| && buf[pos] == DOLLAR && |data| <= MAX_BULK_LEN
    requires ReadLine(buf, pos + 1, pos + 1) == Complete(line, next) && ParseI64(line) == Some(|data|)
    requires ReadBulk(buf, next, |data|) == Complete(data, next + |data| + 2)
    ensures ParseReplyAt(buf, pos, depth) == Complete(Bulk(data), next + |data| + 2)
  {}

  lemma {:induction false} ItemsAt(buf: seq<byte>, pos: nat, items: seq<Reply>, depth: nat, acc: seq<Reply>)
    requires depth <= MAX_REPLY_DEPTH + 1
    requires At(buf, pos, WriteAll(items))
    requires forall i :: 0 <= i < |items| ==> WellFormed(items[i], depth)
    ensures ParseItems(buf, pos, depth, |items|, acc) == Complete(acc + items, pos + |WriteAll(items)|)
    decreases items, 0
  {
    if items == [] {
      assert acc + items == acc;
    } else {
      var head, tail := items[0], items[1..];
      assert items == [head] + tail;
      var next := pos + |Write(head)|;
      AtSplit(buf, pos, Write(head), WriteAll(tail));
      ReplyAt(buf, pos, head, depth);
      ItemsAt(buf, next, tail, depth, acc + [head]);
      ItemsTurn(buf, pos, depth, |items|, acc, head, next);
      Assoc(acc, [head], tail);
    }
  }

  /** A reply round-trips, with any bytes behind it, exactly when it is well formed. */
  lemma ReplyRoundTrip(r: Reply, rest: seq<byte>)
    ensures ParseReply(Write(r) + rest) == Complete(r, |Write(r)|) <==> WellFormed(r, 0)
  {
    var buf := Write(r) + rest;
    if WellFormed(r, 0) {
      assert buf[0..|Write(r)|] == Write(r);
      ReplyAt(buf, 0, r, 0);
    } else {
      ReplyProgress(buf, 0, 0);
    }
  }

  // ----------------------------------------------------- printed bytes: cuts

  /** Every strict prefix of an in-cap encoded command is just incomplete. */
  lemma CommandCut(args: Args, n: nat)
    requires InCaps(args) && n < |Encode(args)|
    ensures ParseCommand(Encode(args)[..n]) == Incomplete
  {
    var w := Encode(args);
    var buf := w[..n];
    assert w == buf + w[n..] && w + [] == w;
    CommandRoundTrip(args, []);
    CommandExtends(buf, w[n..]);
    CommandProgress(buf);
    if ParseCommand(buf) == Invalid(LineTooLong) {
      CommandCutShort(args, n);
    }
  }

  lemma LengthIsShort(n: nat)
    requires n <= MAX_BULK_LEN
    ensures |Print(n)| <= 9
  {
    assert Pow10(9) == 1000000000 by {
      assert Pow10(3) == 1000;
      assert Pow10(6) == 1000000;
    }
    DigitsLength(n, 9);
  }

  /** An unterminated line cut out of a longer buffer is no longer than the line was. */
  lemma CutLine(buf: seq<byte>, n: nat, body: nat, line: seq<byte>, start: nat)
    requires NoCrlf(line) && At(buf, body, line + CRLF) && start <= body <= n <= |buf|
    requires body - start + |line| < MAX_INLINE_LEN
    ensures ReadLine(buf[..n], body, start) ==
            if n >= body + |line| + 2 then Complete(line, body + |line| + 2) else Incomplete
  {
    var cut := buf[..n];
    if n >= body + |line| + 2 {
      assert cut[body..body + |line| + 2] == buf[body..body + |line| + 2];
      LineAt(cut, body, line, start);
    } else {
      LineAt(buf, body, line, start);
      FindCrlfIsFirst(buf, body);
      forall j | body <= j ensures !CrlfAt(cut, j) {
        if CrlfAt(cut, j) { assert CrlfAt(buf, j); }
      }
    }
  }

  lemma CommandCutShort(args: Args, n: nat)
    requires InCaps(args) && n < |Encode(args)|
    ensures ParseCommand(Encode(args)[..n]) != Invalid(LineTooLong)
  {
    var w := Encode(args);
    if n > 0 {
      var header := Line(STAR, Print(|args|));
      assert w[0..|w|] == w;
      AtSplit(w, 0, header, EncodeArgs(args));
      SigilAt(w, 0, STAR, Print(|args|));
      LengthIsShort(|args|);
      PrintHasNoCrlf(|args|);
      ParsePrint(|args|);
      CutLine(w, n, 1, Print(|args|), 0);
      if n >= |header| {
        ArgsCutShort(w, n, |header|, args);
      }
    }
  }

  ghost predicate AllInCap(args: Args) { forall i :: 0 <= i < |args| ==> |args[i]| <= MAX_BULK_LEN }

  lemma InCapParts(args: Args)
    requires args != [] && AllInCap(args)
    ensures |args[0]| <= MAX_BULK_LEN && AllInCap(args[1..])
  {}

  /** The argument parser at each offset of a buffer. */
  type ArgParser = nat -> Outcome<seq<byte>>

  function ArgParserOf(buf: seq<byte>): ArgParser { pos => ParseArg(buf, pos) }

  /** None of `count` arguments in a row is rejected for its length. */
  predicate NeverTooLong(parse: ArgParser, pos: nat, count: nat)
    decreases count
  {
    count == 0 || (parse(pos) != Invalid(LineTooLong)
                   && (parse(pos).Complete? ==> NeverTooLong(parse, parse(pos).next, count - 1)))
  }

  lemma {:induction false} ArgsNeverTooLong(buf: seq<byte>, pos: nat, count: nat, acc: Args)
    requires NeverTooLong(ArgParserOf(buf), pos, count)
    ensures ParseArgs(buf, pos, count, acc) != Invalid(LineTooLong)
    decreases count
  {
    if count > 0 {
      var step := ParseArg(buf, pos);
      if step.Complete? {
        ArgsNeverTooLong(buf, step.next, count - 1, acc + [step.value]);
      }
      ArgsCutTurn(buf, pos, count, acc, step);
    }
  }

  lemma ArgsCutTurn(buf: seq<byte>, pos: nat, count: nat, acc: Args, step: Outcome<seq<byte>>)
    requires count > 0 && step == ParseArg(buf, pos) && step != Invalid(LineTooLong)
    requires step.Complete? ==> ParseArgs(buf, step.next, count - 1, acc + [step.value]) != Invalid(LineTooLong)
    ensures ParseArgs(buf, pos, count, acc) != Invalid(LineTooLong)
  {}

  /** An argument printed at `pos` is not rejected in the cut at `n`, and complete only if it is whole. */
  ghost predicate FairTo(parse: ArgParser, buf: seq<byte>, n: nat, pos: nat, arg: seq<byte>) {
    pos <= n <= |buf| && At(buf, pos, EncodeArg(arg)) && |arg| <= MAX_BULK_LEN ==>
      && parse(pos) != Invalid(LineTooLong)
      && (parse(pos).Complete? ==> parse(pos).next == pos + |EncodeArg(arg)| <= n)
  }

  lemma CutParserIsFair(buf: seq<byte>, n: nat)
    requires n <= |buf|
    ensures forall pos, arg :: FairTo(ArgParserOf(buf[..n]), buf, n, pos, arg)
  {
    forall pos: nat, arg: seq<byte> ensures FairTo(ArgParserOf(buf[..n]), buf, n, pos, arg) {
      if pos <= n <= |buf| && At(buf, pos, EncodeArg(arg)) && |arg| <= MAX_BULK_LEN {
        ArgCutShort(buf, n, pos, arg);
      }
    }
  }

  lemma {:induction false} FairToAll(parse: ArgParser, buf: seq<byte>, n: nat, pos: nat, args: Args)
    requires forall p, arg :: FairTo(parse, buf, n, p, arg)
    requires pos <= n <= |buf| && At(buf, pos, EncodeArgs(args)) && AllInCap(args)
    ensures NeverTooLong(parse, pos, |args|)
    decreases args
  {
    if args != [] {
      InCapParts(args);
      AtSplit(buf, pos, EncodeArg(args[0]), EncodeArgs(args[1..]));
      assert FairTo(parse, buf, n, pos, args[0]);
      if parse(pos).Complete? {
        FairToAll(parse, buf, n, pos + |EncodeArg(args[0])|, args[1..]);
      }
    }
  }

  lemma ArgsCutShort(buf: seq<byte>, n: nat, pos: nat, args: Args)
    requires pos <= n <= |buf| && At(buf, pos, EncodeArgs(args)) && AllInCap(args)
    ensures ParseArgs(buf[..n], pos, |args|, []) != Invalid(LineTooLong)
  {
    CutParserIsFair(buf, n);
    FairToAll(ArgParserOf(buf[..n]), buf, n, pos, args);
    ArgsNeverTooLong(buf[..n], pos, |args|, []);
  }

  /** A cut argument is complete, incomplete, but never rejected for length. */
  lemma ArgCutShort(buf: seq<byte>, n: nat, pos: nat, arg: seq<byte>)
    requires pos <= n <= |buf| && At(buf, pos, EncodeArg(arg)) && |arg| <= MAX_BULK_LEN
    ensures ParseArg(buf[..n], pos) != Invalid(LineTooLong)
    ensures ParseArg(buf[..n], pos).Complete? ==>
              ParseArg(buf[..n], pos).next == pos + |EncodeArg(arg)| && pos + |EncodeArg(arg)| <= n
  {
    if pos < n {
      AtSplit(buf, pos, Line(DOLLAR, Print(|arg|)), arg + CRLF);
      SigilAt(buf, pos, DOLLAR, Print(|arg|));
      LengthIsShort(|arg|);
      PrintHasNoCrlf(|arg|);
      ParsePrint(|arg|);
      CutLine(buf, n, pos + 1, Print(|arg|), pos);
    }
  }

  /** Every line payload of the reply stays under the line cap. */
  ghost predicate LinesShort(r: Reply)
    decreases r
  {
    match r
    case Simple(s) => |s| < MAX_INLINE_LEN
    case Error(s) => |s| < MAX_INLINE_LEN
    case Array(items) => forall i :: 0 <= i < |items| ==> LinesShort(items[i])
    case _ => true
  }

  ghost predicate AllCutsIncomplete(r: Reply) {
    forall n :: 0 <= n < |Write(r)| ==> ParseReply(Write(r)[..n]) == Incomplete
  }

  lemma NumberIsShort(n: int)
    requires InI64(n)
    ensures |Print(n)| <= 20 && NoCrlf(Print(n)) && ParseI64(Print(n)) == Some(n)
  {
    PrintLength(n);
    PrintHasNoCrlf(n);
    ParsePrint(n);
  }

  lemma {:induction false} ReplyCutShort(buf: seq<byte>, n: nat, pos: nat, r: Reply, depth: nat)
    requires pos <= n <= |buf| && At(buf, pos, Write(r)) && WellFormed(r, depth) && LinesShort(r)
    ensures ParseReplyAt(buf[..n], pos, depth) != Invalid(LineTooLong)
    decreases r, 1
  {
    if pos < n {
      if r.Array? {
        var next := ArrayHeaderAt(buf, pos, r.items);
        if n >= next {
          ItemsCutShort(buf, n, next, r.items, depth + 1, []);
        }
        ArrayCutShort(buf, n, pos, r.items, depth, next);
      } else {
        LineCutShort(buf, n, pos, r, depth);
      }
    }
  }

  lemma ArrayCutShort(buf: seq<byte>, n: nat, pos: nat, items: seq<Reply>, depth: nat, next: nat)
    requires pos < n <= |buf| && depth <= MAX_REPLY_DEPTH && |items| <= MAX_ARRAY_LEN
    requires At(buf, pos, Line(STAR, Print(|items|))) && next == pos + |Line(STAR, Print(|items|))|
    requires n >= next ==> ParseItems(buf[..n], next, depth + 1, |items|, []) != Invalid(LineTooLong)
    ensures ParseReplyAt(buf[..n], pos, depth) != Invalid(LineTooLong)
  {
    NumberCutShort(buf, n, pos, STAR, |items|);
    HeaderNotTooLong(buf[..n], pos, depth);
  }

  lemma LineCutShort(buf: seq<byte>, n: nat, pos: nat, r: Reply, depth: nat)
    requires !r.Array?
    requires pos < n <= |buf| && At(buf, pos, Write(r)) && WellFormed(r, depth) && LinesShort(r)
    ensures ParseReplyAt(buf[..n], pos, depth) != Invalid(LineTooLong)
  {
    var cut := buf[..n];
    if r.Simple? || r.Error? {
      var sigil := if r.Simple? then PLUS else MINUS;
      SigilAt(buf, pos, sigil, r.text);
      CutLine(buf, n, pos + 1, r.text, pos + 1);
      assert cut[pos] == sigil;
    } else if r.Bulk? {
      AtSplit(buf, pos, Line(DOLLAR, Print(|r.data|)), r.data + CRLF);
      NumberCutShort(buf, n, pos, DOLLAR, |r.data|);
    } else {
      var sigil := if r.Integer? then COLON else if r.NullBulk? then DOLLAR else STAR;
      NumberCutShort(buf, n, pos, sigil, if r.Integer? then r.n else -1);
    }
    HeaderNotTooLong(cut, pos, depth);
  }

  /** A reply whose header line is not too long fails for that reason only inside an array. */
  lemma HeaderNotTooLong(buf: seq<byte>, pos: nat, depth: nat)
    requires pos < |buf| && ReadLine(buf, pos + 1, pos + 1) != Invalid(LineTooLong)
    ensures ParseReplyAt(buf, pos, depth) == Invalid(LineTooLong) ==>
              && buf[pos] == STAR && depth <= MAX_REPLY_DEPTH
              && var header := ReadLine(buf, pos + 1, pos + 1);
                 && header.Complete? && ParseI64(header.value).Some?
                 && var count := ParseI64(header.value).value;
                    count >= 0 && ParseItems(buf, header.next, depth + 1, count, []) == Invalid(LineTooLong)
  {
    var o, header := ParseReplyAt(buf, pos, depth), ReadLine(buf, pos + 1, pos + 1);
    if o == Invalid(LineTooLong) && buf[pos] == STAR {
      assert o == ParseArrayBody(buf, header.value, header.next, depth);
    }
  }

  lemma NumberCutShort(buf: seq<byte>, n: nat, pos: nat, sigil: byte, k: int)
    requires pos < n <= |buf| && At(buf, pos, Line(sigil, Print(k))) && InI64(k)
    ensures buf[..n][pos] == sigil && ParseI64(Print(k)) == Some(k)
    ensures ReadLine(buf[..n], pos + 1, pos + 1) ==
            if n >= pos + |Line(sigil, Print(k))| then Complete(Print(k), pos + |Line(sigil, Print(k))|) else Incomplete
  {
    SigilAt(buf, pos, sigil, Print(k));
    NumberIsShort(k);
    CutLine(buf, n, pos + 1, Print(k), pos + 1);
  }

  ghost predicate AllShort(items: seq<Reply>, depth: nat) {
    forall i :: 0 <= i < |items| ==> WellFormed(items[i], depth) && LinesShort(items[i])
  }

  lemma ShortParts(items: seq<Reply>, depth: nat)
    requires items != [] && AllShort(items, depth)
    ensures WellFormed(items[0], depth) && LinesShort(items[0]) && AllShort(items[1..], depth)
  {}

  lemma {:induction false} ItemsCutShort(buf: seq<byte>, n: nat, pos: nat, items: seq<Reply>, depth: nat,
                                         acc: seq<Reply>)
    requires depth <= MAX_REPLY_DEPTH + 1 && AllShort(items, depth)
    requires pos <= n <= |buf| && At(buf, pos, WriteAll(items))
    ensures ParseItems(buf[..n], pos, depth, |items|, acc) != Invalid(LineTooLong)
    decreases items, 0
  {
    if items != [] {
      var head, tail := items[0], items[1..];
      ShortParts(items, depth);
      AtSplit(buf, pos, Write(head), WriteAll(tail));
      ReplyCutShort(buf, n, pos, head, depth);
      if ParseReplyAt(buf[..n], pos, depth).Complete? {
        CompleteInCut(buf, n, pos, head, depth);
        ItemsTurn(buf[..n], pos, depth, |items|, acc, head, pos + |Write(head)|);
        ItemsCutShort(buf, n, pos + |Write(head)|, tail, depth, acc + [head]);
      } else {
        ItemsStop(buf[..n], pos, depth, |items|, acc);
      }
    }
  }

  lemma ItemsStop(buf: seq<byte>, pos: nat, depth: nat, count: nat, acc: seq<Reply>)
    requires depth <= MAX_REPLY_DEPTH + 1 && count > 0 && !ParseReplyAt(buf, pos, depth).Complete?
    requires ParseReplyAt(buf, pos, depth) != Invalid(LineTooLong)
    ensures ParseItems(buf, pos, depth, count, acc) != Invalid(LineTooLong)
  {}

  /** A reply that parses inside a cut is the printed one, whole. */
  lemma CompleteInCut(buf: seq<byte>, n: nat, pos: nat, r: Reply, depth: nat)
    requires pos <= n <= |buf| && At(buf, pos, Write(r)) && WellFormed(r, depth)
    requires ParseReplyAt(buf[..n], pos, depth).Complete?
    ensures ParseReplyAt(buf[..n], pos, depth) == Complete(r, pos + |Write(r)|) && pos + |Write(r)| <= n
  {
    ReplyAt(buf, pos, r, depth);
    assert buf == buf[..n] + buf[n..];
    ReplyAtExtends(buf[..n], buf[n..], pos, depth);
    ReplyProgress(buf[..n], pos, depth);
  }

  /** A reply that lies inside a cut parses there. */
  lemma WholeInCut(buf: seq<byte>, n: nat, pos: nat, r: Reply, depth: nat)
    requires At(buf, pos, Write(r)) && WellFormed(r, depth) && pos + |Write(r)| <= n <= |buf|
    ensures ParseReplyAt(buf[..n], pos, depth) == Complete(r, pos + |Write(r)|)
  {
    assert buf[..n][pos..pos + |Write(r)|] == buf[pos..pos + |Write(r)|];
    ReplyAt(buf[..n], pos, r, depth);
  }

  /** The cut through the CRLF of an over-long line is rejected; `n` is that cut. */
  lemma {:induction false} LongLineCut(buf: seq<byte>, pos: nat, r: Reply, depth: nat) returns (n: nat)
    requires WellFormed(r, depth) && !LinesShort(r) && At(buf, pos, Write(r))
    ensures pos <= n < pos + |Write(r)| && ParseReplyAt(buf[..n], pos, depth) == Invalid(LineTooLong)
    decreases r, 1
  {
    if r.Array? {
      var next := ArrayHeaderAt(buf, pos, r.items);
      var j := LongItem(r.items);
      n := LongLineCutItems(buf, next, r.items, j, depth + 1, []);
      ArrayCutTooLong(buf, n, pos, r.items, depth, next);
    } else {
      n := pos + 1 + |r.text| + 1;
      LongLineCutLeaf(buf, pos, r, depth, n);
    }
  }

  lemma LongItem(items: seq<Reply>) returns (j: nat)
    requires !LinesShort(Array(items))
    ensures j < |items| && !LinesShort(items[j])
  {
    j :| 0 <= j < |items| && !LinesShort(items[j]);
  }

  lemma ArrayCutTooLong(buf: seq<byte>, n: nat, pos: nat, items: seq<Reply>, depth: nat, next: nat)
    requires pos < next <= n <= |buf| && depth <= MAX_REPLY_DEPTH && |items| <= MAX_ARRAY_LEN
    requires At(buf, pos, Line(STAR, Print(|items|))) && next == pos + |Line(STAR, Print(|items|))|
    requires ParseItems(buf[..n], next, depth + 1, |items|, []) == Invalid(LineTooLong)
    ensures ParseReplyAt(buf[..n], pos, depth) == Invalid(LineTooLong)
  {
    NumberCutShort(buf, n, pos, STAR, |items|);
    ArrayTooLong(buf[..n], pos, depth, Print(|items|), next, |items|);
  }

  lemma LongLineCutLeaf(buf: seq<byte>, pos: nat, r: Reply, depth: nat, n: nat)
    requires r.Simple? || r.Error?
    requires WellFormed(r, depth) && !LinesShort(r) && At(buf, pos, Write(r))
    requires n == pos + 1 + |r.text| + 1
    ensures ParseReplyAt(buf[..n], pos, depth) == Invalid(LineTooLong)
  {
    SigilAt(buf, pos, if r.Simple? then PLUS else MINUS, r.text);
    LineAt(buf, pos + 1, r.text, pos + 1);
    FindCrlfIsFirst(buf, pos + 1);
    forall j | pos + 1 <= j ensures !CrlfAt(buf[..n], j) {
      if CrlfAt(buf[..n], j) { assert CrlfAt(buf, j); }
    }
  }

  lemma {:induction false} LongLineCutItems(buf: seq<byte>, pos: nat, items: seq<Reply>, j: nat, depth: nat,
                                acc: seq<Reply>)
    returns (n: nat)
    requires depth <= MAX_REPLY_DEPTH + 1
    requires At(buf, pos, WriteAll(items))
    requires forall i :: 0 <= i < |items| ==> WellFormed(items[i], depth)
    requires j < |items| && !LinesShort(items[j])
    ensures pos <= n < pos + |WriteAll(items)|
    ensures ParseItems(buf[..n], pos, depth, |items|, acc) == Invalid(LineTooLong)
    decreases items, 0
  {
    var head, tail := items[0], items[1..];
    var next := pos + |Write(head)|;
    AtSplit(buf, pos, Write(head), WriteAll(tail));
    if j == 0 {
      n := LongLineCut(buf, pos, head, depth);
      ItemsInvalid(buf[..n], pos, depth, |items|, acc, LineTooLong);
    } else {
      n := LongLineCutItems(buf, next, tail, j - 1, depth, acc + [head]);
      CutBehindItem(buf, n, pos, head, depth, |items|, acc, LineTooLong);
    }
  }

  /** A whole item in front of a failure does not change it. */
  lemma CutBehindItem(buf: seq<byte>, n: nat, pos: nat, head: Reply, depth: nat, count: nat, acc: seq<Reply>,
                      why: Reason)
    requires depth <= MAX_REPLY_DEPTH + 1 && count > 0 && pos + |Write(head)| <= n <= |buf|
    requires At(buf, pos, Write(head)) && WellFormed(head, depth)
    requires ParseItems(buf[..n], pos + |Write(head)|, depth, count - 1, acc + [head]) == Invalid(why)
    ensures ParseItems(buf[..n], pos, depth, count, acc) == Invalid(why)
  {
    WholeInCut(buf, n, pos, head, depth);
    ItemsTurn(buf[..n], pos, depth, count, acc, head, pos + |Write(head)|);
  }

  lemma ItemsInvalid(buf: seq<byte>, pos: nat, depth: nat, count: nat, acc: seq<Reply>, why: Reason)
    requires depth <= MAX_REPLY_DEPTH + 1 && count > 0 && ParseReplyAt(buf, pos, depth) == Invalid(why)
    ensures ParseItems(buf, pos, depth, count, acc) == Invalid(why)
  {}

  /** Cutting a printed reply anywhere gives `Incomplete`, exactly when its lines stay under the cap. */
  lemma ReplyCut(r: Reply)
    requires WellFormed(r, 0)
    ensures AllCutsIncomplete(r) <==> LinesShort(r)
  {
    var w := Write(r);
    assert w[0..|w|] == w && w + [] == w;
    if LinesShort(r) {
      forall n | 0 <= n < |w| ensures ParseReply(w[..n]) == Incomplete {
        ReplyCutAt(r, n);
      }
    } else {
      var n := LongLineCut(w, 0, r, 0);
      assert ParseReply(w[..n]) != Incomplete;
    }
  }

  lemma ReplyCutAt(r: Reply, n: nat)
    requires WellFormed(r, 0) && n < |Write(r)|
    ensures ParseReply(Write(r)[..n]) in {Incomplete, Invalid(LineTooLong)}
    ensures LinesShort(r) ==> ParseReply(Write(r)[..n]) == Incomplete
  {
    var w := Write(r);
    var buf := w[..n];
    assert w == buf + w[n..] && w + [] == w && w[0..|w|] == w;
    ReplyRoundTrip(r, []);
    ReplyExtends(buf, w[n..]);
    ReplyProgress(buf, 0, 0);
    if LinesShort(r) {
      ReplyCutShort(w, n, 0, r, 0);
    }
  }

  /** A command is the array-of-bulks reply with the same contents. */
  lemma EncodeIsArrayOfBulks(args: Args)
    ensures Encode(args) == Write(Array(seq(|args|, i requires 0 <= i < |args| => Bulk(args[i]))))
  {
    EncodeArgsAsBulks(args);
  }

  lemma {:induction false} EncodeArgsAsBulks(args: Args)
    ensures EncodeArgs(args) == WriteAll(seq(|args|, i requires 0 <= i < |args| => Bulk(args[i])))
  {
    var bulks := seq(|args|, i requires 0 <= i < |args| => Bulk(args[i]));
    if args != [] {
      EncodeArgsAsBulks(args[1..]);
      assert bulks[1..] == seq(|args[1..]|, i requires 0 <= i < |args[1..]| => Bulk(args[1..][i]));
    }
  }

  // ---------------------------------------------------------- inline commands

  ghost predicate IsWord(w: seq<byte>) { w != [] && SPACE !in w }

  ghost predicate IsBlankRun(s: seq<byte>) { forall i :: 0 <= i < |s| ==> s[i] == SPACE }

  /** Words, each preceded by its run of blanks. */
  function Spaced(gaps: seq<seq<byte>>, words: Args): seq<byte>
    requires |gaps| == |words|
  {
    if words == [] then [] else gaps[0] + words[0] + Spaced(gaps[1..], words[1..])
  }

  /** A line made of words: blanks between any two of them, and anywhere else blanks are allowed. */
  ghost predicate SpacedOut(gaps: seq<seq<byte>>, words: Args) {
    && |gaps| == |words|
    && (forall i :: 0 <= i < |words| ==> IsWord(words[i]) && IsBlankRun(gaps[i]))
    && forall i :: 0 < i < |words| ==> gaps[i] != []
  }

  lemma {:induction false} TokensSkipBlanks(gap: seq<byte>, rest: seq<byte>)
    requires IsBlankRun(gap)
    ensures TokensFrom(gap + rest, []) == TokensFrom(rest, [])
    decreases gap
  {
    if gap == [] {
      assert gap + rest == rest;
    } else {
      assert (gap + rest)[1..] == gap[1..] + rest;
      TokensSkipBlanks(gap[1..], rest);
      assert [] + TokensFrom(rest, []) == TokensFrom(rest, []);
    }
  }

  lemma {:induction false} TokensTakeWord(word: seq<byte>, rest: seq<byte>, pending: seq<byte>)
    requires SPACE !in word
    ensures TokensFrom(word + rest, pending) == TokensFrom(rest, pending + word)
    decreases word
  {
    if word == [] {
      assert word + rest == rest && pending + word == pending;
    } else {
      assert (word + rest)[0] == word[0] && (word + rest)[1..] == word[1..] + rest;
      TokensTakeWord(word[1..], rest, pending + [word[0]]);
      assert pending + [word[0]] + word[1..] == pending + word;
    }
  }

  /** A word ends where blanks or the line end. */
  lemma TokensEndWord(word: seq<byte>, gap: seq<byte>, rest: seq<byte>)
    requires IsWord(word) && IsBlankRun(gap) && (gap != [] || rest == [])
    ensures TokensFrom(gap + rest, word) == [word] + TokensFrom(rest, [])
  {
    if gap == [] {
      assert gap + rest == [];
    } else {
      assert (gap + rest)[1..] == gap[1..] + rest;
      TokensSkipBlanks(gap[1..], rest);
    }
  }

  lemma {:induction false} TokensOfSpaced(gaps: seq<seq<byte>>, words: Args, tail: seq<byte>)
    requires SpacedOut(gaps, words) && IsBlankRun(tail)
    ensures Tokens(Spaced(gaps, words) + tail) == words
    decreases words
  {
    if words == [] {
      assert [] + tail == tail + [];
      TokensSkipBlanks(tail, []);
    } else {
      SpacedTurn(gaps, words, tail);
      TokensOfSpaced(gaps[1..], words[1..], tail);
      assert [words[0]] + words[1..] == words;
    }
  }

  lemma WordThen(gap: seq<byte>, word: seq<byte>, more: seq<byte>, blanks: seq<byte>, next: seq<byte>)
    requires IsBlankRun(gap) && IsWord(word) && IsBlankRun(blanks) && (blanks != [] || next == [])
    requires more == blanks + next
    ensures TokensFrom(gap + (word + more), []) == [word] + TokensFrom(more, [])
  {
    TokensSkipBlanks(gap, word + more);
    TokensTakeWord(word, more, []);
    assert [] + word == word;
    TokensEndWord(word, blanks, next);
    TokensSkipBlanks(blanks, next);
  }

  lemma SpacedTurn(gaps: seq<seq<byte>>, words: Args, tail: seq<byte>)
    requires SpacedOut(gaps, words) && words != [] && IsBlankRun(tail)
    ensures Tokens(Spaced(gaps, words) + tail) == [words[0]] + Tokens(Spaced(gaps[1..], words[1..]) + tail)
  {
    var others := Spaced(gaps[1..], words[1..]);
    var more := others + tail;
    Regroup(gaps[0], words[0], others, tail);
    if |words| == 1 {
      assert others == [] && more == tail + [];
      WordThen(gaps[0], words[0], more, tail, []);
    } else {
      var beyond := Spaced(gaps[1..][1..], words[1..][1..]);
      Regroup(gaps[1], words[1], beyond, tail);
      WordThen(gaps[0], words[0], more, gaps[1], words[1] + (beyond + tail));
    }
  }

  lemma Regroup(a: seq<byte>, b: seq<byte>, c: seq<byte>, d: seq<byte>)
    ensures a + b + c + d == a + (b + (c + d))
  {
    Assoc(a + b, c, d);
    Assoc(a, b, c + d);
  }

  /** An inline line, however spaced, is read as its words, whatever follows its CRLF. */
  lemma InlineRoundTrip(gaps: seq<seq<byte>>, words: Args, tail: seq<byte>, rest: seq<byte>)
    requires SpacedOut(gaps, words) && IsBlankRun(tail)
    requires var line := Spaced(gaps, words) + tail; NoCrlf(line) && (line != [] ==> line[0] != STAR)
    ensures var line := Spaced(gaps, words) + tail;
            ParseCommand(line + CRLF + rest) == Complete(words, |line| + 2)
  {
    var line := Spaced(gaps, words) + tail;
    var buf := line + CRLF + rest;
    assert buf[0..|line + CRLF|] == line + CRLF;
    LineAt(buf, 0, line, 0);
    TokensOfSpaced(gaps, words, tail);
  }
}

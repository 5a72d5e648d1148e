/** RESP2 framing: two printers and two incremental parsers over a byte buffer. */
module Codec {
  import opened Bytes
  import opened Decimal

  const MAX_BULK_LEN: nat := 512 * 1024 * 1024
  const MAX_ARRAY_LEN: nat := 1024 * 1024
  const MAX_INLINE_LEN: nat := 64 * 1024
  const MAX_REPLY_DEPTH: nat := 32

  datatype Reply =
    | Simple(text: seq<byte>)
    | Error(text: seq<byte>)
    | Integer(n: int)
    | NullBulk
    | Bulk(data: seq<byte>)
    | NullArray
    | Array(items: seq<Reply>)

  type Args = seq<seq<byte>>

  datatype Reason =
    | LineTooLong
    | BadCount
    | CountTooLarge
    | BadLength
    | LengthTooLarge
    | NotABulk(found: byte)
    | MissingCrlf
    | BadInteger
    | TooDeep
    | BadSigil(found: byte)

  /** `next` is the buffer offset just past what was parsed. */
  datatype Outcome<+T> =
    | Complete(value: T, next: nat)
    | Incomplete
    | Invalid(why: Reason)

  // ---------------------------------------------------------------- printing

  /** A sigil, a payload and CRLF. */
  function Line(sigil: byte, payload: seq<byte>): seq<byte> {
    [sigil] + (payload + CRLF)
  }

  function Write(r: Reply): seq<byte>
    decreases r, 1
  {
    match r
    case Simple(s) => Line(PLUS, s)
    case Error(s) => Line(MINUS, s)
    case Integer(n) => Line(COLON, Print(n))
    case NullBulk => Line(DOLLAR, Print(-1))
    case Bulk(d) => Line(DOLLAR, Print(|d|)) + (d + CRLF)
    case NullArray => Line(STAR, Print(-1))
    case Array(items) => Line(STAR, Print(|items|)) + WriteAll(items)
  }

  function WriteAll(items: seq<Reply>): seq<byte>
    decreases items, 0
  {
    if items == [] then [] else Write(items[0]) + WriteAll(items[1..])
  }

  function EncodeArg(arg: seq<byte>): seq<byte> {
    Line(DOLLAR, Print(|arg|)) + (arg + CRLF)
  }

  function EncodeArgs(args: Args): seq<byte> {
    if args == [] then [] else EncodeArg(args[0]) + EncodeArgs(args[1..])
  }

  function Encode(args: Args): seq<byte> {
    Line(STAR, Print(|args|)) + EncodeArgs(args)
  }

  /** The pushes that append one header line to a buffer. */
  method PushLine(out: seq<byte>, sigil: byte, payload: seq<byte>) returns (out': seq<byte>)
    ensures out' == out + Line(sigil, payload)
  {
    out' := out + [sigil];
    out' := out' + payload;
    out' := out' + CRLF;
  }

  /** `Reply::write_to`: appends to `out` and keeps what was there. */
  method WriteTo(r: Reply, out: seq<byte>) returns (out': seq<byte>)
    ensures out' == out + Write(r)
    decreases r
  {
    match r {
      case Simple(s) => out' := PushLine(out, PLUS, s);
      case Error(s) => out' := PushLine(out, MINUS, s);
      case Integer(n) => out' := PushLine(out, COLON, Print(n));
      case NullBulk => out' := PushLine(out, DOLLAR, Print(-1));
      case Bulk(d) =>
        out' := PushLine(out, DOLLAR, Print(|d|));
        Assoc(out, Line(DOLLAR, Print(|d|)), d + CRLF);
        Assoc(out', d, CRLF);
        out' := out' + d + CRLF;
      case NullArray => out' := PushLine(out, STAR, Print(-1));
      case Array(items) =>
        out' := PushLine(out, STAR, Print(|items|));
        Assoc(out, Line(STAR, Print(|items|)), WriteAll(items));
        ghost var done := out' + WriteAll(items);
        for i := 0 to |items|
          invariant out' + WriteAll(items[i..]) == done
        {
          Assoc(out', Write(items[i]), WriteAll(items[i + 1..]));
          out' := WriteTo(items[i], out');
          assert items[i..][1..] == items[i + 1..];
        }
        assert items[|items|..] == [];
    }
  }

  method EncodeCommandInto(args: Args, out: seq<byte>) returns (out': seq<byte>)
    ensures out' == out + Encode(args)
  {
    out' := PushLine(out, STAR, Print(|args|));
    Assoc(out, Line(STAR, Print(|args|)), EncodeArgs(args));
    ghost var done := out' + EncodeArgs(args);
    for i := 0 to |args|
      invariant out' + EncodeArgs(args[i..]) == done
    {
      Assoc(out', EncodeArg(args[i]), EncodeArgs(args[i + 1..]));
      Assoc(out', Line(DOLLAR, Print(|args[i]|)), args[i] + CRLF);
      out' := PushLine(out', DOLLAR, Print(|args[i]|));
      Assoc(out', args[i], CRLF);
      out' := out' + args[i] + CRLF;
      assert args[i..][1..] == args[i + 1..];
    }
    assert args[|args|..] == [];
  }

  // ----------------------------------------------------------------- parsing

  predicate CrlfAt(buf: seq<byte>, i: int) {
    0 <= i < |buf| - 1 && buf[i] == CR && buf[i + 1] == LF
  }

  function FindCrlf(buf: seq<byte>, from: nat): (r: Option<nat>)
    ensures r.Some? ==> from <= r.value && CrlfAt(buf, r.value)
    decreases |buf| - from
  {
    if from + 1 >= |buf| then None
    else if CrlfAt(buf, from) then Some(from)
    else FindCrlf(buf, from + 1)
  }

  method FindCrlfLoop(buf: seq<byte>, from: nat) returns (r: Option<nat>)
    ensures r == FindCrlf(buf, from)
  {
    var i := from;
    while i + 1 < |buf|
      invariant from <= i && FindCrlf(buf, from) == FindCrlf(buf, i)
    {
      if buf[i] == CR && buf[i + 1] == LF {
        return Some(i);
      }
      i := i + 1;
    }
    r := None;
  }

  /** A CRLF-terminated line at `body`; its length cap is measured from `start`. */
  function ReadLine(buf: seq<byte>, body: nat, start: nat): Outcome<seq<byte>> {
    match FindCrlf(buf, body)
    case Some(i) => Complete(buf[body..i], i + 2)
    case None => if |buf| - start > MAX_INLINE_LEN then Invalid(LineTooLong) else Incomplete
  }

  /** `len` bytes of data at `start`, then CRLF. */
  function ReadBulk(buf: seq<byte>, start: nat, len: nat): Outcome<seq<byte>> {
    if start + len + 2 > |buf| then Incomplete
    else if !CrlfAt(buf, start + len) then Invalid(MissingCrlf)
    else Complete(buf[start..start + len], start + len + 2)
  }

  function ParseArg(buf: seq<byte>, pos: nat): Outcome<seq<byte>> {
    if pos >= |buf| then Incomplete
    else if buf[pos] != DOLLAR then Invalid(NotABulk(buf[pos]))
    else
      match ReadLine(buf, pos + 1, pos)
      case Invalid(why) => Invalid(why)
      case Incomplete => Incomplete
      case Complete(line, next) =>
        match ParseI64(line)
        case None => Invalid(BadLength)
        case Some(len) =>
          if len < 0 then Invalid(BadLength)
          else if len > MAX_BULK_LEN then Invalid(LengthTooLarge)
          else ReadBulk(buf, next, len)
  }

  /** `count` more arguments from `pos`, pushed onto `args`. */
  function ParseArgs(buf: seq<byte>, pos: nat, count: nat, args: Args): Outcome<Args>
    decreases count
  {
    if count == 0 then Complete(args, pos)
    else
      match ParseArg(buf, pos)
      case Complete(arg, next) => ParseArgs(buf, next, count - 1, args + [arg])
      case Incomplete => Incomplete
      case Invalid(why) => Invalid(why)
  }

  function ParseArrayCommand(buf: seq<byte>): Outcome<Args> {
    match ReadLine(buf, 1, 0)
    case Invalid(why) => Invalid(why)
    case Incomplete => Incomplete
    case Complete(line, next) =>
      match ParseI64(line)
      case None => Invalid(BadCount)
      case Some(count) =>
        if count < 0 then Invalid(BadCount)
        else if count > MAX_ARRAY_LEN then Invalid(CountTooLarge)
        else ParseArgs(buf, next, count, [])
  }

  /** The maximal space-free pieces of a line. */
  function Tokens(line: seq<byte>): Args {
    TokensFrom(line, [])
  }

  function TokensFrom(line: seq<byte>, pending: seq<byte>): Args {
    if line == [] then if pending == [] then [] else [pending]
    else if line[0] == SPACE then
      (if pending == [] then [] else [pending]) + TokensFrom(line[1..], [])
    else TokensFrom(line[1..], pending + [line[0]])
  }

  function ParseInlineCommand(buf: seq<byte>): Outcome<Args> {
    match ReadLine(buf, 0, 0)
    case Complete(line, next) => Complete(Tokens(line), next)
    case Incomplete => Incomplete
    case Invalid(why) => Invalid(why)
  }

  function ParseCommand(buf: seq<byte>): Outcome<Args> {
    if buf == [] then Incomplete
    else if buf[0] == STAR then ParseArrayCommand(buf)
    else ParseInlineCommand(buf)
  }

  /** One turn of the argument loop of `parse_array_command`. */
  method ParseArgStep(buf: seq<byte>, pos: nat) returns (r: Outcome<seq<byte>>)
    ensures r == ParseArg(buf, pos)
  {
    if pos >= |buf| {
      return Incomplete;
    }
    if buf[pos] != DOLLAR {
      return Invalid(NotABulk(buf[pos]));
    }
    var crlf := FindCrlfLoop(buf, pos + 1);
    if crlf.None? {
      return if |buf| - pos > MAX_INLINE_LEN then Invalid(LineTooLong) else Incomplete;
    }
    var len := ParseI64(buf[pos + 1..crlf.value]);
    if len.None? || len.value < 0 {
      return Invalid(BadLength);
    }
    if len.value > MAX_BULK_LEN {
      return Invalid(LengthTooLarge);
    }
    var dataStart := crlf.value + 2;
    var dataEnd := dataStart + len.value;
    if dataEnd + 2 > |buf| {
      return Incomplete;
    }
    if buf[dataEnd] != CR || buf[dataEnd + 1] != LF {
      return Invalid(MissingCrlf);
    }
    r := Complete(buf[dataStart..dataEnd], dataEnd + 2);
  }

  method ParseArrayCommandLoop(buf: seq<byte>) returns (r: Outcome<Args>)
    requires buf != []
    ensures r == ParseArrayCommand(buf)
  {
    var crlf := FindCrlfLoop(buf, 1);
    if crlf.None? {
      return if |buf| > MAX_INLINE_LEN then Invalid(LineTooLong) else Incomplete;
    }
    var count := ParseI64(buf[1..crlf.value]);
    if count.None? || count.value < 0 {
      return Invalid(BadCount);
    }
    if count.value > MAX_ARRAY_LEN {
      return Invalid(CountTooLarge);
    }
    r := ParseArgsLoop(buf, crlf.value + 2, count.value);
  }

  method ParseArgsLoop(buf: seq<byte>, start: nat, count: nat) returns (r: Outcome<Args>)
    ensures r == ParseArgs(buf, start, count, [])
  {
    var pos, left := start, count;
    var args: Args := [];
    ghost var whole := ParseArgs(buf, start, count, []);
    while left > 0
      invariant whole == ParseArgs(buf, pos, left, args)
    {
      var step := ParseArgStep(buf, pos);
      match step {
        case Complete(arg, next) =>
          ArgsTurn(buf, pos, left, args, arg, next);
          args, pos, left := args + [arg], next, left - 1;
        case Incomplete => return Incomplete;
        case Invalid(why) => return Invalid(why);
      }
    }
    r := Complete(args, pos);
  }

  lemma ArgsTurn(buf: seq<byte>, pos: nat, count: nat, args: Args, arg: seq<byte>, next: nat)
    requires count > 0 && ParseArg(buf, pos) == Complete(arg, next)
    ensures ParseArgs(buf, pos, count, args) == ParseArgs(buf, next, count - 1, args + [arg])
  {}

  function ParseReplyAt(buf: seq<byte>, pos: nat, depth: nat): Outcome<Reply>
    decreases MAX_REPLY_DEPTH + 1 - depth, 1
  {
    if depth > MAX_REPLY_DEPTH then Invalid(TooDeep)
    else if pos >= |buf| then Incomplete
    else if buf[pos] !in {PLUS, MINUS, COLON, DOLLAR, STAR} then Invalid(BadSigil(buf[pos]))
    else
      match ReadLine(buf, pos + 1, pos + 1)
      case Invalid(why) => Invalid(why)
      case Incomplete => Incomplete
      case Complete(line, next) =>
        if buf[pos] == PLUS then Complete(Simple(line), next)
        else if buf[pos] == MINUS then Complete(Error(line), next)
        else if buf[pos] == COLON then ParseIntegerBody(line, next)
        else if buf[pos] == DOLLAR then ParseBulkBody(buf, line, next)
        else ParseArrayBody(buf, line, next, depth)
  }

  function ParseIntegerBody(line: seq<byte>, next: nat): Outcome<Reply> {
    match ParseI64(line)
    case Some(n) => Complete(Integer(n), next)
    case None => Invalid(BadInteger)
  }

  function ParseBulkBody(buf: seq<byte>, line: seq<byte>, next: nat): Outcome<Reply> {
    match ParseI64(line)
    case None => Invalid(BadLength)
    case Some(len) =>
      if len == -1 then Complete(NullBulk, next)
      else if len < 0 then Invalid(BadLength)
      else if len > MAX_BULK_LEN then Invalid(LengthTooLarge)
      else
        match ReadBulk(buf, next, len)
        case Complete(data, after) => Complete(Bulk(data), after)
        case Incomplete => Incomplete
        case Invalid(why) => Invalid(why)
  }

  function ParseArrayBody(buf: seq<byte>, line: seq<byte>, next: nat, depth: nat): Outcome<Reply>
    requires depth <= MAX_REPLY_DEPTH
    decreases MAX_REPLY_DEPTH + 1 - depth, 0
  {
    match ParseI64(line)
    case None => Invalid(BadCount)
    case Some(count) =>
      if count == -1 then Complete(NullArray, next)
      else if count < 0 then Invalid(BadCount)
      else if count > MAX_ARRAY_LEN then Invalid(CountTooLarge)
      else
        match ParseItems(buf, next, depth + 1, count, [])
        case Complete(items, after) => Complete(Array(items), after)
        case Incomplete => Incomplete
        case Invalid(why) => Invalid(why)
  }

  /** `count` more elements from `pos`, pushed onto `items`. */
  function ParseItems(buf: seq<byte>, pos: nat, depth: nat, count: nat, items: seq<Reply>): Outcome<seq<Reply>>
    requires depth <= MAX_REPLY_DEPTH + 1
    decreases MAX_REPLY_DEPTH + 1 - depth, 2, count
  {
    if count == 0 then Complete(items, pos)
    else
      match ParseReplyAt(buf, pos, depth)
      case Complete(item, next) => ParseItems(buf, next, depth, count - 1, items + [item])
      case Incomplete => Incomplete
      case Invalid(why) => Invalid(why)
  }

  function ParseReply(buf: seq<byte>): Outcome<Reply> {
    ParseReplyAt(buf, 0, 0)
  }

  /** The recursive-descent reply parser with its item loop. */
  method ParseReplyLoop(buf: seq<byte>, pos: nat, depth: nat) returns (r: Outcome<Reply>)
    ensures r == ParseReplyAt(buf, pos, depth)
    decreases MAX_REPLY_DEPTH + 1 - depth, 1
  {
    if depth > MAX_REPLY_DEPTH {
      return Invalid(TooDeep);
    }
    if pos >= |buf| {
      return Incomplete;
    }
    var sigil := buf[pos];
    if sigil !in {PLUS, MINUS, COLON, DOLLAR, STAR} {
      return Invalid(BadSigil(sigil));
    }
    var crlf := FindCrlfLoop(buf, pos + 1);
    if crlf.None? {
      return if |buf| - (pos + 1) > MAX_INLINE_LEN then Invalid(LineTooLong) else Incomplete;
    }
    var line, next := buf[pos + 1..crlf.value], crlf.value + 2;
    if sigil == PLUS {
      return Complete(Simple(line), next);
    } else if sigil == MINUS {
      return Complete(Error(line), next);
    } else if sigil == COLON {
      return ParseIntegerBody(line, next);
    } else if sigil == DOLLAR {
      return ParseBulkBody(buf, line, next);
    }
    var count := ParseI64(line);
    if count.None? || count.value < -1 {
      return Invalid(BadCount);
    }
    if count.value == -1 {
      return Complete(NullArray, next);
    }
    if count.value > MAX_ARRAY_LEN {
      return Invalid(CountTooLarge);
    }
    var items := ParseItemsLoop(buf, next, depth + 1, count.value);
    match items {
      case Complete(elems, after) => r := Complete(Array(elems), after);
      case Incomplete => r := Incomplete;
      case Invalid(why) => r := Invalid(why);
    }
  }

  method ParseItemsLoop(buf: seq<byte>, start: nat, depth: nat, count: nat) returns (r: Outcome<seq<Reply>>)
    requires depth <= MAX_REPLY_DEPTH + 1
    ensures r == ParseItems(buf, start, depth, count, [])
    decreases MAX_REPLY_DEPTH + 1 - depth, 2
  {
    var next := start;
    var items: seq<Reply> := [];
    for i := 0 to count
      invariant ParseItems(buf, start, depth, count, []) == ParseItems(buf, next, depth, count - i, items)
    {
      var step := ParseReplyLoop(buf, next, depth);
      match step {
        case Complete(item, after) => items, next := items + [item], after;
        case Incomplete => return Incomplete;
        case Invalid(why) => return Invalid(why);
      }
    }
    r := Complete(items, next);
  }
}

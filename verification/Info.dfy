/** The INFO text and the scan that reads numbers back out of it. */
module Info {
  import opened Bytes
  import opened Decimal

  const EQUALS: byte := 61

  datatype Counters = Counters(usedMemory: nat, maxMemory: nat, hits: nat, misses: nat, evicted: nat, lost: nat,
                               keys: nat)

  ghost predicate FitI64(c: Counters) {
    && c.usedMemory <= I64_MAX && c.maxMemory <= I64_MAX && c.hits <= I64_MAX && c.misses <= I64_MAX
    && c.evicted <= I64_MAX && c.lost <= I64_MAX && c.keys <= I64_MAX
  }

  // --------------------------------------------------------------- printing

  function Field(name: string, n: nat): seq<byte> { Ascii(name) + ([COLON] + Print(n)) }

  function ServerLines(version: seq<byte>): seq<seq<byte>> {
    [Ascii("# Server"), Ascii("redis_version:7.0.0"), Ascii("pg_resp_version:") + version]
  }

  function MemoryLines(c: Counters): seq<seq<byte>> {
    [Ascii("# Memory"), Field("used_memory", c.usedMemory), Field("maxmemory", c.maxMemory)]
  }

  function StatsLines(c: Counters): seq<seq<byte>> {
    [ Ascii("# Stats"), Field("keyspace_hits", c.hits), Field("keyspace_misses", c.misses),
      Field("evicted_keys", c.evicted), Field("invalidations_lost", c.lost) ]
  }

  function KeyspaceLines(c: Counters): seq<seq<byte>> {
    [Ascii("# Keyspace"), Ascii("db0:keys") + ([EQUALS] + Print(c.keys))]
  }

  function InfoLines(version: seq<byte>, c: Counters): (lines: seq<seq<byte>>)
    ensures |lines| == 13
  {
    ServerLines(version) + MemoryLines(c) + StatsLines(c) + KeyspaceLines(c)
  }

  /** Lines as INFO sends them, each ended by CRLF. */
  function Joined(lines: seq<seq<byte>>): seq<byte> {
    if lines == [] then [] else lines[0] + CRLF + Joined(lines[1..])
  }

  function InfoText(version: seq<byte>, c: Counters): seq<byte> { Joined(InfoLines(version, c)) }

  // ---------------------------------------------------------------- parsing

  /** Pieces between line feeds; an empty last piece is not a line. */
  function LinesFrom(text: seq<byte>, pending: seq<byte>): seq<seq<byte>> {
    if text == [] then if pending == [] then [] else [pending]
    else if text[0] == LF then [pending] + LinesFrom(text[1..], [])
    else LinesFrom(text[1..], pending + [text[0]])
  }

  function TrimEndCr(s: seq<byte>): (t: seq<byte>)
    ensures t <= s
  {
    if s != [] && s[|s| - 1] == CR then TrimEndCr(s[..|s| - 1]) else s
  }

  function TrimStartMarks(s: seq<byte>): seq<byte> {
    if s != [] && (s[0] == COLON || s[0] == EQUALS) then TrimStartMarks(s[1..]) else s
  }

  predicate IsBlank(b: byte) { b == SPACE || 9 <= b <= 13 }

  function TrimStart(s: seq<byte>): seq<byte> {
    if s != [] && IsBlank(s[0]) then TrimStart(s[1..]) else s
  }

  function TrimEnd(s: seq<byte>): seq<byte> {
    if s != [] && IsBlank(s[|s| - 1]) then TrimEnd(s[..|s| - 1]) else s
  }

  /** The number a line gives for a field, if the line is about that field. */
  function FieldValue(line: seq<byte>, field: seq<byte>): Option<int> {
    var body := TrimEndCr(line);
    if field <= body then ParseI64(TrimEnd(TrimStart(TrimStartMarks(body[|field|..])))) else None
  }

  /** `parse_info_field`: the first line that yields a number. */
  method ParseInfoField(text: seq<byte>, field: seq<byte>) returns (r: Option<int>)
    ensures r == FirstValue(LinesFrom(text, []), field)
  {
    var lines := LinesFrom(text, []);
    for i := 0 to |lines|
      invariant FirstValue(lines, field) == FirstValue(lines[i..], field)
    {
      assert lines[i..][1..] == lines[i + 1..];
      var value := FieldValue(lines[i], field);
      if value.Some? {
        return value;
      }
    }
    r := None;
  }

  function FirstValue(lines: seq<seq<byte>>, field: seq<byte>): Option<int> {
    if lines == [] then None
    else if FieldValue(lines[0], field).Some? then FieldValue(lines[0], field)
    else FirstValue(lines[1..], field)
  }

  // ------------------------------------------------------------- the lemmas

  ghost predicate OneLine(s: seq<byte>) { forall i :: 0 <= i < |s| ==> s[i] != LF }

  lemma {:induction false} LineSplitsOff(line: seq<byte>, rest: seq<byte>, pending: seq<byte>)
    requires OneLine(line)
    ensures LinesFrom(line + [LF] + rest, pending) == [pending + line] + LinesFrom(rest, [])
    decreases line
  {
    var text := line + [LF] + rest;
    if line == [] {
      assert text[1..] == rest && pending + line == pending;
    } else {
      assert text[0] == line[0] && text[1..] == line[1..] + [LF] + rest;
      LineSplitsOff(line[1..], rest, pending + [line[0]]);
      assert pending + [line[0]] + line[1..] == pending + line;
    }
  }

  /** Splitting the printed text gives back its lines, each still carrying its CR. */
  lemma {:induction false} LinesOfJoined(lines: seq<seq<byte>>)
    requires AllOneLine(lines)
    ensures LinesFrom(Joined(lines), []) == WithCr(lines)
    decreases lines
  {
    if lines != [] {
      LinesOfJoined(lines[1..]);
      var head, rest := lines[0] + [CR], Joined(lines[1..]);
      assert Joined(lines) == head + [LF] + rest;
      FirstSplitsOff(head, rest);
      WithCrTurn(lines);
    }
  }

  lemma FirstSplitsOff(head: seq<byte>, rest: seq<byte>)
    requires OneLine(head)
    ensures LinesFrom(head + [LF] + rest, []) == [head] + LinesFrom(rest, [])
  {
    LineSplitsOff(head, rest, []);
    assert [] + head == head;
  }

  lemma WithCrTurn(lines: seq<seq<byte>>)
    requires lines != []
    ensures WithCr(lines) == [lines[0] + [CR]] + WithCr(lines[1..])
  {}

  function WithCr(lines: seq<seq<byte>>): seq<seq<byte>> {
    seq(|lines|, i requires 0 <= i < |lines| => lines[i] + [CR])
  }

  /** A printed field line answers its own field. */
  lemma FieldAnswers(field: seq<byte>, mark: byte, n: nat)
    requires (mark == COLON || mark == EQUALS) && n <= I64_MAX
    ensures FieldValue(field + ([mark] + Print(n)) + [CR], field) == Some(n)
  {
    var digits := Print(n);
    var body := field + ([mark] + digits);
    TrimOneCr(body, digits[|digits| - 1]);
    assert body[|field|..] == [mark] + digits;
    TrimsToDigits(mark, n);
    ParsePrint(n);
  }

  lemma TrimOneCr(body: seq<byte>, last: byte)
    requires body != [] && body[|body| - 1] == last && last != CR
    ensures TrimEndCr(body + [CR]) == body
  {
    var line := body + [CR];
    assert line[..|line| - 1] == body;
    assert TrimEndCr(body) == body;
  }

  lemma TrimsToDigits(mark: byte, n: nat)
    requires mark == COLON || mark == EQUALS
    ensures TrimEnd(TrimStart(TrimStartMarks([mark] + Print(n)))) == Print(n)
  {
    var digits := Print(n);
    assert IsDigit(digits[0]) && IsDigit(digits[|digits| - 1]);
    assert ([mark] + digits)[1..] == digits;
    assert TrimStartMarks(digits) == digits;
  }

  /** A line that differs from the field name somewhere in its length cannot answer it. */
  lemma FieldMismatch(line: seq<byte>, field: seq<byte>, i: nat)
    requires i < |field| && i < |line| && line[i] != field[i]
    ensures FieldValue(line, field).None?
  {
    assert TrimEndCr(line) <= line;
  }

  lemma {:induction false} FirstValueIs(lines: seq<seq<byte>>, field: seq<byte>, j: nat)
    requires j < |lines| && FieldValue(lines[j], field).Some?
    requires forall i :: 0 <= i < j ==> FieldValue(lines[i], field).None?
    ensures FirstValue(lines, field) == FieldValue(lines[j], field)
    decreases j
  {
    if j > 0 {
      assert FieldValue(lines[0], field).None?;
      FirstValueIs(lines[1..], field, j - 1);
    }
  }

  /** Where line `i` of INFO first differs from the name of a field printed on another line. */
  ghost predicate DiffersAt(line: seq<byte>, field: seq<byte>, i: nat) {
    i < |field| && i < |line| && line[i] != field[i]
  }

  ghost predicate AllOneLine(lines: seq<seq<byte>>) { forall i :: 0 <= i < |lines| ==> OneLine(lines[i]) }

  lemma ServerLinesAreLines(version: seq<byte>)
    requires OneLine(version)
    ensures AllOneLine(ServerLines(version))
  {
    AsciiIsOneLine("# Server");
    AsciiIsOneLine("redis_version:7.0.0");
    AsciiIsOneLine("pg_resp_version:");
  }

  lemma MemoryLinesAreLines(c: Counters)
    ensures AllOneLine(MemoryLines(c)) && AllOneLine(KeyspaceLines(c))
  {
    AsciiIsOneLine("# Memory");
    FieldIsOneLine("used_memory", COLON, c.usedMemory);
    FieldIsOneLine("maxmemory", COLON, c.maxMemory);
    AsciiIsOneLine("# Keyspace");
    FieldIsOneLine("db0:keys", EQUALS, c.keys);
  }

  lemma StatsLinesAreLines(c: Counters)
    ensures AllOneLine(StatsLines(c))
  {
    AsciiIsOneLine("# Stats");
    FieldIsOneLine("keyspace_hits", COLON, c.hits);
    FieldIsOneLine("keyspace_misses", COLON, c.misses);
    FieldIsOneLine("evicted_keys", COLON, c.evicted);
    FieldIsOneLine("invalidations_lost", COLON, c.lost);
  }

  lemma LinesAreLines(version: seq<byte>, c: Counters)
    requires OneLine(version)
    ensures AllOneLine(InfoLines(version, c))
  {
    ServerLinesAreLines(version);
    MemoryLinesAreLines(c);
    StatsLinesAreLines(c);
    AllOneLineAppend(ServerLines(version), MemoryLines(c));
    AllOneLineAppend(ServerLines(version) + MemoryLines(c), StatsLines(c));
    AllOneLineAppend(ServerLines(version) + MemoryLines(c) + StatsLines(c), KeyspaceLines(c));
  }

  lemma AllOneLineAppend(a: seq<seq<byte>>, b: seq<seq<byte>>)
    requires AllOneLine(a) && AllOneLine(b)
    ensures AllOneLine(a + b)
  {}

  lemma AsciiIsOneLine(s: string)
    requires forall i :: 0 <= i < |s| ==> s[i] != '\n'
    ensures OneLine(Ascii(s))
  {}

  lemma FieldIsOneLine(name: string, mark: byte, n: nat)
    requires mark != LF && forall i :: 0 <= i < |name| ==> name[i] != '\n'
    ensures OneLine(Ascii(name) + ([mark] + Print(n)))
  {
    var s := Print(n);
    forall i | 0 <= i < |s| ensures s[i] != LF { assert IsDigit(s[i]); }
  }

  // ------------------------------------------------- what a line says, in full

  ghost predicate Marks(s: seq<byte>) { forall i :: 0 <= i < |s| ==> s[i] == ':' as int || s[i] == '=' as int }

  /** Space, tab, line feed, vertical tab, form feed and carriage return. */
  ghost predicate Blanks(s: seq<byte>) { forall i :: 0 <= i < |s| ==> s[i] == ' ' as int || 9 <= s[i] <= 13 }

  /** The field's name, marks, the number, and blanks on either side of it. */
  ghost predicate Gives(line: seq<byte>, field: seq<byte>, marks: seq<byte>, lead: seq<byte>, num: seq<byte>,
                        trail: seq<byte>)
  {
    line == field + (marks + (lead + (num + trail))) && Marks(marks) && Blanks(lead) && Blanks(trail)
  }

  lemma {:induction false} StripMarks(s: seq<byte>) returns (marks: seq<byte>)
    ensures Marks(marks) && s == marks + TrimStartMarks(s)
  {
    marks := [];
    if s != [] && (s[0] == COLON || s[0] == EQUALS) {
      var rest := StripMarks(s[1..]);
      marks := [s[0]] + rest;
      assert s == [s[0]] + s[1..];
    }
  }

  lemma {:induction false} StripLead(s: seq<byte>) returns (lead: seq<byte>)
    ensures Blanks(lead) && s == lead + TrimStart(s)
  {
    lead := [];
    if s != [] && IsBlank(s[0]) {
      var rest := StripLead(s[1..]);
      lead := [s[0]] + rest;
      assert s == [s[0]] + s[1..];
    }
  }

  lemma {:induction false} StripTrail(s: seq<byte>) returns (trail: seq<byte>)
    ensures Blanks(trail) && s == TrimEnd(s) + trail
  {
    trail := [];
    if s != [] && IsBlank(s[|s| - 1]) {
      var rest := StripTrail(s[..|s| - 1]);
      trail := rest + [s[|s| - 1]];
      assert s == s[..|s| - 1] + [s[|s| - 1]];
    }
  }

  lemma {:induction false} StripCr(s: seq<byte>) returns (trail: seq<byte>)
    ensures Blanks(trail) && s == TrimEndCr(s) + trail
  {
    trail := [];
    if s != [] && s[|s| - 1] == CR {
      var rest := StripCr(s[..|s| - 1]);
      trail := rest + [s[|s| - 1]];
      assert s == s[..|s| - 1] + [s[|s| - 1]];
    }
  }

  lemma {:induction false} MarksGo(marks: seq<byte>, rest: seq<byte>)
    requires Marks(marks) && (rest != [] ==> rest[0] != COLON && rest[0] != EQUALS)
    ensures TrimStartMarks(marks + rest) == rest
  {
    if marks == [] {
      assert marks + rest == rest;
    } else {
      assert (marks + rest)[1..] == marks[1..] + rest;
      MarksGo(marks[1..], rest);
    }
  }

  lemma {:induction false} LeadGoes(lead: seq<byte>, rest: seq<byte>)
    requires Blanks(lead) && (rest != [] ==> !IsBlank(rest[0]))
    ensures TrimStart(lead + rest) == rest
  {
    if lead == [] {
      assert lead + rest == rest;
    } else {
      assert (lead + rest)[1..] == lead[1..] + rest;
      LeadGoes(lead[1..], rest);
    }
  }

  lemma {:induction false} TrailGoes(front: seq<byte>, trail: seq<byte>)
    requires Blanks(trail) && (front != [] ==> !IsBlank(front[|front| - 1]))
    ensures TrimEnd(front + trail) == front
  {
    if trail == [] {
      assert front + trail == front;
    } else {
      assert (front + trail)[..|front + trail| - 1] == front + trail[..|trail| - 1];
      TrailGoes(front, trail[..|trail| - 1]);
    }
  }

  lemma {:induction false} CrGoes(front: seq<byte>, trail: seq<byte>) returns (left: seq<byte>)
    requires Blanks(trail) && front != [] && !IsBlank(front[|front| - 1])
    ensures Blanks(left) && TrimEndCr(front + trail) == front + left
  {
    left := trail;
    if trail == [] {
      assert front + trail == front;
    } else if trail[|trail| - 1] == CR {
      assert (front + trail)[..|front + trail| - 1] == front + trail[..|trail| - 1];
      left := CrGoes(front, trail[..|trail| - 1]);
    }
  }

  /** A number begins with a sign or a digit and ends with a digit. */
  lemma NumberEnds(num: seq<byte>)
    requires ParseI64(num).Some?
    ensures IsDigit(num[|num| - 1]) && (IsDigit(num[0]) || num[0] == PLUS || num[0] == MINUS)
  {
    var body := if num[0] == PLUS || num[0] == MINUS then num[1..] else num;
    assert body[|body| - 1] == num[|num| - 1];
    DigitsOnly(body);
  }

  lemma {:induction false} DigitsOnly(s: seq<byte>)
    requires DigitsValue(s).Some?
    ensures AllDigits(s)
  {
    if s != [] {
      DigitsOnly(s[..|s| - 1]);
      forall i | 0 <= i < |s| ensures IsDigit(s[i]) {
        if i < |s| - 1 { assert s[..|s| - 1][i] == s[i]; }
      }
    }
  }

  lemma GivesIsRead(line: seq<byte>, field: seq<byte>, marks: seq<byte>, lead: seq<byte>, num: seq<byte>,
                    trail: seq<byte>)
    requires Gives(line, field, marks, lead, num, trail) && ParseI64(num).Some?
    ensures FieldValue(line, field) == ParseI64(num)
  {
    NumberEnds(num);
    var front := field + (marks + (lead + num));
    assert line == front + trail;
    var left := CrGoes(front, trail);
    assert front + left == field + (marks + (lead + (num + left)));
    assert (front + left)[|field|..] == marks + (lead + (num + left));
    var tail := lead + (num + left);
    assert tail[0] == if lead == [] then num[0] else lead[0];
    MarksGo(marks, tail);
    LeadGoes(lead, num + left);
    TrailGoes(num, left);
  }

  /** A line gives a number for a field exactly when it is its name, marks, and the number among blanks. */
  lemma FieldGivesExactly(line: seq<byte>, field: seq<byte>, n: int)
    ensures FieldValue(line, field) == Some(n) <==>
            exists marks, lead, num, trail :: Gives(line, field, marks, lead, num, trail) && ParseI64(num) == Some(n)
  {
    if exists marks, lead, num, trail :: Gives(line, field, marks, lead, num, trail) && ParseI64(num) == Some(n) {
      var marks, lead, num, trail :| Gives(line, field, marks, lead, num, trail) && ParseI64(num) == Some(n);
      GivesIsRead(line, field, marks, lead, num, trail);
    }
    if FieldValue(line, field) == Some(n) {
      var marks, lead, num, trail := ReadAsGiven(line, field);
    }
  }

  lemma ReadAsGiven(line: seq<byte>, field: seq<byte>)
    returns (marks: seq<byte>, lead: seq<byte>, num: seq<byte>, trail: seq<byte>)
    requires FieldValue(line, field).Some?
    ensures Gives(line, field, marks, lead, num, trail) && ParseI64(num) == FieldValue(line, field)
  {
    var crs := StripCr(line);
    var body := TrimEndCr(line);
    var rest := body[|field|..];
    marks := StripMarks(rest);
    lead := StripLead(TrimStartMarks(rest));
    var blanks := StripTrail(TrimStart(TrimStartMarks(rest)));
    num, trail := TrimEnd(TrimStart(TrimStartMarks(rest))), blanks + crs;
    assert rest == marks + (lead + (num + blanks));
    assert line == field + rest + crs;
    assert line == field + (marks + (lead + (num + trail)));
  }

  predicate Heads(line: seq<byte>, b: char) { line != [] && line[0] == b as int }

  /** How the lines before the last begin. */
  lemma LineHeads(version: seq<byte>, c: Counters)
    ensures var lines := InfoLines(version, c);
            && Heads(lines[0], '#') && Heads(lines[1], 'r') && Heads(lines[2], 'p') && Heads(lines[3], '#')
            && Heads(lines[4], 'u') && Heads(lines[5], 'm') && Heads(lines[6], '#') && Heads(lines[7], 'k')
            && Heads(lines[8], 'k') && Heads(lines[9], 'e') && Heads(lines[10], 'i') && Heads(lines[11], '#')
  {}

  /** The line at index `j` answers `field`, provided every earlier line differs from it. */
  lemma InfoAnswers(version: seq<byte>, c: Counters, j: nat, field: seq<byte>, mark: byte, n: nat)
    requires OneLine(version) && j < 13 && n <= I64_MAX && (mark == COLON || mark == EQUALS)
    requires InfoLines(version, c)[j] == field + ([mark] + Print(n))
    requires forall i :: 0 <= i < j ==>
               DiffersAt(InfoLines(version, c)[i], field, 0) || DiffersAt(InfoLines(version, c)[i], field, 9)
    ensures FirstValue(LinesFrom(InfoText(version, c), []), field) == Some(n)
  {
    var lines := InfoLines(version, c);
    LinesAreLines(version, c);
    LinesOfJoined(lines);
    FieldAnswers(field, mark, n);
    forall i | 0 <= i < j ensures FieldValue(WithCr(lines)[i], field).None? {
      if DiffersAt(lines[i], field, 0) {
        FieldMismatch(lines[i] + [CR], field, 0);
      } else {
        FieldMismatch(lines[i] + [CR], field, 9);
      }
    }
    FirstValueIs(WithCr(lines), field, j);
  }

  ghost function Read(version: seq<byte>, c: Counters, name: string): Option<int> {
    FirstValue(LinesFrom(InfoText(version, c), []), Ascii(name))
  }

  lemma UsedMemoryAgrees(version: seq<byte>, c: Counters)
    requires OneLine(version) && FitI64(c)
    ensures Read(version, c, "used_memory") == Some(c.usedMemory)
  {
    InfoAnswers(version, c, 4, Ascii("used_memory"), COLON, c.usedMemory);
  }

  lemma MaxMemoryAgrees(version: seq<byte>, c: Counters)
    requires OneLine(version) && FitI64(c)
    ensures Read(version, c, "maxmemory") == Some(c.maxMemory)
  {
    InfoAnswers(version, c, 5, Ascii("maxmemory"), COLON, c.maxMemory);
  }

  lemma HitsAgree(version: seq<byte>, c: Counters)
    requires OneLine(version) && FitI64(c)
    ensures Read(version, c, "keyspace_hits") == Some(c.hits)
  {
    LineHeads(version, c);
    InfoAnswers(version, c, 7, Ascii("keyspace_hits"), COLON, c.hits);
  }

  lemma MissesAgree(version: seq<byte>, c: Counters)
    requires OneLine(version) && FitI64(c)
    ensures Read(version, c, "keyspace_misses") == Some(c.misses)
  {
    LineHeads(version, c);
    InfoAnswers(version, c, 8, Ascii("keyspace_misses"), COLON, c.misses);
  }

  lemma EvictionsAgree(version: seq<byte>, c: Counters)
    requires OneLine(version) && FitI64(c)
    ensures Read(version, c, "evicted_keys") == Some(c.evicted)
  {
    LineHeads(version, c);
    InfoAnswers(version, c, 9, Ascii("evicted_keys"), COLON, c.evicted);
  }

  lemma LossesAgree(version: seq<byte>, c: Counters)
    requires OneLine(version) && FitI64(c)
    ensures Read(version, c, "invalidations_lost") == Some(c.lost)
  {
    LineHeads(version, c);
    InfoAnswers(version, c, 10, Ascii("invalidations_lost"), COLON, c.lost);
  }

  lemma KeysAgree(version: seq<byte>, c: Counters)
    requires OneLine(version) && FitI64(c)
    ensures Read(version, c, "db0:keys") == Some(c.keys)
  {
    LineHeads(version, c);
    InfoAnswers(version, c, 12, Ascii("db0:keys"), EQUALS, c.keys);
  }

  /** `resp.stats()` and INFO agree: every printed counter is read back, none by another line. */
  lemma StatsAgreeWithInfo(version: seq<byte>, c: Counters)
    requires OneLine(version) && FitI64(c)
    ensures Read(version, c, "used_memory") == Some(c.usedMemory)
    ensures Read(version, c, "maxmemory") == Some(c.maxMemory)
    ensures Read(version, c, "keyspace_hits") == Some(c.hits)
    ensures Read(version, c, "keyspace_misses") == Some(c.misses)
    ensures Read(version, c, "evicted_keys") == Some(c.evicted)
    ensures Read(version, c, "invalidations_lost") == Some(c.lost)
    ensures Read(version, c, "db0:keys") == Some(c.keys)
  {
    UsedMemoryAgrees(version, c);
    MaxMemoryAgrees(version, c);
    HitsAgree(version, c);
    MissesAgree(version, c);
    EvictionsAgree(version, c);
    LossesAgree(version, c);
    KeysAgree(version, c);
  }
}

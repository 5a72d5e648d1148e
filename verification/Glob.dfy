/** Glob patterns: the token language they denote, and the matcher that runs on raw bytes. */
module Glob {
  import opened Bytes

  /** One piece of a bracket class: an inclusive range of bytes. */
  datatype Range = Range(lo: byte, hi: byte)

  datatype Token =
    | AnyRun
    | AnyByte
    | Literal(b: byte)
    | Class(negated: bool, ranges: seq<Range>)

  // ------------------------------------------------------------ pattern syntax

  datatype ClassItem = ClassItem(range: Range, size: nat)

  /** The first piece of a class body: escape, order-corrected range, or plain byte. */
  function FirstItem(p: seq<byte>): (item: ClassItem)
    requires p != []
    ensures 0 < item.size <= |p|
  {
    if p[0] == BACKSLASH && |p| >= 2 then ClassItem(Range(p[1], p[1]), 2)
    else if |p| >= 3 && p[1] == MINUS && p[2] != CLOSE_BRACKET then
      ClassItem(if p[0] > p[2] then Range(p[2], p[0]) else Range(p[0], p[2]), 3)
    else ClassItem(Range(p[0], p[0]), 1)
  }

  /** The pieces of a class body up to its `]`, or to the end of an unterminated one. */
  function ClassRanges(p: seq<byte>): seq<Range> {
    if p == [] || p[0] == CLOSE_BRACKET then []
    else [FirstItem(p).range] + ClassRanges(p[FirstItem(p).size..])
  }

  /** What follows a class body. */
  function AfterClass(p: seq<byte>): (rest: seq<byte>)
    ensures |rest| <= |p|
  {
    if p == [] then []
    else if p[0] == CLOSE_BRACKET then p[1..]
    else AfterClass(p[FirstItem(p).size..])
  }

  /** A class body with its optional leading `^` removed. */
  function ClassBody(p: seq<byte>): (body: seq<byte>)
    ensures |body| <= |p|
  {
    if p != [] && p[0] == CARET then p[1..] else p
  }

  function FirstToken(p: seq<byte>): Token
    requires p != []
  {
    if p[0] == STAR then AnyRun
    else if p[0] == QUESTION then AnyByte
    else if p[0] == OPEN_BRACKET then Class(p[1..] != [] && p[1] == CARET, ClassRanges(ClassBody(p[1..])))
    else if p[0] == BACKSLASH && |p| >= 2 then Literal(p[1])
    else Literal(p[0])
  }

  function AfterToken(p: seq<byte>): (rest: seq<byte>)
    requires p != []
    ensures |rest| < |p|
  {
    if p[0] == OPEN_BRACKET then AfterClass(ClassBody(p[1..]))
    else if p[0] == BACKSLASH && |p| >= 2 then p[2..]
    else p[1..]
  }

  function Tokens(p: seq<byte>): seq<Token>
    decreases |p|
  {
    if p == [] then [] else [FirstToken(p)] + Tokens(AfterToken(p))
  }

  // ----------------------------------------------------------- what they denote

  predicate InRanges(c: byte, ranges: seq<Range>) {
    exists i :: 0 <= i < |ranges| && ranges[i].lo <= c <= ranges[i].hi
  }

  predicate ByteMatches(t: Token, c: byte) {
    match t
    case AnyRun => false
    case AnyByte => true
    case Literal(b) => b == c
    case Class(negated, ranges) => InRanges(c, ranges) != negated
  }

  predicate PieceMatches(t: Token, piece: seq<byte>) {
    t.AnyRun? || (|piece| == 1 && ByteMatches(t, piece[0]))
  }

  /** The language of a pattern: the subject splits into one piece per token. */
  ghost predicate Denotes(ts: seq<Token>, s: seq<byte>) {
    exists pieces :: Splits(ts, pieces, s)
  }

  ghost predicate Splits(ts: seq<Token>, pieces: seq<seq<byte>>, s: seq<byte>) {
    |pieces| == |ts| && Concat(pieces) == s && forall i :: 0 <= i < |ts| ==> PieceMatches(ts[i], pieces[i])
  }

  /** The same language by recursion on the tokens. */
  ghost predicate Accepts(ts: seq<Token>, s: seq<byte>) {
    if ts == [] then s == []
    else if ts[0].AnyRun? then exists i :: 0 <= i <= |s| && Accepts(ts[1..], s[i..])
    else s != [] && ByteMatches(ts[0], s[0]) && Accepts(ts[1..], s[1..])
  }

  lemma {:induction false} AcceptsSplits(ts: seq<Token>, s: seq<byte>) returns (pieces: seq<seq<byte>>)
    requires Accepts(ts, s)
    ensures Splits(ts, pieces, s)
  {
    if ts == [] {
      pieces := [];
    } else {
      var i := 1;
      if ts[0].AnyRun? {
        i :| 0 <= i <= |s| && Accepts(ts[1..], s[i..]);
      }
      var rest := AcceptsSplits(ts[1..], s[i..]);
      pieces := [s[..i]] + rest;
      assert pieces[1..] == rest && s[..i] + s[i..] == s;
      forall k | 0 <= k < |ts| ensures PieceMatches(ts[k], pieces[k]) {
        if k > 0 { assert ts[k] == ts[1..][k - 1] && pieces[k] == rest[k - 1]; }
      }
    }
  }

  lemma {:induction false} SplitsAccepts(ts: seq<Token>, pieces: seq<seq<byte>>, s: seq<byte>)
    requires Splits(ts, pieces, s)
    ensures Accepts(ts, s)
  {
    if ts != [] {
      var i := |pieces[0]|;
      assert PieceMatches(ts[0], pieces[0]);
      assert s == pieces[0] + Concat(pieces[1..]);
      assert s[i..] == Concat(pieces[1..]) && s[..i] == pieces[0];
      forall k | 0 <= k < |ts[1..]| ensures PieceMatches(ts[1..][k], pieces[1..][k]) {
        assert PieceMatches(ts[k + 1], pieces[k + 1]);
      }
      SplitsAccepts(ts[1..], pieces[1..], s[i..]);
    }
  }

  lemma AcceptsIsDenotes(ts: seq<Token>, s: seq<byte>)
    ensures Accepts(ts, s) <==> Denotes(ts, s)
  {
    if Accepts(ts, s) {
      var pieces := AcceptsSplits(ts, s);
    }
    if Denotes(ts, s) {
      var pieces :| Splits(ts, pieces, s);
      SplitsAccepts(ts, pieces, s);
    }
  }

  // ------------------------------------------------------------------- the code

  /** `match_class`: tests one subject byte; the pattern bytes consumed do not depend on it. */
  method MatchClass(pattern: seq<byte>, s: seq<byte>) returns (matched: bool, rest: seq<byte>, tested: bool)
    ensures rest == AfterClass(ClassBody(pattern))
    ensures tested <==> s != []
    ensures s != [] ==>
              matched == ByteMatches(Class(pattern != [] && pattern[0] == CARET, ClassRanges(ClassBody(pattern))), s[0])
  {
    var p := pattern;
    var negate := p != [] && p[0] == CARET;
    if negate {
      p := p[1..];
    }
    matched := false;
    ghost var body, seen: seq<Range> := p, [];
    assert [] + ClassRanges(body) == ClassRanges(body);
    while p != [] && p[0] != CLOSE_BRACKET
      invariant AfterClass(p) == AfterClass(body)
      invariant seen + ClassRanges(p) == ClassRanges(body)
      invariant s != [] ==> matched == InRanges(s[0], seen)
      decreases |p|
    {
      var item := FirstItem(p);
      if s != [] && item.range.lo <= s[0] <= item.range.hi {
        matched := true;
      }
      assert seen + ([item.range] + ClassRanges(p[item.size..])) == seen + [item.range] + ClassRanges(p[item.size..]);
      if s != [] {
        InRangesSnoc(s[0], seen, item.range);
      }
      seen := seen + [item.range];
      p := p[item.size..];
    }
    assert seen + [] == seen;
    if p != [] {
      p := p[1..];
    }
    matched := matched != negate;
    rest, tested := p, s != [];
  }

  lemma InRangesSnoc(c: byte, ranges: seq<Range>, r: Range)
    ensures InRanges(c, ranges + [r]) <==> InRanges(c, ranges) || r.lo <= c <= r.hi
  {
    var all := ranges + [r];
    assert all[|ranges|] == r;
    if InRanges(c, ranges) {
      var i :| 0 <= i < |ranges| && ranges[i].lo <= c <= ranges[i].hi;
      assert all[i] == ranges[i];
    }
  }

  /** `glob_match` decides exactly the language of its pattern. */
  method GlobMatch(pattern: seq<byte>, text: seq<byte>) returns (r: bool)
    ensures r <==> Denotes(Tokens(pattern), text)
    decreases |pattern|, 1
  {
    AcceptsIsDenotes(Tokens(pattern), text);
    var p, s := pattern, text;
    while p != []
      invariant |p| <= |pattern|
      invariant Accepts(Tokens(pattern), text) <==> Accepts(Tokens(p), s)
      decreases |p|
    {
      TokensTurn(p, s);
      if p[0] == STAR {
        r := MatchRun(p, s);
        return;
      } else if p[0] == OPEN_BRACKET {
        var matched, rest, tested := MatchClass(p[1..], s);
        if !tested || !matched {
          return false;
        }
        p, s := rest, s[1..];
      } else if s == [] {
        return false;
      } else if p[0] == QUESTION {
        p, s := p[1..], s[1..];
      } else if p[0] == BACKSLASH && |p| >= 2 {
        if p[1] != s[0] {
          return false;
        }
        p, s := p[2..], s[1..];
      } else {
        if p[0] != s[0] {
          return false;
        }
        p, s := p[1..], s[1..];
      }
    }
    r := s == [];
  }

  /** One token off the front of the pattern. */
  lemma TokensTurn(p: seq<byte>, s: seq<byte>)
    requires p != []
    ensures Accepts(Tokens(p), s) <==>
            if FirstToken(p).AnyRun? then exists i :: 0 <= i <= |s| && Accepts(Tokens(AfterToken(p)), s[i..])
            else s != [] && ByteMatches(FirstToken(p), s[0]) && Accepts(Tokens(AfterToken(p)), s[1..])
  {
    assert Tokens(p)[1..] == Tokens(AfterToken(p));
  }

  /** The `*` arm: collapse a run of stars, then try every suffix. */
  method MatchRun(pattern: seq<byte>, s: seq<byte>) returns (r: bool)
    requires pattern != [] && pattern[0] == STAR
    ensures r <==> Accepts(Tokens(pattern), s)
    decreases |pattern|, 0
  {
    var p := pattern;
    while |p| > 1 && p[1] == STAR
      invariant 0 < |p| <= |pattern| && p[0] == STAR
      invariant Accepts(Tokens(p), s) <==> Accepts(Tokens(pattern), s)
      decreases |p|
    {
      DropStar(p, s);
      p := p[1..];
    }
    TokensTurn(p, s);
    if |p| == 1 {
      assert Tokens(p[1..]) == [] && s[|s|..] == [];
      return true;
    }
    r := MatchSomeSuffix(p[1..], s);
  }

  method MatchSomeSuffix(p: seq<byte>, s: seq<byte>) returns (r: bool)
    ensures r <==> exists i :: 0 <= i <= |s| && Accepts(Tokens(p), s[i..])
    decreases |p|, 2
  {
    for i := 0 to |s| + 1
      invariant forall k :: 0 <= k < i ==> !Accepts(Tokens(p), s[k..])
    {
      var hit := GlobMatch(p, s[i..]);
      AcceptsIsDenotes(Tokens(p), s[i..]);
      if hit {
        return true;
      }
    }
    r := false;
  }

  /** A star in front of a star adds nothing. */
  lemma DropStar(p: seq<byte>, s: seq<byte>)
    requires |p| > 1 && p[0] == STAR && p[1] == STAR
    ensures Accepts(Tokens(p), s) <==> Accepts(Tokens(p[1..]), s)
  {
    assert p[1..][1..] == p[2..];
    assert Tokens(p[1..]) == [AnyRun] + Tokens(p[2..]);
    assert Tokens(p) == [AnyRun, AnyRun] + Tokens(p[2..]);
    StarsCollapse(Tokens(p[2..]), s);
  }

  // ------------------------------------------------------------------ its laws

  /** Two stars in a row mean one. */
  lemma StarsCollapse(ts: seq<Token>, s: seq<byte>)
    ensures Accepts([AnyRun, AnyRun] + ts, s) <==> Accepts([AnyRun] + ts, s)
  {
    var one, two := [AnyRun] + ts, [AnyRun, AnyRun] + ts;
    assert two[1..] == one && one[1..] == ts;
    if Accepts(two, s) {
      var i :| 0 <= i <= |s| && Accepts(one, s[i..]);
      var j :| 0 <= j <= |s[i..]| && Accepts(ts, s[i..][j..]);
      assert s[i..][j..] == s[i + j..];
    }
    if Accepts(one, s) {
      assert s[0..] == s;
    }
  }

  /** Backslash before every byte. */
  function EscapeAll(t: seq<byte>): seq<byte> {
    if t == [] then [] else [BACKSLASH, t[0]] + EscapeAll(t[1..])
  }

  /** A fully escaped text matches itself and nothing else. */
  lemma {:induction false} EscapedMatchesOnlyItself(t: seq<byte>, s: seq<byte>)
    ensures Denotes(Tokens(EscapeAll(t)), s) <==> s == t
  {
    AcceptsIsDenotes(Tokens(EscapeAll(t)), s);
    EscapedAccepts(t, s);
  }

  lemma {:induction false} EscapedAccepts(t: seq<byte>, s: seq<byte>)
    ensures Accepts(Tokens(EscapeAll(t)), s) <==> s == t
  {
    if t != [] {
      var p := EscapeAll(t);
      assert p[2..] == EscapeAll(t[1..]);
      TokensTurn(p, s);
      if s != [] {
        EscapedAccepts(t[1..], s[1..]);
        assert s == [s[0]] + s[1..] && t == [t[0]] + t[1..];
      }
    }
  }
}

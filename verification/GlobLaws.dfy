/** What each piece of a glob pattern matches, spelled with its own characters. */
module GlobLaws {
  import opened Bytes
  import opened Glob

  const STAR_CHAR: byte := '*' as int
  const QUESTION_CHAR: byte := '?' as int
  const OPEN: byte := '[' as int
  const CLOSE: byte := ']' as int
  const HAT: byte := '^' as int
  const DASH: byte := '-' as int
  const BACK: byte := '\\' as int

  ghost predicate Matches(pattern: seq<byte>, text: seq<byte>) { Denotes(Tokens(pattern), text) }

  lemma MatchesTurn(p: seq<byte>, s: seq<byte>)
    requires p != []
    ensures Matches(p, s) <==>
            if FirstToken(p).AnyRun? then exists i :: 0 <= i <= |s| && Matches(AfterToken(p), s[i..])
            else s != [] && ByteMatches(FirstToken(p), s[0]) && Matches(AfterToken(p), s[1..])
  {
    AcceptsIsDenotes(Tokens(p), s);
    TokensTurn(p, s);
    forall t ensures Matches(AfterToken(p), t) <==> Accepts(Tokens(AfterToken(p)), t) {
      AcceptsIsDenotes(Tokens(AfterToken(p)), t);
    }
  }

  /** The empty pattern matches the empty text alone. */
  lemma NothingMatchesNothing(s: seq<byte>)
    ensures Matches([], s) <==> s == []
  {
    AcceptsIsDenotes(Tokens([]), s);
  }

  /** A star stands for any bytes, and a question mark for any one byte. */
  lemma Wildcards(p: seq<byte>, s: seq<byte>)
    ensures Matches([STAR_CHAR] + p, s) <==> exists i :: 0 <= i <= |s| && Matches(p, s[i..])
    ensures Matches([QUESTION_CHAR] + p, s) <==> s != [] && Matches(p, s[1..])
  {
    assert ([STAR_CHAR] + p)[1..] == p && ([QUESTION_CHAR] + p)[1..] == p;
    MatchesTurn([STAR_CHAR] + p, s);
    MatchesTurn([QUESTION_CHAR] + p, s);
  }

  /** A byte behind a backslash matches itself, and so does every byte that means nothing else. */
  lemma PlainBytes(b: byte, p: seq<byte>, s: seq<byte>)
    ensures Matches([BACK, b] + p, s) <==> s != [] && s[0] == b && Matches(p, s[1..])
    ensures b !in {STAR_CHAR, QUESTION_CHAR, OPEN, BACK} ==>
              (Matches([b] + p, s) <==> s != [] && s[0] == b && Matches(p, s[1..]))
    ensures Matches([BACK], s) <==> s == [BACK]
  {
    assert ([BACK, b] + p)[2..] == p && ([b] + p)[1..] == p;
    MatchesTurn([BACK, b] + p, s);
    MatchesTurn([b] + p, s);
    MatchesTurn([BACK], s);
    if s != [] {
      NothingMatchesNothing(s[1..]);
      assert s == [s[0]] + s[1..];
    }
  }

  // ------------------------------------------------------------------ classes

  /** What can stand between the brackets: an escaped byte, a span, or a byte by itself. */
  datatype Piece = Escaped(b: byte) | Span(first: byte, last: byte) | Single(b: byte)

  function Spelling(piece: Piece): (s: seq<byte>)
    ensures s != []
  {
    match piece
    case Escaped(b) => [BACK, b]
    case Span(first, last) => [first, DASH, last]
    case Single(b) => [b]
  }

  function SpellAll(pieces: seq<Piece>): seq<byte> {
    if pieces == [] then [] else Spelling(pieces[0]) + SpellAll(pieces[1..])
  }

  /** A span covers the bytes between its ends, whichever is written first. */
  predicate Covers(piece: Piece, c: byte) {
    match piece
    case Escaped(b) => c == b
    case Span(first, last) => first <= c <= last || last <= c <= first
    case Single(b) => c == b
  }

  predicate AnyCovers(pieces: seq<Piece>, c: byte) {
    exists i :: 0 <= i < |pieces| && Covers(pieces[i], c)
  }

  /** In front of `rest` the piece is read as it was written. */
  predicate Stands(piece: Piece, rest: seq<byte>) {
    match piece
    case Escaped(_) => true
    case Span(first, last) => first != CLOSE && first != BACK && last != CLOSE
    case Single(b) => b != CLOSE && b != BACK && (rest != [] ==> rest[0] != DASH)
  }

  /** The pieces can be told apart: no bare `]` or backslash, and no dash right behind a bare byte. */
  predicate Distinct(pieces: seq<Piece>) {
    pieces == [] || (Distinct(pieces[1..]) && Stands(pieces[0], SpellAll(pieces[1..])))
  }

  ghost predicate ClosesClass(tail: seq<byte>) { tail == [] || tail[0] == CLOSE }

  lemma SpellingThen(piece: Piece, rest: seq<byte>)
    ensures var p := Spelling(piece) + rest;
            && |p| == |Spelling(piece)| + |rest| && p[|Spelling(piece)|..] == rest
            && (forall i :: 0 <= i < |Spelling(piece)| ==> p[i] == Spelling(piece)[i])
            && (rest != [] ==> p[|Spelling(piece)|] == rest[0])
  {}

  lemma FirstItemIs(piece: Piece, rest: seq<byte>, p: seq<byte>, c: byte)
    requires Stands(piece, rest) && p == Spelling(piece) + rest
    ensures p != [] && p[0] != CLOSE && p[FirstItem(p).size..] == rest
    ensures FirstItem(p).range.lo <= c <= FirstItem(p).range.hi <==> Covers(piece, c)
  {
    SpellingThen(piece, rest);
    assert p[0] == Spelling(piece)[0];
    if !piece.Single? {
      assert p[1] == Spelling(piece)[1];
      if piece.Span? {
        assert p[2] == Spelling(piece)[2];
      }
    }
  }

  lemma FirstStands(pieces: seq<Piece>, tail: seq<byte>)
    requires pieces != [] && Distinct(pieces) && ClosesClass(tail)
    ensures Stands(pieces[0], SpellAll(pieces[1..]) + tail)
  {
    var rest := SpellAll(pieces[1..]);
    if rest == [] {
      assert rest + tail == tail;
    } else {
      assert (rest + tail)[0] == rest[0];
    }
  }

  lemma FirstPiece(pieces: seq<Piece>, tail: seq<byte>, c: byte)
    requires pieces != [] && Distinct(pieces) && ClosesClass(tail)
    ensures var p := SpellAll(pieces) + tail;
            && p != [] && p[0] != CLOSE && p[FirstItem(p).size..] == SpellAll(pieces[1..]) + tail
            && (FirstItem(p).range.lo <= c <= FirstItem(p).range.hi <==> Covers(pieces[0], c))
  {
    var rest := SpellAll(pieces[1..]) + tail;
    Assoc(Spelling(pieces[0]), SpellAll(pieces[1..]), tail);
    FirstStands(pieces, tail);
    FirstItemIs(pieces[0], rest, SpellAll(pieces) + tail, c);
  }

  /** A class body covers what its pieces cover, and ends at the bracket or with the pattern. */
  lemma {:induction false} ClassReads(pieces: seq<Piece>, tail: seq<byte>, c: byte)
    requires Distinct(pieces) && ClosesClass(tail)
    ensures InRanges(c, ClassRanges(SpellAll(pieces) + tail)) <==> AnyCovers(pieces, c)
    ensures AfterClass(SpellAll(pieces) + tail) == if tail == [] then [] else tail[1..]
  {
    var p := SpellAll(pieces) + tail;
    if pieces == [] {
      assert p == tail;
    } else {
      FirstPiece(pieces, tail, c);
      ClassReads(pieces[1..], tail, c);
      InRangesCons(c, FirstItem(p).range, ClassRanges(p[FirstItem(p).size..]));
      AnyCoversCons(pieces, c);
    }
  }

  lemma InRangesCons(c: byte, r: Range, ranges: seq<Range>)
    ensures InRanges(c, [r] + ranges) <==> r.lo <= c <= r.hi || InRanges(c, ranges)
  {
    var all := [r] + ranges;
    assert all[0] == r;
    if InRanges(c, ranges) {
      var i :| 0 <= i < |ranges| && ranges[i].lo <= c <= ranges[i].hi;
      assert all[i + 1] == ranges[i];
    }
  }

  lemma AnyCoversCons(pieces: seq<Piece>, c: byte)
    requires pieces != []
    ensures AnyCovers(pieces, c) <==> Covers(pieces[0], c) || AnyCovers(pieces[1..], c)
  {
    if AnyCovers(pieces[1..], c) {
      var i :| 0 <= i < |pieces[1..]| && Covers(pieces[1..][i], c);
      assert Covers(pieces[i + 1], c);
    }
    if AnyCovers(pieces, c) && !Covers(pieces[0], c) {
      var i :| 0 <= i < |pieces| && Covers(pieces[i], c);
      assert Covers(pieces[1..][i - 1], c);
    }
  }

  /** One byte that some piece covers, or that none covers, and then the rest of the pattern. */
  ghost predicate OneOf(pieces: seq<Piece>, negated: bool, p: seq<byte>, s: seq<byte>) {
    s != [] && AnyCovers(pieces, s[0]) != negated && Matches(p, s[1..])
  }

  lemma ClassMatches(pattern: seq<byte>, body: seq<byte>, negated: bool, pieces: seq<Piece>, tail: seq<byte>,
                     s: seq<byte>)
    requires Distinct(pieces) && ClosesClass(tail) && body == SpellAll(pieces) + tail
    requires pattern != [] && pattern[0] == OPEN && ClassBody(pattern[1..]) == body
    requires negated == (pattern[1..] != [] && pattern[1] == HAT)
    ensures Matches(pattern, s) <==> OneOf(pieces, negated, if tail == [] then [] else tail[1..], s)
  {
    MatchesTurn(pattern, s);
    if s != [] {
      ClassReads(pieces, tail, s[0]);
    } else {
      ClassReads(pieces, tail, 0);
    }
  }

  lemma NegatedMatches(pieces: seq<Piece>, tail: seq<byte>, s: seq<byte>)
    requires Distinct(pieces) && ClosesClass(tail)
    ensures Matches([OPEN, HAT] + SpellAll(pieces) + tail, s) <==>
            OneOf(pieces, true, if tail == [] then [] else tail[1..], s)
  {
    var body := SpellAll(pieces) + tail;
    Assoc([OPEN, HAT], SpellAll(pieces), tail);
    var pattern := [OPEN, HAT] + body;
    assert pattern[1..] == [HAT] + body;
    assert pattern[1..][1..] == body;
    ClassMatches(pattern, body, true, pieces, tail, s);
  }

  lemma PlainMatches(pieces: seq<Piece>, tail: seq<byte>, s: seq<byte>)
    requires Distinct(pieces) && ClosesClass(tail) && !StartsWithHat(pieces)
    ensures Matches([OPEN] + SpellAll(pieces) + tail, s) <==>
            OneOf(pieces, false, if tail == [] then [] else tail[1..], s)
  {
    var body := SpellAll(pieces) + tail;
    Assoc([OPEN], SpellAll(pieces), tail);
    var pattern := [OPEN] + body;
    assert pattern[1..] == body;
    if body != [] {
      assert pieces != [] ==> body[0] == Spelling(pieces[0])[0];
      assert body[0] != HAT;
    }
    ClassMatches(pattern, body, false, pieces, tail, s);
  }

  predicate StartsWithHat(pieces: seq<Piece>) { pieces != [] && Spelling(pieces[0])[0] == HAT }

  /** `[…]` matches one byte that a piece covers, `[^…]` one that none covers. */
  lemma Classes(pieces: seq<Piece>, p: seq<byte>, s: seq<byte>)
    requires Distinct(pieces)
    ensures Matches([OPEN, HAT] + SpellAll(pieces) + ([CLOSE] + p), s) <==>
            s != [] && !AnyCovers(pieces, s[0]) && Matches(p, s[1..])
    ensures !StartsWithHat(pieces) ==>
              (Matches([OPEN] + SpellAll(pieces) + ([CLOSE] + p), s) <==>
               s != [] && AnyCovers(pieces, s[0]) && Matches(p, s[1..]))
  {
    assert ([CLOSE] + p)[1..] == p;
    NegatedMatches(pieces, [CLOSE] + p, s);
    if !StartsWithHat(pieces) {
      PlainMatches(pieces, [CLOSE] + p, s);
    }
  }

  /** A class that is never closed runs to the end of the pattern. */
  lemma UnclosedClasses(pieces: seq<Piece>, s: seq<byte>)
    requires Distinct(pieces)
    ensures Matches([OPEN, HAT] + SpellAll(pieces), s) <==> |s| == 1 && !AnyCovers(pieces, s[0])
    ensures !StartsWithHat(pieces) ==>
              (Matches([OPEN] + SpellAll(pieces), s) <==> |s| == 1 && AnyCovers(pieces, s[0]))
  {
    assert [OPEN, HAT] + SpellAll(pieces) + [] == [OPEN, HAT] + SpellAll(pieces);
    assert [OPEN] + SpellAll(pieces) + [] == [OPEN] + SpellAll(pieces);
    NegatedMatches(pieces, [], s);
    if !StartsWithHat(pieces) {
      PlainMatches(pieces, [], s);
    }
    if s != [] {
      NothingMatchesNothing(s[1..]);
    }
  }
}

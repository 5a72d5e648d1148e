/** The options of SET word by word: which lists are accepted, and what each accepted word asks for. */
module OptionLaws {
  import opened Bytes
  import opened Decimal
  import opened SetOptions
  import opened StoreSpec
  import opened Dispatch

  /** An option word, with the token behind it if it takes one and there is one. */
  datatype Clause = Clause(word: string, argument: Option<seq<byte>>)

  predicate TakesNumber(word: string) { word == "EX" || word == "PX" || word == "EXAT" || word == "PXAT" }

  predicate SaysWhen(word: string) { word == "KEEPTTL" || TakesNumber(word) }

  predicate SaysIf(word: string) { word == "NX" || word == "XX" }

  /** Reading left to right: a word, and the number of those that take one. */
  function Clauses(opts: seq<seq<byte>>, fold: Fold): seq<Clause> {
    if opts == [] then []
    else
      var word := fold(opts[0]);
      if TakesNumber(word) && |opts| > 1 then [Clause(word, Some(opts[1]))] + Clauses(opts[2..], fold)
      else [Clause(word, None)] + Clauses(opts[1..], fold)
  }

  /** A word that is known, and whose number, if it takes one, is there and can be read. */
  predicate Readable(c: Clause) {
    || c.word == "GET" || c.word == "KEEPTTL" || SaysIf(c.word)
    || (TakesNumber(c.word) && c.argument.Some? && ParseI64(c.argument.value).Some?)
  }

  /** The option that a clause is. */
  ghost predicate Spells(c: Clause, g: Group) {
    && (c.word == "NX" <==> g == OnlyIf(IfNotExists)) && (c.word == "XX" <==> g == OnlyIf(IfExists))
    && (c.word == "GET" <==> g == ReturnOld) && (c.word == "KEEPTTL" <==> g == Keep)
    && (TakesNumber(c.word) <==> g.Deadline?)
    && (g.Deadline? ==> c.argument.Some? && ParseI64(c.argument.value) == Some(g.n) && UnitOf(c.word, g.unit))
  }

  ghost predicate UnitOf(word: string, unit: Word) {
    && (word == "EX" <==> unit == Ex) && (word == "PX" <==> unit == Px)
    && (word == "EXAT" <==> unit == ExAt) && (word == "PXAT" <==> unit == PxAt)
  }

  ghost predicate SpellsAll(cs: seq<Clause>, gs: seq<Group>) {
    |cs| == |gs| && forall i :: 0 <= i < |gs| ==> Spells(cs[i], gs[i])
  }

  lemma WordIs(s: string)
    ensures (s == "NX" <==> WordOf(s) == Nx) && (s == "XX" <==> WordOf(s) == Xx)
    ensures s == "GET" <==> WordOf(s) == GetWord
    ensures (s == "KEEPTTL" <==> WordOf(s) == KeepTtlWord) && (TakesNumber(s) <==> IsUnit(WordOf(s)))
    ensures TakesNumber(s) ==> UnitOf(s, WordOf(s))
  {
    WordsMean();
  }

  ghost predicate FirstIs(opts: seq<seq<byte>>, fold: Fold, c: Clause, rest: seq<seq<byte>>) {
    && Clauses(opts, fold) == [c] + Clauses(rest, fold)
    && match FirstGroup(opts, Words(fold))
       case None => !Readable(c)
       case Some(g) =>
         && Readable(c) && Spells(c, g)
         && Groups(opts, Words(fold)) == Prefixed([g], Groups(rest, Words(fold)))
  }

  lemma FirstClause(opts: seq<seq<byte>>, fold: Fold) returns (c: Clause, rest: seq<seq<byte>>)
    requires opts != []
    ensures |rest| < |opts| && FirstIs(opts, fold, c, rest)
  {
    var word := fold(opts[0]);
    WordIs(word);
    if TakesNumber(word) && |opts| > 1 {
      c, rest := Clause(word, Some(opts[1])), opts[2..];
    } else {
      c, rest := Clause(word, None), opts[1..];
    }
  }

  ghost predicate AllReadable(cs: seq<Clause>) { forall i :: 0 <= i < |cs| ==> Readable(cs[i]) }

  lemma AllReadableCons(c: Clause, cs: seq<Clause>)
    ensures AllReadable([c] + cs) <==> Readable(c) && AllReadable(cs)
  {
    var all := [c] + cs;
    assert all[0] == c;
    if AllReadable(all) {
      forall i | 0 <= i < |cs| ensures Readable(cs[i]) { assert all[i + 1] == cs[i]; }
    }
  }

  lemma SpellsAllCons(c: Clause, cs: seq<Clause>, g: Group, gs: seq<Group>)
    requires Spells(c, g) && SpellsAll(cs, gs)
    ensures SpellsAll([c] + cs, [g] + gs)
  {}

  /** A list of tokens is a list of options when every clause is readable, and then they are its clauses. */
  lemma {:induction false} ClausesAreGroups(opts: seq<seq<byte>>, fold: Fold)
    ensures Groups(opts, Words(fold)).Some? <==> AllReadable(Clauses(opts, fold))
    ensures Groups(opts, Words(fold)).Some? ==> SpellsAll(Clauses(opts, fold), Groups(opts, Words(fold)).value)
    decreases |opts|
  {
    if opts != [] {
      var c, rest := FirstClause(opts, fold);
      ClausesAreGroups(rest, fold);
      ClausesTurn(opts, fold, c, rest);
    }
  }

  lemma ClausesTurn(opts: seq<seq<byte>>, fold: Fold, c: Clause, rest: seq<seq<byte>>)
    requires opts != [] && FirstIs(opts, fold, c, rest)
    requires Groups(rest, Words(fold)).Some? <==> AllReadable(Clauses(rest, fold))
    requires Groups(rest, Words(fold)).Some? ==> SpellsAll(Clauses(rest, fold), Groups(rest, Words(fold)).value)
    ensures Groups(opts, Words(fold)).Some? <==> AllReadable(Clauses(opts, fold))
    ensures Groups(opts, Words(fold)).Some? ==> SpellsAll(Clauses(opts, fold), Groups(opts, Words(fold)).value)
  {
    AllReadableCons(c, Clauses(rest, fold));
    var first := FirstGroup(opts, Words(fold));
    if first.Some? && Groups(rest, Words(fold)).Some? {
      SpellsAllCons(c, Clauses(rest, fold), first.value, Groups(rest, Words(fold)).value);
    }
  }

  // ------------------------------------------------------------ what is accepted

  /** Options `i` and `j` exclude each other. */
  ghost predicate Clash(cs: seq<Clause>, i: nat, j: nat)
    requires i < |cs| && j < |cs|
  {
    (SaysIf(cs[i].word) && SaysIf(cs[j].word)) || (SaysWhen(cs[i].word) && SaysWhen(cs[j].word))
  }

  ghost predicate Positive(c: Clause)
    requires Readable(c)
  {
    TakesNumber(c.word) ==> ParseI64(c.argument.value).value > 0
  }

  /** Every clause readable, at most one of NX and XX, at most one expiry, and no expiry below 1. */
  ghost predicate LegalClauses(cs: seq<Clause>) {
    && AllReadable(cs)
    && (forall i :: 0 <= i < |cs| ==> Positive(cs[i]))
    && forall i, j :: 0 <= i < j < |cs| ==> !Clash(cs, i, j)
  }

  ghost predicate Rivals(g: Group, h: Group) {
    (g.OnlyIf? && h.OnlyIf?) || (IsExpiry(g) && IsExpiry(h))
  }

  ghost predicate LegalList(gs: seq<Group>) {
    && (forall i :: 0 <= i < |gs| && gs[i].Deadline? ==> gs[i].n > 0)
    && forall i, j :: 0 <= i < j < |gs| ==> !Rivals(gs[i], gs[j])
  }

  lemma CountOfTwo(gs: seq<Group>, i: nat, j: nat)
    requires i < j < |gs|
    ensures gs[i] == gs[j] ==> multiset(gs)[gs[i]] >= 2
    ensures gs[i] != gs[j] ==> multiset(gs)[gs[i]] >= 1 && multiset(gs)[gs[j]] >= 1
  {
    assert gs == gs[..j] + gs[j..];
    assert gs[..j][i] == gs[i] && gs[j..][0] == gs[j];
    assert gs[i] in multiset(gs[..j]) && gs[j] in multiset(gs[j..]);
  }

  lemma TwoOfCount(gs: seq<Group>, g: Group) returns (i: nat, j: nat)
    requires multiset(gs)[g] >= 2
    ensures i < j < |gs| && gs[i] == gs[j] == g
  {
    assert g in multiset(gs);
    i :| i < |gs| && gs[i] == g;
    var front, back := gs[..i], gs[i + 1..];
    assert gs == front + [g] + back;
    if g in back {
      j :| j < |back| && back[j] == g;
      j := i + 1 + j;
    } else {
      assert g in multiset(front);
      j := i;
      i :| i < |front| && front[i] == g;
    }
  }

  lemma TwoPlaces(gs: seq<Group>, g: Group, h: Group) returns (i: nat, j: nat)
    requires g in multiset(gs) && h in multiset(gs) && g != h
    ensures i < j < |gs| && ((gs[i] == g && gs[j] == h) || (gs[i] == h && gs[j] == g))
  {
    i :| i < |gs| && gs[i] == g;
    j :| j < |gs| && gs[j] == h;
    if j < i {
      i, j := j, i;
    }
  }

  ghost predicate NoAlways(gs: seq<Group>) { OnlyIf(Always) !in gs }

  lemma LegalBagIsLegalList(gs: seq<Group>)
    requires Legal(multiset(gs)) && NoAlways(gs)
    ensures LegalList(gs)
  {
    forall i | 0 <= i < |gs| && gs[i].Deadline? ensures gs[i].n > 0 {
      assert gs[i] in multiset(gs);
    }
    forall i, j | 0 <= i < j < |gs| ensures !Rivals(gs[i], gs[j]) {
      CountOfTwo(gs, i, j);
      assert gs[i] in gs && gs[j] in gs;
      NoRivals(multiset(gs), gs[i], gs[j]);
    }
  }

  lemma NoRivals(bag: multiset<Group>, g: Group, h: Group)
    requires Legal(bag) && g in bag && h in bag && g != OnlyIf(Always) && h != OnlyIf(Always)
    requires g == h ==> bag[g] >= 2
    ensures !Rivals(g, h)
  {
    if g.OnlyIf? {
      Conditions(g);
    }
    if h.OnlyIf? {
      Conditions(h);
    }
  }

  lemma Conditions(g: Group)
    requires g.OnlyIf? && g != OnlyIf(Always)
    ensures g == OnlyIf(IfExists) || g == OnlyIf(IfNotExists)
  {
    assert g == OnlyIf(g.condition) && (g.condition.IfExists? || g.condition.IfNotExists?);
  }

  lemma LegalListIsLegalBag(gs: seq<Group>)
    requires LegalList(gs)
    ensures Legal(multiset(gs))
  {
    var bag := multiset(gs);
    OneOfRivals(gs, OnlyIf(IfExists), OnlyIf(IfNotExists));
    forall g, h | g in bag && h in bag && IsExpiry(g) && IsExpiry(h) ensures g == h && bag[g] == 1 {
      OneOfRivals(gs, g, h);
    }
  }

  lemma OneOfRivals(gs: seq<Group>, g: Group, h: Group)
    requires LegalList(gs) && Rivals(g, h)
    ensures multiset(gs)[g] <= 1 && multiset(gs)[h] <= 1
    ensures g != h ==> multiset(gs)[g] + multiset(gs)[h] <= 1
  {
    if multiset(gs)[g] >= 2 {
      var i, j := TwoOfCount(gs, g);
    }
    if multiset(gs)[h] >= 2 {
      var i, j := TwoOfCount(gs, h);
    }
    if g != h && g in multiset(gs) && h in multiset(gs) {
      var i, j := TwoPlaces(gs, g, h);
    }
  }

  lemma SpelledLegally(cs: seq<Clause>, gs: seq<Group>)
    requires AllReadable(cs) && SpellsAll(cs, gs)
    ensures NoAlways(gs) && (LegalClauses(cs) <==> LegalList(gs))
  {
    forall i | 0 <= i < |gs| ensures gs[i] != OnlyIf(Always) && SpelledOut(cs[i], gs[i]) {
      SpelledIs(cs[i], gs[i]);
    }
    if LegalClauses(cs) {
      forall i, j | 0 <= i < j < |gs| ensures !Rivals(gs[i], gs[j]) {
        assert SpelledOut(cs[i], gs[i]) && SpelledOut(cs[j], gs[j]) && !Clash(cs, i, j);
      }
      forall i | 0 <= i < |gs| && gs[i].Deadline? ensures gs[i].n > 0 {
        assert SpelledOut(cs[i], gs[i]) && Positive(cs[i]);
      }
    }
    if LegalList(gs) {
      forall i, j | 0 <= i < j < |cs| ensures !Clash(cs, i, j) {
        assert SpelledOut(cs[i], gs[i]) && SpelledOut(cs[j], gs[j]) && !Rivals(gs[i], gs[j]);
      }
      forall i | 0 <= i < |cs| ensures Positive(cs[i]) {
        assert SpelledOut(cs[i], gs[i]) && Spells(cs[i], gs[i]);
      }
    }
  }

  ghost predicate SpelledOut(c: Clause, g: Group) {
    (SaysIf(c.word) <==> g.OnlyIf?) && (SaysWhen(c.word) <==> IsExpiry(g)) && (TakesNumber(c.word) <==> g.Deadline?)
  }

  lemma SpelledIs(c: Clause, g: Group)
    requires Readable(c) && Spells(c, g)
    ensures g != OnlyIf(Always) && SpelledOut(c, g)
  {}

  /** The options of SET are accepted exactly when they are legal word by word. */
  lemma LegalWordsAreAccepted(opts: seq<seq<byte>>, fold: Fold)
    ensures Acceptable(opts, Words(fold)) <==> LegalClauses(Clauses(opts, fold))
  {
    ClausesAreGroups(opts, fold);
    if Groups(opts, Words(fold)).Some? {
      var gs := Groups(opts, Words(fold)).value;
      SpelledLegally(Clauses(opts, fold), gs);
      if LegalList(gs) {
        LegalListIsLegalBag(gs);
      }
      if Legal(multiset(gs)) {
        LegalBagIsLegalList(gs);
      }
    }
  }

  // ----------------------------------------------------------- what is asked for

  ghost predicate Says(cs: seq<Clause>, word: string) { exists i :: 0 <= i < |cs| && cs[i].word == word }

  /** The deadline that a unit and a positive number stand for. */
  ghost predicate DeadlineIs(word: string, n: int, clock: Clock, d: Time) {
    && (word == "EX" ==> d == clock.mono + n * 1_000_000_000)
    && (word == "PX" ==> d == clock.mono + n * 1_000_000)
    && (word == "PXAT" ==> FromEpoch(n, clock, d))
    && (word == "EXAT" && n * 1000 <= 9_223_372_036_854_775_807 ==> FromEpoch(n * 1000, clock, d))
    && (word == "EXAT" && n * 1000 > 9_223_372_036_854_775_807 ==> FromEpoch(9_223_372_036_854_775_807, clock, d))
  }

  /** `d` is when the epoch clock shows `millis`, or now if it already does. */
  ghost predicate FromEpoch(millis: int, clock: Clock, d: Time) {
    if millis <= clock.epochMillis then d == clock.mono
    else d == clock.mono + (millis - clock.epochMillis) * 1_000_000
  }

  /** Each part of what is asked for has its word, and each word is heeded. */
  ghost predicate AsksFor(cs: seq<Clause>, clock: Clock, o: Options)
    requires AllReadable(cs)
  {
    && (o.condition == IfNotExists <==> Says(cs, "NX")) && (o.condition == IfExists <==> Says(cs, "XX"))
    && (o.wantGet <==> Says(cs, "GET"))
    && (o.expiry == Some(KeepTtl) <==> Says(cs, "KEEPTTL"))
    && (o.expiry.None? <==> !Says(cs, "KEEPTTL") && forall i :: 0 <= i < |cs| ==> !TakesNumber(cs[i].word))
    && forall i :: 0 <= i < |cs| && TakesNumber(cs[i].word) ==>
         && o.expiry.Some? && o.expiry.value.At?
         && DeadlineIs(cs[i].word, ParseI64(cs[i].argument.value).value, clock, o.expiry.value.deadline)
  }

  lemma SaysIs(cs: seq<Clause>, gs: seq<Group>)
    requires SpellsAll(cs, gs)
    ensures Says(cs, "NX") <==> OnlyIf(IfNotExists) in multiset(gs)
    ensures Says(cs, "XX") <==> OnlyIf(IfExists) in multiset(gs)
    ensures Says(cs, "GET") <==> ReturnOld in multiset(gs)
    ensures Says(cs, "KEEPTTL") <==> Keep in multiset(gs)
  {
    forall i | 0 <= i < |cs| ensures Spells(cs[i], gs[i]) && gs[i] in multiset(gs) {}
    SaysHas(cs, gs, "NX", OnlyIf(IfNotExists));
    SaysHas(cs, gs, "XX", OnlyIf(IfExists));
    SaysHas(cs, gs, "GET", ReturnOld);
    SaysHas(cs, gs, "KEEPTTL", Keep);
  }

  lemma SaysHas(cs: seq<Clause>, gs: seq<Group>, word: string, g: Group)
    requires |cs| == |gs| && forall i :: 0 <= i < |gs| ==> (cs[i].word == word <==> gs[i] == g)
    ensures Says(cs, word) <==> g in multiset(gs)
  {
    if Says(cs, word) {
      var i :| 0 <= i < |cs| && cs[i].word == word;
      assert gs[i] == g;
    }
    if g in multiset(gs) {
      var i :| 0 <= i < |gs| && gs[i] == g;
      assert cs[i].word == word;
    }
  }

  lemma ExpiryAsked(clock: Clock, gs: seq<Group>, o: Options, i: nat)
    requires Legal(multiset(gs)) && Means(clock, multiset(gs), o) && i < |gs| && IsExpiry(gs[i])
    ensures o.expiry.Some? && Sets(clock, gs[i], o.expiry.value)
  {
    assert gs[i] in multiset(gs);
    var g :| g in multiset(gs) && Sets(clock, g, o.expiry.value);
    assert IsExpiry(g);
  }

  lemma DeadlineAsked(c: Clause, g: Group, clock: Clock, e: Expiry)
    requires Readable(c) && Spells(c, g) && TakesNumber(c.word) && Sets(clock, g, e)
    ensures e.At? && DeadlineIs(c.word, ParseI64(c.argument.value).value, clock, e.deadline)
  {}

  /** An accepted list asks for what its words say. */
  lemma WordsAreHeeded(clock: Clock, opts: seq<seq<byte>>, fold: Fold, o: Options)
    requires Acceptable(opts, Words(fold)) && Means(clock, multiset(Groups(opts, Words(fold)).value), o)
    ensures LegalClauses(Clauses(opts, fold)) && AsksFor(Clauses(opts, fold), clock, o)
  {
    var cs, gs := Clauses(opts, fold), Groups(opts, Words(fold)).value;
    ClausesAreGroups(opts, fold);
    LegalWordsAreAccepted(opts, fold);
    Heeded(clock, cs, gs, o);
  }

  lemma Heeded(clock: Clock, cs: seq<Clause>, gs: seq<Group>, o: Options)
    requires AllReadable(cs) && SpellsAll(cs, gs) && Legal(multiset(gs)) && Means(clock, multiset(gs), o)
    ensures AsksFor(cs, clock, o)
  {
    SaysIs(cs, gs);
    forall i | 0 <= i < |cs| && TakesNumber(cs[i].word)
      ensures && o.expiry.Some? && o.expiry.value.At?
              && DeadlineIs(cs[i].word, ParseI64(cs[i].argument.value).value, clock, o.expiry.value.deadline)
    {
      assert Spells(cs[i], gs[i]);
      ExpiryAsked(clock, gs, o, i);
      DeadlineAsked(cs[i], gs[i], clock, o.expiry.value);
    }
    KeepAsked(clock, cs, gs, o);
  }

  lemma KeepAsked(clock: Clock, cs: seq<Clause>, gs: seq<Group>, o: Options)
    requires AllReadable(cs) && SpellsAll(cs, gs) && Legal(multiset(gs)) && Means(clock, multiset(gs), o)
    ensures o.expiry == Some(KeepTtl) <==> Keep in multiset(gs)
    ensures o.expiry.None? <==> Keep !in multiset(gs) && forall i :: 0 <= i < |cs| ==> !TakesNumber(cs[i].word)
  {
    if Keep in multiset(gs) {
      var i :| 0 <= i < |gs| && gs[i] == Keep;
      ExpiryAsked(clock, gs, o, i);
    }
    if o.expiry.Some? {
      var g :| g in multiset(gs) && Sets(clock, g, o.expiry.value);
      var i :| 0 <= i < |gs| && gs[i] == g;
      assert Spells(cs[i], gs[i]);
    } else {
      forall i | 0 <= i < |cs| ensures !TakesNumber(cs[i].word) {
        assert Spells(cs[i], gs[i]) && gs[i] in multiset(gs);
      }
    }
  }

  // ------------------------------------------------------------------ SET itself

  /** SET is read if it has a key, a value and legal options, and then it does what they ask for. */
  lemma SetIsRead(args: seq<seq<byte>>, clock: Clock, fold: Fold, op: Op)
    requires args != [] && fold(args[0]) == "SET" && ReadsAs(args, clock, fold, op)
    ensures |args| >= 3 && op.Set? && op.key == args[1] && op.value == args[2]
    ensures LegalClauses(Clauses(args[3..], fold)) && AsksFor(Clauses(args[3..], fold), clock, AskedFor(op))
  {
    WordsAreHeeded(clock, args[3..], fold, AskedFor(op));
  }
}

/** The option list of SET: what is accepted, and that only the bag of options matters. */
module SetOptions {
  import opened Bytes
  import opened Decimal
  import opened StoreSpec

  /** What `upper` makes of a token; case folding itself is a parameter. */
  datatype Word = Nx | Xx | GetWord | KeepTtlWord | Ex | Px | ExAt | PxAt | Unknown

  type Upper = seq<byte> -> Word

  /** The clock pair captured once per command: epoch milliseconds and the monotonic clock. */
  datatype Clock = Clock(epochMillis: nat, mono: Time)

  datatype Options = Options(expiry: Option<Expiry>, condition: Condition, wantGet: bool)

  datatype OptionError = SyntaxError | NotInteger | InvalidExpire

  datatype ParseResult = Accepted(options: Options) | Rejected(why: OptionError)

  predicate IsUnit(w: Word) { w.Ex? || w.Px? || w.ExAt? || w.PxAt? }

  /** `i64::saturating_mul(1000)` of a positive number. */
  function SaturatingThousand(n: nat): nat { if n * 1000 > I64_MAX then I64_MAX else n * 1000 }

  function ResolveAbsolute(clock: Clock, targetMillis: nat): (t: Time)
    ensures t >= clock.mono
    ensures t == clock.mono <==> targetMillis <= clock.epochMillis
  {
    if targetMillis <= clock.epochMillis then clock.mono
    else clock.mono + (targetMillis - clock.epochMillis) * 1_000_000
  }

  function DeadlineFor(clock: Clock, unit: Word, n: nat): Time
    requires IsUnit(unit)
  {
    match unit
    case Ex => clock.mono + n * 1_000_000_000
    case Px => clock.mono + n * 1_000_000
    case ExAt => ResolveAbsolute(clock, SaturatingThousand(n))
    case PxAt => ResolveAbsolute(clock, n)
  }

  // ---------------------------------------------------------------- grammar

  /** One option together with its argument. */
  datatype Group = OnlyIf(condition: Condition) | ReturnOld | Keep | Deadline(unit: Word, n: int)

  predicate IsExpiry(g: Group) { g.Keep? || g.Deadline? }

  function Size(g: Group): nat { if g.Deadline? then 2 else 1 }

  /** The option at the front of a token list, if there is one. */
  function FirstGroup(opts: seq<seq<byte>>, upper: Upper): (g: Option<Group>)
    requires opts != []
    ensures g.Some? ==> Size(g.value) <= |opts|
    ensures g.Some? && g.value.Deadline? ==> IsUnit(g.value.unit)
  {
    match upper(opts[0])
    case Nx => Some(OnlyIf(IfNotExists))
    case Xx => Some(OnlyIf(IfExists))
    case GetWord => Some(ReturnOld)
    case KeepTtlWord => Some(Keep)
    case Unknown => None
    case unit =>
      if |opts| < 2 then None
      else
        match ParseI64(opts[1])
        case None => None
        case Some(n) => Some(Deadline(unit, n))
  }

  /** A token list as its options, when it is one. */
  function Groups(opts: seq<seq<byte>>, upper: Upper): Option<seq<Group>> {
    if opts == [] then Some([])
    else
      match FirstGroup(opts, upper)
      case None => None
      case Some(g) =>
        match Groups(opts[Size(g)..], upper)
        case None => None
        case Some(rest) => Some([g] + rest)
  }

  /** At most one condition, at most one expiry, and every expiry argument positive. */
  ghost predicate Legal(bag: multiset<Group>) {
    && bag[OnlyIf(IfExists)] + bag[OnlyIf(IfNotExists)] <= 1
    && (forall g, h :: g in bag && h in bag && IsExpiry(g) && IsExpiry(h) ==> g == h && bag[g] == 1)
    && forall g :: g in bag && g.Deadline? ==> g.n > 0
  }

  function ExpiryOf(clock: Clock, g: Group): Expiry
    requires g.Keep? || (g.Deadline? && IsUnit(g.unit) && g.n > 0)
  {
    if g.Keep? then KeepTtl else At(DeadlineFor(clock, g.unit, g.n))
  }

  /** `o` says exactly what the bag of options says. */
  ghost predicate Means(clock: Clock, bag: multiset<Group>, o: Options) {
    && (o.condition == IfExists <==> OnlyIf(IfExists) in bag)
    && (o.condition == IfNotExists <==> OnlyIf(IfNotExists) in bag)
    && (o.wantGet <==> ReturnOld in bag)
    && (o.expiry.None? ==> forall g :: g in bag ==> !IsExpiry(g))
    && (o.expiry.Some? ==> exists g :: g in bag && Sets(clock, g, o.expiry.value))
  }

  ghost predicate Sets(clock: Clock, g: Group, e: Expiry) {
    (g.Keep? || (g.Deadline? && IsUnit(g.unit) && g.n > 0)) && e == ExpiryOf(clock, g)
  }

  /** A legal bag has one meaning. */
  lemma MeaningIsUnique(clock: Clock, bag: multiset<Group>, o: Options, o': Options)
    requires Legal(bag) && Means(clock, bag, o) && Means(clock, bag, o')
    ensures o == o'
  {
    if o.expiry.Some? && o'.expiry.Some? {
      ExpiryIsUnique(clock, bag, o.expiry.value, o'.expiry.value);
    }
  }

  lemma ExpiryIsUnique(clock: Clock, bag: multiset<Group>, e: Expiry, e': Expiry)
    requires Legal(bag)
    requires exists g :: g in bag && Sets(clock, g, e)
    requires exists g :: g in bag && Sets(clock, g, e')
    ensures e == e'
  {
    var g :| g in bag && Sets(clock, g, e);
    var h :| h in bag && Sets(clock, h, e');
    assert IsExpiry(g) && IsExpiry(h);
  }

  // ------------------------------------------------------------------- loop

  /** The conflict test of each arm. */
  predicate Conflicts(o: Options, g: Group) {
    match g
    case OnlyIf(_) => o.condition != Always
    case ReturnOld => false
    case Keep => o.expiry.Some?
    case Deadline(_, n) => o.expiry.Some? || n <= 0
  }

  function Add(clock: Clock, o: Options, g: Group): Options
    requires g.Deadline? ==> IsUnit(g.unit) && g.n > 0
  {
    match g
    case OnlyIf(c) => o.(condition := c)
    case ReturnOld => o.(wantGet := true)
    case Keep => o.(expiry := Some(KeepTtl))
    case Deadline(unit, n) => o.(expiry := Some(At(DeadlineFor(clock, unit, n))))
  }

  ghost predicate ProperGroup(g: Group) {
    (g.OnlyIf? ==> g.condition != Always) && (g.Deadline? ==> IsUnit(g.unit))
  }

  lemma AddMeans(clock: Clock, bag: multiset<Group>, o: Options, g: Group)
    requires Legal(bag) && Means(clock, bag, o) && !Conflicts(o, g) && ProperGroup(g)
    ensures Legal(bag + multiset{g}) && Means(clock, bag + multiset{g}, Add(clock, o, g))
  {
    var bag', o' := bag + multiset{g}, Add(clock, o, g);
    assert g in bag';
    if IsExpiry(g) {
      assert Sets(clock, g, o'.expiry.value);
    } else if o.expiry.Some? {
      var h :| h in bag && Sets(clock, h, o.expiry.value);
      assert h in bag';
    }
  }

  /** Once an option conflicts, no continuation is legal. */
  lemma ConflictIsFinal(clock: Clock, bag: multiset<Group>, o: Options, g: Group, rest: multiset<Group>)
    requires Means(clock, bag, o) && Conflicts(o, g) && ProperGroup(g)
    ensures !Legal(bag + multiset{g} + rest)
  {
    var all := bag + multiset{g} + rest;
    assert g in all && all[g] >= bag[g] + 1;
    if IsExpiry(g) && o.expiry.Some? {
      var h :| h in bag && Sets(clock, h, o.expiry.value);
      assert IsExpiry(h) && h in all;
      if h == g { assert all[g] >= 2; }
    }
  }

  function Prefixed(front: seq<Group>, rest: Option<seq<Group>>): Option<seq<Group>> {
    match rest
    case None => None
    case Some(gs) => Some(front + gs)
  }

  ghost predicate HasCondition(bag: multiset<Group>) { OnlyIf(IfExists) in bag || OnlyIf(IfNotExists) in bag }

  ghost predicate HasExpiry(bag: multiset<Group>) { exists g :: g in bag && IsExpiry(g) }

  /** What is wrong with the option at the front of `opts`, coming after the options in `bag`. */
  ghost function Fault(bag: multiset<Group>, opts: seq<seq<byte>>, upper: Upper): Option<OptionError>
    requires opts != []
  {
    var word := upper(opts[0]);
    if word.GetWord? then None
    else if word.Nx? || word.Xx? then if HasCondition(bag) then Some(SyntaxError) else None
    else if word.Unknown? || HasExpiry(bag) then Some(SyntaxError)
    else if word.KeepTtlWord? then None
    else if |opts| == 1 then Some(SyntaxError)
    else if ParseI64(opts[1]).None? then Some(NotInteger)
    else if ParseI64(opts[1]).value <= 0 then Some(InvalidExpire)
    else None
  }

  /** The options before token `n` are legal together, and the one there is refused for `why`. */
  ghost predicate FaultyAt(opts: seq<seq<byte>>, upper: Upper, n: nat, why: OptionError) {
    && n < |opts| && Groups(opts[..n], upper).Some?
    && var bag := multiset(Groups(opts[..n], upper).value);
       Legal(bag) && Fault(bag, opts[n..], upper) == Some(why)
  }

  /** The first `i` tokens are the legal options `done`, and `o` is what they mean. */
  ghost predicate ReadSoFar(clock: Clock, opts: seq<seq<byte>>, upper: Upper, i: nat, done: seq<Group>, o: Options) {
    && i <= |opts| && Groups(opts[..i], upper) == Some(done)
    && Legal(multiset(done)) && Means(clock, multiset(done), o)
  }

  ghost predicate Acceptable(opts: seq<seq<byte>>, upper: Upper) {
    Groups(opts, upper).Some? && Legal(multiset(Groups(opts, upper).value))
  }

  /** `parse_set_options`: accepts exactly the legal option bags, and returns what they mean. */
  method ParseSetOptions(clock: Clock, opts: seq<seq<byte>>, upper: Upper) returns (r: ParseResult)
    ensures r.Accepted? <==> Acceptable(opts, upper)
    ensures r.Accepted? ==> Means(clock, multiset(Groups(opts, upper).value), r.options)
    ensures r.Rejected? ==> exists n :: FaultyAt(opts, upper, n, r.why)
  {
    var o := Options(None, Always, false);
    var i := 0;
    ghost var done: seq<Group> := [];
    while i < |opts|
      invariant ReadSoFar(clock, opts, upper, i, done, o)
    {
      var first := FirstGroup(opts[i..], upper);
      if first.None? {
        var why := if o.expiry.Some? then SyntaxError else ErrorAt(opts[i..], upper);
        NoGroupIsFault(clock, done, o, opts, upper, i, why);
        return Rejected(why);
      }
      var g := first.value;
      FirstGroupIsProper(opts[i..], upper);
      if Conflicts(o, g) {
        var why := if g.Deadline? && o.expiry.None? then InvalidExpire else SyntaxError;
        ConflictIsFault(clock, multiset(done), o, opts[i..], upper, g);
        ConflictIsIllegal(clock, done, o, opts, upper, i, g);
        assert FaultyAt(opts, upper, i, why);
        return Rejected(why);
      }
      OptionTurn(clock, opts, upper, i, done, o, g);
      o := Add(clock, o, g);
      done := done + [g];
      i := i + Size(g);
    }
    assert opts[..|opts|] == opts;
    r := Accepted(o);
  }

  lemma OptionTurn(clock: Clock, opts: seq<seq<byte>>, upper: Upper, i: nat, done: seq<Group>, o: Options, g: Group)
    requires ReadSoFar(clock, opts, upper, i, done, o) && i < |opts| && FirstGroup(opts[i..], upper) == Some(g)
    requires !Conflicts(o, g) && ProperGroup(g)
    ensures ReadSoFar(clock, opts, upper, i + Size(g), done + [g], Add(clock, o, g))
  {
    GroupsTurn(opts, upper, i, done, g);
    AddMeans(clock, multiset(done), o, g);
  }

  function ErrorAt(opts: seq<seq<byte>>, upper: Upper): OptionError
    requires opts != []
  {
    if IsUnit(upper(opts[0])) && |opts| >= 2 then NotInteger else SyntaxError
  }

  /** The option record remembers which kinds of option have been seen. */
  lemma Remembers(clock: Clock, bag: multiset<Group>, o: Options)
    requires Means(clock, bag, o)
    ensures o.condition != Always <==> HasCondition(bag)
    ensures o.expiry.Some? <==> HasExpiry(bag)
  {
    if o.expiry.Some? {
      var g :| g in bag && Sets(clock, g, o.expiry.value);
      assert IsExpiry(g);
    }
  }

  lemma NoGroupIsFault(clock: Clock, done: seq<Group>, o: Options, opts: seq<seq<byte>>, upper: Upper, i: nat,
                       why: OptionError)
    requires i < |opts| && Groups(opts[..i], upper) == Some(done) && FirstGroup(opts[i..], upper).None?
    requires Legal(multiset(done)) && Means(clock, multiset(done), o)
    requires why == if o.expiry.Some? then SyntaxError else ErrorAt(opts[i..], upper)
    ensures Groups(opts, upper).None? && FaultyAt(opts, upper, i, why)
  {
    GroupsAppend(opts[..i], opts[i..], upper, done);
    assert opts[..i] + opts[i..] == opts;
    Remembers(clock, multiset(done), o);
  }

  lemma ConflictIsFault(clock: Clock, bag: multiset<Group>, o: Options, opts: seq<seq<byte>>, upper: Upper, g: Group)
    requires opts != [] && FirstGroup(opts, upper) == Some(g) && Means(clock, bag, o) && Conflicts(o, g)
    ensures Fault(bag, opts, upper) == Some(if g.Deadline? && o.expiry.None? then InvalidExpire else SyntaxError)
  {
    Remembers(clock, bag, o);
  }

  lemma ConflictIsIllegal(clock: Clock, done: seq<Group>, o: Options, opts: seq<seq<byte>>, upper: Upper, i: nat,
                          g: Group)
    requires i < |opts| && Groups(opts[..i], upper) == Some(done) && FirstGroup(opts[i..], upper) == Some(g)
    requires Means(clock, multiset(done), o) && Conflicts(o, g) && ProperGroup(g)
    ensures Groups(opts, upper).Some? ==> !Legal(multiset(Groups(opts, upper).value))
  {
    GroupsAppend(opts[..i], opts[i..], upper, done);
    assert opts[..i] + opts[i..] == opts;
    if Groups(opts, upper).Some? {
      var rest := Groups(opts[i..][Size(g)..], upper).value;
      ConflictIsFinal(clock, multiset(done), o, g, multiset(rest));
      BagOf(done, g, rest);
    }
  }

  lemma BagOf(done: seq<Group>, g: Group, rest: seq<Group>)
    ensures multiset(done + ([g] + rest)) == multiset(done) + multiset{g} + multiset(rest)
  {}

  /** Options can be read off one list after another. */
  lemma {:induction false} GroupsAppend(a: seq<seq<byte>>, b: seq<seq<byte>>, upper: Upper, gs: seq<Group>)
    requires Groups(a, upper) == Some(gs)
    ensures Groups(a + b, upper) == Prefixed(gs, Groups(b, upper))
    decreases |a|
  {
    if a == [] {
      assert a + b == b;
      PrefixedNothing(Groups(b, upper));
    } else {
      var g := FirstGroup(a, upper).value;
      var tail := a[Size(g)..];
      assert (a + b)[Size(g)..] == tail + b;
      GroupsCons(a, upper, g);
      FirstGroupOfLonger(a, b, upper);
      GroupsCons(a + b, upper, g);
      GroupsAppend(tail, b, upper, Groups(tail, upper).value);
      PrefixedTwice(g, Groups(tail, upper).value, Groups(b, upper));
    }
  }

  lemma FirstGroupOfLonger(a: seq<seq<byte>>, b: seq<seq<byte>>, upper: Upper)
    requires a != [] && FirstGroup(a, upper).Some?
    ensures FirstGroup(a + b, upper) == FirstGroup(a, upper)
  {}

  lemma GroupsCons(opts: seq<seq<byte>>, upper: Upper, g: Group)
    requires opts != [] && FirstGroup(opts, upper) == Some(g)
    ensures Groups(opts, upper) == Prefixed([g], Groups(opts[Size(g)..], upper))
  {}

  lemma PrefixedTwice(g: Group, rest: seq<Group>, more: Option<seq<Group>>)
    ensures Prefixed([g], Prefixed(rest, more)) == Prefixed([g] + rest, more)
  {
    if more.Some? { Assoc([g], rest, more.value); }
  }

  lemma FirstGroupIsProper(opts: seq<seq<byte>>, upper: Upper)
    requires opts != []
    ensures FirstGroup(opts, upper).Some? ==> ProperGroup(FirstGroup(opts, upper).value)
  {}

  lemma PrefixedNothing(gs: Option<seq<Group>>)
    ensures Prefixed([], gs) == gs
  {
    if gs.Some? { assert [] + gs.value == gs.value; }
  }

  lemma GroupsTurn(opts: seq<seq<byte>>, upper: Upper, i: nat, done: seq<Group>, g: Group)
    requires i < |opts| && FirstGroup(opts[i..], upper) == Some(g) && Groups(opts[..i], upper) == Some(done)
    ensures Groups(opts[..i + Size(g)], upper) == Some(done + [g])
    ensures multiset(done + [g]) == multiset(done) + multiset{g}
  {
    var one := opts[i..i + Size(g)];
    assert FirstGroup(one, upper) == Some(g);
    assert opts[..i] + one == opts[..i + Size(g)];
    assert one[Size(g)..] == [] && [g] + [] == [g];
    assert Groups(one[Size(g)..], upper) == Some([]);
    assert Groups(one, upper) == Some([g]);
    GroupsAppend(opts[..i], one, upper, done);
  }

  // ------------------------------------------------------- order of options

  /** Tokens that are one option with its argument. */
  predicate OneOption(chunk: seq<seq<byte>>, upper: Upper) {
    chunk != [] && FirstGroup(chunk, upper).Some? && |chunk| == Size(FirstGroup(chunk, upper).value)
  }

  function OptionOf(chunk: seq<seq<byte>>, upper: Upper): Group
    requires OneOption(chunk, upper)
  {
    FirstGroup(chunk, upper).value
  }

  /** Chunks laid end to end. */
  function Flat(chunks: seq<seq<seq<byte>>>): seq<seq<byte>> {
    if chunks == [] then [] else chunks[0] + Flat(chunks[1..])
  }

  ghost predicate AllOptions(chunks: seq<seq<seq<byte>>>, upper: Upper) {
    forall i :: 0 <= i < |chunks| ==> OneOption(chunks[i], upper)
  }

  function OptionsOf(chunks: seq<seq<seq<byte>>>, upper: Upper): seq<Group>
    requires AllOptions(chunks, upper)
  {
    if chunks == [] then [] else [OptionOf(chunks[0], upper)] + OptionsOf(chunks[1..], upper)
  }

  lemma OneGroup(chunk: seq<seq<byte>>, upper: Upper)
    requires OneOption(chunk, upper)
    ensures Groups(chunk, upper) == Some([OptionOf(chunk, upper)])
  {
    var g := OptionOf(chunk, upper);
    GroupsCons(chunk, upper, g);
    assert chunk[Size(g)..] == [] && [g] + [] == [g];
  }

  /** Chunks of one option each parse to their options. */
  lemma {:induction false} GroupsOfChunks(chunks: seq<seq<seq<byte>>>, upper: Upper)
    requires AllOptions(chunks, upper)
    ensures Groups(Flat(chunks), upper) == Some(OptionsOf(chunks, upper))
    decreases chunks
  {
    if chunks != [] {
      OneGroup(chunks[0], upper);
      GroupsOfChunks(chunks[1..], upper);
      GroupsAppend(chunks[0], Flat(chunks[1..]), upper, [OptionOf(chunks[0], upper)]);
    }
  }

  /** Every token list that is a list of options falls into such chunks. */
  lemma {:induction false} ChunksOf(opts: seq<seq<byte>>, upper: Upper) returns (chunks: seq<seq<seq<byte>>>)
    requires Groups(opts, upper).Some?
    ensures AllOptions(chunks, upper) && Flat(chunks) == opts
    decreases |opts|
  {
    chunks := [];
    if opts != [] {
      var g := FirstGroup(opts, upper).value;
      var head := opts[..Size(g)];
      var rest := ChunksOf(opts[Size(g)..], upper);
      assert FirstGroup(head, upper) == Some(g);
      assert head + opts[Size(g)..] == opts;
      chunks := [head] + rest;
      assert chunks[1..] == rest;
    }
  }

  lemma {:induction false} OptionsAppend(a: seq<seq<seq<byte>>>, b: seq<seq<seq<byte>>>, upper: Upper)
    requires AllOptions(a, upper) && AllOptions(b, upper)
    ensures AllOptions(a + b, upper) && OptionsOf(a + b, upper) == OptionsOf(a, upper) + OptionsOf(b, upper)
    decreases a
  {
    if a == [] {
      assert a + b == b;
    } else {
      assert (a + b)[0] == a[0] && (a + b)[1..] == a[1..] + b;
      OptionsAppend(a[1..], b, upper);
      Assoc([OptionOf(a[0], upper)], OptionsOf(a[1..], upper), OptionsOf(b, upper));
    }
  }

  /** Taking one chunk out of a list takes its option out of the bag. */
  lemma BagWithout(b: seq<seq<seq<byte>>>, i: nat, upper: Upper)
    requires AllOptions(b, upper) && i < |b|
    ensures var rest := b[..i] + b[i + 1..];
            && AllOptions(rest, upper) && multiset(b) == multiset{b[i]} + multiset(rest)
            && multiset(OptionsOf(b, upper)) == multiset{OptionOf(b[i], upper)} + multiset(OptionsOf(rest, upper))
  {
    var front, back := b[..i], b[i + 1..];
    assert b == front + ([b[i]] + back);
    OptionsAppend(front, back, upper);
    assert AllOptions([b[i]] + back, upper);
    OptionsAppend(front, [b[i]] + back, upper);
    assert ([b[i]] + back)[1..] == back;
  }

  lemma SameChunks(a: seq<seq<seq<byte>>>, b: seq<seq<seq<byte>>>, upper: Upper)
    requires AllOptions(a, upper) && multiset(a) == multiset(b)
    ensures AllOptions(b, upper) && |a| == |b|
  {
    forall i | 0 <= i < |b| ensures OneOption(b[i], upper) {
      assert b[i] in multiset(b);
      assert b[i] in a;
    }
    assert |multiset(a)| == |a| && |multiset(b)| == |b|;
  }

  lemma FindChunk(a: seq<seq<seq<byte>>>, b: seq<seq<seq<byte>>>) returns (i: nat)
    requires a != [] && multiset(a) == multiset(b)
    ensures i < |b| && b[i] == a[0]
  {
    assert a[0] in multiset(b);
    i :| 0 <= i < |b| && b[i] == a[0];
  }

  lemma CancelChunk(a: seq<seq<seq<byte>>>, rest: seq<seq<seq<byte>>>)
    requires a != [] && multiset(a) == multiset{a[0]} + multiset(rest)
    ensures multiset(a[1..]) == multiset(rest)
  {
    var head, tail := a[0], a[1..];
    assert a == [head] + tail;
    assert multiset(a) == multiset{head} + multiset(tail);
    assert multiset(tail) == multiset(a) - multiset{head};
    assert multiset(rest) == multiset(a) - multiset{head};
  }

  lemma {:induction false} SameBagOfOptions(a: seq<seq<seq<byte>>>, b: seq<seq<seq<byte>>>, upper: Upper)
    requires AllOptions(a, upper) && AllOptions(b, upper) && multiset(a) == multiset(b)
    ensures multiset(OptionsOf(a, upper)) == multiset(OptionsOf(b, upper))
    decreases a
  {
    SameChunks(a, b, upper);
    if a != [] {
      var i := FindChunk(a, b);
      var rest := b[..i] + b[i + 1..];
      BagWithout(b, i, upper);
      CancelChunk(a, rest);
      SameBagOfOptions(a[1..], rest, upper);
    }
  }

  ghost predicate Says(clock: Clock, chunks: seq<seq<seq<byte>>>, upper: Upper, o: Options) {
    Groups(Flat(chunks), upper).Some? && Means(clock, multiset(Groups(Flat(chunks), upper).value), o)
  }

  /** Any reordering of the options of a list is accepted or refused with it, and means the same. */
  lemma OrderIsIrrelevant(clock: Clock, upper: Upper, a: seq<seq<seq<byte>>>, b: seq<seq<seq<byte>>>)
    requires AllOptions(a, upper) && multiset(a) == multiset(b)
    ensures Acceptable(Flat(a), upper) <==> Acceptable(Flat(b), upper)
    ensures Acceptable(Flat(a), upper) ==>
              forall o, o' :: Says(clock, a, upper, o) && Says(clock, b, upper, o') ==> o == o'
  {
    SameChunks(a, b, upper);
    SameBagOfOptions(a, b, upper);
    GroupsOfChunks(a, upper);
    GroupsOfChunks(b, upper);
    if Acceptable(Flat(a), upper) {
      var bag := multiset(OptionsOf(a, upper));
      forall o, o' | Means(clock, bag, o) && Means(clock, bag, o') ensures o == o' {
        MeaningIsUnique(clock, bag, o, o');
      }
    }
  }

  /** The parser on a list and on any reordering of its options: one verdict, one result. */
  method ParseReordered(clock: Clock, a: seq<seq<seq<byte>>>, b: seq<seq<seq<byte>>>, upper: Upper)
    returns (r: ParseResult, r': ParseResult)
    requires AllOptions(a, upper) && multiset(a) == multiset(b)
    ensures r.Accepted? <==> Acceptable(Flat(a), upper)
    ensures r.Accepted? <==> r'.Accepted?
    ensures r.Accepted? ==> r == r'
  {
    OrderIsIrrelevant(clock, upper, a, b);
    r := ParseSetOptions(clock, Flat(a), upper);
    r' := ParseSetOptions(clock, Flat(b), upper);
    assert r.Accepted? ==> Says(clock, a, upper, r.options) && Says(clock, b, upper, r'.options);
  }
}

/** Decimal text of machine integers: Rust's `to_string` and `str::parse::<i64>`. */
module Decimal {
  import opened Bytes

  const I64_MIN: int := -0x8000_0000_0000_0000
  const I64_MAX: int := 0x7fff_ffff_ffff_ffff

  predicate InI64(n: int) { I64_MIN <= n <= I64_MAX }

  predicate IsDigit(b: byte) { ZERO <= b < ZERO + 10 }

  predicate AllDigits(s: seq<byte>) { forall i :: 0 <= i < |s| ==> IsDigit(s[i]) }

  /** Decimal digits of `n`, most significant first, without leading zeros. */
  function Digits(n: nat): (s: seq<byte>)
    ensures s != [] && AllDigits(s)
    ensures |s| > 1 ==> s[0] != ZERO
  {
    if n < 10 then [ZERO + n]
    else
      var hi := Digits(n / 10);
      assert n / 10 < 10 ==> hi == [ZERO + n / 10];
      hi + [ZERO + n % 10]
  }

  function Print(n: int): (s: seq<byte>)
    ensures s != []
  {
    if n < 0 then [MINUS] + Digits(-n) else Digits(n)
  }

  /** The number denoted by a run of digits; leading zeros are allowed. */
  function DigitsValue(s: seq<byte>): Option<nat> {
    if s == [] then Some(0)
    else
      match DigitsValue(s[..|s| - 1])
      case None => None
      case Some(v) =>
        var b := s[|s| - 1];
        if IsDigit(b) then Some(v * 10 + (b - ZERO)) else None
  }

  /** An optional sign, then at least one digit, then a range check. */
  function ParseI64(s: seq<byte>): (r: Option<int>)
    ensures r.Some? ==> s != [] && InI64(r.value)
  {
    if s == [] then None
    else
      var body := if s[0] == PLUS || s[0] == MINUS then s[1..] else s;
      if body == [] then None
      else
        match DigitsValue(body)
        case None => None
        case Some(v) =>
          var n: int := if s[0] == MINUS then 0 - v else v;
          if InI64(n) then Some(n) else None
  }

  lemma {:induction false} ValueOfDigits(n: nat)
    ensures DigitsValue(Digits(n)) == Some(n)
  {
    if n >= 10 {
      ValueOfDigits(n / 10);
      assert Digits(n)[..|Digits(n)| - 1] == Digits(n / 10);
    } else {
      assert Digits(n)[..0] == [];
    }
  }

  /** A canonical digit run is what its own value prints as. */
  lemma {:induction false} DigitsOfValue(s: seq<byte>)
    requires s != [] && AllDigits(s)
    requires |s| > 1 ==> s[0] != ZERO
    ensures DigitsValue(s).Some? && Digits(DigitsValue(s).value) == s
    ensures |s| > 1 || s[0] != ZERO ==> DigitsValue(s).value > 0
  {
    var init, last := s[..|s| - 1], s[|s| - 1] - ZERO;
    if |s| == 1 {
      assert init == [];
    } else {
      DigitsOfValue(init);
      var v, v0 := DigitsValue(s).value, DigitsValue(init).value;
      assert v == v0 * 10 + last;
      assert v / 10 == v0 && v % 10 == last;
      assert s == init + [s[|s| - 1]];
    }
  }

  /** Printing then parsing is the identity on all of i64. */
  lemma ParsePrint(n: int)
    ensures ParseI64(Print(n)) == if InI64(n) then Some(n) else None
  {
    if n < 0 {
      ValueOfDigits(-n);
      assert Print(n)[1..] == Digits(-n);
    } else {
      ValueOfDigits(n);
      assert IsDigit(Digits(n)[0]);
    }
  }

  /** The texts `Print` produces: no plus sign, no redundant zero, no negative zero. */
  predicate Canonical(s: seq<byte>) {
    var body := if s != [] && s[0] == MINUS then s[1..] else s;
    body != [] && AllDigits(body) && (body[0] == ZERO ==> s == [ZERO])
  }

  lemma PrintIsCanonical(n: int)
    ensures Canonical(Print(n))
  {
    var d := Digits(if n < 0 then -n else n);
    ValueOfDigits(if n < 0 then -n else n);
    assert IsDigit(d[0]);
    if n < 0 {
      assert Print(n)[1..] == d;
    }
  }

  /** Parsing then printing is the identity on exactly the canonical texts. */
  lemma PrintParse(s: seq<byte>)
    requires ParseI64(s).Some?
    ensures Print(ParseI64(s).value) == s <==> Canonical(s)
  {
    PrintIsCanonical(ParseI64(s).value);
    if Canonical(s) {
      var body := if s[0] == MINUS then s[1..] else s;
      DigitsOfValue(body);
      assert IsDigit(body[0]);
    }
  }

  lemma {:induction false} DigitsLength(n: nat, k: nat)
    requires 0 < k
    requires n < Pow10(k)
    ensures |Digits(n)| <= k
  {
    if n >= 10 {
      assert k > 1;
      DigitsLength(n / 10, k - 1);
    }
  }

  /** The text of an i64 is at most twenty bytes long. */
  lemma PrintLength(n: int)
    requires InI64(n)
    ensures |Print(n)| <= 20
  {
    assert Pow10(19) == 10000000000000000000 by {
      assert Pow10(4) == 10000;
      assert Pow10(8) == 100000000;
      assert Pow10(12) == 1000000000000;
      assert Pow10(16) == 10000000000000000;
    }
    DigitsLength(if n < 0 then -n else n, 19);
  }

  function Pow10(k: nat): nat { if k == 0 then 1 else 10 * Pow10(k - 1) }
}

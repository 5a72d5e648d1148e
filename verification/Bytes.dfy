/** Octets, ASCII constants, and the small wrapper types shared by the model. */
module Bytes {

  type byte = b: int | 0 <= b < 256

  const LF: byte := 10
  const CR: byte := 13
  const SPACE: byte := 32
  const DOLLAR: byte := 36
  const STAR: byte := 42
  const PLUS: byte := 43
  const MINUS: byte := 45
  const ZERO: byte := 48
  const COLON: byte := 58
  const QUESTION: byte := 63
  const OPEN_BRACKET: byte := 91
  const BACKSLASH: byte := 92
  const CLOSE_BRACKET: byte := 93
  const CARET: byte := 94

  const CRLF: seq<byte> := [CR, LF]

  datatype Option<+T> = None | Some(value: T)

  type Key = seq<byte>

  type Time = nat  // nanoseconds on the monotonic clock

  lemma Assoc<T>(a: seq<T>, b: seq<T>, c: seq<T>)
    ensures a + b + c == a + (b + c)
  {}

  lemma RemoveOne<K, V>(m: map<K, V>, k: K)
    requires k in m
    ensures |m - {k}| == |m| - 1
  {
    assert (m - {k}).Keys == m.Keys - {k};
    assert |(m - {k}).Keys| == |m.Keys| - 1;
  }

  /** `buf` holds exactly the bytes `w` at offset `pos`. */
  ghost predicate At(buf: seq<byte>, pos: nat, w: seq<byte>) {
    pos + |w| <= |buf| && buf[pos..pos + |w|] == w
  }

  lemma AtSplit(buf: seq<byte>, pos: nat, a: seq<byte>, b: seq<byte>)
    ensures At(buf, pos, a + b) <==> At(buf, pos, a) && At(buf, pos + |a|, b)
  {
    var ab := a + b;
    assert |ab| == |a| + |b| && ab[..|a|] == a && ab[|a|..] == b;
    if pos + |ab| <= |buf| {
      var w := buf[pos..pos + |ab|];
      assert w[..|a|] == buf[pos..pos + |a|] && w[|a|..] == buf[pos + |a|..pos + |ab|];
      assert w == w[..|a|] + w[|a|..];
    }
  }

  lemma AtEnd(a: seq<byte>, b: seq<byte>)
    ensures At(a + b, |a|, b)
  {}

  lemma AtIndex(buf: seq<byte>, pos: nat, w: seq<byte>, i: nat)
    requires At(buf, pos, w) && i < |w|
    ensures buf[pos + i] == w[i]
  {
    assert buf[pos..pos + |w|][i] == w[i];
  }

  /** The bytes of an ASCII text. */
  function Ascii(s: string): seq<byte> {
    seq(|s|, i requires 0 <= i < |s| => if s[i] < 128 as char then s[i] as int else 63)
  }

  /** Concatenation of a list of byte strings. */
  function Concat(parts: seq<seq<byte>>): seq<byte> {
    if parts == [] then [] else parts[0] + Concat(parts[1..])
  }

  lemma {:induction false} ConcatAppend(a: seq<seq<byte>>, b: seq<seq<byte>>)
    ensures Concat(a + b) == Concat(a) + Concat(b)
  {
    if a == [] {
      assert a + b == b;
    } else {
      assert (a + b)[1..] == a[1..] + b;
      ConcatAppend(a[1..], b);
    }
  }
}

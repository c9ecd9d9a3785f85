/** Character classes and number texts shared by the formatters and the
    regular-expression matchers: ASCII digits, Python whitespace, the exact value
    of a decimal literal, rounding, and Python's `.2f` / `.3f` formatting of
    a non-negative value that has already been rounded to 2 or 3 decimals. */
module Text {
  import opened Wrappers

  predicate IsDigit(c: char) { '0' <= c <= '9' }

  predicate AllDigits(s: string) { forall i :: 0 <= i < |s| ==> IsDigit(s[i]) }

  /** Python's `str.isspace()`, which is also what `\s` matches in a str pattern. */
  predicate IsSpace(c: char) {
    || c == ' ' || '\t' <= c <= '\r' || '\U{1c}' <= c <= '\U{1f}'
    || c == '\U{85}' || c == '\U{a0}' || c == '\U{1680}'
    || '\U{2000}' <= c <= '\U{200a}' || c == '\U{2028}' || c == '\U{2029}'
    || c == '\U{202f}' || c == '\U{205f}' || c == '\U{3000}'
  }

  predicate StartsWith(s: string, prefix: string) {
    |prefix| <= |s| && s[..|prefix|] == prefix
  }

  function DigitValue(c: char): (d: nat)
    requires IsDigit(c)
    ensures d < 10
  {
    c as int - '0' as int
  }

  function DigitChar(d: nat): (c: char)
    requires d < 10
    ensures IsDigit(c) && DigitValue(c) == d
  {
    ('0' as int + d) as char
  }

  /** The number a string of decimal digits denotes (most significant first). */
  function DigitsValue(ds: string): nat
    requires AllDigits(ds)
  {
    if |ds| == 0 then 0 else DigitsValue(ds[..|ds| - 1]) * 10 + DigitValue(ds[|ds| - 1])
  }

  lemma TwoDigitsValue(a: char, b: char)
    requires IsDigit(a) && IsDigit(b)
    ensures DigitsValue([a, b]) == DigitValue(a) * 10 + DigitValue(b)
  {
    assert [a][..0] == [];
    assert DigitsValue([a]) == DigitValue(a);
    assert [a, b][..1] == [a];
  }

  lemma ThreeDigitsValue(a: char, b: char, c: char)
    requires IsDigit(a) && IsDigit(b) && IsDigit(c)
    ensures DigitsValue([a, b, c]) == (DigitValue(a) * 10 + DigitValue(b)) * 10 + DigitValue(c)
  {
    assert [a, b, c][..2] == [a, b];
    TwoDigitsValue(a, b);
  }

  function Pow10(k: nat): (p: nat)
    ensures p >= 1
  {
    if k == 0 then 1 else 10 * Pow10(k - 1)
  }

  /** How Python prints a non-negative integer: decimal digits, no leading zero. */
  function NatDigits(n: nat): (ds: string)
    ensures |ds| > 0 && AllDigits(ds)
    ensures DigitsValue(ds) == n
    ensures |ds| > 1 ==> ds[0] != '0'
  {
    if n < 10 then [DigitChar(n)]
    else
      var ds := NatDigits(n / 10) + [DigitChar(n % 10)];
      assert ds[..|ds| - 1] == NatDigits(n / 10);
      ds
  }

  /** Length of the longest prefix of `s` whose characters all satisfy `p`: what
      a greedy `+` or `*` over the character class `p` takes. */
  function Span(s: string, p: char -> bool): (n: nat)
    ensures n <= |s|
    ensures forall i :: 0 <= i < n ==> p(s[i])
    ensures n < |s| ==> !p(s[n])
  {
    if |s| == 0 || !p(s[0]) then 0 else 1 + Span(s[1..], p)
  }

  /** The span stops exactly where a run of class characters meets the first
      character outside the class. */
  lemma {:induction false} SpanOfConcat(run: string, rest: string, p: char -> bool)
    requires forall i :: 0 <= i < |run| ==> p(run[i])
    requires |rest| == 0 || !p(rest[0])
    ensures Span(run + rest, p) == |run|
  {
    if |run| > 0 {
      assert (run + rest)[1..] == run[1..] + rest;
      SpanOfConcat(run[1..], rest, p);
    }
  }

  /** Exact value of the decimal literal `intPart.fracPart`; this is what Python's
      `float` returns for it, up to binary rounding. */
  function DecimalValue(intPart: string, fracPart: string): real
    requires AllDigits(intPart) && AllDigits(fracPart)
    ensures 0.0 <= DecimalValue(intPart, fracPart)
  {
    DigitsValue(intPart) as real + DigitsValue(fracPart) as real / Pow10(|fracPart|) as real
  }

  /** Rounding to the nearest integer, halves upwards. */
  function RoundHalfUp(x: real): (n: int)
    ensures x - 0.5 < n as real <= x + 0.5
  {
    (x + 0.5).Floor
  }

  lemma RoundHalfUpMonotone(x: real, y: real)
    requires x <= y
    ensures RoundHalfUp(x) <= RoundHalfUp(y)
  {
  }

  /** The last decimal digit of `n / 10` and the one of `n` make up `n % 100`. */
  lemma TwoLowDigits(n: nat)
    ensures (n / 10 % 10) * 10 + n % 10 == n % 100
  {
    var a := n / 10;
    assert n == 10 * a + n % 10;
    assert a == 10 * (a / 10) + a % 10;
    assert n == 100 * (a / 10) + (10 * (a % 10) + n % 10);
  }

  /** The last decimal digit of `n / 100` and the two of `n` make up `n % 1000`. */
  lemma ThreeLowDigits(n: nat)
    ensures (n / 100 % 10) * 100 + n % 100 == n % 1000
  {
    var a, r := n / 100, n % 100;
    var q, d := a / 10, a % 10;
    assert n == 100 * a + r;
    assert a == 10 * q + d;
    assert n == 1000 * q + (100 * d + r) && 100 * d + r < 1000;
  }

  /** The two digits after the point of `c / 100`. */
  function Frac2(c: nat): (ds: string)
    ensures |ds| == 2 && AllDigits(ds) && DigitsValue(ds) == c % 100
  {
    var ds := [DigitChar(c / 10 % 10), DigitChar(c % 10)];
    assert ds[..1] == [DigitChar(c / 10 % 10)] && ds[..1][..0] == [];
    assert DigitsValue(ds[..1]) == c / 10 % 10;
    TwoLowDigits(c);
    ds
  }

  /** The three digits after the point of `m / 1000`. */
  function Frac3(m: nat): (ds: string)
    ensures |ds| == 3 && AllDigits(ds) && DigitsValue(ds) == m % 1000
  {
    var ds := [DigitChar(m / 100 % 10), DigitChar(m / 10 % 10), DigitChar(m % 10)];
    assert ds[..2] == [DigitChar(m / 100 % 10), DigitChar(m / 10 % 10)];
    assert ds[..2][..1] == [DigitChar(m / 100 % 10)] && ds[..2][..1][..0] == [];
    assert DigitsValue(ds[..2][..1]) == m / 100 % 10;
    assert DigitsValue(ds[..2]) == (m / 100 % 10) * 10 + m / 10 % 10;
    TwoLowDigits(m);
    assert m / 10 / 10 == m / 100;
    ThreeLowDigits(m);
    ds
  }

  /** The value `c / 100` printed with two decimals. */
  function Fixed2(c: nat): string
  {
    NatDigits(c / 100) + "." + Frac2(c)
  }

  /** The value `m / 1000` printed with three decimals. */
  function Fixed3(m: nat): string
  {
    NatDigits(m / 1000) + "." + Frac3(m)
  }

  /** Reading the text `Fixed2(c)` back as a number gives exactly `c / 100`. */
  lemma Fixed2Value(c: nat)
    ensures DecimalValue(NatDigits(c / 100), Frac2(c)) == c as real / 100.0
  {
    assert Pow10(2) == 100;
    assert (c / 100) * 100 + c % 100 == c;
  }

  /** Reading the text `Fixed3(m)` back as a number gives exactly `m / 1000`. */
  lemma Fixed3Value(m: nat)
    ensures DecimalValue(NatDigits(m / 1000), Frac3(m)) == m as real / 1000.0
  {
    assert Pow10(3) == 1000;
    assert (m / 1000) * 1000 + m % 1000 == m;
  }

  /** The renderings of the items, one after the other. */
  function Join<T>(xs: seq<T>, render: T -> string): string
  {
    if |xs| == 0 then "" else Join(xs[..|xs| - 1], render) + render(xs[|xs| - 1])
  }

  lemma {:induction false} JoinAppend<T>(a: seq<T>, b: seq<T>, render: T -> string)
    ensures Join(a + b, render) == Join(a, render) + Join(b, render)
    decreases |b|
  {
    if |b| == 0 {
      assert a + b == a;
    } else {
      var b' := b[..|b| - 1];
      assert (a + b)[..|a + b| - 1] == a + b';
      JoinAppend(a, b', render);
    }
  }

  /** The first item's rendering comes first. */
  lemma JoinFirst<T>(xs: seq<T>, render: T -> string)
    requires |xs| > 0
    ensures Join(xs, render) == render(xs[0]) + Join(xs[1..], render)
  {
    var head := [xs[0]];
    assert Join(head, render) == render(xs[0]) by {
      assert head[..0] == [];
      assert "" + render(xs[0]) == render(xs[0]);
    }
    assert Join(xs, render) == Join(head, render) + Join(xs[1..], render) by {
      assert xs == head + xs[1..];
      JoinAppend(head, xs[1..], render);
    }
  }

  /** The literal `lit` at the head of `s`. */
  function MatchLiteral(s: string, lit: string): (rest: Option<string>)
    ensures rest.Some? <==> StartsWith(s, lit)
    ensures rest.Some? ==> s == lit + rest.value
  {
    if StartsWith(s, lit) then
      assert s == s[..|lit|] + s[|lit|..];
      Some(s[|lit|..])
    else None
  }

  lemma MatchLiteralComplete(lit: string, rest: string)
    ensures MatchLiteral(lit + rest, lit) == Some(rest)
  {
    assert (lit + rest)[..|lit|] == lit;
  }
}

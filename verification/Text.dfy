/** The string operations the modelled code relies on, for ASCII text. */
module Text {

  /** The ASCII characters that Python's strip removes. */
  const SPACES: set<char> := {
    ' ', '\t', '\n', '\r', '\U{0B}', '\U{0C}', '\U{1C}', '\U{1D}', '\U{1E}', '\U{1F}'
  }

  lemma SpacesExactly(c: char)
    ensures c in SPACES <==> 9 <= c as int <= 13 || 28 <= c as int <= 32
  {
    if 9 <= c as int <= 13 || 28 <= c as int <= 32 {
      assert c in "\t\n\U{0B}\U{0C}\r\U{1C}\U{1D}\U{1E}\U{1F} ";
    }
  }

  predicate IsBlank(s: string) {
    forall c | c in s :: c in SPACES
  }

  predicate EndsWith(s: string, t: string) {
    |t| <= |s| && s[|s| - |t|..] == t
  }

  function LowerChar(c: char): char {
    if 'A' <= c <= 'Z' then (c as int + 32) as char else c
  }

  function Lower(s: string): (r: string)
    ensures |r| == |s|
  {
    seq(|s|, i requires 0 <= i < |s| => LowerChar(s[i]))
  }

  // ----- Stripping -----

  function StripLeft(s: string, chars: set<char>): string {
    if s != "" && s[0] in chars then StripLeft(s[1..], chars) else s
  }

  function StripRight(s: string, chars: set<char>): string {
    if s != "" && s[|s| - 1] in chars then StripRight(s[..|s| - 1], chars) else s
  }

  function Strip(s: string, chars: set<char>): string {
    StripRight(StripLeft(s, chars), chars)
  }

  lemma {:induction false} StripLeftPrefix(p: string, s: string, chars: set<char>)
    requires forall c | c in p :: c in chars
    ensures StripLeft(p + s, chars) == StripLeft(s, chars)
  {
    if p == "" {
      assert p + s == s;
    } else {
      assert p[0] in p && (p + s)[1..] == p[1..] + s;
      StripLeftPrefix(p[1..], s, chars);
    }
  }

  lemma {:induction false} StripRightSuffix(s: string, q: string, chars: set<char>)
    requires forall c | c in q :: c in chars
    ensures StripRight(s + q, chars) == StripRight(s, chars)
  {
    if q == "" {
      assert s + q == s;
    } else {
      assert q[|q| - 1] in q && (s + q)[..|s| + |q| - 1] == s + q[..|q| - 1];
      StripRightSuffix(s, q[..|q| - 1], chars);
    }
  }

  /** Stripping removes any mixture of the characters from both ends and stops at the first other one. */
  lemma StripAround(p: string, s: string, q: string, chars: set<char>)
    requires forall c | c in p + q :: c in chars
    requires s != "" && s[0] !in chars && s[|s| - 1] !in chars
    ensures Strip(p + s + q, chars) == s
  {
    assert p + s + q == p + (s + q);
    forall c | c in p ensures c in chars { assert c in p + q; }
    forall c | c in q ensures c in chars { assert c in p + q; }
    StripLeftPrefix(p, s + q, chars);
    assert (s + q)[0] == s[0];
    StripRightSuffix(s, q, chars);
  }

  // ----- Decimal numbers -----

  predicate IsDigit(c: char) {
    '0' <= c <= '9'
  }

  predicate AllDigits(s: string) {
    forall c | c in s :: IsDigit(c)
  }

  function Digit(n: nat): (c: char)
    requires n < 10
    ensures IsDigit(c)
  {
    ('0' as int + n) as char
  }

  function Decimal(n: nat): string {
    if n < 10 then [Digit(n)] else Decimal(n / 10) + [Digit(n % 10)]
  }

  function ParseDecimal(s: string): nat
    requires AllDigits(s)
  {
    if s == "" then 0
    else
      assert IsDigit(s[|s| - 1]);
      10 * ParseDecimal(s[..|s| - 1]) + (s[|s| - 1] as int - '0' as int)
  }

  lemma {:induction false} ParsePrintedDecimal(n: nat)
    ensures Decimal(n) != "" && AllDigits(Decimal(n)) && ParseDecimal(Decimal(n)) == n
  {
    if n < 10 {
      assert ParseDecimal("") == 0;
      assert Decimal(n)[..0] == "";
    } else {
      ParsePrintedDecimal(n / 10);
      assert Decimal(n)[..|Decimal(n)| - 1] == Decimal(n / 10);
    }
  }

  function Pow10(n: nat): (p: real)
    ensures p > 0.0
  {
    if n == 0 then 1.0 else 10.0 * Pow10(n - 1)
  }

  /** The number after moving its point `n` places to the right. */
  function Shift(x: real, n: nat): real
    decreases n
  {
    if n == 0 then x else Shift(10.0 * x, n - 1)
  }

  lemma {:induction false} ShiftIsProduct(x: real, n: nat)
    ensures Shift(x, n) == x * Pow10(n)
    decreases n
  {
    if n > 0 {
      ShiftIsProduct(10.0 * x, n - 1);
      assert 10.0 * x * Pow10(n - 1) == x * (10.0 * Pow10(n - 1));
    }
  }

  lemma {:induction false} ShiftOnceMore(x: real, n: nat)
    ensures Shift(x, n + 1) == 10.0 * Shift(x, n)
    decreases n
  {
    if n > 0 {
      ShiftOnceMore(10.0 * x, n - 1);
    }
  }

  /** Shifting moves a fraction, given by its digits and their number, before the point. */
  lemma ShiftFraction(w: real, f: real, n: nat)
    ensures Shift(w + f / Pow10(n), n) == Shift(w, n) + f
  {
    ShiftIsProduct(w + f / Pow10(n), n);
    ShiftIsProduct(w, n);
    QuotientTimes(w, f, Pow10(n));
  }

  lemma QuotientTimes(w: real, f: real, p: real)
    requires p > 0.0
    ensures (w + f / p) * p == w * p + f
  {
    assert f / p * p == f;
  }

  lemma DigitsParse(n: nat)
    requires n < 10
    ensures ParseDecimal([Digit(n)]) == n && Digit(n) == "0123456789"[n]
  {
    assert [Digit(n)][..0] == "";
  }

  lemma AllDigitsConcatenated(s: string, t: string)
    ensures AllDigits(s + t) <==> AllDigits(s) && AllDigits(t)
  {
    assert forall c | c in s :: c in s + t;
    assert forall c | c in t :: c in s + t;
  }

  lemma ParseLast(s: string)
    requires AllDigits(s) && s != ""
    ensures AllDigits(s[..|s| - 1]) && IsDigit(s[|s| - 1])
    ensures ParseDecimal(s) == 10 * ParseDecimal(s[..|s| - 1]) + (s[|s| - 1] as int - '0' as int)
  {
    assert s[|s| - 1] in s;
  }

  /** Digits are worth their position: the first of two texts counts as many powers of ten as the second has digits. */
  lemma {:induction false} ParseConcatenated(s: string, t: string)
    requires AllDigits(s) && AllDigits(t)
    ensures AllDigits(s + t)
    ensures ParseDecimal(s + t) as real == Shift(ParseDecimal(s) as real, |t|) + ParseDecimal(t) as real
  {
    if t == "" {
      assert s + t == s;
    } else {
      var before, last := t[..|t| - 1], t[|t| - 1];
      AllDigitsConcatenated(s, t);
      ParseLast(t);
      ParseLast(s + t);
      assert (s + t)[..|s + t| - 1] == s + before && (s + t)[|s + t| - 1] == last;
      ParseConcatenated(s, before);
      ShiftOnceMore(ParseDecimal(s) as real, |before|);
    }
  }

  predicate NoLeadingZero(s: string) {
    |s| == 1 || (|s| > 1 && s[0] != '0')
  }

  lemma {:induction false} LeadingDigitCounts(s: string)
    requires AllDigits(s) && s != "" && s[0] != '0'
    ensures ParseDecimal(s) > 0
  {
    assert s[|s| - 1] in s && IsDigit(s[|s| - 1]);
    if |s| > 1 {
      LeadingDigitCounts(s[..|s| - 1]);
    } else {
      assert s[..0] == "";
    }
  }

  /** Decimal prints without leading zeros, so it also inverts parsing on such texts. */
  lemma {:induction false} PrintParsedDecimal(s: string)
    requires AllDigits(s) && NoLeadingZero(s)
    ensures Decimal(ParseDecimal(s)) == s
  {
    var before, last := s[..|s| - 1], s[|s| - 1];
    assert last in s && IsDigit(last);
    if |s| == 1 {
      assert before == "";
    } else {
      PrintParsedDecimal(before);
      LeadingDigitCounts(before);
      assert ParseDecimal(s) / 10 == ParseDecimal(before);
    }
  }
}

/**
 The text of a memory quantity: printed with its value rounded to one decimal, and parsed from a
 number followed by a unit. The parser removes the unit by stripping its letters as a set.
 */
module MemoryText {
  import opened Options
  import opened Memory
  import opened Text

  datatype Error = UnsupportedFormat | InvalidValue

  function Suffix(u: Unit): string {
    match u
    case Bytes => "b"
    case KiB => "kib"
    case MiB => "mib"
    case GiB => "gib"
    case TiB => "tib"
    case KB => "kb"
    case MB => "mb"
    case GB => "gb"
    case TB => "tb"
  }

  // ----- Printing -----

  function Abs(n: int): nat {
    if n < 0 then -n else n
  }

  /** The digits of a value, without its sign. */
  function Magnitude(x: real): string {
    if Integral(x) then Decimal(Abs(x.Floor))
    else
      var tenths := Abs(RoundHalfEven(10.0 * x));
      Decimal(tenths / 10) + "." + [Digit(tenths % 10)]
  }

  function ValueText(x: real): string {
    (if x < 0.0 then "-" else "") + Magnitude(x)
  }

  function Print(m: Memory): string {
    ValueText(m.value) + Suffix(m.unit)
  }

  // ----- Parsing -----

  /** The position of the first decimal point, or the length of the text. */
  function PointIn(s: string): (i: nat)
    ensures i <= |s| && '.' !in s[..i] && (i < |s| ==> s[i] == '.')
  {
    if s == "" || s[0] == '.' then 0 else 1 + PointIn(s[1..])
  }

  function ParseUnsigned(s: string): Option<real> {
    var i := PointIn(s);
    var whole, fraction := s[..i], if i < |s| then s[i + 1..] else "";
    if AllDigits(whole) && AllDigits(fraction) && |whole| + |fraction| > 0
    then Some(ParseDecimal(whole) as real + ParseDecimal(fraction) as real / Pow10(|fraction|))
    else None
  }

  function ParseNumber(s: string): Option<real> {
    if s != "" && s[0] == '-' then
      var x := ParseUnsigned(s[1..]);
      if x.Some? then Some(-x.value) else None
    else if s != "" && s[0] == '+' then ParseUnsigned(s[1..])
    else ParseUnsigned(s)
  }

  /** The unit named by the end of a text, tested in the parser's order. */
  function UnitOf(s: string): Option<Unit> {
    if EndsWith(s, "tib") then Some(TiB)
    else if EndsWith(s, "gib") then Some(GiB)
    else if EndsWith(s, "mib") then Some(MiB)
    else if EndsWith(s, "kib") then Some(KiB)
    else if EndsWith(s, "tb") then Some(TB)
    else if EndsWith(s, "gb") then Some(GB)
    else if EndsWith(s, "mb") then Some(MB)
    else if EndsWith(s, "kb") then Some(KB)
    else if EndsWith(s, "b") then Some(Bytes)
    else None
  }

  function Letters(u: Unit): set<char> {
    set c | c in Suffix(u)
  }

  /** Parses a text; `unit` applies to a bare number, and `default` answers for an empty text. */
  function Resolve(text: Option<string>, unit: Option<Unit>, default: Option<Memory>): Result<Option<Memory>, Error> {
    if text.None? || IsBlank(text.value) then Ok(default)
    else
      var value := Strip(Lower(text.value), SPACES);
      var named := UnitOf(value);
      if named.None? && unit.None? then Err(UnsupportedFormat)
      else
        var number := if named.Some? then Strip(value, Letters(named.value)) else value;
        var x := ParseNumber(Strip(number, SPACES));
        if x.None? then Err(InvalidValue)
        else Ok(Some(Memory(x.value, if named.Some? then named.value else unit.value)))
  }

  // ----- Parsing what was printed -----

  predicate NumberChar(c: char) {
    IsDigit(c) || c == '.' || c == '-' || c == '+'
  }

  /** A text of digits, points and signs. */
  predicate NumberText(s: string) {
    s != "" && forall c | c in s :: NumberChar(c)
  }

  lemma LettersAreLetters(u: Unit)
    ensures forall c | c in Letters(u) :: 'a' <= c <= 'z'
  {
  }

  lemma DiffersAt(s: string, t: string, i: nat)
    requires i < |t| && (|t| <= |s| ==> s[|s| - |t| + i] != t[i])
    ensures !EndsWith(s, t)
  {
    if |t| <= |s| {
      assert s[|s| - |t|..][i] == s[|s| - |t| + i];
    }
  }

  /** A text that ends in a binary unit does not end in an earlier tested one. */
  lemma EndsInBinaryUnit(s: string, u: Unit)
    requires |Suffix(u)| == 3
    ensures var t := s + Suffix(u);
      && EndsWith(t, Suffix(u))
      && (u != TiB ==> !EndsWith(t, "tib")) && (u != GiB ==> !EndsWith(t, "gib")) && (u != MiB ==> !EndsWith(t, "mib"))
  {
    var t := s + Suffix(u);
    if u != TiB { DiffersAt(t, "tib", 0); }
    if u != GiB { DiffersAt(t, "gib", 0); }
    if u != MiB { DiffersAt(t, "mib", 0); }
  }

  /** A text whose last letter but one is not an i does not end in a binary unit. */
  lemma EndsInNoBinaryUnit(t: string)
    requires |t| >= 2 && t[|t| - 2] != 'i'
    ensures !EndsWith(t, "tib") && !EndsWith(t, "gib") && !EndsWith(t, "mib") && !EndsWith(t, "kib")
  {
    DiffersAt(t, "tib", 1);
    DiffersAt(t, "gib", 1);
    DiffersAt(t, "mib", 1);
    DiffersAt(t, "kib", 1);
  }

  lemma EndsInDecimalUnit(t: string, u: Unit)
    requires |Suffix(u)| <= 2 && EndsWith(t, Suffix(u)) && |t| >= 2
    requires u != Bytes ==> t[|t| - 2] == Suffix(u)[0]
    requires u == Bytes ==> !('a' <= t[|t| - 2] <= 'z')
    ensures (u != TB ==> !EndsWith(t, "tb")) && (u != GB ==> !EndsWith(t, "gb"))
    ensures (u != MB ==> !EndsWith(t, "mb")) && (u != KB ==> !EndsWith(t, "kb"))
  {
    if u != TB { DiffersAt(t, "tb", 0); }
    if u != GB { DiffersAt(t, "gb", 0); }
    if u != MB { DiffersAt(t, "mb", 0); }
    if u != KB { DiffersAt(t, "kb", 0); }
  }

  lemma UnitOfText(s: string, u: Unit)
    requires s != "" && !('a' <= s[|s| - 1] <= 'z')
    ensures UnitOf(s + Suffix(u)) == Some(u)
  {
    var t := s + Suffix(u);
    assert EndsWith(t, Suffix(u));
    if |Suffix(u)| == 3 {
      EndsInBinaryUnit(s, u);
    } else {
      assert t[|t| - 2] == if u == Bytes then s[|s| - 1] else Suffix(u)[0];
      EndsInNoBinaryUnit(t);
      EndsInDecimalUnit(t, u);
    }
  }

  /** Lower-case text without spaces at its ends is its own normal form. */
  lemma AlreadyNormal(text: string)
    requires text != "" && text[0] !in SPACES && text[|text| - 1] !in SPACES
    requires forall c | c in text :: LowerChar(c) == c
    ensures !IsBlank(text) && Strip(Lower(text), SPACES) == text
  {
    assert text[0] in text;
    forall i | 0 <= i < |text| ensures Lower(text)[i] == text[i] {
      assert text[i] in text;
    }
    assert Lower(text) == text;
    StripAround("", text, "", SPACES);
    assert "" + text + "" == text;
  }

  /** A number with letters of the unit before it and spaces behind it. */
  predicate Decorated(p: string, s: string, q: string, u: Unit) {
    NumberText(s) && IsBlank(q) && forall c | c in p :: c in Letters(u)
  }

  lemma DecoratedIsNormal(text: string, p: string, s: string, q: string, u: Unit)
    requires Decorated(p, s, q, u) && text == p + (s + q) + Suffix(u)
    ensures !IsBlank(text) && Strip(Lower(text), SPACES) == text
  {
    LettersAreLetters(u);
    forall c | c in text ensures LowerChar(c) == c {
      assert c in p || c in s || c in q || c in Letters(u);
    }
    assert text[0] == if p != "" then p[0] else s[0];
    assert p != "" ==> p[0] in p;
    assert s[0] in s && text[|text| - 1] == Suffix(u)[|Suffix(u)| - 1];
    assert Suffix(u)[|Suffix(u)| - 1] in Letters(u);
    AlreadyNormal(text);
  }

  lemma NumberLeftByStrip(p: string, s: string, q: string, u: Unit)
    requires Decorated(p, s, q, u)
    ensures Strip(p + (s + q) + Suffix(u), Letters(u)) == s + q && Strip(s + q, SPACES) == s
  {
    LettersAreLetters(u);
    assert s[0] in s && s[|s| - 1] in s && NumberChar(s[0]) && NumberChar(s[|s| - 1]);
    var last := (s + q)[|s + q| - 1];
    assert last == if q != "" then q[|q| - 1] else s[|s| - 1];
    assert q != "" ==> q[|q| - 1] in q;
    StripAround(p, s + q, Suffix(u), Letters(u));
    StripAround("", s, q, SPACES);
    assert "" + s + q == s + q;
  }

  /**
   Spaces between the number and its unit are ignored. Because the unit is stripped as a set of letters,
   any mixture of the unit's letters in front of the number is ignored as well.
   */
  lemma ResolveIgnoresLeadingLetters(text: string, p: string, s: string, q: string, u: Unit, unit: Option<Unit>,
                                     default: Option<Memory>)
    requires Decorated(p, s, q, u) && text == p + (s + q) + Suffix(u)
    ensures Resolve(Some(text), unit, default) ==
      match ParseNumber(s) { case Some(x) => Ok(Some(Memory(x, u))) case None => Err(InvalidValue) }
  {
    DecoratedIsNormal(text, p, s, q, u);
    var before := p + (s + q);
    assert before[|before| - 1] == if q != "" then q[|q| - 1] else s[|s| - 1];
    assert s[|s| - 1] in s && (q != "" ==> q[|q| - 1] in q);
    UnitOfText(before, u);
    NumberLeftByStrip(p, s, q, u);
  }

  lemma LowerOfParts(s: string, t: string)
    ensures Lower(s + t) == Lower(s) + Lower(t)
  {
  }

  /** Spaces around a text and the case of its letters make no difference. */
  lemma ResolveNormalizes(p: string, text: string, q: string, other: string, unit: Option<Unit>,
                          default: Option<Memory>)
    requires IsBlank(p + q) && text != "" && text[0] !in SPACES && text[|text| - 1] !in SPACES
    requires Lower(other) == Lower(text)
    ensures Resolve(Some(p + other + q), unit, default) == Resolve(Some(text), unit, default)
  {
    var low := Lower(text);
    assert Lower(p + other + q) == p + low + q by {
      LowerOfParts(p + other, q);
      LowerOfParts(p, other);
      BlankIsLower(p, p + q);
      BlankIsLower(q, p + q);
    }
    assert low[0] == LowerChar(text[0]) && low[|low| - 1] == LowerChar(text[|text| - 1]);
    StripAround(p, low, q, SPACES);
    StripAround("", low, "", SPACES);
    assert "" + low + "" == low;
    assert text[0] in text;
    assert !IsBlank(p + other + q) by {
      assert LowerChar(other[0]) == low[0];
      assert other[0] == (p + other + q)[|p|];
      assert other[0] in p + other + q;
    }
  }

  lemma BlankIsLower(s: string, t: string)
    requires IsBlank(t) && forall c | c in s :: c in t
    ensures Lower(s) == s
  {
    forall i | 0 <= i < |s| ensures LowerChar(s[i]) == s[i] {
      assert s[i] in s;
    }
  }

  lemma {:induction false} PointAfter(whole: string, rest: string)
    requires AllDigits(whole) && (rest == "" || rest[0] == '.')
    ensures PointIn(whole + rest) == |whole|
  {
    if whole == "" {
      assert whole + rest == rest;
    } else {
      assert IsDigit(whole[0]);
      assert (whole + rest)[1..] == whole[1..] + rest;
      PointAfter(whole[1..], rest);
    }
  }

  lemma ParsePrintedWhole(n: nat)
    ensures ParseUnsigned(Decimal(n)) == Some(n as real)
  {
    ParsePrintedDecimal(n);
    PointAfter(Decimal(n), "");
    assert Decimal(n) + "" == Decimal(n);
    assert Decimal(n)[..|Decimal(n)|] == Decimal(n);
  }

  lemma ParsePrintedTenths(n: nat)
    ensures ParseUnsigned(Decimal(n / 10) + "." + [Digit(n % 10)]) == Some(n as real / 10.0)
  {
    var whole, digit := Decimal(n / 10), [Digit(n % 10)];
    ParsePrintedDecimal(n / 10);
    PointAfter(whole, "." + digit);
    var s := whole + "." + digit;
    assert s == whole + ("." + digit);
    assert s[..|whole|] == whole && s[|whole| + 1..] == digit;
    assert ParseDecimal(digit) == n % 10 by {
      assert digit[..0] == "";
    }
    assert Pow10(1) == 10.0 * Pow10(0);
  }

  lemma MagnitudeIsNumberText(x: real)
    ensures NumberText(Magnitude(x)) && IsDigit(Magnitude(x)[0])
  {
    var whole := if Integral(x) then Abs(x.Floor) else Abs(RoundHalfEven(10.0 * x)) / 10;
    ParsePrintedDecimal(whole);
    assert Decimal(whole)[0] in Decimal(whole) && Decimal(whole)[|Decimal(whole)| - 1] in Decimal(whole);
  }

  lemma ParsePrintedMagnitude(x: real)
    ensures ParseUnsigned(Magnitude(x)) == Some(if x < 0.0 then -Value(x) else Value(x))
  {
    if Integral(x) {
      ParsePrintedWhole(Abs(x.Floor));
    } else {
      ParsePrintedTenths(Abs(RoundHalfEven(10.0 * x)));
      RoundKeepsSign(10.0 * x);
    }
  }

  lemma RoundKeepsSign(x: real)
    ensures x <= 0.0 ==> RoundHalfEven(x) <= 0
    ensures x >= 0.0 ==> RoundHalfEven(x) >= 0
  {
  }

  lemma ValueTextIsNumber(x: real)
    ensures NumberText(ValueText(x))
    ensures ParseNumber(ValueText(x)) == Some(Value(x))
  {
    MagnitudeIsNumberText(x);
    ParsePrintedMagnitude(x);
    var body := Magnitude(x);
    if x < 0.0 {
      assert ValueText(x) == "-" + body;
      assert ("-" + body)[1..] == body;
    } else {
      assert ValueText(x) == "" + body == body;
    }
  }

  lemma ResolveNumber(text: string, s: string, gap: string, u: Unit, x: real, unit: Option<Unit>,
                      default: Option<Memory>)
    requires text == s + gap + Suffix(u) && NumberText(s) && IsBlank(gap) && ParseNumber(s) == Some(x)
    ensures Resolve(Some(text), unit, default) == Ok(Some(Memory(x, u)))
  {
    assert text == "" + (s + gap) + Suffix(u);
    ResolveIgnoresLeadingLetters(text, "", s, gap, u, unit, default);
  }

  /** Parsing a printed quantity gives its unit and its value rounded to one decimal, for all units. */
  lemma ResolvePrinted(m: Memory, unit: Option<Unit>, default: Option<Memory>)
    ensures Resolve(Some(Print(m)), unit, default) == Ok(Some(Memory(Value(m.value), m.unit)))
  {
    ValueTextIsNumber(m.value);
    assert ValueText(m.value) + "" == ValueText(m.value);
    ResolveNumber(Print(m), ValueText(m.value), "", m.unit, Value(m.value), unit, default);
  }

  // ----- Numerals -----

  datatype Sign = Plus | Minus | Unsigned

  function SignText(sign: Sign): string {
    match sign
    case Plus => "+"
    case Minus => "-"
    case Unsigned => ""
  }

  function NumeralText(sign: Sign, whole: string, point: bool, fraction: string): string {
    SignText(sign) + (whole + if point then "." + fraction else "")
  }

  /** At least one digit, before or after the point; without a point there is no fraction. */
  predicate IsNumeral(whole: string, point: bool, fraction: string) {
    AllDigits(whole) && AllDigits(fraction) && |whole| + |fraction| > 0 && (!point ==> fraction == "")
  }

  function SignedValue(sign: Sign, x: real): real {
    if sign == Minus then -x else x
  }

  /** The number denoted: with its point moved behind the last decimal it is the integer of all digits. */
  predicate Denotes(sign: Sign, whole: string, fraction: string, x: real)
    requires AllDigits(whole + fraction)
  {
    Shift(SignedValue(sign, x), |fraction|) == ParseDecimal(whole + fraction) as real
  }

  lemma SplitAtPoint(whole: string, point: bool, fraction: string)
    requires IsNumeral(whole, point, fraction)
    ensures var s := whole + if point then "." + fraction else "";
      && s != "" && PointIn(s) == |whole| && s[..|whole|] == whole
      && (if point then |whole| < |s| && s[|whole| + 1..] == fraction else |whole| == |s|)
      && (IsDigit(s[0]) || s[0] == '.')
  {
    var rest := if point then "." + fraction else "";
    var s := whole + rest;
    PointAfter(whole, rest);
    assert s[..|whole|] == whole;
    if whole != "" {
      assert whole[0] in whole && s[0] == whole[0];
    }
    if point {
      assert s[|whole| + 1..] == fraction;
    }
  }

  lemma ParseUnsignedNumeral(s: string, whole: string, point: bool, fraction: string)
    requires IsNumeral(whole, point, fraction) && s == whole + if point then "." + fraction else ""
    ensures ParseUnsigned(s) == Some(ParseDecimal(whole) as real + ParseDecimal(fraction) as real / Pow10(|fraction|))
  {
    SplitAtPoint(whole, point, fraction);
  }

  lemma UnsignedNumeralDenotes(s: string, whole: string, point: bool, fraction: string)
    requires IsNumeral(whole, point, fraction) && s == whole + if point then "." + fraction else ""
    ensures ParseUnsigned(s).Some?
    ensures AllDigits(whole + fraction) && Denotes(Unsigned, whole, fraction, ParseUnsigned(s).value)
  {
    ParseUnsignedNumeral(s, whole, point, fraction);
    ParseConcatenated(whole, fraction);
    ShiftFraction(ParseDecimal(whole) as real, ParseDecimal(fraction) as real, |fraction|);
  }

  lemma ParseSigned(sign: Sign, s: string)
    requires s != "" && (IsDigit(s[0]) || s[0] == '.') && ParseUnsigned(s).Some?
    ensures ParseNumber(SignText(sign) + s) == Some(SignedValue(sign, ParseUnsigned(s).value))
  {
    if sign == Unsigned {
      assert "" + s == s;
    } else {
      assert (SignText(sign) + s)[1..] == s;
    }
  }

  lemma DenotesSigned(sign: Sign, whole: string, fraction: string, x: real)
    requires AllDigits(whole + fraction) && Denotes(Unsigned, whole, fraction, x)
    ensures Denotes(sign, whole, fraction, SignedValue(sign, x))
  {
    assert SignedValue(sign, SignedValue(sign, x)) == x == SignedValue(Unsigned, x);
  }

  /** Every numeral is parsed, with either sign or none, as the number it denotes. */
  lemma ParseNumeral(sign: Sign, whole: string, point: bool, fraction: string)
    requires IsNumeral(whole, point, fraction)
    ensures var x := ParseNumber(NumeralText(sign, whole, point, fraction));
      && x.Some? && AllDigits(whole + fraction) && Denotes(sign, whole, fraction, x.value)
  {
    var s := whole + if point then "." + fraction else "";
    UnsignedNumeralDenotes(s, whole, point, fraction);
    SplitAtPoint(whole, point, fraction);
    ParseSigned(sign, s);
    DenotesSigned(sign, whole, fraction, ParseUnsigned(s).value);
  }

  /** Nothing else is parsed. */
  lemma NumeralsExactly(s: string)
    ensures ParseNumber(s).Some? <==> IsNumeralText(s)
  {
    if ParseNumber(s).Some? {
      NumeralOf(s);
    }
    if IsNumeralText(s) {
      var sign, whole, point, fraction :|
        IsNumeral(whole, point, fraction) && s == NumeralText(sign, whole, point, fraction);
      ParseNumeral(sign, whole, point, fraction);
    }
  }

  ghost predicate IsNumeralText(s: string) {
    exists sign, whole, point, fraction ::
      IsNumeral(whole, point, fraction) && s == NumeralText(sign, whole, point, fraction)
  }

  lemma NumeralOf(s: string)
    requires ParseNumber(s).Some?
    ensures IsNumeralText(s)
  {
    var sign := if s[0] == '-' then Minus else if s[0] == '+' then Plus else Unsigned;
    var t := if sign == Unsigned then s else s[1..];
    var whole, point, fraction := UnsignedNumeralOf(t);
    assert s == SignText(sign) + t;
    assert s == NumeralText(sign, whole, point, fraction);
  }

  lemma UnsignedNumeralOf(t: string) returns (whole: string, point: bool, fraction: string)
    requires ParseUnsigned(t).Some?
    ensures IsNumeral(whole, point, fraction) && t == whole + if point then "." + fraction else ""
  {
    var i := PointIn(t);
    whole, point := t[..i], i < |t|;
    if point {
      fraction := t[i + 1..];
      assert t[i..] == "." + fraction;
      assert t == t[..i] + t[i..];
    } else {
      fraction := "";
      assert t == whole + "";
    }
  }

  lemma NumeralIsNumberText(sign: Sign, whole: string, point: bool, fraction: string)
    requires IsNumeral(whole, point, fraction)
    ensures NumberText(NumeralText(sign, whole, point, fraction))
  {
    var s := NumeralText(sign, whole, point, fraction);
    forall c | c in s ensures NumberChar(c) {
      assert c in SignText(sign) || c in whole || c == '.' || c in fraction;
    }
  }

  /**
   A numeral followed by a unit, with or without spaces between them, is parsed as the quantity it
   denotes, whatever unit and default are passed.
   */
  lemma ResolveNumeral(sign: Sign, whole: string, point: bool, fraction: string, gap: string, u: Unit,
                       unit: Option<Unit>, default: Option<Memory>)
    requires IsNumeral(whole, point, fraction) && IsBlank(gap)
    ensures var r := Resolve(Some(NumeralText(sign, whole, point, fraction) + gap + Suffix(u)), unit, default);
      && r.Ok? && r.value.Some? && r.value.value.unit == u
      && AllDigits(whole + fraction) && Denotes(sign, whole, fraction, r.value.value.value)
  {
    var s := NumeralText(sign, whole, point, fraction);
    NumeralIsNumberText(sign, whole, point, fraction);
    ParseNumeral(sign, whole, point, fraction);
    ResolveNumber(s + gap + Suffix(u), s, gap, u, ParseNumber(s).value, unit, default);
  }

  lemma EndsAlike(s: string, t: string)
    requires t != "" && EndsWith(s, t)
    ensures s != "" && s[|s| - 1] == t[|t| - 1]
  {
    assert s[|s| - |t|..][|t| - 1] == s[|s| - 1];
  }

  lemma NamedUnitEndsText(s: string)
    requires UnitOf(s).Some?
    ensures EndsWith(s, Suffix(UnitOf(s).value))
  {
    match UnitOf(s).value {
      case TiB => assert EndsWith(s, "tib");
      case GiB => assert EndsWith(s, "gib");
      case MiB => assert EndsWith(s, "mib");
      case KiB => assert EndsWith(s, "kib");
      case TB => assert EndsWith(s, "tb");
      case GB => assert EndsWith(s, "gb");
      case MB => assert EndsWith(s, "mb");
      case KB => assert EndsWith(s, "kb");
      case Bytes => assert EndsWith(s, "b");
    }
  }

  lemma LetterNamesUnit(s: string)
    requires EndsWith(s, "b")
    ensures UnitOf(s).Some?
  {
  }

  lemma SuffixEndsInB(u: Unit)
    ensures Suffix(u) != "" && Suffix(u)[|Suffix(u)| - 1] == 'b'
  {
  }

  lemma UnitNamedExactly(s: string)
    ensures UnitOf(s).Some? <==> s != "" && s[|s| - 1] == 'b'
  {
    var unit := UnitOf(s);
    if unit.Some? {
      NamedUnitEndsText(s);
      SuffixEndsInB(unit.value);
      EndsAlike(s, Suffix(unit.value));
    } else if s != "" && s[|s| - 1] == 'b' {
      assert s[|s| - 1..] == "b";
      LetterNamesUnit(s);
    }
  }

  lemma BareNumberIsNormal(s: string)
    requires NumberText(s)
    ensures !IsBlank(s) && Strip(Lower(s), SPACES) == s && Strip(s, SPACES) == s && s[|s| - 1] != 'b'
  {
    assert s[0] in s && s[|s| - 1] in s && NumberChar(s[0]) && NumberChar(s[|s| - 1]);
    AlreadyNormal(s);
    StripAround("", s, "", SPACES);
    assert "" + s + "" == s;
  }

  lemma ResolveBareNumber(s: string, unit: Option<Unit>, default: Option<Memory>)
    requires NumberText(s)
    ensures Resolve(Some(s), unit, default) ==
      if unit.None? then Err(UnsupportedFormat)
      else match ParseNumber(s) { case Some(x) => Ok(Some(Memory(x, unit.value))) case None => Err(InvalidValue) }
  {
    BareNumberIsNormal(s);
    UnitNamedExactly(s);
  }

  /** A bare numeral takes the unit passed; without one the format is not supported. */
  lemma ResolveBareNumeral(sign: Sign, whole: string, point: bool, fraction: string,
                           unit: Option<Unit>, default: Option<Memory>)
    requires IsNumeral(whole, point, fraction)
    ensures var r := Resolve(Some(NumeralText(sign, whole, point, fraction)), unit, default);
      if unit.None? then r == Err(UnsupportedFormat)
      else
        && r.Ok? && r.value.Some? && r.value.value.unit == unit.value
        && AllDigits(whole + fraction) && Denotes(sign, whole, fraction, r.value.value.value)
  {
    NumeralIsNumberText(sign, whole, point, fraction);
    ParseNumeral(sign, whole, point, fraction);
    ResolveBareNumber(NumeralText(sign, whole, point, fraction), unit, default);
  }

  /** The default answers for a missing or blank text, and only for that. */
  lemma ResolveBlankExactly(text: Option<string>, unit: Option<Unit>, default: Option<Memory>)
    ensures text.None? || IsBlank(text.value) ==> Resolve(text, unit, default) == Ok(default)
    ensures default.None? && Resolve(text, unit, default) == Ok(None) ==> text.None? || IsBlank(text.value)
    ensures Resolve(text, unit, default) == Err(UnsupportedFormat) <==>
      && text.Some? && !IsBlank(text.value) && unit.None?
      && var value := Strip(Lower(text.value), SPACES); value == "" || value[|value| - 1] != 'b'
  {
    if text.Some? {
      UnitNamedExactly(Strip(Lower(text.value), SPACES));
    }
  }

  // ----- Printing what was parsed -----

  /** No leading zeros, no decimal but one that is not zero, and no sign but the minus of a number that is not zero. */
  predicate Canonical(sign: Sign, whole: string, point: bool, fraction: string) {
    && IsNumeral(whole, point, fraction) && NoLeadingZero(whole) && sign != Plus
    && (point ==> |fraction| == 1 && fraction != "0")
    && (sign == Minus ==> point || whole != "0")
  }

  lemma WholeMagnitude(x: real, n: nat)
    requires x == n as real || x == -(n as real)
    ensures Magnitude(x) == Decimal(n)
  {
    assert Abs(x.Floor) == n;
  }

  lemma PrintedWhole(sign: Sign, whole: string, x: real)
    requires Canonical(sign, whole, false, "") && x == SignedValue(sign, ParseDecimal(whole) as real)
    ensures ValueText(x) == NumeralText(sign, whole, false, "")
  {
    PrintParsedDecimal(whole);
    if sign == Minus {
      assert |whole| == 1 && whole[0] == '0' ==> whole == "0";
      LeadingDigitCounts(whole);
    }
    WholeMagnitude(x, ParseDecimal(whole));
    assert whole == whole + "";
  }

  lemma PrintedTenths(sign: Sign, whole: string, d: nat, x: real)
    requires 0 < d < 10 && Canonical(sign, whole, true, [Digit(d)])
    requires 10.0 * x == SignedValue(sign, (10 * ParseDecimal(whole) + d) as real)
    ensures ValueText(x) == NumeralText(sign, whole, true, [Digit(d)])
  {
    var tenths := 10 * ParseDecimal(whole) + d;
    PrintParsedDecimal(whole);
    RoundFindsTenths(10.0 * x, if sign == Minus then -tenths else tenths);
    assert !Integral(x);
    assert Magnitude(x) == whole + "." + [Digit(d)] == whole + ("." + [Digit(d)]);
  }

  lemma PrintedNumeral(sign: Sign, whole: string, point: bool, fraction: string, x: real)
    requires Canonical(sign, whole, point, fraction) && AllDigits(whole + fraction) && Denotes(sign, whole, fraction, x)
    ensures ValueText(x) == NumeralText(sign, whole, point, fraction)
  {
    if point {
      assert fraction[0] in fraction && IsDigit(fraction[0]);
      var d := fraction[0] as int - '0' as int;
      DigitsParse(d);
      assert fraction == [Digit(d)];
      ParseConcatenated(whole, fraction);
      assert Shift(SignedValue(sign, x), 1) == Shift(10.0 * SignedValue(sign, x), 0);
      assert Shift(ParseDecimal(whole) as real, 1) == Shift(10.0 * ParseDecimal(whole) as real, 0);
      PrintedTenths(sign, whole, d, x);
    } else {
      assert whole + fraction == whole;
      PrintedWhole(sign, whole, x);
    }
  }

  /** Printing inverts parsing on canonical texts. */
  lemma PrintInvertsResolve(sign: Sign, whole: string, point: bool, fraction: string, u: Unit,
                            unit: Option<Unit>, default: Option<Memory>)
    requires Canonical(sign, whole, point, fraction)
    ensures var text := NumeralText(sign, whole, point, fraction) + Suffix(u);
      var r := Resolve(Some(text), unit, default);
      r.Ok? && r.value.Some? && Print(r.value.value) == text
  {
    var text := NumeralText(sign, whole, point, fraction) + Suffix(u);
    ResolveNumeral(sign, whole, point, fraction, "", u, unit, default);
    assert NumeralText(sign, whole, point, fraction) + "" + Suffix(u) == text;
    PrintedNumeral(sign, whole, point, fraction, Resolve(Some(text), unit, default).value.value.value);
  }

  /** A fractional value is printed with one decimal, of the nearest tenths, even at a tie. */
  lemma PrintedTenthsExactly(m: Memory, k: int)
    requires !Integral(m.value)
    ensures var sign := if m.value < 0.0 then "-" else "";
      Nearest(10.0 * m.value, k) ==>
      Print(m) == sign + (Decimal(Abs(k) / 10) + "." + [Digit(Abs(k) % 10)]) + Suffix(m.unit)
  {
    RoundExactly(10.0 * m.value, k);
  }

  // ----- Repeated round trips -----

  lemma OneDecimalIsValue(k: int)
    ensures Value(OneDecimal(k)) == OneDecimal(k)
  {
    ValueInTenths(OneDecimal(k));
    RoundFindsTenths(10.0 * OneDecimal(k), k);
  }

  /** Printing and parsing once more changes nothing, and exactly the values with at most one decimal survive. */
  lemma RoundTripStable(m: Memory, unit: Option<Unit>, default: Option<Memory>)
    ensures var once := Memory(Value(m.value), m.unit);
      Resolve(Some(Print(once)), unit, default) == Ok(Some(once))
    ensures (exists k: int :: m.value == OneDecimal(k)) <==> Resolve(Some(Print(m)), unit, default) == Ok(Some(m))
  {
    var x := m.value;
    ValueInTenths(x);
    var k := RoundHalfEven(10.0 * x);
    assert Value(x) == OneDecimal(k);
    OneDecimalIsValue(k);
    ResolvePrinted(m, unit, default);
    ResolvePrinted(Memory(Value(x), m.unit), unit, default);
    if j: int :| x == OneDecimal(j) {
      OneDecimalIsValue(j);
    }
  }

  lemma AppendInjective(s: string, t: string, suffix: string)
    ensures s + suffix == t + suffix <==> s == t
  {
    if s + suffix == t + suffix {
      assert s == (s + suffix)[..|s|] == t;
    }
  }

  lemma PointOnlyInFractions(x: real)
    ensures '.' in ValueText(x) <==> !Integral(x)
  {
    if Integral(x) {
      ParsePrintedDecimal(Abs(x.Floor));
    } else {
      assert Magnitude(x)[|Magnitude(x)| - 2] == '.';
      assert ValueText(x)[|ValueText(x)| - 2] == '.';
    }
  }

  /** The text, unlike the value, can change once: exactly when a fractional value rounds to an integral one. */
  lemma PrintedTextStableExactly(m: Memory)
    ensures Print(Memory(Value(m.value), m.unit)) == Print(m) <==> Integral(m.value) || !Integral(Value(m.value))
  {
    var x, y := m.value, Value(m.value);
    AppendInjective(ValueText(y), ValueText(x), Suffix(m.unit));
    PointOnlyInFractions(x);
    PointOnlyInFractions(y);
    if !Integral(x) && !Integral(y) {
      ValueInTenths(x);
      var k := RoundHalfEven(10.0 * x);
      RoundFindsTenths(10.0 * y, k);
      RoundKeepsSign(10.0 * x);
      assert k == 0 ==> y == 0.0;
      assert Integral(0.0);
      assert Magnitude(y) == Magnitude(x);
    }
  }
}

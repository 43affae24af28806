/** Python 2's `decimal.Decimal` as the backend uses it for a float constant: reading the
    literal's text (`Decimal(text)`), writing the value back (`str(d)`, which `'%s' % d`
    calls) and its truth value. Arithmetic, contexts and rounding are not used. */
module Decimals {
  import opened Wrappers
  import opened Text

  /** `(-1)^negative * coefficient * 10^exponent`, an infinity, or a quiet or signalling NaN
      with its diagnostic digits. `coefficient` and `payload` are the digit strings the
      value keeps (its `_int`). */
  datatype Decimal =
    | Finite(negative: bool, coefficient: string, exponent: int)
    | Infinity(negative: bool)
    | NaN(negative: bool, signalling: bool, payload: string)

  /** The values reading text produces: a coefficient is digits without a leading zero, or
      exactly `0`; a payload is digits without a leading zero, possibly none. */
  predicate Canonical(d: Decimal) {
    match d
    case Finite(_, c, _) => CoefficientForm(c)
    case Infinity(_) => true
    case NaN(_, _, p) => AllDigits(p) && (|p| == 0 || p[0] != '0')
  }

  /** Digits without a leading zero, or exactly `0`: what `str(int(s))` writes. */
  predicate CoefficientForm(c: string) {
    |c| >= 1 && AllDigits(c) && (c == "0" || c[0] != '0')
  }

  /** Python truth value: every special value is true, a finite value when its coefficient
      is not zero. */
  predicate Nonzero(d: Decimal) {
    !d.Finite? || d.coefficient != "0"
  }

  // ---------------------------------------------------------------- reading

  /** `s.lstrip()`. */
  function StripLeft(s: string): (r: string)
    ensures |r| <= |s| && r == s[|s| - |r|..]
    ensures |r| == 0 || !IsSpace(r[0])
    ensures forall i :: 0 <= i < |s| - |r| ==> IsSpace(s[i])
    decreases |s|
  {
    if |s| > 0 && IsSpace(s[0]) then StripLeft(s[1..]) else s
  }

  /** `s.rstrip()`. */
  function StripRight(s: string): (r: string)
    ensures |r| <= |s| && r == s[..|r|]
    ensures |r| == 0 || !IsSpace(r[|r| - 1])
    ensures forall i :: |r| <= i < |s| ==> IsSpace(s[i])
    decreases |s|
  {
    if |s| > 0 && IsSpace(s[|s| - 1]) then StripRight(s[..|s| - 1]) else s
  }

  /** `s.strip()`: white space off both ends. */
  function Strip(s: string): (r: string) {
    StripRight(StripLeft(s))
  }

  /** `s.lstrip('0')`. */
  function StripZeros(s: string): (r: string)
    ensures |r| <= |s| && r == s[|s| - |r|..]
    ensures |r| == 0 || r[0] != '0'
    ensures forall i :: 0 <= i < |s| - |r| ==> s[i] == '0'
    decreases |s|
  {
    if |s| > 0 && s[0] == '0' then StripZeros(s[1..]) else s
  }

  /** `str(int(s))` for a run of digits: the leading zeros go, and all zeros read as `0`. */
  function Coefficient(s: string): (c: string)
    ensures |c| >= 1 && (c == "0" || c[0] != '0')
    ensures AllDigits(s) ==> CoefficientForm(c)
  {
    var z := StripZeros(s);
    if |z| == 0 then "0" else z
  }

  /** The optional exponent `E[-+]?\d+` (either letter case) that closes a number; none reads
      as 0. */
  function ParseExponent(s: string): (r: Option<int>)
    ensures |s| == 0 ==> r == Some(0)
    ensures |s| > 0 && s[0] != 'e' && s[0] != 'E' ==> r.None?
  {
    if |s| == 0 then Some(0)
    else if s[0] == 'e' || s[0] == 'E' then ParseInt(s[1..])
    else None
  }

  /** A number: digits, optionally a point and more digits, at least one digit in all, then
      the optional exponent. */
  function ParseNumber(u: string): (r: Option<(string, int)>)
    ensures r.Some? ==> |u| > 0 && (IsDigit(u[0]) || u[0] == '.') && CoefficientForm(r.value.0)
  {
    var k := DigitRun(u);
    NumberAfterDigits(u[..k], u[k..])
  }

  /** What follows the integer digits `ip`: a point and the fraction digits, or neither. */
  function NumberAfterDigits(ip: string, rest: string): (r: Option<(string, int)>)
    requires AllDigits(ip)
    ensures r.Some? ==> (|ip| > 0 || (|rest| > 0 && rest[0] == '.')) && CoefficientForm(r.value.0)
  {
    if |rest| > 0 && rest[0] == '.' then
      var f := DigitRun(rest[1..]);
      NumberParts(ip, rest[1..][..f], rest[1..][f..])
    else NumberParts(ip, "", rest)
  }

  /** The integer digits, the fraction digits and the exponent text make the coefficient
      `str(int(int + frac))` and the exponent less the number of fraction digits. */
  function NumberParts(ip: string, fp: string, x: string): (r: Option<(string, int)>)
    requires AllDigits(ip) && AllDigits(fp)
    ensures r.Some? ==> |ip| + |fp| >= 1 && CoefficientForm(r.value.0)
  {
    DigitsAppend(ip, fp);
    if |ip| + |fp| == 0 then None
    else
      match ParseExponent(x)
      case None => None
      case Some(e) => Some((Coefficient(ip + fp), e - |fp|))
  }

  /** The text after the sign: a number, which opens with a digit or a point, or else one of
      the special names. */
  function ParseUnsigned(u: string, negative: bool): (r: Option<Decimal>)
    ensures r.Some? ==> Canonical(r.value) && r.value.negative == negative
  {
    if |u| > 0 && (IsDigit(u[0]) || u[0] == '.') then FiniteOf(ParseNumber(u), negative)
    else ParseSpecial(u, negative)
  }

  /** The finite value a number's reading makes, with the sign read before it. */
  function FiniteOf(r: Option<(string, int)>, negative: bool): (d: Option<Decimal>)
    requires r.Some? ==> CoefficientForm(r.value.0)
    ensures d.Some? ==> Canonical(d.value) && d.value.negative == negative
  {
    match r
    case None => None
    case Some((c, e)) => Some(Finite(negative, c, e))
  }

  /** `inf` or `infinity`, or `nan` or `snan` followed by diagnostic digits, letter case
      ignored. */
  function ParseSpecial(u: string, negative: bool): (r: Option<Decimal>)
    ensures r.Some? ==> Canonical(r.value) && r.value.negative == negative
  {
    if CaseEqual(u, "inf") || CaseEqual(u, "infinity") then Some(Infinity(negative))
    else if |u| >= 3 && CaseEqual(u[..3], "nan") && AllDigits(u[3..]) then
      Some(NaN(negative, false, StripZeros(u[3..])))
    else if |u| >= 4 && CaseEqual(u[..4], "snan") && AllDigits(u[4..]) then
      Some(NaN(negative, true, StripZeros(u[4..])))
    else None
  }

  /** `Decimal(text)`: white space off both ends, an optional sign (`-` makes the value
      negative), then the rest as `ParseUnsigned` reads it. Anything else is a conversion
      syntax error, which the default context raises as `InvalidOperation` (None). */
  function ParseDecimal(text: string): (r: Option<Decimal>)
    ensures r.Some? ==> Canonical(r.value)
    ensures r.Some? ==> (r.value.negative <==> |Strip(text)| > 0 && Strip(text)[0] == '-')
  {
    var s := Strip(text);
    ParseUnsigned(Unsigned(s), |s| > 0 && s[0] == '-')
  }

  /** The text after an optional leading sign. */
  function Unsigned(s: string): (u: string)
    ensures |u| <= |s|
  {
    if |s| > 0 && (s[0] == '-' || s[0] == '+') then s[1..] else s
  }

  // ---------------------------------------------------------------- writing

  function SignText(negative: bool): string {
    if negative then "-" else ""
  }

  function Zeros(n: nat): (z: string)
    ensures |z| == n && forall i :: 0 <= i < n ==> z[i] == '0'
  {
    seq(n, _ => '0')
  }

  /** `"%+d" % n`. */
  function ExponentText(n: int): (s: string)
    ensures |s| >= 2 && s[0] == (if n >= 0 then '+' else '-')
  {
    (if n >= 0 then "+" else "-") + NatToString(if n >= 0 then n else -n)
  }

  /** The exponent written after the digits: nothing when it is zero. */
  function ExponentSuffix(n: int): (s: string)
    ensures |s| == 0 <==> n == 0
  {
    if n == 0 then "" else "E" + ExponentText(n)
  }

  /** The coefficient's digits with the point after `dot` of them: `0.` and zeros in front
      when `dot` is not positive, zeros behind when `dot` passes the last digit. */
  function Mantissa(c: string, dot: int): string {
    if dot <= 0 then "0." + Zeros(-dot) + c
    else if dot >= |c| then c + Zeros(dot - |c|)
    else c[..dot] + "." + c[dot..]
  }

  /** `str(d)` (the default context writes the exponent letter upper-case). A finite value
      is written without an exponent when its exponent is not positive and at most five
      zeros would follow the point; otherwise one digit goes before the point and the
      exponent makes up the rest. */
  function DecimalStr(d: Decimal): (s: string)
    ensures d.Infinity? ==> s == SignText(d.negative) + "Infinity"
    ensures d.NaN? ==> s == SignText(d.negative) + (if d.signalling then "sNaN" else "NaN") + d.payload
  {
    SignText(d.negative) + Magnitude(d)
  }

  /** `str(d)` after the sign. */
  function Magnitude(d: Decimal): string {
    match d
    case Infinity(_) => "Infinity"
    case NaN(_, signalling, payload) => (if signalling then "sNaN" else "NaN") + payload
    case Finite(_, c, e) =>
      var dot := DotPlace(c, e);
      Mantissa(c, dot) + ExponentSuffix(e + |c| - dot)
  }

  /** How many of the coefficient's digits go before the point: all those the exponent puts
      there when no exponent is needed (`e <= 0`, and at most five zeros after the point),
      otherwise one. `e + |c|` is the number of digits to the left of the point. */
  function DotPlace(c: string, e: int): int {
    if e <= 0 && e + |c| > -6 then e + |c| else 1
  }

  // ---------------------------------------------------------------- reading back what is written

  /** What `str` writes reads back as the same value: `Decimal(str(d)) == d`, sign, digits,
      exponent and NaN payload included. */
  lemma StrReadsBack(d: Decimal)
    requires Canonical(d)
    ensures ParseDecimal(DecimalStr(d)) == Some(d)
  {
    MagnitudeReads(d);
    SignedReads(d.negative, Magnitude(d));
  }

  /** Reading skips the sign and hands the rest to `ParseUnsigned`. */
  lemma SignedReads(negative: bool, m: string)
    requires Trimmed(m)
    ensures ParseDecimal(SignText(negative) + m) == ParseUnsigned(m, negative)
  {
    SignedLayout(negative, m);
  }

  lemma SignedLayout(negative: bool, m: string)
    requires Trimmed(m)
    ensures var s := SignText(negative) + m;
      Strip(s) == s && Unsigned(s) == m && (s[0] == '-') == negative
  {
    SignedStrip(negative, m);
    if negative {
      assert (SignText(negative) + m)[1..] == m;
    }
  }

  lemma SignedStrip(negative: bool, m: string)
    requires Trimmed(m)
    ensures Strip(SignText(negative) + m) == SignText(negative) + m
  {
    var s := SignText(negative) + m;
    assert !IsSpace(s[0]) && !IsSpace(s[|s| - 1]);
  }

  lemma MagnitudeReads(d: Decimal)
    requires Canonical(d)
    ensures MagnitudeReadsBack(d)
  {
    match d
    case Infinity(negative) =>
      InfinityReads(negative);
    case NaN(negative, signalling, payload) =>
      NaNReads(negative, signalling, payload);
    case Finite(_, _, _) =>
      FiniteEnds(d);
      FiniteUnsigned(d);
  }

  /** The magnitude is trimmed, unsigned, and reads back as the value. */
  predicate MagnitudeReadsBack(d: Decimal) {
    Trimmed(Magnitude(d)) && ParseUnsigned(Magnitude(d), d.negative) == Some(d)
  }

  /** Nothing for `strip` to remove and no sign for reading to take. */
  predicate Trimmed(m: string) {
    |m| > 0 && !IsSpace(m[0]) && !IsSpace(m[|m| - 1]) && m[0] != '-' && m[0] != '+'
  }

  lemma FiniteUnsigned(d: Decimal)
    requires d.Finite? && Canonical(d)
    ensures ParseUnsigned(Magnitude(d), d.negative) == Some(d)
  {
    FiniteEnds(d);
    FiniteReads(d);
    NumberFirst(Magnitude(d), d.negative, d.coefficient, d.exponent);
  }

  lemma InfinityReads(negative: bool)
    ensures ParseUnsigned("Infinity", negative) == Some(Infinity(negative))
  {
    var u := "Infinity";
    assert CaseEqual(u, "infinity") by {
      forall i | 0 <= i < |u| ensures Lower(u[i]) == Lower("infinity"[i]) {
      }
    }
    LetterFirst(u, negative);
  }

  lemma NaNReads(negative: bool, signalling: bool, p: string)
    requires AllDigits(p) && (|p| == 0 || p[0] != '0')
    ensures var m := (if signalling then "sNaN" else "NaN") + p;
      |m| > 0 && !IsSpace(m[0]) && !IsSpace(m[|m| - 1])
      && ParseUnsigned(m, negative) == Some(NaN(negative, signalling, p))
  {
    var w := if signalling then "sNaN" else "NaN";
    var m := w + p;
    assert m[0] == w[0];
    assert |p| > 0 ==> m[|m| - 1] == p[|p| - 1];
    NaNSpecial(negative, signalling, p, w, m);
    LetterFirst(m, negative);
  }

  /** A text opening with a letter can only be a special name. */
  lemma LetterFirst(u: string, negative: bool)
    requires |u| > 0 && !IsDigit(u[0]) && u[0] != '.'
    ensures ParseUnsigned(u, negative) == ParseSpecial(u, negative)
  {
  }

  lemma NaNSpecial(negative: bool, signalling: bool, p: string, w: string, m: string)
    requires AllDigits(p) && (|p| == 0 || p[0] != '0')
    requires w == (if signalling then "sNaN" else "NaN") && m == w + p
    ensures ParseSpecial(m, negative) == Some(NaN(negative, signalling, p))
  {
    assert m[..|w|] == w && m[|w|..] == p;
    NotNamed(m, "inf");
    NotNamed(m, "infinity");
    if signalling {
      NotNamed(m[..3], "nan");
      assert CaseEqual(m[..4], "snan");
    } else {
      assert CaseEqual(m[..3], "nan");
    }
  }

  /** Texts whose first letters differ are not the same name. */
  lemma NotNamed(a: string, b: string)
    requires |a| > 0 && |b| > 0 && Lower(a[0]) != Lower(b[0])
    ensures !CaseEqual(a, b)
  {
  }

  /** A text opening with a digit is read as a number. */
  lemma NumberFirst(u: string, negative: bool, c: string, e: int)
    requires |u| > 0 && IsDigit(u[0]) && ParseNumber(u) == Some((c, e))
    ensures ParseUnsigned(u, negative) == Some(Finite(negative, c, e))
  {
  }

  /** A finite value's magnitude reads back as its coefficient and exponent. */
  lemma FiniteReads(d: Decimal)
    requires d.Finite? && Canonical(d)
    ensures ParseNumber(Magnitude(d)) == Some((d.coefficient, d.exponent))
  {
    var c, e := d.coefficient, d.exponent;
    var dot := DotPlace(c, e);
    if dot <= 0 {
      FractionCase(d);
    } else if dot >= |c| {
      WholeCase(d);
    } else {
      PointCase(d);
    }
  }

  lemma FractionCase(d: Decimal)
    requires d.Finite? && Canonical(d) && DotPlace(d.coefficient, d.exponent) <= 0
    ensures ParseNumber(Magnitude(d)) == Some((d.coefficient, d.exponent))
  {
    var c, e := d.coefficient, d.exponent;
    var dot := DotPlace(c, e);
    FractionLayout(c, dot, Magnitude(d));
    FractionReads(c, dot, Magnitude(d), "0", e);
  }

  lemma WholeCase(d: Decimal)
    requires d.Finite? && Canonical(d) && DotPlace(d.coefficient, d.exponent) >= |d.coefficient|
    ensures ParseNumber(Magnitude(d)) == Some((d.coefficient, d.exponent))
  {
    var c, e := d.coefficient, d.exponent;
    WholeLayout(c, e, Magnitude(d));
    CoefficientOfCanonical(c);
    ReadWholeNumber(c, e, Magnitude(d), c);
  }

  lemma PointCase(d: Decimal)
    requires d.Finite? && Canonical(d) && 0 < DotPlace(d.coefficient, d.exponent) < |d.coefficient|
    ensures ParseNumber(Magnitude(d)) == Some((d.coefficient, d.exponent))
  {
    var c, e := d.coefficient, d.exponent;
    var dot := DotPlace(c, e);
    PointLayout(c, dot, e + |c| - dot, Magnitude(d));
    PointReads(c, dot, e + |c| - dot, Magnitude(d), e);
  }

  /** A finite value's magnitude opens and closes with a digit. */
  lemma FiniteEnds(d: Decimal)
    requires d.Finite? && Canonical(d)
    ensures var m := Magnitude(d); |m| > 0 && IsDigit(m[0]) && IsDigit(m[|m| - 1]) && Trimmed(m)
  {
    var c, e := d.coefficient, d.exponent;
    var dot := DotPlace(c, e);
    MantissaEnds(c, dot);
    ExponentSuffixEnds(e + |c| - dot);
  }

  lemma MantissaEnds(c: string, dot: int)
    requires |c| >= 1 && AllDigits(c)
    ensures var a := Mantissa(c, dot); |a| > 0 && IsDigit(a[0]) && IsDigit(a[|a| - 1])
  {
  }

  /** `0.`, zeros, then the coefficient; `z` is the leading `0`. */
  lemma FractionReads(c: string, dot: int, m: string, z: string, exponent: int)
    requires |c| >= 1 && AllDigits(c) && (c == "0" || c[0] != '0') && dot <= 0
    requires |z| == 1 && z[0] == '0' && m == z + ("." + (Zeros(-dot) + c)) + ExponentSuffix(0)
    requires exponent == dot - |c|
    ensures ParseNumber(m) == Some((c, exponent))
  {
    var fp := Zeros(-dot) + c;
    LeadingZerosDigits(-dot, c);
    FractionCoefficient(c, -dot, z);
    ReadZeroPoint(z, fp, m, c, exponent);
  }

  lemma ReadZeroPoint(z: string, fp: string, m: string, coefficient: string, exponent: int)
    requires |z| == 1 && z[0] == '0' && AllDigits(fp) && m == z + ("." + fp) + ExponentSuffix(0)
    requires coefficient == Coefficient(z + fp) && exponent == -|fp|
    ensures ParseNumber(m) == Some((coefficient, exponent))
  {
    assert AllDigits(z);
    ReadPointedNumber(z, fp, 0, m, coefficient, exponent);
  }

  lemma FractionCoefficient(c: string, k: nat, z: string)
    requires |c| >= 1 && AllDigits(c) && (c == "0" || c[0] != '0')
    requires |z| == 1 && z[0] == '0'
    ensures Coefficient(z + (Zeros(k) + c)) == c
  {
    assert z + (Zeros(k) + c) == Zeros(k + 1) + c;
    StripLeadingZeros(k + 1, c);
    CoefficientOfCanonical(c);
  }

  /** The coefficient with the point inside it, then the exponent suffix. */
  lemma PointReads(c: string, dot: int, n: int, m: string, exponent: int)
    requires |c| >= 1 && AllDigits(c) && (c == "0" || c[0] != '0') && 0 < dot < |c|
    requires m == c[..dot] + ("." + c[dot..]) + ExponentSuffix(n) && exponent == n - (|c| - dot)
    ensures ParseNumber(m) == Some((c, exponent))
  {
    var ip, fp := c[..dot], c[dot..];
    DigitsSplit(c, dot);
    CoefficientOfCanonical(c);
    ReadPointedNumber(ip, fp, n, m, c, exponent);
  }

  lemma FractionLayout(c: string, dot: int, m: string)
    requires dot <= 0 && m == Mantissa(c, dot) + ExponentSuffix(0)
    ensures m == "0" + ("." + (Zeros(-dot) + c)) + ExponentSuffix(0)
  {
  }

  lemma WholeLayout(c: string, n: int, m: string)
    requires |c| >= 1 && m == Mantissa(c, |c|) + ExponentSuffix(n)
    ensures m == c + ExponentSuffix(n)
  {
    assert Mantissa(c, |c|) == c;
  }

  lemma PointLayout(c: string, dot: int, n: int, m: string)
    requires 0 < dot < |c| && m == Mantissa(c, dot) + ExponentSuffix(n)
    ensures m == c[..dot] + ("." + c[dot..]) + ExponentSuffix(n)
  {
  }

  /** Digits, a point, more digits and an exponent suffix read as a number. */
  lemma ReadPointedNumber(ip: string, fp: string, n: int, u: string, coefficient: string, exponent: int)
    requires AllDigits(ip) && AllDigits(fp) && |ip| + |fp| >= 1
    requires u == ip + ("." + fp) + ExponentSuffix(n)
    requires coefficient == Coefficient(ip + fp) && exponent == n - |fp|
    ensures ParseNumber(u) == Some((coefficient, exponent))
  {
    var x := ExponentSuffix(n);
    ExponentSuffixEnds(n);
    ExponentReads(n);
    ReadPointed(ip, fp, x);
    PartsRead(ip, fp, x, n);
  }

  /** Digits and an exponent suffix read as a number. */
  lemma ReadWholeNumber(ip: string, n: int, u: string, coefficient: string)
    requires AllDigits(ip) && |ip| >= 1 && u == ip + ExponentSuffix(n) && coefficient == Coefficient(ip)
    ensures ParseNumber(u) == Some((coefficient, n))
  {
    var x := ExponentSuffix(n);
    ExponentSuffixEnds(n);
    ExponentReads(n);
    ReadUnpointed(ip, x);
    WholePartsRead(ip, x, n);
  }

  /** Digits, a point, digits, then text opening with something other than a digit. */
  lemma ReadPointed(ip: string, fp: string, x: string)
    requires AllDigits(ip) && AllDigits(fp) && (|x| == 0 || !IsDigit(x[0]))
    ensures ParseNumber(ip + ("." + fp) + x) == NumberParts(ip, fp, x)
  {
    var rest := "." + fp + x;
    assert ip + ("." + fp) + x == ip + rest;
    ParseNumberSplit(ip, rest);
    FractionStops(fp, x);
  }

  /** Digits, then text opening with neither a digit nor a point. */
  lemma ReadUnpointed(ip: string, x: string)
    requires AllDigits(ip) && (|x| == 0 || (!IsDigit(x[0]) && x[0] != '.'))
    ensures ParseNumber(ip + x) == NumberParts(ip, "", x)
  {
    ParseNumberSplit(ip, x);
  }

  /** The number's integer digits end where the first non-digit stands. */
  lemma ParseNumberSplit(ip: string, rest: string)
    requires AllDigits(ip) && (|rest| == 0 || !IsDigit(rest[0]))
    ensures ParseNumber(ip + rest) == NumberAfterDigits(ip, rest)
  {
    DigitRunStops(ip, rest);
  }

  lemma WholePartsRead(ip: string, x: string, n: int)
    requires AllDigits(ip) && |ip| >= 1 && ParseExponent(x) == Some(n)
    ensures NumberParts(ip, "", x) == Some((Coefficient(ip), n))
  {
    assert ip + "" == ip;
  }

  /** The parts make the number once the exponent text reads as `n`. */
  lemma PartsRead(ip: string, fp: string, x: string, n: int)
    requires AllDigits(ip) && AllDigits(fp) && |ip| + |fp| >= 1 && ParseExponent(x) == Some(n)
    ensures NumberParts(ip, fp, x) == Some((Coefficient(ip + fp), n - |fp|))
  {
  }

  /** After the integer digits, a point, then digits up to a non-digit. */
  lemma FractionStops(fp: string, x: string)
    requires AllDigits(fp) && (|x| == 0 || !IsDigit(x[0]))
    ensures forall ip :: AllDigits(ip) ==> NumberAfterDigits(ip, "." + fp + x) == NumberParts(ip, fp, x)
  {
    assert ("." + fp + x)[1..] == fp + x;
    DigitRunStops(fp, x);
  }

  /** Digits followed by anything but a digit form a run of exactly those digits. */
  lemma DigitRunStops(d: string, tail: string)
    requires AllDigits(d) && (|tail| == 0 || !IsDigit(tail[0]))
    ensures DigitRun(d + tail) == |d| && (d + tail)[..|d|] == d && (d + tail)[|d|..] == tail
  {
    if |tail| > 0 {
      DigitRunOfDigits(d, tail);
    } else {
      assert d + tail == d;
      DigitRunAll(d);
    }
  }

  lemma ExponentSuffixEnds(n: int)
    ensures var x := ExponentSuffix(n); |x| == 0 || (x[0] == 'E' && IsDigit(x[|x| - 1]))
  {
    if n != 0 {
      var k: nat := if n >= 0 then n else -n;
      DigitsOfNatToString(k);
      var s := NatToString(k);
      assert AllDigits(s);
    }
  }

  /** The exponent suffix reads back as the number it writes. */
  lemma ExponentReads(n: int)
    ensures ParseExponent(ExponentSuffix(n)) == Some(n)
  {
    if n < 0 {
      var x := ExponentSuffix(n);
      assert x[1..] == IntToString(n);
      ParseIntOfIntToString(n);
    } else if n > 0 {
      var x := ExponentSuffix(n);
      assert x[1..] == "+" + NatToString(n);
      PlusReadBack(n);
    }
  }

  /** Python's `int` takes a leading `+`. */
  lemma PlusReadBack(n: nat)
    ensures ParseInt("+" + NatToString(n)) == Some(n)
  {
    var d := NatToString(n);
    var s := "+" + d;
    DigitsOfNatToString(n);
    assert s[0] == '+' && s[1..] == d;
    assert AllDigits(s[1..]);
  }

  // ---------------------------------------------------------------- coefficients

  /** `str(int(s))` is `0` exactly when every digit of `s` is 0. */
  lemma CoefficientZero(s: string)
    requires AllDigits(s)
    ensures Coefficient(s) == "0" <==> forall i :: 0 <= i < |s| ==> s[i] == '0'
  {
    var z := StripZeros(s);
    if forall i :: 0 <= i < |s| ==> s[i] == '0' {
      assert |z| == 0;
    }
  }

  lemma CoefficientOfCanonical(c: string)
    requires |c| >= 1 && AllDigits(c) && (c == "0" || c[0] != '0')
    ensures Coefficient(c) == c
  {
    if c == "0" {
      assert StripZeros(c) == StripZeros("");
    }
  }

  /** Zeros in front do not change the coefficient. */
  lemma CoefficientLeadingZeros(k: nat, c: string)
    requires AllDigits(c)
    ensures AllDigits(Zeros(k) + c) && Coefficient("0" + (Zeros(k) + c)) == Coefficient(c)
  {
    LeadingZerosDigits(k, c);
    assert "0" + (Zeros(k) + c) == Zeros(k + 1) + c;
    StripLeadingZeros(k + 1, c);
  }

  lemma {:induction false} StripLeadingZeros(k: nat, c: string)
    ensures StripZeros(Zeros(k) + c) == StripZeros(c)
    decreases k
  {
    if k > 0 {
      assert (Zeros(k) + c)[0] == '0';
      assert (Zeros(k) + c)[1..] == Zeros(k - 1) + c;
      StripLeadingZeros(k - 1, c);
    } else {
      assert Zeros(k) + c == c;
    }
  }

  lemma LeadingZerosDigits(k: nat, c: string)
    requires AllDigits(c)
    ensures AllDigits(Zeros(k) + c)
  {
    var s := Zeros(k) + c;
    forall i | 0 <= i < |s| ensures IsDigit(s[i]) {
      if i >= k {
        assert s[i] == c[i - k];
      }
    }
  }

  lemma DigitsAppend(a: string, b: string)
    requires AllDigits(a) && AllDigits(b)
    ensures AllDigits(a + b)
  {
    forall i | |a| <= i < |a + b| ensures IsDigit((a + b)[i]) {
      assert (a + b)[i] == b[i - |a|];
    }
  }

  lemma DigitsSplit(c: string, n: nat)
    requires AllDigits(c) && n <= |c|
    ensures AllDigits(c[..n]) && AllDigits(c[n..]) && c[..n] + c[n..] == c
  {
    forall i | 0 <= i < |c[n..]| ensures IsDigit(c[n..][i]) {
      assert c[n..][i] == c[n + i];
    }
  }

  // ---------------------------------------------------------------- the texts a float literal takes

  /** An explicit sign in front of trimmed, unsigned text: `+` reads as positive, `-` as
      negative, and the rest as `ParseUnsigned` reads it. */
  lemma ExplicitSignReads(s: string, m: string, negative: bool)
    requires |s| >= 2 && s[0] == (if negative then '-' else '+') && s[1..] == m
    requires !IsSpace(m[0]) && !IsSpace(m[|m| - 1])
    ensures ParseDecimal(s) == ParseUnsigned(m, negative)
  {
    assert Strip(s) == s;
  }

  /** The names the tree dump writes for the special values read as those values, and `str`
      writes the infinities without the `+`. */
  lemma SpecialNames(plus: string, minus: string, nan: string)
    requires |plus| == 9 && plus[0] == '+' && plus[1..] == "Infinity"
    requires |minus| == 9 && minus[0] == '-' && minus[1..] == "Infinity"
    requires |nan| == 3 && nan[0] == 'N' && nan[1] == 'a' && nan[2] == 'N'
    ensures ParseDecimal(plus) == Some(Infinity(false)) && DecimalStr(Infinity(false)) == plus[1..]
    ensures ParseDecimal(minus) == Some(Infinity(true)) && DecimalStr(Infinity(true)) == minus
    ensures ParseDecimal(nan) == Some(NaN(false, false, "")) && DecimalStr(NaN(false, false, "")) == nan
  {
    InfinityReads(false);
    InfinityReads(true);
    ExplicitSignReads(plus, "Infinity", false);
    ExplicitSignReads(minus, "Infinity", true);
    assert DecimalStr(Infinity(true)) == minus;
    NaNName(nan);
  }

  lemma NaNName(nan: string)
    requires |nan| == 3 && nan[0] == 'N' && nan[1] == 'a' && nan[2] == 'N'
    ensures ParseDecimal(nan) == Some(NaN(false, false, "")) && DecimalStr(NaN(false, false, "")) == nan
  {
    assert nan == "NaN" + "";
    NaNReads(false, false, "");
    SignedReads(false, nan);
    assert SignText(false) + nan == nan;
  }

  /** Trimmed text opening with a digit, after an optional `-`, reads as the number it holds. */
  lemma NumberValue(s: string, u: string, negative: bool, c: string, e: int)
    requires s == SignText(negative) + u && Trimmed(u) && IsDigit(u[0])
    requires ParseNumber(u) == Some((c, e))
    ensures ParseDecimal(s) == Some(Finite(negative, c, e))
  {
    NumberFirst(u, negative, c, e);
    SignedValue(s, u, Finite(negative, c, e));
  }

  lemma SignedValue(s: string, u: string, d: Decimal)
    requires s == SignText(d.negative) + u && Trimmed(u) && ParseUnsigned(u, d.negative) == Some(d)
    ensures ParseDecimal(s) == Some(d)
  {
    SignedReads(d.negative, u);
  }

  lemma ScientificEnds(u: string, ip: string, fp: string, letter: char, n: int)
    requires AllDigits(ip) && |ip| >= 1 && (letter == 'e' || letter == 'E')
    requires u == ip + ("." + fp) + ([letter] + ExponentText(n))
    ensures |u| > 0 && IsDigit(u[0]) && Trimmed(u)
  {
    var x := [letter] + ExponentText(n);
    assert u[0] == ip[0];
    ExponentTextEnds(n);
    assert u[|u| - 1] == x[|x| - 1];
  }

  /** Scientific notation, `d.ddd` then `e` or `E` and a signed exponent, as C's `%e` and the
      tree dump write a finite value: its digits make the coefficient and the exponent drops
      by the number of digits after the point. */
  lemma ScientificNumber(u: string, ip: string, fp: string, letter: char, n: int)
    requires AllDigits(ip) && |ip| >= 1 && AllDigits(fp) && (letter == 'e' || letter == 'E')
    requires u == ip + ("." + fp) + ([letter] + ExponentText(n))
    ensures ParseNumber(u) == Some((Coefficient(ip + fp), n - |fp|))
  {
    var x := [letter] + ExponentText(n);
    ReadPointed(ip, fp, x);
    LetterExponentReads(letter, n);
    PartsRead(ip, fp, x, n);
  }

  lemma ExponentTextEnds(n: int)
    ensures var t := ExponentText(n); IsDigit(t[|t| - 1])
  {
    var k: nat := if n >= 0 then n else -n;
    DigitsOfNatToString(k);
    var s := NatToString(k);
    assert AllDigits(s);
  }

  /** Either letter opens the exponent, whose sign is always written. */
  lemma LetterExponentReads(letter: char, n: int)
    requires letter == 'e' || letter == 'E'
    ensures ParseExponent([letter] + ExponentText(n)) == Some(n)
  {
    var x := [letter] + ExponentText(n);
    assert x[1..] == ExponentText(n);
    if n < 0 {
      assert ExponentText(n) == IntToString(n);
      ParseIntOfIntToString(n);
    } else {
      PlusReadBack(n);
    }
  }

  /** `2.5e+1` reads as 25 and prints as `25`. */
  lemma ScientificPrintsPlain(s: string)
    requires |s| == 6 && s[0] == '2' && s[1] == '.' && s[2] == '5' && s[3] == 'e' && s[4] == '+' && s[5] == '1'
    ensures ParseDecimal(s) == Some(Finite(false, "25", 0)) && DecimalStr(Finite(false, "25", 0)) == "25"
  {
    PlainReads(s);
    assert DecimalStr(Finite(false, "25", 0)) == "25";
  }

  lemma PlainReads(s: string)
    requires |s| == 6 && s[0] == '2' && s[1] == '.' && s[2] == '5' && s[3] == 'e' && s[4] == '+' && s[5] == '1'
    ensures ParseDecimal(s) == Some(Finite(false, "25", 0))
  {
    PlainNumber(s);
    assert SignText(false) + s == s;
    NumberValue(s, s, false, "25", 0);
  }

  lemma PlainNumber(s: string)
    requires |s| == 6 && s[0] == '2' && s[1] == '.' && s[2] == '5' && s[3] == 'e' && s[4] == '+' && s[5] == '1'
    ensures Trimmed(s) && IsDigit(s[0]) && ParseNumber(s) == Some(("25", 0))
  {
    PlainLayout(s);
    ScientificEnds(s, "2", "5", 'e', 1);
    ScientificNumber(s, "2", "5", 'e', 1);
    assert Coefficient("2" + "5") == "25";
  }

  lemma PlainLayout(s: string)
    requires |s| == 6 && s[0] == '2' && s[1] == '.' && s[2] == '5' && s[3] == 'e' && s[4] == '+' && s[5] == '1'
    ensures s == "2" + ("." + "5") + (['e'] + ExponentText(1))
  {
    assert ExponentText(1) == "+1";
  }
}

/** Numbers as the Python code reads, prints and rounds them: `float(text)` on
    plain decimal text, the printed form of a JSON number, and two-decimal
    rounding of a float. Floats are modelled as exact reals. */
module Numbers {
  import opened Py
  import opened Text

  /** `float(u)` for text without a sign: digits with at most one '.', at
      least one digit in all ("5", "5.", ".5", "38.9"). */
  function ParseUnsigned(u: string): (r: Option<real>)
    ensures r.Some? ==> r.value >= 0.0
  {
    var i := IndexOf(u, '.');
    var ip := u[..i];
    var fp := if i < |u| then u[i + 1..] else "";
    if AllDigits(ip) && AllDigits(fp) && |ip| + |fp| > 0 then Some(PointValue(ip, fp)) else None
  }

  /** The value of the decimal `ip.fp`. */
  function PointValue(ip: string, fp: string): (v: real)
    requires AllDigits(ip) && AllDigits(fp)
    ensures v >= 0.0
  {
    DigitsValue(ip) as real + DigitsValue(fp) as real / Pow10(|fp|) as real
  }

  /** The sign-free part of a numeric text. */
  function Unsigned(t: string): string {
    if |t| > 0 && (t[0] == '-' || t[0] == '+') then t[1..] else t
  }

  /** The texts `float()` (and `pd.to_numeric`) accept among those made of a
      sign, digits and dots, stated independently of the parser: an optional
      sign, then only digits and dots, at most one dot, at least one digit. */
  predicate IsDecimalText(t: string) {
    var u := Unsigned(t);
    && (forall i :: 0 <= i < |u| ==> IsDigit(u[i]) || u[i] == '.')
    && (forall i, j :: 0 <= i < j < |u| && u[i] == '.' ==> u[j] != '.')
    && (exists i :: 0 <= i < |u| && IsDigit(u[i]))
  }

  /** `float(t)` on plain decimal text; `None` where Python raises
      `ValueError`. Exponents, "inf"/"nan", underscores, surrounding blanks and
      non-ASCII digits are not modelled. */
  function ParseDecimal(t: string): (r: Option<real>)
    ensures r.Some? <==> IsDecimalText(t)
    ensures r.Some? && |t| > 0 && t[0] == '-' ==> r.value <= 0.0
    ensures r.Some? && !(|t| > 0 && t[0] == '-') ==> r.value >= 0.0
  {
    UnsignedAccepts(Unsigned(t));
    if |t| > 0 && t[0] == '-' then
      match ParseUnsigned(t[1..])
      case Some(v) => Some(-v)
      case None => None
    else
      ParseUnsigned(Unsigned(t))
  }

  lemma UnsignedAccepts(u: string)
    ensures ParseUnsigned(u).Some? <==>
      && (forall i :: 0 <= i < |u| ==> IsDigit(u[i]) || u[i] == '.')
      && (forall i, j :: 0 <= i < j < |u| && u[i] == '.' ==> u[j] != '.')
      && (exists i :: 0 <= i < |u| && IsDigit(u[i]))
  {
    var i := IndexOf(u, '.');
    var ip := u[..i];
    var fp := if i < |u| then u[i + 1..] else "";
    assert forall k :: 0 <= k < i ==> u[k] == ip[k];
    assert forall k :: i < k < |u| ==> u[k] == fp[k - i - 1];
    if ParseUnsigned(u).Some? {
      if |ip| > 0 {
        assert IsDigit(u[0]);
      } else {
        assert IsDigit(u[i + 1]);
      }
    }
    if && (forall k :: 0 <= k < |u| ==> IsDigit(u[k]) || u[k] == '.')
       && (forall k, j :: 0 <= k < j < |u| && u[k] == '.' ==> u[j] != '.')
       && (exists k :: 0 <= k < |u| && IsDigit(u[k]))
    {
      var k :| 0 <= k < |u| && IsDigit(u[k]);
      if k < i {
        assert ip[k] == u[k];
      } else {
        assert fp[k - i - 1] == u[k];
      }
    }
  }

  /** A string of digits reads as the number it denotes. */
  lemma ParseDigits(s: string)
    requires AllDigits(s) && s != []
    ensures ParseDecimal(s) == Some(DigitsValue(s) as real)
  {
    assert Unsigned(s) == s;
    assert IndexOf(s, '.') == |s|;
    assert s[..|s|] == s;
    assert PointValue(s, "") == DigitsValue(s) as real;
  }

  /** A JSON number as Python's `json` module decodes it: an `int`, or a
      `float` whose exact decimal value is `mantissa / 10^scale`. */
  datatype Number = Int(i: int) | Float(mantissa: int, scale: nat)

  function Value(n: Number): real {
    match n
    case Int(i) => i as real
    case Float(m, e) => Scaled(m, e)
  }

  /** `m / 10^e`. */
  function Scaled(m: int, e: nat): real {
    m as real / Pow10(e) as real
  }

  /** The shortest form of a float's decimal that still has a fractional
      digit, as `repr(float)` prints it: `40` -> `40.0`, `38.90` -> `38.9`. */
  function Canonical(m: int, e: nat): (c: (int, nat))
    ensures c.1 >= 1
    ensures Scaled(c.0, c.1) == Scaled(m, e)
    decreases e
  {
    if e == 0 then
      (m * 10, 1)
    else if e > 1 && m % 10 == 0 then
      var c := Canonical(m / 10, e - 1);
      ScaleDown(m, e);
      c
    else
      (m, e)
  }

  lemma ScaleDown(m: int, e: nat)
    requires e > 1 && m % 10 == 0
    ensures Scaled(m / 10, e - 1) == Scaled(m, e)
  {
    var p := Pow10(e - 1) as real;
    assert m as real == 10.0 * (m / 10) as real;
    assert Pow10(e) as real == 10.0 * p;
  }

  function Abs(i: int): nat {
    if i < 0 then -i else i
  }

  function SignText(negative: bool): string {
    if negative then "-" else ""
  }

  /** The class `[0-9.-]`. */
  predicate IsNumberChar(c: char) {
    IsDigit(c) || c == '.' || c == '-'
  }

  /** A decimal text is made of digits, dots and minus signs only. */
  predicate IsNumericText(s: string) {
    forall k :: 0 <= k < |s| ==> IsNumberChar(s[k])
  }

  /** Quotient and remainder of `a` by `10^e`. */
  function DivMod(a: nat, e: nat): (qr: (nat, nat))
    ensures qr.1 < Pow10(e)
    ensures qr.0 * Pow10(e) + qr.1 == a
  {
    var p := Pow10(e);
    DivisionParts(a, p);
    var q: nat, r: nat := a / p, a % p;
    (q, r)
  }

  lemma DivisionParts(a: nat, p: nat)
    requires p >= 1
    ensures 0 <= a / p && 0 <= a % p < p && (a / p) * p + a % p == a
  {
  }

  /** `a / 10^e` printed in full, a dot, and the remainder zero-padded to `e`
      digits. */
  function PointText(a: nat, e: nat): (s: string)
    ensures |s| >= 2 && IsNumericText(s)
  {
    var qr := DivMod(a, e);
    var ip := NatToString(qr.0);
    var fp := PadDigits(qr.1, e);
    NumericConcat(ip, ".");
    NumericConcat(ip + ".", fp);
    ip + "." + fp
  }

  lemma NumericConcat(s: string, t: string)
    requires IsNumericText(s) || AllDigits(s)
    requires IsNumericText(t) || AllDigits(t)
    ensures IsNumericText(s + t)
  {
    forall k | 0 <= k < |s + t|
      ensures IsDigit((s + t)[k]) || (s + t)[k] == '.' || (s + t)[k] == '-'
    {
      if k < |s| {
        assert (s + t)[k] == s[k];
      } else {
        assert (s + t)[k] == t[k - |s|];
      }
    }
  }

  /** `f"{x}"` for a JSON number: `str(int)`, or `repr(float)` for a float
      whose repr is plain decimal (no exponent). */
  function Render(n: Number): (s: string)
    ensures |s| >= 1 && IsNumericText(s)
  {
    match n
    case Int(i) =>
      var d := NatToString(Abs(i));
      NumericConcat(SignText(i < 0), d);
      SignText(i < 0) + d
    case Float(m, e) =>
      var c := Canonical(m, e);
      NumericConcat(SignText(c.0 < 0), PointText(Abs(c.0), c.1));
      SignText(c.0 < 0) + PointText(Abs(c.0), c.1)
  }

  /** Reading back what `Render` printed gives the number's value. */
  lemma RenderRoundTrip(n: Number)
    ensures ParseDecimal(Render(n)) == Some(Value(n))
  {
    match n
    case Int(i) =>
      var d := NatToString(Abs(i));
      assert IndexOf(d, '.') == |d|;
      assert d[..|d|] == d;
      SignedRoundTrip(i < 0, d, Abs(i) as real);
    case Float(m, e) =>
      FloatRoundTrip(m, e);
  }

  lemma FloatRoundTrip(m: int, e: nat)
    ensures ParseDecimal(Render(Float(m, e))) == Some(Scaled(m, e))
  {
    var c := Canonical(m, e);
    var a := Abs(c.0);
    PointTextParses(a, c.1);
    SignedRoundTrip(c.0 < 0, PointText(a, c.1), Scaled(a, c.1));
    assert Render(Float(m, e)) == SignText(c.0 < 0) + PointText(a, c.1);
    SignedScaled(c.0, c.1);
  }

  lemma SignedScaled(c: int, e: nat)
    ensures (if c < 0 then -Scaled(Abs(c), e) else Scaled(Abs(c), e)) == Scaled(c, e)
  {
  }

  lemma SignedRoundTrip(negative: bool, u: string, v: real)
    requires ParseUnsigned(u) == Some(v)
    requires |u| >= 1 && u[0] != '-' && u[0] != '+'
    ensures ParseDecimal(SignText(negative) + u) == Some(if negative then -v else v)
  {
    if negative {
      assert (SignText(true) + u)[1..] == u;
    } else {
      assert SignText(false) + u == u;
    }
  }

  lemma PointTextParses(a: nat, e: nat)
    ensures PointText(a, e)[0] != '-' && PointText(a, e)[0] != '+'
    ensures ParseUnsigned(PointText(a, e)) == Some(Scaled(a, e))
  {
    var qr := DivMod(a, e);
    var ip := NatToString(qr.0);
    var fp := PadDigits(qr.1, e);
    assert ip + "." + fp == PointText(a, e);
    ParsePoint(ip, fp);
    assert ParseUnsigned(PointText(a, e)) == Some(PointValue(ip, fp));
    PointValueScaled(ip, fp);
    FractionValue(a, qr.0, qr.1, e);
  }

  lemma PointValueScaled(ip: string, fp: string)
    requires AllDigits(ip) && AllDigits(fp)
    ensures PointValue(ip, fp) == DigitsValue(ip) as real + Scaled(DigitsValue(fp), |fp|)
  {
  }

  /** Digits, a dot, digits: the value is the whole part plus the fraction. */
  lemma ParsePoint(ip: string, fp: string)
    requires |ip| >= 1 && AllDigits(ip) && AllDigits(fp)
    ensures (ip + "." + fp)[0] == ip[0]
    ensures ParseUnsigned(ip + "." + fp) == Some(PointValue(ip, fp))
  {
    var u := ip + "." + fp;
    PointIndex(ip, fp);
    assert u[..|ip|] == ip;
    assert u[|ip| + 1..] == fp;
  }

  lemma PointIndex(ip: string, fp: string)
    requires AllDigits(ip)
    ensures IndexOf(ip + "." + fp, '.') == |ip|
  {
    var u := ip + "." + fp;
    assert u[|ip|] == '.';
    assert forall k :: 0 <= k < |ip| ==> u[k] == ip[k];
  }

  lemma FractionValue(a: nat, q: nat, r: nat, e: nat)
    requires q * Pow10(e) + r == a
    ensures q as real + Scaled(r, e) == Scaled(a, e)
  {
    var p := Pow10(e);
    assert a as real == q as real * p as real + r as real;
  }

  /** Round half to even: the integer nearest to `z`, the even one on a tie
      (`numpy.rint`). */
  function RoundHalfEven(z: real): (k: int)
    ensures -0.5 <= k as real - z <= 0.5
  {
    var f := z.Floor;
    var d := z - f as real;
    if d < 0.5 then f
    else if d > 0.5 then f + 1
    else if f % 2 == 0 then f
    else f + 1
  }

  /** `round(x, 2)` on a numpy float: `rint(x * 100) / 100`. */
  function Round2(x: real): (r: real)
    ensures -0.005 <= r - x <= 0.005
  {
    RoundHalfEven(x * 100.0) as real / 100.0
  }

  /** A value with at most two decimals is left as it is (0, 100, -100). */
  lemma Round2Exact(k: int)
    ensures Round2(k as real / 100.0) == k as real / 100.0
  {
    assert (k as real / 100.0) * 100.0 == k as real;
    assert (k as real).Floor == k;
  }

  lemma RoundHalfEvenMonotone(y: real, z: real)
    requires y <= z
    ensures RoundHalfEven(y) <= RoundHalfEven(z)
  {
    if y.Floor == z.Floor {
    } else {
      assert y.Floor < z.Floor;
    }
  }

  /** Rounding keeps order. */
  lemma Round2Monotone(x: real, y: real)
    requires x <= y
    ensures Round2(x) <= Round2(y)
  {
    RoundHalfEvenMonotone(x * 100.0, y * 100.0);
  }
}

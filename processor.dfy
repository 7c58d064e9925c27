/** The field normalisers of the ETF processor: Korean magnitude strings to
    numbers in units of 억 (`convert_to_number`), and `"label(num%), …"`
    strings to an ordered label → percentage dictionary
    (`parse_ratio_string`). */
module Processor {
  import opened Py
  import opened Text
  import opened Numbers
  import opened Seqs

  /** A DataFrame cell: NaN/None, a number, or text. */
  datatype Cell = Null | Num(value: real) | Str(text: string)

  // ---------------------------------------------------------------------
  // Regular-expression building blocks

  /** The end of the longest run of `inClass` characters starting at `i`. */
  function RunEnd(s: string, i: nat, inClass: char -> bool): (j: nat)
    requires i <= |s|
    ensures i <= j <= |s|
    ensures forall k :: i <= k < j ==> inClass(s[k])
    ensures j == |s| || !inClass(s[j])
    decreases |s| - i
  {
    if i < |s| && inClass(s[i]) then RunEnd(s, i + 1, inClass) else i
  }

  /** `[\d\.]`. */
  predicate IsDigitOrDot(c: char) {
    IsDigit(c) || c == '.'
  }

  /** The group of `(-?[\d\.]+)\s*unit` if the pattern matches at `i`. The
      greedy run and the greedy blanks are maximal, and giving characters back
      can only put a digit, dot or blank in front of `unit`, so the match at
      `i` is decided by the maximal runs. */
  function UnitMatchAt(s: string, i: nat, unit: char): (g: Option<string>)
    requires i <= |s|
    ensures g.Some? ==> |g.value| >= 1 && IsNumericText(g.value) && i + |g.value| <= |s|
    ensures g.Some? ==> g.value == s[i..i + |g.value|]
  {
    var start := if i < |s| && s[i] == '-' then i + 1 else i;
    var e := RunEnd(s, start, IsDigitOrDot);
    var k := RunEnd(s, e, IsSpace);
    if e > start && k < |s| && s[k] == unit then Some(s[i..e]) else None
  }

  /** `re.search(r"(-?[\d\.]+)\s*unit", s)`: the group of the leftmost match
      at or after `i`. */
  function UnitSearch(s: string, unit: char, i: nat): (g: Option<string>)
    requires i <= |s|
    ensures g.Some? ==> |g.value| >= 1 && IsNumericText(g.value)
    decreases |s| - i
  {
    match UnitMatchAt(s, i, unit)
    case Some(g) => Some(g)
    case None => if i < |s| then UnitSearch(s, unit, i + 1) else None
  }

  /** The search fails exactly when the pattern matches at no position from
      `i` on. */
  lemma {:induction false} UnitSearchNone(s: string, unit: char, i: nat)
    requires i <= |s|
    ensures UnitSearch(s, unit, i).None? <==> forall j :: i <= j <= |s| ==> UnitMatchAt(s, j, unit).None?
    decreases |s| - i
  {
    if UnitMatchAt(s, i, unit).Some? {
      assert UnitSearch(s, unit, i).Some?;
    } else if i < |s| {
      UnitSearchNone(s, unit, i + 1);
      assert UnitSearch(s, unit, i) == UnitSearch(s, unit, i + 1);
      assert (forall j :: i <= j <= |s| ==> UnitMatchAt(s, j, unit).None?)
         <==> (forall j :: i + 1 <= j <= |s| ==> UnitMatchAt(s, j, unit).None?);
    } else {
      assert UnitSearch(s, unit, i).None?;
    }
  }

  /** The search is leftmost: when the pattern first matches at `j`, the
      search gives the group found there. */
  lemma {:induction false} UnitSearchFirst(s: string, unit: char, i: nat, j: nat)
    requires i <= j <= |s| && UnitMatchAt(s, j, unit).Some?
    requires forall l :: i <= l < j ==> UnitMatchAt(s, l, unit).None?
    ensures UnitSearch(s, unit, i) == UnitMatchAt(s, j, unit)
    decreases j - i
  {
    if i < j {
      assert UnitMatchAt(s, i, unit).None?;
      UnitSearchFirst(s, unit, i + 1, j);
    }
  }

  // ---------------------------------------------------------------------
  // convert_to_number

  /** The texts `convert_to_number` maps to 0 before looking at them. */
  predicate IsBlankToken(t: string) {
    t == "-" || t == "" || t == "N/A" || t == "null"
  }

  /** `float(group)` of one unit's match: 0 when the unit is absent, and the
      `ValueError` of `float()` (not caught in `convert_to_number`) when the
      group is not a number, such as `1.2.3`. */
  function UnitTerm(v: string, unit: char): (r: Outcome<real>)
    ensures UnitSearch(v, unit, 0).None? ==> r == Ok(0.0)
    ensures r.Raised? <==> UnitSearch(v, unit, 0).Some? && !IsDecimalText(UnitSearch(v, unit, 0).value)
    ensures UnitSearch(v, unit, 0).Some? && ParseDecimal(UnitSearch(v, unit, 0).value).Some?
        ==> r == Ok(ParseDecimal(UnitSearch(v, unit, 0).value).value)
  {
    match UnitSearch(v, unit, 0)
    case None => Ok(0.0)
    case Some(g) =>
      match ParseDecimal(g)
      case Some(x) => Ok(x)
      case None => Raised
  }

  /** The fallback: keep `[0-9.-]` and read what is left, 0 when that is
      empty or not a number. */
  function Fallback(v: string): (r: real)
    ensures IsNumericText(v) && IsDecimalText(v) ==> Some(r) == ParseDecimal(v)
    ensures IsDecimalText(FilterChars(v, IsNumberChar)) ==> Some(r) == ParseDecimal(FilterChars(v, IsNumberChar))
    ensures !IsDecimalText(FilterChars(v, IsNumberChar)) ==> r == 0.0
  {
    var clean := FilterChars(v, IsNumberChar);
    NumericTextKept(v);
    if clean == [] then 0.0
    else match ParseDecimal(clean) case Some(x) => x case None => 0.0
  }

  /** `convert_to_number` on text: blank tokens give 0; otherwise commas are
      removed and the rest is stripped and read by `ConvertCleaned`. */
  function ConvertText(text: string): (r: Outcome<real>)
    ensures IsBlankToken(Strip(text)) ==> r == Ok(0.0)
    ensures !IsBlankToken(Strip(text)) ==> r == ConvertCleaned(Strip(FilterChars(text, NotComma)))
  {
    if IsBlankToken(Strip(text)) then Ok(0.0)
    else ConvertCleaned(Strip(FilterChars(text, NotComma)))
  }

  /** The unit total: the number before 조 counts 10000 (억 per 조), the
      number before 억 counts 1. */
  function UnitTotal(v: string): (r: Outcome<real>)
    ensures UnitSearch(v, '조', 0).None? && UnitSearch(v, '억', 0).None? ==> r == Ok(0.0)
    ensures r.Raised? <==> UnitTerm(v, '조').Raised? || UnitTerm(v, '억').Raised?
    ensures r.Ok? ==> r.value == 10000.0 * UnitTerm(v, '조').value + UnitTerm(v, '억').value
  {
    var jo, eok := UnitTerm(v, '조'), UnitTerm(v, '억');
    if jo.Raised? || eok.Raised? then Raised else Ok(10000.0 * jo.value + eok.value)
  }

  /** A zero unit total falls back to reading the digits. */
  function ConvertCleaned(v: string): (r: Outcome<real>)
    ensures r.Raised? <==> UnitTotal(v).Raised?
    ensures UnitTotal(v) == Ok(0.0) ==> r == Ok(Fallback(v))
    ensures UnitTotal(v).Ok? && UnitTotal(v).value != 0.0 ==> r == UnitTotal(v)
  {
    var total :- UnitTotal(v);
    if total == 0.0 then Ok(Fallback(v)) else Ok(total)
  }

  /** `convert_to_number(val)` for one cell. A number cell is read through
      `str(val)`, which gives it back (see `ConvertRenderedNumber`). */
  function ConvertToNumber(c: Cell): (r: Outcome<real>)
    ensures c.Null? ==> r == Ok(0.0)
    ensures c.Num? ==> r == Ok(c.value)
    ensures c.Str? ==> r == ConvertText(c.text)
  {
    match c
    case Null => Ok(0.0)
    case Num(x) => Ok(x)
    case Str(t) => ConvertText(t)
  }

  /** Only a unit group that is not a number makes the conversion raise; the
      fallback never does. */
  lemma ConvertRaises(text: string)
    ensures ConvertText(text).Raised? <==>
      var v := Strip(FilterChars(text, NotComma));
      && !IsBlankToken(Strip(text))
      && (|| (UnitSearch(v, '조', 0).Some? && !IsDecimalText(UnitSearch(v, '조', 0).value))
          || (UnitSearch(v, '억', 0).Some? && !IsDecimalText(UnitSearch(v, '억', 0).value)))
  {
  }

  /** Text without either unit character is read by the fallback alone. */
  lemma {:induction false} NoUnitSearch(s: string, unit: char, i: nat)
    requires i <= |s|
    requires forall k :: 0 <= k < |s| ==> s[k] != unit
    ensures UnitSearch(s, unit, i).None?
    decreases |s| - i
  {
    if i < |s| {
      NoUnitSearch(s, unit, i + 1);
    }
  }

  /** Text made of digits, dots and minus signs is left alone by the comma
      removal, the strip and the `[^0-9.-]` filter. */
  lemma NumericTextKept(s: string)
    ensures IsNumericText(s) ==> FilterChars(s, NotComma) == s && FilterChars(s, IsNumberChar) == s
    ensures IsNumericText(s) ==> Strip(s) == s
  {
    if IsNumericText(s) {
      assert forall i :: 0 <= i < |s| ==> NotComma(s[i]) && IsNumberChar(s[i]);
      if s != [] {
        assert !IsSpace(s[0]) && !IsSpace(s[|s| - 1]);
        StripStripped(s);
      }
    }
  }

  /** The text of a number (`str()` of an `int` or a plain `float`) converts
      to that number. */
  lemma ConvertRenderedNumber(n: Number)
    ensures ConvertText(Render(n)) == Ok(Value(n))
  {
    RenderRoundTrip(n);
    ConvertNumericText(Render(n), Value(n));
  }

  lemma ConvertNumericText(s: string, x: real)
    requires IsNumericText(s) && ParseDecimal(s) == Some(x)
    ensures ConvertText(s) == Ok(x)
  {
    NumericTextKept(s);
    NumericNotBlank(s);
    NumericUnitTotal(s);
    assert ConvertText(s) == ConvertCleaned(s);
  }

  lemma NumericNotBlank(s: string)
    requires IsNumericText(s) && IsDecimalText(s)
    ensures !IsBlankToken(s)
  {
    assert Unsigned("-") == [];
  }

  lemma NumericUnitTotal(s: string)
    requires IsNumericText(s)
    ensures UnitTotal(s) == Ok(0.0)
  {
    NoUnitSearch(s, '조', 0);
    NoUnitSearch(s, '억', 0);
  }

  /** `"1조 2억"` is 10002 억. */
  lemma JoEokExample()
    ensures ConvertText("1조 2억") == Ok(10002.0)
  {
    JoEokDigits("1", "2", "1조 2억");
  }

  lemma JoEokDigits(a: string, b: string, v: string)
    requires a == "1" && b == "2" && v == a + "조 " + b + "억"
    ensures ConvertText(v) == Ok(10002.0)
  {
    assert DigitsValue(a) == 1 && DigitsValue(b) == 2 by {
      assert a[..0] == "" && b[..0] == "";
    }
    ConvertJoEok(a, b);
  }

  /** Any `a조 b억` with digit strings `a` and `b` converts to `a`·10000 + `b`
      (in 억), the unit total, or its zero fallback when both are zero. */
  lemma ConvertJoEok(a: string, b: string)
    requires AllDigits(a) && a != [] && AllDigits(b) && b != []
    ensures ConvertText(a + "조 " + b + "억") == Ok(10000.0 * (DigitsValue(a) as real) + DigitsValue(b) as real)
  {
    var v := a + "조 " + b + "억";
    JoEokCleaned(a, b);
    assert ConvertText(v) == ConvertCleaned(v);
    JoEokUnitTotal(a, b);
    if DigitsValue(a) == 0 && DigitsValue(b) == 0 {
      JoEokFallback(a, b);
    }
  }

  /** `a조 b억` has no comma, no outer blank and is no blank token. */
  lemma JoEokCleaned(a: string, b: string)
    requires AllDigits(a) && a != [] && AllDigits(b) && b != []
    ensures var v := a + "조 " + b + "억";
      FilterChars(v, NotComma) == v && Strip(v) == v && !IsBlankToken(v)
  {
    var v := a + "조 " + b + "억";
    JoEokShape(a, b);
    StripStripped(v);
    assert |v| >= 5;
  }

  /** The unit total of `a조 b억`. */
  lemma JoEokUnitTotal(a: string, b: string)
    requires AllDigits(a) && a != [] && AllDigits(b) && b != []
    ensures UnitTotal(a + "조 " + b + "억") == Ok(10000.0 * (DigitsValue(a) as real) + DigitsValue(b) as real)
  {
    var v := a + "조 " + b + "억";
    JoSearch(a, b);
    UnitTermDigits(v, '조', a);
    EokSearch(a, b);
    UnitTermDigits(v, '억', b);
  }

  /** A unit whose group is a digit string contributes that number. */
  lemma UnitTermDigits(v: string, unit: char, g: string)
    requires AllDigits(g) && g != [] && UnitSearch(v, unit, 0) == Some(g)
    ensures UnitTerm(v, unit) == Ok(DigitsValue(g) as real)
  {
    ParseDigits(g);
  }

  /** Where the digits and the units sit in `a조 b억`. */
  lemma JoEokShape(a: string, b: string)
    requires AllDigits(a) && a != [] && AllDigits(b) && b != []
    ensures var v, n := a + "조 " + b + "억", |a|;
      && |v| == n + 3 + |b|
      && (forall i :: 0 <= i < n ==> v[i] == a[i])
      && v[n] == '조' && v[n + 1] == ' ' && v[n + 2 + |b|] == '억'
      && (forall i :: 0 <= i < |b| ==> v[n + 2 + i] == b[i])
      && (forall i :: 0 <= i < |v| ==> NotComma(v[i]))
      && IsStripped(v)
  {
    var v, n := a + "조 " + b + "억", |a|;
    assert forall i :: 0 <= i < |b| ==> v[n + 2 + i] == b[i];
    forall i | 0 <= i < |v|
      ensures NotComma(v[i])
    {
      if i < n {
        assert v[i] == a[i];
      } else if n + 2 <= i < n + 2 + |b| {
        assert v[i] == b[i - n - 2];
      }
    }
  }

  lemma JoSearch(a: string, b: string)
    requires AllDigits(a) && a != [] && AllDigits(b) && b != []
    ensures UnitSearch(a + "조 " + b + "억", '조', 0) == Some(a)
  {
    var v, n := a + "조 " + b + "억", |a|;
    JoEokShape(a, b);
    assert RunEnd(v, 0, IsDigitOrDot) == n;
    assert RunEnd(v, n, IsSpace) == n;
    assert v[0..n] == a;
    assert UnitMatchAt(v, 0, '조') == Some(a);
  }

  lemma EokSearch(a: string, b: string)
    requires AllDigits(a) && a != [] && AllDigits(b) && b != []
    ensures UnitSearch(a + "조 " + b + "억", '억', 0) == Some(b)
  {
    var v, n := a + "조 " + b + "억", |a|;
    forall l | 0 <= l < n + 2
      ensures UnitMatchAt(v, l, '억').None?
    {
      EokNotBefore(a, b, l);
    }
    JoEokShape(a, b);
    var e := n + 2 + |b|;
    assert RunEnd(v, n + 2, IsDigitOrDot) == e;
    assert RunEnd(v, e, IsSpace) == e;
    assert v[n + 2..e] == b;
    assert UnitMatchAt(v, n + 2, '억') == Some(b);
    UnitSearchFirst(v, '억', 0, n + 2);
  }

  /** No `억` match starts in `a조 `: every run there ends at `조`. */
  lemma EokNotBefore(a: string, b: string, l: nat)
    requires AllDigits(a) && a != [] && AllDigits(b) && b != []
    requires l < |a| + 2
    ensures UnitMatchAt(a + "조 " + b + "억", l, '억').None?
  {
    var v, n := a + "조 " + b + "억", |a|;
    JoEokShape(a, b);
    if l < n {
      assert RunEnd(v, l, IsDigitOrDot) == n;
      assert RunEnd(v, n, IsSpace) == n;
    } else {
      assert RunEnd(v, l, IsDigitOrDot) == l;
    }
  }

  /** `0조 0억` and the like fall back to the digits `a + b`, which are 0. */
  lemma JoEokFallback(a: string, b: string)
    requires AllDigits(a) && a != [] && AllDigits(b) && b != []
    requires DigitsValue(a) == 0 && DigitsValue(b) == 0
    ensures Fallback(a + "조 " + b + "억") == 0.0
  {
    var x, y := a + "조 ", b + "억";
    assert a + "조 " + b + "억" == x + y;
    DigitsKept(a, "조 ");
    DigitsKept(b, "억");
    FilterCharsConcat(x, y, IsNumberChar);
    DigitsValueZeros(a, b);
    ParseDigits(a + b);
  }

  /** The `[^0-9.-]` filter keeps digits and drops a tail without `[0-9.-]`. */
  lemma DigitsKept(a: string, u: string)
    requires AllDigits(a)
    requires forall i :: 0 <= i < |u| ==> !IsNumberChar(u[i])
    ensures FilterChars(a + u, IsNumberChar) == a
  {
    FilterCharsConcat(a, u, IsNumberChar);
    assert forall i :: 0 <= i < |a| ==> IsNumberChar(a[i]);
  }

  /** Digits followed by text with no digit, dot, minus sign, comma, blank
      or unit character (`원`, `%`, …) convert to the digits' value: the
      unit total is 0 and the fallback keeps only the digits. */
  lemma ConvertDigitsSuffix(a: string, u: string)
    requires AllDigits(a) && a != []
    requires forall i :: 0 <= i < |u| ==> !IsNumberChar(u[i]) && u[i] != ',' && !IsSpace(u[i])
    requires forall i :: 0 <= i < |u| ==> u[i] != '조' && u[i] != '억'
    ensures ConvertText(a + u) == Ok(DigitsValue(a) as real)
  {
    var v := a + u;
    SuffixCleaned(a, u);
    assert ConvertText(v) == ConvertCleaned(v);
    NoUnitSearch(v, '조', 0);
    NoUnitSearch(v, '억', 0);
    assert UnitTotal(v) == Ok(0.0);
    FallbackDigitsSuffix(a, u);
  }

  /** Digits and such a suffix have no comma, no unit character, no outer
      blank, and are no blank token. */
  lemma SuffixCleaned(a: string, u: string)
    requires AllDigits(a) && a != []
    requires forall i :: 0 <= i < |u| ==> !IsNumberChar(u[i]) && u[i] != ',' && !IsSpace(u[i])
    requires forall i :: 0 <= i < |u| ==> u[i] != '조' && u[i] != '억'
    ensures var v := a + u;
      && FilterChars(v, NotComma) == v && Strip(v) == v && !IsBlankToken(v)
      && forall i :: 0 <= i < |v| ==> v[i] != '조' && v[i] != '억'
  {
    var v := a + u;
    forall i | 0 <= i < |v|
      ensures NotComma(v[i]) && v[i] != '조' && v[i] != '억'
    {
      if i < |a| {
        assert v[i] == a[i];
      } else {
        assert v[i] == u[i - |a|];
      }
    }
    assert v[0] == a[0] && v[|v| - 1] == (if u == [] then a[|a| - 1] else u[|u| - 1]);
    StripStripped(v);
  }

  /** The fallback on digits followed by text without `[0-9.-]` reads the
      digits. */
  lemma FallbackDigitsSuffix(a: string, u: string)
    requires AllDigits(a) && a != []
    requires forall i :: 0 <= i < |u| ==> !IsNumberChar(u[i])
    ensures Fallback(a + u) == DigitsValue(a) as real
  {
    DigitsKept(a, u);
    ParseDigits(a);
  }

  /** `"1234원"` is 1234. */
  lemma WonExample()
    ensures ConvertText("1234원") == Ok(1234.0)
  {
    var a, u := "1234", "원";
    assert a + u == "1234원";
    assert DigitsValue(a) == 1234 by {
      assert DigitsValue("1") == 1 by {
        assert "1"[..0] == "";
      }
      DigitsValueAppend("1", '2');
      assert "1" + ['2'] == "12";
      DigitsValueAppend("12", '3');
      assert "12" + ['3'] == "123";
      DigitsValueAppend("123", '4');
      assert "123" + ['4'] == a;
    }
    ConvertDigitsSuffix(a, u);
  }

  // ---------------------------------------------------------------------
  // parse_ratio_string

  /** The groups of `re.match(r"(.+?)\(([-\d\.]+)%\)", q)`, trying label
      lengths from `k` upwards as the lazy `.+?` does. `.` stops at a newline,
      and for each length the greedy number run is decided by its maximal
      extent, as only `%` may follow it. */
  function RatioMatchFrom(q: string, k: nat): (m: Option<(string, string)>)
    requires 1 <= k
    requires forall i :: 0 <= i < k - 1 && i < |q| ==> q[i] != '\n'
    ensures m.Some? ==> |m.value.0| >= k && |m.value.1| >= 1 && IsNumericText(m.value.1)
    ensures m.Some? ==> forall i :: 0 <= i < |m.value.0| ==> m.value.0[i] != '\n'
    ensures m.Some? ==> |m.value.0| + |m.value.1| + 3 <= |q|
    ensures m.Some? ==> q[..|m.value.0| + |m.value.1| + 3] == m.value.0 + "(" + m.value.1 + "%)"
    decreases |q| - k
  {
    if k >= |q| || q[k - 1] == '\n' then None
    else
      var e := RunEnd(q, k + 1, IsNumberChar);
      if q[k] == '(' && e > k + 1 && e + 1 < |q| && q[e] == '%' && q[e + 1] == ')' then
        assert q[..e + 2] == q[..k] + "(" + q[k + 1..e] + "%)";
        Some((q[..k], q[k + 1..e]))
      else
        RatioMatchFrom(q, k + 1)
  }

  /** The pattern `(.+?)\(([-\d\.]+)%\)` fits the start of `q` with a label
      of exactly `k` characters: no line break in the label, then `(`, a
      non-empty run of `[-\d\.]`, `%` and `)`. */
  predicate LabelFits(q: string, k: nat) {
    && 1 <= k < |q|
    && (forall i :: 0 <= i < k ==> q[i] != '\n')
    && q[k] == '('
    && var e := RunEnd(q, k + 1, IsNumberChar);
       e > k + 1 && e + 1 < |q| && q[e] == '%' && q[e + 1] == ')'
  }

  /** The match from `k` on fails exactly when no label of `k` or more
      characters fits. */
  lemma {:induction false} RatioMatchNone(q: string, k: nat)
    requires 1 <= k
    requires forall i :: 0 <= i < k - 1 && i < |q| ==> q[i] != '\n'
    ensures RatioMatchFrom(q, k).None? <==> forall j :: k <= j ==> !LabelFits(q, j)
    decreases |q| - k
  {
    if k >= |q| || q[k - 1] == '\n' {
      forall j | k <= j
        ensures !LabelFits(q, j)
      {
        if j < |q| {
          assert q[k - 1] == '\n';
        }
      }
    } else if !LabelFits(q, k) {
      RatioMatchNone(q, k + 1);
      assert RatioMatchFrom(q, k) == RatioMatchFrom(q, k + 1);
    }
  }

  /** The label is lazy: when the shortest label from `k` on that fits has
      `j` characters, the match takes it, with the number run after it. */
  lemma {:induction false} RatioMatchShortest(q: string, k: nat, j: nat)
    requires 1 <= k <= j && LabelFits(q, j)
    requires forall i :: 0 <= i < k - 1 && i < |q| ==> q[i] != '\n'
    requires forall l :: k <= l < j ==> !LabelFits(q, l)
    ensures RatioMatchFrom(q, k) == Some((q[..j], q[j + 1..RunEnd(q, j + 1, IsNumberChar)]))
    decreases j - k
  {
    if k < j {
      assert q[k - 1] != '\n';
      assert !LabelFits(q, k);
      RatioMatchShortest(q, k + 1, j);
    }
  }

  /** One comma-separated part: the stripped label and the number, or
      nothing when the part does not match or `float()` rejects the number. */
  function ParseRatioPart(p: string): (r: Option<(string, real)>)
    ensures r.Some? ==> IsStripped(r.value.0)
  {
    var q := Strip(p);
    var m := RatioMatchFrom(q, 1);
    if m.None? then None
    else
      var v := ParseDecimal(m.value.1);
      if v.None? then None else Some((Strip(m.value.0), v.value))
  }

  /** A part is read exactly when the pattern matches its stripped text and
      `float()` accepts the number; the entry is then the stripped lazy label
      and that number. */
  lemma ParseRatioPartMatch(p: string)
    ensures var m := RatioMatchFrom(Strip(p), 1);
      ParseRatioPart(p).Some? <==> m.Some? && IsDecimalText(m.value.1)
    ensures var m := RatioMatchFrom(Strip(p), 1);
      ParseRatioPart(p).Some? ==> m.Some? && ParseRatioPart(p).value == (Strip(m.value.0), ParseDecimal(m.value.1).value)
  {
    var m := RatioMatchFrom(Strip(p), 1);
    if m.Some? {
      var v := ParseDecimal(m.value.1);
      assert v.Some? <==> IsDecimalText(m.value.1);
      if v.Some? {
        assert ParseRatioPart(p) == Some((Strip(m.value.0), v.value));
      } else {
        assert ParseRatioPart(p).None?;
      }
    } else {
      assert ParseRatioPart(p).None?;
    }
  }

  /** An insertion-ordered dictionary from labels to percentages. */
  predicate DistinctKeys(d: seq<(string, real)>) {
    forall i, j :: 0 <= i < j < |d| ==> d[i].0 != d[j].0
  }

  /** Where `k` sits among the keys of `d`, or `|d|` when it is not a key. */
  function KeyIndex(d: seq<(string, real)>, k: string): (i: nat)
    ensures i <= |d|
    ensures i < |d| ==> d[i].0 == k
    ensures forall j :: 0 <= j < i ==> d[j].0 != k
  {
    if d == [] then 0
    else if d[0].0 == k then 0
    else 1 + KeyIndex(d[1..], k)
  }

  /** `d.get(k)`. */
  function Find(d: seq<(string, real)>, k: string): (r: Option<real>)
    ensures r.None? <==> forall i :: 0 <= i < |d| ==> d[i].0 != k
    ensures r.Some? ==> exists i :: 0 <= i < |d| && d[i] == (k, r.value)
  {
    var i := KeyIndex(d, k);
    if i < |d| then Some(d[i].1) else None
  }

  /** `d[k] = v`: a new key goes last, an existing key keeps its place. */
  function Put(d: seq<(string, real)>, k: string, v: real): (r: seq<(string, real)>)
    requires DistinctKeys(d)
    ensures DistinctKeys(r)
    ensures |r| == |d| || |r| == |d| + 1
    ensures forall j :: 0 <= j < |d| ==> r[j].0 == d[j].0
    ensures Find(d, k).None? ==> r == d + [(k, v)]
  {
    var i := KeyIndex(d, k);
    if i < |d| then d[i := (k, v)] else d + [(k, v)]
  }

  /** After `d[k] = v`, `k` reads `v` and every other key reads as before. */
  lemma PutFind(d: seq<(string, real)>, k: string, v: real, k': string)
    requires DistinctKeys(d)
    ensures Find(Put(d, k, v), k) == Some(v)
    ensures k' != k ==> Find(Put(d, k, v), k') == Find(d, k')
  {
    var r, i := Put(d, k, v), KeyIndex(d, k);
    assert r[i] == (k, v);
    assert KeyIndex(r, k) == i;
    if k' != k {
      var i' := KeyIndex(d, k');
      if i' < |d| {
        KeyIndexIs(r, k', i');
      } else {
        assert forall j :: 0 <= j < |r| ==> r[j].0 != k';
      }
    }
  }

  lemma KeyIndexIs(d: seq<(string, real)>, k: string, i: nat)
    requires i < |d| && d[i].0 == k
    requires forall j :: 0 <= j < i ==> d[j].0 != k
    ensures KeyIndex(d, k) == i
  {
  }

  /** Adding one part to the dictionary. */
  function AddPart(d: seq<(string, real)>, p: string): (r: seq<(string, real)>)
    requires DistinctKeys(d)
    ensures DistinctKeys(r)
  {
    var e := ParseRatioPart(p);
    if e.Some? then Put(d, e.value.0, e.value.1) else d
  }

  /** The dictionary the loop over `parts` builds. */
  function RatioEntries(parts: seq<string>): (d: seq<(string, real)>)
    ensures DistinctKeys(d)
  {
    if parts == [] then []
    else AddPart(RatioEntries(parts[..|parts| - 1]), parts[|parts| - 1])
  }

  /** The value of the last part labelled `name`, read independently of the
      dictionary. */
  function LastValue(parts: seq<string>, name: string): Option<real> {
    if parts == [] then None
    else
      var p := ParseRatioPart(parts[|parts| - 1]);
      if p.Some? && p.value.0 == name then Some(p.value.1)
      else LastValue(parts[..|parts| - 1], name)
  }

  /** A name maps to the value of its last matching part: a repeated name
      keeps its last value, and labels of no matching part are absent. */
  lemma {:induction false} RatioEntriesFind(parts: seq<string>, name: string)
    ensures Find(RatioEntries(parts), name) == LastValue(parts, name)
  {
    if parts != [] {
      RatioEntriesFind(parts[..|parts| - 1], name);
      var e := ParseRatioPart(parts[|parts| - 1]);
      if e.Some? {
        PutFind(RatioEntries(parts[..|parts| - 1]), e.value.0, e.value.1, name);
      }
    }
  }

  /** `parse_ratio_string` on text. */
  function ParseRatioText(s: string): (d: seq<(string, real)>)
    ensures DistinctKeys(d)
    ensures Strip(s) == [] ==> d == []
  {
    var t := Strip(s);
    if t == [] then [] else RatioEntries(Split(t, ','))
  }

  /** `parse_ratio_string` on a cell: NaN gives `{}`, and so does a number,
      whose `str()` holds no `(`. */
  function ParseRatio(c: Cell): (d: seq<(string, real)>)
    ensures DistinctKeys(d)
    ensures !c.Str? ==> d == []
  {
    match c
    case Str(s) => ParseRatioText(s)
    case _ => []
  }

  /** `parse_ratio_string`: blank text and non-text cells give `{}`. */
  method ParseRatioString(c: Cell) returns (d: seq<(string, real)>)
    ensures d == ParseRatio(c)
  {
    if !c.Str? {
      return [];
    }
    var t := Strip(c.text);
    if t == [] {
      return [];
    }
    d := FillRatios(Split(t, ','));
  }

  /** The loop of `parse_ratio_string`, filling the dictionary part by part. */
  method FillRatios(parts: seq<string>) returns (d: seq<(string, real)>)
    ensures d == RatioEntries(parts)
  {
    d := [];
    var i := 0;
    while i < |parts|
      invariant 0 <= i <= |parts|
      invariant d == RatioEntries(parts[..i])
    {
      assert parts[..i + 1][..i] == parts[..i];
      var entry := ParseRatioPart(parts[i]);
      if entry.Some? {
        d := Put(d, entry.value.0, entry.value.1);
      }
      i := i + 1;
    }
    assert parts[..|parts|] == parts;
  }
}

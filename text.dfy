/** Python string operations the model relies on: `str.strip`, `str.split`,
    `str.join`, `str.replace`, character filtering and decimal digits. */
module Text {

  /** `str.isspace` for one character: the characters Python's `strip()` removes
      and its regular expressions match with `\s`. */
  predicate IsSpace(c: char) {
    ('\t' <= c <= '\r') || ('\U{1C}' <= c <= ' ') || c == '\U{85}' || c == '\U{A0}'
    || c == '\U{1680}' || ('\U{2000}' <= c <= '\U{200A}') || c == '\U{2028}' || c == '\U{2029}'
    || c == '\U{202F}' || c == '\U{205F}' || c == '\U{3000}'
  }

  /** `s.lstrip()`: the suffix left after dropping every leading space. */
  function LStrip(s: string): (r: string)
    ensures |r| <= |s| && r == s[|s| - |r|..]
    ensures r == [] || !IsSpace(r[0])
    ensures forall i :: 0 <= i < |s| - |r| ==> IsSpace(s[i])
    decreases |s|
  {
    if s != [] && IsSpace(s[0]) then LStrip(s[1..]) else s
  }

  /** `s.rstrip()`: the prefix left after dropping every trailing space. */
  function RStrip(s: string): (r: string)
    ensures |r| <= |s| && r == s[..|r|]
    ensures r == [] || !IsSpace(r[|r| - 1])
    ensures forall i :: |r| <= i < |s| ==> IsSpace(s[i])
    decreases |s|
  {
    if s != [] && IsSpace(s[|s| - 1]) then RStrip(s[..|s| - 1]) else s
  }

  /** `s.strip()`. */
  function Strip(s: string): string {
    LStrip(RStrip(s))
  }

  /** A string that neither starts nor ends with a space. */
  predicate IsStripped(s: string) {
    s == [] || (!IsSpace(s[0]) && !IsSpace(s[|s| - 1]))
  }

  lemma StripStripped(s: string)
    requires IsStripped(s)
    ensures Strip(s) == s
  {
  }

  /** Stripping a string that ends with a non-space character only drops its
      leading spaces. */
  lemma {:induction false} StripLeadingSpace(s: string, t: string)
    requires forall i :: 0 <= i < |s| ==> IsSpace(s[i])
    requires t != [] && IsStripped(t)
    ensures Strip(s + t) == t
  {
    assert RStrip(s + t) == s + t;
    if s != [] {
      assert (s + t)[1..] == s[1..] + t;
      StripLeadingSpace(s[1..], t);
    } else {
      assert s + t == t;
    }
  }

  /** Index of the first `c` in `s`, or `|s|` when there is none. */
  function IndexOf(s: string, c: char): (i: nat)
    ensures i <= |s|
    ensures i < |s| ==> s[i] == c
    ensures forall k :: 0 <= k < i ==> s[k] != c
  {
    if s == [] then 0 else if s[0] == c then 0 else 1 + IndexOf(s[1..], c)
  }

  /** `sep.join(parts)`. */
  function Join(parts: seq<string>, sep: string): string {
    if |parts| == 0 then ""
    else if |parts| == 1 then parts[0]
    else parts[0] + sep + Join(parts[1..], sep)
  }

  /** `s.split(c)` for a one-character separator: the pieces between the
      occurrences of `c`, empty pieces included; joining them back with `c`
      gives `s` again. */
  function Split(s: string, c: char): (parts: seq<string>)
    ensures |parts| >= 1
    ensures forall k, j :: 0 <= k < |parts| && 0 <= j < |parts[k]| ==> parts[k][j] != c
    ensures Join(parts, [c]) == s
    decreases |s|
  {
    var i := IndexOf(s, c);
    if i == |s| then [s]
    else
      var rest := Split(s[i + 1..], c);
      assert s == s[..i] + [c] + s[i + 1..];
      [s[..i]] + rest
  }

  /** Splitting a `", "`-join of pieces that contain no comma gives back the
      pieces, each but the first with the leading blank. */
  lemma {:induction false} SplitJoinCommaSpace(parts: seq<string>)
    requires |parts| >= 1
    requires forall k, j :: 0 <= k < |parts| && 0 <= j < |parts[k]| ==> parts[k][j] != ','
    ensures var r := Split(Join(parts, ", "), ',');
      |r| == |parts| && r[0] == parts[0] && forall k :: 1 <= k < |parts| ==> r[k] == " " + parts[k]
  {
    var s := Join(parts, ", ");
    if |parts| == 1 {
      assert IndexOf(s, ',') == |s|;
    } else {
      var tail := Join(parts[1..], ", ");
      assert s == parts[0] + [','] + (" " + tail);
      IndexOfPrefix(parts[0], " " + tail);
      assert s[..|parts[0]|] == parts[0];
      assert s[|parts[0]| + 1..] == " " + tail;
      SplitJoinCommaSpace(parts[1..]);
      SplitSpacePrefix(tail);
    }
  }

  lemma IndexOfPrefix(p: string, rest: string)
    requires forall j :: 0 <= j < |p| ==> p[j] != ','
    ensures IndexOf(p + [','] + rest, ',') == |p|
  {
    var s := p + [','] + rest;
    assert s[|p|] == ',';
    assert forall k :: 0 <= k < |p| ==> s[k] == p[k];
  }

  /** A leading blank stays with the first piece of a split. */
  lemma SplitSpacePrefix(t: string)
    ensures var r := Split(" " + t, ',');
      |r| == |Split(t, ',')| && r[0] == " " + Split(t, ',')[0] && r[1..] == Split(t, ',')[1..]
  {
    var i := IndexOf(t, ',');
    var s := " " + t;
    assert forall k :: 1 <= k < |s| ==> s[k] == t[k - 1];
    assert IndexOf(s, ',') == i + 1;
    if i < |t| {
      assert s[..i + 1] == " " + t[..i];
      assert s[i + 2..] == t[i + 1..];
    }
  }

  /** Everything but the comma, for `s.replace(",", "")`. */
  function NotComma(c: char): bool {
    c != ','
  }

  /** `s.replace(a, b)` for single characters. */
  function ReplaceChar(s: string, a: char, b: char): (r: string)
    ensures |r| == |s|
    ensures forall i :: 0 <= i < |s| ==> r[i] == (if s[i] == a then b else s[i])
  {
    seq(|s|, i requires 0 <= i < |s| => if s[i] == a then b else s[i])
  }

  /** The characters of `s` that `keep` accepts, in order (`re.sub` with a
      negated character class, and `str.replace(c, "")`). */
  function FilterChars(s: string, keep: char -> bool): (r: string)
    ensures |r| <= |s|
    ensures forall i :: 0 <= i < |r| ==> keep(r[i])
    ensures (forall i :: 0 <= i < |s| ==> keep(s[i])) ==> r == s
    ensures (forall i :: 0 <= i < |s| ==> !keep(s[i])) ==> r == []
  {
    if s == [] then ""
    else (if keep(s[0]) then [s[0]] else []) + FilterChars(s[1..], keep)
  }

  /** Filtering works piece by piece: the kept characters of `a + b` are
      those of `a` followed by those of `b`. With the two cases above (all
      kept, none kept) this pins down every filter result. */
  lemma {:induction false} FilterCharsConcat(a: string, b: string, keep: char -> bool)
    ensures FilterChars(a + b, keep) == FilterChars(a, keep) + FilterChars(b, keep)
  {
    if a == [] {
      assert a + b == b;
    } else {
      assert (a + b)[0] == a[0] && (a + b)[1..] == a[1..] + b;
      FilterCharsConcat(a[1..], b, keep);
    }
  }

  predicate IsDigit(c: char) {
    '0' <= c <= '9'
  }

  predicate AllDigits(s: string) {
    forall i :: 0 <= i < |s| ==> IsDigit(s[i])
  }

  function DigitChar(d: nat): (c: char)
    requires d < 10
    ensures IsDigit(c) && c as int - '0' as int == d
  {
    ('0' as int + d) as char
  }

  function DigitValue(c: char): (d: nat)
    requires IsDigit(c)
    ensures d < 10 && DigitChar(d) == c
  {
    c as int - '0' as int
  }

  function Pow10(n: nat): (p: nat)
    ensures p >= 1
  {
    if n == 0 then 1 else 10 * Pow10(n - 1)
  }

  /** The number a string of decimal digits denotes (leading zeros allowed). */
  function DigitsValue(s: string): (v: nat)
    requires AllDigits(s)
    ensures v < Pow10(|s|)
  {
    if s == [] then 0 else DigitsValue(s[..|s| - 1]) * 10 + DigitValue(s[|s| - 1])
  }

  lemma DigitsValueAppend(s: string, c: char)
    requires AllDigits(s) && IsDigit(c)
    ensures AllDigits(s + [c]) && DigitsValue(s + [c]) == DigitsValue(s) * 10 + DigitValue(c)
  {
    assert (s + [c])[..|s|] == s;
  }

  /** Two strings of zeros joined are still zero. */
  lemma {:induction false} DigitsValueZeros(a: string, b: string)
    requires AllDigits(a) && AllDigits(b) && DigitsValue(a) == 0 && DigitsValue(b) == 0
    ensures AllDigits(a + b) && DigitsValue(a + b) == 0
  {
    if b == [] {
      assert a + b == a;
    } else {
      var c, d := b[..|b| - 1], b[|b| - 1];
      assert DigitsValue(b) == DigitsValue(c) * 10 + DigitValue(d);
      DigitsValueZeros(a, c);
      assert a + b == (a + c) + [d];
      DigitsValueAppend(a + c, d);
    }
  }

  /** `str(n)` for a natural number: the shortest digit string denoting `n`. */
  function NatToString(n: nat): (s: string)
    ensures |s| >= 1 && AllDigits(s)
    ensures DigitsValue(s) == n
    ensures |s| == 1 || s[0] != '0'
  {
    if n < 10 then [DigitChar(n)]
    else
      var s := NatToString(n / 10) + [DigitChar(n % 10)];
      DigitsValueAppend(NatToString(n / 10), DigitChar(n % 10));
      s
  }

  lemma NatToStringInjective(m: nat, n: nat)
    requires NatToString(m) == NatToString(n)
    ensures m == n
  {
  }

  /** `n` written with exactly `w` decimal digits, zero-padded on the left
      (`f"{n:0{w}d}"` for `n < 10^w`). */
  function PadDigits(n: nat, w: nat): (s: string)
    requires n < Pow10(w)
    ensures |s| == w && AllDigits(s)
    ensures DigitsValue(s) == n
  {
    if w == 0 then ""
    else
      assert n / 10 < Pow10(w - 1);
      var s := PadDigits(n / 10, w - 1) + [DigitChar(n % 10)];
      DigitsValueAppend(PadDigits(n / 10, w - 1), DigitChar(n % 10));
      s
  }

  /** Zero-padding a digit string's value back to its width gives the string. */
  lemma {:induction false} PadDigitsOfValue(s: string)
    requires AllDigits(s)
    ensures PadDigits(DigitsValue(s), |s|) == s
  {
    if s != [] {
      var init := s[..|s| - 1];
      PadDigitsOfValue(init);
      var n := DigitsValue(s);
      assert n / 10 == DigitsValue(init) && n % 10 == DigitValue(s[|s| - 1]);
      assert s == init + [s[|s| - 1]];
    }
  }
}

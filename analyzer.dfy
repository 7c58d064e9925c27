/** The dividend metrics engine: dividend events are normalised (dotted dates
    parsed, amounts made numeric), grouped by security code, and each group is
    reduced to a payout-frequency class, a trailing one-year payout total and a
    year-over-year growth rate. The evaluation instant `now` is a parameter. */
module Analyzer {
  import opened Py
  import opened Text
  import opened Numbers
  import opened Dates
  import opened Seqs
  import opened Ordering

  /** A `dividendAmount` cell before `pd.to_numeric`: a number, text, or
      missing (NaN). */
  datatype RawAmount = AmountNumber(value: real) | AmountText(text: string) | AmountMissing

  /** One row of the dividend history: security code (`종목코드`), the
      ex-dividend date as text, and the amount. A missing code is NaN. */
  datatype RawEvent = RawEvent(code: Option<string>, exDividendAt: Option<string>, dividendAmount: RawAmount)

  /** A row after normalisation: `date` is `None` for NaT. */
  datatype Event = Event(code: Option<string>, date: Option<Date>, amount: real)

  // ---------------------------------------------------------------------
  // Normalisation

  /** `.str.replace('.', '-')` then `pd.to_datetime(errors='coerce')`. */
  function NormaliseDate(s: Option<string>): (d: Option<Date>)
    ensures d.Some? ==> s.Some? && ValidDate(d.value) && InTimestampRange(d.value)
  {
    match s
    case None => None
    case Some(t) => ParseIso(ReplaceChar(t, '.', '-'))
  }

  /** `pd.to_numeric(errors='coerce').fillna(0)`: a number stays, text that
      is a decimal number becomes that number, anything else becomes 0. */
  function NormaliseAmount(a: RawAmount): (r: real)
    ensures a.AmountNumber? ==> r == a.value
    ensures a.AmountMissing? ==> r == 0.0
    ensures a.AmountText? && !IsDecimalText(a.text) ==> r == 0.0
  {
    match a
    case AmountNumber(v) => v
    case AmountText(t) => (match ParseDecimal(t) case Some(v) => v case None => 0.0)
    case AmountMissing => 0.0
  }

  function NormaliseEvent(e: RawEvent): Event {
    Event(e.code, NormaliseDate(e.exDividendAt), NormaliseAmount(e.dividendAmount))
  }

  /** The normalised copy of the history: one event per row, codes kept. */
  function Normalise(raw: seq<RawEvent>): (evs: seq<Event>)
    ensures |evs| == |raw|
    ensures forall i :: 0 <= i < |raw| ==> evs[i].code == raw[i].code
    ensures forall i :: 0 <= i < |raw| ==> evs[i].date == NormaliseDate(raw[i].exDividendAt)
    ensures forall i :: 0 <= i < |raw| ==> evs[i].amount == NormaliseAmount(raw[i].dividendAmount)
  {
    Map(raw, NormaliseEvent)
  }

  /** A date written `YYYY.MM.DD` is read as that date. */
  lemma DottedDateRead(d: Date)
    requires ValidDate(d) && InTimestampRange(d)
    ensures NormaliseDate(Some(FormatDotted(d))) == Some(d)
  {
    DottedToIso(d);
    ParseFormatIso(d);
  }

  /** A date already written `YYYY-MM-DD` is read as that date too. */
  lemma IsoDateRead(d: Date)
    requires ValidDate(d) && InTimestampRange(d)
    ensures NormaliseDate(Some(FormatIso(d))) == Some(d)
  {
    var s := FormatIso(d);
    assert forall i :: 0 <= i < |s| ==> s[i] != '.' by {
      assert s == PadDigits(d.year, 4) + "-" + PadDigits(d.month, 2) + "-" + PadDigits(d.day, 2);
    }
    assert ReplaceChar(s, '.', '-') == s;
    ParseFormatIso(d);
  }

  /** An amount given as text reads as the number it spells. */
  lemma AmountTextRead(n: Number)
    ensures NormaliseAmount(AmountText(Render(n))) == Value(n)
  {
    RenderRoundTrip(n);
  }

  // ---------------------------------------------------------------------
  // The two windows

  /** `datetime.now() - pd.DateOffset(years=1)`. */
  function OneYearAgo(now: Instant): (t: Instant)
    requires ValidInstant(now)
    ensures ValidInstant(t) && Before(t, now)
  {
    YearsBefore(now, 1)
  }

  /** `datetime.now() - pd.DateOffset(years=2)`. */
  function TwoYearsAgo(now: Instant): (t: Instant)
    requires ValidInstant(now)
    ensures ValidInstant(t) && Before(t, OneYearAgo(now))
  {
    YearsBeforeOrdered(now, 1, 2);
    YearsBefore(now, 2)
  }

  /** `date >= t`; NaT compares false. */
  predicate OnOrAfter(d: Option<Date>, t: Instant) {
    d.Some? && !Before(Midnight(d.value), t)
  }

  /** `date < t`; NaT compares false. */
  predicate StrictlyBefore(d: Option<Date>, t: Instant) {
    d.Some? && Before(Midnight(d.value), t)
  }

  /** The trailing window: on or after one year ago, with no upper bound. */
  predicate InRecent(e: Event, now: Instant)
    requires ValidInstant(now)
    ensures InRecent(e, now) ==> e.date.Some?
  {
    OnOrAfter(e.date, OneYearAgo(now))
  }

  /** The year before it: from two years ago up to one year ago, exclusive. */
  predicate InPrior(e: Event, now: Instant)
    requires ValidInstant(now)
    ensures InPrior(e, now) ==> e.date.Some? && !InRecent(e, now)
  {
    OnOrAfter(e.date, TwoYearsAgo(now)) && StrictlyBefore(e.date, OneYearAgo(now))
  }

  /** Both windows together: on or after two years ago. */
  predicate InTwoYears(e: Event, now: Instant)
    requires ValidInstant(now)
  {
    OnOrAfter(e.date, TwoYearsAgo(now))
  }

  function IsRecent(now: Instant): Event -> bool
    requires ValidInstant(now)
  {
    e => InRecent(e, now)
  }

  function IsPrior(now: Instant): Event -> bool
    requires ValidInstant(now)
  {
    e => InPrior(e, now)
  }

  function IsInTwoYears(now: Instant): Event -> bool
    requires ValidInstant(now)
  {
    e => InTwoYears(e, now)
  }

  function AmountOf(e: Event): real {
    e.amount
  }

  /** `len(recent_dividends)`. */
  function Frequency(group: seq<Event>, now: Instant): (f: nat)
    requires ValidInstant(now)
    ensures f <= |group|
    ensures f == 0 <==> forall i :: 0 <= i < |group| ==> !InRecent(group[i], now)
  {
    FilterEmpty(group, IsRecent(now));
    |Filter(group, IsRecent(now))|
  }

  /** `last_12_months`. */
  function LastTotal(group: seq<Event>, now: Instant): (total: real)
    requires ValidInstant(now)
    ensures AmountsNonNegative(group) ==> total >= 0.0
  {
    WindowNonNegative(group, IsRecent(now));
    SumOf(Filter(group, IsRecent(now)), AmountOf)
  }

  /** `prior_12_months`. */
  function PriorTotal(group: seq<Event>, now: Instant): (total: real)
    requires ValidInstant(now)
    ensures AmountsNonNegative(group) ==> total >= 0.0
  {
    WindowNonNegative(group, IsPrior(now));
    SumOf(Filter(group, IsPrior(now)), AmountOf)
  }

  /** No event lies in both windows. */
  lemma WindowsDisjoint(e: Event, now: Instant)
    requires ValidInstant(now)
    ensures !(InRecent(e, now) && InPrior(e, now))
    ensures InTwoYears(e, now) <==> InRecent(e, now) || InPrior(e, now)
  {
    YearsBeforeOrdered(now, 1, 2);
    if e.date.Some? {
      BeforeTotal(Midnight(e.date.value), OneYearAgo(now));
      if !Before(Midnight(e.date.value), OneYearAgo(now)) {
        BeforeTotal(Midnight(e.date.value), TwoYearsAgo(now));
        if Before(Midnight(e.date.value), TwoYearsAgo(now)) {
          BeforeTransitive(Midnight(e.date.value), TwoYearsAgo(now), OneYearAgo(now));
        }
      }
    }
  }

  /** An event whose date did not parse is in neither window. */
  lemma UnknownDateInNoWindow(e: Event, now: Instant)
    requires ValidInstant(now) && e.date.None?
    ensures !InRecent(e, now) && !InPrior(e, now) && !InTwoYears(e, now)
  {
  }

  /** An event dated after `now` still counts as recent. */
  lemma FutureEventIsRecent(e: Event, now: Instant)
    requires ValidInstant(now) && e.date.Some? && Before(now, Midnight(e.date.value))
    ensures InRecent(e, now)
  {
    BeforeTotal(Midnight(e.date.value), OneYearAgo(now));
    if Before(Midnight(e.date.value), OneYearAgo(now)) {
      BeforeTransitive(Midnight(e.date.value), OneYearAgo(now), now);
      BeforeTransitive(now, Midnight(e.date.value), now);
      BeforeTotal(now, now);
    }
  }

  /** An event on the anniversary date one year back counts only when the
      clock reads exactly midnight: `now` carries the time of day and the
      event's date does not. */
  lemma AnniversaryCountsAtMidnightOnly(code: Option<string>, amount: real, now: Instant)
    requires ValidInstant(now)
    ensures InRecent(Event(code, Some(OneYearAgo(now).date), amount), now) <==> now.tick == 0
  {
  }

  /** Summing the two-year window is summing both windows. */
  lemma {:induction false} TwoYearTotal(group: seq<Event>, now: Instant)
    requires ValidInstant(now)
    ensures SumOf(Filter(group, IsInTwoYears(now)), AmountOf) == LastTotal(group, now) + PriorTotal(group, now)
  {
    if group != [] {
      TwoYearTotal(group[1..], now);
      WindowsDisjoint(group[0], now);
      SumFilterCons(group, IsInTwoYears(now));
      SumFilterCons(group, IsRecent(now));
      SumFilterCons(group, IsPrior(now));
    }
  }

  lemma SumFilterCons(s: seq<Event>, p: Event -> bool)
    requires s != []
    ensures SumOf(Filter(s, p), AmountOf)
         == (if p(s[0]) then s[0].amount else 0.0) + SumOf(Filter(s[1..], p), AmountOf)
  {
    var rest := Filter(s[1..], p);
    if p(s[0]) {
      assert Filter(s, p) == [s[0]] + rest;
      assert ([s[0]] + rest)[1..] == rest;
    } else {
      assert Filter(s, p) == [] + rest;
      assert [] + rest == rest;
    }
  }

  // ---------------------------------------------------------------------
  // Frequency class

  /** `배당주기`. */
  datatype Period = Monthly | Quarterly | SemiAnnual | Annual | NoDividend

  /** The label `_calculate_metrics` writes for each class. */
  function Label(p: Period): string {
    match p
    case Monthly => "월배당"
    case Quarterly => "분기배당"
    case SemiAnnual => "반기배당"
    case Annual => "연배당"
    case NoDividend => "배당없음"
  }

  /** Labels tell the classes apart. */
  lemma LabelInjective(p: Period, q: Period)
    ensures Label(p) == Label(q) ==> p == q
  {
  }

  /** Payouts per year the class stands for at least. */
  function Rank(p: Period): nat {
    match p
    case NoDividend => 0
    case Annual => 1
    case SemiAnnual => 2
    case Quarterly => 4
    case Monthly => 10
  }

  /** The first threshold the frequency reaches, from the top. */
  function Classify(frequency: nat): (p: Period)
    ensures Rank(p) <= frequency
    ensures p == NoDividend <==> frequency == 0
    ensures p == Monthly <==> frequency >= 10
  {
    if frequency >= 10 then Monthly
    else if frequency >= 4 then Quarterly
    else if frequency >= 2 then SemiAnnual
    else if frequency >= 1 then Annual
    else NoDividend
  }

  /** The class of a frequency is the highest class whose threshold it
      reaches. */
  lemma ClassifyHighest(frequency: nat, q: Period)
    requires Rank(q) <= frequency
    ensures Rank(q) <= Rank(Classify(frequency))
  {
  }

  /** More payouts never give a lower class. */
  lemma ClassifyMonotone(m: nat, n: nat)
    requires m <= n
    ensures Rank(Classify(m)) <= Rank(Classify(n))
  {
    ClassifyHighest(n, Classify(m));
  }

  // ---------------------------------------------------------------------
  // Growth rate

  /** `yoy_growth_rate` before rounding. */
  function Growth(last: real, prior: real): (g: real)
    ensures prior > 0.0 && last > 0.0 ==> g * prior == (last - prior) * 100.0
    ensures prior == 0.0 && last > 0.0 ==> g == 100.0
    ensures prior > 0.0 && last == 0.0 ==> g == -100.0
    ensures (prior < 0.0 || last < 0.0 || (prior == 0.0 && last == 0.0)) ==> g == 0.0
  {
    if prior > 0.0 && last > 0.0 then ((last - prior) / prior) * 100.0
    else if prior == 0.0 && last > 0.0 then 100.0
    else if prior > 0.0 && last == 0.0 then -100.0
    else 0.0
  }

  /** With non-negative totals the rate is at least -100, and exactly -100
      when payouts stopped. */
  lemma GrowthFloor(last: real, prior: real)
    requires last >= 0.0 && prior >= 0.0
    ensures Growth(last, prior) >= -100.0
    ensures Growth(last, prior) == -100.0 <==> prior > 0.0 && last == 0.0
  {
    if prior > 0.0 && last > 0.0 {
      var g := Growth(last, prior);
      assert g * prior == (last - prior) * 100.0;
      assert g * prior > -100.0 * prior;
    }
  }

  /** With non-negative totals the rate has the sign of `last - prior`. */
  lemma GrowthSign(last: real, prior: real)
    requires last >= 0.0 && prior >= 0.0
    ensures Growth(last, prior) > 0.0 <==> last > prior
    ensures Growth(last, prior) < 0.0 <==> last < prior
  {
    if prior > 0.0 && last > 0.0 {
      var g := Growth(last, prior);
      assert g * prior == (last - prior) * 100.0;
      if g > 0.0 {
        assert g * prior > 0.0;
      } else if g < 0.0 {
        assert g * prior < 0.0;
      } else {
        assert g * prior == 0.0;
      }
    }
  }

  /** Applying the rate to the prior total gives the trailing total back. */
  lemma GrowthInverse(last: real, prior: real)
    requires prior > 0.0 && last >= 0.0
    ensures prior * (1.0 + Growth(last, prior) / 100.0) == last
  {
  }

  // ---------------------------------------------------------------------
  // Per-group metrics

  /** The Series `_calculate_metrics` returns. */
  datatype Metrics = Metrics(period: Period, trailingTotal: real, growth: Option<real>)

  /** `_calculate_metrics` for one group. The sort by date only reorders the
      group, and nothing computed depends on the order. */
  function CalculateMetrics(group: seq<Event>, now: Instant): (m: Metrics)
    requires ValidInstant(now)
    ensures m.period == Classify(Frequency(group, now))
    ensures -0.005 <= m.trailingTotal - LastTotal(group, now) <= 0.005
    ensures m.growth.Some? <==> group != []
    ensures m.growth.Some? ==> -0.005 <= m.growth.value - Growth(LastTotal(group, now), PriorTotal(group, now)) <= 0.005
  {
    var period := Classify(Frequency(group, now));
    if |group| > 0 then
      var last := LastTotal(group, now);
      var prior := PriorTotal(group, now);
      Metrics(period, Round2(last), Some(Round2(Growth(last, prior))))
    else
      Metrics(period, Round2(0.0), None)
  }

  /** A group in no-dividend class paid nothing in the trailing year, and its
      rate is 0 or -100. */
  lemma {:induction false} NoDividendMetrics(group: seq<Event>, now: Instant)
    requires ValidInstant(now) && group != []
    requires CalculateMetrics(group, now).period == NoDividend
    ensures CalculateMetrics(group, now).trailingTotal == 0.0
    ensures CalculateMetrics(group, now).growth == Some(0.0) || CalculateMetrics(group, now).growth == Some(-100.0)
  {
    assert Filter(group, IsRecent(now)) == [];
    Round2Exact(0);
    Round2Exact(-10000);
  }

  function AmountsNonNegative(group: seq<Event>): bool {
    forall i :: 0 <= i < |group| ==> group[i].amount >= 0.0
  }

  lemma {:induction false} SumNonNegative(s: seq<Event>)
    requires AmountsNonNegative(s)
    ensures SumOf(s, AmountOf) >= 0.0
  {
    if s != [] {
      SumNonNegative(s[1..]);
    }
  }

  /** A window of non-negative amounts sums to a non-negative total. */
  lemma WindowNonNegative(group: seq<Event>, p: Event -> bool)
    ensures AmountsNonNegative(group) ==> SumOf(Filter(group, p), AmountOf) >= 0.0
  {
    if AmountsNonNegative(group) {
      FilterNonNegative(group, p);
      SumNonNegative(Filter(group, p));
    }
  }

  lemma {:induction false} FilterNonNegative(s: seq<Event>, p: Event -> bool)
    requires AmountsNonNegative(s)
    ensures AmountsNonNegative(Filter(s, p))
  {
    if s != [] {
      FilterNonNegative(s[1..], p);
      FilterAppend([s[0]], s[1..], p);
      assert s == [s[0]] + s[1..];
    }
  }

  /** With non-negative amounts the reported, rounded trailing total is never
      negative. */
  lemma RoundedTotalNonNegative(group: seq<Event>, now: Instant)
    requires ValidInstant(now) && AmountsNonNegative(group)
    ensures CalculateMetrics(group, now).trailingTotal >= 0.0
  {
    Round2Exact(0);
    if group != [] {
      Round2Monotone(0.0, LastTotal(group, now));
    }
  }

  /** With non-negative amounts the reported, rounded rate is at least -100. */
  lemma RoundedGrowthFloor(group: seq<Event>, now: Instant)
    requires ValidInstant(now) && group != [] && AmountsNonNegative(group)
    ensures CalculateMetrics(group, now).growth.value >= -100.0
  {
    FilterNonNegative(group, IsRecent(now));
    FilterNonNegative(group, IsPrior(now));
    SumNonNegative(Filter(group, IsRecent(now)));
    SumNonNegative(Filter(group, IsPrior(now)));
    GrowthFloor(LastTotal(group, now), PriorTotal(group, now));
    Round2Monotone(-100.0, Growth(LastTotal(group, now), PriorTotal(group, now)));
    Round2Exact(-10000);
  }

  /** Metrics do not depend on the order of the group's rows. */
  lemma MetricsPermutation(a: seq<Event>, b: seq<Event>, now: Instant)
    requires ValidInstant(now) && multiset(a) == multiset(b)
    ensures CalculateMetrics(a, now) == CalculateMetrics(b, now)
  {
    FilterPermutation(a, b, IsRecent(now));
    FilterPermutation(a, b, IsPrior(now));
    SumOfPermutation(Filter(a, IsRecent(now)), Filter(b, IsRecent(now)), AmountOf);
    SumOfPermutation(Filter(a, IsPrior(now)), Filter(b, IsPrior(now)), AmountOf);
    assert |a| == |multiset(a)| == |multiset(b)| == |b|;
  }

  /** A row whose date did not parse changes nothing in a group's metrics. */
  lemma UnknownDateIrrelevant(group: seq<Event>, e: Event, now: Instant)
    requires ValidInstant(now) && group != [] && e.date.None?
    ensures CalculateMetrics(group + [e], now) == CalculateMetrics(group, now)
  {
    FilterAppend(group, [e], IsRecent(now));
    FilterAppend(group, [e], IsPrior(now));
    assert Filter([e], IsRecent(now)) == [];
    assert Filter([e], IsPrior(now)) == [];
    assert group + [e] != [];
    assert Filter(group + [e], IsRecent(now)) == Filter(group, IsRecent(now));
    assert Filter(group + [e], IsPrior(now)) == Filter(group, IsPrior(now));
  }

  // ---------------------------------------------------------------------
  // Grouping

  function HasCode(c: string): Event -> bool {
    (e: Event) => e.code == Some(c)
  }

  /** `groupby('종목코드')` group of code `c`, rows in their order. */
  function GroupOf(evs: seq<Event>, c: string): (g: seq<Event>)
    ensures forall i :: 0 <= i < |g| ==> g[i].code == Some(c)
  {
    Filter(evs, HasCode(c))
  }

  /** A code has a group exactly when some row carries it. */
  lemma {:induction false} GroupNonEmpty(evs: seq<Event>, c: string)
    ensures GroupOf(evs, c) != [] <==> exists i :: 0 <= i < |evs| && evs[i].code == Some(c)
  {
    if evs != [] {
      GroupNonEmpty(evs[1..], c);
      if exists i :: 0 <= i < |evs| && evs[i].code == Some(c) {
        var i :| 0 <= i < |evs| && evs[i].code == Some(c);
        if i > 0 {
          assert evs[1..][i - 1].code == Some(c);
        }
      }
      if exists i :: 0 <= i < |evs[1..]| && evs[1..][i].code == Some(c) {
        var i :| 0 <= i < |evs[1..]| && evs[1..][i].code == Some(c);
        assert evs[i + 1].code == Some(c);
      }
    }
  }

  /** The codes that occur, once per row that has one (missing codes are
      dropped, as `groupby` drops NaN keys). */
  function KnownCodes(evs: seq<Event>): (r: seq<string>)
    ensures forall c :: c in r <==> GroupOf(evs, c) != []
  {
    if evs == [] then []
    else
      var rest := KnownCodes(evs[1..]);
      match evs[0].code
      case Some(c) => [c] + rest
      case None => rest
  }

  /** One row of the result: the code and its metrics. */
  datatype Profile = Profile(code: string, metrics: Metrics)

  function Codes(r: seq<Profile>): (cs: seq<string>)
    ensures |cs| == |r| && forall i :: 0 <= i < |r| ==> cs[i] == r[i].code
  {
    seq(|r|, i requires 0 <= i < |r| => r[i].code)
  }

  /** `analyze_dividend_metrics`: nothing for an empty history; otherwise one
      row per distinct code, in ascending code order, holding the metrics of
      exactly the rows with that code. */
  function AnalyzeDividendMetrics(raw: seq<RawEvent>, now: Instant): (r: seq<Profile>)
    requires ValidInstant(now)
    ensures raw == [] ==> r == []
    ensures StrictlyIncreasing(Codes(r))
    ensures forall c :: c in Codes(r) <==> exists j :: 0 <= j < |raw| && raw[j].code == Some(c)
    ensures forall i :: 0 <= i < |r| ==> r[i].metrics == CalculateMetrics(GroupOf(Normalise(raw), r[i].code), now)
    ensures forall i :: 0 <= i < |r| ==> r[i].metrics.growth.Some?
  {
    if raw == [] then []
    else
      var evs := Normalise(raw);
      var keys := SortedKeys(KnownCodes(evs));
      var r := seq(|keys|, i requires 0 <= i < |keys| => Profile(keys[i], CalculateMetrics(GroupOf(evs, keys[i]), now)));
      assert Codes(r) == keys;
      forall c
        ensures c in keys <==> exists j :: 0 <= j < |raw| && raw[j].code == Some(c)
      {
        GroupNonEmpty(evs, c);
      }
      r
  }

  /** The result does not depend on the order of the history's rows. */
  lemma AnalyzeOrderIndependent(raw1: seq<RawEvent>, raw2: seq<RawEvent>, now: Instant)
    requires ValidInstant(now) && multiset(raw1) == multiset(raw2)
    ensures AnalyzeDividendMetrics(raw1, now) == AnalyzeDividendMetrics(raw2, now)
  {
    assert |raw1| == |multiset(raw1)| == |multiset(raw2)| == |raw2|;
    if raw1 != [] {
      var evs1, evs2 := Normalise(raw1), Normalise(raw2);
      MapPermutation(raw1, raw2, NormaliseEvent);
      forall c
        ensures c in KnownCodes(evs1) <==> c in KnownCodes(evs2)
      {
        FilterPermutation(evs1, evs2, HasCode(c));
      }
      SortedKeysBySet(KnownCodes(evs1), KnownCodes(evs2));
      var keys := SortedKeys(KnownCodes(evs1));
      var r1, r2 := AnalyzeDividendMetrics(raw1, now), AnalyzeDividendMetrics(raw2, now);
      assert Codes(r1) == keys && Codes(r2) == keys;
      forall i | 0 <= i < |keys|
        ensures r1[i] == r2[i]
      {
        FilterPermutation(evs1, evs2, HasCode(keys[i]));
        MetricsPermutation(GroupOf(evs1, keys[i]), GroupOf(evs2, keys[i]), now);
      }
    }
  }
}

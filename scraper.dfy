/** The parsers of the scraper: they turn the decoded JSON of the quote and
    ETF-analysis endpoints into flat records, writing the sector and country
    weights as `"name(weight%), …"` text. */
module Scraper {
  import opened Py
  import opened Text
  import opened Numbers
  import opened Seqs
  import opened Sorting
  import opened Dates
  import opened Json

  // ---------------------------------------------------------------------
  // _format_date

  /** `f"{s[:4]}-{s[4:6]}-{s[6:]}"`: dashes after the year and the month,
      and nothing else changed. */
  function Dashed(s: string): (r: string)
    requires |s| == 8
    ensures |r| == 10 && r[4] == '-' && r[7] == '-'
    ensures r[..4] + r[5..7] + r[8..] == s
  {
    var r := s[..4] + "-" + s[4..6] + "-" + s[6..];
    assert r[..4] == s[..4] && r[5..7] == s[4..6] && r[8..] == s[6..];
    r
  }

  /** `_format_date(v)`: a falsy value comes back as it is, an
      eight-character string gains its dashes and a string of another length
      is left alone. `len()` of a number raises, and so does slicing an
      eight-entry dict; an eight-element list is treated as raising too. */
  function FormatDate(v: JsonValue): (r: Outcome<JsonValue>)
    ensures !Truthy(v) ==> r == Ok(v)
    ensures v.JStr? && |v.s| == 8 ==> r == Ok(JStr(Dashed(v.s)))
    ensures v.JStr? && |v.s| != 8 ==> r == Ok(v)
    ensures r.Raised? <==> Truthy(v) && (v.JNum? || v.JBool? || (v.JArr? && |v.items| == 8) || (v.JObj? && |v.fields| == 8))
  {
    if !Truthy(v) then Ok(v)
    else
      match v
      case JStr(s) => if |s| == 8 then Ok(JStr(Dashed(s))) else Ok(v)
      case JArr(a) => if |a| == 8 then Raised else Ok(v)
      case JObj(m) => if |m| == 8 then Raised else Ok(v)
      case _ => Raised
  }

  /** Formatting an already formatted value changes nothing. */
  lemma FormatDateIdempotent(v: JsonValue)
    requires FormatDate(v).Ok?
    ensures FormatDate(FormatDate(v).value) == FormatDate(v)
  {
    if v.JStr? && |v.s| == 8 {
      assert |Dashed(v.s)| == 10;
    }
  }

  /** `YYYYMMDD`, the form the listing date arrives in. */
  function Compact(d: Date): string
    requires 0 <= d.year < 10000 && 0 <= d.month < 100 && 0 <= d.day < 100
  {
    PadDigits(d.year, 4) + PadDigits(d.month, 2) + PadDigits(d.day, 2)
  }

  /** A compact listing date becomes its ISO text, which reads back as the
      same date. */
  lemma {:induction false} ListedDateIso(d: Date)
    requires ValidDate(d) && InTimestampRange(d) && 0 <= d.year < 10000
    ensures FormatDate(JStr(Compact(d))) == Ok(JStr(FormatIso(d)))
    ensures ParseIso(FormatIso(d)) == Some(d)
  {
    var y, m, dd := PadDigits(d.year, 4), PadDigits(d.month, 2), PadDigits(d.day, 2);
    var c := Compact(d);
    assert c[..4] == y && c[4..6] == m && c[6..] == dd;
    ParseFormatIso(d);
  }

  // ---------------------------------------------------------------------
  // _parse_weight_list

  /** `item.get('weight', 0)`. */
  function WeightOf(item: map<string, JsonValue>): JsonValue {
    GetOr(item, "weight", JNum(Int(0)))
  }

  /** The weight as a sort key: numbers and booleans compare as numbers,
      anything else is not a number. */
  function WeightKey(item: map<string, JsonValue>): (r: Option<real>)
    ensures WeightOf(item).JNum? ==> r == Some(Value(WeightOf(item).n))
    ensures r.None? <==> !WeightOf(item).JNum? && !WeightOf(item).JBool?
  {
    match WeightOf(item)
    case JNum(n) => Some(Value(n))
    case JBool(b) => Some(if b then 1.0 else 0.0)
    case _ => None
  }

  /** The key `sorted` orders the list by, for lists of dicts with numeric
      weights. */
  function SortKey(v: JsonValue): real {
    if v.JObj? && WeightKey(v.fields).Some? then WeightKey(v.fields).value else 0.0
  }

  predicate AllDicts(items: seq<JsonValue>) {
    forall k :: 0 <= k < |items| ==> items[k].JObj?
  }

  predicate AllNumericWeights(items: seq<JsonValue>) {
    forall k :: 0 <= k < |items| ==> items[k].JObj? && WeightKey(items[k].fields).Some?
  }

  /** `item.get('detailTypeCode', 'Unknown')`. */
  function NameOf(item: map<string, JsonValue>): JsonValue {
    GetOr(item, "detailTypeCode", JStr("Unknown"))
  }

  /** `f"{name}({weight}%)"`: the name's text, then the weight's text in
      parentheses with a percent sign; only a list or dict in either place
      fails to format. */
  function ItemText(item: map<string, JsonValue>): (r: Outcome<string>)
    ensures "detailTypeCode" !in item && WeightOf(item).JNum? ==> r.Ok?
  {
    var name :- PyStr(NameOf(item));
    var weight :- PyStr(WeightOf(item));
    Ok(name + "(" + weight + "%)")
  }

  /** What an item is written as: a string name and a numeric weight give
      `name(w%)` with the weight's decimal text, a missing name gives
      `Unknown(w%)`, and only a list or dict in either place raises. */
  lemma ItemTextFormat(item: map<string, JsonValue>)
    ensures ItemText(item).Raised?
        <==> NameOf(item).JArr? || NameOf(item).JObj? || WeightOf(item).JArr? || WeightOf(item).JObj?
    ensures NameOf(item).JStr? && WeightOf(item).JNum?
        ==> ItemText(item) == Ok(NameOf(item).s + "(" + Render(WeightOf(item).n) + "%)")
    ensures "detailTypeCode" !in item && WeightOf(item).JNum?
        ==> ItemText(item) == Ok("Unknown(" + Render(WeightOf(item).n) + "%)")
  {
    assert "Unknown" + "(" == "Unknown(";
  }

  /** An item with neither a name nor a weight is written `Unknown(0%)`. */
  lemma ItemTextDefaults(item: map<string, JsonValue>)
    requires "detailTypeCode" !in item && "weight" !in item
    ensures ItemText(item) == Ok("Unknown(0%)")
  {
    ItemTextFormat(item);
    assert WeightOf(item) == JNum(Int(0));
    RenderZero();
    assert "Unknown(" + "0" + "%)" == "Unknown(0%)";
  }

  lemma RenderZero()
    ensures Render(Int(0)) == "0"
  {
    var z := NatToString(0);
    assert z == "0";
    assert SignText(false) == "";
  }

  /** The texts of a list of dicts, or the error of one that raises. */
  function ItemTexts(items: seq<JsonValue>): (r: Outcome<seq<string>>)
    requires AllDicts(items)
    ensures r.Ok? <==> forall k :: 0 <= k < |items| ==> ItemText(items[k].fields).Ok?
    ensures r.Ok? ==> |r.value| == |items|
    ensures r.Ok? ==> forall k :: 0 <= k < |items| ==> r.value[k] == ItemText(items[k].fields).value
  {
    if items == [] then Ok([])
    else
      var n := |items| - 1;
      assert forall k :: 0 <= k < n ==> items[..n][k] == items[k];
      var init :- ItemTexts(items[..n]);
      var last :- ItemText(items[n].fields);
      Ok(init + [last])
  }

  /** Writing one more item: the texts so far and its own, or a raise. */
  lemma ItemTextsSnoc(items: seq<JsonValue>, x: JsonValue)
    requires AllDicts(items) && x.JObj?
    ensures AllDicts(items + [x])
    ensures ItemTexts(items + [x])
         == if ItemTexts(items).Raised? || ItemText(x.fields).Raised? then Raised
            else Ok(ItemTexts(items).value + [ItemText(x.fields).value])
  {
    assert (items + [x])[..|items|] == items;
  }

  /** A permutation of a list of dicts is a list of dicts. */
  lemma PermutationDicts(a: seq<JsonValue>, b: seq<JsonValue>)
    requires AllDicts(a) && multiset(a) == multiset(b)
    ensures AllDicts(b)
  {
    forall k | 0 <= k < |b|
      ensures b[k].JObj?
    {
      assert b[k] in multiset(b);
      var j :| 0 <= j < |a| && a[j] == b[k];
    }
  }

  /** The first `topN` dicts by weight, heaviest first, ties in list order. */
  function TopItems(items: seq<JsonValue>, topN: int): (r: seq<JsonValue>)
    requires AllDicts(items)
    ensures AllDicts(r)
  {
    var sorted := SortDesc(items, SortKey);
    PermutationDicts(items, sorted);
    Take(sorted, topN)
  }

  /** `_parse_weight_list(v, top_n)`: `None` for a falsy value; otherwise
      the value must be a list of dicts, whose weights must be numbers for
      `sorted` to compare them once there are two; the first `top_n` by
      weight are written out and joined with `", "`. */
  function WeightList(v: JsonValue, topN: int): (r: Outcome<Option<string>>)
    ensures !Truthy(v) ==> r == Ok(None)
    ensures Truthy(v) && !(v.JArr? && AllDicts(v.items)) ==> r.Raised?
    ensures v.JArr? && |v.items| >= 2 && !AllNumericWeights(v.items) ==> r.Raised?
    ensures r.Ok? && Truthy(v) ==> r.value.Some?
  {
    if !Truthy(v) then Ok(None)
    else if !v.JArr? || !AllDicts(v.items) then Raised
    else if |v.items| >= 2 && !AllNumericWeights(v.items) then Raised
    else
      var texts :- ItemTexts(TopItems(v.items, topN));
      Ok(Some(Join(texts, ", ")))
  }

  /** The items written are the heaviest ones: each outweighs or ties every
      item left out, and they are as many as `top_n` allows. */
  lemma WeightListTop(items: seq<JsonValue>, topN: int)
    requires AllDicts(items)
    ensures var sorted := SortDesc(items, SortKey);
      var top := TopItems(items, topN);
      top == sorted[..|top|]
      && (topN >= 0 ==> |top| == if topN < |items| then topN else |items|)
      && (forall i, j :: 0 <= i < |top| <= j < |sorted| ==> SortKey(top[i]) >= SortKey(sorted[j]))
      && multiset(sorted) == multiset(items)
  {
  }

  /** Past the checks, the list is written as the join of its top items'
      texts, or raises when one of them does. */
  lemma WeightListTexts(v: JsonValue, topN: int)
    requires Truthy(v) && v.JArr? && AllDicts(v.items)
    requires |v.items| < 2 || AllNumericWeights(v.items)
    ensures WeightList(v, topN)
         == if ItemTexts(TopItems(v.items, topN)).Raised? then Raised
            else Ok(Some(Join(ItemTexts(TopItems(v.items, topN)).value, ", ")))
  {
  }

  /** `_parse_weight_list`, writing the items one by one. */
  method ParseWeightList(v: JsonValue, topN: int) returns (r: Outcome<Option<string>>)
    ensures r == WeightList(v, topN)
  {
    if !Truthy(v) {
      return Ok(None);
    }
    if !v.JArr? || !AllDicts(v.items) || (|v.items| >= 2 && !AllNumericWeights(v.items)) {
      return Raised;
    }
    WeightListTexts(v, topN);
    var texts := WriteTexts(TopItems(v.items, topN));
    if texts.Raised? {
      return Raised;
    }
    return Ok(Some(Join(texts.value, ", ")));
  }

  /** The loop of `_parse_weight_list` that writes each item's text in
      turn, raising at the first item whose text cannot be written. */
  method WriteTexts(top: seq<JsonValue>) returns (r: Outcome<seq<string>>)
    requires AllDicts(top)
    ensures r == ItemTexts(top)
  {
    var texts: seq<string> := [];
    for k := 0 to |top|
      invariant ItemTexts(top[..k]) == Ok(texts)
    {
      assert top[..k + 1] == top[..k] + [top[k]];
      ItemTextsSnoc(top[..k], top[k]);
      var text := ItemText(top[k].fields);
      if text.Raised? {
        assert !ItemText(top[k].fields).Ok?;
        return Raised;
      }
      texts := texts + [text.value];
    }
    assert top[..|top|] == top;
    return Ok(texts);
  }

  // ---------------------------------------------------------------------
  // parse_etf_basic

  /** The characters `int()` takes after the sign: digits, single
      underscores between digits allowed. */
  predicate IsIntBody(b: string) {
    b != [] && IsDigit(b[0]) && IsDigit(b[|b| - 1])
    && forall k :: 0 < k < |b| - 1 ==> InnerIntChar(b, k)
  }

  /** An inner character of a body: a digit, or an underscore between
      digits. */
  predicate InnerIntChar(b: string, k: nat)
    requires 0 < k < |b| - 1
  {
    IsDigit(b[k]) || (b[k] == '_' && IsDigit(b[k - 1]) && IsDigit(b[k + 1]))
  }

  /** The value of the digits after the sign. */
  function BodyValue(b: string): (r: Option<int>)
    ensures r.Some? ==> r.value >= 0
  {
    if IsIntBody(b) then Some(DigitsValue(FilterChars(b, IsDigit))) else None
  }

  /** `int()` of text without surrounding blanks. */
  function IntLiteral(t: string): (r: Option<int>) {
    if t == [] then None
    else if t[0] == '-' then
      var v := BodyValue(t[1..]);
      if v.Some? then Some(-v.value) else None
    else if t[0] == '+' then BodyValue(t[1..])
    else BodyValue(t)
  }

  /** `int(s)` on text: surrounding blanks, an optional sign, then the
      digits; `None` where `int()` raises `ValueError`. */
  function PyInt(s: string): (r: Option<int>)
    ensures r.Some? ==> Strip(s) != []
  {
    IntLiteral(Strip(s))
  }

  /** `int()` reads back the decimal text of a number, with or without a
      minus sign. */
  lemma PyIntRoundTrip(n: nat)
    ensures PyInt(NatToString(n)) == Some(n)
    ensures PyInt("-" + NatToString(n)).Some? && PyInt("-" + NatToString(n)).value == -(n as int)
  {
    var d := NatToString(n);
    DigitsLiteral(d);
    NegativeDigitsLiteral(d);
  }

  lemma DigitsLiteral(d: string)
    requires AllDigits(d) && d != []
    ensures PyInt(d) == Some(DigitsValue(d))
  {
    DigitsStripped(d);
    assert IsDigit(d[0]);
  }

  lemma NegativeDigitsLiteral(d: string)
    requires AllDigits(d) && d != []
    ensures PyInt("-" + d).Some? && PyInt("-" + d).value + DigitsValue(d) == 0
  {
    DigitsStripped(d);
    MinusDigitsStripped(d);
    var m := "-" + d;
    assert m[0] == '-' && m[1..] == d;
    NegativeLiteral(m);
    assert BodyValue(m[1..]) == Some(DigitsValue(d));
  }

  lemma NegativeLiteral(t: string)
    requires t != [] && t[0] == '-'
    ensures IntLiteral(t) == if BodyValue(t[1..]).Some? then Some(-BodyValue(t[1..]).value) else None
  {
  }

  /** Digits are their own body and read as their value. */
  lemma DigitsStripped(d: string)
    requires AllDigits(d) && d != []
    ensures Strip(d) == d && BodyValue(d) == Some(DigitsValue(d))
  {
    assert IsStripped(d) by {
      assert IsDigit(d[0]) && IsDigit(d[|d| - 1]);
    }
    StripStripped(d);
    assert forall k :: 0 < k < |d| - 1 ==> InnerIntChar(d, k);
    assert FilterChars(d, IsDigit) == d;
  }

  lemma MinusDigitsStripped(d: string)
    requires AllDigits(d) && d != []
    ensures Strip("-" + d) == "-" + d
  {
    var m := "-" + d;
    assert IsStripped(m) by {
      assert m[|m| - 1] == d[|d| - 1];
      assert IsDigit(d[|d| - 1]);
    }
    StripStripped(m);
  }

  /** No body holds a point. */
  lemma PointNoBody(b: string, k: nat)
    requires k < |b| && b[k] == '.'
    ensures BodyValue(b) == None
  {
    assert !IsDigit(b[k]);
    if 0 < k < |b| - 1 {
      assert !InnerIntChar(b, k);
    }
  }

  /** A text with a decimal point is no `int()` literal. */
  lemma PyIntRejectsPoint(s: string, k: nat)
    requires k < |s| && s[k] == '.'
    ensures PyInt(s) == None
  {
    var t := Strip(s);
    var j := StripKeeps(s, k);
    if j > 0 {
      PointNoBody(t[1..], j - 1);
    }
    PointNoBody(t, j);
  }

  /** A character that is no blank stays in the stripped text. */
  lemma StripKeeps(s: string, k: nat) returns (j: nat)
    requires k < |s| && !IsSpace(s[k])
    ensures j < |Strip(s)| && Strip(s)[j] == s[k]
  {
    var r := RStrip(s);
    var t := LStrip(r);
    assert k < |r|;
    assert r[k] == s[k];
    var a := |r| - |t|;
    assert k >= a;
    j := k - a;
    assert t[j] == r[k];
  }

  /** `int(closePrice.replace(',', ''))`, 0 on `ValueError`, with `'0'`
      for a missing price; a price that is not a string raises. */
  function ClosePrice(m: map<string, JsonValue>): (r: Outcome<int>)
    ensures r.Raised? <==> !GetOr(m, "closePrice", JStr("0")).JStr?
  {
    match GetOr(m, "closePrice", JStr("0"))
    case JStr(s) =>
      var n := PyInt(FilterChars(s, NotComma));
      Ok(if n.Some? then n.value else 0)
    case _ => Raised
  }

  /** Thousands separators are dropped: `"12,345"` reads as 12345. */
  lemma ClosePriceDigits(m: map<string, JsonValue>, s: string, n: nat)
    requires "closePrice" in m && m["closePrice"] == JStr(s)
    requires FilterChars(s, NotComma) == NatToString(n)
    ensures ClosePrice(m) == Ok(n)
  {
    PyIntRoundTrip(n);
  }

  /** A missing price is 0. */
  lemma ClosePriceMissing(m: map<string, JsonValue>)
    requires "closePrice" !in m
    ensures ClosePrice(m) == Ok(0)
  {
    var z := NatToString(0);
    assert z == "0";
    assert FilterChars(z, NotComma) == z;
    DigitsLiteral(z);
  }

  /** A price with a fraction fails `int()` and is 0. */
  lemma ClosePriceFraction(m: map<string, JsonValue>, s: string, k: nat)
    requires "closePrice" in m && m["closePrice"] == JStr(s)
    requires k < |s| && s[k] == '.'
    ensures ClosePrice(m) == Ok(0)
  {
    var f := FilterChars(s, NotComma);
    FilterKeepsChar(s, NotComma, k);
    var j :| 0 <= j < |f| && f[j] == '.';
    PyIntRejectsPoint(f, j);
  }

  /** A kept character survives the filter. */
  lemma {:induction false} FilterKeepsChar(s: string, keep: char -> bool, k: nat)
    requires k < |s| && keep(s[k])
    ensures s[k] in FilterChars(s, keep)
  {
    if k > 0 {
      FilterKeepsChar(s[1..], keep, k - 1);
      assert FilterChars(s, keep) == (if keep(s[0]) then [s[0]] else []) + FilterChars(s[1..], keep);
    }
  }

  /** `parse_etf_basic(json_data)`: `None` for a falsy value, otherwise the
      record of code, name, price and change rate; a truthy value that is
      not a dict raises. */
  function ParseEtfBasic(v: JsonValue): (r: Outcome<Option<map<string, JsonValue>>>)
    ensures !Truthy(v) ==> r == Ok(None)
    ensures Truthy(v) && !v.JObj? ==> r.Raised?
    ensures Truthy(v) && v.JObj? ==> (r.Raised? <==> ClosePrice(v.fields).Raised?)
    ensures r.Ok? && r.value.Some? ==> r.value.value.Keys == {"code", "name", "price", "change_rate"}
    ensures r.Ok? && r.value.Some? ==> r.value.value["price"] == JNum(Int(ClosePrice(v.fields).value))
    ensures r.Ok? && r.value.Some? ==> r.value.value["code"] == Get(v.fields, "itemCode")
    ensures r.Ok? && r.value.Some? ==> r.value.value["name"] == Get(v.fields, "stockName")
    ensures r.Ok? && r.value.Some? ==> r.value.value["change_rate"] == Get(v.fields, "fluctuationsRatio")
  {
    if !Truthy(v) then Ok(None)
    else if !v.JObj? then Raised
    else
      var m := v.fields;
      var price :- ClosePrice(m);
      Ok(Some(BasicRecord(m, price)))
  }

  /** The four fields of the basic record, each from its response field. */
  function BasicRecord(m: map<string, JsonValue>, price: int): (r: map<string, JsonValue>)
    ensures r.Keys == {"code", "name", "price", "change_rate"}
    ensures r["code"] == Get(m, "itemCode") && r["name"] == Get(m, "stockName")
    ensures r["price"] == JNum(Int(price)) && r["change_rate"] == Get(m, "fluctuationsRatio")
  {
    map[
      "code" := Get(m, "itemCode"),
      "name" := Get(m, "stockName"),
      "price" := JNum(Int(price)),
      "change_rate" := Get(m, "fluctuationsRatio")]
  }

  // ---------------------------------------------------------------------
  // parse_etf_analysis

  /** `json_data.get(key, {})` for a part read with `.get`: a part that is
      present but not a dict raises. */
  function Section(m: map<string, JsonValue>, key: string): (r: Outcome<map<string, JsonValue>>)
    ensures key !in m ==> r == Ok(map[])
    ensures r.Raised? <==> key in m && !m[key].JObj?
  {
    match GetOr(m, key, JObj(map[]))
    case JObj(f) => Ok(f)
    case _ => Raised
  }

  /** `item['itemName']` of one holding, which `", ".join` needs to be a
      string. */
  function HoldingName(item: JsonValue): (r: Outcome<string>)
    ensures r.Ok? <==> item.JObj? && "itemName" in item.fields && item.fields["itemName"].JStr?
  {
    if item.JObj? && "itemName" in item.fields && item.fields["itemName"].JStr? then
      Ok(item.fields["itemName"].s)
    else
      Raised
  }

  function HoldingNames(items: seq<JsonValue>): (r: Outcome<seq<string>>)
    ensures r.Ok? <==> forall k :: 0 <= k < |items| ==> HoldingName(items[k]).Ok?
    ensures r.Ok? ==> |r.value| == |items|
    ensures r.Ok? ==> forall k :: 0 <= k < |items| ==> r.value[k] == HoldingName(items[k]).value
  {
    if items == [] then Ok([])
    else
      var first :- HoldingName(items[0]);
      var rest :- HoldingNames(items[1..]);
      assert forall k :: 1 <= k < |items| ==> items[k] == items[1..][k - 1];
      Ok([first] + rest)
  }

  /** `", ".join(item['itemName'] for item in top_assets[:5])`: a list
      gives its first five names; the empty string slices to nothing; any
      other value raises. */
  function TopHoldings(v: JsonValue): (r: Outcome<string>)
    ensures v.JStr? ==> (r.Ok? <==> v.s == [])
    ensures !v.JArr? && !v.JStr? ==> r.Raised?
  {
    match v
    case JArr(a) =>
      var names :- HoldingNames(Take(a, 5));
      Ok(Join(names, ", "))
    case JStr(s) => if s == [] then Ok("") else Raised
    case _ => Raised
  }

  /** Holding names without commas come back from the joined text in order,
      at most five of them. */
  lemma TopHoldingsSplit(a: seq<JsonValue>)
    requires a != []
    requires forall k :: 0 <= k < |a| ==> HoldingName(a[k]).Ok?
    requires forall k, j :: 0 <= k < |a| && 0 <= j < |HoldingName(a[k]).value| ==> HoldingName(a[k]).value[j] != ','
    ensures TopHoldings(JArr(a)).Ok?
    ensures var parts := Split(TopHoldings(JArr(a)).value, ',');
      |parts| == (if |a| < 5 then |a| else 5)
      && parts[0] == HoldingName(a[0]).value
      && forall k :: 1 <= k < |parts| ==> parts[k] == " " + HoldingName(a[k]).value
  {
    var top := Take(a, 5);
    var names := HoldingNames(top).value;
    SplitJoinCommaSpace(names);
  }

  /** A `str` or `None`, as the record stores the weight texts. */
  function TextOrNone(t: Option<string>): JsonValue {
    if t.Some? then JStr(t.value) else JNull
  }

  /** The sixteen fields of the analysis record. */
  const AnalysisFields: set<string> := {
    "nav", "market_cap", "fee", "distribution_yield", "deviation_rate",
    "issuer", "listed_date", "tracking_index", "tracking_error", "inflow_1m",
    "return_1m", "return_6m", "return_1y",
    "top_holdings", "sector_weight", "country_weight"}

  /** The value the record stores under `key`, from the top-level dict, its
      three parts and the four formatted values. */
  function AnalysisField(key: string, m: map<string, JsonValue>, theme: map<string, JsonValue>,
                       dividend: map<string, JsonValue>, inflow: map<string, JsonValue>,
                       holdings: string, listed: JsonValue,
                       sectors: Option<string>, countries: Option<string>): JsonValue
  {
    if key == "nav" then Get(m, "nav")
    else if key == "market_cap" then Get(m, "marketValue")
    else if key == "fee" then Get(m, "totalFee")
    else if key == "distribution_yield" then Get(dividend, "dividendYieldTtm")
    else if key == "deviation_rate" then Get(m, "deviationRate")
    else if key == "issuer" then Get(m, "issuerName")
    else if key == "listed_date" then listed
    else if key == "tracking_index" then Get(m, "etfBaseIndex")
    else if key == "tracking_error" then Get(m, "chaseErrorRate")
    else if key == "inflow_1m" then Get(inflow, "cumulativeNetInflow1m")
    else if key == "return_1m" then Get(theme, "returnRate1m")
    else if key == "return_6m" then Get(theme, "returnRate6m")
    else if key == "return_1y" then Get(theme, "returnRate1y")
    else if key == "top_holdings" then JStr(holdings)
    else if key == "sector_weight" then TextOrNone(sectors)
    else TextOrNone(countries)
  }

  /** The record `parse_etf_analysis` returns. */
  function AnalysisMap(m: map<string, JsonValue>, theme: map<string, JsonValue>,
                       dividend: map<string, JsonValue>, inflow: map<string, JsonValue>,
                       holdings: string, listed: JsonValue,
                       sectors: Option<string>, countries: Option<string>): (r: map<string, JsonValue>)
    ensures r.Keys == AnalysisFields
  {
    map key | key in AnalysisFields :: AnalysisField(key, m, theme, dividend, inflow, holdings, listed, sectors, countries)
  }

  /** Which response field or formatted value each key of the record holds. */
  lemma AnalysisMapValues(m: map<string, JsonValue>, theme: map<string, JsonValue>,
                       dividend: map<string, JsonValue>, inflow: map<string, JsonValue>,
                       holdings: string, listed: JsonValue,
                       sectors: Option<string>, countries: Option<string>)
    ensures var r := AnalysisMap(m, theme, dividend, inflow, holdings, listed, sectors, countries);
      && r["nav"] == Get(m, "nav")
      && r["market_cap"] == Get(m, "marketValue")
      && r["fee"] == Get(m, "totalFee")
      && r["distribution_yield"] == Get(dividend, "dividendYieldTtm")
      && r["deviation_rate"] == Get(m, "deviationRate")
      && r["issuer"] == Get(m, "issuerName")
      && r["listed_date"] == listed
      && r["tracking_index"] == Get(m, "etfBaseIndex")
      && r["tracking_error"] == Get(m, "chaseErrorRate")
      && r["inflow_1m"] == Get(inflow, "cumulativeNetInflow1m")
      && r["return_1m"] == Get(theme, "returnRate1m")
      && r["return_6m"] == Get(theme, "returnRate6m")
      && r["return_1y"] == Get(theme, "returnRate1y")
      && r["top_holdings"] == JStr(holdings)
      && r["sector_weight"] == TextOrNone(sectors)
      && r["country_weight"] == TextOrNone(countries)
  {
  }

  /** `parse_etf_analysis(json_data)`: `None` for a falsy value; a truthy
      value must be a dict, its `themeReturns`, `dividend` and
      `cumulativeNetInflowList` parts dicts when present, its holdings a
      list of named dicts, and its listing date and weight lists must format
      without raising. */
  function ParseEtfAnalysis(v: JsonValue): (r: Outcome<Option<map<string, JsonValue>>>)
    ensures !Truthy(v) ==> r == Ok(None)
    ensures Truthy(v) && !v.JObj? ==> r.Raised?
    ensures r.Ok? && r.value.Some? ==> r.value.value.Keys == AnalysisFields
  {
    if !Truthy(v) then Ok(None)
    else if !v.JObj? then Raised
    else
      var m := v.fields;
      var theme :- Section(m, "themeReturns");
      var dividend :- Section(m, "dividend");
      var inflow :- Section(m, "cumulativeNetInflowList");
      var holdings :- TopHoldings(GetOr(m, "etfTop10MajorConstituentAssets", JArr([])));
      var listed :- FormatDate(Get(m, "listedDate"));
      var sectors :- WeightList(Get(m, "sectorPortfolioList"), 3);
      var countries :- WeightList(Get(m, "countryPortfolioList"), 3);
      Ok(Some(AnalysisMap(m, theme, dividend, inflow, holdings, listed, sectors, countries)))
  }

  /** A part that is present but not a dict makes the whole parse raise. */
  lemma AnalysisSectionRaises(m: map<string, JsonValue>, key: string)
    requires key == "themeReturns" || key == "dividend" || key == "cumulativeNetInflowList"
    requires key in m && !m[key].JObj?
    ensures ParseEtfAnalysis(JObj(m)).Raised?
  {
    assert Truthy(JObj(m));
    assert Section(m, key).Raised?;
  }

  /** When the analysis parses, its record carries the formatted listing
      date, the joined holdings and the two weight texts, each as its own
      parser gives it. */
  lemma AnalysisRecord(m: map<string, JsonValue>)
    requires m != map[] && ParseEtfAnalysis(JObj(m)).Ok?
    ensures FormatDate(Get(m, "listedDate")).Ok?
    ensures WeightList(Get(m, "sectorPortfolioList"), 3).Ok?
    ensures WeightList(Get(m, "countryPortfolioList"), 3).Ok?
    ensures TopHoldings(GetOr(m, "etfTop10MajorConstituentAssets", JArr([]))).Ok?
    ensures ParseEtfAnalysis(JObj(m)).value.Some?
    ensures ParseEtfAnalysis(JObj(m)).value.value["listed_date"] == FormatDate(Get(m, "listedDate")).value
    ensures ParseEtfAnalysis(JObj(m)).value.value["sector_weight"]
         == TextOrNone(WeightList(Get(m, "sectorPortfolioList"), 3).value)
    ensures ParseEtfAnalysis(JObj(m)).value.value["country_weight"]
         == TextOrNone(WeightList(Get(m, "countryPortfolioList"), 3).value)
    ensures ParseEtfAnalysis(JObj(m)).value.value["top_holdings"]
         == JStr(TopHoldings(GetOr(m, "etfTop10MajorConstituentAssets", JArr([]))).value)
  {
    assert Truthy(JObj(m));
    var theme := Section(m, "themeReturns");
    var dividend := Section(m, "dividend");
    var inflow := Section(m, "cumulativeNetInflowList");
    var holdings := TopHoldings(GetOr(m, "etfTop10MajorConstituentAssets", JArr([])));
    var listed := FormatDate(Get(m, "listedDate"));
    var sectors := WeightList(Get(m, "sectorPortfolioList"), 3);
    var countries := WeightList(Get(m, "countryPortfolioList"), 3);
    assert theme.Ok? && dividend.Ok? && inflow.Ok? && holdings.Ok? && listed.Ok? && sectors.Ok? && countries.Ok?;
    assert ParseEtfAnalysis(JObj(m)) == Ok(Some(AnalysisMap(m, theme.value, dividend.value, inflow.value,
      holdings.value, listed.value, sectors.value, countries.value)));
    AnalysisMapValues(m, theme.value, dividend.value, inflow.value,
      holdings.value, listed.value, sectors.value, countries.value);
  }

  /** When the analysis parses, each copied field of its record is the
      response's field of the same meaning, read from the top level or from
      the `dividend`, `cumulativeNetInflowList` or `themeReturns` part. */
  lemma AnalysisProjections(m: map<string, JsonValue>)
    requires m != map[] && ParseEtfAnalysis(JObj(m)).Ok?
    ensures Section(m, "themeReturns").Ok? && Section(m, "dividend").Ok?
    ensures Section(m, "cumulativeNetInflowList").Ok?
    ensures ParseEtfAnalysis(JObj(m)).value.Some?
    ensures var r := ParseEtfAnalysis(JObj(m)).value.value;
      && r["nav"] == Get(m, "nav")
      && r["market_cap"] == Get(m, "marketValue")
      && r["fee"] == Get(m, "totalFee")
      && r["distribution_yield"] == Get(Section(m, "dividend").value, "dividendYieldTtm")
      && r["deviation_rate"] == Get(m, "deviationRate")
      && r["issuer"] == Get(m, "issuerName")
      && r["tracking_index"] == Get(m, "etfBaseIndex")
      && r["tracking_error"] == Get(m, "chaseErrorRate")
      && r["inflow_1m"] == Get(Section(m, "cumulativeNetInflowList").value, "cumulativeNetInflow1m")
      && r["return_1m"] == Get(Section(m, "themeReturns").value, "returnRate1m")
      && r["return_6m"] == Get(Section(m, "themeReturns").value, "returnRate6m")
      && r["return_1y"] == Get(Section(m, "themeReturns").value, "returnRate1y")
  {
    assert Truthy(JObj(m));
    var theme := Section(m, "themeReturns");
    var dividend := Section(m, "dividend");
    var inflow := Section(m, "cumulativeNetInflowList");
    var holdings := TopHoldings(GetOr(m, "etfTop10MajorConstituentAssets", JArr([])));
    var listed := FormatDate(Get(m, "listedDate"));
    var sectors := WeightList(Get(m, "sectorPortfolioList"), 3);
    var countries := WeightList(Get(m, "countryPortfolioList"), 3);
    assert theme.Ok? && dividend.Ok? && inflow.Ok? && holdings.Ok? && listed.Ok? && sectors.Ok? && countries.Ok?;
    assert ParseEtfAnalysis(JObj(m)) == Ok(Some(AnalysisMap(m, theme.value, dividend.value, inflow.value,
      holdings.value, listed.value, sectors.value, countries.value)));
    AnalysisMapValues(m, theme.value, dividend.value, inflow.value,
      holdings.value, listed.value, sectors.value, countries.value);
  }
}

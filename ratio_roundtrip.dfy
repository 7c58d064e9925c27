/** The weight text `_parse_weight_list` writes is what `parse_ratio_string`
    reads: for items with plain, distinct names and numeric weights, reading
    the text back gives each written item's name and weight, in the written
    order, and ranking that dictionary keeps the order. */
module RatioRoundTrip {
  import opened Py
  import opened Text
  import opened Numbers
  import opened Seqs
  import opened Sorting
  import opened Json
  import opened Processor
  import opened Frames
  import opened Scraper

  /** A name the ratio pattern reads back whole: not blank at either end and
      free of the comma that separates parts, the `(` that opens the number
      and the line break the pattern's `.` does not cross. */
  predicate PlainName(s: string) {
    s != [] && IsStripped(s) && forall i :: 0 <= i < |s| ==> s[i] != ',' && s[i] != '(' && s[i] != '\n'
  }

  /** An item whose text reads back: a dict with a plain string name and a
      numeric (or missing, hence 0) weight. */
  predicate Listable(v: JsonValue) {
    v.JObj? && NameOf(v.fields).JStr? && PlainName(NameOf(v.fields).s) && WeightOf(v.fields).JNum?
  }

  /** The name an item is written under. */
  function ItemName(v: JsonValue): string {
    if v.JObj? && NameOf(v.fields).JStr? then NameOf(v.fields).s else ""
  }

  /** The dictionary entry an item should read back as. */
  function Entry(v: JsonValue): (string, real) {
    (ItemName(v), SortKey(v))
  }

  /** A part the splitter keeps whole and the stripper leaves alone. */
  predicate PlainPart(t: string) {
    t != [] && IsStripped(t) && forall j :: 0 <= j < |t| ==> t[j] != ','
  }

  /** The lazy label stops at the `(` that ends the name, not before. */
  lemma {:induction false} MatchFromName(name: string, w: string, k: nat)
    requires PlainName(name) && |w| >= 1 && IsNumericText(w)
    requires 1 <= k <= |name|
    ensures var q := name + "(" + w + "%)";
      (forall i :: 0 <= i < k - 1 && i < |q| ==> q[i] != '\n')
      && RatioMatchFrom(q, k) == Some((name, w))
    decreases |name| - k
  {
    var q := name + "(" + w + "%)";
    if k < |name| {
      MatchFromName(name, w, k + 1);
      assert q[k - 1] == name[k - 1] && q[k] == name[k];
      assert q[k] != '(';
    } else {
      MatchAtParen(name, w);
    }
  }

  /** At the `(` after the name, the number, `%` and `)` follow. */
  lemma MatchAtParen(name: string, w: string)
    requires PlainName(name) && |w| >= 1 && IsNumericText(w)
    ensures var q := name + "(" + w + "%)";
      (forall i :: 0 <= i < |name| - 1 && i < |q| ==> q[i] != '\n')
      && RatioMatchFrom(q, |name|) == Some((name, w))
  {
    var q := name + "(" + w + "%)";
    var k := |name|;
    assert forall i :: 0 <= i < |name| ==> q[i] == name[i];
    assert q[k] == '(';
    assert forall i :: 0 <= i < |w| ==> q[k + 1 + i] == w[i];
    assert q[k + 1 + |w|] == '%' && q[k + 2 + |w|] == ')';
    assert RunEnd(q, k + 1, IsNumberChar) == k + 1 + |w|;
    assert q[..k] == name && q[k + 1..k + 1 + |w|] == w;
  }

  /** The text of a listable item is a plain part, and reads back as its
      entry with or without the blank that follows a comma. */
  lemma ItemTextParses(v: JsonValue)
    requires Listable(v)
    ensures ItemText(v.fields).Ok? && PlainPart(ItemText(v.fields).value)
    ensures ParseRatioPart(ItemText(v.fields).value) == Some(Entry(v))
    ensures ParseRatioPart(" " + ItemText(v.fields).value) == Some(Entry(v))
  {
    var name := NameOf(v.fields).s;
    var n := WeightOf(v.fields).n;
    var w := PyStr(JNum(n)).value;
    assert ItemText(v.fields) == Ok(name + "(" + w + "%)");
    assert SortKey(v) == Value(n);
    PartParses(name, w, Value(n));
  }

  /** The text of a listable item is written without raising. */
  lemma ItemTextOk(v: JsonValue)
    requires Listable(v)
    ensures ItemText(v.fields).Ok?
  {
    assert PyStr(NameOf(v.fields)).Ok?;
  }

  /** `name(w%)` is a plain part that reads back as the name and the value
      of `w`, with or without a leading blank. */
  lemma PartParses(name: string, w: string, x: real)
    requires PlainName(name) && |w| >= 1 && IsNumericText(w) && ParseDecimal(w) == Some(x)
    ensures PlainPart(name + "(" + w + "%)")
    ensures ParseRatioPart(name + "(" + w + "%)") == Some((name, x))
    ensures ParseRatioPart(" " + (name + "(" + w + "%)")) == Some((name, x))
  {
    var t := name + "(" + w + "%)";
    PartPlain(name, w);
    StripStripped(t);
    StripLeadingSpace(" ", t);
    assert Strip(" " + t) == Strip(t);
    PartMatches(name, w, x);
  }

  /** `name(w%)` is a plain part. */
  lemma PartPlain(name: string, w: string)
    requires PlainName(name) && IsNumericText(w)
    ensures PlainPart(name + "(" + w + "%)")
  {
    var t := name + "(" + w + "%)";
    PartHasNoComma(name, w);
    assert t[0] == name[0] && t[|t| - 1] == ')';
  }

  /** Once stripped, the part matches with the name as its label. */
  lemma PartMatches(name: string, w: string, x: real)
    requires PlainName(name) && |w| >= 1 && IsNumericText(w) && ParseDecimal(w) == Some(x)
    ensures var t := name + "(" + w + "%)";
      Strip(t) == t ==> ParseRatioPart(t) == Some((name, x))
  {
    MatchFromName(name, w, 1);
    StripStripped(name);
  }

  lemma PartHasNoComma(name: string, w: string)
    requires PlainName(name) && IsNumericText(w)
    ensures forall j :: 0 <= j < |name + "(" + w + "%)"| ==> (name + "(" + w + "%)")[j] != ','
  {
    var t := name + "(" + w + "%)";
    forall j | 0 <= j < |t|
      ensures t[j] != ','
    {
      if j < |name| {
        assert t[j] == name[j];
      } else if |name| < j < |name| + 1 + |w| {
        assert t[j] == w[j - |name| - 1];
        assert IsNumberChar(w[j - |name| - 1]);
      }
    }
  }

  /** A dictionary built from parts that each read as a fresh key is those
      entries, in order. */
  lemma {:induction false} EntriesOfParts(parts: seq<string>, entries: seq<(string, real)>)
    requires |parts| == |entries| && DistinctKeys(entries)
    requires forall k :: 0 <= k < |parts| ==> ParseRatioPart(parts[k]) == Some(entries[k])
    ensures RatioEntries(parts) == entries
  {
    if parts != [] {
      var n := |parts| - 1;
      var init := entries[..n];
      assert DistinctKeys(init);
      EntriesOfParts(parts[..n], init);
      assert RatioEntries(parts) == AddPart(init, parts[n]);
      assert forall i :: 0 <= i < |init| ==> init[i].0 != entries[n].0;
      assert AddPart(init, parts[n]) == Put(init, entries[n].0, entries[n].1);
      LastSplit(entries);
    }
  }

  lemma LastSplit<T>(s: seq<T>)
    requires s != []
    ensures s[..|s| - 1] + [s[|s| - 1]] == s
  {
  }

  /** The first character of a join is its first part's. */
  lemma JoinFirst(parts: seq<string>, sep: string)
    requires |parts| >= 1 && parts[0] != []
    ensures Join(parts, sep) != [] && Join(parts, sep)[0] == parts[0][0]
  {
    if |parts| > 1 {
      assert Join(parts, sep) == parts[0] + sep + Join(parts[1..], sep);
    }
  }

  /** The last character of a join is its last part's. */
  lemma {:induction false} JoinLast(parts: seq<string>, sep: string)
    requires |parts| >= 1 && parts[|parts| - 1] != []
    ensures var j := Join(parts, sep);
      j != [] && j[|j| - 1] == parts[|parts| - 1][|parts[|parts| - 1]| - 1]
  {
    if |parts| > 1 {
      JoinLast(parts[1..], sep);
      assert Join(parts, sep) == parts[0] + sep + Join(parts[1..], sep);
    }
  }

  /** Reading a `", "`-join of plain parts reads each part in turn. */
  lemma JoinedParts(texts: seq<string>)
    requires |texts| >= 1
    requires forall k :: 0 <= k < |texts| ==> PlainPart(texts[k])
    ensures var s := Join(texts, ", ");
      var parts := Split(Strip(s), ',');
      Strip(s) != [] && |parts| == |texts| && parts[0] == texts[0]
      && forall k :: 1 <= k < |texts| ==> parts[k] == " " + texts[k]
  {
    var s := Join(texts, ", ");
    JoinFirst(texts, ", ");
    JoinLast(texts, ", ");
    StripStripped(s);
    SplitJoinCommaSpace(texts);
  }

  /** The items written are items of the list. */
  lemma TopFromItems(items: seq<JsonValue>, topN: int, k: nat)
    requires AllDicts(items) && k < |TopItems(items, topN)|
    ensures TopItems(items, topN)[k] in items
  {
    var sorted := SortDesc(items, SortKey);
    assert TopItems(items, topN)[k] == sorted[k];
    assert sorted[k] in multiset(items);
  }

  /** The written items have distinct names and come heaviest first. */
  lemma TopDistinctSorted(items: seq<JsonValue>, topN: int)
    requires AllDicts(items) && DistinctBy(items, ItemName)
    ensures DistinctKeys(Map(TopItems(items, topN), Entry))
    ensures SortedDesc(Map(TopItems(items, topN), Entry), Weight)
  {
    var sorted := SortDesc(items, SortKey);
    SortDescDistinct(items, SortKey, ItemName);
    var top := TopItems(items, topN);
    assert top == sorted[..|top|];
  }

  /** The round trip: `parse_ratio_string(_parse_weight_list(items, top_n))`
      is the name-to-weight dictionary of the written items, in the order
      they were written. */
  lemma WeightListRoundTrip(items: seq<JsonValue>, topN: int)
    requires items != []
    requires forall k :: 0 <= k < |items| ==> Listable(items[k])
    requires DistinctBy(items, ItemName)
    ensures WeightList(JArr(items), topN).Ok? && WeightList(JArr(items), topN).value.Some?
    ensures ParseRatioText(WeightList(JArr(items), topN).value.value) == Map(TopItems(items, topN), Entry)
  {
    var texts := WrittenTexts(items, topN);
    TopDistinctSorted(items, topN);
    ReadBack(TopItems(items, topN), texts);
  }

  /** `_parse_weight_list` succeeds on listable items and writes the text of
      each of the heaviest ones. */
  lemma WrittenTexts(items: seq<JsonValue>, topN: int) returns (texts: seq<string>)
    requires items != []
    requires forall k :: 0 <= k < |items| ==> Listable(items[k])
    ensures AllDicts(items)
    ensures var top := TopItems(items, topN);
      && WeightList(JArr(items), topN) == Ok(Some(Join(texts, ", ")))
      && |texts| == |top|
      && forall k :: 0 <= k < |top| ==> Listable(top[k]) && Ok(texts[k]) == ItemText(top[k].fields)
  {
    TopListable(items, topN);
    var top := TopItems(items, topN);
    assert ItemTexts(top).Ok?;
    texts := ItemTexts(top).value;
    ListableWritten(items, topN);
  }

  /** A list of listable items is written as the join of its top texts. */
  lemma ListableWritten(items: seq<JsonValue>, topN: int)
    requires items != []
    requires forall k :: 0 <= k < |items| ==> Listable(items[k])
    requires AllDicts(items) && ItemTexts(TopItems(items, topN)).Ok?
    ensures WeightList(JArr(items), topN) == Ok(Some(Join(ItemTexts(TopItems(items, topN)).value, ", ")))
  {
    assert Truthy(JArr(items));
    assert AllNumericWeights(items);
  }

  /** The written items are listable, so their texts are written. */
  lemma TopListable(items: seq<JsonValue>, topN: int)
    requires forall k :: 0 <= k < |items| ==> Listable(items[k])
    ensures AllDicts(items)
    ensures var top := TopItems(items, topN);
      forall k :: 0 <= k < |top| ==> Listable(top[k]) && ItemText(top[k].fields).Ok?
  {
    assert AllDicts(items);
    var top := TopItems(items, topN);
    forall k | 0 <= k < |top|
      ensures Listable(top[k]) && ItemText(top[k].fields).Ok?
    {
      TopFromItems(items, topN, k);
      ItemTextOk(top[k]);
    }
  }

  /** Reading the `", "`-join of the texts of listable items with distinct
      names gives their entries. */
  lemma ReadBack(top: seq<JsonValue>, texts: seq<string>)
    requires |texts| == |top| && DistinctKeys(Map(top, Entry))
    requires forall k :: 0 <= k < |top| ==> Listable(top[k]) && Ok(texts[k]) == ItemText(top[k].fields)
    ensures ParseRatioText(Join(texts, ", ")) == Map(top, Entry)
  {
    if top != [] {
      AllPlain(top, texts);
      JoinedParts(texts);
      var parts := Split(Strip(Join(texts, ", ")), ',');
      PartsRead(top, texts, parts);
      EntriesOfParts(parts, Map(top, Entry));
    }
  }

  lemma AllPlain(top: seq<JsonValue>, texts: seq<string>)
    requires |texts| == |top|
    requires forall k :: 0 <= k < |top| ==> Listable(top[k]) && Ok(texts[k]) == ItemText(top[k].fields)
    ensures forall k :: 0 <= k < |texts| ==> PlainPart(texts[k])
  {
    forall k | 0 <= k < |texts|
      ensures PlainPart(texts[k])
    {
      ItemTextParses(top[k]);
    }
  }

  lemma PartsRead(top: seq<JsonValue>, texts: seq<string>, parts: seq<string>)
    requires |texts| == |top| == |parts| >= 1
    requires forall k :: 0 <= k < |top| ==> Listable(top[k]) && Ok(texts[k]) == ItemText(top[k].fields)
    requires parts[0] == texts[0] && forall k :: 1 <= k < |texts| ==> parts[k] == " " + texts[k]
    ensures forall k :: 0 <= k < |parts| ==> ParseRatioPart(parts[k]) == Some(Map(top, Entry)[k])
  {
    forall k | 0 <= k < |parts|
      ensures ParseRatioPart(parts[k]) == Some(Map(top, Entry)[k])
    {
      assert Listable(top[k]) && Ok(texts[k]) == ItemText(top[k].fields);
      assert parts[k] == texts[k] || parts[k] == " " + texts[k];
      PartRead(top[k], texts[k], parts[k]);
      assert Map(top, Entry)[k] == Entry(top[k]);
    }
  }

  lemma PartRead(v: JsonValue, text: string, part: string)
    requires Listable(v) && Ok(text) == ItemText(v.fields)
    requires part == text || part == " " + text
    ensures ParseRatioPart(part) == Some(Entry(v))
  {
    ItemTextParses(v);
  }

  /** Ranking the read-back dictionary, as `split_ratio_columns` does, gives
      the written items in the order they were written. */
  lemma RankedRoundTrip(items: seq<JsonValue>, topN: int)
    requires items != []
    requires forall k :: 0 <= k < |items| ==> Listable(items[k])
    requires DistinctBy(items, ItemName)
    ensures WeightList(JArr(items), topN).Ok? && WeightList(JArr(items), topN).value.Some?
    ensures Ranked(Str(WeightList(JArr(items), topN).value.value)) == Map(TopItems(items, topN), Entry)
  {
    WeightListRoundTrip(items, topN);
    TopDistinctSorted(items, topN);
    SortDescOfSorted(Map(TopItems(items, topN), Entry), Weight);
  }
}

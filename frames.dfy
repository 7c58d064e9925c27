/** The data-frame side of the processor: a frame as named columns of cells,
    `split_ratio_columns`, which spreads a ratio column over ranked
    name/percentage columns, and `preprocess_etf_data`, which converts the
    money columns and splits the sector and country weights. */
module Frames {
  import opened Py
  import opened Text
  import opened Seqs
  import opened Sorting
  import opened Processor

  /** A frame's contents: the column names in order, each column's cells and
      the number of rows. */
  datatype Table = Table(columns: seq<string>, data: map<string, seq<Cell>>, height: nat)

  predicate Distinct(s: seq<string>) {
    forall i, j :: 0 <= i < j < |s| ==> s[i] != s[j]
  }

  /** Column names are distinct, each names one column, and every column has
      one cell per row. */
  ghost predicate WellFormed(t: Table) {
    Distinct(t.columns)
    && (forall c :: c in t.data <==> c in t.columns)
    && (forall c :: c in t.data ==> |t.data[c]| == t.height)
  }

  /** `df[name] = col`: an existing column is replaced where it stands, a new
      one goes last. */
  function Assign(t: Table, name: string, col: seq<Cell>): (r: Table)
    requires WellFormed(t) && |col| == t.height
    ensures WellFormed(r) && r.height == t.height
  {
    Table(if name in t.columns then t.columns else t.columns + [name], t.data[name := col], t.height)
  }

  /** `s` without `x`, the rest in order. */
  function Without(s: seq<string>, x: string): (r: seq<string>)
    ensures forall y :: y in r <==> y in s && y != x
    ensures Distinct(s) ==> Distinct(r)
  {
    if s == [] then []
    else
      var rest := Without(s[1..], x);
      assert Distinct(s) ==> s[0] !in s[1..];
      if s[0] == x then rest else [s[0]] + rest
  }

  /** `df.drop(columns=[name])`. */
  function DropColumn(t: Table, name: string): (r: Table)
    requires WellFormed(t)
    ensures WellFormed(r) && r.height == t.height
  {
    Table(Without(t.columns, name), t.data - {name}, t.height)
  }

  // ---------------------------------------------------------------------
  // split_ratio_columns

  /** `f"{prefix}_{i+1}"`. */
  function RankName(prefix: string, i: nat): string {
    prefix + "_" + NatToString(i + 1)
  }

  /** `f"{prefix}_{i+1}_pct"`. */
  function PctName(prefix: string, i: nat): string {
    RankName(prefix, i) + "_pct"
  }

  /** The rank columns of one prefix never collide: a name column ends in a
      digit and a percentage column in `t`, and the rank is read back from
      the digits. */
  lemma RankNamesDistinct(prefix: string, i: nat, j: nat)
    ensures RankName(prefix, i) != PctName(prefix, j)
    ensures i != j ==> RankName(prefix, i) != RankName(prefix, j)
    ensures i != j ==> PctName(prefix, i) != PctName(prefix, j)
  {
    var a, di := RankName(prefix, i), NatToString(i + 1);
    assert a[|a| - 1] == di[|di| - 1];
    assert IsDigit(a[|a| - 1]);
    var b := PctName(prefix, j);
    assert b[|b| - 1] == 't';
    if i != j {
      var a', dj := RankName(prefix, j), NatToString(j + 1);
      assert di == a[|prefix| + 1..];
      assert dj == a'[|prefix| + 1..];
      assert PctName(prefix, i)[..|a|] == a;
      assert PctName(prefix, j)[..|a'|] == a';
    }
  }

  /** A name whose character after `prefix_` is no digit is no rank column
      of `prefix`. */
  lemma NotARankName(prefix: string, name: string, i: nat)
    requires |name| > |prefix| + 1 && !IsDigit(name[|prefix| + 1])
    ensures name != RankName(prefix, i) && name != PctName(prefix, i)
  {
    var d := NatToString(i + 1);
    assert RankName(prefix, i)[|prefix| + 1] == d[0];
    assert PctName(prefix, i)[|prefix| + 1] == d[0];
  }

  /** Nor is a name that starts with another letter than `prefix`. */
  lemma NotARankNameByFirst(prefix: string, name: string, i: nat)
    requires |prefix| > 0 && |name| > 0 && name[0] != prefix[0]
    ensures name != RankName(prefix, i) && name != PctName(prefix, i)
  {
    assert RankName(prefix, i)[0] == prefix[0];
    assert PctName(prefix, i)[0] == prefix[0];
  }

  /** The sort key of a dictionary item, its percentage. */
  function Weight(e: (string, real)): real {
    e.1
  }

  /** `sorted(parse_ratio_string(cell).items(), key=lambda x: x[1],
      reverse=True)`. */
  function Ranked(c: Cell): (r: seq<(string, real)>)
    ensures SortedDesc(r, Weight)
    ensures multiset(r) == multiset(ParseRatio(c))
  {
    SortDesc(ParseRatio(c), Weight)
  }

  /** `max_len`: the length of the longest ranked list, 0 for a frame
      without rows. */
  function MaxLen(ranked: seq<seq<(string, real)>>): (m: nat)
    ensures forall j :: 0 <= j < |ranked| ==> |ranked[j]| <= m
    ensures m > 0 ==> exists j :: 0 <= j < |ranked| && |ranked[j]| == m
  {
    if ranked == [] then 0
    else
      var m := MaxLen(ranked[1..]);
      assert forall j :: 1 <= j < |ranked| ==> ranked[j] == ranked[1..][j - 1];
      if |ranked[0]| >= m then |ranked[0]| else m
  }

  /** The cell of column `{prefix}_{i+1}` for one row: the `i`-th name, or
      `None` past the end of the row's list. */
  function NameAt(i: nat): seq<(string, real)> -> Cell {
    (row: seq<(string, real)>) => if i < |row| then Str(row[i].0) else Null
  }

  /** The cell of column `{prefix}_{i+1}_pct` for one row. */
  function PctAt(i: nat): seq<(string, real)> -> Cell {
    (row: seq<(string, real)>) => if i < |row| then Num(row[i].1) else Null
  }

  /** The frame after the first `n` rounds of the column loop. */
  function AddRanks(t: Table, ranked: seq<seq<(string, real)>>, prefix: string, n: nat): (r: Table)
    requires WellFormed(t) && |ranked| == t.height
    ensures WellFormed(r) && r.height == t.height
    ensures forall c :: c in t.columns ==> c in r.columns
  {
    if n == 0 then t
    else
      var s := AddRanks(t, ranked, prefix, n - 1);
      Assign(Assign(s, RankName(prefix, n - 1), Map(ranked, NameAt(n - 1))),
             PctName(prefix, n - 1), Map(ranked, PctAt(n - 1)))
  }

  /** The ranked lists of column `name`, one per row. */
  function RankedColumn(t: Table, name: string): (ranked: seq<seq<(string, real)>>)
    requires WellFormed(t) && name in t.columns
    ensures |ranked| == t.height
  {
    Map(t.data[name], Ranked)
  }

  /** `split_ratio_columns(df, name, prefix, keep)` as a value. */
  function SplitRatio(t: Table, name: string, prefix: string, keep: bool): (r: Table)
    requires WellFormed(t)
    ensures WellFormed(r) && r.height == t.height
  {
    if name !in t.columns then t
    else
      var ranked := RankedColumn(t, name);
      var added := AddRanks(t, ranked, prefix, MaxLen(ranked));
      if keep then added else DropColumn(added, name)
  }

  /** After `n` rounds, columns `{prefix}_{i+1}` and `{prefix}_{i+1}_pct`
      hold, for each `i < n`, the `i`-th name and percentage of every row. */
  lemma {:induction false} AddRanksColumns(t: Table, ranked: seq<seq<(string, real)>>, prefix: string, n: nat, i: nat)
    requires WellFormed(t) && |ranked| == t.height && i < n
    ensures RankName(prefix, i) in AddRanks(t, ranked, prefix, n).data
    ensures PctName(prefix, i) in AddRanks(t, ranked, prefix, n).data
    ensures AddRanks(t, ranked, prefix, n).data[RankName(prefix, i)] == Map(ranked, NameAt(i))
    ensures AddRanks(t, ranked, prefix, n).data[PctName(prefix, i)] == Map(ranked, PctAt(i))
  {
    var s := AddRanks(t, ranked, prefix, n - 1);
    var name, pct := RankName(prefix, n - 1), PctName(prefix, n - 1);
    assert AddRanks(t, ranked, prefix, n).data
        == s.data[name := Map(ranked, NameAt(n - 1))][pct := Map(ranked, PctAt(n - 1))];
    RankNamesDistinct(prefix, i, n - 1);
    RankNamesDistinct(prefix, n - 1, i);
    if i < n - 1 {
      AddRanksColumns(t, ranked, prefix, n - 1, i);
    }
  }

  /** The loop leaves every other column as it was, keeps the existing
      columns in front in their order, and adds nothing but rank columns. */
  lemma {:induction false} AddRanksOthers(t: Table, ranked: seq<seq<(string, real)>>, prefix: string, n: nat, c: string)
    requires WellFormed(t) && |ranked| == t.height
    ensures |t.columns| <= |AddRanks(t, ranked, prefix, n).columns|
    ensures AddRanks(t, ranked, prefix, n).columns[..|t.columns|] == t.columns
    ensures c in t.data && (forall i :: 0 <= i < n ==> c != RankName(prefix, i) && c != PctName(prefix, i))
        ==> AddRanks(t, ranked, prefix, n).data[c] == t.data[c]
    ensures c in AddRanks(t, ranked, prefix, n).data
        ==> c in t.data || exists i :: 0 <= i < n && (c == RankName(prefix, i) || c == PctName(prefix, i))
  {
    AddRanksPrefix(t, ranked, prefix, n);
    if n > 0 {
      AddRanksOthers(t, ranked, prefix, n - 1, c);
      var s := AddRanks(t, ranked, prefix, n - 1);
      var name, pct := RankName(prefix, n - 1), PctName(prefix, n - 1);
      assert AddRanks(t, ranked, prefix, n).data
          == s.data[name := Map(ranked, NameAt(n - 1))][pct := Map(ranked, PctAt(n - 1))];
      if c in AddRanks(t, ranked, prefix, n).data && c !in t.data {
        if c == name || c == pct {
          assert 0 <= n - 1 < n && (c == RankName(prefix, n - 1) || c == PctName(prefix, n - 1));
        }
      }
    }
  }

  /** Adding rank columns only appends: the frame's columns stay in front. */
  lemma {:induction false} AddRanksPrefix(t: Table, ranked: seq<seq<(string, real)>>, prefix: string, n: nat)
    requires WellFormed(t) && |ranked| == t.height
    ensures |t.columns| <= |AddRanks(t, ranked, prefix, n).columns|
    ensures AddRanks(t, ranked, prefix, n).columns[..|t.columns|] == t.columns
  {
    if n > 0 {
      AddRanksPrefix(t, ranked, prefix, n - 1);
      var s := AddRanks(t, ranked, prefix, n - 1);
      var named := Assign(s, RankName(prefix, n - 1), Map(ranked, NameAt(n - 1)));
      AssignPrefix(s, RankName(prefix, n - 1), Map(ranked, NameAt(n - 1)));
      AssignPrefix(named, PctName(prefix, n - 1), Map(ranked, PctAt(n - 1)));
      var r := Assign(named, PctName(prefix, n - 1), Map(ranked, PctAt(n - 1)));
      assert AddRanks(t, ranked, prefix, n) == r;
      PrefixOfPrefix(s.columns, named.columns, r.columns);
      PrefixOfPrefix(t.columns, s.columns, r.columns);
    }
  }

  /** Assigning a column keeps the existing columns in front. */
  lemma AssignPrefix(t: Table, name: string, col: seq<Cell>)
    requires WellFormed(t) && |col| == t.height
    ensures |t.columns| <= |Assign(t, name, col).columns|
    ensures Assign(t, name, col).columns[..|t.columns|] == t.columns
  {
  }

  /** What `split_ratio_columns` promises about a column it splits: for each
      rank `i` below the longest list and each row `j`, the name and
      percentage columns hold the row's `i`-th item in descending order of
      percentage, or `None` past the row's end, and some row fills every
      rank column. */
  lemma SplitRatioColumnsContent(t: Table, name: string, prefix: string, keep: bool, i: nat, j: nat)
    requires WellFormed(t) && name in t.columns && j < t.height
    requires keep || (name != RankName(prefix, i) && name != PctName(prefix, i))
    requires i < MaxLen(RankedColumn(t, name))
    ensures RankName(prefix, i) in SplitRatio(t, name, prefix, keep).data
    ensures PctName(prefix, i) in SplitRatio(t, name, prefix, keep).data
    ensures SplitRatio(t, name, prefix, keep).data[RankName(prefix, i)][j]
         == if i < |Ranked(t.data[name][j])| then Str(Ranked(t.data[name][j])[i].0) else Null
    ensures SplitRatio(t, name, prefix, keep).data[PctName(prefix, i)][j]
         == if i < |Ranked(t.data[name][j])| then Num(Ranked(t.data[name][j])[i].1) else Null
  {
    var ranked := RankedColumn(t, name);
    AddRanksColumns(t, ranked, prefix, MaxLen(ranked), i);
    RankNamesDistinct(prefix, i, i);
  }

  /** How many rank column pairs `split_ratio_columns` adds: `max_len`, or
      none when the column is absent. */
  function SplitCount(t: Table, name: string): nat
    requires WellFormed(t)
  {
    if name in t.columns then MaxLen(RankedColumn(t, name)) else 0
  }

  /** The columns `split_ratio_columns` leaves alone: the frame's columns
      keep their order in front (the split column leaving it when `keep` is
      false), other columns keep their cells, and the only new columns are
      the rank columns below `max_len`. */
  lemma SplitRatioColumnsOthers(t: Table, name: string, prefix: string, keep: bool, c: string)
    requires WellFormed(t)
    ensures keep ==> |t.columns| <= |SplitRatio(t, name, prefix, keep).columns|
    ensures keep ==> SplitRatio(t, name, prefix, keep).columns[..|t.columns|] == t.columns
    ensures !keep && name in t.columns ==> name !in SplitRatio(t, name, prefix, keep).data
    ensures c in t.data && (keep || c != name)
        && (forall i :: 0 <= i < SplitCount(t, name) ==> c != RankName(prefix, i) && c != PctName(prefix, i))
        ==> c in SplitRatio(t, name, prefix, keep).data && SplitRatio(t, name, prefix, keep).data[c] == t.data[c]
    ensures c in SplitRatio(t, name, prefix, keep).data
        ==> c in t.data || exists i :: 0 <= i < SplitCount(t, name) && (c == RankName(prefix, i) || c == PctName(prefix, i))
  {
    if name in t.columns {
      var ranked := RankedColumn(t, name);
      var added := AddRanks(t, ranked, prefix, MaxLen(ranked));
      AddRanksOthers(t, ranked, prefix, MaxLen(ranked), c);
      assert SplitRatio(t, name, prefix, keep) == if keep then added else DropColumn(added, name);
    }
  }

  /** Each row's ranked list is its dictionary's items, largest percentage
      first, ties in the dictionary's order. */
  lemma RankedRow(c: Cell, v: real)
    ensures SortedDesc(Ranked(c), Weight)
    ensures multiset(Ranked(c)) == multiset(ParseRatio(c))
    ensures Filter(Ranked(c), KeyIs(Weight, v)) == Filter(ParseRatio(c), KeyIs(Weight, v))
  {
    SortDescStable(ParseRatio(c), Weight, v);
  }

  /** A pandas data frame, changed in place by column assignment. */
  class Frame {
    var columns: seq<string>
    var data: map<string, seq<Cell>>
    var height: nat

    function View(): Table
      reads this
    {
      Table(columns, data, height)
    }

    ghost predicate Valid()
      reads this
    {
      WellFormed(View())
    }

    constructor (t: Table)
      requires WellFormed(t)
      ensures Valid() && View() == t
    {
      columns, data, height := t.columns, t.data, t.height;
    }

    /** `df.copy()`. */
    method Copy() returns (f: Frame)
      requires Valid()
      ensures fresh(f) && f.Valid() && f.View() == View()
    {
      f := new Frame(View());
    }

    /** `df[name] = col`. */
    method SetColumn(name: string, col: seq<Cell>)
      requires Valid() && |col| == height
      modifies this
      ensures Valid() && View() == Assign(old(View()), name, col)
    {
      if name !in columns {
        columns := columns + [name];
      }
      data := data[name := col];
    }

    /** `df.drop(columns=[name])`, which builds a new frame. */
    method Drop(name: string) returns (f: Frame)
      requires Valid() && name in columns
      ensures fresh(f) && f.Valid() && f.View() == DropColumn(View(), name)
    {
      f := new Frame(DropColumn(View(), name));
    }
  }

  /** `split_ratio_columns`. The rank columns are assigned to the frame it
      is given, so the caller's frame gains them even when `keep` is false
      and a new frame without the split column is returned. */
  method SplitRatioColumns(df: Frame, name: string, prefix: string, keep: bool) returns (r: Frame)
    requires df.Valid()
    modifies df
    ensures r.Valid() && r.View() == SplitRatio(old(df.View()), name, prefix, keep)
    ensures df.Valid() && df.View() == SplitRatio(old(df.View()), name, prefix, true)
    ensures keep || name !in old(df.columns) ==> r == df
  {
    if name !in df.columns {
      return df;
    }
    ghost var t := df.View();
    var ranked := Map(df.data[name], Ranked);
    var maxLen := MaxLen(ranked);
    for i := 0 to maxLen
      invariant df.Valid() && df.View() == AddRanks(t, ranked, prefix, i)
    {
      df.SetColumn(RankName(prefix, i), Map(ranked, NameAt(i)));
      df.SetColumn(PctName(prefix, i), Map(ranked, PctAt(i)));
    }
    r := df;
    if !keep {
      r := df.Drop(name);
    }
  }

  // ---------------------------------------------------------------------
  // preprocess_etf_data

  /** The columns converted with `convert_to_number`, in order. */
  const NumericColumns: seq<string> := ["market_cap", "inflow_1m", "nav", "price", "fee", "distribution_yield"]

  /** `col.apply(convert_to_number)`: every cell converted, or the error of
      the first cell that raises. */
  function ConvertColumn(cells: seq<Cell>): (r: Outcome<seq<Cell>>)
    ensures r.Ok? ==> |r.value| == |cells|
  {
    if cells == [] then Ok([])
    else
      var x :- ConvertToNumber(cells[0]);
      var rest :- ConvertColumn(cells[1..]);
      Ok([Num(x)] + rest)
  }

  /** A column converts exactly when each of its cells does, and then holds
      each cell's number in place. */
  lemma {:induction false} ConvertColumnCells(cells: seq<Cell>)
    ensures ConvertColumn(cells).Ok? <==> forall j :: 0 <= j < |cells| ==> ConvertToNumber(cells[j]).Ok?
    ensures ConvertColumn(cells).Ok?
        ==> forall j :: 0 <= j < |cells| ==> ConvertColumn(cells).value[j] == Num(ConvertToNumber(cells[j]).value)
  {
    if cells != [] {
      ConvertColumnCells(cells[1..]);
      assert forall j :: 1 <= j < |cells| ==> cells[j] == cells[1..][j - 1];
    }
  }

  /** The conversion loop over `cols`: each listed column present in the
      frame is converted in place. */
  function ConvertColumns(t: Table, cols: seq<string>): (r: Outcome<Table>)
    requires WellFormed(t)
    ensures r.Ok? ==> WellFormed(r.value) && r.value.columns == t.columns && r.value.height == t.height
  {
    if cols == [] then Ok(t)
    else
      var s :- ConvertColumns(t, cols[..|cols| - 1]);
      var c := cols[|cols| - 1];
      if c in s.columns then
        var col :- ConvertColumn(s.data[c]);
        Ok(Assign(s, c, col))
      else Ok(s)
  }

  /** Every listed column present in the frame converts. */
  predicate AllConvert(t: Table, cols: seq<string>)
    requires WellFormed(t)
  {
    forall k :: 0 <= k < |cols| && cols[k] in t.data ==> ConvertColumn(t.data[cols[k]]).Ok?
  }

  lemma AllConvertSnoc(t: Table, cols: seq<string>)
    requires WellFormed(t) && cols != []
    ensures var last := cols[|cols| - 1];
      AllConvert(t, cols)
      <==> AllConvert(t, cols[..|cols| - 1]) && (last in t.data ==> ConvertColumn(t.data[last]).Ok?)
  {
    var init, last := cols[..|cols| - 1], cols[|cols| - 1];
    if AllConvert(t, cols) {
      forall k | 0 <= k < |init| && init[k] in t.data
        ensures ConvertColumn(t.data[init[k]]).Ok?
      {
        assert init[k] == cols[k];
      }
    }
    if AllConvert(t, init) && (last in t.data ==> ConvertColumn(t.data[last]).Ok?) {
      forall k | 0 <= k < |cols| && cols[k] in t.data
        ensures ConvertColumn(t.data[cols[k]]).Ok?
      {
        if k < |init| {
          assert cols[k] == init[k];
        }
      }
    }
  }

  /** Conversion fails exactly when a listed column present in the frame
      holds a cell that raises. */
  lemma {:induction false} ConvertColumnsOk(t: Table, cols: seq<string>)
    requires WellFormed(t) && Distinct(cols)
    ensures ConvertColumns(t, cols).Ok? <==> AllConvert(t, cols)
  {
    if cols != [] {
      var init, last := cols[..|cols| - 1], cols[|cols| - 1];
      assert Distinct(init);
      assert last !in init;
      ConvertColumnsOk(t, init);
      AllConvertSnoc(t, cols);
      var r := ConvertColumns(t, init);
      if r.Ok? {
        ConvertStep(t, cols, r.value);
        ConvertColumnsValues(t, init, last);
      }
    }
  }

  /** After a successful conversion the listed columns hold the converted
      cells and the others are untouched. */
  lemma {:induction false} ConvertColumnsValues(t: Table, cols: seq<string>, c: string)
    requires WellFormed(t) && Distinct(cols)
    ensures ConvertColumns(t, cols).Ok? && c in t.data && c in cols
        ==> ConvertColumn(t.data[c]) == Ok(ConvertColumns(t, cols).value.data[c])
    ensures ConvertColumns(t, cols).Ok? && c in t.data && c !in cols
        ==> ConvertColumns(t, cols).value.data[c] == t.data[c]
  {
    if cols != [] {
      var init, last := cols[..|cols| - 1], cols[|cols| - 1];
      assert Distinct(init);
      assert last !in init;
      assert c in cols && c != last ==> c in init;
      var r := ConvertColumns(t, init);
      if r.Ok? {
        ConvertStep(t, cols, r.value);
        ConvertColumnsValues(t, init, c);
        ConvertColumnsValues(t, init, last);
      }
    }
  }

  /** One turn of the conversion loop. */
  lemma ConvertStep(t: Table, cols: seq<string>, s: Table)
    requires WellFormed(t) && cols != [] && ConvertColumns(t, cols[..|cols| - 1]) == Ok(s)
    ensures var c := cols[|cols| - 1];
      ConvertColumns(t, cols)
      == if c !in s.columns then Ok(s)
         else if ConvertColumn(s.data[c]).Raised? then Raised
         else Ok(Assign(s, c, ConvertColumn(s.data[c]).value))
  {
  }

  /** `preprocess_etf_data` as a value: the money columns converted, then the
      sector and country weights split, the originals kept. */
  function Preprocess(t: Table): (r: Outcome<Table>)
    requires WellFormed(t)
    ensures r.Ok? ==> WellFormed(r.value) && r.value.height == t.height
  {
    var converted :- ConvertColumns(t, NumericColumns);
    Ok(SplitWeights(converted))
  }

  /** The two splits of `preprocess_etf_data`, originals kept. */
  function SplitWeights(t: Table): (r: Table)
    requires WellFormed(t)
    ensures WellFormed(r) && r.height == t.height
  {
    SplitRatio(SplitRatio(t, "sector_weight", "sector", true), "country_weight", "country", true)
  }

  /** `preprocess_etf_data`: works on a copy, so the frame it is given is
      left as it was. */
  method PreprocessEtfData(df: Frame) returns (r: Outcome<Frame>)
    requires df.Valid()
    ensures r.Ok? <==> Preprocess(df.View()).Ok?
    ensures r.Ok? ==> r.value.Valid() && r.value.View() == Preprocess(df.View()).value
  {
    var f := df.Copy();
    var ok := ConvertNumericColumns(f);
    if !ok {
      return Raised;
    }
    ghost var converted := f.View();
    f := SplitRatioColumns(f, "sector_weight", "sector", true);
    f := SplitRatioColumns(f, "country_weight", "country", true);
    assert f.View() == SplitWeights(converted);
    r := Ok(f);
  }

  /** The conversion loop of `preprocess_etf_data`: each money column that is
      present is replaced by its converted cells; the first failure stops it. */
  method ConvertNumericColumns(f: Frame) returns (ok: bool)
    requires f.Valid()
    modifies f
    ensures ok <==> ConvertColumns(old(f.View()), NumericColumns).Ok?
    ensures ok ==> f.Valid() && f.View() == ConvertColumns(old(f.View()), NumericColumns).value
  {
    ghost var t := f.View();
    for k := 0 to |NumericColumns|
      invariant f.Valid()
      invariant ConvertColumns(t, NumericColumns[..k]) == Ok(f.View())
    {
      var c := NumericColumns[k];
      ghost var s := f.View();
      assert NumericColumns[..k + 1][..k] == NumericColumns[..k];
      ConvertStep(t, NumericColumns[..k + 1], s);
      if c in f.columns {
        var col := ConvertColumn(f.data[c]);
        if col.Raised? {
          ConvertFailurePersists(t, NumericColumns, k + 1);
          return false;
        }
        f.SetColumn(c, col.value);
      }
    }
    assert NumericColumns[..|NumericColumns|] == NumericColumns;
    return true;
  }

  /** A column that fails to convert fails the whole conversion loop. */
  lemma {:induction false} ConvertFailurePersists(t: Table, cols: seq<string>, k: nat)
    requires WellFormed(t) && k <= |cols|
    requires ConvertColumns(t, cols[..k]).Raised?
    ensures ConvertColumns(t, cols).Raised?
    decreases |cols| - k
  {
    if k < |cols| {
      assert cols[..k + 1][..k] == cols[..k];
      ConvertFailurePersists(t, cols, k + 1);
    } else {
      assert cols[..k] == cols;
    }
  }

  /** What `preprocess_etf_data` keeps: the original columns stay in front
      in their order, the weight texts stay as they were for the database,
      and each money column holds its converted cells. */
  lemma PreprocessKeeps(t: Table, c: string)
    requires WellFormed(t) && Preprocess(t).Ok?
    ensures |t.columns| <= |Preprocess(t).value.columns|
    ensures Preprocess(t).value.columns[..|t.columns|] == t.columns
    ensures c in t.data && c in NumericColumns
        ==> c in Preprocess(t).value.data && ConvertColumn(t.data[c]) == Ok(Preprocess(t).value.data[c])
    ensures c in t.data && (c == "sector_weight" || c == "country_weight")
        ==> c in Preprocess(t).value.data && Preprocess(t).value.data[c] == t.data[c]
    ensures c in t.data && c !in NumericColumns && !IsRankColumn(c)
        ==> c in Preprocess(t).value.data && Preprocess(t).value.data[c] == t.data[c]
  {
    var converted := ConvertColumns(t, NumericColumns).value;
    assert Preprocess(t).value == SplitWeights(converted);
    NumericColumnsDistinct();
    ConvertColumnsValues(t, NumericColumns, c);
    SplitWeightsKeeps(converted, c);
    if c == "sector_weight" || c == "country_weight" {
      NotAMoneyColumn(c);
    }
  }

  lemma NotAMoneyColumn(c: string)
    requires c == "sector_weight" || c == "country_weight"
    ensures c !in NumericColumns
  {
    forall k | 0 <= k < |NumericColumns|
      ensures NumericColumns[k] != c
    {
      assert NumericColumns[k][0] in "minpfd";
    }
  }

  /** A name the splits of `preprocess_etf_data` may write:
      `sector_{i+1}`, `sector_{i+1}_pct`, `country_{i+1}` or
      `country_{i+1}_pct`. */
  ghost predicate IsRankColumn(c: string) {
    exists i: nat :: c == RankName("sector", i) || c == PctName("sector", i)
      || c == RankName("country", i) || c == PctName("country", i)
  }

  /** The splits keep the columns in front and leave the money and weight
      columns, and every column that is no rank column, as they are. */
  lemma SplitWeightsKeeps(t: Table, c: string)
    requires WellFormed(t)
    ensures |t.columns| <= |SplitWeights(t).columns|
    ensures SplitWeights(t).columns[..|t.columns|] == t.columns
    ensures c in t.data && (c in NumericColumns || c == "sector_weight" || c == "country_weight" || !IsRankColumn(c))
        ==> c in SplitWeights(t).data && SplitWeights(t).data[c] == t.data[c]
  {
    var withSectors := SplitRatio(t, "sector_weight", "sector", true);
    SplitKeepsOrder(t, "sector_weight", "sector");
    SplitKeepsOrder(withSectors, "country_weight", "country");
    PrefixOfPrefix(t.columns, withSectors.columns, SplitWeights(t).columns);
    if c in t.data && (c in NumericColumns || c == "sector_weight" || c == "country_weight" || !IsRankColumn(c)) {
      if c in NumericColumns || c == "sector_weight" || c == "country_weight" {
        ProtectedNames(c);
      }
      SplitKeepsColumn(t, "sector_weight", "sector", c);
      SplitKeepsColumn(withSectors, "country_weight", "country", c);
    }
  }

  /** A prefix of a prefix is a prefix. */
  lemma PrefixOfPrefix(a: seq<string>, b: seq<string>, c: seq<string>)
    requires |a| <= |b| <= |c| && c[..|b|] == b && b[..|a|] == a
    ensures c[..|a|] == a
  {
    assert c[..|a|] == c[..|b|][..|a|];
  }

  /** With `keep`, the split leaves the frame's columns in front. */
  lemma SplitKeepsOrder(t: Table, name: string, prefix: string)
    requires WellFormed(t)
    ensures |t.columns| <= |SplitRatio(t, name, prefix, true).columns|
    ensures SplitRatio(t, name, prefix, true).columns[..|t.columns|] == t.columns
  {
    SplitRatioColumnsOthers(t, name, prefix, true, name);
  }

  /** With `keep`, a column that is no rank column keeps its cells. */
  lemma SplitKeepsColumn(t: Table, name: string, prefix: string, c: string)
    requires WellFormed(t) && c in t.data
    requires forall i: nat :: c != RankName(prefix, i) && c != PctName(prefix, i)
    ensures c in SplitRatio(t, name, prefix, true).data
    ensures SplitRatio(t, name, prefix, true).data[c] == t.data[c]
  {
    SplitRatioColumnsOthers(t, name, prefix, true, c);
  }

  lemma NumericColumnsDistinct()
    ensures Distinct(NumericColumns)
  {
    forall i, j | 0 <= i < j < |NumericColumns|
      ensures NumericColumns[i] != NumericColumns[j]
    {
      assert NumericColumns[i][0] != NumericColumns[j][0];
    }
  }

  /** The columns `preprocess_etf_data` reads are none of the rank columns it
      adds. */
  lemma ProtectedNames(c: string)
    requires c in NumericColumns || c == "sector_weight" || c == "country_weight"
    ensures forall i: nat :: c != RankName("sector", i) && c != PctName("sector", i)
    ensures forall i: nat :: c != RankName("country", i) && c != PctName("country", i)
  {
    forall i: nat
      ensures c != RankName("sector", i) && c != PctName("sector", i)
      ensures c != RankName("country", i) && c != PctName("country", i)
    {
      if c == "sector_weight" {
        NotARankName("sector", c, i);
        NotARankNameByFirst("country", c, i);
      } else if c == "country_weight" {
        NotARankNameByFirst("sector", c, i);
        NotARankName("country", c, i);
      } else {
        assert c[0] in "minpfd";
        NotARankNameByFirst("sector", c, i);
        NotARankNameByFirst("country", c, i);
      }
    }
  }
}

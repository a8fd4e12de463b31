/** read_prc_dat: clean a price file, sort it by (ticker, date) and derive each
    row's return from the preceding row of the same ticker. */
module PriceLoader {
  import opened Wrappers
  import opened Text
  import opened Formatters
  import opened Table
  import opened RowOrder

  /** Positions of the four columns the loader reads. */
  datatype PriceColumns = PriceColumns(ticker: nat, date: nat, volume: nat, adjClose: nat)

  /** The columns are looked up in the order the loader touches them. */
  function FindPriceColumns(labels: seq<string>): (r: Result<PriceColumns, SchemaError>)
    ensures r.Success? ==>
      r.value.ticker < |labels| && r.value.date < |labels| &&
      r.value.volume < |labels| && r.value.adjClose < |labels|
    ensures r.Success? ==>
      labels[r.value.ticker] == "ticker" && labels[r.value.date] == "date" &&
      labels[r.value.volume] == "volume" && labels[r.value.adjClose] == "adj_close"
    ensures r.Success? <==>
      Occurrences(labels, "ticker") == 1 && Occurrences(labels, "date") == 1 &&
      Occurrences(labels, "volume") == 1 && Occurrences(labels, "adj_close") == 1
  {
    var t :- Column(labels, "ticker");
    var d :- Column(labels, "date");
    var v :- Column(labels, "volume");
    var p :- Column(labels, "adj_close");
    Success(PriceColumns(t, d, v, p))
  }

  /** The same lookups on a frame without rows. No .apply then touches a
      cell, so a duplicated volume passes; a duplicated date still fails at
      to_datetime, a duplicated ticker at sort_values, and a duplicated
      adj_close where the groupwise pct_change, a frame then, is assigned to
      the single column return. The checks come in the order the loader
      reaches them. */
  function CheckRowlessPrices(labels: seq<string>): (r: Result<(), SchemaError>)
    ensures r.Success? <==>
      Occurrences(labels, "ticker") == 1 && Occurrences(labels, "date") == 1 &&
      Occurrences(labels, "volume") > 0 && Occurrences(labels, "adj_close") == 1
  {
    var _ :- Listed(labels, "ticker");
    var _ :- Column(labels, "date");
    var _ :- Listed(labels, "volume");
    var _ :- Listed(labels, "adj_close");
    var _ :- Column(labels, "ticker");
    var _ :- Column(labels, "adj_close");
    Success(())
  }

  /** One row after the .apply and to_datetime steps. */
  function ParsePriceRow(row: seq<string>, c: PriceColumns,
                         num: string -> Option<real>, date: string -> Option<int>): PriceRow
  {
    PriceRow(date(Cell(row, c.date)), FmtTicker(Cell(row, c.ticker)),
             StrToFloat(Cell(row, c.volume), num), StrToFloat(Cell(row, c.adjClose), num))
  }

  /** The parsed rows, in input order. */
  function ParseRows(rows: seq<seq<string>>, c: PriceColumns,
                     num: string -> Option<real>, date: string -> Option<int>): (r: seq<PriceRow>)
    ensures |r| == |rows|
  {
    if rows == [] then []
    else
      var n := |rows| - 1;
      ParseRows(rows[..n], c, num, date) + [ParsePriceRow(rows[n], c, num, date)]
  }

  // ---------------------------------------------------------------------------
  // The grouped pct_change
  // ---------------------------------------------------------------------------

  /** pct_change(fill_method=None) between two prices: cur / prev - 1, missing
      when either price is missing. A zero previous price gives None here. */
  function PctChange(prev: Option<real>, cur: Option<real>): (r: Option<real>)
    ensures r.Some? <==> prev.Some? && cur.Some? && prev.value != 0.0
    ensures r.Some? ==> prev.value * (r.value + 1.0) == cur.value
  {
    if prev.Some? && cur.Some? && prev.value != 0.0 then Some(cur.value / prev.value - 1.0)
    else None
  }

  /** The output row derived from row i of the sorted rows, if its return is
      present: only a row whose predecessor has the same ticker has one. */
  function Derived(s: seq<PriceRow>, i: nat): (r: Option<Obs>)
    requires i < |s|
    ensures r.Some? <==>
      0 < i && s[i - 1].ticker == s[i].ticker &&
      s[i - 1].adjClose.Some? && s[i].adjClose.Some? && s[i - 1].adjClose.value != 0.0
    ensures r.Some? ==>
      r.value.date == s[i].date && r.value.ticker == s[i].ticker && r.value.volume == s[i].volume &&
      s[i - 1].adjClose.value * (r.value.ret + 1.0) == s[i].adjClose.value
  {
    if 0 < i && s[i - 1].ticker == s[i].ticker then
      match PctChange(s[i - 1].adjClose, s[i].adjClose)
      case None => None
      case Some(v) => Some(Obs(s[i].date, s[i].ticker, v, s[i].volume))
    else None
  }

  /** The rows that survive dropna(subset=['return']), in order. */
  function Returns(s: seq<PriceRow>): (r: seq<Obs>)
    ensures |r| <= |s|
  {
    if s == [] then []
    else
      var n := |s| - 1;
      Returns(s[..n]) + (match Derived(s, n) case None => [] case Some(o) => [o])
  }

  /** read_prc_dat as a function of the loaded frame and the two parsers. A
      frame with rows needs each of its four columns exactly once; a frame
      without rows tolerates a duplicated volume and yields no rows. */
  function LoadPrices(f: Frame, num: string -> Option<real>, date: string -> Option<int>)
    : (r: Result<seq<Obs>, SchemaError>)
    ensures var labels := Labels(f.header);
      f.rows != [] ==> (r.Success? <==>
        Occurrences(labels, "ticker") == 1 && Occurrences(labels, "date") == 1 &&
        Occurrences(labels, "volume") == 1 && Occurrences(labels, "adj_close") == 1)
    ensures var labels := Labels(f.header);
      f.rows == [] ==> (r.Success? <==>
        Occurrences(labels, "ticker") == 1 && Occurrences(labels, "date") == 1 &&
        Occurrences(labels, "volume") > 0 && Occurrences(labels, "adj_close") == 1)
    ensures r.Success? && f.rows != [] ==> |r.value| < |f.rows|
  {
    var labels := Labels(f.header);
    if f.rows == [] then
      var _ :- CheckRowlessPrices(labels);
      Success([])
    else
      var c :- FindPriceColumns(labels);
      var sorted := SortRows(ParseRows(f.rows, c, num, date));
      assert |sorted| == |multiset(sorted)| == |f.rows|;
      ReturnsShorter(sorted);
      Success(Returns(sorted))
  }

  /** The .apply / to_datetime steps over every row. */
  method ParseAll(rows: seq<seq<string>>, c: PriceColumns,
                  num: string -> Option<real>, date: string -> Option<int>)
    returns (parsed: seq<PriceRow>)
    ensures parsed == ParseRows(rows, c, num, date)
  {
    parsed := [];
    for i := 0 to |rows|
      invariant parsed == ParseRows(rows[..i], c, num, date)
    {
      parsed := parsed + [ParsePriceRow(rows[i], c, num, date)];
      ParseRowsStep(rows, i, c, num, date);
    }
    assert rows[..|rows|] == rows;
  }

  lemma ParseRowsStep(rows: seq<seq<string>>, i: nat, c: PriceColumns,
                      num: string -> Option<real>, date: string -> Option<int>)
    requires i < |rows|
    ensures ParseRows(rows[..i + 1], c, num, date) ==
      ParseRows(rows[..i], c, num, date) + [ParsePriceRow(rows[i], c, num, date)]
  {
    var p := rows[..i + 1];
    assert p[..i] == rows[..i];
    assert p[i] == rows[i];
  }

  /** groupby('ticker')['adj_close'].pct_change followed by dropna: one pass
      over the sorted rows remembering the previous ticker and price. */
  method DeriveReturns(sorted: seq<PriceRow>) returns (out: seq<Obs>)
    ensures out == Returns(sorted)
  {
    out := [];
    var prevTicker: Option<string> := None;
    var prevPrice: Option<real> := None;
    for i := 0 to |sorted|
      invariant out == Returns(sorted[..i])
      invariant prevTicker == (if i == 0 then None else Some(sorted[i - 1].ticker))
      invariant i > 0 ==> prevPrice == sorted[i - 1].adjClose
    {
      var row := sorted[i];
      var ret := if prevTicker == Some(row.ticker) then PctChange(prevPrice, row.adjClose) else None;
      if ret.Some? {
        out := out + [Obs(row.date, row.ticker, ret.value, row.volume)];
      }
      ReturnsStep(sorted, i);
      prevTicker := Some(row.ticker);
      prevPrice := row.adjClose;
    }
    assert sorted[..|sorted|] == sorted;
  }

  lemma ReturnsStep(s: seq<PriceRow>, i: nat)
    requires i < |s|
    ensures Returns(s[..i + 1]) ==
      Returns(s[..i]) + (match Derived(s, i) case None => [] case Some(o) => [o])
  {
    assert s[..i + 1][..i] == s[..i];
  }

  /** read_prc_dat: normalise the labels, find the columns, parse every row,
      sort by (ticker, date), derive the returns. */
  method ReadPrcDat(f: Frame, num: string -> Option<real>, date: string -> Option<int>)
    returns (r: Result<seq<Obs>, SchemaError>)
    ensures r == LoadPrices(f, num, date)
  {
    var labels := Labels(f.header);
    if f.rows == [] {
      var checked := CheckRowlessPrices(labels);
      if checked.Failure? {
        return Failure(checked.error);
      }
      return Success([]);
    }
    var found := FindPriceColumns(labels);
    if found.Failure? {
      return Failure(found.error);
    }
    var parsed := ParseAll(f.rows, found.value, num, date);
    var sorted := SortRows(parsed);
    var out := DeriveReturns(sorted);
    return Success(out);
  }

  // ---------------------------------------------------------------------------
  // What read_prc_dat promises
  // ---------------------------------------------------------------------------

  lemma DerivedOfPrefix(s: seq<PriceRow>, n: nat, i: nat)
    requires i < n <= |s|
    ensures Derived(s[..n], i) == Derived(s, i)
  {
    assert s[..n][i] == s[i];
    if i > 0 {
      assert s[..n][i - 1] == s[i - 1];
    }
  }

  /** An output row is exactly a row derived from some sorted row: every row
      has its return, and every row with a derivable return is kept. */
  lemma ReturnsMember(s: seq<PriceRow>, o: Obs)
    ensures o in Returns(s) <==> exists i :: 0 <= i < |s| && Derived(s, i) == Some(o)
  {
    if o in Returns(s) {
      var i := ReturnsSource(s, o);
    }
    if i :| 0 <= i < |s| && Derived(s, i) == Some(o) {
      ReturnsKeeps(s, i);
    }
  }

  /** The index of the sorted row an output row was derived from. */
  lemma {:induction false} ReturnsSource(s: seq<PriceRow>, o: Obs) returns (i: nat)
    requires o in Returns(s)
    ensures i < |s| && Derived(s, i) == Some(o)
  {
    var n := |s| - 1;
    if o in Returns(s[..n]) {
      i := ReturnsSource(s[..n], o);
      DerivedOfPrefix(s, n, i);
    } else {
      i := n;
    }
  }

  lemma {:induction false} ReturnsKeeps(s: seq<PriceRow>, i: nat)
    requires i < |s| && Derived(s, i).Some?
    ensures Derived(s, i).value in Returns(s)
  {
    var n := |s| - 1;
    if i < n {
      DerivedOfPrefix(s, n, i);
      ReturnsKeeps(s[..n], i);
    }
  }

  predicate ObsSorted(r: seq<Obs>) {
    forall i, j :: 0 <= i < j < |r| ==> !KeyLt(r[j].ticker, r[j].date, r[i].ticker, r[i].date)
  }

  /** Dropping rows keeps the (ticker, date) order of the sorted rows. */
  lemma {:induction false} ReturnsSorted(s: seq<PriceRow>)
    requires Sorted(s)
    ensures ObsSorted(Returns(s))
  {
    if s != [] {
      var n := |s| - 1;
      assert Sorted(s[..n]);
      ReturnsSorted(s[..n]);
      var init := Returns(s[..n]);
      if Derived(s, n).Some? {
        var o := Derived(s, n).value;
        forall k | 0 <= k < |init|
          ensures !KeyLt(o.ticker, o.date, init[k].ticker, init[k].date)
        {
          var i := ReturnsSource(s[..n], init[k]);
          DerivedOfPrefix(s, n, i);
        }
      }
    }
  }

  function TickerCount(s: seq<PriceRow>, t: string): nat {
    if s == [] then 0
    else TickerCount(s[..|s| - 1], t) + (if s[|s| - 1].ticker == t then 1 else 0)
  }

  function ObsCount(r: seq<Obs>, t: string): nat {
    if r == [] then 0
    else ObsCount(r[..|r| - 1], t) + (if r[|r| - 1].ticker == t then 1 else 0)
  }

  lemma ObsCountAppend(r: seq<Obs>, extra: seq<Obs>, t: string)
    requires |extra| <= 1
    ensures ObsCount(r + extra, t) == ObsCount(r, t) + ObsCount(extra, t)
  {
    if extra == [] {
      assert r + extra == r;
    } else {
      assert (r + extra)[..|r + extra| - 1] == r;
      assert extra[..0] == [];
    }
  }

  /** The first row of each ticker yields no output row: a ticker with rows
      keeps at most one fewer row than it had. */
  lemma {:induction false} ReturnsDropsFirst(s: seq<PriceRow>, t: string)
    ensures ObsCount(Returns(s), t) + (if TickerCount(s, t) > 0 then 1 else 0) <= TickerCount(s, t)
  {
    if s != [] {
      var n := |s| - 1;
      ReturnsDropsFirst(s[..n], t);
      var extra := match Derived(s, n) case None => [] case Some(o) => [o];
      ObsCountAppend(Returns(s[..n]), extra, t);
      if Derived(s, n).Some? && s[n].ticker == t {
        TickerCountPositive(s[..n], n - 1, t);
      }
    }
  }

  lemma {:induction false} TickerCountPositive(s: seq<PriceRow>, i: nat, t: string)
    requires i < |s| && s[i].ticker == t
    ensures TickerCount(s, t) > 0
  {
    if i < |s| - 1 {
      TickerCountPositive(s[..|s| - 1], i, t);
    }
  }

  /** The first sorted row never has a return, so at least one row is lost. */
  lemma {:induction false} ReturnsShorter(s: seq<PriceRow>)
    requires s != []
    ensures |Returns(s)| < |s|
  {
    var n := |s| - 1;
    if n > 0 {
      ReturnsShorter(s[..n]);
    }
  }

  /** The return column the grouped pct_change computes: one entry for every
      sorted row, missing where the row has no return. */
  function ReturnColumn(s: seq<PriceRow>): (r: seq<Option<Obs>>)
    ensures |r| == |s|
    ensures forall i :: 0 <= i < |s| ==> r[i] == Derived(s, i)
  {
    seq(|s|, i requires 0 <= i < |s| => Derived(s, i))
  }

  /** The output is that column with its missing entries dropped: the rows
      with a return, in sorted order, each as often as it is derived. */
  lemma {:induction false} ReturnsDropna(s: seq<PriceRow>)
    ensures Returns(s) == Present(ReturnColumn(s))
  {
    if s != [] {
      var n := |s| - 1;
      ReturnsDropna(s[..n]);
      var col := ReturnColumn(s);
      forall i | 0 <= i < n
        ensures col[..n][i] == ReturnColumn(s[..n])[i]
      {
        DerivedOfPrefix(s, n, i);
      }
      assert col[..n] == ReturnColumn(s[..n]);
    }
  }

  /** read_prc_dat's output is in (ticker, date) order. */
  lemma LoadPricesSorted(f: Frame, num: string -> Option<real>, date: string -> Option<int>)
    requires LoadPrices(f, num, date).Success?
    ensures ObsSorted(LoadPrices(f, num, date).value)
  {
    if f.rows != [] {
      var c := FindPriceColumns(Labels(f.header)).value;
      ReturnsSorted(SortRows(ParseRows(f.rows, c, num, date)));
    }
  }

  predicate TickersFormatted(s: seq<PriceRow>) {
    forall i :: 0 <= i < |s| ==> NoQuote(s[i].ticker) && NoLower(s[i].ticker)
  }

  lemma {:induction false} ParseRowsFormatted(rows: seq<seq<string>>, c: PriceColumns,
                           num: string -> Option<real>, date: string -> Option<int>)
    ensures TickersFormatted(ParseRows(rows, c, num, date))
  {
    if rows != [] {
      var n := |rows| - 1;
      ParseRowsFormatted(rows[..n], c, num, date);
      RowFormatted(rows[n], c, num, date);
      AppendFormatted(ParseRows(rows[..n], c, num, date), ParsePriceRow(rows[n], c, num, date));
    }
  }

  lemma RowFormatted(row: seq<string>, c: PriceColumns,
                     num: string -> Option<real>, date: string -> Option<int>)
    ensures NoQuote(ParsePriceRow(row, c, num, date).ticker)
    ensures NoLower(ParsePriceRow(row, c, num, date).ticker)
  {
  }

  lemma AppendFormatted(a: seq<PriceRow>, x: PriceRow)
    requires TickersFormatted(a) && NoQuote(x.ticker) && NoLower(x.ticker)
    ensures TickersFormatted(a + [x])
  {
  }

  lemma PermutationFormatted(a: seq<PriceRow>, b: seq<PriceRow>)
    requires multiset(a) == multiset(b) && TickersFormatted(a)
    ensures TickersFormatted(b)
  {
    forall i | 0 <= i < |b|
      ensures NoQuote(b[i].ticker) && NoLower(b[i].ticker)
    {
      assert b[i] in multiset(a);
    }
  }

  /** Every ticker read_prc_dat returns is a formatted one: no quotes and no
      lower-case letters. */
  lemma LoadPricesTickers(f: Frame, num: string -> Option<real>, date: string -> Option<int>, o: Obs)
    requires LoadPrices(f, num, date).Success?
    requires o in LoadPrices(f, num, date).value
    ensures NoQuote(o.ticker) && NoLower(o.ticker)
  {
    assert f.rows != [];
    var c := FindPriceColumns(Labels(f.header)).value;
    var parsed := ParseRows(f.rows, c, num, date);
    var sorted := SortRows(parsed);
    ParseRowsFormatted(f.rows, c, num, date);
    PermutationFormatted(parsed, sorted);
    var i := ReturnsSource(sorted, o);
  }
}

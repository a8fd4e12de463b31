/** mk_ret_df: merge the returns derived from the price file with the returns
    of the return file into one panel, dates by tickers, keeping only the dates
    that have a market return and putting the market column last. */
module Reconciler {
  import opened Wrappers
  import opened Text
  import opened Formatters
  import opened Table
  import PriceLoader
  import ReturnLoader

  /** A cell of a pivoted frame: its date (the index) and its ticker (the
      column). */
  type Key = (Date, string)

  /** The label the MKT column is renamed to. */
  const MarketLabel: string := "mkt"

  /** pivot fails on a repeated (date, ticker) ("Index contains duplicate
      entries"); dropna(subset=['MKT']) fails (KeyError) when neither pivot
      has an MKT column. */
  datatype MergeError = DuplicateEntry(date: Date, ticker: string) | MissingMarketColumn

  /** The returned frame: its column labels in order, and for every date of
      its index the present cells of that row by column label (a cell missing
      from the map is NaN). */
  datatype Panel = Panel(columns: seq<string>, rows: map<Date, map<string, real>>)

  function KeyOf(o: Obs): Key {
    (o.date, o.ticker)
  }

  /** The (date, ticker) pairs that occur in s. */
  function Keys(s: seq<Obs>): set<Key> {
    if s == [] then {}
    else
      var n := |s| - 1;
      Keys(s[..n]) + {KeyOf(s[n])}
  }

  /** The return of the first row of s with key k, if any. */
  function First(s: seq<Obs>, k: Key): (r: Option<real>)
    ensures r.Some? <==> k in Keys(s)
  {
    if s == [] then None
    else
      var n := |s| - 1;
      var f := First(s[..n], k);
      if f.Some? then f
      else if KeyOf(s[n]) == k then Some(s[n].ret)
      else None
  }

  // ---------------------------------------------------------------------------
  // The steps of mk_ret_df, as functions of the loaded rows
  // ---------------------------------------------------------------------------

  /** formatted_tickers = [fmt_ticker(ticker) for ticker in tickers] */
  function Requested(tickers: seq<string>): (r: seq<string>)
    ensures |r| == |tickers|
  {
    if tickers == [] then []
    else
      var n := |tickers| - 1;
      Requested(tickers[..n]) + [FmtTicker(tickers[n])]
  }

  /** df[mask]: the rows whose ticker the mask accepts, in order. */
  function Select(s: seq<Obs>, mask: string -> bool): (r: seq<Obs>)
    ensures |r| <= |s|
  {
    if s == [] then []
    else
      var n := |s| - 1;
      Select(s[..n], mask) + (if mask(s[n].ticker) then [s[n]] else [])
  }

  /** df['ticker'].isin(keep) */
  function InList(keep: seq<string>): string -> bool {
    t => t in keep
  }

  /** ~df['ticker'].isin(priced) | (df['ticker'] == 'MKT') */
  function UnpricedOrMarket(priced: seq<string>): string -> bool {
    t => t !in priced || t == Market
  }

  /** drop_duplicates(subset=['date', 'ticker']): the first row of each key,
      in order. */
  function DropDuplicates(s: seq<Obs>): seq<Obs> {
    if s == [] then []
    else
      var n := |s| - 1;
      var d := DropDuplicates(s[..n]);
      if KeyOf(s[n]) in Keys(d) then d else d + [s[n]]
  }

  /** pivot(index='date', columns='ticker', values='return'): every row
      becomes the cell of its key; a key seen twice is an error. */
  function Pivot(s: seq<Obs>): (r: Result<map<Key, real>, MergeError>)
    ensures r.Success? ==> r.value.Keys == Keys(s)
    ensures r.Failure? ==> r.error.DuplicateEntry?
  {
    if s == [] then Success(map[])
    else
      var n := |s| - 1;
      var m :- Pivot(s[..n]);
      if KeyOf(s[n]) in m then Failure(DuplicateEntry(s[n].date, s[n].ticker))
      else Success(m[KeyOf(s[n]) := s[n].ret])
  }

  /** df['ticker'].unique(): the tickers of s in order of first appearance. */
  function UniqueTickers(s: seq<Obs>): seq<string> {
    if s == [] then []
    else
      var n := |s| - 1;
      var u := UniqueTickers(s[..n]);
      if s[n].ticker in u then u else u + [s[n].ticker]
  }

  /** The price rows that take part: requested tickers only, first row of
      each (date, ticker). */
  function PriceRows(prc: seq<Obs>, req: seq<string>): seq<Obs> {
    DropDuplicates(Select(prc, InList(req)))
  }

  /** The return rows that take part: requested tickers and MKT, then none
      of a ticker the price rows p have, except MKT. */
  function ReturnRows(ret: seq<Obs>, req: seq<string>, p: seq<Obs>): seq<Obs> {
    Select(Select(ret, InList(req + [Market])), UnpricedOrMarket(UniqueTickers(p)))
  }

  /** The new column label: MKT becomes mkt, any other ticker is lower-cased. */
  function Label(t: string): string {
    if t == Market then MarketLabel else Lower(t)
  }

  /** combined_df.columns = [...]: every column label renamed. */
  function Relabel(cols: seq<string>): (r: seq<string>)
    ensures |r| == |cols|
    ensures forall i :: 0 <= i < |r| ==> r[i] == Label(cols[i])
  {
    seq(|cols|, i requires 0 <= i < |cols| => Label(cols[i]))
  }

  /** [col for col in columns if col != 'mkt'] */
  function WithoutMarket(labels: seq<string>): seq<string> {
    if labels == [] then []
    else
      var n := |labels| - 1;
      WithoutMarket(labels[..n]) + (if labels[n] != MarketLabel then [labels[n]] else [])
  }

  /** The final column order: the others, then mkt. */
  function MarketLast(labels: seq<string>): seq<string> {
    WithoutMarket(labels) + [MarketLabel]
  }

  /** The row of date d built so far. */
  function RowOf(m: map<Date, map<string, real>>, d: Date): map<string, real> {
    if d in m then m[d] else map[]
  }

  /** dropna(subset=['MKT']) and the renaming, cell by cell: each key of s
      whose date has an MKT cell in the combined frame puts that combined cell
      into its date's row, under its column's new label. */
  function MarketRows(cells: map<Key, real>, s: seq<Obs>): map<Date, map<string, real>>
    requires Keys(s) <= cells.Keys
  {
    if s == [] then map[]
    else
      var n := |s| - 1;
      var m := MarketRows(cells, s[..n]);
      var k := KeyOf(s[n]);
      if (k.0, Market) in cells then m[k.0 := RowOf(m, k.0)[Label(k.1) := cells[k]]]
      else m
  }

  /** mk_ret_df on already-loaded rows: prc as read_prc_dat returns it, ret as
      read_ret_dat returns it. The combined frame is rc + pc: combine_first
      takes the price cell where there is one and the return cell otherwise. */
  function Reconcile(prc: seq<Obs>, ret: seq<Obs>, tickers: seq<string>): (r: Result<Panel, MergeError>)
    ensures r.Success? ==>
      |r.value.columns| > 0 && r.value.columns[|r.value.columns| - 1] == MarketLabel
  {
    var req := Requested(tickers);
    var p := PriceRows(prc, req);
    var pc :- Pivot(p);
    var q := ReturnRows(ret, req, p);
    var rc :- Pivot(q);
    var cols := UniqueTickers(p + q);
    if Market !in cols then Failure(MissingMarketColumn)
    else
      KeysConcat(p, q);
      Success(Panel(MarketLast(Relabel(cols)), MarketRows(rc + pc, p + q)))
  }

  lemma {:induction false} KeysConcat(a: seq<Obs>, b: seq<Obs>)
    ensures Keys(a + b) == Keys(a) + Keys(b)
    decreases |b|
  {
    if b == [] {
      assert a + b == a;
    } else {
      var n := |b| - 1;
      assert (a + b)[..|a + b| - 1] == a + b[..n];
      KeysConcat(a, b[..n]);
    }
  }

  // ---------------------------------------------------------------------------
  // mk_ret_df, step by step
  // ---------------------------------------------------------------------------

  method FormatTickers(tickers: seq<string>) returns (req: seq<string>)
    ensures req == Requested(tickers)
  {
    req := [];
    for i := 0 to |tickers|
      invariant req == Requested(tickers[..i])
    {
      RequestedStep(tickers, i);
      req := req + [FmtTicker(tickers[i])];
    }
    assert tickers[..|tickers|] == tickers;
  }

  lemma RequestedStep(tickers: seq<string>, i: nat)
    requires i < |tickers|
    ensures Requested(tickers[..i + 1]) == Requested(tickers[..i]) + [FmtTicker(tickers[i])]
  {
    var p := tickers[..i + 1];
    assert p[..i] == tickers[..i];
    assert p[i] == tickers[i];
  }

  method SelectRows(s: seq<Obs>, mask: string -> bool) returns (out: seq<Obs>)
    ensures out == Select(s, mask)
  {
    out := [];
    for i := 0 to |s|
      invariant out == Select(s[..i], mask)
    {
      assert s[..i + 1][..i] == s[..i];
      if mask(s[i].ticker) {
        out := out + [s[i]];
      }
    }
    assert s[..|s|] == s;
  }

  /** drop_duplicates, remembering the keys already kept. */
  method DropDuplicateRows(s: seq<Obs>) returns (out: seq<Obs>)
    ensures out == DropDuplicates(s)
  {
    out := [];
    var seen: set<Key> := {};
    for i := 0 to |s|
      invariant out == DropDuplicates(s[..i])
      invariant seen == Keys(out)
    {
      assert s[..i + 1][..i] == s[..i];
      if KeyOf(s[i]) !in seen {
        KeysSnoc(out, s[i]);
        out := out + [s[i]];
        seen := seen + {KeyOf(s[i])};
      }
    }
    assert s[..|s|] == s;
  }

  lemma KeysSnoc(s: seq<Obs>, o: Obs)
    ensures Keys(s + [o]) == Keys(s) + {KeyOf(o)}
  {
    assert (s + [o])[..|s|] == s;
  }

  /** The keys of a prefix are keys of the whole sequence. */
  lemma {:induction false} KeysOfPrefix(s: seq<Obs>, i: nat)
    requires i <= |s|
    ensures Keys(s[..i]) <= Keys(s)
    decreases |s| - i
  {
    if i == |s| {
      assert s[..i] == s;
    } else {
      var n := |s| - 1;
      assert s[..n][..i] == s[..i];
      KeysOfPrefix(s[..n], i);
    }
  }

  /** pivot, failing at the first key seen twice. */
  method PivotRows(s: seq<Obs>) returns (r: Result<map<Key, real>, MergeError>)
    ensures r == Pivot(s)
  {
    var m: map<Key, real> := map[];
    for i := 0 to |s|
      invariant Pivot(s[..i]) == Success(m)
    {
      assert s[..i + 1][..i] == s[..i];
      if KeyOf(s[i]) in m {
        PivotFailureStays(s, i + 1);
        return Failure(DuplicateEntry(s[i].date, s[i].ticker));
      }
      m := m[KeyOf(s[i]) := s[i].ret];
    }
    assert s[..|s|] == s;
    return Success(m);
  }

  /** Once a prefix fails to pivot, so does the whole sequence, with the same
      error. */
  lemma {:induction false} PivotFailureStays(s: seq<Obs>, i: nat)
    requires i <= |s| && Pivot(s[..i]).Failure?
    ensures Pivot(s) == Pivot(s[..i])
    decreases |s| - i
  {
    if i == |s| {
      assert s[..i] == s;
    } else {
      var n := |s| - 1;
      assert s[..n][..i] == s[..i];
      PivotFailureStays(s[..n], i);
    }
  }

  method UniqueTickerList(s: seq<Obs>) returns (u: seq<string>)
    ensures u == UniqueTickers(s)
  {
    u := [];
    for i := 0 to |s|
      invariant u == UniqueTickers(s[..i])
    {
      assert s[..i + 1][..i] == s[..i];
      if s[i].ticker !in u {
        u := u + [s[i].ticker];
      }
    }
    assert s[..|s|] == s;
  }

  /** dropna(subset=['MKT']) and the renaming of the columns over the cells
      of the combined frame. */
  method DropMissingMarket(cells: map<Key, real>, s: seq<Obs>)
    returns (rows: map<Date, map<string, real>>)
    requires Keys(s) <= cells.Keys
    ensures rows == MarketRows(cells, s)
  {
    rows := map[];
    for i := 0 to |s|
      invariant Keys(s[..i]) <= cells.Keys
      invariant rows == MarketRows(cells, s[..i])
    {
      KeysOfPrefix(s, i + 1);
      assert s[..i + 1][..i] == s[..i];
      var d := s[i].date;
      if (d, Market) in cells {
        var row := if d in rows then rows[d] else map[];
        rows := rows[d := row[Label(s[i].ticker) := cells[KeyOf(s[i])]]];
      }
    }
    assert s[..|s|] == s;
  }

  method RenameColumns(cols: seq<string>) returns (labels: seq<string>)
    ensures labels == Relabel(cols)
  {
    labels := [];
    for i := 0 to |cols|
      invariant labels == Relabel(cols[..i])
    {
      RelabelStep(cols, i);
      var l := if cols[i] != Market then Lower(cols[i]) else MarketLabel;
      labels := labels + [l];
    }
    assert cols[..|cols|] == cols;
  }

  lemma RelabelStep(cols: seq<string>, i: nat)
    requires i < |cols|
    ensures Relabel(cols[..i + 1]) == Relabel(cols[..i]) + [Label(cols[i])]
  {
    var l := Relabel(cols[..i + 1]);
    var r := Relabel(cols[..i]) + [Label(cols[i])];
    forall j | 0 <= j < |l|
      ensures l[j] == r[j]
    {
      assert cols[..i + 1][j] == cols[j];
    }
  }

  method MoveMarketLast(labels: seq<string>) returns (columns: seq<string>)
    ensures columns == MarketLast(labels)
  {
    columns := [];
    for i := 0 to |labels|
      invariant columns == WithoutMarket(labels[..i])
    {
      assert labels[..i + 1][..i] == labels[..i];
      if labels[i] != MarketLabel {
        columns := columns + [labels[i]];
      }
    }
    assert labels[..|labels|] == labels;
    columns := columns + [MarketLabel];
  }

  /** mk_ret_df on already-loaded rows. */
  method MkRetDf(prc: seq<Obs>, ret: seq<Obs>, tickers: seq<string>)
    returns (r: Result<Panel, MergeError>)
    ensures r == Reconcile(prc, ret, tickers)
  {
    var req := FormatTickers(tickers);
    var p := SelectRows(prc, InList(req));
    var q := SelectRows(ret, InList(req + [Market]));
    p := DropDuplicateRows(p);
    var pc := PivotRows(p);
    if pc.Failure? {
      return Failure(pc.error);
    }
    var priced := UniqueTickerList(p);
    q := SelectRows(q, UnpricedOrMarket(priced));
    var rc := PivotRows(q);
    if rc.Failure? {
      return Failure(rc.error);
    }
    var combined := rc.value + pc.value;
    var cols := UniqueTickerList(p + q);
    if Market !in cols {
      return Failure(MissingMarketColumn);
    }
    KeysConcat(p, q);
    var rows := DropMissingMarket(combined, p + q);
    var labels := RenameColumns(cols);
    var columns := MoveMarketLast(labels);
    return Success(Panel(columns, rows));
  }

  // ---------------------------------------------------------------------------
  // mk_ret_df from the two files
  // ---------------------------------------------------------------------------

  /** Reading either file can fail on its columns; the merge can fail too. */
  datatype PipelineError = SchemaFailure(schema: SchemaError) | MergeFailure(merge: MergeError)

  /** mk_ret_df as called: read_prc_dat and read_ret_dat on the two loaded
      frames, then the merge. */
  function ReconcileFrames(pf: Frame, rf: Frame, tickers: seq<string>,
                           num: string -> Option<real>, date: string -> Option<int>)
    : (r: Result<Panel, PipelineError>)
    ensures PriceLoader.LoadPrices(pf, num, date).Failure? ==>
      r == Failure(SchemaFailure(PriceLoader.LoadPrices(pf, num, date).error))
    ensures r.Success? ==>
      PriceLoader.LoadPrices(pf, num, date).Success? && ReturnLoader.LoadReturns(rf, num, date).Success? &&
      Reconcile(PriceLoader.LoadPrices(pf, num, date).value, ReturnLoader.LoadReturns(rf, num, date).value, tickers)
        == Success(r.value)
    ensures PriceLoader.LoadPrices(pf, num, date).Success? && ReturnLoader.LoadReturns(rf, num, date).Failure? ==>
      r == Failure(SchemaFailure(ReturnLoader.LoadReturns(rf, num, date).error))
    ensures PriceLoader.LoadPrices(pf, num, date).Success? && ReturnLoader.LoadReturns(rf, num, date).Success? ==>
      var merged := Reconcile(PriceLoader.LoadPrices(pf, num, date).value,
                              ReturnLoader.LoadReturns(rf, num, date).value, tickers);
      (r.Success? <==> merged.Success?) &&
      (merged.Failure? ==> r == Failure(MergeFailure(merged.error)))
  {
    match PriceLoader.LoadPrices(pf, num, date)
    case Failure(e) => Failure(SchemaFailure(e))
    case Success(prc) =>
      match ReturnLoader.LoadReturns(rf, num, date)
      case Failure(e) => Failure(SchemaFailure(e))
      case Success(ret) =>
        match Reconcile(prc, ret, tickers)
        case Failure(e) => Failure(MergeFailure(e))
        case Success(panel) => Success(panel)
  }

  method MkRetDfFromFrames(pf: Frame, rf: Frame, tickers: seq<string>,
                           num: string -> Option<real>, date: string -> Option<int>)
    returns (r: Result<Panel, PipelineError>)
    ensures r == ReconcileFrames(pf, rf, tickers, num, date)
  {
    var prc := PriceLoader.ReadPrcDat(pf, num, date);
    if prc.Failure? {
      return Failure(SchemaFailure(prc.error));
    }
    var ret := ReturnLoader.ReadRetDat(rf, num, date);
    if ret.Failure? {
      return Failure(SchemaFailure(ret.error));
    }
    var merged := MkRetDf(prc.value, ret.value, tickers);
    if merged.Failure? {
      return Failure(MergeFailure(merged.error));
    }
    return Success(merged.value);
  }
}

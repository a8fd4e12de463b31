/** read_ret_dat: clean a return file and keep, in input order, the rows whose
    return cell parses. */
module ReturnLoader {
  import opened Wrappers
  import opened Text
  import opened Formatters
  import opened Table

  /** Positions of the four columns the loader reads. */
  datatype ReturnColumns = ReturnColumns(ticker: nat, date: nat, volume: nat, ret: nat)

  /** The columns are looked up in the order the loader touches them. */
  function FindReturnColumns(labels: seq<string>): (r: Result<ReturnColumns, SchemaError>)
    ensures r.Success? ==>
      r.value.ticker < |labels| && r.value.date < |labels| &&
      r.value.volume < |labels| && r.value.ret < |labels|
    ensures r.Success? ==>
      labels[r.value.ticker] == "ticker" && labels[r.value.date] == "date" &&
      labels[r.value.volume] == "volume" && labels[r.value.ret] == "return"
    ensures r.Success? <==>
      Occurrences(labels, "ticker") == 1 && Occurrences(labels, "date") == 1 &&
      Occurrences(labels, "volume") == 1 && Occurrences(labels, "return") == 1
  {
    var t :- Column(labels, "ticker");
    var d :- Column(labels, "date");
    var v :- Column(labels, "volume");
    var x :- Column(labels, "return");
    Success(ReturnColumns(t, d, v, x))
  }

  /** The same lookups on a frame without rows. No .apply then touches a
      cell, so a duplicated ticker, volume or return passes; a duplicated date
      still fails at to_datetime. */
  function CheckRowlessReturns(labels: seq<string>): (r: Result<(), SchemaError>)
    ensures r.Success? <==>
      Occurrences(labels, "ticker") > 0 && Occurrences(labels, "date") == 1 &&
      Occurrences(labels, "volume") > 0 && Occurrences(labels, "return") > 0
  {
    var _ :- Listed(labels, "ticker");
    var _ :- Column(labels, "date");
    var _ :- Listed(labels, "volume");
    var _ :- Listed(labels, "return");
    Success(())
  }

  /** One cleaned row, or None when its return cell does not parse (the row
      dropna(subset=['return']) removes). */
  function ParseReturnRow(row: seq<string>, c: ReturnColumns,
                          num: string -> Option<real>, date: string -> Option<int>): Option<Obs>
  {
    match StrToFloat(Cell(row, c.ret), num)
    case None => None
    case Some(v) => Some(Obs(date(Cell(row, c.date)), FmtTicker(Cell(row, c.ticker)), v,
                             StrToFloat(Cell(row, c.volume), num)))
  }

  /** The .apply steps over every row; None marks a row whose return fails. */
  function ParseRows(rows: seq<seq<string>>, c: ReturnColumns,
                     num: string -> Option<real>, date: string -> Option<int>): (r: seq<Option<Obs>>)
    ensures |r| == |rows|
    ensures forall i :: 0 <= i < |rows| ==> r[i] == ParseReturnRow(rows[i], c, num, date)
  {
    seq(|rows|, i requires 0 <= i < |rows| => ParseReturnRow(rows[i], c, num, date))
  }

  /** read_ret_dat as a function of the loaded frame and the two parsers. A
      frame with rows needs each of its four columns exactly once; a frame
      without rows only needs them present, with a single date, and yields no
      rows. */
  function LoadReturns(f: Frame, num: string -> Option<real>, date: string -> Option<int>)
    : (r: Result<seq<Obs>, SchemaError>)
    ensures var labels := Labels(f.header);
      f.rows != [] ==> (r.Success? <==>
        Occurrences(labels, "ticker") == 1 && Occurrences(labels, "date") == 1 &&
        Occurrences(labels, "volume") == 1 && Occurrences(labels, "return") == 1)
    ensures var labels := Labels(f.header);
      f.rows == [] ==> (r.Success? <==>
        Occurrences(labels, "ticker") > 0 && Occurrences(labels, "date") == 1 &&
        Occurrences(labels, "volume") > 0 && Occurrences(labels, "return") > 0)
    ensures r.Success? ==> |r.value| <= |f.rows|
  {
    var labels := Labels(f.header);
    if f.rows == [] then
      var _ :- CheckRowlessReturns(labels);
      Success([])
    else
      var c :- FindReturnColumns(labels);
      Success(Present(ParseRows(f.rows, c, num, date)))
  }

  /** The .apply steps and dropna, one row at a time. */
  method CleanRows(rows: seq<seq<string>>, c: ReturnColumns,
                   num: string -> Option<real>, date: string -> Option<int>)
    returns (out: seq<Obs>)
    ensures out == Present(ParseRows(rows, c, num, date))
  {
    ghost var parsed := ParseRows(rows, c, num, date);
    out := [];
    for i := 0 to |rows|
      invariant out == Present(parsed[..i])
    {
      var row := ParseReturnRow(rows[i], c, num, date);
      assert row == parsed[i];
      PresentStep(parsed, i);
      if row.Some? {
        out := out + [row.value];
      }
    }
    assert parsed[..|rows|] == parsed;
  }

  /** read_ret_dat: normalise the labels, find the columns, clean the rows. */
  method ReadRetDat(f: Frame, num: string -> Option<real>, date: string -> Option<int>)
    returns (r: Result<seq<Obs>, SchemaError>)
    ensures r == LoadReturns(f, num, date)
  {
    var labels := Labels(f.header);
    if f.rows == [] {
      var checked := CheckRowlessReturns(labels);
      if checked.Failure? {
        return Failure(checked.error);
      }
      return Success([]);
    }
    var found := FindReturnColumns(labels);
    if found.Failure? {
      return Failure(found.error);
    }
    var out := CleanRows(f.rows, found.value, num, date);
    return Success(out);
  }

  // ---------------------------------------------------------------------------
  // What read_ret_dat promises
  // ---------------------------------------------------------------------------

  /** Cleaning distributes over concatenation of row blocks: the output is the
      in-order subsequence of the rows whose return parses. */
  lemma CleanConcat(a: seq<seq<string>>, b: seq<seq<string>>, c: ReturnColumns,
                    num: string -> Option<real>, date: string -> Option<int>)
    ensures Present(ParseRows(a + b, c, num, date)) ==
      Present(ParseRows(a, c, num, date)) + Present(ParseRows(b, c, num, date))
  {
    ParseRowsConcat(a, b, c, num, date);
    PresentConcat(ParseRows(a, c, num, date), ParseRows(b, c, num, date));
  }

  lemma ParseRowsConcat(a: seq<seq<string>>, b: seq<seq<string>>, c: ReturnColumns,
                        num: string -> Option<real>, date: string -> Option<int>)
    ensures ParseRows(a + b, c, num, date) == ParseRows(a, c, num, date) + ParseRows(b, c, num, date)
  {
    var l := ParseRows(a + b, c, num, date);
    var r := ParseRows(a, c, num, date) + ParseRows(b, c, num, date);
    forall i | 0 <= i < |l|
      ensures l[i] == r[i]
    {
      if i < |a| {
        assert (a + b)[i] == a[i];
      } else {
        assert (a + b)[i] == b[i - |a|];
      }
    }
  }

  /** A single row contributes its cleaned form exactly when its return cell
      parses, and nothing otherwise. */
  lemma CleanOne(row: seq<string>, c: ReturnColumns,
                 num: string -> Option<real>, date: string -> Option<int>)
    ensures StrToFloat(Cell(row, c.ret), num).None? ==> Present(ParseRows([row], c, num, date)) == []
    ensures StrToFloat(Cell(row, c.ret), num).Some? ==>
      Present(ParseRows([row], c, num, date)) ==
        [Obs(date(Cell(row, c.date)), FmtTicker(Cell(row, c.ticker)), StrToFloat(Cell(row, c.ret), num).value,
             StrToFloat(Cell(row, c.volume), num))]
  {
    var p := ParseRows([row], c, num, date);
    assert p[..0] == [];
  }

  /** An output row is exactly the cleaned form of an input row that parses. */
  lemma CleanMember(rows: seq<seq<string>>, c: ReturnColumns,
                    num: string -> Option<real>, date: string -> Option<int>, o: Obs)
    ensures o in Present(ParseRows(rows, c, num, date)) <==>
      exists i :: 0 <= i < |rows| && ParseReturnRow(rows[i], c, num, date) == Some(o)
  {
    var p := ParseRows(rows, c, num, date);
    PresentMember(p, o);
    if Some(o) in p {
      var i :| 0 <= i < |p| && p[i] == Some(o);
    }
  }

  /** A row whose ticker cell formats to MKT comes out with ticker MKT. */
  lemma MarketPassesThrough(row: seq<string>, c: ReturnColumns,
                            num: string -> Option<real>, date: string -> Option<int>)
    requires Cell(row, c.ticker) == Market
    requires StrToFloat(Cell(row, c.ret), num).Some?
    ensures ParseReturnRow(row, c, num, date).value.ticker == Market
  {
    FmtTickerMarket();
  }

  /** Every ticker read_ret_dat returns is a formatted one. */
  lemma LoadReturnsTickers(f: Frame, num: string -> Option<real>, date: string -> Option<int>, o: Obs)
    requires LoadReturns(f, num, date).Success?
    requires o in LoadReturns(f, num, date).value
    ensures NoQuote(o.ticker) && NoLower(o.ticker)
  {
    assert f.rows != [];
    var c := FindReturnColumns(Labels(f.header)).value;
    CleanMember(f.rows, c, num, date, o);
    var i :| 0 <= i < |f.rows| && ParseReturnRow(f.rows[i], c, num, date) == Some(o);
    ParsedTickerFormatted(f.rows[i], c, num, date);
  }

  /** A header whose volume label appears twice: a file with that header and
      no rows loads to no rows, while the same header over any row fails on
      the duplicated volume column. */
  lemma DuplicateVolume(header: seq<string>, row: seq<string>,
                        num: string -> Option<real>, date: string -> Option<int>)
    requires Labels(header) == DuplicateVolumeLabels()
    ensures LoadReturns(Frame(header, []), num, date) == Success([])
    ensures LoadReturns(Frame(header, [row]), num, date) == Failure(DuplicateColumn("volume"))
  {
    DuplicateVolumeCounts();
  }

  function DuplicateVolumeLabels(): seq<string> {
    ["date", "ticker", "volume", "volume", "return"]
  }

  lemma DuplicateVolumeCounts()
    ensures Occurrences(DuplicateVolumeLabels(), "ticker") == 1
    ensures Occurrences(DuplicateVolumeLabels(), "date") == 1
    ensures Occurrences(DuplicateVolumeLabels(), "volume") == 2
    ensures Occurrences(DuplicateVolumeLabels(), "return") == 1
  {
    var l := DuplicateVolumeLabels();
    assert "volume" != "return" by { assert "volume"[0] != "return"[0]; }
    assert "ticker" != "volume" by { assert "ticker"[0] != "volume"[0]; }
    assert "ticker" != "return" by { assert "ticker"[0] != "return"[0]; }
    assert l[1..] == ["ticker", "volume", "volume", "return"];
    assert l[1..][1..] == ["volume", "volume", "return"];
    assert l[1..][1..][1..] == ["volume", "return"];
    assert l[1..][1..][1..][1..] == ["return"];
  }

  lemma ParsedTickerFormatted(row: seq<string>, c: ReturnColumns,
                              num: string -> Option<real>, date: string -> Option<int>)
    requires ParseReturnRow(row, c, num, date).Some?
    ensures NoQuote(ParseReturnRow(row, c, num, date).value.ticker)
    ensures NoLower(ParseReturnRow(row, c, num, date).value.ticker)
  {
  }
}

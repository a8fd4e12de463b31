/** The frame a .dat file is loaded into, column lookup by normalised label,
    and the cleaned observation row both loaders return. */
module Table {
  import opened Wrappers
  import opened Text
  import opened Formatters

  /** A parsed date; None stands for NaT (pd.to_datetime with errors='coerce'). */
  type Date = Option<int>

  /** read_dat's result: the header and the rows, every cell kept as str. */
  datatype Frame = Frame(header: seq<string>, rows: seq<seq<string>>)

  /** The cell of a row in column j. A row of a loaded frame has one cell per
      column; a missing cell reads as "nan", as read_csv fills it. */
  function Cell(row: seq<string>, j: nat): (v: string)
    ensures j < |row| ==> v == row[j]
  {
    if j < |row| then row[j] else "nan"
  }

  /** One cleaned row: date, formatted ticker, a present return, a volume that
      may be missing. */
  datatype Obs = Obs(date: Date, ticker: string, ret: real, volume: Option<real>)

  /** A row of the price file once its cells are parsed: the volume and the
      adjusted close may each fail to parse. */
  datatype PriceRow = PriceRow(date: Date, ticker: string, volume: Option<real>, adjClose: Option<real>)

  /** Looking up a column fails when no column has that label (KeyError) or,
      where the loader needs a single column, when several do: df[name] is
      then a frame, which an .apply over some row, sort_values or to_datetime
      refuses, and whose groupwise pct_change, a frame too, cannot be assigned
      to the single column return. */
  datatype SchemaError = MissingColumn(name: string) | DuplicateColumn(name: string)

  /** df.columns = [fmt_col_name(col) for col in df.columns] */
  function Labels(header: seq<string>): (r: seq<string>)
    ensures |r| == |header|
    ensures forall i :: 0 <= i < |r| ==> r[i] == FmtColName(header[i])
  {
    seq(|header|, i requires 0 <= i < |header| => FmtColName(header[i]))
  }

  /** Every normalised label is free of whitespace and upper-case letters. */
  lemma LabelsNormalised(header: seq<string>)
    ensures forall i :: 0 <= i < |Labels(header)| ==>
      NoSpace(Labels(header)[i]) && NoUpper(Labels(header)[i])
  {
  }

  /** How many columns carry the label `name`. */
  function Occurrences(labels: seq<string>, name: string): nat {
    if labels == [] then 0
    else (if labels[0] == name then 1 else 0) + Occurrences(labels[1..], name)
  }

  lemma OccurrencesZero(labels: seq<string>, name: string)
    ensures Occurrences(labels, name) == 0 <==> name !in labels
  {
  }

  /** df[name] where a frame of several like-labelled columns would do: only
      a missing label fails. */
  function Listed(labels: seq<string>, name: string): (r: Result<(), SchemaError>)
    ensures r.Success? <==> Occurrences(labels, name) > 0
    ensures r.Failure? ==> r.error == MissingColumn(name)
  {
    OccurrencesZero(labels, name);
    if name in labels then Success(()) else Failure(MissingColumn(name))
  }

  /** df[name]: the position of the only column labelled `name`. */
  function Column(labels: seq<string>, name: string): (r: Result<nat, SchemaError>)
    ensures r.Success? <==> Occurrences(labels, name) == 1
    ensures r.Success? ==> r.value < |labels| && labels[r.value] == name
    ensures r == Failure(MissingColumn(name)) <==> Occurrences(labels, name) == 0
    ensures r == Failure(DuplicateColumn(name)) <==> Occurrences(labels, name) > 1
  {
    if labels == [] then Failure(MissingColumn(name))
    else
      var rest := Column(labels[1..], name);
      if labels[0] == name then
        if rest == Failure(MissingColumn(name)) then Success(0)
        else Failure(DuplicateColumn(name))
      else
        match rest
        case Success(i) => Success(i + 1)
        case Failure(e) => Failure(e)
  }

  /** dropna(subset=['return']) over a column of possibly missing rows: the
      present ones, in order. */
  function Present(s: seq<Option<Obs>>): (r: seq<Obs>)
    ensures |r| <= |s|
  {
    if s == [] then []
    else
      var n := |s| - 1;
      Present(s[..n]) + (match s[n] case None => [] case Some(o) => [o])
  }

  lemma PresentStep(s: seq<Option<Obs>>, i: nat)
    requires i < |s|
    ensures Present(s[..i + 1]) == Present(s[..i]) + (match s[i] case None => [] case Some(o) => [o])
  {
    assert s[..i + 1][..i] == s[..i];
  }

  lemma {:induction false} PresentConcat(a: seq<Option<Obs>>, b: seq<Option<Obs>>)
    ensures Present(a + b) == Present(a) + Present(b)
    decreases |b|
  {
    if b == [] {
      assert a + b == a;
    } else {
      var n := |b| - 1;
      assert (a + b)[..|a + b| - 1] == a + b[..n];
      PresentConcat(a, b[..n]);
    }
  }

  lemma {:induction false} PresentMember(s: seq<Option<Obs>>, o: Obs)
    ensures o in Present(s) <==> Some(o) in s
  {
    if s != [] {
      var n := |s| - 1;
      PresentMember(s[..n], o);
      assert s == s[..n] + [s[n]];
    }
  }
}

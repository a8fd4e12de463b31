# Return-data reconciliation, modelled in Dafny

This project models the cleaning and merging core of `project2_main.py`.
That module loads two kinds of `.dat` files:

- a price file: one row per (date, ticker), with volume and adjusted closing price;
- a return file: one row per (date, ticker), with return and volume, including the market series under the ticker `MKT`.

From these it builds one panel of daily returns for a list of requested tickers, plus the market.

The model covers five parts of that module:

- **The formatters.** `fmt_col_name`, `fmt_ticker`, and the cleaning step of `str_to_float`, as pure functions (module `Formatters`, over the character classes in `Text`).
  - Column labels become stripped, lower-cased, and underscore-joined words.
  - Ticker values become stripped, unquoted, and upper-cased.
  - `str_to_float` strips quotes and surrounding whitespace, then hands the text to a numeric parser. It is total: it returns `None` exactly when the cleaned text does not parse.
- **The loaded frame** (module `Table`).
  - A header plus rows of text cells.
  - Column lookup by normalised label. A missing label always fails. A duplicated label fails whenever the frame has rows. Without rows, pandas swallows the error of the `.apply` steps, so only a duplicated volume label (in either file) and a duplicated ticker or return label (in the return file) pass. A duplicated date still fails at `to_datetime`, a duplicated price-file ticker at `sort_values`, and a duplicated adj_close where the groupwise `pct_change` is assigned to the single column `return`.
- **`read_prc_dat`** (module `PriceLoader`).
  - Parse every row.
  - Sort stably by (ticker, date), with unparsable dates last (module `RowOrder`).
  - Derive each row's return from the preceding row of the same ticker.
  - Keep only the rows that have a return.
  - `ReadPrcDat` is a method whose loop carries the previous row, proved equal to the specification function `LoadPrices`.
- **`read_ret_dat`** (module `ReturnLoader`).
  - Parse every row, in input order.
  - Keep the rows whose return cell parses.
  - `ReadRetDat` is proved equal to `LoadReturns`.
- **`mk_ret_df`** (module `Reconciler`), over the two loaders' rows:
  - select the requested tickers;
  - drop duplicate (date, ticker) price rows, keeping the first;
  - pivot each side;
  - drop return rows of priced tickers, but never those of `MKT`;
  - let price cells take precedence over return cells;
  - keep only dates with a market return;
  - lower-case the labels, with `MKT` becoming `mkt`;
  - move `mkt` to the last column.

`MkRetDf` is a method built from one loop per pandas step. It is proved equal to the specification function `Reconcile`. Module `ReconcilerProperties` then proves what the panel holds, cell by cell, against an independent reference definition (`Expected`): the price value if there is one, else the return value, filtered by the market dates.

Parsing numbers (`pd.to_numeric`) and dates (`pd.to_datetime`) is not modelled. Every loader takes these two parsers as parameters:

- `num: string -> Option<real>`;
- `date: string -> Option<int>`, where `None` stands for NaT.

## Model

| member | source | states |
|---|---|---|
| Formatters.FmtColName | project2/project2_main.py:87-89 | a formatted label contains no whitespace and no upper-case letter |
| Formatters.FmtColNameIdempotent | project2/project2_main.py:87-89 | formatting a formatted label changes nothing |
| Formatters.FmtColNameOfWord | project2/project2_main.py:87-89 | a single word without whitespace is only lower-cased |
| Formatters.FmtColNameLeadingSpace | project2/project2_main.py:81 | a leading blank is dropped and the word lower-cased (the `' Close'` to `'close'` example, for every blank and word) |
| Formatters.FmtColNameTwoWords | project2/project2_main.py:83 | two words separated by any run of whitespace become the lower-cased words joined by one underscore (the `'Adj    Close'` to `'adj_close'` example) |
| Formatters.FmtTicker | project2/project2_main.py:108 | a formatted ticker contains no quote and no lower-case letter |
| Formatters.FmtTickerTwice | project2/project2_main.py:108 | formatting twice only strips the whitespace the first pass exposed |
| Formatters.FmtTickerIdempotentIff | project2/project2_main.py:108 | formatting is idempotent on a value exactly when its formatted form has no surrounding whitespace |
| Formatters.FmtTickerNotIdempotent | project2/project2_main.py:108 | a quoted ticker with blanks inside the quotes is a value on which formatting twice differs from formatting once |
| Formatters.FmtTickerSpacedQuotes | project2/project2_main.py:108 | blanks outside the quotes are stripped before the quotes are removed, leaving the upper-cased word |
| Formatters.FmtTickerFixed | project2/project2_main.py:108 | a trimmed, unquoted ticker with no lower-case letter is left unchanged |
| Formatters.FmtTickerMarket | project2/project2_main.py:276 | the market ticker `MKT` is a fixed point of formatting |
| Formatters.CleanNumber | project2/project2_main.py:55 | the cleaned text has no quote and no surrounding whitespace |
| Formatters.CleanNumberIdempotent | project2/project2_main.py:55 | cleaning cleaned text changes nothing |
| Formatters.CleanNumberQuotedPadding | project2/project2_main.py:55 | a number padded with blanks inside its quotes is cleaned to the bare number |
| Formatters.StrToFloatIgnoresQuotes | project2/project2_main.py:55-60 | a number wrapped in quotes parses to the same result as the bare number, and the result depends only on the cleaned text |
| Formatters.StrToFloat | project2/project2_main.py:55-60 | defined as the parser applied to the cleaned text, with no other outcome: `str_to_float` never raises, and gives None exactly when the cleaned text does not parse; its properties are stated by `StrToFloatIgnoresQuotes` |
| Table.Labels | project2/project2_main.py:152 | the header keeps its length and every label is the formatted raw label |
| Table.Column | project2/project2_main.py:153 | a lookup succeeds exactly when one column carries the label, and then at that column; it fails as missing exactly when no column does, and as duplicated exactly when several do |
| Table.Listed | project2/project2_main.py:205-210 | a lookup that only needs the label present succeeds exactly when some column carries it, and otherwise fails as missing |
| PriceLoader.FindPriceColumns | project2/project2_main.py:153-158 | the four price columns are found exactly when each label occurs once, and each position holds its label |
| PriceLoader.CheckRowlessPrices | project2/project2_main.py:153-161 | on a frame without rows, the loader succeeds exactly when ticker, date and adj_close each occur once and volume occurs at all |
| PriceLoader.ParsePriceRow | project2/project2_main.py:153-158 | defined as one row after the four cell conversions: formatted ticker, parsed date, volume and adjusted close that may each be None |
| RowOrder.SortRows | project2/project2_main.py:160 | the result is ordered by (ticker, date), with NaT last, and is a permutation of the input |
| RowOrder.SortRowsStable | project2/project2_main.py:160 | rows with the same (ticker, date) keep their input order |
| RowOrder.KeyLtTotal | project2/project2_main.py:160 | the (ticker, date) order relates every two distinct keys |
| PriceLoader.PctChange | project2/project2_main.py:161 | the change exists exactly when both prices exist and the previous one is non-zero, and then previous * (1 + change) = current |
| PriceLoader.Derived | project2/project2_main.py:161-163 | a sorted row has a return exactly when it is not the first of its ticker, both adjusted closes parse and the previous close is non-zero; its date, ticker and volume are the row's own, and its return is p_t / p_{t-1} - 1 against the preceding row |
| PriceLoader.ParseAll | project2/project2_main.py:152-158 | the loop parses every row in order, as the row-wise specification does |
| PriceLoader.DeriveReturns | project2/project2_main.py:161-163 | the loop that tracks the previous row yields exactly the rows with a derived return, in order |
| PriceLoader.Returns | project2/project2_main.py:161-163 | defined as the derived rows of the sorted rows, in order; never longer than its input |
| PriceLoader.ReturnColumn | project2/project2_main.py:161 | the computed return column has one entry per sorted row, and entry i is the return derived for row i |
| PriceLoader.ReturnsDropna | project2/project2_main.py:161-163 | the output equals the full return column with its missing entries dropped, so it keeps the sorted order and each row's multiplicity |
| PriceLoader.ReturnsShorter | project2/project2_main.py:161-163 | a non-empty sorted input loses at least one row, its first |
| PriceLoader.LoadPrices | project2/project2_main.py:150-164 | a frame with rows loads exactly when each of ticker, date, volume and adj_close occurs once; a frame without rows loads exactly when ticker, date and adj_close occur once and volume occurs at all, and then gives no rows; a loaded frame with rows gives fewer rows than it has |
| PriceLoader.ReadPrcDat | project2/project2_main.py:150-164 | the method's result equals the specification `LoadPrices`, including its missing- or duplicated-column errors |
| PriceLoader.ReturnsMember | project2/project2_main.py:161-163 | an output row is exactly the derived form of some sorted row: every output row has a return, and no row with one is lost |
| PriceLoader.ReturnsSorted | project2/project2_main.py:160-163 | dropping rows keeps the (ticker, date) order |
| PriceLoader.ReturnsDropsFirst | project2/project2_main.py:161-163 | each ticker that has rows loses at least its first row |
| PriceLoader.LoadPricesSorted | project2/project2_main.py:160-163 | the output of `read_prc_dat` is ordered by (ticker, date) |
| PriceLoader.LoadPricesTickers | project2/project2_main.py:153 | every output ticker is formatted: no quote and no lower-case letter |
| ReturnLoader.FindReturnColumns | project2/project2_main.py:204-210 | the four return columns are found exactly when each label occurs once, and each position holds its label |
| ReturnLoader.CheckRowlessReturns | project2/project2_main.py:205-210 | on a frame without rows, the loader succeeds exactly when date occurs once and ticker, volume and return occur at all |
| ReturnLoader.ParseReturnRow | project2/project2_main.py:205-212 | defined as one row after the conversions, or None when its return does not parse |
| Table.Present | project2/project2_main.py:212 | defined as the parsed rows with None dropped, in order; never longer than its input |
| ReturnLoader.LoadReturns | project2/project2_main.py:202-213 | a frame with rows loads exactly when each of ticker, date, volume and return occurs once; a frame without rows loads exactly when date occurs once and the others occur at all, and then gives no rows; the output is never longer than the input |
| ReturnLoader.DuplicateVolume | project2/project2_main.py:209 | a header with volume twice loads to no rows when the file has none, and fails on the duplicated volume when it has a row |
| ReturnLoader.CleanRows | project2/project2_main.py:205-212 | the loop keeps, in order, exactly the rows whose return parses |
| ReturnLoader.ReadRetDat | project2/project2_main.py:202-213 | the method's result equals the specification `LoadReturns`, including its column errors |
| ReturnLoader.CleanConcat | project2/project2_main.py:212 | cleaning distributes over concatenation, so the output is an in-order subsequence of the input rows |
| ReturnLoader.CleanOne | project2/project2_main.py:205-212 | a single row yields nothing when its return does not parse; otherwise it yields its parsed date, formatted ticker, return and volume, with an unparsable volume kept as None |
| ReturnLoader.CleanMember | project2/project2_main.py:212 | an output row is exactly the cleaned form of some input row whose return parses |
| ReturnLoader.MarketPassesThrough | project2/project2_main.py:205 | a `MKT` row with a parsable return comes out with ticker `MKT` |
| ReturnLoader.LoadReturnsTickers | project2/project2_main.py:205 | every output ticker is formatted |
| Reconciler.Pivot | project2/project2_main.py:280-284 | a successful pivot has exactly the rows' (date, ticker) keys as cells; a failure is always a duplicate entry |
| Reconciler.Requested | project2/project2_main.py:274 | defined as the requested tickers, each formatted, in order; as many as requested |
| Reconciler.Select | project2/project2_main.py:275-276 | defined as the rows whose ticker the mask accepts, in order; never more rows than the input |
| Reconciler.DropDuplicates | project2/project2_main.py:278 | defined as the first row of each (date, ticker), in order; its properties are stated by `DropDuplicatesKeys` and `FirstDropDuplicates` |
| Reconciler.UniqueTickers | project2/project2_main.py:282 | defined as each ticker once, in order of first appearance; `UniqueTickersMember` states which tickers it holds |
| Reconciler.Label | project2/project2_main.py:290 | defined as `MKT` to `mkt` and every other ticker lower-cased; `LabelInjective` states that it merges no two tickers |
| Reconciler.Relabel | project2/project2_main.py:290 | every column label is renamed, position by position |
| Reconciler.MarketLast | project2/project2_main.py:292-293 | defined as the columns other than `mkt`, then `mkt`; its properties are stated by `WithoutMarketCounts` and `MarketLastKeepsOrder` |
| Reconciler.MarketRows | project2/project2_main.py:288-290 | defined as the combined cells of the dates with a market cell, by new label; `MarketRowsCell` states which cells it keeps |
| Reconciler.Reconcile | project2/project2_main.py:274-295 | `mk_ret_df` over the loaded rows; on success `mkt` is the last column; what each cell holds is stated by `ReconcileCell` |
| Reconciler.ReconcileFrames | project2/project2_main.py:271-295 | the full case split of the composition: a price-file error is reported as such; when the prices load, a return-file error is reported as such; when both load, a panel is produced exactly when the merge succeeds, and it is the merge of their rows, and a merge error is reported as such |
| Reconciler.FormatTickers | project2/project2_main.py:274 | the loop formats each requested ticker, in order |
| Reconciler.SelectRows | project2/project2_main.py:275-276 | the loop keeps, in order, the rows whose ticker passes the mask |
| Reconciler.DropDuplicateRows | project2/project2_main.py:278 | the loop with a set of seen keys keeps the first row of every (date, ticker) |
| Reconciler.PivotRows | project2/project2_main.py:280 | the loop builds the cell map and stops at the first duplicate key |
| Reconciler.UniqueTickerList | project2/project2_main.py:282 | the loop lists each ticker once, in order of first appearance |
| Reconciler.DropMissingMarket | project2/project2_main.py:288 | the loop keeps the cells of exactly the dates that have a market cell |
| Reconciler.RenameColumns | project2/project2_main.py:290 | the loop lower-cases every label and maps `MKT` to `mkt` |
| Reconciler.MoveMarketLast | project2/project2_main.py:292-293 | the loop moves `mkt` to the end |
| Reconciler.MkRetDf | project2/project2_main.py:274-295 | the method's result equals the specification `Reconcile`, including its duplicate-entry and missing-market errors |
| Reconciler.MkRetDfFromFrames | project2/project2_main.py:271-272 | loading both frames and reconciling them equals the composed specification, and carries each loader's column errors |
| ReconcilerProperties.FirstSelect | project2/project2_main.py:275-276 | after a ticker filter, the first value of a key is unchanged when the ticker passes, and absent otherwise |
| ReconcilerProperties.KeyCountSelect | project2/project2_main.py:275-276 | a ticker filter keeps every row of a passing key and none of the others |
| ReconcilerProperties.DropDuplicatesKeys | project2/project2_main.py:278 | dropping duplicates loses no (date, ticker) key |
| ReconcilerProperties.FirstDropDuplicates | project2/project2_main.py:278 | for a duplicated (date, ticker), the first row's value is kept |
| ReconcilerProperties.PivotDeduplicated | project2/project2_main.py:278-280 | the price pivot never fails after duplicates are dropped |
| ReconcilerProperties.PivotCell | project2/project2_main.py:280 | a pivot cell exists exactly for the keys with a row, and holds that row's value |
| ReconcilerProperties.PivotSucceeds | project2/project2_main.py:284 | a pivot succeeds exactly when no (date, ticker) occurs twice |
| ReconcilerProperties.PricedIff | project2/project2_main.py:282 | the priced tickers are exactly the requested tickers with a price row |
| ReconcilerProperties.PriceFirst | project2/project2_main.py:275-280 | the price side's cell at a key is the first price row of a requested ticker |
| ReconcilerProperties.ReturnFirst | project2/project2_main.py:276-284 | the return side's cell at a key comes from the first return row, only for `MKT` and for requested tickers without a price row |
| ReconcilerProperties.ReturnCount | project2/project2_main.py:276-282 | the two return filters keep all rows of a kept ticker and no row of any other |
| ReconcilerProperties.MarketReturnsSurvive | project2/project2_main.py:282 | no market return row is removed by the exclusion of priced tickers |
| ReconcilerProperties.ReturnPivotIff | project2/project2_main.py:284 | the return pivot fails exactly when a kept ticker has two return rows for one date |
| ReconcilerProperties.CombinedCell | project2/project2_main.py:286 | the combined cell at each key is the price value if present, else the return value, and exists only if one of them does |
| ReconcilerProperties.LabelInjective | project2/project2_main.py:290 | relabelling never merges two distinct formatted tickers into one column |
| ReconcilerProperties.RequestedFormatted | project2/project2_main.py:274 | every requested ticker has no quote and no lower-case letter |
| ReconcilerProperties.MarketRowsLabels | project2/project2_main.py:288-290 | after the market filter and the renaming, every label in a row is the new label of some ticker of the combined rows |
| ReconcilerProperties.MarketRowsCell | project2/project2_main.py:288 | after the market filter, a row keeps exactly the cells of dates that have a market cell |
| ReconcilerProperties.ReconcileCell | project2/project2_main.py:274-290 | the panel has a cell for (date, ticker) exactly when the reference value and the market value for that date both exist, and the cell holds the reference value |
| ReconcilerProperties.MarketInEveryRow | project2/project2_main.py:288 | every row of the panel has a `mkt` value |
| ReconcilerProperties.PricedTickerNoFallback | project2/project2_main.py:282-286 | a priced ticker's cells come only from its price rows, never from the return file |
| ReconcilerProperties.PriceWins | project2/project2_main.py:286 | on a market date, a requested ticker with a price return shows that price return |
| ReconcilerProperties.AbsentTickerNoColumn | project2/project2_main.py:280-286 | a ticker absent from both files gets no column |
| ReconcilerProperties.DuplicateReturnFails | project2/project2_main.py:284 | the duplicate-entry error happens exactly when a kept ticker has two return rows on one date |
| ReconcilerProperties.MissingMarketFails | project2/project2_main.py:288 | the missing-market error happens exactly when there are no duplicates and no market value on any date |
| ReconcilerProperties.ColumnTickers | project2/project2_main.py:280-286 | a ticker labels a pivoted column exactly when it has a reference value on some date |
| ReconcilerProperties.ReconcileColumns | project2/project2_main.py:290-293 | the panel's columns are `mkt` plus the labels of exactly the tickers with some reference value |
| ReconcilerProperties.ReconcileRowLabels | project2/project2_main.py:284-293 | every label in every row of the panel is one of the panel's columns |
| ReconcilerProperties.ColumnsShape | project2/project2_main.py:290-293 | the last column is `mkt`, no earlier column is, and no label has an upper-case letter |
| ReconcilerProperties.WithoutMarketCounts | project2/project2_main.py:292 | moving `mkt` keeps every other label with its multiplicity |
| ReconcilerProperties.WithoutMarketMember | project2/project2_main.py:292 | the non-market columns are exactly the labels other than `mkt` |
| ReconcilerProperties.MarketLastKeepsOrder | project2/project2_main.py:292-293 | the non-market columns keep their relative order |

## Left out

- `read_dat` (lines 15-36) and all file reading are not modelled. The loaders start from a frame of text cells, as `read_csv(dtype=str).astype(str)` leaves them.
- The grammars of `pd.to_numeric` and `pd.to_datetime` are not modelled. They are the parameters `num` and `date`.
- `pd.to_datetime` infers one format for a whole column, while the model parses each cell on its own.
- IEEE floating point is not modelled. Prices and returns are exact reals.
- PriceLoader.Derived: a sorted row whose previous close is zero has no return, so it is dropped. In pandas such a row with a non-zero close gets `inf` and is kept (see the next line).
- PriceLoader.PctChange: a non-zero price after a zero previous price gives None in the model, which drops the row. In pandas it gives `inf`, and the row is kept. Two zero prices give NaN in pandas and None in the model, and both drop the row.
- `isspace`, `lower`, `upper` and `split` are modelled for ASCII only. The Unicode whitespace and case tables are not.
- NaT is one ordinary date value. `drop_duplicates`, `pivot` and the panel's index all treat it as equal to itself.
- pandas sorts the pivoted columns and the index. The model orders columns by first appearance in the price rows, then in the return rows. Only "`mkt` last, the other columns in their relative order" is stated about column order. The panel's rows form a map, so they have no order.
- Volume is carried through both loaders, but `mk_ret_df` drops it, and so does the model.
- A row shorter than the header reads `"nan"` in its missing cells. Rows longer than the header, and the way `read_csv` treats them, are not modelled.
- pandas' error types and messages are not modelled. The model has four kinds of error:
  - a missing column;
  - a duplicated column;
  - a duplicate (date, ticker) entry in a pivot;
  - a missing `MKT` column.
- Ticker formatting is not idempotent: a value whose formatted form has surrounding whitespace, such as a quoted ticker with blanks inside the quotes, changes again. The model states exactly when it is idempotent (`Formatters.FmtTickerIdempotentIff`, `Formatters.FmtTickerNotIdempotent`).
- Reconciler.ReconcileFrames: a return file without rows whose ticker or return label is duplicated loads to no rows, as `read_ret_dat` does. What `mk_ret_df` then does with such a frame is not modelled. That covers selecting by a ticker frame (lines 276 and 282) and pivoting it (line 284). The model reconciles the empty row list instead.

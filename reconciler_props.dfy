/** What mk_ret_df promises, proved of Reconcile: every cell of the panel is
    the value a direct reading of the two sources gives (the price value when
    there is one, the return value otherwise), every row has its market
    return, the columns are the lower-cased tickers with mkt last, and the
    merge fails exactly on a duplicate return entry or a missing market. */
module ReconcilerProperties {
  import opened Wrappers
  import opened Text
  import opened Formatters
  import opened Table
  import opened Reconciler

  // ---------------------------------------------------------------------------
  // The reference reading of the two sources
  // ---------------------------------------------------------------------------

  /** Ticker t has a requested price row. */
  predicate Priced(prc: seq<Obs>, req: seq<string>, t: string) {
    t in req && exists k :: k in Keys(prc) && k.1 == t
  }

  /** The return rows of ticker t survive both filters: MKT always does, any
      other ticker when it is requested and has no price row. */
  predicate ReturnKept(prc: seq<Obs>, req: seq<string>, t: string) {
    t == Market || (t in req && !Priced(prc, req, t))
  }

  /** The price cell at k: the first price row of key k, for a requested ticker. */
  function PriceValue(prc: seq<Obs>, req: seq<string>, k: Key): Option<real> {
    if k.1 in req then First(prc, k) else None
  }

  /** The return cell at k, for a ticker whose return rows are kept. */
  function ReturnValue(prc: seq<Obs>, ret: seq<Obs>, req: seq<string>, k: Key): Option<real> {
    if ReturnKept(prc, req, k.1) then First(ret, k) else None
  }

  /** The cell at k before the market filter: the price value if present,
      else the return value. */
  function Expected(prc: seq<Obs>, ret: seq<Obs>, req: seq<string>, k: Key): Option<real> {
    var v := PriceValue(prc, req, k);
    if v.Some? then v else ReturnValue(prc, ret, req, k)
  }

  /** How many rows of s have key k. */
  function KeyCount(s: seq<Obs>, k: Key): nat {
    if s == [] then 0
    else
      var n := |s| - 1;
      KeyCount(s[..n], k) + (if KeyOf(s[n]) == k then 1 else 0)
  }

  /** Every ticker of s has no lower-case letter. */
  predicate FormattedKeys(s: seq<Obs>) {
    forall k :: k in Keys(s) ==> NoLower(k.1)
  }

  // ---------------------------------------------------------------------------
  // Row filters, drop_duplicates and pivot
  // ---------------------------------------------------------------------------

  lemma FirstSnoc(s: seq<Obs>, o: Obs, k: Key)
    ensures First(s + [o], k) ==
      if First(s, k).Some? then First(s, k) else if KeyOf(o) == k then Some(o.ret) else None
  {
    assert (s + [o])[..|s|] == s;
  }

  lemma KeyCountSnoc(s: seq<Obs>, o: Obs, k: Key)
    ensures KeyCount(s + [o], k) == KeyCount(s, k) + (if KeyOf(o) == k then 1 else 0)
  {
    assert (s + [o])[..|s|] == s;
  }

  /** A row filter on tickers keeps the first row of a key exactly when the
      mask accepts its ticker. */
  lemma {:induction false} FirstSelect(s: seq<Obs>, mask: string -> bool, k: Key)
    ensures First(Select(s, mask), k) == if mask(k.1) then First(s, k) else None
  {
    if s != [] {
      var n := |s| - 1;
      var a := Select(s[..n], mask);
      FirstSelect(s[..n], mask, k);
      if mask(s[n].ticker) {
        FirstSnoc(a, s[n], k);
      } else {
        assert a + [] == a;
      }
    }
  }

  lemma KeysSelect(s: seq<Obs>, mask: string -> bool, k: Key)
    ensures k in Keys(Select(s, mask)) <==> k in Keys(s) && mask(k.1)
  {
    FirstSelect(s, mask, k);
  }

  /** A row filter on tickers keeps every row of an accepted ticker. */
  lemma {:induction false} KeyCountSelect(s: seq<Obs>, mask: string -> bool, k: Key)
    ensures KeyCount(Select(s, mask), k) == if mask(k.1) then KeyCount(s, k) else 0
  {
    if s != [] {
      var n := |s| - 1;
      var a := Select(s[..n], mask);
      KeyCountSelect(s[..n], mask, k);
      if mask(s[n].ticker) {
        KeyCountSnoc(a, s[n], k);
      } else {
        assert a + [] == a;
      }
    }
  }

  lemma {:induction false} DropDuplicatesKeys(s: seq<Obs>)
    ensures Keys(DropDuplicates(s)) == Keys(s)
  {
    if s != [] {
      var n := |s| - 1;
      var d := DropDuplicates(s[..n]);
      DropDuplicatesKeys(s[..n]);
      if KeyOf(s[n]) !in Keys(d) {
        KeysSnoc(d, s[n]);
      }
    }
  }

  /** drop_duplicates keeps the first row of every key. */
  lemma {:induction false} FirstDropDuplicates(s: seq<Obs>, k: Key)
    ensures First(DropDuplicates(s), k) == First(s, k)
  {
    if s != [] {
      var n := |s| - 1;
      var d := DropDuplicates(s[..n]);
      FirstDropDuplicates(s[..n], k);
      DropDuplicatesKeys(s[..n]);
      if KeyOf(s[n]) !in Keys(d) {
        FirstSnoc(d, s[n], k);
      }
    }
  }

  lemma PivotSnoc(s: seq<Obs>, o: Obs)
    requires Pivot(s).Success? && KeyOf(o) !in Keys(s)
    ensures Pivot(s + [o]) == Success(Pivot(s).value[KeyOf(o) := o.ret])
  {
    assert (s + [o])[..|s|] == s;
  }

  /** After drop_duplicates the pivot cannot fail. */
  lemma {:induction false} PivotDeduplicated(s: seq<Obs>)
    ensures Pivot(DropDuplicates(s)).Success?
  {
    if s != [] {
      var n := |s| - 1;
      var d := DropDuplicates(s[..n]);
      PivotDeduplicated(s[..n]);
      if KeyOf(s[n]) !in Keys(d) {
        PivotSnoc(d, s[n]);
      }
    }
  }

  /** Each cell of a pivot holds the return of the row of its key. */
  lemma {:induction false} PivotCell(s: seq<Obs>, k: Key)
    requires Pivot(s).Success?
    ensures k in Pivot(s).value <==> First(s, k).Some?
    ensures k in Pivot(s).value ==> Pivot(s).value[k] == First(s, k).value
  {
    if s != [] {
      PivotCell(s[..|s| - 1], k);
    }
  }

  lemma {:induction false} KeyCountPositive(s: seq<Obs>, k: Key)
    ensures KeyCount(s, k) > 0 <==> k in Keys(s)
  {
    if s != [] {
      KeyCountPositive(s[..|s| - 1], k);
    }
  }

  /** pivot succeeds exactly when no (date, ticker) occurs twice. */
  lemma {:induction false} PivotSucceeds(s: seq<Obs>)
    ensures Pivot(s).Success? <==> forall k :: KeyCount(s, k) <= 1
  {
    if s != [] {
      var n := |s| - 1;
      var x := KeyOf(s[n]);
      PivotSucceeds(s[..n]);
      KeyCountPositive(s[..n], x);
      if Pivot(s).Success? {
        assert Pivot(s[..n]).Success? && x !in Pivot(s[..n]).value;
        forall k
          ensures KeyCount(s, k) <= 1
        {
          assert KeyCount(s, k) == KeyCount(s[..n], k) + (if x == k then 1 else 0);
          assert KeyCount(s[..n], k) <= 1;
          if k == x {
            assert x !in Keys(s[..n]);
            assert KeyCount(s[..n], k) == 0;
          }
        }
      } else if Pivot(s[..n]).Failure? {
        var k :| KeyCount(s[..n], k) > 1;
        assert KeyCount(s, k) > 1;
      } else {
        assert KeyCount(s, x) > 1;
      }
    }
  }

  // ---------------------------------------------------------------------------
  // The two sides of the merge, read off the inputs
  // ---------------------------------------------------------------------------

  lemma {:induction false} UniqueTickersMember(s: seq<Obs>, t: string)
    ensures t in UniqueTickers(s) <==> exists k :: k in Keys(s) && k.1 == t
  {
    if s != [] {
      var n := |s| - 1;
      UniqueTickersMember(s[..n], t);
      if t == s[n].ticker {
        assert KeyOf(s[n]) in Keys(s);
      }
    }
  }

  /** prc_df['ticker'].unique() after the filters: the requested tickers with
      a price row. */
  lemma PricedIff(prc: seq<Obs>, req: seq<string>, t: string)
    ensures t in UniqueTickers(PriceRows(prc, req)) <==> Priced(prc, req, t)
  {
    var sel := Select(prc, InList(req));
    UniqueTickersMember(PriceRows(prc, req), t);
    DropDuplicatesKeys(sel);
    forall k
      ensures k in Keys(sel) <==> k in Keys(prc) && k.1 in req
    {
      KeysSelect(prc, InList(req), k);
    }
  }

  /** The price side: for duplicate (date, ticker) rows the first is kept. */
  lemma PriceFirst(prc: seq<Obs>, req: seq<string>, k: Key)
    ensures First(PriceRows(prc, req), k) == PriceValue(prc, req, k)
  {
    var sel := Select(prc, InList(req));
    FirstDropDuplicates(sel, k);
    FirstSelect(prc, InList(req), k);
  }

  /** The return side: a key's return survives exactly when its ticker's
      return rows are kept. */
  lemma ReturnFirst(prc: seq<Obs>, ret: seq<Obs>, req: seq<string>, k: Key)
    ensures First(ReturnRows(ret, req, PriceRows(prc, req)), k) == ReturnValue(prc, ret, req, k)
  {
    var p := PriceRows(prc, req);
    var sel := Select(ret, InList(req + [Market]));
    FirstSelect(sel, UnpricedOrMarket(UniqueTickers(p)), k);
    FirstSelect(ret, InList(req + [Market]), k);
    PricedIff(prc, req, k.1);
  }

  lemma ReturnCount(prc: seq<Obs>, ret: seq<Obs>, req: seq<string>, k: Key)
    ensures KeyCount(ReturnRows(ret, req, PriceRows(prc, req)), k) ==
      if ReturnKept(prc, req, k.1) then KeyCount(ret, k) else 0
  {
    var p := PriceRows(prc, req);
    var sel := Select(ret, InList(req + [Market]));
    KeyCountSelect(sel, UnpricedOrMarket(UniqueTickers(p)), k);
    KeyCountSelect(ret, InList(req + [Market]), k);
    PricedIff(prc, req, k.1);
  }

  /** MKT return rows always survive the exclusion of priced tickers. */
  lemma MarketReturnsSurvive(prc: seq<Obs>, ret: seq<Obs>, req: seq<string>, d: Date)
    ensures First(ReturnRows(ret, req, PriceRows(prc, req)), (d, Market)) == First(ret, (d, Market))
  {
    ReturnFirst(prc, ret, req, (d, Market));
  }

  /** The pivot of the return side succeeds exactly when no kept key occurs
      twice in the return rows. */
  lemma ReturnPivotIff(prc: seq<Obs>, ret: seq<Obs>, req: seq<string>)
    ensures Pivot(ReturnRows(ret, req, PriceRows(prc, req))).Success? <==>
      forall k: Key :: ReturnKept(prc, req, k.1) ==> KeyCount(ret, k) <= 1
  {
    var q := ReturnRows(ret, req, PriceRows(prc, req));
    PivotSucceeds(q);
    if Pivot(q).Success? {
      forall k: Key | ReturnKept(prc, req, k.1)
        ensures KeyCount(ret, k) <= 1
      {
        ReturnCount(prc, ret, req, k);
      }
    } else {
      var k :| KeyCount(q, k) > 1;
      ReturnCount(prc, ret, req, k);
    }
  }

  /** combine_first: a cell of the combined frame is the expected value. */
  lemma CombinedCell(prc: seq<Obs>, ret: seq<Obs>, req: seq<string>, k: Key)
    requires Pivot(PriceRows(prc, req)).Success?
    requires Pivot(ReturnRows(ret, req, PriceRows(prc, req))).Success?
    ensures var cells := Pivot(ReturnRows(ret, req, PriceRows(prc, req))).value + Pivot(PriceRows(prc, req)).value;
      (k in cells <==> Expected(prc, ret, req, k).Some?) &&
      (k in cells ==> cells[k] == Expected(prc, ret, req, k).value)
  {
    var p := PriceRows(prc, req);
    var q := ReturnRows(ret, req, p);
    PivotCell(p, k);
    PivotCell(q, k);
    PriceFirst(prc, req, k);
    ReturnFirst(prc, ret, req, k);
  }

  // ---------------------------------------------------------------------------
  // Labels, the market filter and the renaming
  // ---------------------------------------------------------------------------

  lemma MarketFormatted()
    ensures NoLower(Market) && Lower(Market) == MarketLabel
  {
    FmtTickerMarket();
    LowerMarket();
  }

  lemma LowerMarket()
    ensures Lower(Market) == MarketLabel
  {
    var l := Lower(Market);
    assert l[0] == 'm' && l[1] == 'k' && l[2] == 't';
  }

  /** Distinct formatted tickers get distinct labels. */
  lemma LabelInjective(a: string, b: string)
    requires NoLower(a) && NoLower(b) && Label(a) == Label(b)
    ensures a == b
  {
    MarketFormatted();
    if a == Market && b != Market {
      LowerInjective(b, Market);
    } else if a != Market && b == Market {
      LowerInjective(a, Market);
    } else if a != Market {
      LowerInjective(a, b);
    }
  }

  /** Every requested ticker is a formatted one. */
  lemma {:induction false} RequestedFormatted(tickers: seq<string>, t: string)
    requires t in Requested(tickers)
    ensures NoQuote(t) && NoLower(t)
  {
    var n := |tickers| - 1;
    var init := Requested(tickers[..n]);
    SnocMember(init, FmtTicker(tickers[n]), t);
    if t in init {
      RequestedFormatted(tickers[..n], t);
    }
  }

  lemma SnocMember(s: seq<string>, x: string, t: string)
    requires t in s + [x]
    ensures t in s || t == x
  {
  }

  /** Every requested and every kept ticker is a formatted one. */
  lemma SidesFormatted(prc: seq<Obs>, ret: seq<Obs>, tickers: seq<string>)
    ensures var req := Requested(tickers); var p := PriceRows(prc, req);
      FormattedKeys(p + ReturnRows(ret, req, p))
  {
    var req := Requested(tickers);
    var p := PriceRows(prc, req);
    var sel := Select(ret, InList(req + [Market]));
    var q := ReturnRows(ret, req, p);
    KeysConcat(p, q);
    DropDuplicatesKeys(Select(prc, InList(req)));
    MarketFormatted();
    forall k | k in Keys(p + q)
      ensures NoLower(k.1)
    {
      KeysSelect(prc, InList(req), k);
      KeysSelect(sel, UnpricedOrMarket(UniqueTickers(p)), k);
      KeysSelect(ret, InList(req + [Market]), k);
      if k.1 in req {
        RequestedFormatted(tickers, k.1);
      }
    }
  }

  lemma {:induction false} MarketRowsDates(cells: map<Key, real>, s: seq<Obs>, d: Date)
    requires Keys(s) <= cells.Keys
    ensures d in MarketRows(cells, s) ==> (d, Market) in cells
  {
    if s != [] {
      MarketRowsDates(cells, s[..|s| - 1], d);
    }
  }

  /** The cell of ticker t on date d is present after dropna and the renaming
      exactly when the combined frame has an MKT cell on d and a cell (d, t),
      and it is that cell. */
  lemma {:induction false} MarketRowsCell(cells: map<Key, real>, s: seq<Obs>, d: Date, t: string)
    requires Keys(s) <= cells.Keys && FormattedKeys(s) && NoLower(t)
    ensures var m := MarketRows(cells, s);
      (d in m && Label(t) in m[d]) <==> ((d, Market) in cells && (d, t) in Keys(s))
    ensures var m := MarketRows(cells, s);
      d in m && Label(t) in m[d] ==> m[d][Label(t)] == cells[(d, t)]
  {
    if s != [] {
      var n := |s| - 1;
      var k := KeyOf(s[n]);
      assert k in Keys(s);
      MarketRowsCell(cells, s[..n], d, t);
      if Label(t) == Label(k.1) {
        LabelInjective(t, k.1);
      }
    }
  }

  /** Every label in a row of the result is the label of some key of s. */
  lemma {:induction false} MarketRowsLabels(cells: map<Key, real>, s: seq<Obs>, d: Date, l: string)
    requires Keys(s) <= cells.Keys
    ensures var m := MarketRows(cells, s);
      d in m && l in m[d] ==> exists k :: k in Keys(s) && Label(k.1) == l
  {
    if s != [] {
      var n := |s| - 1;
      var k := KeyOf(s[n]);
      MarketRowsLabels(cells, s[..n], d, l);
      var m := MarketRows(cells, s);
      if d in m && l in m[d] && l != Label(k.1) {
        assert d in MarketRows(cells, s[..n]) && l in MarketRows(cells, s[..n])[d];
      }
      if d in m && l in m[d] && l == Label(k.1) {
        assert k in Keys(s);
      }
    }
  }

  // ---------------------------------------------------------------------------
  // What mk_ret_df promises
  // ---------------------------------------------------------------------------

  /** The main theorem: the panel has a cell for (d, t) exactly when the
      expected value of (d, t) and the expected market value of d are both
      present, and the cell holds the expected value. */
  lemma ReconcileCell(prc: seq<Obs>, ret: seq<Obs>, tickers: seq<string>, d: Date, t: string)
    requires Reconcile(prc, ret, tickers).Success?
    requires NoLower(t)
    ensures var rows := Reconcile(prc, ret, tickers).value.rows; var req := Requested(tickers);
      (d in rows && Label(t) in rows[d]) <==>
        Expected(prc, ret, req, (d, t)).Some? && Expected(prc, ret, req, (d, Market)).Some?
    ensures var rows := Reconcile(prc, ret, tickers).value.rows; var req := Requested(tickers);
      d in rows && Label(t) in rows[d] ==> rows[d][Label(t)] == Expected(prc, ret, req, (d, t)).value
  {
    var req := Requested(tickers);
    var p := PriceRows(prc, req);
    var q := ReturnRows(ret, req, p);
    var cells := Pivot(q).value + Pivot(p).value;
    KeysConcat(p, q);
    SidesFormatted(prc, ret, tickers);
    MarketRowsCell(cells, p + q, d, t);
    CombinedCell(prc, ret, req, (d, t));
    CombinedCell(prc, ret, req, (d, Market));
  }

  /** dropna(subset=['MKT']): every row of the panel has its market return. */
  lemma MarketInEveryRow(prc: seq<Obs>, ret: seq<Obs>, tickers: seq<string>, d: Date)
    requires Reconcile(prc, ret, tickers).Success?
    requires d in Reconcile(prc, ret, tickers).value.rows
    ensures MarketLabel in Reconcile(prc, ret, tickers).value.rows[d]
  {
    var req := Requested(tickers);
    var p := PriceRows(prc, req);
    var q := ReturnRows(ret, req, p);
    var cells := Pivot(q).value + Pivot(p).value;
    KeysConcat(p, q);
    MarketRowsDates(cells, p + q, d);
    CombinedCell(prc, ret, req, (d, Market));
    MarketFormatted();
    ReconcileCell(prc, ret, tickers, d, Market);
  }

  /** A requested ticker with any price row takes no value from the return
      file, even on a date the price file lacks. */
  lemma PricedTickerNoFallback(prc: seq<Obs>, ret: seq<Obs>, tickers: seq<string>, d: Date, t: string)
    requires Reconcile(prc, ret, tickers).Success?
    requires NoLower(t) && t != Market && Priced(prc, Requested(tickers), t)
    requires d in Reconcile(prc, ret, tickers).value.rows
    requires Label(t) in Reconcile(prc, ret, tickers).value.rows[d]
    ensures First(prc, (d, t)).Some?
    ensures Reconcile(prc, ret, tickers).value.rows[d][Label(t)] == First(prc, (d, t)).value
  {
    ReconcileCell(prc, ret, tickers, d, t);
  }

  /** Where a price cell exists it wins, MKT included. */
  lemma PriceWins(prc: seq<Obs>, ret: seq<Obs>, tickers: seq<string>, d: Date, t: string)
    requires Reconcile(prc, ret, tickers).Success?
    requires NoLower(t) && t in Requested(tickers) && First(prc, (d, t)).Some?
    requires d in Reconcile(prc, ret, tickers).value.rows
    ensures Label(t) in Reconcile(prc, ret, tickers).value.rows[d]
    ensures Reconcile(prc, ret, tickers).value.rows[d][Label(t)] == First(prc, (d, t)).value
  {
    MarketInEveryRow(prc, ret, tickers, d);
    MarketFormatted();
    ReconcileCell(prc, ret, tickers, d, Market);
    ReconcileCell(prc, ret, tickers, d, t);
  }

  lemma {:induction false} KeysMember(s: seq<Obs>, k: Key)
    ensures k in Keys(s) ==> exists i :: 0 <= i < |s| && KeyOf(s[i]) == k
  {
    if s != [] && k in Keys(s) {
      var n := |s| - 1;
      if k in Keys(s[..n]) {
        KeysMember(s[..n], k);
        var i :| 0 <= i < n && KeyOf(s[..n][i]) == k;
        assert s[..n][i] == s[i];
      } else {
        assert KeyOf(s[n]) == k;
      }
    }
  }

  /** A requested ticker that neither file mentions gets no column. */
  lemma AbsentTickerNoColumn(prc: seq<Obs>, ret: seq<Obs>, tickers: seq<string>, t: string)
    requires Reconcile(prc, ret, tickers).Success?
    requires NoLower(t) && t != Market
    requires forall i :: 0 <= i < |prc| ==> prc[i].ticker != t
    requires forall i :: 0 <= i < |ret| ==> ret[i].ticker != t
    ensures Label(t) !in Reconcile(prc, ret, tickers).value.columns
  {
    ReconcileColumns(prc, ret, tickers, t);
    forall d
      ensures Expected(prc, ret, Requested(tickers), (d, t)).None?
    {
      AbsentTickerNoValue(prc, ret, Requested(tickers), d, t);
    }
  }

  lemma AbsentTickerNoValue(prc: seq<Obs>, ret: seq<Obs>, req: seq<string>, d: Date, t: string)
    requires forall i :: 0 <= i < |prc| ==> prc[i].ticker != t
    requires forall i :: 0 <= i < |ret| ==> ret[i].ticker != t
    ensures Expected(prc, ret, req, (d, t)).None?
  {
    KeysMember(prc, (d, t));
    KeysMember(ret, (d, t));
  }

  // ---------------------------------------------------------------------------
  // Errors
  // ---------------------------------------------------------------------------

  /** pivot of the return rows fails exactly when a kept (date, ticker)
      occurs twice in the return file. */
  lemma DuplicateReturnFails(prc: seq<Obs>, ret: seq<Obs>, tickers: seq<string>)
    ensures (Reconcile(prc, ret, tickers).Failure? && Reconcile(prc, ret, tickers).error.DuplicateEntry?) <==>
      exists k: Key :: ReturnKept(prc, Requested(tickers), k.1) && KeyCount(ret, k) > 1
  {
    var req := Requested(tickers);
    PivotDeduplicated(Select(prc, InList(req)));
    ReturnPivotIff(prc, ret, req);
  }

  /** With no duplicate return entry, the merge fails with the missing market
      column exactly when no date has a market value. */
  lemma MissingMarketFails(prc: seq<Obs>, ret: seq<Obs>, tickers: seq<string>)
    ensures Reconcile(prc, ret, tickers) == Failure(MissingMarketColumn) <==>
      (forall k: Key :: ReturnKept(prc, Requested(tickers), k.1) ==> KeyCount(ret, k) <= 1) &&
      (forall d :: Expected(prc, ret, Requested(tickers), (d, Market)).None?)
  {
    var req := Requested(tickers);
    PivotDeduplicated(Select(prc, InList(req)));
    ReturnPivotIff(prc, ret, req);
    if Pivot(ReturnRows(ret, req, PriceRows(prc, req))).Success? {
      ColumnTickers(prc, ret, req, Market);
    }
  }

  // ---------------------------------------------------------------------------
  // Columns
  // ---------------------------------------------------------------------------

  lemma {:induction false} WithoutMarketMember(labels: seq<string>, x: string)
    ensures x in WithoutMarket(labels) <==> x in labels && x != MarketLabel
  {
    if labels != [] {
      var n := |labels| - 1;
      WithoutMarketMember(labels[..n], x);
      assert labels == labels[..n] + [labels[n]];
    }
  }

  /** Dropping mkt keeps every other label as often as it occurs. */
  lemma {:induction false} WithoutMarketCounts(labels: seq<string>, x: string)
    requires x != MarketLabel
    ensures multiset(WithoutMarket(labels))[x] == multiset(labels)[x]
  {
    if labels != [] {
      var n := |labels| - 1;
      var init := labels[..n];
      var last := if labels[n] != MarketLabel then [labels[n]] else [];
      WithoutMarketCounts(init, x);
      assert labels == init + [labels[n]];
      assert multiset(labels) == multiset(init) + multiset{labels[n]};
      assert multiset(WithoutMarket(labels)) == multiset(WithoutMarket(init)) + multiset(last);
    }
  }

  /** Where a label other than mkt lands among the others. */
  lemma {:induction false} WithoutMarketIndex(labels: seq<string>, i: nat) returns (k: nat)
    requires i < |labels| && labels[i] != MarketLabel
    ensures k == |WithoutMarket(labels[..i])|
    ensures k < |WithoutMarket(labels)| && WithoutMarket(labels)[k] == labels[i]
  {
    var n := |labels| - 1;
    if i == n {
      k := |WithoutMarket(labels[..n])|;
    } else {
      k := WithoutMarketIndex(labels[..n], i);
      assert labels[..n][..i] == labels[..i];
      assert labels[..n][i] == labels[i];
    }
  }

  lemma {:induction false} WithoutMarketGrows(labels: seq<string>, i: nat, j: nat)
    requires i < j <= |labels| && labels[i] != MarketLabel
    ensures |WithoutMarket(labels[..i])| < |WithoutMarket(labels[..j])|
    decreases j
  {
    if j == i + 1 {
      assert labels[..j][..i] == labels[..i];
    } else {
      WithoutMarketGrows(labels, i, j - 1);
      assert labels[..j][..j - 1] == labels[..j - 1];
    }
  }

  /** Moving mkt last keeps the relative order of the other columns. */
  lemma MarketLastKeepsOrder(labels: seq<string>, i: nat, j: nat)
    requires i < j < |labels| && labels[i] != MarketLabel && labels[j] != MarketLabel
    ensures exists a, b :: (0 <= a < b < |MarketLast(labels)| - 1 &&
      MarketLast(labels)[a] == labels[i] && MarketLast(labels)[b] == labels[j])
  {
    var a := WithoutMarketIndex(labels, i);
    var b := WithoutMarketIndex(labels, j);
    WithoutMarketGrows(labels, i, j);
    assert MarketLast(labels)[a] == labels[i];
    assert MarketLast(labels)[b] == labels[j];
  }

  /** Formatted tickers keep their identity through the renaming. */
  lemma LabelInRelabel(cols: seq<string>, t: string)
    requires forall c :: c in cols ==> NoLower(c)
    requires NoLower(t)
    ensures Label(t) in Relabel(cols) <==> t in cols
  {
    if Label(t) in Relabel(cols) {
      var i :| 0 <= i < |cols| && Relabel(cols)[i] == Label(t);
      LabelInjective(t, cols[i]);
    }
  }

  /** The tickers of the combined frame are the tickers with an expected
      value on some date. */
  lemma ColumnTickers(prc: seq<Obs>, ret: seq<Obs>, req: seq<string>, t: string)
    requires Pivot(PriceRows(prc, req)).Success?
    requires Pivot(ReturnRows(ret, req, PriceRows(prc, req))).Success?
    ensures var p := PriceRows(prc, req);
      t in UniqueTickers(p + ReturnRows(ret, req, p)) <==>
        exists d :: Expected(prc, ret, req, (d, t)).Some?
  {
    var p := PriceRows(prc, req);
    var q := ReturnRows(ret, req, p);
    UniqueTickersMember(p + q, t);
    KeysConcat(p, q);
    if t in UniqueTickers(p + q) {
      var k :| k in Keys(p + q) && k.1 == t;
      CombinedCell(prc, ret, req, k);
      assert k == (k.0, t);
    }
    if exists d :: Expected(prc, ret, req, (d, t)).Some? {
      var d :| Expected(prc, ret, req, (d, t)).Some?;
      CombinedCell(prc, ret, req, (d, t));
    }
  }

  lemma ColumnTickersFormatted(prc: seq<Obs>, ret: seq<Obs>, tickers: seq<string>)
    ensures var req := Requested(tickers); var p := PriceRows(prc, req);
      forall c :: c in UniqueTickers(p + ReturnRows(ret, req, p)) ==> NoLower(c)
  {
    var req := Requested(tickers);
    var p := PriceRows(prc, req);
    var q := ReturnRows(ret, req, p);
    SidesFormatted(prc, ret, tickers);
    forall c | c in UniqueTickers(p + q)
      ensures NoLower(c)
    {
      UniqueTickersMember(p + q, c);
    }
  }

  /** The columns: mkt, and the label of every ticker that has a cell. */
  lemma ReconcileColumns(prc: seq<Obs>, ret: seq<Obs>, tickers: seq<string>, t: string)
    requires Reconcile(prc, ret, tickers).Success?
    requires NoLower(t)
    ensures Label(t) in Reconcile(prc, ret, tickers).value.columns <==>
      t == Market || exists d :: Expected(prc, ret, Requested(tickers), (d, t)).Some?
  {
    var req := Requested(tickers);
    var p := PriceRows(prc, req);
    var cols := UniqueTickers(p + ReturnRows(ret, req, p));
    MarketFormatted();
    ColumnTickersFormatted(prc, ret, tickers);
    WithoutMarketMember(Relabel(cols), Label(t));
    LabelInRelabel(cols, t);
    if Label(t) == MarketLabel {
      LabelInjective(t, Market);
    }
    ColumnTickers(prc, ret, req, t);
  }

  /** A pandas frame holds values only under its own columns: every label in
      every row of the panel is one of the panel's columns. */
  lemma ReconcileRowLabels(prc: seq<Obs>, ret: seq<Obs>, tickers: seq<string>)
    requires Reconcile(prc, ret, tickers).Success?
    ensures var panel := Reconcile(prc, ret, tickers).value;
      forall d, l :: d in panel.rows && l in panel.rows[d] ==> l in panel.columns
  {
    var req := Requested(tickers);
    var p := PriceRows(prc, req);
    var q := ReturnRows(ret, req, p);
    var cells := Pivot(q).value + Pivot(p).value;
    var cols := UniqueTickers(p + q);
    KeysConcat(p, q);
    var panel := Reconcile(prc, ret, tickers).value;
    forall d, l | d in panel.rows && l in panel.rows[d]
      ensures l in panel.columns
    {
      MarketRowsLabels(cells, p + q, d, l);
      var k :| k in Keys(p + q) && Label(k.1) == l;
      UniqueTickersMember(p + q, k.1);
      var i :| 0 <= i < |cols| && cols[i] == k.1;
      assert Relabel(cols)[i] == l;
      WithoutMarketMember(Relabel(cols), l);
    }
  }

  /** Every column label is lower-case, mkt is the last column and no other
      column is mkt. */
  lemma ColumnsShape(prc: seq<Obs>, ret: seq<Obs>, tickers: seq<string>)
    requires Reconcile(prc, ret, tickers).Success?
    ensures var cs := Reconcile(prc, ret, tickers).value.columns;
      |cs| > 0 && cs[|cs| - 1] == MarketLabel &&
      (forall i :: 0 <= i < |cs| - 1 ==> cs[i] != MarketLabel) &&
      (forall c :: c in cs ==> NoUpper(c))
  {
    var req := Requested(tickers);
    var p := PriceRows(prc, req);
    var cols := UniqueTickers(p + ReturnRows(ret, req, p));
    var others := WithoutMarket(Relabel(cols));
    MarketFormatted();
    forall c | c in others + [MarketLabel]
      ensures NoUpper(c) && (c in others ==> c != MarketLabel)
    {
      WithoutMarketMember(Relabel(cols), c);
    }
  }
}

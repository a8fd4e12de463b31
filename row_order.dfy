/** The order of sort_values(by=['ticker', 'date']) on parsed price rows:
    tickers compare as str, dates ascending with NaT last, and rows with equal
    keys keep their input order (a multi-key sort in pandas is stable). */
module RowOrder {
  import opened Wrappers
  import opened Text
  import opened Table

  /** NaT sorts after every date (na_position='last'). */
  predicate DateLt(a: Date, b: Date) {
    a.Some? && (b.None? || a.value < b.value)
  }

  predicate KeyLt(t1: string, d1: Date, t2: string, d2: Date) {
    StrLt(t1, t2) || (t1 == t2 && DateLt(d1, d2))
  }

  predicate RowLt(a: PriceRow, b: PriceRow) {
    KeyLt(a.ticker, a.date, b.ticker, b.date)
  }

  predicate Sorted(s: seq<PriceRow>) {
    forall i, j :: 0 <= i < j < |s| ==> !RowLt(s[j], s[i])
  }

  // ---------------------------------------------------------------------------
  // The key order is a strict total order on (ticker, date)
  // ---------------------------------------------------------------------------

  lemma KeyLtIrreflexive(t: string, d: Date)
    ensures !KeyLt(t, d, t, d)
  {
    StrLtIrreflexive(t);
  }

  lemma KeyLtTransitive(t1: string, d1: Date, t2: string, d2: Date, t3: string, d3: Date)
    requires KeyLt(t1, d1, t2, d2) && KeyLt(t2, d2, t3, d3)
    ensures KeyLt(t1, d1, t3, d3)
  {
    if StrLt(t1, t2) && StrLt(t2, t3) {
      StrLtTransitive(t1, t2, t3);
    }
  }

  lemma KeyLtTotal(t1: string, d1: Date, t2: string, d2: Date)
    requires t1 != t2 || d1 != d2
    ensures KeyLt(t1, d1, t2, d2) || KeyLt(t2, d2, t1, d1)
  {
    if t1 != t2 {
      StrLtTotal(t1, t2);
    }
  }

  lemma KeyLtAsymmetric(t1: string, d1: Date, t2: string, d2: Date)
    requires KeyLt(t1, d1, t2, d2)
    ensures !KeyLt(t2, d2, t1, d1)
  {
    if StrLt(t1, t2) {
      StrLtAsymmetric(t1, t2);
    } else {
      StrLtIrreflexive(t1);
    }
  }

  /** x < y and y <= z give x < z. */
  lemma RowLtThenLe(x: PriceRow, y: PriceRow, z: PriceRow)
    requires RowLt(x, y) && !RowLt(z, y)
    ensures RowLt(x, z)
  {
    if y.ticker == z.ticker && y.date == z.date {
    } else {
      KeyLtTotal(y.ticker, y.date, z.ticker, z.date);
      KeyLtTransitive(x.ticker, x.date, y.ticker, y.date, z.ticker, z.date);
    }
  }

  // ---------------------------------------------------------------------------
  // A stable sort
  // ---------------------------------------------------------------------------

  /** Puts x into a sorted sequence after every row whose key is not greater. */
  function Insert(x: PriceRow, s: seq<PriceRow>): (r: seq<PriceRow>)
    ensures multiset(r) == multiset(s) + multiset{x}
  {
    if s == [] || RowLt(x, s[0]) then [x] + s
    else
      assert s == [s[0]] + s[1..];
      [s[0]] + Insert(x, s[1..])
  }

  lemma {:induction false} InsertSorted(x: PriceRow, s: seq<PriceRow>)
    requires Sorted(s)
    ensures Sorted(Insert(x, s))
  {
    if s == [] {
    } else if RowLt(x, s[0]) {
      forall j | 0 <= j < |s|
        ensures !RowLt(s[j], x)
      {
        if j == 0 {
          KeyLtAsymmetric(x.ticker, x.date, s[0].ticker, s[0].date);
        } else {
          RowLtThenLe(x, s[0], s[j]);
          KeyLtAsymmetric(x.ticker, x.date, s[j].ticker, s[j].date);
        }
      }
    } else {
      var rest := Insert(x, s[1..]);
      InsertSorted(x, s[1..]);
      forall j | 0 <= j < |rest|
        ensures !RowLt(rest[j], s[0])
      {
        assert rest[j] in multiset(rest);
        if rest[j] != x {
          assert rest[j] in multiset(s[1..]);
          var k :| 1 <= k < |s| && s[k] == rest[j];
        }
      }
    }
  }

  /** sort_values(by=['ticker', 'date']): sorted and a permutation of its input. */
  function SortRows(s: seq<PriceRow>): (r: seq<PriceRow>)
    ensures Sorted(r)
    ensures multiset(r) == multiset(s)
    decreases |s|
  {
    if s == [] then []
    else
      var init := s[..|s| - 1];
      assert s == init + [s[|s| - 1]];
      InsertSorted(s[|s| - 1], SortRows(init));
      Insert(s[|s| - 1], SortRows(init))
  }

  // ---------------------------------------------------------------------------
  // Stability: rows with the same key keep their relative order
  // ---------------------------------------------------------------------------

  /** The rows carrying one (ticker, date) key, in order. */
  function WithKey(s: seq<PriceRow>, t: string, d: Date): seq<PriceRow> {
    if s == [] then []
    else (if s[0].ticker == t && s[0].date == d then [s[0]] else []) + WithKey(s[1..], t, d)
  }

  lemma {:induction false} WithKeyConcat(a: seq<PriceRow>, b: seq<PriceRow>, t: string, d: Date)
    ensures WithKey(a + b, t, d) == WithKey(a, t, d) + WithKey(b, t, d)
  {
    if a == [] {
      assert a + b == b;
    } else {
      assert (a + b)[1..] == a[1..] + b;
      WithKeyConcat(a[1..], b, t, d);
    }
  }

  /** No row of a sorted sequence whose first row lies above x shares x's key. */
  lemma {:induction false} AboveHasNoKey(x: PriceRow, s: seq<PriceRow>)
    requires Sorted(s) && s != [] && RowLt(x, s[0])
    ensures WithKey(s, x.ticker, x.date) == []
  {
    KeyLtIrreflexive(x.ticker, x.date);
    if |s| > 1 {
      RowLtThenLe(x, s[0], s[1]);
      AboveHasNoKey(x, s[1..]);
    }
  }

  lemma {:induction false} InsertStable(x: PriceRow, s: seq<PriceRow>, t: string, d: Date)
    requires Sorted(s)
    ensures WithKey(Insert(x, s), t, d) == WithKey(s, t, d) + WithKey([x], t, d)
  {
    if s == [] {
      assert [x] + s == [x];
    } else if RowLt(x, s[0]) {
      InsertBelowStable(x, s, t, d);
    } else {
      InsertStable(x, s[1..], t, d);
      InsertAboveStable(x, s, t, d);
    }
  }

  lemma InsertBelowStable(x: PriceRow, s: seq<PriceRow>, t: string, d: Date)
    requires Sorted(s) && s != [] && RowLt(x, s[0])
    ensures WithKey([x] + s, t, d) == WithKey(s, t, d) + WithKey([x], t, d)
  {
    WithKeyConcat([x], s, t, d);
    if x.ticker == t && x.date == d {
      AboveHasNoKey(x, s);
    }
  }

  lemma InsertAboveStable(x: PriceRow, s: seq<PriceRow>, t: string, d: Date)
    requires s != [] && !RowLt(x, s[0])
    requires WithKey(Insert(x, s[1..]), t, d) == WithKey(s[1..], t, d) + WithKey([x], t, d)
    ensures WithKey(Insert(x, s), t, d) == WithKey(s, t, d) + WithKey([x], t, d)
  {
    InsertFront(x, s);
    ConsStable(s, Insert(x, s[1..]), [x], t, d);
  }

  lemma InsertFront(x: PriceRow, s: seq<PriceRow>)
    requires s != [] && !RowLt(x, s[0])
    ensures Insert(x, s) == [s[0]] + Insert(x, s[1..])
  {
  }

  lemma WithKeyCons(s: seq<PriceRow>, t: string, d: Date)
    requires s != []
    ensures WithKey(s, t, d) == WithKey([s[0]], t, d) + WithKey(s[1..], t, d)
  {
    assert [s[0]][1..] == [];
  }

  lemma ConsStable(s: seq<PriceRow>, rest: seq<PriceRow>, xs: seq<PriceRow>, t: string, d: Date)
    requires s != []
    requires WithKey(rest, t, d) == WithKey(s[1..], t, d) + WithKey(xs, t, d)
    ensures WithKey([s[0]] + rest, t, d) == WithKey(s, t, d) + WithKey(xs, t, d)
  {
    WithKeyConcat([s[0]], rest, t, d);
    WithKeyCons(s, t, d);
    Regroup3(WithKey([s[0]] + rest, t, d), WithKey([s[0]], t, d), WithKey(rest, t, d),
             WithKey(s, t, d), WithKey(s[1..], t, d), WithKey(xs, t, d));
  }

  /** The sequence algebra of ConsStable, free of WithKey. */
  lemma Regroup3(whole: seq<PriceRow>, head: seq<PriceRow>, rest: seq<PriceRow>,
                 all: seq<PriceRow>, tail: seq<PriceRow>, xs: seq<PriceRow>)
    requires whole == head + rest && rest == tail + xs && all == head + tail
    ensures whole == all + xs
  {
  }

  /** Sorting keeps the rows of each (ticker, date) key in input order. */
  lemma {:induction false} SortRowsStable(s: seq<PriceRow>, t: string, d: Date)
    ensures WithKey(SortRows(s), t, d) == WithKey(s, t, d)
    decreases |s|
  {
    if s != [] {
      var init := s[..|s| - 1];
      assert s == init + [s[|s| - 1]];
      SortRowsStable(init, t, d);
      InsertStable(s[|s| - 1], SortRows(init), t, d);
      WithKeyConcat(init, [s[|s| - 1]], t, d);
    }
  }
}

/** The cell parser and the column-label and ticker normalisers of the pipeline:
    str_to_float, fmt_col_name and fmt_ticker. */
module Formatters {
  import opened Wrappers
  import opened Text

  /** The ticker that marks market returns in the return file. */
  const Market: string := "MKT"

  // ---------------------------------------------------------------------------
  // fmt_col_name
  // ---------------------------------------------------------------------------

  /** fmt_col_name: strip, lower-case, then join the whitespace-separated
      words with '_' (so every inner run of whitespace becomes one '_'). */
  function FmtColName(col: string): (r: string)
    ensures NoSpace(r) && NoUpper(r)
  {
    var ws := Words(Lower(Strip(col)));
    JoinUnderscoreClean(ws);
    Join(ws, "_")
  }

  lemma JoinUnderscoreClean(ws: seq<string>)
    requires forall k :: 0 <= k < |ws| ==> NoSpace(ws[k]) && NoUpper(ws[k])
    ensures NoSpace(Join(ws, "_")) && NoUpper(Join(ws, "_"))
  {
    assert NoSpace("_") && NoUpper("_");
  }

  lemma FmtColNameIdempotent(col: string)
    ensures FmtColName(FmtColName(col)) == FmtColName(col)
  {
    var r := FmtColName(col);
    StripTrimmed(r);
    LowerOfNoUpper(r);
    if r != [] {
      WordsOfWord(r);
    }
  }

  /** A col without whitespace is only lower-cased. */
  lemma FmtColNameOfWord(col: string)
    requires col != [] && NoSpace(col)
    ensures FmtColName(col) == Lower(col)
  {
    StripTrimmed(col);
    assert NoSpace(Lower(col));
    WordsOfWord(Lower(col));
  }

  /** Leading whitespace is dropped: fmt_col_name(' Close') == 'close'. */
  lemma FmtColNameLeadingSpace(c: char, w: string)
    requires IsSpace(c) && w != [] && NoSpace(w)
    ensures FmtColName([c] + w) == Lower(w)
  {
    StripSpaceLeft(c, w);
    FmtColNameOfWord(w);
  }

  /** A run of inner whitespace becomes one '_':
      fmt_col_name('Adj    Close') == 'adj_close'. */
  lemma FmtColNameTwoWords(a: string, gap: string, b: string)
    requires a != [] && NoSpace(a) && b != [] && NoSpace(b)
    requires gap != [] && AllSpace(gap)
    ensures FmtColName(a + gap + b) == Lower(a) + "_" + Lower(b)
  {
    TwoWordsTrimmed(a, gap, b);
    LowerConcat(a + gap, b);
    LowerConcat(a, gap);
    LowerKeepsSpaces(a);
    LowerKeepsSpaces(gap);
    LowerKeepsSpaces(b);
    WordsTwo(Lower(a), Lower(gap), Lower(b));
    JoinTwo(Lower(a), Lower(b));
  }

  lemma TwoWordsTrimmed(a: string, gap: string, b: string)
    requires a != [] && NoSpace(a) && b != [] && NoSpace(b)
    ensures Strip(a + gap + b) == a + gap + b
  {
    var s := a + gap + b;
    assert s[0] == a[0] && s[|s| - 1] == b[|b| - 1];
    StripTrimmed(s);
  }

  lemma JoinTwo(a: string, b: string)
    ensures Join([a, b], "_") == a + "_" + b
  {
    assert [a, b][1..] == [b];
  }

  // ---------------------------------------------------------------------------
  // fmt_ticker
  // ---------------------------------------------------------------------------

  /** fmt_ticker: strip, remove every '"' and then every '\'', upper-case. */
  function FmtTicker(value: string): (r: string)
    ensures NoQuote(r) && NoLower(r)
  {
    Upper(Unquote(Strip(value)))
  }

  /** Applying fmt_ticker twice only strips once more: the whitespace that the
      quotes protected from the first strip is removed by the second. */
  lemma FmtTickerTwice(value: string)
    ensures FmtTicker(FmtTicker(value)) == Strip(FmtTicker(value))
  {
    var y := FmtTicker(value);
    StripKeepsNoQuote(y);
    StripKeepsNoLower(y);
    UnquoteNoQuote(Strip(y));
    UpperOfNoLower(Strip(y));
  }

  /** fmt_ticker is idempotent exactly on values whose result has no
      whitespace at either end. */
  lemma FmtTickerIdempotentIff(value: string)
    ensures FmtTicker(FmtTicker(value)) == FmtTicker(value) <==> Trimmed(FmtTicker(value))
  {
    FmtTickerTwice(value);
    if Trimmed(FmtTicker(value)) {
      StripTrimmed(FmtTicker(value));
    }
  }

  /** Whitespace inside quotes survives the first call, so fmt_ticker is not
      idempotent: fmt_ticker("' aapl '") == " AAPL ", whose fmt_ticker is "AAPL". */
  lemma FmtTickerNotIdempotent(q: char, c: char, w: string)
    requires IsQuote(q) && IsSpace(c) && NoQuote(w) && NoSpace(w)
    ensures FmtTicker([q, c] + w + [c, q]) == [c] + Upper(w) + [c]
    ensures FmtTicker(FmtTicker([q, c] + w + [c, q])) == Upper(w)
    ensures FmtTicker(FmtTicker([q, c] + w + [c, q])) != FmtTicker([q, c] + w + [c, q])
  {
    QuotedSpacesFmt(q, c, w);
    UpperKeepsNoSpace(w);
    FmtTickerSpacedFixed(c, Upper(w));
  }

  lemma QuotedSpacesFmt(q: char, c: char, w: string)
    requires IsQuote(q) && IsSpace(c) && NoQuote(w)
    ensures FmtTicker([q, c] + w + [c, q]) == [c] + Upper(w) + [c]
  {
    QuotedSpacesUnquote(q, c, w);
    FmtTickerFromUnquoted([q, c] + w + [c, q], [c] + w + [c]);
    UpperSurrounded(c, w);
  }

  lemma FmtTickerFromUnquoted(x: string, y: string)
    requires Unquote(Strip(x)) == y
    ensures FmtTicker(x) == Upper(y)
  {
  }

  lemma UpperSurrounded(c: char, w: string)
    requires IsSpace(c)
    ensures Upper([c] + w + [c]) == [c] + Upper(w) + [c]
  {
  }

  lemma QuotedSpacesUnquote(q: char, c: char, w: string)
    requires IsQuote(q) && IsSpace(c) && NoQuote(w)
    ensures Unquote(Strip([q, c] + w + [c, q])) == [c] + w + [c]
  {
    QuotedSpacesStrip(q, c, w);
    UnquoteSpaced(q, c, w);
  }

  lemma QuotedSpacesStrip(q: char, c: char, w: string)
    requires IsQuote(q)
    ensures Strip([q, c] + w + [c, q]) == [q] + ([c] + w + [c]) + [q]
  {
    assert [q, c] + w + [c, q] == [q] + ([c] + w + [c]) + [q];
    QuoteEndsTrimmed(q, [c] + w + [c]);
  }

  lemma UnquoteSpaced(q: char, c: char, w: string)
    requires IsQuote(q) && IsSpace(c) && NoQuote(w)
    ensures Unquote([q] + ([c] + w + [c]) + [q]) == [c] + w + [c]
  {
    UnquoteSurroundingQuotes(q, [c] + w + [c]);
    UnquoteNoQuote([c] + w + [c]);
  }

  lemma FmtTickerSpacedFixed(c: char, u: string)
    requires IsSpace(c) && NoQuote(u) && NoLower(u) && NoSpace(u)
    ensures FmtTicker([c] + u + [c]) == u
  {
    StripSurroundingSpace(c, u);
    StripTrimmed(u);
    UnquoteNoQuote(u);
    UpperOfNoLower(u);
  }

  lemma QuoteEndsTrimmed(q: char, s: string)
    requires IsQuote(q)
    ensures Strip([q] + s + [q]) == [q] + s + [q]
  {
    StripTrimmed([q] + s + [q]);
  }

  /** Quotes inside surrounding whitespace are removed:
      fmt_ticker(" 'aapl' ") == "AAPL". */
  lemma FmtTickerSpacedQuotes(c: char, q: char, w: string)
    requires IsQuote(q) && IsSpace(c) && NoQuote(w)
    ensures FmtTicker([c, q] + w + [q, c]) == Upper(w)
  {
    SpacedQuotesStrip(c, q, w);
    UnquoteSurroundingQuotes(q, w);
    UnquoteNoQuote(w);
  }

  lemma SpacedQuotesStrip(c: char, q: char, w: string)
    requires IsQuote(q) && IsSpace(c)
    ensures Strip([c, q] + w + [q, c]) == [q] + w + [q]
  {
    SpacedShape(c, q, w);
    StripSurroundingSpace(c, [q] + w + [q]);
    QuoteEndsTrimmed(q, w);
  }

  lemma SpacedShape(c: char, q: char, w: string)
    ensures [c, q] + w + [q, c] == [c] + ([q] + w + [q]) + [c]
  {
  }

  /** A formatted ticker without surrounding whitespace is a fixed point;
      in particular the market ticker passes through unchanged. */
  lemma FmtTickerFixed(w: string)
    requires Trimmed(w) && NoQuote(w) && NoLower(w)
    ensures FmtTicker(w) == w
  {
    StripTrimmed(w);
    UnquoteNoQuote(w);
    UpperOfNoLower(w);
  }

  lemma FmtTickerMarket()
    ensures FmtTicker(Market) == Market
  {
    FmtTickerFixed(Market);
  }

  // ---------------------------------------------------------------------------
  // str_to_float
  // ---------------------------------------------------------------------------

  /** The cleaning step of str_to_float: remove every '"', then every '\'',
      then strip. */
  function CleanNumber(value: string): (r: string)
    ensures NoQuote(r) && Trimmed(r)
  {
    StripKeepsNoQuote(Unquote(value));
    Strip(Unquote(value))
  }

  lemma CleanNumberIdempotent(value: string)
    ensures CleanNumber(CleanNumber(value)) == CleanNumber(value)
  {
    var c := CleanNumber(value);
    UnquoteNoQuote(c);
    StripTrimmed(c);
  }

  /** str_to_float: pd.to_numeric (the parameter parse) applied to the cleaned
      cell; a failed parse is None, never an exception. */
  function StrToFloat(value: string, parse: string -> Option<real>): (r: Option<real>)
  {
    parse(CleanNumber(value))
  }

  /** Quotes wrapped around a cell, with or without whitespace inside them,
      and a cell that is already clean, give what the bare cell gives. */
  lemma StrToFloatIgnoresQuotes(value: string, q: char, parse: string -> Option<real>)
    requires IsQuote(q)
    ensures StrToFloat([q] + value + [q], parse) == StrToFloat(value, parse)
    ensures StrToFloat(CleanNumber(value), parse) == StrToFloat(value, parse)
  {
    UnquoteConcat([q] + value, [q]);
    UnquoteConcat([q], value);
    UnquoteQuote(q);
    assert Unquote([q] + value + [q]) == Unquote(value);
    CleanNumberIdempotent(value);
  }

  /** Whitespace inside quotes is stripped after the quotes are removed:
      the cleaned form of "' 1.5 '" is "1.5". */
  lemma CleanNumberQuotedPadding(q: char, c: char, w: string)
    requires IsQuote(q) && IsSpace(c) && NoQuote(w) && Trimmed(w)
    ensures CleanNumber([q, c] + w + [c, q]) == w
  {
    var inner := [c] + w + [c];
    assert [q, c] + w + [c, q] == [q] + inner + [q];
    UnquoteSurroundingQuotes(q, inner);
    UnquoteNoQuote(inner);
    StripSurroundingSpace(c, w);
    StripTrimmed(w);
  }
}

/** ASCII views of the Python string operations the pipeline uses:
    str.isspace, str.strip, str.lower, str.upper, str.replace(c, ''),
    str.split() with no argument, str.join and the ordering of str. */
module Text {

  /** Python's str.isspace restricted to ASCII: TAB, LF, VT, FF, CR, the four
      separators 0x1C..0x1F, and SPACE. */
  predicate IsSpace(c: char) {
    c == ' ' || 9 <= c as int <= 13 || 28 <= c as int <= 31
  }

  predicate IsUpper(c: char) {
    'A' <= c <= 'Z'
  }

  predicate IsLower(c: char) {
    'a' <= c <= 'z'
  }

  predicate IsQuote(c: char) {
    c == '"' || c == '\''
  }

  predicate NoSpace(s: string) {
    forall i :: 0 <= i < |s| ==> !IsSpace(s[i])
  }

  predicate AllSpace(s: string) {
    forall i :: 0 <= i < |s| ==> IsSpace(s[i])
  }

  predicate NoUpper(s: string) {
    forall i :: 0 <= i < |s| ==> !IsUpper(s[i])
  }

  predicate NoLower(s: string) {
    forall i :: 0 <= i < |s| ==> !IsLower(s[i])
  }

  predicate NoQuote(s: string) {
    forall i :: 0 <= i < |s| ==> !IsQuote(s[i])
  }

  /** The string has no whitespace at either end (what str.strip leaves). */
  predicate Trimmed(s: string) {
    s == [] || (!IsSpace(s[0]) && !IsSpace(s[|s| - 1]))
  }

  // ---------------------------------------------------------------------------
  // Case mapping
  // ---------------------------------------------------------------------------

  function LowerChar(c: char): (d: char)
    ensures !IsUpper(d)
    ensures IsSpace(d) == IsSpace(c) && IsQuote(d) == IsQuote(c)
    ensures IsLower(c) ==> d == c
    ensures !IsUpper(c) ==> d == c
  {
    if IsUpper(c) then (c as int + 32) as char else c
  }

  function UpperChar(c: char): (d: char)
    ensures !IsLower(d)
    ensures IsSpace(d) == IsSpace(c) && IsQuote(d) == IsQuote(c)
    ensures !IsLower(c) ==> d == c
  {
    if IsLower(c) then (c as int - 32) as char else c
  }

  /** str.lower on ASCII letters; every other character is kept. */
  function Lower(s: string): (r: string)
    ensures |r| == |s| && NoUpper(r)
    ensures forall i :: 0 <= i < |s| ==> r[i] == LowerChar(s[i])
  {
    seq(|s|, i requires 0 <= i < |s| => LowerChar(s[i]))
  }

  /** str.upper on ASCII letters; every other character is kept. */
  function Upper(s: string): (r: string)
    ensures |r| == |s| && NoLower(r)
    ensures forall i :: 0 <= i < |s| ==> r[i] == UpperChar(s[i])
  {
    seq(|s|, i requires 0 <= i < |s| => UpperChar(s[i]))
  }

  lemma LowerOfNoUpper(s: string)
    requires NoUpper(s)
    ensures Lower(s) == s
  {
  }

  lemma UpperOfNoLower(s: string)
    requires NoLower(s)
    ensures Upper(s) == s
  {
  }

  lemma UpperKeepsNoSpace(s: string)
    ensures NoSpace(s) ==> NoSpace(Upper(s))
    ensures NoQuote(s) ==> NoQuote(Upper(s))
  {
  }

  /** Lower-casing loses no information on a string without lower-case letters,
      so the labels of distinct tickers stay distinct. */
  lemma LowerInjective(a: string, b: string)
    requires NoLower(a) && NoLower(b)
    requires Lower(a) == Lower(b)
    ensures a == b
  {
    assert |a| == |b|;
    forall i | 0 <= i < |a|
      ensures a[i] == b[i]
    {
      assert Lower(a)[i] == Lower(b)[i];
    }
  }

  // ---------------------------------------------------------------------------
  // str.strip
  // ---------------------------------------------------------------------------

  /** str.lstrip(): drop the leading whitespace. */
  function StripLeft(s: string): (r: string)
    ensures |r| <= |s| && r == s[|s| - |r|..]
    ensures r == [] || !IsSpace(r[0])
  {
    if s != [] && IsSpace(s[0]) then StripLeft(s[1..]) else s
  }

  /** str.rstrip(): drop the trailing whitespace. */
  function StripRight(s: string): (r: string)
    ensures |r| <= |s| && r == s[..|r|]
    ensures r == [] || !IsSpace(r[|r| - 1])
  {
    if s != [] && IsSpace(s[|s| - 1]) then StripRight(s[..|s| - 1]) else s
  }

  /** str.strip(): drop the whitespace at both ends; what is left is a
      contiguous piece of the input. */
  function Strip(s: string): (r: string)
    ensures Trimmed(r) && |r| <= |s|
  {
    var l := StripLeft(s);
    var r := StripRight(l);
    assert r != [] ==> r[0] == l[0];
    r
  }

  /** The stripped string is the piece of the input after its leading whitespace. */
  lemma StripSlice(s: string)
    ensures var k := |s| - |StripLeft(s)|; k + |Strip(s)| <= |s| && Strip(s) == s[k..k + |Strip(s)|]
  {
  }

  lemma StripTrimmed(s: string)
    requires Trimmed(s)
    ensures Strip(s) == s
  {
  }

  lemma StripIdempotent(s: string)
    ensures Strip(Strip(s)) == Strip(s)
  {
    StripTrimmed(Strip(s));
  }

  /** A whitespace character in front is stripped away. */
  lemma StripSpaceLeft(c: char, s: string)
    requires IsSpace(c)
    ensures Strip([c] + s) == Strip(s)
  {
    assert ([c] + s)[1..] == s;
  }

  lemma {:induction false} StripLeftAppend(s: string, c: char)
    requires IsSpace(c)
    ensures StripLeft(s + [c]) == if StripLeft(s) == [] then [] else StripLeft(s) + [c]
  {
    if s == [] {
      StripLeftSpace(c);
    } else if IsSpace(s[0]) {
      assert (s + [c])[1..] == s[1..] + [c];
      StripLeftAppend(s[1..], c);
    }
  }

  lemma StripLeftSpace(c: char)
    requires IsSpace(c)
    ensures StripLeft([] + [c]) == []
  {
    assert [] + [c] == [c];
    assert [c][1..] == [];
  }

  /** A whitespace character at the end is stripped away. */
  lemma StripSpaceRight(s: string, c: char)
    requires IsSpace(c)
    ensures Strip(s + [c]) == Strip(s)
  {
    StripLeftAppend(s, c);
    var l := StripLeft(s);
    if l != [] {
      assert (l + [c])[..|l|] == l;
    }
  }

  lemma StripSurroundingSpace(c: char, s: string)
    requires IsSpace(c)
    ensures Strip([c] + s + [c]) == Strip(s)
  {
    Regroup(c, s);
    StripSpaceLeft(c, s + [c]);
    StripSpaceRight(s, c);
  }

  lemma Regroup(c: char, s: string)
    ensures [c] + s + [c] == [c] + (s + [c])
  {
  }

  lemma StripKeepsNoQuote(s: string)
    requires NoQuote(s)
    ensures NoQuote(Strip(s))
  {
    StripSlice(s);
  }

  lemma StripKeepsNoLower(s: string)
    requires NoLower(s)
    ensures NoLower(Strip(s))
  {
    StripSlice(s);
  }

  // ---------------------------------------------------------------------------
  // str.replace(c, '')
  // ---------------------------------------------------------------------------

  /** s.replace(c, ''): every occurrence of c removed, the rest in order. */
  function RemoveChar(s: string, c: char): (r: string)
    ensures c !in r
    ensures forall x :: x in r <==> x in s && x != c
    ensures |r| <= |s|
  {
    if s == [] then []
    else if s[0] == c then RemoveChar(s[1..], c)
    else [s[0]] + RemoveChar(s[1..], c)
  }

  lemma RemoveAbsent(s: string, c: char)
    requires c !in s
    ensures RemoveChar(s, c) == s
  {
    if s != [] {
      RemoveAbsent(s[1..], c);
    }
  }

  /** Removing a character commutes with appending. */
  lemma {:induction false} RemoveConcat(a: string, b: string, c: char)
    ensures RemoveChar(a + b, c) == RemoveChar(a, c) + RemoveChar(b, c)
  {
    if a == [] {
      assert a + b == b;
    } else {
      assert (a + b)[1..] == a[1..] + b;
      RemoveConcat(a[1..], b, c);
    }
  }

  /** The two replace calls that drop quote characters: first every '"',
      then every '\''. */
  function Unquote(s: string): (r: string)
    ensures NoQuote(r) && |r| <= |s|
  {
    RemoveChar(RemoveChar(s, '"'), '\'')
  }

  lemma UnquoteNoQuote(s: string)
    requires NoQuote(s)
    ensures Unquote(s) == s
  {
    assert '"' !in s && '\'' !in s;
    RemoveAbsent(s, '"');
    RemoveAbsent(s, '\'');
  }

  lemma UnquoteConcat(a: string, b: string)
    ensures Unquote(a + b) == Unquote(a) + Unquote(b)
  {
    RemoveConcat(a, b, '"');
    RemoveConcat(RemoveChar(a, '"'), RemoveChar(b, '"'), '\'');
  }

  lemma UnquoteQuote(q: char)
    requires IsQuote(q)
    ensures Unquote([q]) == []
  {
  }

  lemma UnquoteSurroundingQuotes(q: char, s: string)
    requires IsQuote(q)
    ensures Unquote([q] + s + [q]) == Unquote(s)
  {
    UnquoteConcat([q] + s, [q]);
    UnquoteConcat([q], s);
    UnquoteQuote(q);
  }

  // ---------------------------------------------------------------------------
  // str.split() and str.join
  // ---------------------------------------------------------------------------

  /** Length of the longest prefix without whitespace. */
  function WordLen(s: string): (n: nat)
    ensures n <= |s| && NoSpace(s[..n])
    ensures n < |s| ==> IsSpace(s[n])
  {
    if s == [] || IsSpace(s[0]) then 0 else 1 + WordLen(s[1..])
  }

  /** str.split() with no argument: the maximal runs of non-whitespace, in order;
      leading, trailing and repeated whitespace produce no empty words. */
  function Words(s: string): (ws: seq<string>)
    ensures forall k :: 0 <= k < |ws| ==> ws[k] != [] && NoSpace(ws[k])
    ensures NoUpper(s) ==> forall k :: 0 <= k < |ws| ==> NoUpper(ws[k])
    decreases |s|
  {
    if s == [] then []
    else if IsSpace(s[0]) then Words(s[1..])
    else
      var n := WordLen(s);
      [s[..n]] + Words(s[n..])
  }

  lemma WordsOfWord(s: string)
    requires s != [] && NoSpace(s)
    ensures Words(s) == [s]
  {
    assert WordLen(s) == |s|;
    assert s[..|s|] == s;
    assert s[|s|..] == [];
  }

  lemma WordsSpaceLeft(c: char, s: string)
    requires IsSpace(c)
    ensures Words([c] + s) == Words(s)
  {
    assert ([c] + s)[1..] == s;
  }

  lemma {:induction false} WordsSpacePrefix(gap: string, s: string)
    requires AllSpace(gap)
    ensures Words(gap + s) == Words(s)
  {
    if gap == [] {
      assert gap + s == s;
    } else {
      assert gap + s == [gap[0]] + (gap[1..] + s);
      WordsSpaceLeft(gap[0], gap[1..] + s);
      WordsSpacePrefix(gap[1..], s);
    }
  }

  lemma {:induction false} WordLenOfWord(w: string, x: string)
    requires NoSpace(w)
    ensures WordLen(w + x) == |w| + WordLen(x)
  {
    if w == [] {
      assert w + x == x;
    } else {
      assert (w + x)[1..] == w[1..] + x;
      WordLenOfWord(w[1..], x);
    }
  }

  /** A word followed by whitespace is split off as the first word. */
  lemma WordsWordThenSpace(w: string, c: char, s: string)
    requires w != [] && NoSpace(w) && IsSpace(c)
    ensures Words(w + [c] + s) == [w] + Words(s)
  {
    var x := w + [c] + s;
    assert x == w + ([c] + s);
    WordLenOfWord(w, [c] + s);
    assert x[..|w|] == w;
    assert x[|w|..] == [c] + s;
    WordsSpaceLeft(c, s);
  }

  /** Two words separated by a run of whitespace split into exactly those words. */
  lemma WordsTwo(a: string, gap: string, b: string)
    requires a != [] && NoSpace(a) && b != [] && NoSpace(b)
    requires gap != [] && AllSpace(gap)
    ensures Words(a + gap + b) == [a, b]
  {
    SplitGap(a, gap, b);
    WordsWordThenSpace(a, gap[0], gap[1..] + b);
    WordsRest(gap[1..], b);
  }

  lemma SplitGap(a: string, gap: string, b: string)
    requires gap != []
    ensures a + gap + b == a + [gap[0]] + (gap[1..] + b)
  {
    assert gap == [gap[0]] + gap[1..];
  }

  lemma WordsRest(gap: string, b: string)
    requires b != [] && NoSpace(b) && AllSpace(gap)
    ensures Words(gap + b) == [b]
  {
    WordsSpacePrefix(gap, b);
    WordsOfWord(b);
  }

  lemma LowerKeepsSpaces(s: string)
    ensures NoSpace(s) ==> NoSpace(Lower(s))
    ensures AllSpace(s) ==> AllSpace(Lower(s))
  {
  }

  lemma LowerConcat(a: string, b: string)
    ensures Lower(a + b) == Lower(a) + Lower(b)
  {
  }

  /** sep.join(ws) */
  function Join(ws: seq<string>, sep: string): (r: string)
    ensures NoSpace(sep) && (forall k :: 0 <= k < |ws| ==> NoSpace(ws[k])) ==> NoSpace(r)
    ensures NoUpper(sep) && (forall k :: 0 <= k < |ws| ==> NoUpper(ws[k])) ==> NoUpper(r)
  {
    if ws == [] then []
    else if |ws| == 1 then ws[0]
    else ws[0] + sep + Join(ws[1..], sep)
  }

  // ---------------------------------------------------------------------------
  // The ordering of str (code-point lexicographic, a prefix sorts first)
  // ---------------------------------------------------------------------------

  predicate StrLt(a: string, b: string) {
    if a == [] then b != []
    else if b == [] then false
    else a[0] < b[0] || (a[0] == b[0] && StrLt(a[1..], b[1..]))
  }

  lemma {:induction false} StrLtIrreflexive(a: string)
    ensures !StrLt(a, a)
  {
    if a != [] {
      StrLtIrreflexive(a[1..]);
    }
  }

  lemma {:induction false} StrLtTransitive(a: string, b: string, c: string)
    requires StrLt(a, b) && StrLt(b, c)
    ensures StrLt(a, c)
  {
    if a != [] && b != [] && c != [] && a[0] == b[0] == c[0] {
      StrLtTransitive(a[1..], b[1..], c[1..]);
    }
  }

  lemma {:induction false} StrLtTotal(a: string, b: string)
    requires a != b
    ensures StrLt(a, b) || StrLt(b, a)
  {
    if a != [] && b != [] && a[0] == b[0] {
      assert a == [a[0]] + a[1..] && b == [b[0]] + b[1..];
      StrLtTotal(a[1..], b[1..]);
    }
  }

  lemma {:induction false} StrLtAsymmetric(a: string, b: string)
    requires StrLt(a, b)
    ensures !StrLt(b, a)
  {
    if a != [] && b != [] && a[0] == b[0] {
      StrLtAsymmetric(a[1..], b[1..]);
    }
  }
}

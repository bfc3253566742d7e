/**
 * Counting the entries of a '|'-separated text column (genres, director, cast):
 * the column's texts are joined with '|', the result is split on '|', and the
 * pieces are counted, most frequent first.
 */
module Tokens {
  import opened Wrappers
  import opened Data
  import opened Seqs

  const SEPARATOR: char := '|'

  /** Python's `s.split(d)` with an explicit one-character separator: never empty, pieces free of d. */
  function Split(s: string, d: char): (r: seq<string>)
    ensures |r| >= 1
    ensures forall i :: 0 <= i < |r| ==> d !in r[i]
    decreases |s|
  {
    if |s| == 0 then [""]
    else
      var rest := Split(s[1..], d);
      if s[0] == d then [""] + rest
      else [[s[0]] + rest[0]] + rest[1..]
  }

  /** Python's `d.join(xs)` and pandas' `str.cat(sep = d)` over the texts xs. */
  function Join(xs: seq<string>, d: char): (r: string)
    ensures |xs| > 0 ==> |r| == Length(xs) + |xs| - 1
    ensures |xs| == 0 ==> r == ""
    decreases |xs|
  {
    if |xs| == 0 then ""
    else if |xs| == 1 then xs[0]
    else xs[0] + [d] + Join(xs[1..], d)
  }

  /** The total length of the texts. */
  function Length(xs: seq<string>): nat
    decreases |xs|
  {
    if |xs| == 0 then 0 else |xs[0]| + Length(xs[1..])
  }

  function Flatten(xss: seq<seq<string>>): seq<string>
    decreases |xss|
  {
    if |xss| == 0 then [] else xss[0] + Flatten(xss[1..])
  }

  function SplitEach(xs: seq<string>, d: char): seq<seq<string>> {
    seq(|xs|, i requires 0 <= i < |xs| => Split(xs[i], d))
  }

  /** Splitting at a separator splits the two sides independently. */
  lemma {:induction false} SplitAppend(a: string, b: string, d: char)
    ensures Split(a + [d] + b, d) == Split(a, d) + Split(b, d)
    decreases |a|
  {
    if |a| == 0 {
      assert a + [d] + b == [d] + b;
      assert ([d] + b)[1..] == b;
    } else {
      assert (a + [d] + b)[1..] == a[1..] + [d] + b;
      SplitAppend(a[1..], b, d);
    }
  }

  /** Joining what was split gives back the text. */
  lemma {:induction false} JoinSplit(s: string, d: char)
    ensures Join(Split(s, d), d) == s
    decreases |s|
  {
    if |s| > 0 {
      var rest := Split(s[1..], d);
      JoinSplit(s[1..], d);
      if s[0] == d {
        assert ([""] + rest)[1..] == rest;
      } else {
        var r := [[s[0]] + rest[0]] + rest[1..];
        assert r[1..] == rest[1..];
        if |rest| > 1 {
          assert Join(rest, d) == rest[0] + [d] + Join(rest[1..], d);
        }
      }
      assert s == [s[0]] + s[1..];
    }
  }

  /** The pieces of a joined text are the pieces of its parts, in order. */
  lemma {:induction false} SplitJoin(xs: seq<string>, d: char)
    requires |xs| >= 1
    ensures Split(Join(xs, d), d) == Flatten(SplitEach(xs, d))
    decreases |xs|
  {
    if |xs| == 1 {
      assert Flatten(SplitEach(xs, d)) == Split(xs[0], d) + Flatten([]);
    } else {
      SplitJoin(xs[1..], d);
      SplitAppend(xs[0], Join(xs[1..], d), d);
      assert SplitEach(xs, d)[1..] == SplitEach(xs[1..], d);
    }
  }

  /** A text without the separator is a single piece. */
  lemma {:induction false} SplitPlain(s: string, d: char)
    requires d !in s
    ensures Split(s, d) == [s]
    decreases |s|
  {
    if |s| > 0 {
      assert d !in s[1..];
      SplitPlain(s[1..], d);
      assert s == [s[0]] + s[1..];
    }
  }

  /** Texts free of the separator survive a join followed by a split. */
  lemma {:induction false} SplitJoinPlain(xs: seq<string>, d: char)
    requires |xs| >= 1
    requires forall i :: 0 <= i < |xs| ==> d !in xs[i]
    ensures Split(Join(xs, d), d) == xs
    decreases |xs|
  {
    if |xs| == 1 {
      SplitPlain(xs[0], d);
    } else {
      SplitPlain(xs[0], d);
      SplitJoinPlain(xs[1..], d);
      SplitAppend(xs[0], Join(xs[1..], d), d);
      assert xs == [xs[0]] + xs[1..];
    }
  }

  /** How often each token occurs. */
  function CountIn(tokens: seq<string>): string -> int {
    x => multiset(tokens)[x]
  }

  /**
   * r is what `pd.Series(tokens).value_counts(ascending = False)` returns: each distinct
   * token once, with the number of times it occurs, most frequent first; the counts add
   * up to the number of tokens. Among tokens with equal counts no order is promised.
   */
  ghost predicate IsValueCounts(tokens: seq<string>, r: Series<string>) {
    && |r.index| == |r.values|
    && Distinct(r.index)
    && (forall x :: x in r.index <==> x in tokens)
    && (forall i :: 0 <= i < |r.index| ==> r.values[i] == multiset(tokens)[r.index[i]] && r.values[i] > 0)
    && (forall i, j :: 0 <= i < j < |r.values| ==> r.values[i] >= r.values[j])
    && Sum(r.values) == |tokens|
  }

  function ValueCounts(tokens: seq<string>): (r: Series<string>)
    ensures IsValueCounts(tokens, r)
  {
    var index := SortDesc(Unique(tokens), CountIn(tokens));
    IndexOfSorted(tokens, index);
    var values := seq(|index|, i requires 0 <= i < |index| => multiset(tokens)[index[i]]);
    CountsOfIndex(tokens, index, values);
    Series(index, values)
  }

  /** Sorted distinct tokens: each token once, most frequent first. */
  lemma IndexOfSorted(tokens: seq<string>, index: seq<string>)
    requires index == SortDesc(Unique(tokens), CountIn(tokens))
    ensures Distinct(index)
    ensures forall x :: x in index <==> x in tokens
    ensures NonIncreasing(index, CountIn(tokens))
  {
    var distinct := Unique(tokens);
    PermutationKeepsDistinct(index, distinct);
    assert forall x :: x in index <==> x in multiset(distinct);
  }

  /** Counting along an index of each token once, in order of frequency, is a value count. */
  lemma CountsOfIndex(tokens: seq<string>, index: seq<string>, values: seq<int>)
    requires Distinct(index)
    requires forall x :: x in index <==> x in tokens
    requires NonIncreasing(index, CountIn(tokens))
    requires values == seq(|index|, i requires 0 <= i < |index| => multiset(tokens)[index[i]])
    ensures IsValueCounts(tokens, Series(index, values))
  {
    assert forall i, j :: 0 <= i < j < |index| ==> CountIn(tokens)(index[i]) >= CountIn(tokens)(index[j]);
    assert forall i :: 0 <= i < |index| ==> index[i] in tokens;
    assert forall i :: 0 <= i < |tokens| ==> tokens[i] in index;
    CountsAreTotals(tokens, index, values);
  }

  /** The counts of distinct tokens covering all tokens add up to the number of tokens. */
  lemma CountsAreTotals(tokens: seq<string>, index: seq<string>, values: seq<int>)
    requires Distinct(index)
    requires forall i :: 0 <= i < |tokens| ==> tokens[i] in index
    requires |values| == |index|
    requires forall i :: 0 <= i < |index| ==> values[i] == multiset(tokens)[index[i]]
    ensures Sum(values) == |tokens|
  {
    forall i | 0 <= i < |index|
      ensures values[i] == SumWhere(tokens, Ones(|tokens|), index[i])
    {
      SumWhereOfOnes(tokens, index[i]);
    }
    assert values == Totals(tokens, Ones(|tokens|), index);
    TotalsSum(tokens, Ones(|tokens|), index);
    SumOfOnes(|tokens|);
  }

  /** Every cell of column c is text or missing, as pandas' `.str` accessor demands. */
  predicate TextColumn(rows: seq<Row>, c: string) {
    forall i :: 0 <= i < |rows| ==> c in rows[i] && (rows[i][c].Str? || rows[i][c].Missing?)
  }

  /** The texts of column c in row order, skipping missing cells as `str.cat` does. */
  function Texts(rows: seq<Row>, c: string): (r: seq<string>)
    ensures |r| <= |rows|
    ensures TextColumn(rows, c) && (forall i :: 0 <= i < |rows| ==> !rows[i][c].Missing?) ==>
      |r| == |rows| && forall i :: 0 <= i < |rows| ==> r[i] == rows[i][c].s
    decreases |rows|
  {
    if |rows| == 0 then []
    else TextOf(rows[0], c) + Texts(rows[1..], c)
  }

  /** The text `str.cat` takes from one row: its cell in column c unless that is NaN. */
  function TextOf(row: Row, c: string): (r: seq<string>)
    ensures |r| <= 1
    ensures |r| == 1 <==> c in row && row[c].Str?
    ensures |r| == 1 ==> r[0] == row[c].s
  {
    if c in row && row[c].Str? then [row[c].s] else []
  }

  /** The texts of a run of rows followed by another are the texts of each, in order. */
  lemma {:induction false} TextsAppend(a: seq<Row>, b: seq<Row>, c: string)
    ensures Texts(a + b, c) == Texts(a, c) + Texts(b, c)
    decreases |a|
  {
    if |a| == 0 {
      assert a + b == b;
    } else {
      assert (a + b)[1..] == a[1..] + b;
      TextsAppend(a[1..], b, c);
    }
  }

  /** One row contributes its text, or nothing when the cell is NaN. */
  lemma TextsOfRow(row: Row, c: string)
    ensures Texts([row], c) == TextOf(row, c)
    ensures TextColumn([row], c) && row[c].Missing? ==> Texts([row], c) == []
  {
    assert [row][1..] == [];
  }

  /**
   * The tokens of column c: its texts joined with the separator, then split on it.
   * There is always at least one, none holds the separator, and with at least one
   * text they are the pieces of each movie's text, movie by movie.
   */
  function ColumnTokens(rows: seq<Row>, c: string): (r: seq<string>)
    ensures |r| >= 1
    ensures forall i :: 0 <= i < |r| ==> SEPARATOR !in r[i]
    ensures |Texts(rows, c)| >= 1 ==> r == Flatten(SplitEach(Texts(rows, c), SEPARATOR))
  {
    var texts := Texts(rows, c);
    if |texts| >= 1 then SplitJoin(texts, SEPARATOR); Split(Join(texts, SEPARATOR), SEPARATOR)
    else Split(Join(texts, SEPARATOR), SEPARATOR)
  }

  /**
   * `count_genre` and its two copies: counts the tokens of column c, raising when c is
   * not a column or holds something other than text.
   */
  function CountTokens(t: Table, c: string): (r: Result<Series<string>, Error>)
    ensures r.Success? <==> c in t.columns && TextColumn(t.rows, c)
    ensures r.Failure? ==> r.error == if c !in t.columns then KeyError(c) else NotText(c)
    ensures r.Success? ==> r.value == ValueCounts(ColumnTokens(t.rows, c))
  {
    if c !in t.columns then Failure(KeyError(c))
    else if !TextColumn(t.rows, c) then Failure(NotText(c))
    else Success(ValueCounts(ColumnTokens(t.rows, c)))
  }

  /** No token ever contains the separator. */
  lemma TokensHaveNoSeparator(t: Table, c: string)
    requires CountTokens(t, c).Success?
    ensures forall i :: 0 <= i < |CountTokens(t, c).value.index| ==> SEPARATOR !in CountTokens(t, c).value.index[i]
  {
    var tokens := ColumnTokens(t.rows, c);
    var index := CountTokens(t, c).value.index;
    forall i | 0 <= i < |index|
      ensures SEPARATOR !in index[i]
    {
      assert index[i] in tokens;
    }
  }

  /** One token is counted once. */
  lemma ValueCountsOfOne(x: string)
    ensures ValueCounts([x]) == Series([x], [1])
  {
    UniqueOfDistinct([x]);
    assert [x][1..] == [];
    assert SortDesc([x], CountIn([x])) == [x];
    assert multiset([x])[x] == 1;
  }

  /** A column with no text at all yields one empty token counted once, as `"".split('|')` does. */
  lemma EmptyColumnCounts(t: Table, c: string)
    requires c in t.columns && TextColumn(t.rows, c)
    requires Texts(t.rows, c) == []
    ensures CountTokens(t, c) == Success(Series([""], [1]))
  {
    assert ColumnTokens(t.rows, c) == [""];
    ValueCountsOfOne("");
  }
}

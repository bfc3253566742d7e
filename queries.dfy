/**
 * The read-only questions the notebook asks of the wrangled table: the most
 * profitable movies, the rows with the largest and smallest budget and revenue,
 * and total profit per release year. Only integer-valued columns are queried.
 */
module Queries {
  import opened Wrappers
  import opened Data
  import opened Seqs
  import opened Wrangling

  /** The exception a query over column c raises, if any. */
  function CheckIntColumn(t: Table, c: string): (r: Outcome<Error>)
    ensures r.Pass? <==> c in t.columns && IsIntColumn(t.rows, c)
    ensures c !in t.columns ==> r == Fail(KeyError(c))
    ensures c in t.columns && !IsIntColumn(t.rows, c) ==> r == Fail(NotIntegral(c))
  {
    if c !in t.columns then Fail(KeyError(c))
    else if !IsIntColumn(t.rows, c) then Fail(NotIntegral(c))
    else Pass
  }

  function Min(a: int, b: int): int {
    if a <= b then a else b
  }

  /** The sort key for column c. */
  function KeyOf(c: string): Row -> int {
    row => IntAt(row, c)
  }

  /**
   * r is a possible `head(n)` of rows sorted on c, descending: min(n, row count) of the
   * rows, in non-increasing order of c, and no row left out has a larger c than the
   * last one taken.
   */
  ghost predicate IsTop(rows: seq<Row>, c: string, n: nat, r: seq<Row>) {
    && |r| == Min(n, |rows|)
    && multiset(r) <= multiset(rows)
    && NonIncreasing(r, KeyOf(c))
    && (|r| > 0 ==> forall x :: x in multiset(rows) - multiset(r) ==> IntAt(x, c) <= IntAt(r[|r| - 1], c))
  }

  /** The first min(n, row count) rows of the rows sorted on c are a top n. */
  lemma TopOfSorted(rows: seq<Row>, sorted: seq<Row>, c: string, n: nat)
    requires NonIncreasing(sorted, KeyOf(c))
    requires multiset(sorted) == multiset(rows)
    requires |sorted| == |rows|
    ensures IsTop(rows, c, n, sorted[..Min(n, |rows|)])
  {
    var k := Min(n, |rows|);
    assert forall i, j :: 0 <= i < j < k ==> KeyOf(c)(sorted[i]) >= KeyOf(c)(sorted[j]);
    if k > 0 {
      SortedPrefix(sorted, KeyOf(c), k);
      forall x | x in multiset(rows) - multiset(sorted[..k])
        ensures IntAt(x, c) <= IntAt(sorted[k - 1], c)
      {
        assert x in multiset(sorted[k..]);
        var j :| 0 <= j < |sorted[k..]| && sorted[k..][j] == x;
        assert KeyOf(c)(sorted[k + j]) <= KeyOf(c)(sorted[k - 1]);
      }
    }
  }

  /**
   * `df.sort_values([c], ascending = False).head(n)`: raises when c is not an integer
   * column, and otherwise is a top n by c. Among rows with equal c no order is promised.
   */
  function TopBy(t: Table, c: string, n: nat): (r: Result<seq<Row>, Error>)
    ensures r.Success? <==> CheckIntColumn(t, c).Pass?
    ensures r.Failure? ==> r.error == CheckIntColumn(t, c).error
    ensures r.Success? ==> IsTop(t.rows, c, n, r.value)
  {
    match CheckIntColumn(t, c)
    case Fail(e) => Failure(e)
    case Pass =>
      var sorted := SortDesc(t.rows, KeyOf(c));
      TopOfSorted(t.rows, sorted, c, n);
      Success(sorted[..Min(n, |t.rows|)])
  }

  const TOP_COUNT: nat := 10
  const RELEASE_YEAR := "release_year"

  /** The notebook's ten most profitable movies. */
  function TopTenByProfit(t: Table): (r: Result<seq<Row>, Error>)
    ensures r.Success? <==> CheckIntColumn(t, PROFIT).Pass?
    ensures r.Success? ==> |r.value| <= TOP_COUNT && IsTop(t.rows, PROFIT, TOP_COUNT, r.value)
  {
    TopBy(t, PROFIT, TOP_COUNT)
  }

  /** The first position holding the largest value. */
  function ArgMax(s: seq<int>): (k: nat)
    requires |s| > 0
    ensures k < |s|
    ensures forall j :: 0 <= j < |s| ==> s[j] <= s[k]
    ensures forall j :: 0 <= j < k ==> s[j] < s[k]
    decreases |s|
  {
    if |s| == 1 then 0
    else
      var k := ArgMax(s[..|s| - 1]);
      if s[|s| - 1] > s[k] then |s| - 1 else k
  }

  /** The first position holding the smallest value. */
  function ArgMin(s: seq<int>): (k: nat)
    requires |s| > 0
    ensures k < |s|
    ensures forall j :: 0 <= j < |s| ==> s[k] <= s[j]
    ensures forall j :: 0 <= j < k ==> s[k] < s[j]
    decreases |s|
  {
    if |s| == 1 then 0
    else
      var k := ArgMin(s[..|s| - 1]);
      if s[|s| - 1] < s[k] then |s| - 1 else k
  }

  /**
   * `df[c].idxmax()`: the position of the first row whose c is at least every row's c;
   * raises when c is not a column or the table has no rows. `df.loc` of it is that row.
   */
  function IdxMax(t: Table, c: string): (r: Result<nat, Error>)
    ensures r.Success? <==> CheckIntColumn(t, c).Pass? && |t.rows| > 0
    ensures r.Failure? ==> r.error == if CheckIntColumn(t, c).Fail? then CheckIntColumn(t, c).error else EmptyColumn(c)
    ensures r.Success? ==>
      && r.value < |t.rows|
      && (forall j :: 0 <= j < |t.rows| ==> IntAt(t.rows[j], c) <= IntAt(t.rows[r.value], c))
      && (forall j :: 0 <= j < r.value ==> IntAt(t.rows[j], c) < IntAt(t.rows[r.value], c))
  {
    match CheckIntColumn(t, c)
    case Fail(e) => Failure(e)
    case Pass => if |t.rows| == 0 then Failure(EmptyColumn(c)) else
      var s := Ints(t.rows, c);
      assert forall j :: 0 <= j < |t.rows| ==> s[j] == IntAt(t.rows[j], c);
      Success(ArgMax(s))
  }

  /** `df[c].idxmin()`: as IdxMax, for the first row whose c is at most every row's c. */
  function IdxMin(t: Table, c: string): (r: Result<nat, Error>)
    ensures r.Success? <==> CheckIntColumn(t, c).Pass? && |t.rows| > 0
    ensures r.Failure? ==> r.error == if CheckIntColumn(t, c).Fail? then CheckIntColumn(t, c).error else EmptyColumn(c)
    ensures r.Success? ==>
      && r.value < |t.rows|
      && (forall j :: 0 <= j < |t.rows| ==> IntAt(t.rows[r.value], c) <= IntAt(t.rows[j], c))
      && (forall j :: 0 <= j < r.value ==> IntAt(t.rows[r.value], c) < IntAt(t.rows[j], c))
  {
    match CheckIntColumn(t, c)
    case Fail(e) => Failure(e)
    case Pass => if |t.rows| == 0 then Failure(EmptyColumn(c)) else
      var s := Ints(t.rows, c);
      assert forall j :: 0 <= j < |t.rows| ==> s[j] == IntAt(t.rows[j], c);
      Success(ArgMin(s))
  }

  /** The smallest minimum of a sequence is the largest maximum of its negation. */
  lemma {:induction false} ArgMinIsArgMaxOfNegation(s: seq<int>)
    requires |s| > 0
    ensures ArgMin(s) == ArgMax(seq(|s|, i requires 0 <= i < |s| => -s[i]))
    decreases |s|
  {
    if |s| > 1 {
      var n := |s| - 1;
      var neg := seq(|s|, i requires 0 <= i < |s| => -s[i]);
      assert neg[..n] == seq(n, i requires 0 <= i < n => -s[..n][i]);
      ArgMinIsArgMaxOfNegation(s[..n]);
    }
  }

  ghost predicate StrictlyIncreasing(s: seq<int>) {
    forall i, j :: 0 <= i < j < |s| ==> s[i] < s[j]
  }

  /** The distinct values of a sequence, in ascending order. */
  function SortedKeys(keys: seq<int>): (r: seq<int>)
    ensures StrictlyIncreasing(r)
    ensures forall y :: y in r <==> y in keys
  {
    var distinct := Unique(keys);
    var index := SortDesc(distinct, y => -y);
    PermutationKeepsDistinct(index, distinct);
    assert forall y :: y in index <==> y in multiset(distinct);
    index
  }

  /**
   * `df.groupby(g)[v].sum()`: one entry per distinct value of g, in ascending order;
   * each entry is the sum of v over the rows with that g, so the entries add up to the
   * sum of v over the whole table.
   */
  function GroupSum(t: Table, g: string, v: string): (r: Result<Series<int>, Error>)
    ensures r.Success? <==> CheckIntColumn(t, g).Pass? && CheckIntColumn(t, v).Pass?
    ensures r.Success? ==>
      var keys, vals := Ints(t.rows, g), Ints(t.rows, v);
      && |r.value.index| == |r.value.values|
      && StrictlyIncreasing(r.value.index)
      && (forall y :: y in r.value.index <==> y in keys)
      && (forall i :: 0 <= i < |r.value.index| ==> r.value.values[i] == SumWhere(keys, vals, r.value.index[i]))
      && Sum(r.value.values) == Sum(vals)
  {
    if CheckIntColumn(t, g).Fail? then Failure(CheckIntColumn(t, g).error)
    else if CheckIntColumn(t, v).Fail? then Failure(CheckIntColumn(t, v).error)
    else
      var keys, vals := Ints(t.rows, g), Ints(t.rows, v);
      var index := SortedKeys(keys);
      assert forall i :: 0 <= i < |keys| ==> keys[i] in index;
      TotalsSum(keys, vals, index);
      Success(Series(index, Totals(keys, vals, index)))
  }

  /** The notebook's total profit per release year. */
  function ProfitByYear(t: Table): (r: Result<Series<int>, Error>)
    ensures r.Success? <==> CheckIntColumn(t, RELEASE_YEAR).Pass? && CheckIntColumn(t, PROFIT).Pass?
    ensures r.Success? ==>
      && StrictlyIncreasing(r.value.index)
      && (forall y :: y in r.value.index <==> y in Ints(t.rows, RELEASE_YEAR))
      && Sum(r.value.values) == Sum(Ints(t.rows, PROFIT))
  {
    GroupSum(t, RELEASE_YEAR, PROFIT)
  }

  /** No row of the table beats the head of a top-n list. */
  lemma TopHeadIsMax(rows: seq<Row>, c: string, n: nat, r: seq<Row>, x: Row)
    requires IsTop(rows, c, n, r) && |r| > 0
    requires x in multiset(rows)
    ensures IntAt(x, c) <= IntAt(r[0], c)
  {
    if x in multiset(r) {
      var j :| 0 <= j < |r| && r[j] == x;
      assert j == 0 || IntAt(r[0], c) >= IntAt(r[j], c);
    } else {
      assert x in multiset(rows) - multiset(r);
      assert |r| == 1 || IntAt(r[0], c) >= IntAt(r[|r| - 1], c);
    }
  }

  /** The row heading a top-n list holds the column's largest value, the one idxmax finds. */
  lemma TopStartsAtMax(t: Table, c: string, n: nat)
    requires TopBy(t, c, n).Success? && n > 0 && |t.rows| > 0
    ensures IdxMax(t, c).Success?
    ensures IntAt(TopBy(t, c, n).value[0], c) == IntAt(t.rows[IdxMax(t, c).value], c)
  {
    var r := TopBy(t, c, n).value;
    var m := t.rows[IdxMax(t, c).value];
    assert r[0] in multiset(r);
    assert r[0] in multiset(t.rows);
    TopHeadIsMax(t.rows, c, n, r, m);
  }

  /** Taking at least as many rows as the table has is a sort: every row comes back. */
  lemma TopOfAllIsSorting(t: Table, c: string, n: nat)
    requires TopBy(t, c, n).Success? && n >= |t.rows|
    ensures multiset(TopBy(t, c, n).value) == multiset(t.rows)
  {
    var r := TopBy(t, c, n).value;
    var rest := multiset(t.rows) - multiset(r);
    assert multiset(t.rows) == multiset(r) + rest;
    assert |multiset(t.rows)| == |multiset(r)| + |rest|;
    assert |rest| == 0;
  }

  /**
   * After a successful wrangling run the notebook's queries all have their columns:
   * the top-ten-by-profit query succeeds, and idxmax/idxmin of budget and revenue
   * succeed exactly when rows remain.
   */
  lemma WrangledTableIsQueryable(t: Table)
    requires Wrangle(t).Success?
    ensures TopTenByProfit(Wrangle(t).value).Success?
    ensures IdxMax(Wrangle(t).value, BUDGET).Success? <==> |Wrangle(t).value.rows| > 0
    ensures IdxMin(Wrangle(t).value, BUDGET).Success? <==> |Wrangle(t).value.rows| > 0
    ensures IdxMax(Wrangle(t).value, REVENUE).Success? <==> |Wrangle(t).value.rows| > 0
    ensures IdxMin(Wrangle(t).value, REVENUE).Success? <==> |Wrangle(t).value.rows| > 0
  {
    var u := Wrangle(t).value;
    WrangledTable(t);
    assert PROFIT in u.columns;
    assert IsIntColumn(u.rows, PROFIT) && IsIntColumn(u.rows, BUDGET) && IsIntColumn(u.rows, REVENUE) by {
      forall i | 0 <= i < |u.rows|
        ensures PROFIT in u.rows[i] && u.rows[i][PROFIT].Num?
        ensures BUDGET in u.rows[i] && u.rows[i][BUDGET].Num?
        ensures REVENUE in u.rows[i] && u.rows[i][REVENUE].Num?
      {
        assert WrangledRow(u.rows[i]);
      }
    }
  }
}

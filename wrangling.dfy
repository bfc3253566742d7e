/**
 * The notebook's wrangling cells, in their fixed order: drop the non-descriptive
 * columns, drop duplicate rows, treat zeros as missing and drop incomplete rows,
 * convert budget and revenue to integers, and insert profit as the fourth column.
 */
module Wrangling {
  import opened Wrappers
  import opened Data
  import opened Cleaning
  import Frame

  const DROP_LIST: seq<string> := [
    "id", "imdb_id", "homepage", "tagline", "keywords", "overview",
    "production_companies", "vote_count", "vote_average", "budget_adj", "revenue_adj"
  ]
  const BUDGET := "budget"
  const REVENUE := "revenue"
  const PROFIT := "profit"
  const PROFIT_POSITION: nat := 3

  /** The table the wrangling cells leave behind, or the first exception they raise. */
  function Wrangle(t: Table): (r: Result<Table, Error>)
    ensures r.Success? ==> |r.value.rows| <= |t.rows|
    ensures r.Success? && WellFormed(t) ==> WellFormed(r.value)
  {
    var dropped :- DropColumns(t, DROP_LIST);
    var cleaned := DropNa(ReplaceZeros(DropDuplicates(dropped)));
    var withBudget :- CoerceToInt(cleaned, BUDGET);
    var withRevenue :- CoerceToInt(withBudget, REVENUE);
    InsertDifference(withRevenue, PROFIT_POSITION, PROFIT, REVENUE, BUDGET)
  }

  /**
   * What `df` holds once the wrangling cells have run: the result when none raises,
   * otherwise the table left by the last cell that succeeded.
   */
  function Reached(t: Table): (r: Table)
    ensures Wrangle(t).Success? ==> r == Wrangle(t).value
    ensures DropColumns(t, DROP_LIST).Failure? ==> r == t
    ensures WellFormed(t) ==> WellFormed(r)
  {
    match DropColumns(t, DROP_LIST)
    case Failure(_) => t
    case Success(dropped) =>
      var cleaned := DropNa(ReplaceZeros(DropDuplicates(dropped)));
      match CoerceToInt(cleaned, BUDGET)
      case Failure(_) => cleaned
      case Success(withBudget) =>
        match CoerceToInt(withBudget, REVENUE)
        case Failure(_) => withBudget
        case Success(withRevenue) =>
          match InsertDifference(withRevenue, PROFIT_POSITION, PROFIT, REVENUE, BUDGET)
          case Failure(_) => withRevenue
          case Success(u) => u
  }

  /** The cells run on `df`; a cell that raises stops the run and leaves `df` as the previous cell left it. */
  method Run(df: Frame.DataFrame) returns (res: Outcome<Error>)
    requires df.Valid()
    modifies df
    ensures df.Valid()
    ensures df.View() == Reached(old(df.View()))
    ensures Wrangle(old(df.View())).Success? ==> res.Pass? && df.View() == Wrangle(old(df.View())).value
    ensures Wrangle(old(df.View())).Failure? ==> res == Fail(Wrangle(old(df.View())).error)
  {
    res := df.Drop(DROP_LIST);
    if res.Fail? {
      return;
    }
    df.DropDuplicates();
    df.ReplaceZeros();
    df.DropNa();
    res := df.CoerceToInt(BUDGET);
    if res.Fail? {
      return;
    }
    res := df.CoerceToInt(REVENUE);
    if res.Fail? {
      return;
    }
    res := df.Insert(PROFIT_POSITION, PROFIT, REVENUE, BUDGET);
  }

  /** A row of the wrangled table: no NaN anywhere, integer budget and revenue, profit is their difference. */
  ghost predicate WrangledRow(row: Row) {
    && BUDGET in row && REVENUE in row && PROFIT in row
    && row[BUDGET].Num? && row[REVENUE].Num?
    && row[PROFIT] == Num(row[REVENUE].n - row[BUDGET].n)
    && (forall c :: c in row ==> !row[c].Missing?)
    && (forall c :: c in row && c != BUDGET && c != REVENUE && c != PROFIT ==> !IsZero(row[c]))
  }

  lemma WrangledRowsFromCleaned(cleaned: Table, withRevenue: Table, u: Table)
    requires forall i :: 0 <= i < |cleaned.rows| ==> Complete(cleaned.rows[i])
    requires CoerceToInt(cleaned, BUDGET).Success?
    requires CoerceToInt(CoerceToInt(cleaned, BUDGET).value, REVENUE) == Success(withRevenue)
    requires InsertDifference(withRevenue, PROFIT_POSITION, PROFIT, REVENUE, BUDGET) == Success(u)
    ensures forall i :: 0 <= i < |u.rows| ==> WrangledRow(u.rows[i])
  {
    var withBudget := CoerceToInt(cleaned, BUDGET).value;
    forall i | 0 <= i < |u.rows|
      ensures WrangledRow(u.rows[i])
    {
      WrangledRowFrom(cleaned.rows[i], withBudget.rows[i], withRevenue.rows[i], u.rows[i]);
    }
  }

  /** One row through both conversions and the insert of profit. */
  lemma WrangledRowFrom(cleaned: Row, withBudget: Row, withRevenue: Row, final: Row)
    requires Complete(cleaned)
    requires CoercedRow(cleaned, withBudget, BUDGET)
    requires CoercedRow(withBudget, withRevenue, REVENUE)
    requires final.Keys == withRevenue.Keys + {PROFIT}
    requires REVENUE in withRevenue && BUDGET in withRevenue
    requires Minus(withRevenue[REVENUE], withRevenue[BUDGET]).Some?
    requires final[PROFIT] == Minus(withRevenue[REVENUE], withRevenue[BUDGET]).value
    requires forall c :: c in withRevenue && c != PROFIT ==> final[c] == withRevenue[c]
    ensures WrangledRow(final)
  {
  }

  lemma InsertedColumns(w: Table, loc: nat, name: string, a: string, b: string)
    requires InsertDifference(w, loc, name, a, b).Success?
    ensures forall c :: c in InsertDifference(w, loc, name, a, b).value.columns <==> c in w.columns || c == name
  {
    var u := InsertDifference(w, loc, name, a, b).value;
    assert u.columns == u.columns[..loc] + [name] + u.columns[loc + 1..];
    assert w.columns == w.columns[..loc] + w.columns[loc..];
  }

  /** The intermediate tables of a successful run. */
  lemma WrangleSteps(t: Table) returns (dropped: Table, cleaned: Table, withRevenue: Table)
    requires Wrangle(t).Success?
    ensures DropColumns(t, DROP_LIST) == Success(dropped)
    ensures cleaned == DropNa(ReplaceZeros(DropDuplicates(dropped)))
    ensures CoerceToInt(cleaned, BUDGET).Success?
    ensures CoerceToInt(CoerceToInt(cleaned, BUDGET).value, REVENUE) == Success(withRevenue)
    ensures InsertDifference(withRevenue, PROFIT_POSITION, PROFIT, REVENUE, BUDGET) == Wrangle(t)
  {
    dropped := DropColumns(t, DROP_LIST).value;
    cleaned := DropNa(ReplaceZeros(DropDuplicates(dropped)));
    withRevenue := CoerceToInt(CoerceToInt(cleaned, BUDGET).value, REVENUE).value;
  }

  lemma ProfitIsNotDropped()
    ensures PROFIT !in DROP_LIST
  {
  }

  /**
   * What a successful run leaves: none of the dropped labels is a column, profit is
   * column number 3, every cell is present, every cell outside budget, revenue and profit
   * is non-zero, and in every row profit equals revenue minus budget.
   */
  lemma WrangledTable(t: Table)
    requires Wrangle(t).Success?
    ensures forall i :: 0 <= i < |DROP_LIST| ==> DROP_LIST[i] !in Wrangle(t).value.columns
    ensures |Wrangle(t).value.columns| > PROFIT_POSITION && Wrangle(t).value.columns[PROFIT_POSITION] == PROFIT
    ensures BUDGET in Wrangle(t).value.columns && REVENUE in Wrangle(t).value.columns
    ensures forall i :: 0 <= i < |Wrangle(t).value.rows| ==> WrangledRow(Wrangle(t).value.rows[i])
  {
    var dropped, cleaned, withRevenue := WrangleSteps(t);
    WrangledColumns(t, dropped, withRevenue);
    ZeroCleaningLeavesNoGaps(DropDuplicates(dropped), PROFIT);
    WrangledRowsFromCleaned(cleaned, withRevenue, Wrangle(t).value);
  }

  /** The column list a successful run leaves. */
  lemma WrangledColumns(t: Table, dropped: Table, withRevenue: Table)
    requires DropColumns(t, DROP_LIST) == Success(dropped)
    requires withRevenue.columns == dropped.columns
    requires InsertDifference(withRevenue, PROFIT_POSITION, PROFIT, REVENUE, BUDGET).Success?
    ensures var u := InsertDifference(withRevenue, PROFIT_POSITION, PROFIT, REVENUE, BUDGET).value;
      && (forall i :: 0 <= i < |DROP_LIST| ==> DROP_LIST[i] !in u.columns)
      && |u.columns| > PROFIT_POSITION && u.columns[PROFIT_POSITION] == PROFIT
      && BUDGET in u.columns && REVENUE in u.columns
  {
    InsertedColumns(withRevenue, PROFIT_POSITION, PROFIT, REVENUE, BUDGET);
    ProfitIsNotDropped();
  }

  /** Budget and revenue cells are integers or NaN, as pandas reads integer columns of the file. */
  ghost predicate IntegralMoney(row: Row) {
    && (BUDGET in row ==> row[BUDGET].Num? || row[BUDGET].Missing?)
    && (REVENUE in row ==> row[REVENUE].Num? || row[REVENUE].Missing?)
  }

  lemma DroppedMoneyIsIntegral(t: Table, names: seq<string>, dropped: Table)
    requires forall i :: 0 <= i < |t.rows| ==> IntegralMoney(t.rows[i])
    requires DropColumns(t, names) == Success(dropped)
    ensures forall i :: 0 <= i < |dropped.rows| ==> IntegralMoney(dropped.rows[i])
  {
    forall i | 0 <= i < |dropped.rows|
      ensures IntegralMoney(dropped.rows[i])
    {
      var before, after := t.rows[i], dropped.rows[i];
      assert forall c :: c in after ==> c in before && after[c] == before[c];
    }
  }

  lemma CleanedMoneyIsIntegral(dropped: Table, cleaned: Table)
    requires forall i :: 0 <= i < |dropped.rows| ==> IntegralMoney(dropped.rows[i])
    requires cleaned == DropNa(ReplaceZeros(DropDuplicates(dropped)))
    ensures forall i :: 0 <= i < |cleaned.rows| ==> IntegralMoney(cleaned.rows[i]) && Complete(cleaned.rows[i])
  {
    var dd := DropDuplicates(dropped);
    ZeroCleanedRowsAreComplete(dd);
    ComesFromIntegral(dropped.rows, dd.rows);
    ComesFromIntegral(dd.rows, cleaned.rows);
  }

  lemma ComesFromIntegral(source: seq<Row>, rows: seq<Row>)
    requires forall i :: 0 <= i < |source| ==> IntegralMoney(source[i])
    requires forall i :: 0 <= i < |rows| ==> rows[i] in source
    ensures forall i :: 0 <= i < |rows| ==> IntegralMoney(rows[i])
  {
    forall i | 0 <= i < |rows|
      ensures IntegralMoney(rows[i])
    {
      var j :| 0 <= j < |source| && source[j] == rows[i];
    }
  }

  ghost predicate NonZeroMoney(row: Row) {
    BUDGET in row && REVENUE in row && !IsZero(row[BUDGET]) && !IsZero(row[REVENUE])
  }

  lemma MoneyRowStaysNonZero(cleaned: Row, withBudget: Row, withRevenue: Row, final: Row)
    requires IntegralMoney(cleaned) && Complete(cleaned)
    requires CoercedRow(cleaned, withBudget, BUDGET)
    requires CoercedRow(withBudget, withRevenue, REVENUE)
    requires BUDGET in final && REVENUE in final
    requires final[BUDGET] == withRevenue[BUDGET] && final[REVENUE] == withRevenue[REVENUE]
    ensures NonZeroMoney(final)
  {
    assert BUDGET != REVENUE;
  }

  /**
   * When the file's budget and revenue columns hold integers (NaN allowed), the conversion
   * changes nothing and no budget or revenue of the wrangled table is zero.
   */
  lemma WrangledIntegerMoney(t: Table)
    requires Wrangle(t).Success?
    requires forall i :: 0 <= i < |t.rows| ==> IntegralMoney(t.rows[i])
    ensures forall i :: 0 <= i < |Wrangle(t).value.rows| ==> NonZeroMoney(Wrangle(t).value.rows[i])
  {
    var dropped, cleaned, withRevenue := WrangleSteps(t);
    DroppedMoneyIsIntegral(t, DROP_LIST, dropped);
    CleanedMoneyIsIntegral(dropped, cleaned);
    MoneyOfInserted(cleaned, withRevenue);
  }

  lemma MoneyOfInserted(cleaned: Table, withRevenue: Table)
    requires forall i :: 0 <= i < |cleaned.rows| ==> IntegralMoney(cleaned.rows[i]) && Complete(cleaned.rows[i])
    requires CoerceToInt(cleaned, BUDGET).Success?
    requires CoerceToInt(CoerceToInt(cleaned, BUDGET).value, REVENUE) == Success(withRevenue)
    requires InsertDifference(withRevenue, PROFIT_POSITION, PROFIT, REVENUE, BUDGET).Success?
    ensures var u := InsertDifference(withRevenue, PROFIT_POSITION, PROFIT, REVENUE, BUDGET).value;
      forall i :: 0 <= i < |u.rows| ==> NonZeroMoney(u.rows[i])
  {
    var withBudget := CoerceToInt(cleaned, BUDGET).value;
    var u := InsertDifference(withRevenue, PROFIT_POSITION, PROFIT, REVENUE, BUDGET).value;
    assert BUDGET != PROFIT && REVENUE != PROFIT;
    forall i | 0 <= i < |u.rows|
      ensures NonZeroMoney(u.rows[i])
    {
      assert CoercedRow(cleaned.rows[i], withBudget.rows[i], BUDGET);
      assert CoercedRow(withBudget.rows[i], withRevenue.rows[i], REVENUE);
      MoneyRowStaysNonZero(cleaned.rows[i], withBudget.rows[i], withRevenue.rows[i], u.rows[i]);
    }
  }
}

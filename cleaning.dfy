/**
 * The cleaning steps of the notebook, each as a function from the table before
 * the step to the table after it (or to the exception pandas raises).
 */
module Cleaning {
  import opened Wrappers
  import opened Data
  import opened Seqs

  /** The first label of `names` that is not a column, if any. */
  function FirstAbsent(names: seq<string>, columns: seq<string>): (r: Option<string>)
    ensures r.None? <==> forall i :: 0 <= i < |names| ==> names[i] in columns
    ensures r.Some? ==> r.value in names && r.value !in columns
    decreases |names|
  {
    if |names| == 0 then None
    else if names[0] !in columns then Some(names[0])
    else FirstAbsent(names[1..], columns)
  }

  function RowWithout(row: Row, names: set<string>): Row {
    row - names
  }

  /** The condition that keeps the labels outside `dropped`. */
  function Outside(dropped: set<string>): string -> bool {
    c => c !in dropped
  }

  /**
   * `df.drop(names, axis=1)`: raises KeyError unless every label is a column;
   * otherwise the labels disappear from the column list and from every row,
   * and everything else is unchanged.
   */
  function DropColumns(t: Table, names: seq<string>): (r: Result<Table, Error>)
    ensures r.Success? <==> forall i :: 0 <= i < |names| ==> names[i] in t.columns
    ensures r.Failure? ==> r.error.KeyError? && r.error.name in names && r.error.name !in t.columns
    ensures r.Success? ==>
      && r.value.columns == Filter(t.columns, Outside(Names(names)))
      && (forall c :: c in r.value.columns <==> c in t.columns && c !in names)
      && |r.value.rows| == |t.rows|
      && forall i :: 0 <= i < |t.rows| ==>
           && r.value.rows[i].Keys == t.rows[i].Keys - Names(names)
           && forall c :: c in r.value.rows[i] ==> r.value.rows[i][c] == t.rows[i][c]
    ensures r.Success? && WellFormed(t) ==> WellFormed(r.value)
  {
    match FirstAbsent(names, t.columns)
    case Some(n) => Failure(KeyError(n))
    case None =>
      var dropped := Names(names);
      var kept := Filter(t.columns, Outside(dropped));
      FilterKeepsDistinct(t.columns, Outside(dropped));
      assert Names(kept) == Names(t.columns) - dropped;
      Success(Table(kept, seq(|t.rows|, i requires 0 <= i < |t.rows| => RowWithout(t.rows[i], dropped))))
  }

  /**
   * `df.drop_duplicates()`: the rows that `df.duplicated()` does not flag, that is,
   * the first occurrence of each distinct row, in the original order. Afterwards no
   * row is flagged (the notebook's `sum(df.duplicated())` is 0).
   */
  function DropDuplicates(t: Table): (r: Table)
    ensures r.columns == t.columns
    ensures r.rows == KeepUnflagged(t.rows, Duplicated(t.rows))
    ensures Distinct(r.rows)
    ensures forall i :: 0 <= i < |t.rows| ==> t.rows[i] in r.rows
    ensures forall i :: 0 <= i < |r.rows| ==> r.rows[i] in t.rows
    ensures CountTrue(Duplicated(r.rows)) == 0
    ensures WellFormed(t) ==> WellFormed(r)
  {
    UniqueIsUnflagged(t.rows);
    DistinctHasNoDuplicated(Unique(t.rows));
    Table(t.columns, Unique(t.rows))
  }

  lemma DropDuplicatesIsIdempotent(t: Table)
    ensures DropDuplicates(DropDuplicates(t)) == DropDuplicates(t)
  {
    UniqueOfDistinct(Unique(t.rows));
  }

  function ReplaceZerosInRow(row: Row): Row {
    map c | c in row :: if IsZero(row[c]) then Missing else row[c]
  }

  function ReplaceZerosInRows(rows: seq<Row>): seq<Row> {
    seq(|rows|, i requires 0 <= i < |rows| => ReplaceZerosInRow(rows[i]))
  }

  /**
   * `df.replace(0, np.NAN)`: every zero cell, in any column, becomes NaN;
   * no zero remains and every other cell is unchanged.
   */
  function ReplaceZeros(t: Table): (r: Table)
    ensures r.columns == t.columns && |r.rows| == |t.rows|
    ensures forall i :: 0 <= i < |t.rows| ==>
      && r.rows[i].Keys == t.rows[i].Keys
      && forall c :: c in t.rows[i] ==>
           && !IsZero(r.rows[i][c])
           && (r.rows[i][c].Missing? <==> IsZero(t.rows[i][c]) || t.rows[i][c].Missing?)
           && (!IsZero(t.rows[i][c]) ==> r.rows[i][c] == t.rows[i][c])
    ensures WellFormed(t) ==> WellFormed(r)
  {
    Table(t.columns, ReplaceZerosInRows(t.rows))
  }

  /** dropna's test for keeping a row: every cell holds a value (a number or a text). */
  predicate HasNoMissing(row: Row): (r: bool)
    ensures r <==> forall c :: c in row ==> row[c].Num? || row[c].Float? || row[c].Str?
    ensures Complete(row) ==> r
  {
    forall c :: c in row ==> !row[c].Missing?
  }

  /** A row that survives the zero-as-missing cleaning: no cell is zero or NaN. */
  predicate Complete(row: Row) {
    forall c :: c in row ==> !IsZero(row[c]) && !row[c].Missing?
  }

  /** `df.dropna()`: the rows without a NaN cell, in their original order. */
  function DropNa(t: Table): (r: Table)
    ensures r.columns == t.columns
    ensures r.rows == Filter(t.rows, HasNoMissing)
    ensures forall i :: 0 <= i < |r.rows| ==> r.rows[i] in t.rows && HasNoMissing(r.rows[i])
    ensures forall i :: 0 <= i < |t.rows| && HasNoMissing(t.rows[i]) ==> t.rows[i] in r.rows
    ensures WellFormed(t) ==> WellFormed(r)
  {
    Table(t.columns, Filter(t.rows, HasNoMissing))
  }

  lemma ReplaceZerosInCompleteRow(row: Row)
    ensures HasNoMissing(ReplaceZerosInRow(row)) <==> Complete(row)
    ensures Complete(row) ==> ReplaceZerosInRow(row) == row
  {
    if !Complete(row) {
      var c :| c in row && (IsZero(row[c]) || row[c].Missing?);
      assert ReplaceZerosInRow(row)[c].Missing?;
    }
  }

  lemma {:induction false} ZeroCleaningOfRows(rows: seq<Row>)
    ensures Filter(ReplaceZerosInRows(rows), HasNoMissing) == Filter(rows, Complete)
    decreases |rows|
  {
    if |rows| > 0 {
      ZeroCleaningOfRows(rows[1..]);
      assert ReplaceZerosInRows(rows)[1..] == ReplaceZerosInRows(rows[1..]);
      ReplaceZerosInCompleteRow(rows[0]);
    }
  }

  /**
   * Replacing zeros by NaN and then dropping the rows with NaN keeps exactly the
   * rows that had neither a zero nor a NaN cell, unchanged and in their original order.
   */
  lemma ZeroCleaningKeepsCompleteRows(t: Table)
    ensures DropNa(ReplaceZeros(t)) == Table(t.columns, Filter(t.rows, Complete))
  {
    ZeroCleaningOfRows(t.rows);
  }

  lemma ZeroCleanedRowsAreComplete(t: Table)
    ensures forall i :: 0 <= i < |DropNa(ReplaceZeros(t)).rows| ==>
      DropNa(ReplaceZeros(t)).rows[i] in t.rows && Complete(DropNa(ReplaceZeros(t)).rows[i])
  {
    ZeroCleaningKeepsCompleteRows(t);
  }

  /** Dropping incomplete rows keeps every occurrence of a row without NaN, and no row with one. */
  lemma DropNaCounts(t: Table, row: Row)
    ensures multiset(DropNa(t).rows)[row] == if HasNoMissing(row) then multiset(t.rows)[row] else 0
  {
    FilterCounts(t.rows, HasNoMissing, row);
  }

  /** `df.isnull().sum()` for one column. */
  function NullCount(rows: seq<Row>, c: string): (r: nat)
    ensures r <= |rows|
    ensures r == 0 <==> forall i :: 0 <= i < |rows| ==> !(c in rows[i] && rows[i][c].Missing?)
    decreases |rows|
  {
    if |rows| == 0 then 0
    else NullCount(rows[..|rows| - 1], c) + (if c in rows[|rows| - 1] && rows[|rows| - 1][c].Missing? then 1 else 0)
  }

  lemma {:induction false} NullCountOfCompleteRows(rows: seq<Row>, c: string)
    requires forall i :: 0 <= i < |rows| ==> Complete(rows[i])
    ensures NullCount(rows, c) == 0
    decreases |rows|
  {
    if |rows| > 0 {
      NullCountOfCompleteRows(rows[..|rows| - 1], c);
    }
  }

  /**
   * After the zero-as-missing cleaning no cell is zero or NaN, the re-check
   * `df.isnull().sum()` is 0 for every column, and rows that were distinct stay distinct.
   */
  lemma ZeroCleaningLeavesNoGaps(t: Table, c: string)
    ensures forall i :: 0 <= i < |DropNa(ReplaceZeros(t)).rows| ==> Complete(DropNa(ReplaceZeros(t)).rows[i])
    ensures NullCount(DropNa(ReplaceZeros(t)).rows, c) == 0
    ensures Distinct(t.rows) ==> Distinct(DropNa(ReplaceZeros(t)).rows)
  {
    ZeroCleaningKeepsCompleteRows(t);
    NullCountOfCompleteRows(Filter(t.rows, Complete), c);
    FilterKeepsDistinct(t.rows, Complete);
  }

  /** Cleaning a table that is already clean removes no row and changes no cell. */
  lemma ZeroCleaningIsIdempotent(t: Table)
    ensures DropNa(ReplaceZeros(DropNa(ReplaceZeros(t)))) == DropNa(ReplaceZeros(t))
  {
    var u := DropNa(ReplaceZeros(t));
    ZeroCleaningKeepsCompleteRows(t);
    ZeroCleaningKeepsCompleteRows(u);
    FilterOfAll(u.rows, Complete);
  }

  /** Every row can be converted: it has column c and the cell there is a number. */
  predicate Coercible(rows: seq<Row>, c: string) {
    forall i :: 0 <= i < |rows| ==> c in rows[i] && AsInt(rows[i][c]).Some?
  }

  function CoerceRow(row: Row, c: string): Row
    requires c in row && AsInt(row[c]).Some?
  {
    row[c := Num(AsInt(row[c]).value)]
  }

  /** `after` is `before` with column c converted to an integer by truncation. */
  ghost predicate CoercedRow(before: Row, after: Row, c: string) {
    && c in before
    && after.Keys == before.Keys
    && after[c].Num?
    && (before[c].Num? ==> after[c] == before[c])
    && (before[c].Float? ==> after[c].n == Truncate(before[c].x))
    && forall d :: d in before && d != c ==> after[d] == before[d]
  }

  /**
   * `df.c = df.c.astype(int)`: raises when c is not a column or some cell of c is
   * NaN or text; otherwise every cell of c becomes an integer, truncating floats,
   * and nothing else changes.
   */
  function CoerceToInt(t: Table, c: string): (r: Result<Table, Error>)
    ensures r.Success? <==> c in t.columns && Coercible(t.rows, c)
    ensures r.Failure? ==> r.error == if c !in t.columns then NoAttribute(c) else NotCoercible(c)
    ensures r.Success? ==>
      && r.value.columns == t.columns
      && |r.value.rows| == |t.rows|
      && forall i :: 0 <= i < |t.rows| ==> CoercedRow(t.rows[i], r.value.rows[i], c)
    ensures r.Success? && WellFormed(t) ==> WellFormed(r.value)
  {
    if c !in t.columns then Failure(NoAttribute(c))
    else if !Coercible(t.rows, c) then Failure(NotCoercible(c))
    else Success(Table(t.columns, seq(|t.rows|, i requires 0 <= i < |t.rows| => CoerceRow(t.rows[i], c))))
  }

  /** On a column that already holds integers the conversion changes nothing. */
  lemma CoerceIsIdentityOnIntegers(t: Table, c: string)
    requires c in t.columns && IsIntColumn(t.rows, c)
    ensures CoerceToInt(t, c) == Success(t)
  {
    var u := CoerceToInt(t, c).value;
    forall i | 0 <= i < |t.rows|
      ensures u.rows[i] == t.rows[i]
    {
      assert CoercedRow(t.rows[i], u.rows[i], c);
      assert forall d :: d in t.rows[i] ==> u.rows[i][d] == t.rows[i][d];
    }
    assert u.rows == t.rows;
  }

  /** Every row has both operand columns and `a - b` does not raise on it. */
  predicate Subtractable(rows: seq<Row>, a: string, b: string) {
    forall i :: 0 <= i < |rows| ==> a in rows[i] && b in rows[i] && Minus(rows[i][a], rows[i][b]).Some?
  }

  /** The exception `df.insert(loc, name, df[a] - df[b])` raises first, in pandas' order of checks. */
  function InsertError(t: Table, loc: nat, name: string, a: string, b: string): (r: Error)
    ensures r.KeyError? <==> a !in t.columns || b !in t.columns
    ensures a !in t.columns ==> r == KeyError(a)
    ensures a in t.columns && b !in t.columns ==> r == KeyError(b)
    ensures r.BadOperands? <==> a in t.columns && b in t.columns && !Subtractable(t.rows, a, b)
    ensures r.BadOperands? ==> r == BadOperands(a, b)
    ensures r.AlreadyExists? ==> r == AlreadyExists(name) && Subtractable(t.rows, a, b)
    ensures r.BadPosition? ==> r == BadPosition(loc) && Subtractable(t.rows, a, b) && name !in t.columns
    ensures a in t.columns && b in t.columns && Subtractable(t.rows, a, b) ==>
      r == if name in t.columns then AlreadyExists(name) else BadPosition(loc)
  {
    if a !in t.columns then KeyError(a)
    else if b !in t.columns then KeyError(b)
    else if !Subtractable(t.rows, a, b) then BadOperands(a, b)
    else if name in t.columns then AlreadyExists(name)
    else BadPosition(loc)
  }

  function WithDifference(row: Row, name: string, a: string, b: string): Row
    requires a in row && b in row && Minus(row[a], row[b]).Some?
  {
    row[name := Minus(row[a], row[b]).value]
  }

  /** The column order with `name` placed at position loc. */
  function InsertAt(columns: seq<string>, loc: nat, name: string): (r: seq<string>)
    requires loc <= |columns|
    ensures |r| == |columns| + 1 && r[loc] == name
    ensures r[..loc] == columns[..loc] && r[loc + 1..] == columns[loc..]
    ensures Names(r) == Names(columns) + {name}
    ensures Distinct(columns) && name !in columns ==> Distinct(r)
  {
    var r := columns[..loc] + [name] + columns[loc..];
    assert columns == columns[..loc] + columns[loc..];
    assert r[..loc] == columns[..loc];
    r
  }

  /** Every row with the extra cell `name` holding `a - b`. */
  function RowsWithDifference(rows: seq<Row>, name: string, a: string, b: string): (r: seq<Row>)
    requires Subtractable(rows, a, b)
    ensures |r| == |rows|
    ensures forall i :: 0 <= i < |rows| ==>
      && r[i].Keys == rows[i].Keys + {name}
      && r[i][name] == Minus(rows[i][a], rows[i][b]).value
      && forall c :: c in rows[i] && c != name ==> r[i][c] == rows[i][c]
  {
    seq(|rows|, i requires 0 <= i < |rows| => WithDifference(rows[i], name, a, b))
  }

  /**
   * `df.insert(loc, name, df[a] - df[b])`: raises when an operand is not a column,
   * when the subtraction meets text, when `name` is already a column, or when `loc`
   * is past the last column; otherwise `name` becomes column number `loc`, each row
   * gains the cell `a - b`, and the row count and every other cell are unchanged.
   */
  function InsertDifference(t: Table, loc: nat, name: string, a: string, b: string): (r: Result<Table, Error>)
    ensures r.Success? <==>
      a in t.columns && b in t.columns && Subtractable(t.rows, a, b) && name !in t.columns && loc <= |t.columns|
    ensures r.Failure? ==> r.error == InsertError(t, loc, name, a, b)
    ensures r.Success? ==>
      && |r.value.columns| == |t.columns| + 1
      && r.value.columns[loc] == name
      && r.value.columns[..loc] == t.columns[..loc]
      && r.value.columns[loc + 1..] == t.columns[loc..]
      && |r.value.rows| == |t.rows|
      && forall i :: 0 <= i < |t.rows| ==>
           && r.value.rows[i].Keys == t.rows[i].Keys + {name}
           && r.value.rows[i][name] == Minus(t.rows[i][a], t.rows[i][b]).value
           && forall c :: c in t.rows[i] && c != name ==> r.value.rows[i][c] == t.rows[i][c]
    ensures r.Success? && WellFormed(t) ==> WellFormed(r.value)
  {
    if a !in t.columns || b !in t.columns || !Subtractable(t.rows, a, b)
       || name in t.columns || loc > |t.columns|
    then Failure(InsertError(t, loc, name, a, b))
    else Success(Table(InsertAt(t.columns, loc, name), RowsWithDifference(t.rows, name, a, b)))
  }
}

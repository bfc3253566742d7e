/** The data model: cells, rows, tables, labelled results, and the conditions pandas raises on in this script. */
module Data {
  import opened Wrappers
  import Seqs

  /** One cell. `Float` is a floating-point number, modelled as an exact real; `Missing` is NaN. */
  datatype Value = Num(n: int) | Float(x: real) | Str(s: string) | Missing

  /** A row maps each column label to its cell. */
  type Row = map<string, Value>

  /** A DataFrame: its column labels in order and its rows in order. */
  datatype Table = Table(columns: seq<string>, rows: seq<Row>)

  /** A pandas Series as the queries return it: index entries and one value per entry. */
  datatype Series<K> = Series(index: seq<K>, values: seq<int>)

  datatype Error =
    | KeyError(name: string)                      // a column label that is not in the table
    | NoAttribute(name: string)                   // `df.name` for a label that is not a column
    | AlreadyExists(name: string)                 // inserting a label that is already a column
    | BadPosition(loc: nat)                       // inserting past the last column
    | NotCoercible(column: string)                // astype(int) of NaN or of text
    | BadOperands(left: string, right: string)    // subtracting columns that hold text
    | EmptyColumn(column: string)                 // idxmax / idxmin of a column without values
    | NotIntegral(column: string)                 // a query over a column that is not integer-valued
    | NotText(column: string)                     // the .str accessor on a numeric cell

  function Names(cols: seq<string>): set<string> {
    set c | c in cols
  }

  /** Column labels are unique and every row has exactly the table's columns. */
  ghost predicate WellFormed(t: Table) {
    && Seqs.Distinct(t.columns)
    && forall i :: 0 <= i < |t.rows| ==> t.rows[i].Keys == Names(t.columns)
  }

  /** The cells that `replace(0, NaN)` matches: integer and floating zero, never text. */
  predicate IsZero(v: Value): (r: bool)
    ensures r <==> (v.Num? || v.Float?) && ToReal(v) == 0.0
    ensures r ==> AsInt(v) == Some(0)
  {
    v == Num(0) || v == Float(0.0)
  }

  /** Conversion of a float to an integer, which truncates toward zero. */
  function Truncate(x: real): (r: int)
    ensures 0.0 <= x ==> r as real <= x < r as real + 1.0
    ensures x < 0.0 ==> r as real - 1.0 < x <= r as real
  {
    if x >= 0.0 then x.Floor else -((-x).Floor)
  }

  /** `astype(int)` of one cell: integers stay, floats truncate, NaN and text cannot be converted. */
  function AsInt(v: Value): (r: Option<int>)
    ensures r.Some? <==> v.Num? || v.Float?
    ensures v.Num? ==> r == Some(v.n)
    ensures v.Float? ==> r == Some(Truncate(v.x))
  {
    match v
    case Num(n) => Some(n)
    case Float(x) => Some(Truncate(x))
    case _ => None
  }

  function ToReal(v: Value): real
    requires v.Num? || v.Float?
  {
    if v.Num? then v.n as real else v.x
  }

  /** Element-wise `a - b`: text raises, NaN propagates, two integers give an integer, otherwise a float. */
  function Minus(a: Value, b: Value): (r: Option<Value>)
    ensures r.None? <==> a.Str? || b.Str?
    ensures r.Some? ==> (r.value.Missing? <==> a.Missing? || b.Missing?)
    ensures a.Num? && b.Num? ==> r == Some(Num(a.n - b.n))
    ensures r.Some? && !r.value.Missing? && !(a.Num? && b.Num?) ==> r.value == Float(ToReal(a) - ToReal(b))
  {
    if a.Str? || b.Str? then None
    else if a.Missing? || b.Missing? then Some(Missing)
    else if a.Num? && b.Num? then Some(Num(a.n - b.n))
    else Some(Float(ToReal(a) - ToReal(b)))
  }

  /** The integer in column c of a row, or 0 when there is none. */
  function IntAt(row: Row, c: string): int {
    if c in row && row[c].Num? then row[c].n else 0
  }

  /** Every row holds an integer in column c. */
  predicate IsIntColumn(rows: seq<Row>, c: string) {
    forall i :: 0 <= i < |rows| ==> c in rows[i] && rows[i][c].Num?
  }

  /** Column c as a sequence of integers, one per row. */
  function Ints(rows: seq<Row>, c: string): (r: seq<int>) {
    seq(|rows|, i requires 0 <= i < |rows| => IntAt(rows[i], c))
  }
}

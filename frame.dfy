/**
 * The notebook's one DataFrame `df`, which the cleaning cells change in place.
 * Each method is one pandas call; its contract gives the new state as the
 * corresponding function of the old one, and a step that raises changes nothing.
 */
module Frame {
  import opened Wrappers
  import opened Data
  import Seqs
  import Cleaning

  /** The state after a step that either produced `r` or raised. */
  predicate Applied(before: Table, r: Result<Table, Error>, after: Table, res: Outcome<Error>) {
    if r.Success? then res.Pass? && after == r.value else res == Fail(r.error) && after == before
  }

  class DataFrame {
    var columns: seq<string>
    var rows: seq<Row>

    ghost predicate Valid()
      reads this
    {
      WellFormed(Table(columns, rows))
    }

    function View(): Table
      reads this
    {
      Table(columns, rows)
    }

    /** The table as loaded; reading the file is not part of the model. */
    constructor (loaded: Table)
      requires WellFormed(loaded)
      ensures Valid() && View() == loaded
    {
      columns := loaded.columns;
      rows := loaded.rows;
    }

    method Assign(r: Result<Table, Error>) returns (res: Outcome<Error>)
      requires r.Success? ==> WellFormed(r.value)
      requires Valid()
      modifies this
      ensures Valid()
      ensures Applied(old(View()), r, View(), res)
    {
      if r.Success? {
        columns, rows := r.value.columns, r.value.rows;
        res := Pass;
      } else {
        res := Fail(r.error);
      }
    }

    /** `df.drop(names, axis = 1, inplace = True)` */
    method Drop(names: seq<string>) returns (res: Outcome<Error>)
      requires Valid()
      modifies this
      ensures Valid()
      ensures Applied(old(View()), Cleaning.DropColumns(old(View()), names), View(), res)
      ensures res.Pass? ==> forall i :: 0 <= i < |names| ==> names[i] !in columns
    {
      res := Assign(Cleaning.DropColumns(View(), names));
    }

    /** `df.drop_duplicates(inplace = True)` */
    method DropDuplicates()
      requires Valid()
      modifies this
      ensures Valid()
      ensures View() == Cleaning.DropDuplicates(old(View()))
      ensures Seqs.Distinct(rows)
    {
      var t := Cleaning.DropDuplicates(View());
      rows := t.rows;
    }

    /** `df = df.replace(0, np.NAN)` */
    method ReplaceZeros()
      requires Valid()
      modifies this
      ensures Valid()
      ensures View() == Cleaning.ReplaceZeros(old(View()))
    {
      var t := Cleaning.ReplaceZeros(View());
      rows := t.rows;
    }

    /** `df = df.dropna()` */
    method DropNa()
      requires Valid()
      modifies this
      ensures Valid()
      ensures View() == Cleaning.DropNa(old(View()))
      ensures forall i :: 0 <= i < |rows| ==> Cleaning.HasNoMissing(rows[i])
    {
      var t := Cleaning.DropNa(View());
      rows := t.rows;
    }

    /** `df.c = df.c.astype(int)` */
    method CoerceToInt(c: string) returns (res: Outcome<Error>)
      requires Valid()
      modifies this
      ensures Valid()
      ensures Applied(old(View()), Cleaning.CoerceToInt(old(View()), c), View(), res)
      ensures res.Pass? ==> IsIntColumn(rows, c)
    {
      res := Assign(Cleaning.CoerceToInt(View(), c));
    }

    /** `df.insert(loc, name, df[a] - df[b])` */
    method Insert(loc: nat, name: string, a: string, b: string) returns (res: Outcome<Error>)
      requires Valid()
      modifies this
      ensures Valid()
      ensures Applied(old(View()), Cleaning.InsertDifference(old(View()), loc, name, a, b), View(), res)
      ensures res.Pass? ==> loc < |columns| && columns[loc] == name && |rows| == old(|rows|)
    {
      res := Assign(Cleaning.InsertDifference(View(), loc, name, a, b));
    }
  }
}

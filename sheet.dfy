/** The spreadsheet side shared by both data-access files: the display-value
    grid that a named range yields, the outcome of reading it, and the
    header-keyed records that rows are turned into. */
module Sheet {
  import opened Seqs

  /** A named range's display values: rows of cells, each cell a string. */
  type Grid = seq<seq<string>>

  /** Success with a value, or a failure (a missing spreadsheet, a missing
      named range or any other read error). */
  datatype Result<T> = Ok(value: T) | Err

  /** What opening the spreadsheet and reading the named range gives. */
  type ReadResult = Result<Grid>

  /** A record field: a display string, or a boolean once a field is coerced. */
  datatype Value = S(text: string) | B(flag: bool)

  /** A row reshaped into an object keyed by header names. */
  type Record = map<string, Value>

  /** Every row has as many cells as the first, as the display values of a range do. */
  predicate Rectangular(grid: Grid) {
    forall i :: 0 <= i < |grid| ==> |grid[i]| == |grid[0]|
  }

  /** What the model asks of a successful read: a rectangular grid. */
  predicate WellFormed(read: ReadResult) {
    read.Ok? ==> Rectangular(read.value)
  }

  /** A row is kept when its first cell is truthy, that is, present and not empty. */
  predicate IsNonBlank(row: seq<string>) {
    |row| > 0 && row[0] != ""
  }

  /** The rows that survive `filter((record) => record[0])`, in source order. */
  function NonBlankRows(grid: Grid): (table: Grid)
    ensures forall i :: 0 <= i < |table| ==> IsNonBlank(table[i])
    ensures Rectangular(grid) ==> Rectangular(table)
  {
    FilterMembership(grid, IsNonBlank);
    var table := Filter(grid, IsNonBlank);
    assert Rectangular(grid) ==> Rectangular(table) by {
      if Rectangular(grid) && table != [] {
        forall i | 0 <= i < |table| ensures |table[i]| == |table[0]| {
          assert table[i] in grid && table[0] in grid;
        }
      }
    }
    table
  }

  /** The non-blank rows are exactly the rows whose first cell is not empty,
      kept in source order and as often as they occur. */
  lemma NonBlankRowsSelects(grid: Grid)
    ensures IsSubsequence(NonBlankRows(grid), grid)
    ensures forall row :: multiset(NonBlankRows(grid))[row] ==
                          if |row| > 0 && row[0] != "" then multiset(grid)[row] else 0
  {
    FilterIsSubsequence(grid, IsNonBlank);
    FilterMultiplicity(grid, IsNonBlank);
  }

  /** The names that occur among the first `n` header cells. */
  function HeaderNames(header: seq<string>, n: nat): set<string>
    requires n <= |header|
  {
    set c | 0 <= c < n :: header[c]
  }

  /** Column `c` is the last of the first `n` columns that carries its header name. */
  predicate IsLastColumnNamed(header: seq<string>, n: nat, c: nat)
    requires n <= |header|
  {
    c < n && forall c' :: c < c' < n ==> header[c'] != header[c]
  }
}

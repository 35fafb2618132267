/** The ResultsFile table (data/results-file.js): loading it from a
    spreadsheet read, with the `active` field coerced to a boolean, and
    selecting the results files of a list of races. */
module ResultsFiles {
  import opened Seqs
  import opened Sheet

  /** The one field whose display string is coerced to a boolean. */
  const Active: string := "active"

  /** What a cell becomes under a header name: `active` goes through
      `getBoolean`, every other field keeps the raw display string. */
  function CellValue(name: string, cell: string, getBoolean: string -> bool): Value {
    if name == Active then B(getBoolean(cell)) else S(cell)
  }

  /** The fields that the first `n` columns give a results-file record: a
      column with an empty header name gives none, every other one sets its
      name, a later column overwriting an earlier one of the same name. */
  function ResultsFileFields(header: seq<string>, row: seq<string>, n: nat, getBoolean: string -> bool): Record
    requires n <= |header| <= |row|
  {
    if n == 0 then map[]
    else
      var fields := ResultsFileFields(header, row, n - 1, getBoolean);
      if header[n - 1] == "" then fields
      else fields[header[n - 1] := CellValue(header[n - 1], row[n - 1], getBoolean)]
  }

  /** The results-file record made from one data row under `header`. */
  function ResultsFileRecord(header: seq<string>, row: seq<string>, getBoolean: string -> bool): Record
    requires |header| <= |row|
  {
    ResultsFileFields(header, row, |header|, getBoolean)
  }

  /** What loading the ResultsFile table yields: the read's failure, passed
      on; otherwise the first non-blank row is the header and every later
      non-blank row becomes one record, in source order. */
  function ResultsFileTable(read: ReadResult, getBoolean: string -> bool): (files: Result<seq<Record>>)
    requires WellFormed(read)
    ensures files.Err? <==> read.Err?
    ensures read.Ok? && NonBlankRows(read.value) == [] ==> files == Ok([])
    ensures read.Ok? && NonBlankRows(read.value) != [] ==>
      |files.value| == |NonBlankRows(read.value)| - 1
  {
    match read
    case Err => Err
    case Ok(grid) =>
      var table := NonBlankRows(grid);
      if table == [] then Ok([])
      else
        Ok(seq(|table| - 1, k requires 0 <= k < |table| - 1 =>
          ResultsFileRecord(table[0], table[k + 1], getBoolean)))
  }

  /** `getresultsFilesByDatabaseSheetId`: a read failure propagates to the
      caller; otherwise blank rows are dropped, the first remaining row is
      shifted off as the header, and each later row is turned into a record. */
  method LoadResultsFiles(read: ReadResult, getBoolean: string -> bool) returns (files: Result<seq<Record>>)
    requires WellFormed(read)
    ensures files == ResultsFileTable(read, getBoolean)
  {
    if read.Err? {
      return Err;
    }
    var table := NonBlankRows(read.value);
    if table == [] {
      // `shift()` of an empty table leaves no rows to map
      return Ok([]);
    }
    ghost var nonBlank := table;
    var fields := table[0];
    table := table[1..];
    assert forall k :: 0 <= k < |table| ==> |table[k]| == |fields| by {
      assert forall k :: 0 <= k < |table| ==> table[k] == nonBlank[k + 1];
    }
    var records := MapResultsFileRows(fields, table, getBoolean);
    forall k | 0 <= k < |records| ensures records[k] == ResultsFileTable(read, getBoolean).value[k] {
      ResultsFileTableRecord(read, getBoolean, k);
    }
    assert records == ResultsFileTable(read, getBoolean).value;
    files := Ok(records);
  }

  /** The `tableResultsFile.map` pass: each row, in order, becomes a record
      filled field by field from the header and pushed onto the result. */
  method MapResultsFileRows(fields: seq<string>, rows: seq<seq<string>>, getBoolean: string -> bool)
    returns (files: seq<Record>)
    requires forall k :: 0 <= k < |rows| ==> |rows[k]| == |fields|
    ensures |files| == |rows|
    ensures forall k :: 0 <= k < |rows| ==> files[k] == ResultsFileRecord(fields, rows[k], getBoolean)
  {
    files := [];
    var i := 0;
    while i < |rows|
      invariant 0 <= i <= |rows|
      invariant |files| == i
      invariant forall k :: 0 <= k < i ==> files[k] == ResultsFileRecord(fields, rows[k], getBoolean)
    {
      var row := rows[i];
      var file: Record := map[];
      var c := 0;
      while c < |fields|
        invariant 0 <= c <= |fields|
        invariant file == ResultsFileFields(fields, row, c, getBoolean)
      {
        var key := fields[c];
        if key != "" {
          file := file[key := CellValue(key, row[c], getBoolean)];
        }
        c := c + 1;
      }
      files := files + [file];
      i := i + 1;
    }
  }

  /** The keys of a results-file record are the non-empty header names. */
  lemma {:induction false} ResultsFileFieldsKeys(header: seq<string>, row: seq<string>, n: nat, getBoolean: string -> bool)
    requires n <= |header| <= |row|
    ensures ResultsFileFields(header, row, n, getBoolean).Keys == HeaderNames(header, n) - {""}
  {
    if n > 0 {
      ResultsFileFieldsKeys(header, row, n - 1, getBoolean);
      assert HeaderNames(header, n) == HeaderNames(header, n - 1) + {header[n - 1]};
    }
  }

  /** A non-empty name holds the value of the cell in the last column carrying it. */
  lemma {:induction false} ResultsFileFieldsValue(header: seq<string>, row: seq<string>, n: nat, c: nat, getBoolean: string -> bool)
    requires n <= |header| <= |row|
    requires IsLastColumnNamed(header, n, c) && header[c] != ""
    ensures header[c] in ResultsFileFields(header, row, n, getBoolean)
    ensures ResultsFileFields(header, row, n, getBoolean)[header[c]] == CellValue(header[c], row[c], getBoolean)
  {
    if c < n - 1 {
      ResultsFileFieldsValue(header, row, n - 1, c, getBoolean);
    }
  }

  /** Record `k` of a successful load is the record of non-blank row `k + 1`
      under the header, which is the first non-blank row. */
  lemma ResultsFileTableRecord(read: ReadResult, getBoolean: string -> bool, k: nat)
    requires WellFormed(read) && read.Ok?
    requires k < |ResultsFileTable(read, getBoolean).value|
    ensures var table := NonBlankRows(read.value);
      && k + 1 < |table|
      && |table[0]| == |table[k + 1]|
      && ResultsFileTable(read, getBoolean).value[k] == ResultsFileRecord(table[0], table[k + 1], getBoolean)
  {
  }

  /** Record `k` of a successful load: its keys are exactly the non-empty
      names of the header row. */
  lemma ResultsFileTableKeys(read: ReadResult, getBoolean: string -> bool, k: nat)
    requires WellFormed(read) && read.Ok?
    requires k < |ResultsFileTable(read, getBoolean).value|
    ensures NonBlankRows(read.value) != []
    ensures var header := NonBlankRows(read.value)[0];
      ResultsFileTable(read, getBoolean).value[k].Keys == HeaderNames(header, |header|) - {""}
    ensures "" !in ResultsFileTable(read, getBoolean).value[k]
  {
    ResultsFileTableRecord(read, getBoolean, k);
    var table := NonBlankRows(read.value);
    ResultsFileFieldsKeys(table[0], table[k + 1], |table[0]|, getBoolean);
  }

  /** Record `k` of a successful load, field by field: the `active` field is
      `getBoolean` of its cell, every other field is its cell unchanged, the
      cell being that of row `k + 1` in the last column carrying the name. */
  lemma ResultsFileTableValue(read: ReadResult, getBoolean: string -> bool, k: nat, c: nat)
    requires WellFormed(read) && read.Ok?
    requires k < |ResultsFileTable(read, getBoolean).value|
    requires var header := NonBlankRows(read.value)[0];
      IsLastColumnNamed(header, |header|, c) && header[c] != ""
    ensures var table := NonBlankRows(read.value);
      var file := ResultsFileTable(read, getBoolean).value[k];
      && |table[0]| == |table[k + 1]|
      && table[0][c] in file
      && (table[0][c] == Active ==> file[table[0][c]] == B(getBoolean(table[k + 1][c])))
      && (table[0][c] != Active ==> file[table[0][c]] == S(table[k + 1][c]))
  {
    ResultsFileTableRecord(read, getBoolean, k);
    var table := NonBlankRows(read.value);
    ResultsFileFieldsValue(table[0], table[k + 1], |table[0]|, c, getBoolean);
  }

  /** The record's race identifier is one of `raceIds`; identifiers are
      compared as display strings. */
  predicate HasRaceIdIn(file: Record, raceIds: seq<string>) {
    "raceID" in file && file["raceID"].S? && file["raceID"].text in raceIds
  }

  /** `getResultsFilesByRaceIds`: a failed load propagates; otherwise the
      loaded results files whose race identifier is in `raceIds`, in their
      original order, each as often as it was loaded. */
  function ResultsFilesByRaceIds(read: ReadResult, raceIds: seq<string>, getBoolean: string -> bool)
    : (files: Result<seq<Record>>)
    requires WellFormed(read)
    ensures files.Err? <==> read.Err?
    ensures files.Ok? ==> IsSubsequence(files.value, ResultsFileTable(read, getBoolean).value)
    ensures files.Ok? ==> forall f :: f in files.value <==>
                            f in ResultsFileTable(read, getBoolean).value && HasRaceIdIn(f, raceIds)
    ensures files.Ok? ==> forall f :: multiset(files.value)[f] ==
                            if HasRaceIdIn(f, raceIds) then multiset(ResultsFileTable(read, getBoolean).value)[f] else 0
  {
    match ResultsFileTable(read, getBoolean)
    case Err => Err
    case Ok(seasonResultsFiles) =>
      var hasRaceId := (f: Record) => HasRaceIdIn(f, raceIds);
      FilterIsSubsequence(seasonResultsFiles, hasRaceId);
      FilterMultiplicity(seasonResultsFiles, hasRaceId);
      FilterMembership(seasonResultsFiles, hasRaceId);
      Ok(Filter(seasonResultsFiles, hasRaceId))
  }
}

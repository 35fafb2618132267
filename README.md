# Program and ResultsFile data access, modelled in Dafny

This project models the data-access core of a spreadsheet-backed race
results tool. Two files hold it:

- `data/program.js` loads the Program table, selects the programs of one
  event, and joins programs to one race through Program/Race relationships.
- `data/results-file.js` loads the ResultsFile table and selects the
  results files of a list of races.

Both loaders shape a table the same way:

1. They drop every row whose first cell is empty.
2. They take the first remaining row as the header.
3. They turn every later row into a record keyed by header name, column by column.

They differ in three ways:

- A program record never holds the `races` field, and it keeps a field for an empty header name.
- A results-file record has no field for an empty header name, and its `active` field goes through `getBoolean`.
- A failed read gives an empty Program list, but the ResultsFile loader passes the failure on.

Modules, one per source file plus two shared ones:

- `seqs.dfy`, module `Seqs`: `Filter`, the order-preserving selection both files use (`Array.prototype.filter`), with lemmas saying it keeps a subsequence and keeps each selected element exactly as often as the input holds it.
- `sheet.dfy`, module `Sheet`: the display-value grid, the outcome of a read (`Result<Grid>`: `Ok(grid)` or `Err`), field values (`S(string)` or `B(bool)`), records (`map<string, Value>`) and the blank-row filter.
- `program.dfy`, module `Programs`: `data/program.js`.
- `results_file.dfy`, module `ResultsFiles`: `data/results-file.js`.

Each loader is an imperative method with nested loops that mirrors the source:
it shifts the header off, fills each record field by field, and pushes it onto the result.
Each method is proved equal to a specification function (`ProgramTable`, `ResultsFileTable`).
The lemmas state the properties of those functions.
The join collects race program IDs in a loop guarded by "not yet present".
It then filters the programs and sorts them in place on an array.
It is proved to return an id-sorted permutation of the filtered programs.

Inputs the model takes as parameters:

- The spreadsheet read (opening the spreadsheet by ID, resolving the named range, taking its display values) is the `ReadResult` argument.
- `getBoolean`, whose body is not part of this model, is an arbitrary function `string -> bool` passed in.
- The named-range constant `RANGE_TABLE_RESULTS_FILE` only chooses which range is read, so it is subsumed by the read argument.

Normalisations:

- `element.eventID == eventId` (loose equality) is modelled with both sides as display strings. A caller holding a numeric event ID passes its decimal string.
- `raceIds.includes(file.raceID)` is string membership.
- In the join, program, race and relationship identifiers are integers. So `===`, `includes` and the comparator `programA.id - programB.id` are integer equality and integer order.

Header handling: every header column is visited, including those after an
empty header cell. The Program loader creates a field named `""` for an empty
header cell (data/program.js:51-53); the ResultsFile loader skips it
(data/results-file.js:45).

## Model

| member | source | states |
|---|---|---|
| `Seqs.Filter` | data/program.js:72-74 | the selection is no longer than its input and every element it keeps satisfies the predicate |
| `Seqs.FilterIsSubsequence` | data/results-file.js:68-70 | a filter keeps the relative order of the elements it keeps (it is a subsequence of its input) |
| `Seqs.FilterMultiplicity` | data/program.js:95-97 | an element satisfying the predicate occurs in the selection exactly as often as in the input; any other element does not occur |
| `Seqs.FilterMembership` | data/program.js:95-97 | an element is in the selection if and only if it is in the input and satisfies the predicate |
| `Seqs.FilterCongruent` | data/program.js:89-96 | filtering by "id is in the collected list" equals filtering by "some relationship ties the id to the race" once the two agree on every program |
| `Sheet.NonBlankRows` | data/program.js:38-40 | every kept row has a non-empty first cell, and a rectangular grid stays rectangular |
| `Sheet.NonBlankRowsSelects` | data/results-file.js:36-38 | the kept rows are the rows with a non-empty first cell, in source order, each as often as in the grid |
| `Programs.ProgramTable` | data/program.js:34-58 | a failed read gives the empty list; no non-blank row gives the empty list; otherwise there is one record per non-blank row after the header |
| `Programs.LoadPrograms` | data/program.js:32-61 | the loop that shifts the header off and builds records field by field returns exactly `ProgramTable(read)` |
| `Programs.MapProgramRows` | data/program.js:49-58 | one record per row, in order, record k being the header-keyed record of row k |
| `Programs.ProgramFieldsKeys` | data/program.js:46-55 | a program record's keys are exactly the header names minus `races`, an empty name included |
| `Programs.ProgramFieldsValue` | data/program.js:51-53 | a kept name holds the cell of the last column carrying that name |
| `Programs.ProgramTableKeys` | data/program.js:44-55 | record k of a load has as keys exactly the names of the first non-blank row minus `races`, so never `races` |
| `Programs.ProgramTableValue` | data/program.js:49-55 | record k of a load holds, under each kept name, the cell of non-blank row k + 1 in the last column carrying that name |
| `Programs.ProgramsByEventId` | data/program.js:71-75 | exactly the loaded records whose `eventID` equals the given ID, as a subsequence of the load, each as often as loaded |
| `Programs.ProgramsOfRaceSelects` | data/program.js:94-97 | the race's unsorted programs are a subsequence of `programs`; a program occurs as often as in `programs` if related to the race, else never |
| `Programs.RaceProgramIds` | data/program.js:87-92 | the collected ID list has no duplicates and contains an ID if and only if some relationship ties it to the race |
| `Programs.SortById` | data/program.js:98-100 | after the in-place sort the array is ascending by numeric id and a permutation of what it held |
| `Programs.GetRacePrograms` | data/program.js:86-101 | the result is sorted ascending by id and is a permutation of the race's filtered programs; a program is in it if and only if it is in `programs` and related to the race |
| `Programs.SortedByIdUnique` | data/program.js:94-100 | two id-sorted permutations of the same programs with distinct ids are equal, so with distinct ids the join's output is determined by ids alone, whatever order equal-id programs take |
| `Programs.ExampleProgramsOfRace` | data/program.js:88-97 | programs 2, 10, 5 with relationships (2,1), (10,1), (5,2), (2,1) select programs 2 and 10 for race 1, once each |
| `Programs.ExampleRaceProgramsDetermined` | data/program.js:98-100 | any id-sorted permutation of programs 2 and 10 is [2, 10]: 2 comes before 10 |
| `ResultsFiles.ResultsFileTable` | data/results-file.js:32-55 | the load fails exactly when the read fails; no non-blank row gives `Ok([])`; otherwise one record per non-blank row after the header |
| `ResultsFiles.LoadResultsFiles` | data/results-file.js:32-55 | the loop that shifts the header off and builds records field by field returns exactly `ResultsFileTable(read, getBoolean)` |
| `ResultsFiles.MapResultsFileRows` | data/results-file.js:42-52 | one record per row, in order, record k being the header-keyed record of row k |
| `ResultsFiles.ResultsFileFieldsKeys` | data/results-file.js:44-49 | a results-file record's keys are exactly the non-empty header names |
| `ResultsFiles.ResultsFileFieldsValue` | data/results-file.js:44-48 | a non-empty name holds the value of the cell in the last column carrying it (`getBoolean` for `active`) |
| `ResultsFiles.ResultsFileTableKeys` | data/results-file.js:39-49 | record k of a successful load has as keys exactly the non-empty names of the first non-blank row |
| `ResultsFiles.ResultsFileTableValue` | data/results-file.js:42-48 | in record k, `active` is `B(getBoolean(cell))` and every other field is `S(cell)`, the cell being that of non-blank row k + 1 in the last column carrying the name |
| `ResultsFiles.ResultsFilesByRaceIds` | data/results-file.js:65-71 | a failed load propagates; otherwise exactly the loaded records whose `raceID` is in the list, as a subsequence of the load, each as often as loaded |

## Left out

- Opening the spreadsheet, resolving the named range and reading display values: foreign I/O, replaced by the `ReadResult` argument. Which failures occur is not modelled, only that one occurred (`Err`).
- The body of `getBoolean` is not part of this model. Any function `string -> bool` is accepted.
- Ragged grids, where a missing cell reads as `undefined`: a successful read is required to be rectangular, as display values of a range are.
- `Programs.ProgramsByEventId`: does not model JavaScript's loose-equality coercion. Both sides are display strings, so a numeric event ID must be passed as its decimal string.
- `Programs.GetRacePrograms`: identifiers are integers. Non-numeric identifiers, whose subtraction gives NaN and an inconsistent comparator, are not modelled.
- `Programs.GetRacePrograms`: the source's sort is stable (`Array.prototype.sort` has been stable since ECMAScript 2019), so programs with equal identifiers keep their filter order; the model does not state that order. Its in-place insertion sort stands in for the runtime's sort and promises only ascending ids and a permutation.
- `Programs.GetRacePrograms`: in the source the identifiers are probably display strings from the loaders, so `===` and `includes` compare strings ("2" and "02" differ) and only the comparator converts to numbers. With integer identifiers the model treats "2" and "02" as the same identifier.
- `ResultsFiles.ResultsFilesByRaceIds`: `raceIds` is taken as a list of identifiers, so `includes` is list membership. The doc comment at data/results-file.js:62 types it as a string, for which `includes` would be a substring test; that reading is not modelled.
- Record field order: JavaScript objects keep insertion order (integer-like keys first), which `JSON.stringify` shows. A record here is a `map<string, Value>`, which has no order.
- Special JavaScript property names (such as `__proto__`) that an object literal treats differently from other keys: records are plain maps.
- `Programs.ProgramsByEventId`, `ResultsFiles.ResultsFilesByRaceIds`: these are functions over the specification of the loader rather than calls of the loader method, because a function cannot call a method. The loader method is proved equal to that specification.

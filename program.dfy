/** The Program table (data/program.js): loading it from a spreadsheet read,
    selecting the programs of an event, and joining programs to a race. */
module Programs {
  import opened Seqs
  import opened Sheet

  /** The one field kept out of a program record (`hiddenFields`). */
  const Hidden: string := "races"

  // ---------------------------------------------------------------------------
  // Loading: header-driven table-to-record shaping
  // ---------------------------------------------------------------------------

  /** The fields that the first `n` columns give a program record: every
      column whose header name is not hidden sets that name to its cell, so a
      later column overwrites an earlier one of the same name. */
  function ProgramFields(header: seq<string>, row: seq<string>, n: nat): Record
    requires n <= |header| <= |row|
  {
    if n == 0 then map[]
    else
      var fields := ProgramFields(header, row, n - 1);
      if header[n - 1] == Hidden then fields else fields[header[n - 1] := S(row[n - 1])]
  }

  /** The program record made from one data row under `header`. */
  function ProgramRecord(header: seq<string>, row: seq<string>): Record
    requires |header| <= |row|
  {
    ProgramFields(header, row, |header|)
  }

  /** What loading the Program table yields: nothing when the read fails;
      otherwise the first non-blank row is the header and every later
      non-blank row becomes one record, in source order. */
  function ProgramTable(read: ReadResult): (programs: seq<Record>)
    requires WellFormed(read)
    ensures read.Err? ==> programs == []
    ensures read.Ok? && NonBlankRows(read.value) == [] ==> programs == []
    ensures read.Ok? && NonBlankRows(read.value) != [] ==>
      |programs| == |NonBlankRows(read.value)| - 1
  {
    match read
    case Err => []
    case Ok(grid) =>
      var table := NonBlankRows(grid);
      if table == [] then []
      else
        seq(|table| - 1, k requires 0 <= k < |table| - 1 =>
          ProgramRecord(table[0], table[k + 1]))
  }

  /** `getProgramsByDatabaseSheetId`: a read failure gives the empty list;
      otherwise blank rows are dropped, the first remaining row is shifted
      off as the header, and each later row is turned into a record. */
  method LoadPrograms(read: ReadResult) returns (programs: seq<Record>)
    requires WellFormed(read)
    ensures programs == ProgramTable(read)
  {
    if read.Err? {
      return [];
    }
    var table := NonBlankRows(read.value);
    if table == [] {
      // `shift()` of an empty table leaves no rows to map
      return [];
    }
    ghost var nonBlank := table;
    var fields := table[0];
    table := table[1..];
    assert forall k :: 0 <= k < |table| ==> |table[k]| == |fields| by {
      assert forall k :: 0 <= k < |table| ==> table[k] == nonBlank[k + 1];
    }
    programs := MapProgramRows(fields, table);
    forall k | 0 <= k < |programs| ensures programs[k] == ProgramTable(read)[k] {
      ProgramTableRecord(read, k);
    }
  }

  /** The `tableProgram.map` pass: each row, in order, becomes a record
      filled field by field from the header and pushed onto the result. */
  method MapProgramRows(fields: seq<string>, rows: seq<seq<string>>) returns (programs: seq<Record>)
    requires forall k :: 0 <= k < |rows| ==> |rows[k]| == |fields|
    ensures |programs| == |rows|
    ensures forall k :: 0 <= k < |rows| ==> programs[k] == ProgramRecord(fields, rows[k])
  {
    programs := [];
    var i := 0;
    while i < |rows|
      invariant 0 <= i <= |rows|
      invariant |programs| == i
      invariant forall k :: 0 <= k < i ==> programs[k] == ProgramRecord(fields, rows[k])
    {
      var row := rows[i];
      var program: Record := map[];
      var c := 0;
      while c < |fields|
        invariant 0 <= c <= |fields|
        invariant program == ProgramFields(fields, row, c)
      {
        if fields[c] != Hidden {
          program := program[fields[c] := S(row[c])];
        }
        c := c + 1;
      }
      programs := programs + [program];
      i := i + 1;
    }
  }

  /** The keys of a program record are the header names minus the hidden one. */
  lemma {:induction false} ProgramFieldsKeys(header: seq<string>, row: seq<string>, n: nat)
    requires n <= |header| <= |row|
    ensures ProgramFields(header, row, n).Keys == HeaderNames(header, n) - {Hidden}
  {
    if n > 0 {
      ProgramFieldsKeys(header, row, n - 1);
      assert HeaderNames(header, n) == HeaderNames(header, n - 1) + {header[n - 1]};
    }
  }

  /** A non-hidden name holds the cell of the last column carrying it. */
  lemma {:induction false} ProgramFieldsValue(header: seq<string>, row: seq<string>, n: nat, c: nat)
    requires n <= |header| <= |row|
    requires IsLastColumnNamed(header, n, c) && header[c] != Hidden
    ensures header[c] in ProgramFields(header, row, n)
    ensures ProgramFields(header, row, n)[header[c]] == S(row[c])
  {
    if c < n - 1 {
      ProgramFieldsValue(header, row, n - 1, c);
    }
  }

  /** Record `k` of the table is the record of non-blank row `k + 1` under
      the header, which is the first non-blank row. */
  lemma ProgramTableRecord(read: ReadResult, k: nat)
    requires WellFormed(read) && read.Ok?
    requires k < |ProgramTable(read)|
    ensures var table := NonBlankRows(read.value);
      && k + 1 < |table|
      && |table[0]| == |table[k + 1]|
      && ProgramTable(read)[k] == ProgramRecord(table[0], table[k + 1])
  {
  }

  /** Record `k` of the table: its keys are exactly the header row's names
      without "races" (an empty name included), so it never holds "races". */
  lemma ProgramTableKeys(read: ReadResult, k: nat)
    requires WellFormed(read) && read.Ok?
    requires k < |ProgramTable(read)|
    ensures NonBlankRows(read.value) != []
    ensures var header := NonBlankRows(read.value)[0];
      ProgramTable(read)[k].Keys == HeaderNames(header, |header|) - {Hidden}
    ensures Hidden !in ProgramTable(read)[k]
  {
    ProgramTableRecord(read, k);
    var table := NonBlankRows(read.value);
    ProgramFieldsKeys(table[0], table[k + 1], |table[0]|);
  }

  /** Record `k` of the table is built from non-blank row `k + 1`: a kept
      name holds that row's cell in the last column the header gives it. */
  lemma ProgramTableValue(read: ReadResult, k: nat, c: nat)
    requires WellFormed(read) && read.Ok?
    requires k < |ProgramTable(read)|
    requires var header := NonBlankRows(read.value)[0];
      IsLastColumnNamed(header, |header|, c) && header[c] != Hidden
    ensures var table := NonBlankRows(read.value);
      && |table[0]| == |table[k + 1]|
      && table[0][c] in ProgramTable(read)[k]
      && ProgramTable(read)[k][table[0][c]] == S(table[k + 1][c])
  {
    ProgramTableRecord(read, k);
    var table := NonBlankRows(read.value);
    ProgramFieldsValue(table[0], table[k + 1], |table[0]|, c);
  }

  // ---------------------------------------------------------------------------
  // Selecting the programs of an event
  // ---------------------------------------------------------------------------

  /** The record's event identifier equals `eventId`; both sides are compared
      as display strings. */
  predicate HasEventId(program: Record, eventId: string) {
    "eventID" in program && program["eventID"] == S(eventId)
  }

  /** `getProgramsByEventId`: the loaded programs whose event identifier is
      `eventId`, in their original order, each as often as it was loaded. */
  function ProgramsByEventId(read: ReadResult, eventId: string): (programs: seq<Record>)
    requires WellFormed(read)
    ensures IsSubsequence(programs, ProgramTable(read))
    ensures forall p :: p in programs <==> p in ProgramTable(read) && HasEventId(p, eventId)
    ensures forall p :: multiset(programs)[p] ==
                        if HasEventId(p, eventId) then multiset(ProgramTable(read))[p] else 0
  {
    var hasEventId := (p: Record) => HasEventId(p, eventId);
    FilterIsSubsequence(ProgramTable(read), hasEventId);
    FilterMultiplicity(ProgramTable(read), hasEventId);
    FilterMembership(ProgramTable(read), hasEventId);
    Filter(ProgramTable(read), hasEventId)
  }

  // ---------------------------------------------------------------------------
  // Joining programs to a race
  // ---------------------------------------------------------------------------

  /** A program as the join sees it: its numeric identifier and its other fields. */
  datatype Program = Program(id: int, fields: Record)

  /** One Program/Race relationship row. */
  datatype Relationship = Relationship(programID: int, raceID: int)

  /** The race whose programs are wanted. */
  datatype Race = Race(id: int)

  /** Some relationship ties `programId` to `race`. */
  predicate InRace(relationships: seq<Relationship>, race: Race, programId: int) {
    exists k :: 0 <= k < |relationships| &&
      relationships[k].raceID == race.id && relationships[k].programID == programId
  }

  predicate NoDuplicates(ids: seq<int>) {
    forall i, j :: 0 <= i < j < |ids| ==> ids[i] != ids[j]
  }

  predicate SortedById(programs: seq<Program>) {
    forall i, j :: 0 <= i < j < |programs| ==> programs[i].id <= programs[j].id
  }

  /** The identifiers of `programs` are pairwise distinct. */
  predicate DistinctIds(programs: seq<Program>) {
    forall i, j :: 0 <= i < j < |programs| ==> programs[i].id != programs[j].id
  }

  /** The programs of `race` before sorting: those whose identifier is
      related to the race, in the order of `programs`. */
  function ProgramsOfRace(programs: seq<Program>, relationships: seq<Relationship>, race: Race): seq<Program> {
    Filter(programs, (p: Program) => InRace(relationships, race, p.id))
  }

  /** The programs of `race` keep their order in `programs` and each occurs
      as often as it does there, however many relationships name it. */
  lemma ProgramsOfRaceSelects(programs: seq<Program>, relationships: seq<Relationship>, race: Race)
    ensures IsSubsequence(ProgramsOfRace(programs, relationships, race), programs)
    ensures forall p :: multiset(ProgramsOfRace(programs, relationships, race))[p] ==
                        if InRace(relationships, race, p.id) then multiset(programs)[p] else 0
  {
    var inRace := (p: Program) => InRace(relationships, race, p.id);
    FilterIsSubsequence(programs, inRace);
    FilterMultiplicity(programs, inRace);
  }

  /** The `raceProgramIds` loop: the identifiers of the programs related to
      `race`, each once. */
  method RaceProgramIds(relationships: seq<Relationship>, race: Race) returns (ids: seq<int>)
    ensures NoDuplicates(ids)
    ensures forall id :: id in ids <==> InRace(relationships, race, id)
  {
    ids := [];
    for i := 0 to |relationships|
      invariant NoDuplicates(ids)
      invariant forall id :: id in ids <==>
        exists k :: 0 <= k < i &&
          relationships[k].raceID == race.id && relationships[k].programID == id
    {
      var relationship := relationships[i];
      if relationship.raceID == race.id && relationship.programID !in ids {
        ids := ids + [relationship.programID];
      }
    }
  }

  /** Exchanges two neighbouring programs of `a`. */
  method SwapWithPrevious(a: array<Program>, j: nat)
    requires 0 < j < a.Length
    modifies a
    ensures a[j - 1] == old(a[j]) && a[j] == old(a[j - 1])
    ensures forall m :: 0 <= m < a.Length && m != j - 1 && m != j ==> a[m] == old(a[m])
    ensures multiset(a[..]) == old(multiset(a[..]))
  {
    a[j - 1], a[j] := a[j], a[j - 1];
  }

  /** The in-place `sort` by ascending numeric identifier. No promise is made
      about the relative order of programs with equal identifiers. */
  method SortById(a: array<Program>)
    modifies a
    ensures SortedById(a[..])
    ensures multiset(a[..]) == old(multiset(a[..]))
  {
    var i := 0;
    while i < a.Length
      invariant 0 <= i <= a.Length
      invariant forall k, l :: 0 <= k < l < i ==> a[k].id <= a[l].id
      invariant multiset(a[..]) == old(multiset(a[..]))
    {
      var j := i;
      while 0 < j && a[j].id < a[j - 1].id
        invariant 0 <= j <= i
        invariant forall k, l :: 0 <= k < l <= i && k != j && l != j ==> a[k].id <= a[l].id
        invariant forall l :: j < l <= i ==> a[j].id <= a[l].id
        invariant multiset(a[..]) == old(multiset(a[..]))
      {
        SwapWithPrevious(a, j);
        j := j - 1;
      }
      assert 0 < j ==> a[j - 1].id <= a[j].id;
      i := i + 1;
    }
  }

  /** `getRacePrograms`: the programs related to `race`, sorted by ascending
      identifier; a permutation of `ProgramsOfRace`, so a program named by
      several relationships still appears only as often as in `programs`. */
  method GetRacePrograms(programs: seq<Program>, relationships: seq<Relationship>, race: Race)
    returns (racePrograms: seq<Program>)
    ensures SortedById(racePrograms)
    ensures multiset(racePrograms) == multiset(ProgramsOfRace(programs, relationships, race))
    ensures forall p :: p in racePrograms <==> p in programs && InRace(relationships, race, p.id)
  {
    var ids := RaceProgramIds(relationships, race);
    var inIds := (p: Program) => p.id in ids;
    var selected := Filter(programs, inIds);
    ghost var inRace := (p: Program) => InRace(relationships, race, p.id);
    FilterCongruent(programs, inIds, inRace);
    assert selected == ProgramsOfRace(programs, relationships, race);
    var a := new Program[|selected|](k requires 0 <= k < |selected| => selected[k]);
    assert a[..] == selected;
    SortById(a);
    racePrograms := a[..];
    FilterMembership(programs, inRace);
    forall p ensures p in racePrograms <==> p in selected {
      assert p in racePrograms <==> multiset(racePrograms)[p] > 0;
      assert p in selected <==> multiset(selected)[p] > 0;
    }
  }

  /** Two id-sorted orderings of the same programs, with distinct
      identifiers, are the same sequence: the sorted join is determined. */
  lemma {:induction false} SortedByIdUnique(s: seq<Program>, t: seq<Program>)
    requires SortedById(s) && SortedById(t) && DistinctIds(t)
    requires multiset(s) == multiset(t)
    ensures s == t
    decreases |s|
  {
    if s != [] {
      assert |s| == |multiset(s)| == |multiset(t)| == |t|;
      assert s[0] in multiset(t) && t[0] in multiset(s);
      var j :| 0 <= j < |t| && t[j] == s[0];
      var i :| 0 <= i < |s| && s[i] == t[0];
      assert t[0].id <= t[j].id == s[0].id <= s[i].id == t[0].id;
      assert t[0] == s[0];
      MultisetTail(s);
      MultisetTail(t);
      SortedByIdUnique(s[1..], t[1..]);
      SameHeadAndTail(s, t);
    }
  }

  /** Programs 2, 10 and 5; 2 and 10 (2 twice) belong to race 1, 5 to race 2. */
  const ExamplePrograms: seq<Program> := [Program(2, map[]), Program(10, map[]), Program(5, map[])]
  const ExampleRelationships: seq<Relationship> :=
    [Relationship(2, 1), Relationship(10, 1), Relationship(5, 2), Relationship(2, 1)]

  /** In the example, race 1 selects programs 2 and 10, once each. */
  lemma ExampleProgramsOfRace()
    ensures ProgramsOfRace(ExamplePrograms, ExampleRelationships, Race(1))
         == [Program(2, map[]), Program(10, map[])]
  {
    var relationships, race := ExampleRelationships, Race(1);
    assert InRace(relationships, race, 2) by {
      assert relationships[0].raceID == race.id && relationships[0].programID == 2;
    }
    assert InRace(relationships, race, 10) by {
      assert relationships[1].raceID == race.id && relationships[1].programID == 10;
    }
    assert !InRace(relationships, race, 5) by {
      forall k | 0 <= k < |relationships|
        ensures !(relationships[k].raceID == race.id && relationships[k].programID == 5)
      {
        assert k == 0 || k == 1 || k == 2 || k == 3;
      }
    }
    assert ExamplePrograms[1..] == [Program(10, map[]), Program(5, map[])];
    assert ExamplePrograms[1..][1..] == [Program(5, map[])];
  }

  /** Any id-sorted permutation of the example's selection is programs 2 and
      10, in that order, whatever the sort does with equal identifiers. */
  lemma ExampleRaceProgramsDetermined(racePrograms: seq<Program>)
    requires SortedById(racePrograms)
    requires multiset(racePrograms) == multiset([Program(2, map[]), Program(10, map[])])
    ensures racePrograms == [Program(2, map[]), Program(10, map[])]
  {
    var expected := [Program(2, map[]), Program(10, map[])];
    assert SortedById(expected) && DistinctIds(expected) by {
      assert expected[0].id == 2 && expected[1].id == 10 && |expected| == 2;
    }
    SortedByIdUnique(racePrograms, expected);
  }

  /** The join on the example gives programs 2 and 10, in that order. */
  method RaceProgramsExample() {
    var racePrograms := GetRacePrograms(ExamplePrograms, ExampleRelationships, Race(1));
    ExampleProgramsOfRace();
    ExampleRaceProgramsDetermined(racePrograms);
    assert racePrograms == [Program(2, map[]), Program(10, map[])];
  }
}

/** What a run of the inserter does to the table, with and without the existence check. */
module InserterProperties {
  import opened Optional
  import opened Lists
  import opened OrderedHash
  import opened Sql
  import opened Storage
  import opened FastInserter

  // ---------------------------------------------------------------------------
  // Presence of a row under the static scope

  /** Some record holds the static values and has `row` in the variable columns. */
  predicate Present(records: seq<Record>, su: Setup, row: seq<Value>)
  {
    exists r :: r in records && Matches(r, su.staticColumns) && Project(r, su.variableColumns) == row
  }

  /** The rows, in order and with their repeats, that no record holds under the static scope. */
  function Absent(records: seq<Record>, su: Setup, rows: seq<seq<Value>>): (absent: seq<seq<Value>>)
    ensures forall x :: x in absent <==> x in rows && !Present(records, su, x)
  {
    if |rows| == 0 then []
    else
      assert rows == [rows[0]] + rows[1..];
      (if Present(records, su, rows[0]) then [] else [rows[0]]) + Absent(records, su, rows[1..])
  }

  /** Adding records never hides a row. */
  lemma PresentGrows(records: seq<Record>, more: seq<Record>, su: Setup, row: seq<Value>)
    requires records <= more && Present(records, su, row)
    ensures Present(more, su, row)
  {
    var r :| r in records && Matches(r, su.staticColumns) && Project(r, su.variableColumns) == row;
    var i :| 0 <= i < |records| && records[i] == r;
    assert more[i] == r;
  }

  /** Records outside the static scope never make a row present. */
  lemma {:induction false} AbsentIgnoresOtherScopes(records: seq<Record>, others: seq<Record>, su: Setup, rows: seq<seq<Value>>)
    requires forall r :: r in others ==> !Matches(r, su.staticColumns)
    ensures Absent(records + others, su, rows) == Absent(records, su, rows)
  {
    if |rows| > 0 {
      var x := rows[0];
      if Present(records + others, su, x) {
        var r :| r in records + others && Matches(r, su.staticColumns) && Project(r, su.variableColumns) == x;
        assert r in records;
      } else if Present(records, su, x) {
        PresentGrows(records, records + others, su, x);
      }
      AbsentIgnoresOtherScopes(records, others, su, rows[1..]);
    }
  }

  // ---------------------------------------------------------------------------
  // Configurations the statements are exact for

  /** The existence check reads back what the inserter writes: there are variable columns,
      no column of the INSERT is named twice or by the empty string, and the static columns
      lead the static-column hash. */
  predicate CheckedSetup(su: Setup, allStatic: Hash<Value>)
  {
    su.options.checkForExisting && QueryWellFormed(su)
    && NoDuplicates(InsertColumns(allStatic, su.variableColumns)) && "" !in InsertColumns(allStatic, su.variableColumns)
    && su.staticColumns <= allStatic
  }

  /** A configuration with the check on, a well-formed query, no empty additional column
      name and no column named twice among the static, timestamp, additional and variable
      columns is checked against the static-column hash the inserter builds for it. */
  lemma StaticColumnSetIsChecked(su: Setup, now: int)
    requires su.options.checkForExisting && QueryWellFormed(su) && "" !in Keys(su.additionalColumns)
    requires NoDuplicates(Keys(su.staticColumns) + Keys(TimestampPairs(su.options.timestamps, now))
      + Keys(su.additionalColumns) + su.variableColumns)
    ensures CheckedSetup(su, StaticColumnSet(su, now))
  {
    var st, ts, ad := su.staticColumns, TimestampPairs(su.options.timestamps, now), su.additionalColumns;
    var keys := Keys(st) + Keys(ts) + Keys(ad);
    NoDuplicatesSplit(keys, su.variableColumns, "");
    StaticColumnSetLayout(su, now);
    KeysAppend(st, ts);
    KeysAppend(st + ts, ad);
    assert st <= st + ts + ad;
  }

  /** A record holding the static-column hash built with the clock reading `now` holds
      the static and the additional columns and, with timestamps on, has `created_at` and
      `updated_at` both at `now`. */
  lemma StampedRecord(su: Setup, now: int, r: Record)
    requires NoDuplicates(Keys(su.staticColumns) + Keys(TimestampPairs(su.options.timestamps, now)) + Keys(su.additionalColumns))
    requires Matches(r, StaticColumnSet(su, now))
    ensures Matches(r, su.staticColumns) && Matches(r, su.additionalColumns)
    ensures su.options.timestamps ==> Get(r, "created_at") == Time(now) && Get(r, "updated_at") == Time(now)
  {
    StaticColumnSetLayout(su, now);
    var ts := TimestampPairs(su.options.timestamps, now);
    MatchesParts(r, su.staticColumns, ts, su.additionalColumns);
    if su.options.timestamps {
      assert ts[0] == ("created_at", Time(now)) && ts[1] == ("updated_at", Time(now));
    }
  }

  /** A record holding a concatenation of hashes holds each of them. */
  lemma MatchesParts(r: Record, a: Hash<Value>, b: Hash<Value>, c: Hash<Value>)
    requires Matches(r, a + b + c)
    ensures Matches(r, a) && Matches(r, b) && Matches(r, c)
  {
    var h := a + b + c;
    forall i | 0 <= i < |a|
      ensures Get(r, a[i].0) == a[i].1
    {
      assert h[i] == a[i];
    }
    forall i | 0 <= i < |b|
      ensures Get(r, b[i].0) == b[i].1
    {
      assert h[|a| + i] == b[i];
    }
    forall i | 0 <= i < |c|
      ensures Get(r, c[i].0) == c[i].1
    {
      assert h[|a| + |b| + i] == c[i];
    }
  }

  /** Rows that fill the variable columns, are already in the form the type cast returns
      and, with a single variable column, are not NULL (`IN (NULL)` matches nothing). */
  predicate WellFormedRows(su: Setup, rows: seq<seq<Value>>)
  {
    forall t :: t in rows ==>
      |t| == |su.variableColumns| && NormalizeRow(t, su.normalize) == t
      && (|su.variableColumns| == 1 ==> t[0] != Null)
  }

  lemma StringifyCanonical(su: Setup, rows: seq<seq<Value>>)
    requires WellFormedRows(su, rows)
    ensures StringifyValues(rows, su.normalize) == rows
  {
    assert forall i :: 0 <= i < |rows| ==> rows[i] in rows;
  }

  /** The record an INSERT of `row` creates holds every value of the static-column hash
      (static, timestamp and additional columns) and has `row` in the variable columns. */
  lemma InsertedRecordHoldsStatic(su: Setup, allStatic: Hash<Value>, row: seq<Value>)
    requires NoDuplicates(InsertColumns(allStatic, su.variableColumns)) && |row| == |su.variableColumns|
    ensures var r := RecordOf(InsertColumns(allStatic, su.variableColumns), Vals(allStatic) + row);
      Matches(r, allStatic) && Project(r, su.variableColumns) == row
  {
    InsertedRecordMatches(allStatic, su.variableColumns, row);
    InsertedRecordProjects(allStatic, su.variableColumns, row);
  }

  lemma InsertedRecordMatches(allStatic: Hash<Value>, vc: seq<string>, row: seq<Value>)
    requires NoDuplicates(Keys(allStatic) + vc) && |row| == |vc|
    ensures Matches(RecordOf(Keys(allStatic) + vc, Vals(allStatic) + row), allStatic)
  {
    var columns := Keys(allStatic) + vc;
    var values := Vals(allStatic) + row;
    forall i | 0 <= i < |allStatic|
      ensures Get(RecordOf(columns, values), allStatic[i].0) == allStatic[i].1
    {
      assert columns[i] == allStatic[i].0 && values[i] == allStatic[i].1;
      RecordOfAt(columns, values, i);
    }
  }

  lemma InsertedRecordProjects(allStatic: Hash<Value>, vc: seq<string>, row: seq<Value>)
    requires NoDuplicates(Keys(allStatic) + vc) && |row| == |vc|
    ensures Project(RecordOf(Keys(allStatic) + vc, Vals(allStatic) + row), vc) == row
  {
    var columns := Keys(allStatic) + vc;
    var values := Vals(allStatic) + row;
    var n := |allStatic|;
    forall j | 0 <= j < |vc|
      ensures Project(RecordOf(columns, values), vc)[j] == row[j]
    {
      assert columns[n + j] == vc[j] && values[n + j] == row[j];
      RecordOfAt(columns, values, n + j);
    }
  }

  /** Under a checked setup, the record an INSERT of `row` creates makes `row` present. */
  lemma InsertedRecordIsPresent(su: Setup, allStatic: Hash<Value>, row: seq<Value>)
    requires CheckedSetup(su, allStatic) && |row| == |su.variableColumns|
    ensures var r := RecordOf(InsertColumns(allStatic, su.variableColumns), Vals(allStatic) + row);
      Matches(r, allStatic) && Matches(r, su.staticColumns) && Project(r, su.variableColumns) == row
  {
    InsertedRecordHoldsStatic(su, allStatic, row);
    var r := RecordOf(InsertColumns(allStatic, su.variableColumns), Vals(allStatic) + row);
    forall i | 0 <= i < |su.staticColumns|
      ensures Get(r, su.staticColumns[i].0) == su.staticColumns[i].1
    {
      assert su.staticColumns[i] == allStatic[i];
    }
  }

  /** A group's row the existence query returns is present. */
  lemma ExistingOnlyIfPresent(su: Setup, records: seq<Record>, group: seq<seq<Value>>, x: seq<Value>)
    requires |su.variableColumns| >= 1 && NoDuplicates(su.variableColumns) && WellFormedRows(su, group)
    requires x in StringifyValues(SelectRows(records, WhereFor(su, group), su.variableColumns), su.normalize)
    ensures Present(records, su, x)
  {
    var rows := SelectRows(records, WhereFor(su, group), su.variableColumns);
    var k :| 0 <= k < |rows| && NormalizeRow(rows[k], su.normalize) == x;
    assert rows[k] in rows;
    var r :| r in records && Eval(WhereFor(su, group), r) && Project(r, su.variableColumns) == rows[k];
    ExistenceQuerySelects(su, group, r);
  }

  /** A present row of the group is among the values the existence query returns. */
  lemma PresentOnlyIfExisting(su: Setup, records: seq<Record>, group: seq<seq<Value>>, x: seq<Value>)
    requires |su.variableColumns| >= 1 && NoDuplicates(su.variableColumns) && WellFormedRows(su, group)
    requires x in group && Present(records, su, x)
    ensures x in StringifyValues(SelectRows(records, WhereFor(su, group), su.variableColumns), su.normalize)
  {
    var rows := SelectRows(records, WhereFor(su, group), su.variableColumns);
    var r :| r in records && Matches(r, su.staticColumns) && Project(r, su.variableColumns) == x;
    ExistenceQuerySelects(su, group, r);
    assert x in rows;
    var k :| 0 <= k < |rows| && rows[k] == x;
    assert StringifyValues(rows, su.normalize)[k] == x;
  }

  /** With every row of `a` in `b` exactly when it is present, `a - b` keeps the absent rows. */
  lemma {:induction false} DifferenceIsAbsent(a: seq<seq<Value>>, b: seq<seq<Value>>, records: seq<Record>, su: Setup)
    requires forall x :: x in a ==> (x in b <==> Present(records, su, x))
    ensures Difference(a, b) == Absent(records, su, a)
  {
    if |a| > 0 {
      assert a[0] in a;
      assert forall x :: x in a[1..] ==> x in a;
      DifferenceIsAbsent(a[1..], b, records, su);
    }
  }

  // ---------------------------------------------------------------------------
  // The records an INSERT of some rows creates

  /** Every row fills the variable columns. */
  predicate Fits(su: Setup, rows: seq<seq<Value>>)
  {
    forall i :: 0 <= i < |rows| ==> |rows[i]| == |su.variableColumns|
  }

  /** The records an INSERT of `rows` under the static columns `allStatic` creates, one per
      row and in the order of the rows. */
  function Inserted(su: Setup, allStatic: Hash<Value>, rows: seq<seq<Value>>): (r: seq<Record>)
    requires Fits(su, rows)
    ensures |r| == |rows|
  {
    if |rows| == 0 then []
    else
      var last := rows[|rows| - 1];
      assert last in rows;
      Inserted(su, allStatic, rows[..|rows| - 1])
        + [RecordOf(InsertColumns(allStatic, su.variableColumns), Vals(allStatic) + last)]
  }

  /** The k-th record an INSERT creates holds the static values and the k-th row. */
  lemma {:induction false} InsertedAt(su: Setup, allStatic: Hash<Value>, rows: seq<seq<Value>>, k: nat)
    requires Fits(su, rows) && k < |rows|
    ensures Inserted(su, allStatic, rows)[k] == RecordOf(InsertColumns(allStatic, su.variableColumns), Vals(allStatic) + rows[k])
  {
    if k < |rows| - 1 {
      var init := rows[..|rows| - 1];
      InsertedAt(su, allStatic, init, k);
    }
  }

  /** An INSERT of fitting rows creates exactly the records `Inserted` lists. */
  lemma InsertedIsRecordsOf(su: Setup, allStatic: Hash<Value>, rows: seq<seq<Value>>)
    requires Fits(su, rows)
    ensures forall i :: 0 <= i < |FullTuples(allStatic, rows)| ==>
      |FullTuples(allStatic, rows)[i]| == |InsertColumns(allStatic, su.variableColumns)|
    ensures Inserted(su, allStatic, rows) == RecordsOf(InsertColumns(allStatic, su.variableColumns), FullTuples(allStatic, rows))
  {
    var tuples := FullTuples(allStatic, rows);
    forall i | 0 <= i < |tuples|
      ensures |tuples[i]| == |InsertColumns(allStatic, su.variableColumns)|
    {
      assert tuples[i] == Vals(allStatic) + rows[i];
    }
    forall i | 0 <= i < |rows|
      ensures Inserted(su, allStatic, rows)[i] == RecordsOf(InsertColumns(allStatic, su.variableColumns), tuples)[i]
    {
      InsertedAt(su, allStatic, rows, i);
    }
  }

  /** Every row an INSERT under a checked setup creates is then present. */
  lemma InsertedRowsArePresent(su: Setup, allStatic: Hash<Value>, records: seq<Record>, rows: seq<seq<Value>>)
    requires CheckedSetup(su, allStatic) && Fits(su, rows)
    ensures forall x :: x in rows ==> Present(records + Inserted(su, allStatic, rows), su, x)
  {
    var after := records + Inserted(su, allStatic, rows);
    forall x | x in rows
      ensures Present(after, su, x)
    {
      var k :| 0 <= k < |rows| && rows[k] == x;
      InsertedAt(su, allStatic, rows, k);
      InsertedRecordIsPresent(su, allStatic, x);
      assert after[|records| + k] in after;
    }
  }

  /** Every record an INSERT of fitting rows creates holds every static-column value. */
  lemma InsertedHoldStatic(su: Setup, allStatic: Hash<Value>, rows: seq<seq<Value>>)
    requires NoDuplicates(InsertColumns(allStatic, su.variableColumns)) && Fits(su, rows)
    ensures forall r :: r in Inserted(su, allStatic, rows) ==> Matches(r, allStatic)
  {
    var ins := Inserted(su, allStatic, rows);
    forall r | r in ins
      ensures Matches(r, allStatic)
    {
      var k :| 0 <= k < |ins| && ins[k] == r;
      InsertedAt(su, allStatic, rows, k);
      InsertedRecordHoldsStatic(su, allStatic, rows[k]);
    }
  }

  lemma FitsAppend(su: Setup, a: seq<seq<Value>>, b: seq<seq<Value>>)
    requires Fits(su, a) && Fits(su, b)
    ensures Fits(su, a + b)
  {
  }

  /** Inserting two runs of rows one after the other creates the records of both, in order. */
  lemma {:induction false} InsertedAppend(su: Setup, allStatic: Hash<Value>, a: seq<seq<Value>>, b: seq<seq<Value>>)
    requires Fits(su, a) && Fits(su, b) && Fits(su, a + b)
    ensures Inserted(su, allStatic, a + b) == Inserted(su, allStatic, a) + Inserted(su, allStatic, b)
    decreases |b|
  {
    if |b| > 0 {
      var init := b[..|b| - 1];
      assert (a + b)[..|a + b| - 1] == a + init;
      InsertedAppend(su, allStatic, a, init);
    } else {
      assert a + b == a;
    }
  }

  /** The INSERT of some fitting rows is accepted when there are rows and no column repeats. */
  lemma InsertAcceptedFor(su: Setup, allStatic: Hash<Value>, rows: seq<seq<Value>>)
    requires Fits(su, rows) && |rows| > 0 && NoDuplicates(InsertColumns(allStatic, su.variableColumns))
    ensures InsertAccepted(InsertColumns(allStatic, su.variableColumns), FullTuples(allStatic, rows))
  {
    var tuples := FullTuples(allStatic, rows);
    forall i | 0 <= i < |tuples|
      ensures |tuples[i]| == |InsertColumns(allStatic, su.variableColumns)|
    {
      assert rows[i] in rows;
      assert tuples[i] == Vals(allStatic) + rows[i];
    }
  }

  /** Nothing is absent when every row is present. */
  lemma {:induction false} AbsentOfPresentRows(records: seq<Record>, su: Setup, rows: seq<seq<Value>>)
    requires forall x :: x in rows ==> Present(records, su, x)
    ensures Absent(records, su, rows) == []
  {
    if |rows| > 0 {
      assert rows[0] in rows;
      assert forall x :: x in rows[1..] ==> x in rows;
      AbsentOfPresentRows(records, su, rows[1..]);
    }
  }

  // ---------------------------------------------------------------------------
  // One group with the existence check

  /** With the existence check, a group runs its SELECT, then inserts exactly the rows no
      record holds under the static scope, in order, and nothing when there are none. */
  lemma CheckedGroupEffect(step: Step, su: Setup, allStatic: Hash<Value>, records: seq<Record>, group: seq<seq<Value>>)
    requires IsGroupStep(step, su) && CheckedSetup(su, allStatic) && WellFormedRows(su, group)
    ensures Fits(su, Absent(records, su, group))
    ensures var absent := Absent(records, su, group);
      var e := step(allStatic, records, group);
      e.ok
      && e.records == records + Inserted(su, allStatic, absent)
      && e.statements == [ExistingValuesSql(su, group)] + (if |absent| == 0 then [] else [InsertionSql(su, allStatic, absent)])
  {
    assert step(allStatic, records, group) == GroupEffect(su, allStatic, records, group);
    CheckedEffect(su, allStatic, records, group);
  }

  lemma CheckedEffect(su: Setup, allStatic: Hash<Value>, records: seq<Record>, group: seq<seq<Value>>)
    requires CheckedSetup(su, allStatic) && WellFormedRows(su, group)
    ensures Fits(su, Absent(records, su, group))
    ensures var absent := Absent(records, su, group);
      var e := GroupEffect(su, allStatic, records, group);
      e.ok
      && e.records == records + Inserted(su, allStatic, absent)
      && e.statements == [ExistingValuesSql(su, group)] + (if |absent| == 0 then [] else [InsertionSql(su, allStatic, absent)])
  {
    CheckedNonExisting(su, allStatic, records, group);
    var absent := Absent(records, su, group);
    if |absent| > 0 {
      InsertGroupOfFittingRows(su, allStatic, records, absent);
    }
  }

  /** The rows a checked group finds no existing row for are exactly the absent ones. */
  lemma CheckedNonExisting(su: Setup, allStatic: Hash<Value>, records: seq<Record>, group: seq<seq<Value>>)
    requires CheckedSetup(su, allStatic) && WellFormedRows(su, group)
    ensures Fits(su, Absent(records, su, group))
    ensures var existing := StringifyValues(SelectRows(records, WhereFor(su, group), su.variableColumns), su.normalize);
      Difference(StringifyValues(group, su.normalize), existing) == Absent(records, su, group)
  {
    var vc := su.variableColumns;
    NoDuplicatesSplit(Keys(allStatic), vc, "");
    var existing := StringifyValues(SelectRows(records, WhereFor(su, group), vc), su.normalize);
    StringifyCanonical(su, group);
    forall x | x in group
      ensures x in existing <==> Present(records, su, x)
    {
      if x in existing {
        ExistingOnlyIfPresent(su, records, group, x);
      }
      if Present(records, su, x) {
        PresentOnlyIfExisting(su, records, group, x);
      }
    }
    DifferenceIsAbsent(group, existing, records, su);
    var absent := Absent(records, su, group);
    forall i | 0 <= i < |absent|
      ensures |absent[i]| == |vc|
    {
      assert absent[i] in absent;
    }
  }

  /** The INSERT can be written when there is a table to name, a variable column for
      every row to fill, and no column named by the empty string. */
  predicate Insertable(su: Setup, allStatic: Hash<Value>)
  {
    su.table != "" && |su.variableColumns| >= 1 && "" !in InsertColumns(allStatic, su.variableColumns)
  }

  /** One INSERT of fitting rows is accepted and appends the records of the rows. */
  lemma InsertGroupOfFittingRows(su: Setup, allStatic: Hash<Value>, records: seq<Record>, rows: seq<seq<Value>>)
    requires Insertable(su, allStatic) && NoDuplicates(InsertColumns(allStatic, su.variableColumns)) && |rows| > 0 && Fits(su, rows)
    ensures InsertGroup(su, allStatic, records, rows)
      == Effect(records + Inserted(su, allStatic, rows), [InsertionSql(su, allStatic, rows)], true)
  {
    assert InsertionWellFormed(su, allStatic, rows);
    InsertAcceptedFor(su, allStatic, rows);
    InsertedIsRecordsOf(su, allStatic, rows);
  }

  /** After a checked group every one of its rows is present, and the records before it
      are kept. */
  lemma CheckedGroupMakesRowsPresent(step: Step, su: Setup, allStatic: Hash<Value>, records: seq<Record>, group: seq<seq<Value>>)
    requires IsGroupStep(step, su) && CheckedSetup(su, allStatic) && WellFormedRows(su, group)
    ensures step(allStatic, records, group).ok
    ensures records <= step(allStatic, records, group).records
    ensures forall x :: x in group ==> Present(step(allStatic, records, group).records, su, x)
  {
    CheckedGroupEffect(step, su, allStatic, records, group);
    var absent := Absent(records, su, group);
    var added := Inserted(su, allStatic, absent);
    InsertedRowsArePresent(su, allStatic, records, absent);
    forall x | x in group && Present(records, su, x)
      ensures Present(records + added, su, x)
    {
      PresentGrows(records, records + added, su, x);
    }
  }

  /** A checked group whose rows are all present changes no record. */
  lemma CheckedGroupOfPresentRows(step: Step, su: Setup, allStatic: Hash<Value>, records: seq<Record>, group: seq<seq<Value>>)
    requires IsGroupStep(step, su) && CheckedSetup(su, allStatic) && WellFormedRows(su, group)
    requires forall x :: x in group ==> Present(records, su, x)
    ensures step(allStatic, records, group).ok
    ensures step(allStatic, records, group).records == records
  {
    CheckedGroupEffect(step, su, allStatic, records, group);
    AbsentOfPresentRows(records, su, group);
    assert Inserted(su, allStatic, []) == [];
  }

  // ---------------------------------------------------------------------------
  // Whole runs

  /** Rows the check is exact for, in every group. */
  predicate WellFormedGroups(su: Setup, groups: seq<seq<seq<Value>>>)
  {
    forall k :: 0 <= k < |groups| ==> WellFormedRows(su, groups[k])
  }

  /** A checked run never fails, only appends records, and leaves every row of the
      groups it ran present. */
  lemma {:induction false} CheckedRunMakesRowsPresent(step: Step, su: Setup, allStatic: Hash<Value>, records: seq<Record>, groups: seq<seq<seq<Value>>>, n: nat)
    requires IsGroupStep(step, su) && n <= |groups| && CheckedSetup(su, allStatic) && WellFormedGroups(su, groups)
    ensures var run := RunGroups(step, allStatic, records, groups, n);
      run.failedGroup == None && records <= run.records
      && forall k, x :: 0 <= k < n && x in groups[k] ==> Present(run.records, su, x)
  {
    if n > 0 {
      CheckedRunMakesRowsPresent(step, su, allStatic, records, groups, n - 1);
      var prev := RunGroups(step, allStatic, records, groups, n - 1);
      CheckedGroupMakesRowsPresent(step, su, allStatic, prev.records, groups[n - 1]);
      var e := step(allStatic, prev.records, groups[n - 1]);
      assert RunGroups(step, allStatic, records, groups, n) == Run(e.records, prev.statements + e.statements, None);
      var next := e.records;
      forall k, x | 0 <= k < n - 1 && x in groups[k]
        ensures Present(next, su, x)
      {
        PresentGrows(prev.records, next, su, x);
      }
    }
  }

  /** Re-running groups whose rows are all present changes no record. */
  lemma {:induction false} RerunOfPresentRows(step: Step, su: Setup, allStatic: Hash<Value>, records: seq<Record>, groups: seq<seq<seq<Value>>>, n: nat)
    requires IsGroupStep(step, su) && n <= |groups| && CheckedSetup(su, allStatic) && WellFormedGroups(su, groups)
    requires forall k, x :: 0 <= k < n && x in groups[k] ==> Present(records, su, x)
    ensures RunGroups(step, allStatic, records, groups, n).failedGroup == None
    ensures RunGroups(step, allStatic, records, groups, n).records == records
  {
    if n > 0 {
      RerunOfPresentRows(step, su, allStatic, records, groups, n - 1);
      CheckedGroupOfPresentRows(step, su, allStatic, records, groups[n - 1]);
    }
  }

  /** With the existence check, running the same groups again changes no record, even
      when the second run is a new inserter whose timestamps read the clock again. */
  lemma CheckedRunIsIdempotent(step: Step, su: Setup, first: Hash<Value>, second: Hash<Value>, records: seq<Record>, groups: seq<seq<seq<Value>>>)
    requires IsGroupStep(step, su) && CheckedSetup(su, first) && CheckedSetup(su, second) && WellFormedGroups(su, groups)
    ensures var once := RunGroups(step, first, records, groups, |groups|).records;
      RunGroups(step, second, once, groups, |groups|).records == once
  {
    CheckedRunMakesRowsPresent(step, su, first, records, groups, |groups|);
    var once := RunGroups(step, first, records, groups, |groups|).records;
    RerunOfPresentRows(step, su, second, once, groups, |groups|);
  }

  /** Every record of `rs` holds every value of the hash `h`. */
  predicate AllMatch(rs: seq<Record>, h: Hash<Value>)
  {
    forall i :: 0 <= i < |rs| ==> Matches(rs[i], h)
  }

  lemma AllMatchAppend(a: seq<Record>, b: seq<Record>, h: Hash<Value>)
    requires AllMatch(a, h) && AllMatch(b, h)
    ensures AllMatch(a + b, h)
  {
    forall i | 0 <= i < |a + b|
      ensures Matches((a + b)[i], h)
    {
      if i >= |a| {
        assert (a + b)[i] == b[i - |a|];
      }
    }
  }

  lemma InsertedMatchAll(su: Setup, allStatic: Hash<Value>, rows: seq<seq<Value>>)
    requires NoDuplicates(InsertColumns(allStatic, su.variableColumns)) && Fits(su, rows)
    ensures AllMatch(Inserted(su, allStatic, rows), allStatic)
  {
    InsertedHoldStatic(su, allStatic, rows);
    var rs := Inserted(su, allStatic, rows);
    forall i | 0 <= i < |rs|
      ensures Matches(rs[i], allStatic)
    {
      assert rs[i] in rs;
    }
  }

  /** Records appended in two steps that each hold `h` hold `h` together. */
  lemma AllMatchExtend(records: seq<Record>, mid: seq<Record>, last: seq<Record>, h: Hash<Value>)
    requires records <= mid <= last
    requires AllMatch(mid[|records|..], h) && AllMatch(last[|mid|..], h)
    ensures AllMatch(last[|records|..], h)
  {
    assert last[|records|..] == mid[|records|..] + last[|mid|..];
    AllMatchAppend(mid[|records|..], last[|mid|..], h);
  }

  /** A checked group appends only records that hold every value of the static-column hash. */
  lemma CheckedGroupHoldsStatic(step: Step, su: Setup, allStatic: Hash<Value>, records: seq<Record>, group: seq<seq<Value>>)
    requires IsGroupStep(step, su) && CheckedSetup(su, allStatic) && WellFormedRows(su, group)
    ensures var e := step(allStatic, records, group);
      e.ok && records <= e.records && AllMatch(e.records[|records|..], allStatic)
  {
    CheckedGroupEffect(step, su, allStatic, records, group);
    var absent := Absent(records, su, group);
    InsertedMatchAll(su, allStatic, absent);
    var e := step(allStatic, records, group);
    assert e.records[|records|..] == Inserted(su, allStatic, absent);
  }

  /** A checked run appends only records that hold every value of the static-column hash. */
  lemma {:induction false} CheckedRunRecordsHoldStatic(step: Step, su: Setup, allStatic: Hash<Value>, records: seq<Record>, groups: seq<seq<seq<Value>>>, n: nat)
    requires IsGroupStep(step, su) && n <= |groups| && CheckedSetup(su, allStatic) && WellFormedGroups(su, groups)
    ensures var run := RunGroups(step, allStatic, records, groups, n);
      run.failedGroup == None && records <= run.records && AllMatch(run.records[|records|..], allStatic)
  {
    if n == 0 {
      assert RunGroups(step, allStatic, records, groups, 0).records[|records|..] == [];
    } else {
      CheckedRunRecordsHoldStatic(step, su, allStatic, records, groups, n - 1);
      var prev := RunGroups(step, allStatic, records, groups, n - 1);
      CheckedGroupHoldsStatic(step, su, allStatic, prev.records, groups[n - 1]);
      var e := step(allStatic, prev.records, groups[n - 1]);
      assert RunGroups(step, allStatic, records, groups, n) == Run(e.records, prev.statements + e.statements, None);
      AllMatchExtend(records, prev.records, e.records, allStatic);
    }
  }

  /** The records a fresh inserter appends, all holding its static-column hash, hold the
      static and additional columns and, with timestamps on, have `created_at` and
      `updated_at` at the one clock reading the hash was built with. */
  lemma StampedRecords(su: Setup, now: int, rs: seq<Record>)
    requires NoDuplicates(Keys(su.staticColumns) + Keys(TimestampPairs(su.options.timestamps, now)) + Keys(su.additionalColumns))
    requires AllMatch(rs, StaticColumnSet(su, now))
    ensures forall i :: 0 <= i < |rs| ==>
      Matches(rs[i], su.staticColumns) && Matches(rs[i], su.additionalColumns)
      && (su.options.timestamps ==> Get(rs[i], "created_at") == Time(now) && Get(rs[i], "updated_at") == Time(now))
  {
    forall i | 0 <= i < |rs|
      ensures Matches(rs[i], su.staticColumns) && Matches(rs[i], su.additionalColumns)
      ensures su.options.timestamps ==> Get(rs[i], "created_at") == Time(now) && Get(rs[i], "updated_at") == Time(now)
    {
      StampedRecord(su, now, rs[i]);
    }
  }

  /** With the existence check, every record a run of a fresh inserter appends holds the
      static and additional columns, and with timestamps on is stamped at its clock reading. */
  lemma CheckedRunStampsRecords(step: Step, su: Setup, now: int, records: seq<Record>, groups: seq<seq<seq<Value>>>)
    requires IsGroupStep(step, su) && CheckedSetup(su, StaticColumnSet(su, now)) && WellFormedGroups(su, groups)
    requires NoDuplicates(Keys(su.staticColumns) + Keys(TimestampPairs(su.options.timestamps, now)) + Keys(su.additionalColumns))
    ensures var run := RunGroups(step, StaticColumnSet(su, now), records, groups, |groups|);
      records <= run.records
      && var added := run.records[|records|..];
      forall i :: 0 <= i < |added| ==>
        Matches(added[i], su.staticColumns) && Matches(added[i], su.additionalColumns)
        && (su.options.timestamps ==> Get(added[i], "created_at") == Time(now) && Get(added[i], "updated_at") == Time(now))
  {
    var allStatic := StaticColumnSet(su, now);
    CheckedRunRecordsHoldStatic(step, su, allStatic, records, groups, |groups|);
    var run := RunGroups(step, allStatic, records, groups, |groups|);
    StampedRecords(su, now, run.records[|records|..]);
  }

  /** Every group holds at least one row, and every row fills the variable columns. */
  predicate FittingGroups(su: Setup, groups: seq<seq<seq<Value>>>)
  {
    forall k :: 0 <= k < |groups| ==> |groups[k]| > 0 && Fits(su, groups[k])
  }

  /** Without the existence check, one fitting group inserts all its rows with one INSERT. */
  lemma UncheckedGroupEffect(step: Step, su: Setup, allStatic: Hash<Value>, records: seq<Record>, group: seq<seq<Value>>)
    requires IsGroupStep(step, su) && !su.options.checkForExisting && Insertable(su, allStatic)
    requires NoDuplicates(InsertColumns(allStatic, su.variableColumns)) && |group| > 0 && Fits(su, group)
    ensures var e := step(allStatic, records, group);
      e.ok && e.records == records + Inserted(su, allStatic, group) && e.statements == [InsertionSql(su, allStatic, group)]
  {
    assert step(allStatic, records, group) == GroupEffect(su, allStatic, records, group);
    InsertGroupOfFittingRows(su, allStatic, records, group);
  }

  /** The INSERT statements of the first n groups, one per group. */
  function Insertions(su: Setup, allStatic: Hash<Value>, groups: seq<seq<seq<Value>>>, n: nat): (r: seq<string>)
    requires n <= |groups|
    ensures |r| == n
  {
    if n == 0 then [] else Insertions(su, allStatic, groups, n - 1) + [InsertionSql(su, allStatic, groups[n - 1])]
  }

  /** One more fitting group without the check extends the run by its rows and its INSERT. */
  lemma UncheckedRunStep(step: Step, su: Setup, allStatic: Hash<Value>, records: seq<Record>, groups: seq<seq<seq<Value>>>, n: nat)
    requires IsGroupStep(step, su) && 0 < n <= |groups| && !su.options.checkForExisting && Insertable(su, allStatic)
    requires NoDuplicates(InsertColumns(allStatic, su.variableColumns)) && |groups[n - 1]| > 0
    requires Fits(su, groups[n - 1]) && Fits(su, Flatten(groups[..n - 1]))
    requires var run := RunGroups(step, allStatic, records, groups, n - 1);
      run.failedGroup == None
      && run.records == records + Inserted(su, allStatic, Flatten(groups[..n - 1]))
      && run.statements == Insertions(su, allStatic, groups, n - 1)
    ensures Fits(su, Flatten(groups[..n]))
    ensures var run := RunGroups(step, allStatic, records, groups, n);
      run.failedGroup == None
      && run.records == records + Inserted(su, allStatic, Flatten(groups[..n]))
      && run.statements == Insertions(su, allStatic, groups, n)
  {
    var g := groups[n - 1];
    var prev := RunGroups(step, allStatic, records, groups, n - 1);
    var e := step(allStatic, prev.records, g);
    UncheckedGroupEffect(step, su, allStatic, prev.records, g);
    assert RunGroups(step, allStatic, records, groups, n) == Run(e.records, prev.statements + e.statements, None);
    FlattenTake(groups, n);
    InsertedExtend(su, allStatic, records, Flatten(groups[..n - 1]), g);
  }

  /** Appending the records of more rows to those of some rows gives the records of both. */
  lemma InsertedExtend(su: Setup, allStatic: Hash<Value>, records: seq<Record>, a: seq<seq<Value>>, b: seq<seq<Value>>)
    requires Fits(su, a) && Fits(su, b)
    ensures Fits(su, a + b)
    ensures records + Inserted(su, allStatic, a) + Inserted(su, allStatic, b) == records + Inserted(su, allStatic, a + b)
  {
    FitsAppend(su, a, b);
    InsertedAppend(su, allStatic, a, b);
  }

  /** Without the existence check, a run of fitting groups inserts every row of every group,
      in order and with repeats, with one INSERT per group. */
  lemma {:induction false} UncheckedRunInsertsEveryRow(step: Step, su: Setup, allStatic: Hash<Value>, records: seq<Record>, groups: seq<seq<seq<Value>>>, n: nat)
    requires IsGroupStep(step, su) && n <= |groups| && !su.options.checkForExisting && Insertable(su, allStatic)
    requires NoDuplicates(InsertColumns(allStatic, su.variableColumns)) && FittingGroups(su, groups)
    ensures Fits(su, Flatten(groups[..n]))
    ensures var run := RunGroups(step, allStatic, records, groups, n);
      run.failedGroup == None
      && run.records == records + Inserted(su, allStatic, Flatten(groups[..n]))
      && run.statements == Insertions(su, allStatic, groups, n)
  {
    if n == 0 {
      assert groups[..0] == [];
    } else {
      UncheckedRunInsertsEveryRow(step, su, allStatic, records, groups, n - 1);
      UncheckedRunStep(step, su, allStatic, records, groups, n);
    }
  }

  /** Without the existence check, every record a run of a fresh inserter appends holds
      the static and additional columns, and with timestamps on is stamped at its clock
      reading. */
  lemma UncheckedRunStampsRecords(step: Step, su: Setup, now: int, records: seq<Record>, groups: seq<seq<seq<Value>>>)
    requires IsGroupStep(step, su) && !su.options.checkForExisting && Insertable(su, StaticColumnSet(su, now))
    requires NoDuplicates(InsertColumns(StaticColumnSet(su, now), su.variableColumns)) && FittingGroups(su, groups)
    requires NoDuplicates(Keys(su.staticColumns) + Keys(TimestampPairs(su.options.timestamps, now)) + Keys(su.additionalColumns))
    ensures var run := RunGroups(step, StaticColumnSet(su, now), records, groups, |groups|);
      records <= run.records
      && var added := run.records[|records|..];
      forall i :: 0 <= i < |added| ==>
        Matches(added[i], su.staticColumns) && Matches(added[i], su.additionalColumns)
        && (su.options.timestamps ==> Get(added[i], "created_at") == Time(now) && Get(added[i], "updated_at") == Time(now))
  {
    var allStatic := StaticColumnSet(su, now);
    UncheckedRunInsertsEveryRow(step, su, allStatic, records, groups, |groups|);
    var rows := Flatten(groups[..|groups|]);
    InsertedMatchAll(su, allStatic, rows);
    var run := RunGroups(step, allStatic, records, groups, |groups|);
    assert run.records[|records|..] == Inserted(su, allStatic, rows);
    StampedRecords(su, now, run.records[|records|..]);
  }

  /** Without the existence check, the first group with a row that does not fill the columns
      fails: the groups before it stay inserted and no later group runs. */
  lemma UncheckedRunStopsAtMisfit(step: Step, su: Setup, allStatic: Hash<Value>, records: seq<Record>, groups: seq<seq<seq<Value>>>, j: nat)
    requires IsGroupStep(step, su) && j < |groups| && !su.options.checkForExisting && Insertable(su, allStatic)
    requires NoDuplicates(InsertColumns(allStatic, su.variableColumns)) && FittingGroups(su, groups[..j])
    requires !Fits(su, groups[j])
    ensures Fits(su, Flatten(groups[..j]))
    ensures var run := RunGroups(step, allStatic, records, groups, |groups|);
      run.failedGroup == Some(j) && run.records == records + Inserted(su, allStatic, Flatten(groups[..j]))
  {
    UncheckedRunInsertsEveryRow(step, su, allStatic, records, groups[..j], j);
    assert groups[..j][..j] == groups[..j];
    RunGroupsPrefix(step, allStatic, records, groups, j);
    var prev := RunGroups(step, allStatic, records, groups, j);
    var k :| 0 <= k < |groups[j]| && |groups[j][k]| != |su.variableColumns|;
    assert step(allStatic, prev.records, groups[j]) == GroupEffect(su, allStatic, prev.records, groups[j]);
    assert FullTuples(allStatic, groups[j])[k] == Vals(allStatic) + groups[j][k];
    assert |FullTuples(allStatic, groups[j])[k]| != |InsertColumns(allStatic, su.variableColumns)|;
    RunGroupsStopsAtFailure(step, allStatic, records, groups, j + 1, |groups|);
  }

  /** Without the existence check and with no table, no variable column or a column
      named by the empty string, the INSERT cannot be written: a run stops at its first group, having sent only that group's
      INSERT and changed no record. */
  lemma UninsertableRunFails(step: Step, su: Setup, allStatic: Hash<Value>, records: seq<Record>, groups: seq<seq<seq<Value>>>)
    requires IsGroupStep(step, su) && !su.options.checkForExisting && !Insertable(su, allStatic) && |groups| > 0
    ensures RunGroups(step, allStatic, records, groups, |groups|) == Run(records, [InsertionSql(su, allStatic, groups[0])], Some(0))
  {
    var g := groups[0];
    assert step(allStatic, records, g) == GroupEffect(su, allStatic, records, g);
    if su.table != "" && "" !in InsertColumns(allStatic, su.variableColumns) && |g| > 0 && |g[0]| > 0 {
      // then there is no variable column, and the row does not fit
      assert FullTuples(allStatic, g)[0] == Vals(allStatic) + g[0];
      assert |FullTuples(allStatic, g)[0]| != |InsertColumns(allStatic, su.variableColumns)|;
    }
    assert RunGroups(step, allStatic, records, groups, 1) == Run(records, [InsertionSql(su, allStatic, g)], Some(0));
    RunGroupsStopsAtFailure(step, allStatic, records, groups, 1, |groups|);
  }

  /** With the existence check on and a query that cannot be written (no table, no static
      or no variable column, or a column named by the empty string), a run stops at its first group, having sent only that group's query
      and changed no record. */
  lemma RejectedQueryRun(step: Step, su: Setup, allStatic: Hash<Value>, records: seq<Record>, groups: seq<seq<seq<Value>>>)
    requires IsGroupStep(step, su) && su.options.checkForExisting && !QueryWellFormed(su) && |groups| > 0
    ensures RunGroups(step, allStatic, records, groups, |groups|) == Run(records, [ExistingValuesSql(su, groups[0])], Some(0))
  {
    RejectedQueryFails(step, su, allStatic, records, groups[0]);
    assert RunGroups(step, allStatic, records, groups, 1) == Run(records, [ExistingValuesSql(su, groups[0])], Some(0));
    RunGroupsStopsAtFailure(step, allStatic, records, groups, 1, |groups|);
  }
}

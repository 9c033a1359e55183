/** The database behind `ActiveRecord::Base.connection.execute`, reduced to what the
    inserter relies on: a table of records and the log of statements executed. Each
    statement is passed with the meaning of its text (the predicate of a SELECT, the
    columns and value tuples of an INSERT). */
module Storage {
  import opened Optional
  import opened Lists
  import opened Sql

  /** The tuples `SELECT columns FROM table WHERE where` returns, in table order. */
  function SelectRows(records: seq<Record>, where: Where, columns: seq<string>): (rows: seq<seq<Value>>)
    ensures forall x :: x in rows <==> exists r :: r in records && Eval(where, r) && Project(r, columns) == x
  {
    if |records| == 0 then []
    else
      assert records == [records[0]] + records[1..];
      (if Eval(where, records[0]) then [Project(records[0], columns)] else [])
        + SelectRows(records[1..], where, columns)
  }

  /** An INSERT succeeds when it has at least one tuple, names no column twice and every
      tuple fills every column. */
  predicate InsertAccepted(columns: seq<string>, tuples: seq<seq<Value>>)
  {
    |tuples| > 0 && NoDuplicates(columns) && forall i :: 0 <= i < |tuples| ==> |tuples[i]| == |columns|
  }

  function RecordsOf(columns: seq<string>, tuples: seq<seq<Value>>): seq<Record>
    requires forall i :: 0 <= i < |tuples| ==> |tuples[i]| == |columns|
  {
    seq(|tuples|, i requires 0 <= i < |tuples| => RecordOf(columns, tuples[i]))
  }

  class Database {
    var records: seq<Record>
    var log: seq<string>

    constructor (records: seq<Record>)
      ensures this.records == records && log == []
    {
      this.records := records;
      log := [];
    }

    /** `query` is the predicate the text means, or None when the text is not a valid
        query; the database then raises and returns nothing. */
    method Select(sql: string, query: Option<Where>, columns: seq<string>) returns (ok: bool, rows: seq<seq<Value>>)
      modifies this`log
      ensures log == old(log) + [sql]
      ensures ok == query.Some?
      ensures rows == if ok then SelectRows(records, query.value, columns) else []
    {
      ok := query.Some?;
      rows := if ok then SelectRows(records, query.value, columns) else [];
      log := log + [sql];
    }

    /** `parsed` says whether the text is a valid INSERT at all; `columns` and `tuples`
        are what it names and carries. A rejected INSERT raises and changes no record. */
    method Insert(sql: string, parsed: bool, columns: seq<string>, tuples: seq<seq<Value>>) returns (ok: bool)
      modifies this
      ensures log == old(log) + [sql]
      ensures ok == (parsed && InsertAccepted(columns, tuples))
      ensures records == if ok then old(records) + RecordsOf(columns, tuples) else old(records)
    {
      ok := parsed && InsertAccepted(columns, tuples);
      if ok {
        records := records + RecordsOf(columns, tuples);
      }
      log := log + [sql];
    }
  }
}
